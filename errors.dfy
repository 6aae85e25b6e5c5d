/** The failures the calculator reports, and a result type that carries them.
    The source throws `std::invalid_argument` or `std::out_of_range`; each
    constructor below names the condition that raises one of them. */
module Errors {

  datatype Error =
    | InvalidAddressFormat      // a textual address that does not parse (invalid_argument)
    | InvalidPrefixLength       // a mask prefix length outside 1..128 (invalid_argument)
    | PrefixLengthIncompatible  // a prefix length the address family rejects (invalid_argument)
    | InvalidSubnetCount        // segment(n) with n < 1 (invalid_argument)
    | CapacityExceeded          // segment(n) with n above the network capacity (invalid_argument)
    | PrefixOverflow            // segment(n) whose new prefix length passes the family maximum (invalid_argument)
    | IndexOutOfRange           // a subscript past the end of a mask, address or subnet list (out_of_range)
    | ResizeFailure             // vector::resize with a size that wrapped around (length_error)

  datatype Result<+T> = Ok(value: T) | Err(error: Error)

  /** The outcome of an operation that returns nothing but may fail. */
  datatype Outcome = Pass | Fail(error: Error)
}
