/** The dotted-decimal text form of `IPv4Address`: what `setAddress`
    accepts and what `print` writes, and that the two agree. */
module IPv4 {
  import opened Errors
  import opened Utils
  import opened Numerals
  import opened Bytes

  /** IPV4_NUM_OCTETS. */
  const NumOctets: nat := 4

  /** A part `setAddress` accepts: non-empty, decimal digits only, value at most 255.
      Leading zeros are allowed. */
  predicate OctetText(t: string)
  {
    |t| >= 1 && DigitsIn(t, 10) && DigitsValue(t, 10) <= 255
  }

  /** `setAddress`: exactly four "."-separated parts, each an octet, read in order. */
  function Parse(text: string): (r: Result<seq<byte>>)
    ensures r.Ok? ==> |r.value| == NumOctets
    ensures r.Err? ==> r.error == InvalidAddressFormat
  {
    var parts := Tokens(text, ".");
    if |parts| == NumOctets && forall i :: 0 <= i < NumOctets ==> OctetText(parts[i]) then
      Ok(seq(NumOctets, i requires 0 <= i < NumOctets => DigitsValue(parts[i], 10)))
    else
      Err(InvalidAddressFormat)
  }

  /** Printing four bytes and parsing the text gives the bytes back. */
  lemma RoundTrip(a: seq<byte>)
    requires |a| == NumOctets
    ensures Parse(Dotted(a)) == Ok(a)
  {
    var parts := DecimalForms(a);
    forall i | 0 <= i < |parts|
      ensures '.' !in parts[i] && OctetText(parts[i]) && DigitsValue(parts[i], 10) == a[i]
    {
      NumeralValue(a[i], 10);
      DigitsHaveNoSeparator(parts[i], 10);
    }
    TokensOfJoin(parts, '.');
    assert Tokens(Dotted(a), ".") == parts;
    assert Parse(Dotted(a)).value == a;
  }

  /** A part written without leading zeros. */
  predicate Canonical(t: string)
  {
    OctetText(t) && (t[0] != '0' || |t| == 1)
  }

  /** Text whose four parts have no leading zeros is exactly what printing the
      parsed bytes writes; with a leading zero ("010") it parses but prints differently. */
  lemma PrintParsed(text: string)
    requires Parse(text).Ok?
    requires forall i :: 0 <= i < NumOctets ==> Canonical(Tokens(text, ".")[i])
    ensures Dotted(Parse(text).value) == text
  {
    var parts, a := Tokens(text, "."), Parse(text).value;
    forall i | 0 <= i < NumOctets
      ensures DecimalForms(a)[i] == parts[i]
    {
      DecimalCanonical(parts[i]);
    }
    assert DecimalForms(a) == parts;
    JoinTokens(text, ".");
  }
}
