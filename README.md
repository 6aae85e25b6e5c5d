# network-segmenter, modelled in Dafny

This project models the core of network-segmenter, a C++ CIDR subnet calculator. It covers masks, the byte-vector arithmetic of IP addresses, the IPv4 and IPv6 text forms, the boundaries of a network, and `segment`, which splits a network into equal subnets. The model then proves what these operations compute.

- **Bytes.** An address is a big-endian sequence of bytes (0..255). Its value is `ToNat`.
- **Bitwise operations.** `&` and `|` on a byte are the arithmetic `And` and `Or` of module `Bits`, defined bit by bit. `~` on a `uint8_t` is `255 - x`.

Modules follow the source:

- **`Masks`** covers `Mask`: the construction loop, `operator~`, `operator[]` and `print`.
- **`AddressArith`** holds the operators of `IPAddress` and `IPv6Address::operator+=(vector)` as functions of the old bytes. It also holds their meaning in the number view.
- **`Addresses`** has the class `IPAddress`.
  - Its methods change `bytes` in place with the source's loops.
  - Each method is proved against the matching `AddressArith` function.
  - A family tag `V4 | V6` stands for the two subclasses.
- **`IPv4` and `IPv6`** cover the text forms that `setAddress` accepts and that `print` writes.
- **`Networks`** has the class `Network`. Its constructor computes the block of addresses, and `segment` builds the subnets.
- **`Utils`** is `utils::split`.
- **`Numerals`** holds the decimal and hex numerals that `std::stoi` reads and `operator<<` writes.

Exceptions become `Result`/`Outcome` values carrying an `Error`. C++ `int` and `uint32_t` conversions are written out (`Int32Of`, `Uint32Of`), and so are the truncating `/` and `%` (`TruncDiv`, `TruncMod`).

## Model

| member | source | states |
|---|---|---|
| Masks.NewMask | src/mask/mask.cpp:14-60 | Succeeds exactly when 1 <= p <= 128, otherwise fails with InvalidPrefixLength. On success the mask has prefix length p and the octets `PrefixOctets(p)` the push_back loop emits. |
| Masks.PrefixOctets | src/mask/mask.cpp:45-59 | The mask of prefix length p has ceil(p/8) octets. |
| Masks.PrefixOctetsShape | src/mask/mask.cpp:48-57 | The first floor(p/8) octets are 255. When p mod 8 = r is not 0, the next octet is the partial octet with r leading ones. |
| Masks.PartialOctetValue | src/mask/mask.cpp:54-57 | The partial octet is `0xFF << (8 - r)` narrowed to 8 bits, that is 256 - 2^(8-r). |
| Masks.PrefixBits | src/mask/mask.cpp:36-60 | Bit j of the octets, counted MSB first, is 1 exactly when j < p. This holds for every j below 8 times the size. |
| Masks.DefaultMask | include/mask/mask.h:66-67 | `Mask()` has prefix length 1 and no octets. |
| Masks.At | include/mask/mask.h:180-190 | Index i gives octet i when i is below the size, and IndexOutOfRange otherwise. It is an if-and-only-if. |
| Masks.Complemented | include/mask/mask.h:201-213 | `~m` keeps the prefix length and the size. Each octet plus the matching octet of m is 255. |
| Masks.Complement | include/mask/mask.h:201-213 | The copy-and-flip loop computes `Complemented(m)`. |
| Masks.ComplementInvolutive | include/mask/mask.h:201-213 | `~~m == m`. |
| Masks.ComplementSplits | include/mask/mask.h:201-213 | `m[i] & (~m)[i] == 0` and their bitwise or `ByteOr(m[i], (~m)[i])` is 255 for every i. |
| Masks.Print | include/mask/mask.h:224-240 | Writes the octets in decimal, joined by ".". |
| Numerals.WriteDotted | include/address/ipv4_address.h:99-115 | The print loop writes `Dotted(a)`: each byte in decimal, with "." between neighbours. |
| Numerals.NumeralValue | src/address/ipv4_address.cpp:40 | Base 10 or 16 output has no leading zeros and is a non-empty digit string. `stoi` reads it back as the same number. |
| Numerals.DecimalCanonical | src/address/ipv4_address.cpp:33-46 | A decimal digit string without leading zeros is the numeral of its own value. |
| Utils.Split | src/utils/utils.cpp:15-31 | The find loop returns `Tokens(s, d)`. |
| Utils.TokensFrom | src/utils/utils.cpp:28 | The scan always ends with the last piece, so the result is never empty. |
| Utils.FindFirstOccurrence | src/utils/utils.cpp:21-24 | `find` returns the first occurrence at or after `start`. It reports none only when there is no occurrence. |
| Utils.JoinTokens | src/utils/utils.cpp:15-31 | Joining the pieces with the delimiter gives back the string. |
| Utils.TokensFree | src/utils/utils.cpp:21-25 | No piece contains the delimiter. |
| Utils.TokensCount | src/utils/utils.cpp:21-28 | There is one more piece than the number of non-overlapping delimiter occurrences, counted left to right. |
| Addresses.IPAddress.constructor | include/address/ip_address.h:42-43 | A new address of family f is `Width(f)` zero bytes: 4 for IPv4, 16 for IPv6. |
| Addresses.IPAddress.Of | src/network/ipv4_network.cpp:67 | The copy constructor gives an address of the same family holding the same bytes. |
| Addresses.IPAddress.Clone | include/address/ipv4_address.h:59-62 | Gives a fresh object with the same family and bytes. |
| Addresses.IPAddress.Size | include/address/ip_address.h:119-122 | `getSize` is the current length of the byte vector. |
| Addresses.IPAddress.At | include/address/ip_address.h:253-263 | Index i gives byte i when i is below the size, and IndexOutOfRange otherwise. |
| Addresses.Capacity | include/address/ip_address.h:234-244 | 65536 for every prefix length from 32 on, whatever the family, and 2^(32-p) below 32. |
| Addresses.CapacityBound | include/address/ip_address.h:243 | The capacity lies between 1 and 2^31, so `1 << (32 - p)` read as uint32 is exact. |
| Addresses.CompatibleIsValid | include/address/ipv4_address.h:73-76 | `isPrefixLengthCompatible` accepts 1..32 for IPv4 (and 1..128 for IPv6), that is exactly 1..8·width. A compatible length is a valid mask length. |
| Addresses.IPAddress.Increment | src/address/ip_address.cpp:14-28 | `++` makes the bytes `Incremented(old bytes)`. |
| AddressArith.IncrementedValue | src/address/ip_address.cpp:14-28 | `++` adds 256^t to the value, where t counts the trailing 255 bytes; those bytes are left as they are. An all-255 vector does not change. |
| AddressArith.IncrementIsSuccessor | src/address/ip_address.cpp:14-28 | When the last byte is below 255, `++` is +1. An all-255 address is unchanged. |
| Addresses.IPAddress.Decrement | src/address/ip_address.cpp:38-52 | `--` makes the bytes `Decremented(old bytes)`. |
| AddressArith.DecrementedValue | src/address/ip_address.cpp:38-52 | `--` subtracts 256^t, where t counts the trailing zero bytes; those bytes are left as they are. An all-zero vector does not change. |
| AddressArith.DecrementIsPredecessor | src/address/ip_address.cpp:38-52 | When the last byte is not 0, `--` is -1. An all-zero address is unchanged. |
| Addresses.IPAddress.AddInt | src/address/ip_address.cpp:64-85 | The carry loop, with its early break and C++ `sum % 256` and `sum / 256`, computes `AddCarry(old bytes, n)`. |
| AddressArith.AddCarryValue | src/address/ip_address.cpp:64-85 | For n >= 0, `+= n` makes the value (old + n) mod 256^size and keeps the size. |
| Addresses.IPAddress.SubtractInt | src/address/ip_address.cpp:97-118 | The borrow loop, with truncating `/` and `%`, computes `SubtractAsWritten(old bytes, d)`. |
| AddressArith.SubtractWithinLastByte | src/address/ip_address.cpp:97-118 | For 0 <= d <= last byte, `-= d` lowers only the last byte, by d, and the value by d. The as-written and the intended loops agree here. |
| AddressArith.SubtractAsWrittenCounterexample | src/address/ip_address.cpp:97-118 | On 4 bytes ending in 3, 0, the as-written `-= 256` raises the value by 256. The intended borrow lowers it by 256. |
| AddressArith.SubtractOneAsWritten | src/address/ip_address.cpp:97-118 | On 4 bytes ending in 0, the as-written `-= 1` sets the last byte to 255 and borrows nothing, so the value rises by 255. |
| AddressArith.SubtractBorrowValue | src/address/ip_address.cpp:97-118 | A negative difference borrows ceil(-diff/256) from the byte before. With that borrow, `-= d` makes the value (old - d) mod 256^size. |
| Addresses.IPAddress.AndMask | src/address/ip_address.cpp:130-154 | `&= m` makes byte i `a[i] & m[i]` where the mask has octet i, and 0 past it. The size is kept. |
| Addresses.IPAddress.OrMask | src/address/ip_address.cpp:166-190 | The or-assignment with m makes byte i the bitwise or `ByteOr(a[i], m[i])` where the mask has octet i, and 255 past it. The size is kept. |
| AddressArith.MaskedIdempotent | src/address/ip_address.cpp:130-190 | Applying `&= m` twice is applying it once, and the same holds for the or-assignment. |
| AddressArith.MaskedValue | src/address/ip_address.cpp:130-190 | Masking by prefix p rounds the value down to a multiple of 2^(8·size - p). The or-assignment with the complement of that mask sets every host bit below it. |
| AddressArith.MaskedClearsHostBits | src/network/network.cpp:28 | Masking the masked base by `~mask` leaves only zeros, so every host bit of the base is 0. |
| AddressArith.MaskedBlock | src/network/network.cpp:28 | The masked base is aligned to its block of 2^(host bits) addresses, at or below the address, and less than one block below it. |
| AddressArith.AlignedMasked | src/network/ipv4_network.cpp:73 | Masking an address already aligned to its block leaves it unchanged. |
| Addresses.IPAddress.AddBytes | src/address/ipv6_address.cpp:15-51 | The two-iterator carry loop, with its insert at the front, computes `AddVector(old bytes, inc)`. |
| AddressArith.AddVectorValue | src/address/ipv6_address.cpp:15-51 | `+= inc` adds `ToNat(inc)` to the value. The length stays the same exactly when the sum fits, and otherwise grows by one byte. |
| Addresses.IPAddress.Hextet | include/address/ipv6_address.h:139-152 | `operator[](i)` on an IPv6 address gives `byte[2i]·256 + byte[2i+1]` for i < 8, and IndexOutOfRange from 8 on. |
| IPv6.OctetsOfHextets | src/address/ipv6_address.cpp:169-170 | Storing each hextet as `v >> 8` and `v & 0xFF` gives back the 16 bytes the hextets were read from. |
| Addresses.IPAddress.FindLongestZeroSequence | src/address/ipv6_address.cpp:182-233 | The four-counter loop returns `LongestZeroRun` of the hextets. |
| IPv6.LongestZeroRunIsFirstLongest | src/address/ipv6_address.cpp:182-233 | The result is the first longest run of zero hextets, or (-1, -1) when no hextet is zero. Ties keep the earliest run because the comparison is a strict `>`. |
| Addresses.IPAddress.Print | include/address/ipv4_address.h:99-115 | IPv4 prints the bytes in dotted decimal. IPv6 prints `PrintAsWritten`. |
| Addresses.IPAddress.PrintHextets | src/address/ipv6_address.cpp:64-101 | The IPv6 print loop writes `PrintAsWritten(bytes)`. |
| IPv6.PrintedAsWritten | src/address/ipv6_address.cpp:64-101 | When the run does not start at hextet 0, the loop writes the hextets in lower-case hex joined by ":", with the run, even of length 1, replaced by "::". When the run starts at hextet 0, it writes a single ":" before the rest. |
| IPv6.PrintedIsCompressed | src/address/ipv6_address.cpp:64-101 | With the run at hextet 0 opened by "::" instead, the loop writes the compressed form of section 2.2 of RFC 4291. |
| Addresses.IPAddress.SetAddressV4 | src/address/ipv4_address.cpp:16-51 | Succeeds exactly when `IPv4.Parse` does, and then the bytes are the parsed ones. Otherwise it reports the same InvalidAddressFormat. |
| IPv4.Parse | src/address/ipv4_address.cpp:16-51 | Accepts exactly four "." parts, each a non-empty decimal digit string of value at most 255 (leading zeros allowed). Any other text gives InvalidAddressFormat. |
| IPv4.RoundTrip | src/address/ipv4_address.cpp:16-51 | Parsing the printed text of any 4 bytes gives them back. |
| IPv4.PrintParsed | include/address/ipv4_address.h:99-115 | Printing the parsed bytes of text without leading zeros writes that text back. |
| Addresses.ExpandHextets | src/address/ipv6_address.cpp:118-135 | Computes `IPv6.Expand(text)`: the hextet strings, with "::" expanded. |
| IPv6.Expand | src/address/ipv6_address.cpp:118-135 | Without "::", the hextets are the plain ":" split. With "::", there are eight of them, and ResizeFailure is the only error. |
| IPv6.Resize | src/address/ipv6_address.cpp:129 | `resize(n, "0")` cuts the list to n strings or pads it with "0". |
| Addresses.IPAddress.SetAddressV6 | src/address/ipv6_address.cpp:112-172 | Succeeds exactly when `IPv6.Parse` does, with the parsed 16 bytes in front and any bytes past them left alone. Otherwise it reports the same error. |
| Addresses.IPAddress.StoreHextets | src/address/ipv6_address.cpp:145-171 | Succeeds exactly when all eight strings are hextets, and then stores their values two bytes each. The size is kept. |
| IPv6.Parse | src/address/ipv6_address.cpp:112-172 | On success gives 16 bytes. The only errors are InvalidAddressFormat and ResizeFailure. |
| IPv6.ParseCompressed | src/address/ipv6_address.cpp:112-172 | The compressed form with any zero run replaced by "::", or with no run, parses back to the hextets' bytes. |
| IPv6.RoundTrip | src/address/ipv6_address.cpp:64-172 | Parsing the corrected print of any 16 bytes gives them back. |
| IPv6.RoundTripAsWritten | src/address/ipv6_address.cpp:64-172 | Parsing the as-written print gives the bytes back whenever the chosen zero run does not start at hextet 0. |
| IPv6.LeadingRunNotReparsed | src/address/ipv6_address.cpp:64-101 | When the run starts at hextet 0 (as in "::1"), the as-written print is text that `setAddress` rejects with InvalidAddressFormat. |
| Addresses.IPAddress.FromText | include/address/ipv4_address.h:37-48 | The string constructor succeeds exactly when the text parses for the family, and then holds those bytes. Otherwise it reports the parser's error. |
| Networks.Network.constructor | src/network/network.cpp:15-37 | The base is a copy of the address `&= Mask(p)`, the first address is `++` of the base, and the last is the base or-assigned with `~mask`. For IPv4 that last is the broadcast, and the last host is `--` of it. The network starts with no subnets. |
| Networks.NetworkRange | src/network/network.cpp:28-36 | The base is aligned to its block, at or below the address and within one block of it. Or-assigning `~mask` reaches the block's last address. |
| Networks.Network.HostsOf | src/network/ipv4_network.cpp:11-19 | With at least one host bit, the first address is base + 1. The last is base + 2^h - 1 for IPv6, and base + 2^h - 2 for IPv4, whose broadcast is base + 2^h - 1. |
| Networks.Network.Create | src/network/network.cpp:18-21 | An incompatible prefix length is refused with PrefixLengthIncompatible. Otherwise gives a valid network with that prefix length and the masked base. |
| Networks.Network.PrefixLength | include/network/network.h:125-128 | `getPrefixLength` is the mask's prefix length. |
| Networks.Network.SubnetCount | include/network/network.h:163-166 | `getSubnetCount` is the length of the subnet list. |
| Networks.Network.GetSubnet | include/network/network.h:223-233 | Index i gives subnet i when it is below the count, and IndexOutOfRange otherwise. |
| Arith.CeilLog2 | src/network/ipv4_network.cpp:47 | The integer `ceil(log2(n))`: n <= 2^k, and 2^(k-1) < n when k > 0. |
| Networks.NewPrefix | src/network/ipv4_network.cpp:47 | The new prefix length is at least p and leaves room for n subnets: n <= 2^(q - p). |
| Networks.SegmentCheck | src/network/ipv4_network.cpp:34-53 | The checks, in the source's order: InvalidSubnetCount, CapacityExceeded, PrefixOverflow. Pass exactly when 1 <= n <= capacity and the new prefix length is within the family. |
| Networks.IPv4OverflowOnlyAt32 | src/network/ipv4_network.cpp:41-53 | For IPv4 the new-prefix check fails exactly at /32 with 2..65536 subnets. Below /32 the capacity check already covers it. |
| Networks.SegmentFits | src/network/ipv4_network.cpp:47-56 | n blocks of the new size fit in the parent block, and no shorter new prefix would hold n. |
| Networks.Network.Segment | include/network/network.h:66 | Runs the checks before anything is cleared; on any failure the subnet list is unchanged. On success there are exactly n fresh subnets. Subnet k is k new blocks above the base, and it starts with an empty subnet list of its own. |
| Networks.Network.SegmentV4 | src/network/ipv4_network.cpp:32-75 | The same contract, for `IPv4Network::segment`: n fresh subnets, each k new blocks above the base and each with no subnets of its own. |
| Networks.Network.SubnetV4s | src/network/ipv4_network.cpp:65-74 | The loop makes n fresh subnets, subnet k at index k, none of them with subnets of its own. |
| Networks.Network.SubnetV4 | src/network/ipv4_network.cpp:67-73 | Copy the base, `+= increment * i`, make the subnet: it is subnet i of the base with prefix length q, with an empty subnet list. |
| Networks.IPv4Offset | src/network/ipv4_network.cpp:56-70 | `increment * i` in uint32, passed to `+=` as int, is exactly i·2^(32-q), with no wrap-around. |
| Networks.IPv4Child | src/network/ipv4_network.cpp:70 | The first sum in `+=` does not overflow, and the result is the base moved by i new blocks, still aligned. |
| Networks.Network.SegmentV6 | src/network/ipv6_network.cpp:15-67 | The contract of Segment, for `IPv6Network::segment`: n fresh subnets, each k new blocks above the base and each with no subnets of its own. |
| Networks.Network.IncrementV6 | src/network/ipv6_network.cpp:39-45 | The increment is 16 zero bytes with byte `15 - bits/8` set to `1 << (bits % 8)`. |
| Networks.IncrementVectorValue | src/network/ipv6_network.cpp:39-45 | The increment vector's value is 2^(128 - q). |
| Networks.Network.SubnetV6s | src/network/ipv6_network.cpp:54-66 | The loop makes n fresh subnets, subnet k at index k, none of them with subnets of its own. |
| Networks.Network.SubnetV6 | src/network/ipv6_network.cpp:56-65 | Adding the increment i times gives subnet i of the base, with an empty subnet list. |
| Networks.IPv6Step | src/network/ipv6_network.cpp:59-62 | Each `+= increment` moves the address one new block up and keeps it 16 bytes, with no growth. |
| Networks.SubnetsIncreasing | src/network/ipv4_network.cpp:65-74 | Subnet bases increase strictly with the index. |
| Networks.SubnetsInside | src/network/ipv4_network.cpp:65-74 | Every subnet, with its whole block, lies inside the parent's block. |
| Networks.SubnetDetermined | src/network/ipv4_network.cpp:59-74 | Subnet k is fixed by the base, k and q, so two segment calls with the same count make subnets with equal addresses and masks. |

## Left out

- Network keeps its addresses as byte values, not as `IPAddress` objects. After construction the source reaches them only through `const IPAddress*` getters, so nothing changes them in place.
- Destructors, `delete`, and the leak of the old children in `_subnets.clear()` are not modelled; the model has no manual memory management.
- The network table printers `IPv4Network::print` and `IPv6Network::print` are not modelled: they are stream formatting.
- `src/main.cpp` is not modelled: it handles command-line arguments and console output.
- The plain getters `getIp`, `getFirstIp`, `getLastIp`, `getBroadcastIp` and `getMask` have no members of their own: in the model they are read as fields.
- Output streams are not modelled. Each `print` returns the text it would write.
- Arith.CeilLog2: stands for the floating-point `ceil(log2(n))` with the exact integer value. Rounding in `log2` is not modelled.
- Addresses.Capacity: gives 2^31 at prefix length 1, where the source shifts `1 << 31` in a signed `int` before it returns as uint32.
- IPv4.Parse: treats every digit string by its value. `std::stoi` throwing out_of_range on a digit string too long for an `int` is folded into the InvalidAddressFormat failure.
- IPv6.Parse: treats every hex digit string by its value. `std::stoi(hextet, nullptr, 16)` throwing out_of_range on a hextet above INT_MAX ("ffffffff::", say) is folded into the InvalidAddressFormat failure. The same holds for SetAddressV6 and FromText on IPv6 text.
- Addresses.IPAddress.AddInt: requires the first sum, last byte plus n, to fit in an `int`. Beyond that the source's signed overflow is undefined.
- Addresses.IPAddress.SubtractInt: requires likewise that the first difference fits in an `int`.
- Addresses.IPAddress.AddBytes: requires the increment to be no longer than the address. A longer one makes the source's loop use an invalidated iterator after `insert`.
- Addresses.IPAddress.SetAddressV4: does not state which bytes a failing call has already overwritten. Only the failure itself is stated.
- Addresses.IPAddress.SetAddressV6: does not state which bytes a failing call has already overwritten. Only the failure itself is stated.
- Networks.Network.Segment: requires the base to have exactly the family width. An IPv6 address that grew through `+=` before the network was built is not segmented in the model.
- Networks.Network.Segment: the loops are written as the helper methods SubnetV4s/SubnetV4 and SubnetV6s/SubnetV6, and the new list is assigned once at the end. The source clears the list and pushes one subnet at a time.

## Findings

| source | as written | input that shows it | evidently intended | confidence | as-written member | corrected member |
|---|---|---|---|---|---|---|
| src/address/ip_address.cpp:97-118 | `-=` keeps `difference % 256` and passes on `difference / 256`, both truncating; a negative difference gives a negative borrow that adds to the byte before | 1.2.3.0 `-= 256` gives 1.2.4.0; x.y.z.0 `-= 1` gives x.y.z.255, with no borrow | the value goes down by d modulo 256^size (1.2.2.0) | not executed | AddressArith.SubtractAsWrittenCounterexample | AddressArith.SubtractBorrowValue |
| src/address/ipv6_address.cpp:64-101 | the loop writes a single ":" before the zero run, so a run starting at hextet 0 prints with one ":" | the address ::1 (15 zero bytes, then 1) prints ":1", which `setAddress` rejects | "::1", the compressed form of section 2.2 of RFC 4291, which parses back to the address | not executed | IPv6.LeadingRunNotReparsed | IPv6.RoundTrip |
