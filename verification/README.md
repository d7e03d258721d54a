# Subnet Tool — arithmetic core in Dafny

This project models the calculating part of the Subnet Tool (`script.js`). The tool is a
browser calculator for IPv4 subnets with prefix lengths /24 to /30. It has five parts:

- **Prefix-to-mask table.** `subnetMasks` maps each prefix length to its dotted mask.
- **Address helpers.**
  - `ipToArray` splits an address on dots and converts each part with `Number`.
  - `toBinary` renders an octet as eight binary digits.
- **Subnet calculation.** `calculateSubnet` finds the network, broadcast, first and last
  usable host, and usable-host count. It ANDs the address with the mask octet by octet,
  then adds offsets within the last octet.
- **Host-count search.** `cidrFromHosts` finds the smallest subnet (longest prefix) whose
  usable hosts cover a requested count.
- **Submit path.** The form's submit handler validates the address, applies the guards on
  the prefix and host-count fields, and calls the above.

The model is a set of pure functions on immutable values:

- Addresses are sequences of four naturals.
- Strings are `seq<char>`.
- JavaScript's `&` on octets is a recursive bitwise AND on naturals (`Bits.And`).
- `Math.pow(2, k)` is the exact power `Bits.Pow2(k)`.
- Outcomes JavaScript reports as `undefined`, `null`, `NaN` or a thrown `TypeError` are an
  `Option` (`Wrappers`) or an explicit `Submit.Outcome`.

Modules:

- `Wrappers`: `Option`.
- `Bits`: powers of two, exact division facts, rounding down to a multiple, and bitwise AND.
  It also proves that a high-bits mask rounds a value down.
- `Text`: `split` and `join` on a one-character separator.
- `Numerals`: digit strings, `Number#toString(radix)`, `padStart` and `toBinary`.
- `Address`: `Number` on one part, `ipToArray`, the validator, `join(".")`, and the 32-bit
  reading of four octets.
- `Masks`: the `subnetMasks` table and the prefix-mask formula it agrees with.
- `Subnet`: `calculateSubnet`.
- `HostCount`: `cidrFromHosts` and the host-count guard.
- `Submit`: the calculating path of the submit handler.
- `Scenarios`: worked examples on concrete inputs.

The table row for `Masks.MaskTableParses` carries one detail that matters. `calculateSubnet`
obtains its mask octets as `ipToArray(subnetMasks[cidr])`, by parsing text. `Masks.MaskOctets`
gives those octets by formula instead: 255, 255, 255, then 256 − 2^(32 − cidr).
`Masks.MaskTableParses` proves that parsing each table string yields exactly those octets.
So the formula is what the source computes, not an idealisation of it.

## Model

| member | source | states |
|---|---|---|
| Masks.MaskText | script.js:4-12 | the table has an entry exactly for the prefix lengths 24 to 30 and is `undefined` for every other value |
| Masks.MaskTableParses | script.js:29 | each table string passes the address validator, and `ipToArray` of it gives 255.255.255.m with 256 − m equal to the block size 2^(32 − cidr); an entry exists exactly when the prefix-mask formula gives a mask |
| Masks.MaskIsShiftedOnes | script.js:4-12 | read as one 32-bit number, each tabulated mask is the all-ones word shifted left by the host-bit count, so it is the standard prefix mask |
| Masks.MaskWord | script.js:4-12 | read as one 32-bit number, each tabulated mask is 2^32 minus the block size |
| Masks.BlockSize | script.js:32-33 | the block size 2^(32 − cidr) fits in one octet (at most 256) for prefixes from /24 on, and has room for a network, a broadcast and a host (at least 4) up to /30 |
| Text.Split | script.js:18 | `split(".")` yields at least one piece, no piece contains a dot, and joining the pieces with dots gives back the input |
| Text.SplitJoin | script.js:18 | splitting undoes joining when no piece contains the separator |
| Numerals.ToString | script.js:22 | `toString(radix)` of a natural is a canonical digit string (no leading zero) whose value is that natural |
| Numerals.ToStringValue | script.js:22 | every canonical digit string is the `toString` of its own value |
| Numerals.PadStart | script.js:22 | `padStart` keeps the string as a suffix, fills only in front, and reaches the requested length |
| Numerals.BinaryLength | script.js:22 | a value below 2^k needs at most k binary digits, so the padded octet never exceeds eight digits |
| Numerals.ToBinary | script.js:21-23 | `toBinary` of an octet is exactly eight binary digits whose value is the octet |
| Address.Number | script.js:18 | `Number` of a part is defined exactly when the part is all decimal digits; the empty part converts to 0; a canonical part is the rendering of its value |
| Address.IpToArray | script.js:17-19 | split on "." and then `Number` on each part. `Address.ParseAddress` states its result on accepted input, and `Address.EmptyPartAccepted` states its result on "1..2.3" |
| Address.IsValidAsWritten | script.js:190-191 | the validator as written: exactly four parts, each numeric and at most 255; empty parts pass |
| Address.FormatAddress | script.js:220-223 | `join(".")` of the decimal renderings of the octets. `Address.ParseFormat` and `Address.FormatParse` relate it to parsing in both directions |
| Address.NumberZeroPadded | script.js:18 | zeros in front of a non-empty digit string leave `Number`'s value unchanged, so a part such as "010" converts to 10 |
| Address.ParseAddress | script.js:190-194 | an address is accepted exactly when the corrected validator accepts it; the result is four octets, and each octet is what `ipToArray` gives for that part |
| Address.ParseFormat | script.js:214-223 | any four octets rendered with `join(".")` pass the validator, have no leading zeros, and `ipToArray` gives them back |
| Address.FormatParse | script.js:214-223 | for an accepted address without leading zeros, `ipToArray(x).join(".")` is `x` |
| Address.EmptyPartAccepted | script.js:190-191 | the validator as written accepts "1..2.3", `ipToArray` reads it as 1.0.2.3, the rendering differs from the input, and the corrected validator rejects it |
| Address.U32Bound | script.js:30 | four octets read as one number stay below 2^32, the width of JavaScript's `&` |
| Bits.Pow2 | script.js:33 | `Math.pow(2, k)` as an exact power: at least 1, and even for k ≥ 1. `Bits.Pow2Add` and `Bits.Pow2Monotone` give its sum law and strict growth. It is also used at script.js:59 |
| Bits.And | script.js:30 | JavaScript's `&` on non-negative operands: the result is at most either operand. `Bits.AndAllOnes` and `Bits.AndClearsLowBits` give its value on the table's masks |
| Bits.AndAllOnes | script.js:30 | ANDing an n-bit value with n one-bits leaves it unchanged (the 255 octets of the mask) |
| Bits.AndClearsLowBits | script.js:30 | ANDing an n-bit value with a mask whose top n − k bits are set rounds it down to a multiple of 2^k |
| Bits.RoundDown | script.js:30 | the rounded value is a multiple of the divisor, at most the input, and within one divisor of it |
| Subnet.MaskedOctets | script.js:30 | octets 0 to 2 pass the mask unchanged, and octet 3 is rounded down to a multiple of the block size |
| Subnet.BlockFitsInOctet | script.js:35-36 | adding the block size minus one to the network's last octet never carries out of the octet |
| Subnet.CalculateSubnet | script.js:28-51 | a result exists exactly for /24 to /30. The network keeps octets 0 to 2 and rounds octet 3 down to a block boundary, so the address lies in the block. The broadcast is the top of the block and stays a valid octet. network < first ≤ last < broadcast. totalHosts is 2^(32 − cidr) − 2, which is last − first + 1 |
| Subnet.FullWidthNetwork | script.js:29-30 | read as 32-bit numbers, the octet-wise network equals the whole address ANDed with the whole mask, which is the address rounded down to the block size |
| Subnet.FullWidthRange | script.js:32-49 | read as 32-bit numbers, the network-to-broadcast block holds exactly 2^(32 − cidr) addresses and contains the address; the usable hosts lie strictly inside it, and there are totalHosts of them |
| Subnet.NetworkIsMaskedWord | script.js:29-30 | the 32-bit AND of an address with a tabulated mask is the address rounded down to the block size |
| HostCount.UsableHostsDecreasing | script.js:59 | a longer prefix has strictly fewer usable hosts |
| HostCount.Scan | script.js:58-62 | the loop returns the first host-bit width whose usable hosts cover the request; all narrower widths are too small, and if it finds nothing, every width is too small |
| HostCount.CidrFromHosts | script.js:56-63 | null exactly above 254 hosts. Otherwise the prefix covers the request and every longer prefix up to /31 does not. A request of at least 1 gets a prefix up to /30; a request of 0 or less gets /31 |
| HostCount.CidrFromHostsIsSmallest | script.js:56-63 | for requests up to 254 hosts, the result is exactly the unique prefix that covers the request while the next longer prefix does not (both directions) |
| HostCount.ResolvePrefix | script.js:206-211 | the host-count guard lets a request through exactly when it is 1 to 254; the prefix then has a table entry and covers the request |
| Submit.HandleSubmit | script.js:189-215 | an invalid address is refused first. In manual mode, a prefix is refused exactly when outside /24 to /30. In host mode, a count is refused exactly when outside 1 to 254. A valid address with an in-range prefix or count is always computed. A computed result is `calculateSubnet` on the parsed address, with the typed prefix or the smallest prefix covering the count |
| Scenarios.Slash26Bounds | script.js:28-51 | 192.168.1.10/26 has network 192.168.1.0 and broadcast 192.168.1.63 |
| Scenarios.Slash26Hosts | script.js:28-51 | 192.168.1.10/26 has usable hosts 192.168.1.1 to 192.168.1.62, 62 in all |
| Scenarios.Slash24Example | script.js:28-51 | 10.0.0.5/24 has network 10.0.0.0, broadcast 10.0.0.255 and 254 usable hosts |
| Scenarios.HostCountExamples | script.js:56-63 | 10 hosts give /28, 254 hosts give /24, 300 hosts give null |
| Scenarios.OutOfRangeOctetRejected | script.js:191 | "10.0.0.256" is refused |
| Scenarios.BinaryExample | script.js:21-23 | the octet 10 renders as 00001010 |

## Left out

- The DOM is not modelled. That covers reading the fields, `trim()`, writing `innerHTML`,
  the prefix-mode dropdown toggle (`toggleCidrInputs`), the teaching-mode HTML
  (`renderTeaching`) and the `setTimeout` animation. They are presentation only. The address
  field is taken as already trimmed.
- `Number` is modelled only on the empty string and on strings of ASCII decimal digits.
  Every other string is NaN. JavaScript also accepts surrounding whitespace, signs, decimal
  points, exponents and `0x`/`0o`/`0b` prefixes. Such parts ("0x1", "1e2", " 7") are not
  modelled.
- Submit.HandleSubmit takes the prefix and host-count fields as integers. A NaN or
  fractional field value is not modelled. A NaN host count would pass the guard at line 207,
  after which `cidrFromHosts` returns null and `calculateSubnet` throws.
- `Math.pow` is modelled as an exact power of two, not a floating-point number. Every power
  used (2^1 to 2^8) is exact in a double.
- `&` is modelled on naturals, not as a signed 32-bit operation. The two agree on operands
  below 2^31, which covers octets and masks.
- Teaching mode is not modelled. It renders each octet with `toBinary` (script.js:112),
  and `toBinary` itself is modelled. Its text names a gateway (script.js:170) built by
  adding 1 to the typed address's last octet rather than the network's. That text is
  explanatory output outside the calculation.

## Findings

| source | as written | input that shows it | evidently intended | confidence | as-written member | corrected member |
|---|---|---|---|---|---|---|
| script.js:191 | the validator rejects a part only if it is NaN, negative or above 255; `Number("")` is 0, so an empty part passes | "1..2.3" is accepted and computed as 1.0.2.3 | an address whose four parts are each a decimal octet, so that an accepted address is the rendering of its own octets | not executed | Address.EmptyPartAccepted | Address.FormatParse |

`Address.IsValidAsWritten` is the validator as written. `Address.IsValid` adds the missing
non-empty check. `Address.ParseAddress` and `Submit.HandleSubmit` use the corrected
validator. Under it, `Address.FormatParse` proves that an accepted address without leading
zeros is the `join(".")` rendering of its octets.
