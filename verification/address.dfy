/** Dotted-quad addresses: the validator of the submit handler, `ipToArray`, and the
    `join(".")` rendering of an octet array. */
module Address {

  import opened Wrappers
  import opened Text
  import opened Numerals

  /** Four octets, most significant first. */
  predicate IsOctets(a: seq<nat>) {
    |a| == 4 && forall i :: 0 <= i < 4 ==> a[i] <= 255
  }

  /** JavaScript's `Number(p)` on one dot-separated part, over the forms this model covers:
      a string of ASCII decimal digits converts to the number it denotes, the empty string
      converts to 0, and every other string is NaN (None). */
  function Number(p: string): (r: Option<nat>)
    ensures r.Some? <==> AllDigits(p, 10)
    ensures p == [] ==> r == Some(0)
    ensures r.Some? && IsCanonical(p) ==> ToString(r.value, 10) == p
  {
    if !AllDigits(p, 10) then None
    else if IsCanonical(p) then ToStringValue(p, 10); Some(Value(p, 10))
    else Some(Value(p, 10))
  }

  /** Zeros in front of a non-empty digit string do not change what `Number` makes of it:
      "010" converts to 10, like "10". */
  lemma NumberZeroPadded(z: string, s: string)
    requires forall i :: 0 <= i < |z| ==> z[i] == '0'
    requires s != [] && AllDigits(s, 10)
    ensures Number(z + s) == Number(s)
  {
    LeadingZeros(z, s, 10);
  }

  /** `ipToArray`: split on '.' and convert each part with `Number`. */
  function IpToArray(ip: string): seq<Option<nat>> {
    var parts := Split(ip, '.');
    seq(|parts|, i requires 0 <= i < |parts| => Number(parts[i]))
  }

  /** The validator of the submit handler as written: exactly four parts, none NaN, none
      above 255. In this model, which leaves signs out, a `Number` result is never negative,
      so the `p < 0` test never fires. Because `Number("")` is 0, an empty part passes. */
  predicate IsValidAsWritten(input: string) {
    var parts := Split(input, '.');
    |parts| == 4 && forall i :: 0 <= i < 4 ==> Number(parts[i]).Some? && Number(parts[i]).value <= 255
  }

  /** The validator with the empty-part gap closed: every part must also be non-empty. */
  predicate IsValid(input: string) {
    var parts := Split(input, '.');
    IsValidAsWritten(input) && forall i :: 0 <= i < 4 ==> parts[i] != []
  }

  /** Validation followed by `ipToArray`: the octets of an accepted address, or None for
      input the validator rejects. */
  function ParseAddress(input: string): (r: Option<seq<nat>>)
    ensures r.Some? <==> IsValid(input)
    ensures r.Some? ==> IsOctets(r.value)
    ensures r.Some? ==> IsValidAsWritten(input)
    ensures r.Some? ==> |Split(input, '.')| == 4
    ensures r.Some? ==> forall i :: 0 <= i < 4 ==> IpToArray(input)[i] == Some(r.value[i])
  {
    if !IsValid(input) then None
    else
      var a := IpToArray(input);
      Some(seq(4, i requires 0 <= i < 4 => a[i].value))
  }

  /** The 32-bit unsigned number four octets stand for, most significant octet first. */
  function ToU32(a: seq<nat>): nat
    requires |a| == 4
  {
    ((a[0] * 256 + a[1]) * 256 + a[2]) * 256 + a[3]
  }

  lemma U32Bound(a: seq<nat>)
    requires IsOctets(a)
    ensures ToU32(a) < 0x1_0000_0000
  {
  }

  /** `a.join(".")` for an array of non-negative integers. */
  function FormatAddress(a: seq<nat>): string {
    Join(seq(|a|, i requires 0 <= i < |a| => ToString(a[i], 10)), '.')
  }

  /** No dot-separated part carries a superfluous leading zero ("01" does; "0" and "" do not). */
  predicate NoLeadingZeros(input: string) {
    var parts := Split(input, '.');
    forall i :: 0 <= i < |parts| ==> |parts[i]| >= 2 ==> parts[i][0] != '0'
  }

  /** Every array of four octets renders to text the validator accepts and parses back to
      the same octets. */
  lemma ParseFormat(a: seq<nat>)
    requires IsOctets(a)
    ensures ParseAddress(FormatAddress(a)) == Some(a)
    ensures NoLeadingZeros(FormatAddress(a))
  {
    var parts := seq(4, i requires 0 <= i < 4 => ToString(a[i], 10));
    var s := FormatAddress(a);
    assert forall i :: 0 <= i < 4 ==> '.' !in parts[i] by {
      forall i | 0 <= i < 4 ensures '.' !in parts[i] {
        assert AllDigits(parts[i], 10);
      }
    }
    SplitJoin(parts, '.');
    assert Split(s, '.') == parts;
    assert forall i :: 0 <= i < 4 ==> Number(parts[i]) == Some(a[i]);
    assert IsValid(s);
    var arr := IpToArray(s);
    assert forall i :: 0 <= i < 4 ==> arr[i] == Some(a[i]);
    assert seq(4, i requires 0 <= i < 4 => arr[i].value) == a;
  }

  /** On an accepted address written without superfluous leading zeros, rendering the
      parsed octets gives back the input (`ipToArray(x).join(".") == x`). */
  lemma FormatParse(input: string)
    requires ParseAddress(input).Some? && NoLeadingZeros(input)
    ensures FormatAddress(ParseAddress(input).value) == input
  {
    var a := ParseAddress(input).value;
    var parts := Split(input, '.');
    var rendered := seq(4, i requires 0 <= i < 4 => ToString(a[i], 10));
    assert forall i :: 0 <= i < 4 ==> rendered[i] == parts[i] by {
      forall i | 0 <= i < 4 ensures rendered[i] == parts[i] {
        assert IsCanonical(parts[i]);
        assert Number(parts[i]) == Some(a[i]);
      }
    }
    assert rendered == parts;
  }

  /** The octets 1, 0, 2, 3 render as "1.0.2.3". */
  lemma FormatOneZeroTwoThree()
    ensures FormatAddress([1, 0, 2, 3]) == "1.0.2.3"
  {
    var octets: seq<nat> := [1, 0, 2, 3];
    var rendered := seq(4, i requires 0 <= i < 4 => ToString(octets[i], 10));
    assert ToString(1, 10) == "1" && ToString(0, 10) == "0";
    assert ToString(2, 10) == "2" && ToString(3, 10) == "3";
    assert rendered == ["1", "0", "2", "3"];
    assert Join(rendered[3..], '.') == "3";
    assert Join(rendered[2..], '.') == "2.3";
    assert Join(rendered[1..], '.') == "0.2.3";
    assert Join(rendered, '.') == "1.0.2.3";
  }

  /** The validator as written accepts "1..2.3": its empty part converts to 0, so the input
      is taken as 1.0.2.3, which renders to different text although no part has a leading
      zero. The validator with empty parts refused rejects it. The input is a parameter
      fixed by the precondition rather than a literal in the postconditions, so the
      verifier does not unfold `Split` on the literal text in every clause. */
  lemma EmptyPartAccepted(input: string)
    requires input == "1..2.3"
    ensures IsValidAsWritten(input) && NoLeadingZeros(input)
    ensures IpToArray(input) == [Some(1), Some(0), Some(2), Some(3)]
    ensures FormatAddress([1, 0, 2, 3]) == "1.0.2.3" != input
    ensures !IsValid(input)
  {
    var parts := ["1", "", "2", "3"];
    assert Join(parts[3..], '.') == "3";
    assert Join(parts[2..], '.') == "2.3";
    assert Join(parts[1..], '.') == ".2.3";
    assert Join(parts, '.') == input;
    SplitJoin(parts, '.');
    assert Number("1") == Some(1) && Number("") == Some(0);
    assert Number("2") == Some(2) && Number("3") == Some(3);
    FormatOneZeroTwoThree();
  }

}
