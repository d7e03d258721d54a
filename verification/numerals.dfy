/** Digit strings in a radix between 2 and 10: the rendering `Number.prototype.toString(radix)`
    produces for a non-negative integer, the value a digit string denotes, and `padStart`. */
module Numerals {

  import opened Bits

  function DigitValue(c: char): int {
    c as int - '0' as int
  }

  function DigitChar(d: nat): (c: char)
    requires d < 10
    ensures DigitValue(c) == d
  {
    (d + '0' as int) as char
  }

  predicate AllDigits(s: string, radix: nat) {
    forall i :: 0 <= i < |s| ==> 0 <= DigitValue(s[i]) < radix
  }

  /** A rendering without superfluous leading zeros, as `toString` produces: non-empty, and
      starting with '0' only when it is "0" itself. */
  predicate IsCanonical(s: string) {
    |s| >= 1 && (s[0] == '0' ==> |s| == 1)
  }

  /** The value denoted by a digit string, most significant digit first; "" denotes 0. */
  function Value(s: string, radix: nat): nat
    requires 2 <= radix <= 10 && AllDigits(s, radix)
    decreases |s|
  {
    if s == [] then 0
    else Value(s[..|s| - 1], radix) * radix + DigitValue(s[|s| - 1])
  }

  lemma ValueAppend(s: string, c: char, radix: nat)
    requires 2 <= radix <= 10 && AllDigits(s, radix) && 0 <= DigitValue(c) < radix
    ensures AllDigits(s + [c], radix)
    ensures Value(s + [c], radix) == Value(s, radix) * radix + DigitValue(c)
  {
    assert (s + [c])[..|s|] == s;
  }

  lemma PositiveNoLeadingZero(s: string, radix: nat)
    requires 2 <= radix <= 10 && AllDigits(s, radix) && IsCanonical(s) && Value(s, radix) >= 1
    ensures s[0] != '0'
  {
  }

  lemma DivShrinks(n: nat, radix: nat)
    requires 2 <= radix <= n
    ensures 1 <= n / radix < n
  {
    var q := n / radix;
    DivMod(n, radix);
    assert q >= 0;
    NonNegProduct(q, radix - 2);
    assert q * radix == q * (radix - 2) + 2 * q;
  }

  /** Appending the low digit of n to a canonical rendering of n / radix renders n. */
  lemma AppendLowDigit(n: nat, radix: nat, init: string)
    requires 2 <= radix <= 10 && n >= radix
    requires IsCanonical(init) && AllDigits(init, radix) && Value(init, radix) == n / radix
    ensures var s := init + [DigitChar(n % radix)];
      IsCanonical(s) && AllDigits(s, radix) && Value(s, radix) == n
  {
    ValueAppend(init, DigitChar(n % radix), radix);
    DivMod(n, radix);
    PositiveNoLeadingZero(init, radix);
  }

  /** `n.toString(radix)` for a non-negative integer n. */
  function ToString(n: nat, radix: nat): (s: string)
    requires 2 <= radix <= 10
    ensures IsCanonical(s) && AllDigits(s, radix)
    ensures Value(s, radix) == n
    decreases n
  {
    if n < radix then
      var s := [DigitChar(n)];
      assert s[..0] == [];
      s
    else
      DivShrinks(n, radix);
      var init := ToString(n / radix, radix);
      AppendLowDigit(n, radix, init);
      init + [DigitChar(n % radix)]
  }

  /** A digit string whose first digit is not zero denotes at least radix^(|s|-1); in
      particular a canonical string of two or more digits denotes at least the radix. */
  lemma {:induction false} LeadingDigitBound(s: string, radix: nat)
    requires 2 <= radix <= 10 && AllDigits(s, radix)
    requires |s| >= 1 && s[0] != '0'
    ensures Value(s, radix) >= 1
    ensures |s| >= 2 ==> Value(s, radix) >= radix
    decreases |s|
  {
    var init := s[..|s| - 1];
    if |s| >= 2 {
      assert init[0] == s[0];
      LeadingDigitBound(init, radix);
      MulAtLeast(Value(init, radix), radix);
    }
  }

  /** Rendering inverts evaluation on canonical digit strings. */
  lemma {:induction false} ToStringValue(s: string, radix: nat)
    requires 2 <= radix <= 10 && AllDigits(s, radix) && IsCanonical(s)
    ensures ToString(Value(s, radix), radix) == s
    decreases |s|
  {
    var v := Value(s, radix);
    if |s| == 1 {
      assert s[..0] == [];
      assert Value(s, radix) == Value(s[..0], radix) * radix + DigitValue(s[0]);
      assert [DigitChar(v)] == s;
    } else {
      var init := s[..|s| - 1];
      var d := DigitValue(s[|s| - 1]);
      assert init[0] == s[0];
      LeadingDigitBound(s, radix);
      DivUnique(v, radix, Value(init, radix), d);
      ToStringValue(init, radix);
      assert DigitChar(d) == s[|s| - 1];
      assert init + [s[|s| - 1]] == s;
    }
  }

  /** `s.padStart(len, fill)` for a single-character fill. */
  function PadStart(s: string, len: nat, fill: char): (r: string)
    ensures |r| == if |s| >= len then |s| else len
    ensures r[|r| - |s|..] == s
    ensures forall i :: 0 <= i < |r| - |s| ==> r[i] == fill
  {
    if |s| >= len then s else seq(len - |s|, _ => fill) + s
  }

  /** Leading zeros do not change the value of a digit string. */
  lemma {:induction false} LeadingZeros(z: string, s: string, radix: nat)
    requires 2 <= radix <= 10 && AllDigits(s, radix)
    requires forall i :: 0 <= i < |z| ==> z[i] == '0'
    ensures AllDigits(z + s, radix)
    ensures Value(z + s, radix) == Value(s, radix)
    decreases |s|
  {
    var t := z + s;
    assert forall i :: 0 <= i < |t| ==> t[i] == if i < |z| then z[i] else s[i - |z|];
    if s == [] {
      assert t == z;
      AllZeros(z, radix);
    } else {
      var init := s[..|s| - 1];
      assert t[..|t| - 1] == z + init;
      LeadingZeros(z, init, radix);
    }
  }

  lemma {:induction false} AllZeros(z: string, radix: nat)
    requires 2 <= radix <= 10
    requires forall i :: 0 <= i < |z| ==> z[i] == '0'
    ensures AllDigits(z, radix) && Value(z, radix) == 0
    decreases |z|
  {
    if z != [] {
      AllZeros(z[..|z| - 1], radix);
    }
  }

  /** A number below 2^k takes at most k binary digits (at least one). */
  lemma {:induction false} BinaryLength(n: nat, k: nat)
    requires 1 <= k && n < Pow2(k)
    ensures |ToString(n, 2)| <= k
    decreases k
  {
    if n >= 2 {
      assert k >= 2;
      BinaryLength(n / 2, k - 1);
    }
  }

  /** `toBinary`: an octet as eight binary digits, zero-padded on the left. */
  function ToBinary(octet: nat): (r: string)
    requires octet < 256
    ensures |r| == 8 && AllDigits(r, 2)
    ensures Value(r, 2) == octet
  {
    var bits := ToString(octet, 2);
    BinaryLength(octet, 8);
    var r := PadStart(bits, 8, '0');
    assert r == r[..|r| - |bits|] + bits;
    LeadingZeros(r[..|r| - |bits|], bits, 2);
    r
  }

}
