/** The prefix-to-mask table `subnetMasks`, which the tool consults for the prefix lengths
    /24 to /30 only (prefix notation as in section 3.1 of RFC 4632). */
module Masks {

  import opened Wrappers
  import opened Bits
  import opened Numerals
  import opened Address

  /** `subnetMasks[cidr]`: the dotted mask for a tabulated prefix length, None (`undefined`)
      for every other value. */
  function MaskText(cidr: int): (r: Option<string>)
    ensures r.Some? <==> 24 <= cidr <= 30
  {
    match cidr
    case 24 => Some("255.255.255.0")
    case 25 => Some("255.255.255.128")
    case 26 => Some("255.255.255.192")
    case 27 => Some("255.255.255.224")
    case 28 => Some("255.255.255.240")
    case 29 => Some("255.255.255.248")
    case 30 => Some("255.255.255.252")
    case _ => None
  }

  /** The mask octets `ipToArray(subnetMasks[cidr])` yields, written as the prefix-mask
      formula: 255 in each octet the prefix covers completely, 256 - 2^(32 - cidr) in the
      last. `MaskTableParses` proves that converting the table's strings gives exactly
      these octets, so the subnet arithmetic can use them without re-parsing text. */
  function MaskOctets(cidr: int): Option<seq<nat>> {
    if 24 <= cidr <= 30 then Some([255, 255, 255, 256 - BlockSize(cidr)]) else None
  }

  /** Addresses in a subnet of this prefix length: 2^(32 - cidr). */
  function BlockSize(cidr: int): (r: nat)
    requires cidr <= 32
    ensures r >= 1
    ensures 24 <= cidr ==> r <= 256
    ensures cidr <= 30 ==> r >= 4
  {
    OctetBlockBounds(32 - cidr);
    Pow2(32 - cidr)
  }

  lemma OctetBlockBounds(hostBits: nat)
    ensures hostBits <= 8 ==> Pow2(hostBits) <= 256
    ensures hostBits >= 2 ==> Pow2(hostBits) >= 4
  {
    assert Pow2(2) == 4 && Pow2(8) == 256;
    if hostBits < 8 {
      Pow2Monotone(hostBits, 8);
    }
    if hostBits > 2 {
      Pow2Monotone(2, hostBits);
    }
  }

  /** Usable hosts of a subnet of this prefix length: the block without its network and
      broadcast addresses. */
  function UsableHosts(cidr: int): int
    requires cidr <= 32
  {
    BlockSize(cidr) - 2
  }

  lemma JoinMaskParts(lastText: string)
    ensures Text.Join(["255", "255", "255", lastText], '.') == "255.255.255." + lastText
  {
    var parts := ["255", "255", "255", lastText];
    assert Text.Join(parts[3..], '.') == lastText;
    assert Text.Join(parts[2..], '.') == "255." + lastText;
    assert Text.Join(parts[1..], '.') == "255.255." + lastText;
  }

  /** A mask whose last octet renders as `lastText` renders as "255.255.255." + lastText. */
  lemma RenderMask(last: nat, lastText: string)
    requires ToString(last, 10) == lastText
    ensures FormatAddress([255, 255, 255, last]) == "255.255.255." + lastText
  {
    var octets: seq<nat> := [255, 255, 255, last];
    var parts := ["255", "255", "255", lastText];
    var rendered := seq(4, i requires 0 <= i < 4 => ToString(octets[i], 10));
    assert ToString(255, 10) == "255";
    assert forall i :: 0 <= i < 4 ==> rendered[i] == parts[i];
    assert rendered == parts;
    JoinMaskParts(lastText);
  }

  /** One row of the table: its text is the rendering of 255.255.255.last, where last
      is 256 minus the block size. */
  lemma MaskRow(cidr: int, last: nat, lastText: string)
    requires 24 <= cidr <= 30
    requires MaskText(cidr).Some? && MaskText(cidr).value == "255.255.255." + lastText
    requires ToString(last, 10) == lastText && last == 256 - BlockSize(cidr)
    ensures MaskText(cidr) == Some(FormatAddress([255, 255, 255, 256 - BlockSize(cidr)]))
  {
    RenderMask(last, lastText);
  }

  lemma LastOctetTexts()
    ensures ToString(0, 10) == "0" && ToString(128, 10) == "128" && ToString(192, 10) == "192"
    ensures ToString(224, 10) == "224" && ToString(240, 10) == "240"
    ensures ToString(248, 10) == "248" && ToString(252, 10) == "252"
  {
  }

  lemma BlockSizes()
    ensures BlockSize(24) == 256 && BlockSize(25) == 128 && BlockSize(26) == 64
    ensures BlockSize(27) == 32 && BlockSize(28) == 16 && BlockSize(29) == 8 && BlockSize(30) == 4
  {
    assert Pow2(2) == 4 && Pow2(3) == 8 && Pow2(4) == 16 && Pow2(5) == 32;
    assert Pow2(6) == 64 && Pow2(7) == 128 && Pow2(8) == 256;
  }

  lemma MaskTextRendersOctets(cidr: int)
    requires 24 <= cidr <= 30
    ensures MaskText(cidr) == Some(FormatAddress([255, 255, 255, 256 - BlockSize(cidr)]))
  {
    LastOctetTexts();
    BlockSizes();
    match cidr
    case 24 => MaskRow(24, 0, "0");
    case 25 => MaskRow(25, 128, "128");
    case 26 => MaskRow(26, 192, "192");
    case 27 => MaskRow(27, 224, "224");
    case 28 => MaskRow(28, 240, "240");
    case 29 => MaskRow(29, 248, "248");
    case 30 => MaskRow(30, 252, "252");
  }

  /** The table and the formula agree: a prefix length has a table entry exactly when the
      formula gives a mask, converting the entry's text yields the formula's octets, and
      so `256 - maskArray[3]` is the block size `Math.pow(2, 32 - cidr)`. */
  lemma MaskTableParses(cidr: int)
    ensures MaskText(cidr).Some? <==> MaskOctets(cidr).Some?
    ensures MaskText(cidr).Some? ==> ParseAddress(MaskText(cidr).value) == MaskOctets(cidr)
    ensures MaskText(cidr).Some? ==>
      var parsed := ParseAddress(MaskText(cidr).value).value;
      parsed[..3] == [255, 255, 255] && 256 - parsed[3] == Pow2(32 - cidr)
  {
    if 24 <= cidr <= 30 {
      MaskTextRendersOctets(cidr);
      ParseFormat([255, 255, 255, 256 - BlockSize(cidr)]);
    }
  }

  /** A tabulated mask read as one 32-bit number. */
  lemma MaskWord(cidr: int)
    requires 24 <= cidr <= 30
    ensures ToU32(MaskOctets(cidr).value) == 0x1_0000_0000 - BlockSize(cidr)
  {
  }

  /** `x << k` on a 32-bit unsigned value. */
  function ShiftLeft32(x: nat, k: nat): nat {
    x * Pow2(k) % 0x1_0000_0000
  }

  /** Each tabulated mask, read as one 32-bit number, is the all-ones word shifted left by
      the host-bit count: the table agrees with the formula for a prefix mask. */
  lemma MaskIsShiftedOnes(cidr: int)
    requires 24 <= cidr <= 30
    ensures ToU32(MaskOctets(cidr).value) == ShiftLeft32(0xFFFF_FFFF, 32 - cidr)
  {
    var bs := BlockSize(cidr);
    MaskWord(cidr);
    assert 0xFFFF_FFFF * bs == (bs - 1) * 0x1_0000_0000 + (0x1_0000_0000 - bs);
    DivUnique(0xFFFF_FFFF * bs, 0x1_0000_0000, bs - 1, 0x1_0000_0000 - bs);
  }

}
