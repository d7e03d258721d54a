/** Worked examples of the calculator on concrete inputs. */
module Scenarios {

  import opened Wrappers
  import opened Bits
  import opened Numerals
  import opened Address
  import opened Masks
  import opened Subnet
  import opened HostCount

  /** 192.168.1.10/26 lies in the block 192.168.1.0 - 192.168.1.63. */
  lemma Slash26Bounds()
    ensures CalculateSubnet([192, 168, 1, 10], 26).Some?
    ensures CalculateSubnet([192, 168, 1, 10], 26).value.network == [192, 168, 1, 0]
    ensures CalculateSubnet([192, 168, 1, 10], 26).value.broadcast == [192, 168, 1, 63]
  {
    assert BlockSize(26) == 64 && RoundDown(10, 64) == 0;
    var r := CalculateSubnet([192, 168, 1, 10], 26).value;
    SameAddress(r.network, [192, 168, 1, 0]);
    SameAddress(r.broadcast, [192, 168, 1, 63]);
  }

  /** 192.168.1.10/26 has the usable hosts 192.168.1.1 - 192.168.1.62, 62 of them. */
  lemma Slash26Hosts()
    ensures CalculateSubnet([192, 168, 1, 10], 26).Some?
    ensures CalculateSubnet([192, 168, 1, 10], 26).value.firstHost == [192, 168, 1, 1]
    ensures CalculateSubnet([192, 168, 1, 10], 26).value.lastHost == [192, 168, 1, 62]
    ensures CalculateSubnet([192, 168, 1, 10], 26).value.totalHosts == 62
  {
    assert BlockSize(26) == 64 && RoundDown(10, 64) == 0;
    var r := CalculateSubnet([192, 168, 1, 10], 26).value;
    SameAddress(r.firstHost, [192, 168, 1, 1]);
    SameAddress(r.lastHost, [192, 168, 1, 62]);
  }

  /** 10.0.0.5/24 lies in 10.0.0.0 - 10.0.0.255, with 254 usable hosts. */
  lemma Slash24Example()
    ensures CalculateSubnet([10, 0, 0, 5], 24).Some?
    ensures CalculateSubnet([10, 0, 0, 5], 24).value.network == [10, 0, 0, 0]
    ensures CalculateSubnet([10, 0, 0, 5], 24).value.broadcast == [10, 0, 0, 255]
    ensures CalculateSubnet([10, 0, 0, 5], 24).value.totalHosts == 254
  {
    assert BlockSize(24) == 256 && RoundDown(5, 256) == 0;
    var r := CalculateSubnet([10, 0, 0, 5], 24).value;
    SameAddress(r.network, [10, 0, 0, 0]);
    SameAddress(r.broadcast, [10, 0, 0, 255]);
  }

  lemma SameAddress(a: seq<nat>, b: seq<nat>)
    requires |a| == 4 && |b| == 4 && a[..3] == b[..3] && a[3] == b[3]
    ensures a == b
  {
    assert a == a[..3] + [a[3]] && b == b[..3] + [b[3]];
  }

  /** 10 hosts need a /28 (14 usable; a /29 has only 6); 254 hosts need a /24; 300 hosts
      exceed one octet. */
  lemma HostCountExamples()
    ensures CidrFromHosts(10) == Some(28)
    ensures CidrFromHosts(254) == Some(24)
    ensures CidrFromHosts(300) == None
  {
    BlockSizes();
    CidrFromHostsIsSmallest(10, 28);
    CidrFromHostsIsSmallest(254, 24);
  }

  /** An octet of 256 is refused. As in `Address.EmptyPartAccepted`, the text is a
      parameter fixed by the precondition, which keeps the verifier from unfolding
      `Split` on a literal. */
  lemma OutOfRangeOctetRejected(input: string)
    requires input == "10.0.0.256"
    ensures ParseAddress(input) == None
  {
    var parts := ["10", "0", "0", "256"];
    assert Text.Join(parts[2..], '.') == "0.256";
    assert Text.Join(parts[1..], '.') == "0.0.256";
    assert Text.Join(parts, '.') == input;
    Text.SplitJoin(parts, '.');
    assert "256"[..2] == "25" && "25"[..1] == "2" && "2"[..0] == "";
    assert Value("256", 10) == 256;
  }

  /** The octet 10 in binary. */
  lemma BinaryExample()
    ensures ToBinary(10) == "00001010"
  {
    assert ToString(10, 2) == "1010";
  }

}
