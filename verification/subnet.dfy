/** `calculateSubnet`: network, broadcast, first and last usable host, and the usable-host
    count of the subnet an address belongs to, for the prefix lengths the mask table holds. */
module Subnet {

  import opened Wrappers
  import opened Bits
  import opened Address
  import opened Masks

  /** The object `calculateSubnet` returns; the four addresses are octet arrays. */
  datatype SubnetResult = SubnetResult(
    network: seq<nat>,
    broadcast: seq<nat>,
    firstHost: seq<nat>,
    lastHost: seq<nat>,
    totalHosts: int)

  /** A copy of an octet array with `delta` added to its last octet, as `[...a]` followed
      by `a[3] += delta` computes it (no carry into the octet before). */
  function AddToLast(a: seq<nat>, delta: int): (r: seq<nat>)
    requires |a| == 4 && a[3] + delta >= 0
    ensures |r| == 4 && r[..3] == a[..3] && r[3] == a[3] + delta
  {
    a[..3] + [a[3] + delta]
  }

  lemma MulMonotone(a: int, b: int, d: int)
    requires a <= b && d >= 0
    ensures a * d <= b * d
  {
    NonNegProduct(b - a, d);
    assert b * d - a * d == (b - a) * d;
  }

  /** Rounding an octet down to a multiple of a block size that divides 256 leaves a whole
      block above it inside the octet: adding the block size minus one never carries. */
  lemma BlockFitsInOctet(x: nat, hostBits: nat)
    requires x < 256 && hostBits <= 8
    ensures RoundDown(x, Pow2(hostBits)) + Pow2(hostBits) <= 256
  {
    var bs, blocks := Pow2(hostBits), Pow2(8 - hostBits);
    var q := x / bs;
    Pow2Add(hostBits, 8 - hostBits);
    assert Pow2(8) == 256;
    assert bs * blocks == 256;
    DivMod(x, bs);
    assert q * bs <= x;
    if q >= blocks {
      MulMonotone(blocks, q, bs);
    }
    assert q + 1 <= blocks;
    MulMonotone(q + 1, blocks, bs);
    MulSucc(q, bs);
  }

  /** The network octets: octets 0 to 2 pass the 255 mask unchanged, octet 3 is rounded
      down to a multiple of the block size. */
  lemma MaskedOctets(ip: seq<nat>, cidr: int)
    requires IsOctets(ip) && 24 <= cidr <= 30
    ensures var mask := MaskOctets(cidr).value;
      forall i :: 0 <= i < 3 ==> And(ip[i], mask[i]) == ip[i]
    ensures And(ip[3], MaskOctets(cidr).value[3]) == RoundDown(ip[3], BlockSize(cidr))
  {
    assert Pow2(8) == 256;
    forall i | 0 <= i < 3 {
      AndAllOnes(ip[i], 8);
    }
    AndClearsLowBits(ip[3], 8, 32 - cidr);
  }

  /** `calculateSubnet(ipArray, cidr)`. For a prefix length outside the mask table,
      `subnetMasks[cidr]` is `undefined` and the call throws; that outcome is None. */
  function CalculateSubnet(ip: seq<nat>, cidr: int): (r: Option<SubnetResult>)
    requires IsOctets(ip)
    ensures r.Some? <==> 24 <= cidr <= 30
    ensures r.Some? ==>
      var res, bs := r.value, BlockSize(cidr);
      // the network keeps the first three octets and rounds the last down to a block boundary
      && IsOctets(res.network) && res.network[..3] == ip[..3]
      && res.network[3] == RoundDown(ip[3], bs)
      && res.network[3] % bs == 0 && res.network[3] <= ip[3] < res.network[3] + bs
      // the broadcast is the top of that block, still within the last octet
      && IsOctets(res.broadcast) && res.broadcast[..3] == ip[..3]
      && res.broadcast[3] == res.network[3] + bs - 1
      // the usable range lies strictly between them
      && IsOctets(res.firstHost) && res.firstHost[..3] == ip[..3]
      && IsOctets(res.lastHost) && res.lastHost[..3] == ip[..3]
      && res.firstHost[3] == res.network[3] + 1 && res.lastHost[3] == res.broadcast[3] - 1
      && res.network[3] < res.firstHost[3] <= res.lastHost[3] < res.broadcast[3]
      && res.totalHosts == UsableHosts(cidr) == res.lastHost[3] - res.firstHost[3] + 1
  {
    match MaskOctets(cidr)
    case None => None
    case Some(mask) =>
      MaskedOctets(ip, cidr);
      var network := seq(4, i requires 0 <= i < 4 => And(ip[i], mask[i]));
      var blockSize := BlockSize(cidr);
      BlockFitsInOctet(ip[3], 32 - cidr);
      var broadcast := AddToLast(network, blockSize - 1);
      var firstHost := AddToLast(network, 1);
      var lastHost := AddToLast(broadcast, -1);
      assert network[..3] == ip[..3];
      Some(SubnetResult(network, broadcast, firstHost, lastHost, blockSize - 2))
  }

  /** Splitting a 32-bit value into its upper 24 bits and its last octet, rounding down to
      a block size that divides 256 only touches the last octet. */
  lemma RoundDownLastOctet(high: nat, low: nat, hostBits: nat)
    requires low < 256 && hostBits <= 8
    ensures RoundDown(high * 256 + low, Pow2(hostBits)) == high * 256 + RoundDown(low, Pow2(hostBits))
  {
    Pow2Add(hostBits, 8 - hostBits);
    Pow2Of32();
    RoundDownAboveBlock(high, low, Pow2(hostBits), Pow2(8 - hostBits));
  }

  /** When the block size divides 256, adding a multiple of 256 commutes with rounding
      down to the block size. */
  lemma RoundDownAboveBlock(high: nat, low: nat, bs: nat, blocks: nat)
    requires bs > 0 && bs * blocks == 256
    ensures RoundDown(high * 256 + low, bs) == high * 256 + RoundDown(low, bs)
  {
    var q, r := low / bs, low % bs;
    DivMod(low, bs);
    MulAssoc(high, blocks, bs);
    MulAddRight(high * blocks, q, bs);
    var x := high * 256 + low;
    assert x == (high * blocks + q) * bs + r;
    DivUnique(x, bs, high * blocks + q, r);
  }

  /** Rounding the last octet down to a block boundary rounds the whole 32-bit value down
      to the same boundary. */
  lemma RoundDownWord(a: seq<nat>, b: seq<nat>, hostBits: nat)
    requires IsOctets(a) && |b| == 4 && hostBits <= 8
    requires b[..3] == a[..3] && b[3] == RoundDown(a[3], Pow2(hostBits))
    ensures ToU32(b) == RoundDown(ToU32(a), Pow2(hostBits))
  {
    var high := (a[0] * 256 + a[1]) * 256 + a[2];
    SameUpperOctets(a, b);
    RoundDownLastOctet(high, a[3], hostBits);
  }

  /** Read as 32-bit numbers, the network is the whole address ANDed with the whole mask,
      which is the address rounded down to a multiple of the block size. */
  lemma FullWidthNetwork(ip: seq<nat>, cidr: int)
    requires IsOctets(ip) && 24 <= cidr <= 30
    ensures var res, bs := CalculateSubnet(ip, cidr).value, BlockSize(cidr);
      && ToU32(res.network) == And(ToU32(ip), ToU32(MaskOctets(cidr).value))
      && ToU32(res.network) == RoundDown(ToU32(ip), bs)
  {
    var res := CalculateSubnet(ip, cidr).value;
    RoundDownWord(ip, res.network, 32 - cidr);
    NetworkIsMaskedWord(ip, cidr);
  }

  /** Read as 32-bit numbers, the broadcast closes a block of exactly 2^(32 - cidr)
      addresses that starts at the network and contains the address, and the usable hosts
      lie strictly inside it. */
  lemma FullWidthRange(ip: seq<nat>, cidr: int)
    requires IsOctets(ip) && 24 <= cidr <= 30
    ensures var res, bs := CalculateSubnet(ip, cidr).value, BlockSize(cidr);
      && ToU32(res.broadcast) - ToU32(res.network) + 1 == bs
      && ToU32(res.network) <= ToU32(ip) <= ToU32(res.broadcast)
      && ToU32(res.network) < ToU32(res.firstHost) <= ToU32(res.lastHost) < ToU32(res.broadcast)
      && ToU32(res.lastHost) - ToU32(res.firstHost) + 1 == res.totalHosts
  {
    var res := CalculateSubnet(ip, cidr).value;
    SameUpperOctets(ip, res.network);
    SameUpperOctets(ip, res.broadcast);
    SameUpperOctets(ip, res.firstHost);
    SameUpperOctets(ip, res.lastHost);
  }

  /** Octet arrays that share their first three octets differ, as 32-bit numbers, by the
      difference of their last octets. */
  lemma SameUpperOctets(a: seq<nat>, b: seq<nat>)
    requires |a| == 4 && |b| == 4 && b[..3] == a[..3]
    ensures ToU32(b) == ((a[0] * 256 + a[1]) * 256 + a[2]) * 256 + b[3]
  {
    assert b[0] == a[0] && b[1] == a[1] && b[2] == a[2];
  }

  lemma AndWithPrefixMask(x: nat, cidr: int)
    requires x < 0x1_0000_0000 && 24 <= cidr <= 30
    ensures And(x, 0x1_0000_0000 - BlockSize(cidr)) == RoundDown(x, BlockSize(cidr))
  {
    Pow2Of32();
    AndClearsLowBits(x, 32, 32 - cidr);
  }

  /** The 32-bit AND of an address with a tabulated mask rounds the address down to a
      multiple of the block size. */
  lemma NetworkIsMaskedWord(ip: seq<nat>, cidr: int)
    requires IsOctets(ip) && 24 <= cidr <= 30
    ensures And(ToU32(ip), ToU32(MaskOctets(cidr).value)) == RoundDown(ToU32(ip), BlockSize(cidr))
  {
    MaskWord(cidr);
    U32Bound(ip);
    AndWithPrefixMask(ToU32(ip), cidr);
  }

}
