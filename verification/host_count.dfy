/** `cidrFromHosts`: the longest tabulated prefix (smallest subnet) whose usable hosts
    cover a requested host count. */
module HostCount {

  import opened Wrappers
  import opened Bits
  import opened Masks

  /** Fewer host bits, fewer usable hosts: capacity strictly shrinks as the prefix grows. */
  lemma {:induction false} UsableHostsDecreasing(c1: int, c2: int)
    requires c1 < c2 <= 32
    ensures UsableHosts(c1) > UsableHosts(c2)
  {
    Pow2Monotone(32 - c2, 32 - c1);
  }

  /** The loop of `cidrFromHosts` from host-bit width `hostBits` on, given that every
      narrower width was already found too small. */
  function Scan(requiredHosts: int, hostBits: nat): (r: Option<int>)
    requires 1 <= hostBits <= 9
    ensures r.Some? ==> 24 <= r.value <= 32 - hostBits
    ensures r.Some? ==> UsableHosts(r.value) >= requiredHosts
    ensures r.Some? ==> forall c :: r.value < c <= 32 - hostBits ==> UsableHosts(c) < requiredHosts
    ensures r.None? ==> forall c :: 24 <= c <= 32 - hostBits ==> UsableHosts(c) < requiredHosts
    decreases 9 - hostBits
  {
    if hostBits > 8 then None
    else if Pow2(hostBits) - 2 >= requiredHosts then Some(32 - hostBits)
    else Scan(requiredHosts, hostBits + 1)
  }

  /** `cidrFromHosts(requiredHosts)`: None (`null`) above 254 hosts, otherwise the longest
      prefix whose usable hosts cover the request. A request of 0 or less yields /31, whose
      usable-host count 2^1 - 2 is 0. */
  function CidrFromHosts(requiredHosts: int): (r: Option<int>)
    ensures r.None? <==> requiredHosts > 254
    ensures r.Some? ==> 24 <= r.value <= 31 && UsableHosts(r.value) >= requiredHosts
    ensures r.Some? ==> forall c :: r.value < c <= 31 ==> UsableHosts(c) < requiredHosts
    ensures r.Some? && requiredHosts >= 1 ==> r.value <= 30
    ensures requiredHosts <= 0 ==> r == Some(31)
  {
    assert Pow2(1) == 2 && Pow2(8) == 256;
    if requiredHosts > 254 then None else Scan(requiredHosts, 1)
  }

  /** The smallest-subnet criterion: the prefix is in range, covers the request, and either
      is the longest prefix the scan tries or the next longer prefix does not cover it. */
  predicate IsSmallestSubnetFor(requiredHosts: int, cidr: int) {
    && 24 <= cidr <= 31
    && UsableHosts(cidr) >= requiredHosts
    && (cidr == 31 || UsableHosts(cidr + 1) < requiredHosts)
  }

  /** For every request up to 254 hosts, `cidrFromHosts` returns exactly the prefix meeting
      the smallest-subnet criterion; there is only one, so no tie-break is needed. */
  lemma CidrFromHostsIsSmallest(requiredHosts: int, cidr: int)
    requires requiredHosts <= 254
    ensures CidrFromHosts(requiredHosts) == Some(cidr) <==> IsSmallestSubnetFor(requiredHosts, cidr)
  {
    var r := CidrFromHosts(requiredHosts).value;
    if IsSmallestSubnetFor(requiredHosts, cidr) && cidr != r {
      if cidr + 1 < r {
        UsableHostsDecreasing(cidr + 1, r);
      }
    }
  }

  /** The handler's host-count mode: requests outside 1..254 are refused before
      `cidrFromHosts` runs, so every prefix it passes on is one the mask table holds. */
  function ResolvePrefix(requiredHosts: int): (r: Option<int>)
    ensures r.Some? <==> 1 <= requiredHosts <= 254
    ensures r.Some? ==> MaskText(r.value).Some? && UsableHosts(r.value) >= requiredHosts
    ensures r.Some? ==> r == CidrFromHosts(requiredHosts)
  {
    if requiredHosts < 1 || requiredHosts > 254 then None
    else CidrFromHosts(requiredHosts)
  }

}
