/** The calculation path of the form's submit handler: validate the address, choose the
    prefix length (typed in, or derived from a host count), and compute the subnet. */
module Submit {

  import opened Wrappers
  import opened Address
  import opened Masks
  import opened HostCount
  import opened Subnet

  /** The prefix-mode dropdown: a prefix length typed in, or one derived from hosts. */
  datatype Mode = Manual | Hosts

  /** What the handler ends with: one of its three error messages, or the computed subnet. */
  datatype Outcome =
    | InvalidAddress
    | CidrOutOfRange
    | HostCountOutOfRange
    | Computed(cidr: int, subnet: SubnetResult)

  /** The handler on an already trimmed address field and the numeric values of the prefix
      and host-count fields. The address check is the validator with empty parts refused. */
  function HandleSubmit(ipInput: string, mode: Mode, cidrField: int, hostsField: int): (r: Outcome)
    ensures !IsValid(ipInput) ==> r == InvalidAddress
    ensures IsValid(ipInput) && mode == Manual ==>
      (r == CidrOutOfRange <==> !(24 <= cidrField <= 30))
    ensures IsValid(ipInput) && mode == Manual && 24 <= cidrField <= 30 ==> r.Computed?
    ensures IsValid(ipInput) && mode == Hosts ==>
      (r == HostCountOutOfRange <==> !(1 <= hostsField <= 254))
    ensures IsValid(ipInput) && mode == Hosts && 1 <= hostsField <= 254 ==> r.Computed?
    ensures r.Computed? ==>
      && 24 <= r.cidr <= 30
      && ParseAddress(ipInput).Some?
      && Some(r.subnet) == CalculateSubnet(ParseAddress(ipInput).value, r.cidr)
    ensures r.Computed? && mode == Manual ==> r.cidr == cidrField
    ensures r.Computed? && mode == Hosts ==>
      r.subnet.totalHosts >= hostsField && IsSmallestSubnetFor(hostsField, r.cidr)
  {
    if !IsValid(ipInput) then InvalidAddress
    else
      var ip := ParseAddress(ipInput).value;
      match mode
      case Manual =>
        if MaskText(cidrField).None? then CidrOutOfRange
        else Computed(cidrField, CalculateSubnet(ip, cidrField).value)
      case Hosts =>
        match ResolvePrefix(hostsField)
        case None => HostCountOutOfRange
        case Some(cidr) =>
          CidrFromHostsIsSmallest(hostsField, cidr);
          Computed(cidr, CalculateSubnet(ip, cidr).value)
  }

}
