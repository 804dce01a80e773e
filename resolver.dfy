/** The public resolver: from a network device name to the RDMA device behind
    it, dispatching on the link's encapsulation type. The netlink lookup is
    an input: `None` when the kernel knows no link of that name. */
module Resolver {
  import opened Wrappers
  import opened SysTree
  import opened DeviceEnumerator
  import opened NodeGuid
  import opened EthMatcher
  import opened IbMatcher

  /** The attributes of a link that the resolver consults. */
  datatype LinkAttrs = LinkAttrs(encapType: string, hardwareAddr: seq<bv8>)

  const Ether: string := "ether"
  const Infiniband: string := "infiniband"

  /** What the source demands before an InfiniBand lookup: the hardware
      address reaches the EUI-64 and the walk reads no empty `node_guid`. */
  predicate IbReady(t: Tree, attrs: LinkAttrs) {
    |attrs.hardwareAddr| >= EuiOffset && WalkSafe(t, attrs.hardwareAddr[EuiOffset..], DeviceList(t))
  }

  predicate Resolvable(t: Tree, link: Option<LinkAttrs>) {
    link.Some? && link.value.encapType == Infiniband ==> IbReady(t, link.value)
  }

  /** The outcome of `GetRdmaDeviceForNetdevice`. A resolved name is one of
      the listed RDMA devices and is bound to the netdev: over Ethernet
      through a gid-table entry naming it, over InfiniBand through a node
      GUID equal to the address's EUI-64. The errors are a missing link, an
      unknown encapsulation, or (InfiniBand only) a listed device whose node
      GUID could not be read or decoded; the Ethernet route never fails. */
  function DeviceForNetdevice(t: Tree, netdev: string, link: Option<LinkAttrs>): (r: Result<string, Error>)
    requires Resolvable(t, link)
    ensures r.Success? && r.value != "" ==>
              && r.value in DeviceList(t)
              && link.Some?
              && (link.value.encapType == Ether ==> DeviceBinds(t, r.value, netdev))
              && (link.value.encapType == Infiniband ==>
                    GuidIs(t, r.value, link.value.hardwareAddr[EuiOffset..]))
    ensures r.Failure? <==>
              || link.None?
              || (link.value.encapType != Ether && link.value.encapType != Infiniband)
              || (link.value.encapType == Infiniband && IbOwner(t, link.value.hardwareAddr).Failure?)
    ensures r.Failure? && link.Some? && link.value.encapType == Infiniband ==>
              exists dev :: dev in DeviceList(t) && GuidFails(t, dev)
    ensures link.None? ==> r == Failure(LinkNotFound(netdev))
  {
    match link
    case None => Failure(LinkNotFound(netdev))
    case Some(attrs) =>
      if attrs.encapType == Ether then
        FirstBindingIsFirst(t, DeviceList(t), netdev);
        Success(NameOrEmpty(EthOwner(t, netdev)))
      else if attrs.encapType == Infiniband then
        IbSearchOutcome(t, attrs.hardwareAddr[EuiOffset..], DeviceList(t));
        Returned(IbOwner(t, attrs.hardwareAddr))
      else Failure(UnknownDeviceType)
  }

  /** `GetRdmaDeviceForNetdevice`: look the link up, then take the Ethernet
      or the InfiniBand route. */
  method GetRdmaDeviceForNetdevice(t: Tree, netdevName: string, link: Option<LinkAttrs>)
    returns (r: Result<string, Error>)
    requires Resolvable(t, link)
    ensures r == DeviceForNetdevice(t, netdevName, link)
  {
    if link.None? {
      return Failure(LinkNotFound(netdevName));
    }
    var netAttr := link.value;
    if netAttr.encapType == Ether {
      r := GetRdmaDeviceForEth(t, netdevName);
    } else if netAttr.encapType == Infiniband {
      r := GetRdmaDeviceForIb(t, netAttr.hardwareAddr);
    } else {
      r := Failure(UnknownDeviceType);
    }
  }
}
