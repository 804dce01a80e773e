/** The InfiniBand matcher: the RDMA device whose node GUID equals the EUI-64
    carried in the IPoIB hardware address, found by walking the device list
    and stopping at the first node GUID that cannot be obtained. */
module IbMatcher {
  import opened Wrappers
  import opened SysTree
  import opened DeviceEnumerator
  import opened NodeGuid

  /** Offset of the EUI-64 in an IPoIB hardware address: the source takes
      every byte from index 12 on. */
  const EuiOffset: nat := 12

  /** The walk over `devs` never reads an empty `node_guid` file (on which
      the source would slice out of range): every device it reaches before
      stopping has a non-empty file, or none that can be read. */
  predicate WalkSafe(t: Tree, eui: seq<bv8>, devs: seq<string>) {
    devs == [] ||
    (&& GuidFileNonEmpty(t, devs[0])
     && (NodeGuidOf(t, devs[0]).Failure? || NodeGuidOf(t, devs[0]).value == eui || WalkSafe(t, eui, devs[1..])))
  }

  /** The outcome of walking `devs`: the first device whose node GUID equals
      `eui`, none, or the error of the first node GUID that fails. */
  function IbSearch(t: Tree, eui: seq<bv8>, devs: seq<string>): Result<Option<string>, Error>
    requires WalkSafe(t, eui, devs)
  {
    if devs == [] then Success(None)
    else
      match NodeGuidOf(t, devs[0])
      case Failure(e) => Failure(e)
      case Success(g) => if g == eui then Success(Some(devs[0])) else IbSearch(t, eui, devs[1..])
  }

  /** No device is found iff every device has a node GUID other than `eui`; a
      found device has node GUID `eui` and every earlier one another GUID; an
      error is that of a failing node GUID reached after devices whose GUIDs
      all differ from `eui`. */
  lemma {:induction false} IbSearchOutcome(t: Tree, eui: seq<bv8>, devs: seq<string>)
    requires WalkSafe(t, eui, devs)
    ensures var r := IbSearch(t, eui, devs);
            && (r == Success(None) <==> forall k :: 0 <= k < |devs| ==> GuidDiffers(t, devs[k], eui))
            && (r.Success? && r.value.Some? ==>
                  exists k :: && 0 <= k < |devs|
                              && devs[k] == r.value.value
                              && GuidIs(t, devs[k], eui)
                              && forall j :: 0 <= j < k ==> GuidDiffers(t, devs[j], eui))
            && (r.Failure? ==>
                  exists k :: && 0 <= k < |devs|
                              && GuidFails(t, devs[k])
                              && NodeGuidOf(t, devs[k]).error == r.error
                              && forall j :: 0 <= j < k ==> GuidDiffers(t, devs[j], eui))
  {
    if devs != [] && NodeGuidOf(t, devs[0]).Success? && NodeGuidOf(t, devs[0]).value != eui {
      var rest := devs[1..];
      IbSearchOutcome(t, eui, rest);
      var r := IbSearch(t, eui, rest);
      assert forall k :: 0 < k < |devs| ==> devs[k] == rest[k - 1];
      if r.Success? && r.value.Some? {
        var k :| && 0 <= k < |rest|
                 && rest[k] == r.value.value
                 && GuidIs(t, rest[k], eui)
                 && forall j :: 0 <= j < k ==> GuidDiffers(t, rest[j], eui);
        assert devs[k + 1] == rest[k];
      } else if r.Failure? {
        var k :| && 0 <= k < |rest|
                 && GuidFails(t, rest[k])
                 && NodeGuidOf(t, rest[k]).error == r.error
                 && forall j :: 0 <= j < k ==> GuidDiffers(t, rest[j], eui);
        assert devs[k + 1] == rest[k];
      }
    }
  }

  /** The walk over the device list with the EUI-64 of `hw`. */
  function IbOwner(t: Tree, hw: seq<bv8>): Result<Option<string>, Error>
    requires |hw| >= EuiOffset && WalkSafe(t, hw[EuiOffset..], DeviceList(t))
  {
    IbSearch(t, hw[EuiOffset..], DeviceList(t))
  }

  /** A search outcome as the Go function returns it: `("", nil)` when no
      device matched. */
  function Returned(r: Result<Option<string>, Error>): Result<string, Error> {
    match r
    case Success(found) => Success(NameOrEmpty(found))
    case Failure(e) => Failure(e)
  }

  /** `getRdmaDeviceForIb`: the loop over the device list, returning the
      error of the first failing `getNodeGuid` and the first device whose node
      GUID equals `HardwareAddr[12:]`. */
  method GetRdmaDeviceForIb(t: Tree, hw: seq<bv8>) returns (r: Result<string, Error>)
    requires |hw| >= EuiOffset && WalkSafe(t, hw[EuiOffset..], DeviceList(t))
    ensures r == Returned(IbOwner(t, hw))
  {
    var lleui64 := hw[EuiOffset..];
    var devices := GetRdmaDeviceList(t);
    for i := 0 to |devices|
      invariant WalkSafe(t, lleui64, devices[i..])
      invariant IbSearch(t, lleui64, devices) == IbSearch(t, lleui64, devices[i..])
    {
      var dev := devices[i];
      assert devices[i..][0] == dev && devices[i..][1..] == devices[i + 1..];
      var nodeGuid := GetNodeGuid(t, dev);
      if nodeGuid.Failure? {
        return Failure(nodeGuid.error);
      }
      if lleui64 == nodeGuid.value {
        return Success(dev);
      }
    }
    return Success("");
  }

  /** A device whose `node_guid` file holds the rendering of `eui` with a
      final byte is a match when it is reached. */
  lemma RenderedGuidMatches(t: Tree, eui: seq<bv8>, devs: seq<string>, last: bv8)
    requires |devs| > 0 && ReadFile(t, NodeGuidPath(devs[0])) == Success(Render(eui) + [last])
    ensures WalkSafe(t, eui, devs)
    ensures IbSearch(t, eui, devs) == Success(Some(devs[0]))
  {
    RoundTrip(eui, last);
  }
}
