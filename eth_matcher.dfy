/** The Ethernet matcher: the RDMA device whose gid table binds a given
    network device, found by walking device, port and netdev index in
    listing order. */
module EthMatcher {
  import opened Wrappers
  import opened SysTree
  import opened DeviceEnumerator

  /** `s` ends with a newline. */
  predicate EndsWithNewline(s: string) {
    |s| > 0 && s[|s| - 1] == '\n'
  }

  /** `isNetdevForRdma`: the netdev file at this gid index, with one
      trailing newline trimmed, equals `netdev`; an unreadable file is no
      match. */
  function IsNetdevForRdma(t: Tree, dev: string, port: string, index: string, netdev: string): bool {
    var read := ReadFile(t, NdevsDir(dev, port) + [index]);
    read.Success? && TrimNewline(Text(read.value)) == netdev
  }

  /** The match is exact: the file must hold `netdev` itself followed by a
      newline, or `netdev` alone when `netdev` does not end in a newline. */
  lemma IsNetdevForRdmaExact(t: Tree, dev: string, port: string, index: string, netdev: string)
    ensures IsNetdevForRdma(t, dev, port, index, netdev) <==>
      && ReadFile(t, NdevsDir(dev, port) + [index]).Success?
      && var text := Text(ReadFile(t, NdevsDir(dev, port) + [index]).value);
         text == netdev + "\n" || (text == netdev && !EndsWithNewline(netdev))
  {
    var read := ReadFile(t, NdevsDir(dev, port) + [index]);
    if read.Success? {
      var text := Text(read.value);
      if EndsWithNewline(text) {
        assert text == text[..|text| - 1] + "\n";
      }
    }
  }

  /** Some netdev index of `port` binds `netdev`. */
  predicate PortBinds(t: Tree, dev: string, port: string, netdev: string) {
    exists index :: index in NetdeviceIds(t, dev, port) && IsNetdevForRdma(t, dev, port, index, netdev)
  }

  /** Some port of `dev` binds `netdev`. */
  predicate DeviceBinds(t: Tree, dev: string, netdev: string) {
    exists port :: port in Ports(t, dev) && PortBinds(t, dev, port, netdev)
  }

  /** The first of `devices` that binds `netdev`. */
  function FirstBinding(t: Tree, devices: seq<string>, netdev: string): Option<string> {
    if devices == [] then None
    else if DeviceBinds(t, devices[0], netdev) then Some(devices[0])
    else FirstBinding(t, devices[1..], netdev)
  }

  /** Nothing is found iff no device binds `netdev`; a found device binds
      it, and no device listed before it does. */
  lemma {:induction false} FirstBindingIsFirst(t: Tree, devices: seq<string>, netdev: string)
    ensures var found := FirstBinding(t, devices, netdev);
            && (found.None? <==> forall k :: 0 <= k < |devices| ==> !DeviceBinds(t, devices[k], netdev))
            && (found.Some? ==>
                  exists k :: && 0 <= k < |devices|
                              && devices[k] == found.value
                              && DeviceBinds(t, devices[k], netdev)
                              && forall j :: 0 <= j < k ==> !DeviceBinds(t, devices[j], netdev))
  {
    if devices != [] && !DeviceBinds(t, devices[0], netdev) {
      var rest := devices[1..];
      FirstBindingIsFirst(t, rest, netdev);
      var found := FirstBinding(t, rest, netdev);
      if found.Some? {
        var k :| && 0 <= k < |rest|
                 && rest[k] == found.value
                 && DeviceBinds(t, rest[k], netdev)
                 && forall j :: 0 <= j < k ==> !DeviceBinds(t, rest[j], netdev);
        assert devices[k + 1] == rest[k];
        assert forall j :: 0 <= j < k + 1 ==> !DeviceBinds(t, devices[j], netdev) by {
          forall j | 0 <= j < k + 1 ensures !DeviceBinds(t, devices[j], netdev) {
            if j > 0 {
              assert devices[j] == rest[j - 1];
            }
          }
        }
      } else {
        forall k | 0 <= k < |devices| ensures !DeviceBinds(t, devices[k], netdev) {
          if k > 0 {
            assert devices[k] == rest[k - 1];
          }
        }
      }
    }
  }

  /** The RDMA device that owns `netdev` over Ethernet: the first listed
      device one of whose gid-table entries binds it. */
  function EthOwner(t: Tree, netdev: string): Option<string> {
    FirstBinding(t, DeviceList(t), netdev)
  }

  /** `getRdmaDeviceForEth`: the nested walk over devices, their ports and
      the ports' gid netdev indices, returning at the first match; `("", nil)`
      when nothing matches, never an error. The two inner loops are
      `DeviceHasNetdev` and `PortHasNetdev`. */
  method GetRdmaDeviceForEth(t: Tree, netdevName: string) returns (r: Result<string, Error>)
    ensures r == Success(NameOrEmpty(EthOwner(t, netdevName)))
  {
    var devices := GetRdmaDeviceList(t);
    for i := 0 to |devices|
      invariant forall k :: 0 <= k < i ==> !DeviceBinds(t, devices[k], netdevName)
    {
      var dev := devices[i];
      var found := DeviceHasNetdev(t, dev, netdevName);
      if found {
        FirstBindingSkips(t, devices, netdevName, i);
        assert devices[i..][0] == dev;
        return Success(dev);
      }
    }
    FirstBindingSkips(t, devices, netdevName, |devices|);
    return Success("");
  }

  /** The loop over the ports of `dev`: true as soon as one port binds
      `netdev`. */
  method DeviceHasNetdev(t: Tree, dev: string, netdevName: string) returns (found: bool)
    ensures found == DeviceBinds(t, dev, netdevName)
  {
    var ports := GetPorts(t, dev);
    for j := 0 to |ports|
      invariant forall k :: 0 <= k < j ==> !PortBinds(t, dev, ports[k], netdevName)
    {
      found := PortHasNetdev(t, dev, ports[j], netdevName);
      if found {
        return true;
      }
    }
    NoPortBinds(t, dev, netdevName);
    return false;
  }

  /** The loop over the gid netdev indices of `port`: true as soon as one
      index file names `netdev`. */
  method PortHasNetdev(t: Tree, dev: string, port: string, netdevName: string) returns (found: bool)
    ensures found == PortBinds(t, dev, port, netdevName)
  {
    var indices := GetNetdeviceIds(t, dev, port);
    for m := 0 to |indices|
      invariant forall k :: 0 <= k < m ==> !IsNetdevForRdma(t, dev, port, indices[k], netdevName)
    {
      found := IsNetdevForRdma(t, dev, port, indices[m], netdevName);
      if found {
        return true;
      }
    }
    NoIndexBinds(t, dev, port, netdevName);
    return false;
  }

  /** A port none of whose indices names `netdev` does not bind it. */
  lemma NoIndexBinds(t: Tree, dev: string, port: string, netdev: string)
    requires var indices := NetdeviceIds(t, dev, port);
             forall k :: 0 <= k < |indices| ==> !IsNetdevForRdma(t, dev, port, indices[k], netdev)
    ensures !PortBinds(t, dev, port, netdev)
  {
  }

  /** A device none of whose ports binds `netdev` does not bind it. */
  lemma NoPortBinds(t: Tree, dev: string, netdev: string)
    requires var ports := Ports(t, dev);
             forall k :: 0 <= k < |ports| ==> !PortBinds(t, dev, ports[k], netdev)
    ensures !DeviceBinds(t, dev, netdev)
  {
  }

  /** Devices known not to bind can be skipped. */
  lemma {:induction false} FirstBindingSkips(t: Tree, devices: seq<string>, netdev: string, i: nat)
    requires i <= |devices|
    requires forall k :: 0 <= k < i ==> !DeviceBinds(t, devices[k], netdev)
    ensures FirstBinding(t, devices, netdev) == FirstBinding(t, devices[i..], netdev)
  {
    if i > 0 {
      FirstBindingSkips(t, devices[1..], netdev, i - 1);
      assert devices[1..][i - 1..] == devices[i..];
    }
  }

  /** The listings of the example tree. */
  lemma ExampleListings()
    ensures DeviceList(ExampleTree) == ["mlx5_0"]
    ensures Ports(ExampleTree, "mlx5_0") == ["1"]
    ensures NetdeviceIds(ExampleTree, "mlx5_0", "1") == ["0"]
  {
    assert ListDir(ExampleTree, RdmaClassDir) == Success([DirEntry("mlx5_0", false)]);
    assert ListDir(ExampleTree, PortsDir("mlx5_0")) == Success([DirEntry("1", true)]);
    assert ListDir(ExampleTree, NdevsDir("mlx5_0", "1")) == Success([DirEntry("0", false)]);
  }

  /** Exact matching: a file holding `eth0` and a newline names `eth0` but
      not `eth0 ` (a trailing space). */
  lemma ExactMatchOnly()
    ensures IsNetdevForRdma(ExampleTree, "mlx5_0", "1", "0", "eth0")
    ensures !IsNetdevForRdma(ExampleTree, "mlx5_0", "1", "0", "eth0 ")
  {
    var file := NdevsDir("mlx5_0", "1") + ["0"];
    assert ReadFile(ExampleTree, file) == Success([0x65, 0x74, 0x68, 0x30, 0x0A]);
    assert Text([0x65, 0x74, 0x68, 0x30, 0x0A]) == "eth0\n";
    assert TrimNewline("eth0\n") == "eth0";
  }

  /** The example device owns `eth0`. */
  lemma ExampleOwnsEth0()
    ensures EthOwner(ExampleTree, "eth0") == Some("mlx5_0")
  {
    ExampleListings();
    ExactMatchOnly();
    assert PortBinds(ExampleTree, "mlx5_0", "1", "eth0");
    assert DeviceBinds(ExampleTree, "mlx5_0", "eth0");
  }

  /** Nothing in the example owns `eth0 `. */
  lemma ExampleOwnsNoPaddedName()
    ensures EthOwner(ExampleTree, "eth0 ") == None
  {
    ExampleListings();
    ExactMatchOnly();
    assert !PortBinds(ExampleTree, "mlx5_0", "1", "eth0 ");
    assert !DeviceBinds(ExampleTree, "mlx5_0", "eth0 ");
    FirstBindingIsFirst(ExampleTree, ["mlx5_0"], "eth0 ");
  }

  /** One device `mlx5_0` with port `1` whose gid index `0` names `eth0`. */
  const ExampleTree: Tree := map[
    RdmaClassDir := Dir([DirEntry("mlx5_0", false)]),
    PortsDir("mlx5_0") := Dir([DirEntry("1", true)]),
    NdevsDir("mlx5_0", "1") := Dir([DirEntry("0", false)]),
    NdevsDir("mlx5_0", "1") + ["0"] := File([0x65, 0x74, 0x68, 0x30, 0x0A])
  ]
}
