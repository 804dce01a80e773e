/** The enumerators: RDMA devices under the class root, the ports of a device,
    and the gid-table netdev indices of a port. Each is a directory listing
    filtered in listing order; an unopenable directory gives an empty result,
    never an error. */
module DeviceEnumerator {
  import opened Wrappers
  import opened SysTree

  /** The names of the entries that are not directories, in listing order. */
  function NonDirNames(entries: seq<DirEntry>): (names: seq<string>)
    ensures |names| <= |entries|
  {
    if entries == [] then []
    else
      var last := entries[|entries| - 1];
      NonDirNames(entries[..|entries| - 1]) + (if last.isDir then [] else [last.name])
  }

  /** The names of all entries but `.` and `..`, in listing order. */
  function EntryNames(entries: seq<DirEntry>): (names: seq<string>)
    ensures |names| <= |entries|
  {
    if entries == [] then []
    else
      var last := entries[|entries| - 1];
      EntryNames(entries[..|entries| - 1]) + (if IsSelfOrParent(last.name) then [] else [last.name])
  }

  /** A name is kept exactly when some entry carries it and is not a
      directory. */
  lemma {:induction false} NonDirNamesMembers(entries: seq<DirEntry>)
    ensures forall x :: x in NonDirNames(entries) <==> exists e :: e in entries && !e.isDir && e.name == x
  {
    if entries != [] {
      NonDirNamesMembers(entries[..|entries| - 1]);
      assert entries == entries[..|entries| - 1] + [entries[|entries| - 1]];
    }
  }

  /** A name is kept exactly when some entry carries it and it is neither
      `.` nor `..`. */
  lemma {:induction false} EntryNamesMembers(entries: seq<DirEntry>)
    ensures forall x :: x in EntryNames(entries) <==> !IsSelfOrParent(x) && exists e :: e in entries && e.name == x
  {
    if entries != [] {
      EntryNamesMembers(entries[..|entries| - 1]);
      assert entries == entries[..|entries| - 1] + [entries[|entries| - 1]];
    }
  }

  /** Filtering keeps listing order: the names of a concatenation are the
      names of the first part followed by those of the second. */
  lemma {:induction false} NonDirNamesAppend(a: seq<DirEntry>, b: seq<DirEntry>)
    ensures NonDirNames(a + b) == NonDirNames(a) + NonDirNames(b)
    decreases |b|
  {
    if b == [] {
      assert a + b == a;
    } else {
      var front := b[..|b| - 1];
      assert (a + b)[..|a + b| - 1] == a + front;
      NonDirNamesAppend(a, front);
    }
  }

  lemma {:induction false} EntryNamesAppend(a: seq<DirEntry>, b: seq<DirEntry>)
    ensures EntryNames(a + b) == EntryNames(a) + EntryNames(b)
    decreases |b|
  {
    if b == [] {
      assert a + b == a;
    } else {
      var front := b[..|b| - 1];
      assert (a + b)[..|a + b| - 1] == a + front;
      EntryNamesAppend(a, front);
    }
  }

  /** What `GetRdmaDeviceList` returns for tree `t`. */
  function DeviceList(t: Tree): seq<string> {
    match ListDir(t, RdmaClassDir)
    case Failure(_) => []
    case Success(entries) => NonDirNames(entries)
  }

  /** What `getPorts(dev)` returns for tree `t`. */
  function Ports(t: Tree, dev: string): seq<string> {
    match ListDir(t, PortsDir(dev))
    case Failure(_) => []
    case Success(entries) => EntryNames(entries)
  }

  /** What `getNetdeviceIds(dev, port)` returns for tree `t`. */
  function NetdeviceIds(t: Tree, dev: string, port: string): seq<string> {
    match ListDir(t, NdevsDir(dev, port))
    case Failure(_) => []
    case Success(entries) => EntryNames(entries)
  }

  /** `GetRdmaDeviceList`: the non-directory entries of the class root, in
      listing order; nothing, and no error, when the root cannot be opened. */
  method GetRdmaDeviceList(t: Tree) returns (devices: seq<string>)
    ensures devices == DeviceList(t)
    ensures RdmaClassDir !in t ==> devices == []
  {
    devices := [];
    var listing := ListDir(t, RdmaClassDir);
    if listing.Failure? {
      return [];
    }
    var fileInfos := listing.value;
    for i := 0 to |fileInfos|
      invariant devices == NonDirNames(fileInfos[..i])
    {
      assert fileInfos[..i + 1][..i] == fileInfos[..i];
      if !fileInfos[i].isDir {
        devices := devices + [fileInfos[i].name];
      }
    }
    assert fileInfos[..|fileInfos|] == fileInfos;
  }

  /** Shared loop of `getPorts` and `getNetdeviceIds`: list a directory,
      skipping `.` and `..`; nothing when it cannot be opened. */
  method ListEntryNames(t: Tree, dir: Path) returns (names: seq<string>)
    ensures ListDir(t, dir).Failure? ==> names == []
    ensures ListDir(t, dir).Success? ==> names == EntryNames(ListDir(t, dir).value)
  {
    names := [];
    var listing := ListDir(t, dir);
    if listing.Failure? {
      return [];
    }
    var fileInfos := listing.value;
    for i := 0 to |fileInfos|
      invariant names == EntryNames(fileInfos[..i])
    {
      assert fileInfos[..i + 1][..i] == fileInfos[..i];
      if !IsSelfOrParent(fileInfos[i].name) {
        names := names + [fileInfos[i].name];
      }
    }
    assert fileInfos[..|fileInfos|] == fileInfos;
  }

  /** `getPorts`: the entries of `<class root>/<dev>/ports`. */
  method GetPorts(t: Tree, dev: string) returns (ports: seq<string>)
    ensures ports == Ports(t, dev)
    ensures PortsDir(dev) !in t ==> ports == []
  {
    ports := ListEntryNames(t, PortsDir(dev));
  }

  /** `getNetdeviceIds`: the entries of
      `<class root>/<dev>/ports/<port>/gid_attrs/ndevs`. */
  method GetNetdeviceIds(t: Tree, dev: string, port: string) returns (indices: seq<string>)
    ensures indices == NetdeviceIds(t, dev, port)
    ensures NdevsDir(dev, port) !in t ==> indices == []
  {
    indices := ListEntryNames(t, NdevsDir(dev, port));
  }
}
