/** Character-device discovery: for each of four categories, the first entry
    of the category's class directory whose name contains the category prefix
    and whose `ibdev` file names the RDMA device. */
module CharDevices {
  import opened Wrappers
  import opened SysTree

  const UcmPrefix: string := "ucm"
  const IssmPrefix: string := "issm"
  const UmadPrefix: string := "umad"
  const UverbsPrefix: string := "uverbs"

  /** `isDirForRdmaDevice`: the `ibdev` file in `dir` can be read and its text
      contains the device name; an unreadable file is no match. */
  function IsDirForRdmaDevice(t: Tree, dev: string, dir: Path): (owned: bool)
    ensures owned ==> dir + ["ibdev"] in t && t[dir + ["ibdev"]].File?
    ensures owned ==> |dev| <= |t[dir + ["ibdev"]].bytes|
  {
    var read := ReadFile(t, dir + ["ibdev"]);
    read.Success? && Contains(Text(read.value), dev)
  }

  /** Ownership is a substring test: an `ibdev` file that owns `dir` for a
      device name owns it for every substring of that name as well. */
  lemma OwnershipCoversSubstrings(t: Tree, dev: string, sub: string, dir: Path)
    requires IsDirForRdmaDevice(t, dev, dir) && Contains(dev, sub)
    ensures IsDirForRdmaDevice(t, sub, dir)
  {
    ContainsTransitive(Text(ReadFile(t, dir + ["ibdev"]).value), dev, sub);
  }

  /** The test `getCharDevice` applies to each listed entry. */
  predicate Qualifies(t: Tree, dev: string, classDir: Path, prefix: string, e: DirEntry) {
    && !IsSelfOrParent(e.name)
    && Contains(e.name, prefix)
    && IsDirForRdmaDevice(t, dev, classDir + [e.name])
  }

  /** The name of the first entry that qualifies. */
  function FirstQualifying(t: Tree, dev: string, classDir: Path, prefix: string, entries: seq<DirEntry>)
    : Option<string>
  {
    if entries == [] then None
    else if Qualifies(t, dev, classDir, prefix, entries[0]) then Some(entries[0].name)
    else FirstQualifying(t, dev, classDir, prefix, entries[1..])
  }

  /** Nothing is found iff no entry qualifies; a found name is that of a
      qualifying entry with no qualifying entry listed before it. */
  lemma {:induction false} FirstQualifyingIsFirst(t: Tree, dev: string, classDir: Path, prefix: string, entries: seq<DirEntry>)
    ensures var found := FirstQualifying(t, dev, classDir, prefix, entries);
            && (found.None? <==> forall k :: 0 <= k < |entries| ==> !Qualifies(t, dev, classDir, prefix, entries[k]))
            && (found.Some? ==>
                  exists k :: && 0 <= k < |entries|
                              && entries[k].name == found.value
                              && Qualifies(t, dev, classDir, prefix, entries[k])
                              && forall j :: 0 <= j < k ==> !Qualifies(t, dev, classDir, prefix, entries[j]))
  {
    if entries != [] && !Qualifies(t, dev, classDir, prefix, entries[0]) {
      var rest := entries[1..];
      FirstQualifyingIsFirst(t, dev, classDir, prefix, rest);
      assert forall k :: 0 < k < |entries| ==> entries[k] == rest[k - 1];
      var found := FirstQualifying(t, dev, classDir, prefix, rest);
      if found.Some? {
        var k :| && 0 <= k < |rest|
                 && rest[k].name == found.value
                 && Qualifies(t, dev, classDir, prefix, rest[k])
                 && forall j :: 0 <= j < k ==> !Qualifies(t, dev, classDir, prefix, rest[j]);
        assert entries[k + 1] == rest[k];
      }
    }
  }

  /** What `getCharDevice(dev, classDir, prefix)` returns. */
  function CharDevice(t: Tree, dev: string, classDir: Path, prefix: string): (r: Result<string, Error>)
    ensures ListDir(t, classDir).Failure? ==> r == Failure(ListDir(t, classDir).error)
    ensures r.Success? ==> DevInfiniband <= r.value
  {
    match ListDir(t, classDir)
    case Failure(e) => Failure(e)
    case Success(entries) =>
      match FirstQualifying(t, dev, classDir, prefix, entries)
      case Some(name) => Success(DevInfiniband + name)
      case None => Failure(NoCharDevice)
  }

  /** A search succeeds exactly when some listed entry qualifies, and then
      names the device node of a qualifying entry. */
  lemma CharDeviceFound(t: Tree, dev: string, classDir: Path, prefix: string)
    ensures var r := CharDevice(t, dev, classDir, prefix);
            && (r.Success? <==>
                  && ListDir(t, classDir).Success?
                  && exists e :: e in ListDir(t, classDir).value && Qualifies(t, dev, classDir, prefix, e))
            && (r.Success? ==>
                  exists e :: && e in ListDir(t, classDir).value
                              && Qualifies(t, dev, classDir, prefix, e)
                              && r.value == DevInfiniband + e.name)
  {
    var listing := ListDir(t, classDir);
    if listing.Success? {
      var entries := listing.value;
      FirstQualifyingIsFirst(t, dev, classDir, prefix, entries);
      var found := FirstQualifying(t, dev, classDir, prefix, entries);
      if found.Some? {
        var k :| 0 <= k < |entries| && entries[k].name == found.value && Qualifies(t, dev, classDir, prefix, entries[k]);
        assert entries[k] in entries;
      } else {
        forall e | e in entries ensures !Qualifies(t, dev, classDir, prefix, e) {
          var k :| 0 <= k < |entries| && entries[k] == e;
        }
      }
    }
  }

  /** `getCharDevice`: scan the class directory in listing order and return
      the device-node path of the first qualifying entry. */
  method GetCharDevice(t: Tree, dev: string, classDir: Path, prefix: string) returns (r: Result<string, Error>)
    ensures r == CharDevice(t, dev, classDir, prefix)
  {
    var listing := ListDir(t, classDir);
    if listing.Failure? {
      return Failure(listing.error);
    }
    var fileInfos := listing.value;
    for i := 0 to |fileInfos|
      invariant FirstQualifying(t, dev, classDir, prefix, fileInfos)
             == FirstQualifying(t, dev, classDir, prefix, fileInfos[i..])
    {
      assert fileInfos[i..][1..] == fileInfos[i + 1..];
      var name := fileInfos[i].name;
      if IsSelfOrParent(name) {
        continue;
      }
      if !Contains(name, prefix) {
        continue;
      }
      if !IsDirForRdmaDevice(t, dev, classDir + [name]) {
        continue;
      }
      return Success(DevInfiniband + name);
    }
    return Failure(NoCharDevice);
  }

  /** The values of the successful results, in order. */
  function Successes(rs: seq<Result<string, Error>>): (vs: seq<string>)
    ensures |vs| <= |rs|
  {
    if rs == [] then []
    else
      var last := rs[|rs| - 1];
      Successes(rs[..|rs| - 1]) + (if last.Success? then [last.value] else [])
  }

  /** A value is kept exactly when some result is a success carrying it. */
  lemma {:induction false} SuccessesMembers(rs: seq<Result<string, Error>>)
    ensures forall v :: v in Successes(rs) <==> exists k :: 0 <= k < |rs| && rs[k] == Success(v)
  {
    if rs != [] {
      var front := rs[..|rs| - 1];
      SuccessesMembers(front);
      assert forall k :: 0 <= k < |front| ==> front[k] == rs[k];
    }
  }

  /** Results of adjacent pieces concatenate: a failed search removes exactly
      its own entry and leaves the others in place. */
  lemma {:induction false} SuccessesAppend(a: seq<Result<string, Error>>, b: seq<Result<string, Error>>)
    ensures Successes(a + b) == Successes(a) + Successes(b)
    decreases |b|
  {
    if b == [] {
      assert a + b == a;
    } else {
      var front := b[..|b| - 1];
      assert (a + b)[..|a + b| - 1] == a + front;
      SuccessesAppend(a, front);
    }
  }

  /** The four searches, in the order `GetRdmaCharDevices` makes them:
      `getUcmDevice`, `getIssmDevice`, `getUmadDevice`, `getUverbDevice`. */
  function CategorySearches(t: Tree, dev: string): seq<Result<string, Error>> {
    [ CharDevice(t, dev, RdmaIbUcmDir, UcmPrefix),
      CharDevice(t, dev, RdmaUmadDir, IssmPrefix),
      CharDevice(t, dev, RdmaUmadDir, UmadPrefix),
      CharDevice(t, dev, RdmaUverbsDir, UverbsPrefix) ]
  }

  /** `GetRdmaCharDevices`: the found device-node paths of the four
      categories in fixed order, a category whose search fails left out. */
  method GetRdmaCharDevices(t: Tree, dev: string) returns (rdmaCharDevices: seq<string>)
    ensures rdmaCharDevices == Successes(CategorySearches(t, dev))
    ensures |rdmaCharDevices| <= 4
    ensures forall p :: p in rdmaCharDevices ==> DevInfiniband <= p
  {
    rdmaCharDevices := [];
    var ucm := GetCharDevice(t, dev, RdmaIbUcmDir, UcmPrefix);
    if ucm.Success? {
      rdmaCharDevices := rdmaCharDevices + [ucm.value];
    }
    ghost var kept := Kept(ucm);
    assert rdmaCharDevices == kept;
    var issm := GetCharDevice(t, dev, RdmaUmadDir, IssmPrefix);
    if issm.Success? {
      rdmaCharDevices := rdmaCharDevices + [issm.value];
    }
    kept := kept + Kept(issm);
    assert rdmaCharDevices == kept;
    var umad := GetCharDevice(t, dev, RdmaUmadDir, UmadPrefix);
    if umad.Success? {
      rdmaCharDevices := rdmaCharDevices + [umad.value];
    }
    kept := kept + Kept(umad);
    assert rdmaCharDevices == kept;
    var uverb := GetCharDevice(t, dev, RdmaUverbsDir, UverbsPrefix);
    if uverb.Success? {
      rdmaCharDevices := rdmaCharDevices + [uverb.value];
    }
    kept := kept + Kept(uverb);
    assert rdmaCharDevices == kept;
    SuccessesOfFour(ucm, issm, umad, uverb);
    FoundPathsAreDeviceNodes(t, dev);
  }

  /** The value of a result as a list of zero or one element. */
  function Kept(r: Result<string, Error>): seq<string> {
    if r.Success? then [r.value] else []
  }

  /** The successful values of four results, spelled out. */
  lemma SuccessesOfFour(a: Result<string, Error>, b: Result<string, Error>,
                        c: Result<string, Error>, d: Result<string, Error>)
    ensures Successes([a, b, c, d]) == Kept(a) + Kept(b) + Kept(c) + Kept(d)
  {
    assert Successes([a]) == Kept(a) by {
      assert [a][..0] == [];
    }
    assert Successes([a, b]) == Kept(a) + Kept(b) by {
      assert [a, b][..1] == [a];
    }
    assert Successes([a, b, c]) == Kept(a) + Kept(b) + Kept(c) by {
      assert [a, b, c][..2] == [a, b];
    }
    assert [a, b, c, d][..3] == [a, b, c];
  }

  /** Every path `GetRdmaCharDevices` reports lies in the device-node
      directory. */
  lemma FoundPathsAreDeviceNodes(t: Tree, dev: string)
    ensures forall p :: p in Successes(CategorySearches(t, dev)) ==> DevInfiniband <= p
  {
    var searches := CategorySearches(t, dev);
    SuccessesMembers(searches);
    forall p | p in Successes(searches) ensures DevInfiniband <= p {
      var k :| 0 <= k < |searches| && searches[k] == Success(p);
      assert searches[k].Success?;
    }
  }

  /** Ownership is by substring: an `ibdev` file naming `mlx5_10` also
      claims its directory for `mlx5_1`. */
  lemma SubstringOwnership()
    ensures IsDirForRdmaDevice(SubstringTree, "mlx5_10", ["sys", "class", "infiniband_verbs", "uverbs1"])
    ensures IsDirForRdmaDevice(SubstringTree, "mlx5_1", ["sys", "class", "infiniband_verbs", "uverbs1"])
  {
    var dir := ["sys", "class", "infiniband_verbs", "uverbs1"];
    assert dir + ["ibdev"] == ["sys", "class", "infiniband_verbs", "uverbs1", "ibdev"];
    var text := Text(ReadFile(SubstringTree, dir + ["ibdev"]).value);
    assert text == "mlx5_10\n";
    assert OccursAt(text, "mlx5_10", 0);
    assert OccursAt(text, "mlx5_1", 0);
  }

  /** A verbs class directory whose one `ibdev` file names `mlx5_10`. */
  const SubstringTree: Tree := map[
    ["sys", "class", "infiniband_verbs", "uverbs1", "ibdev"] :=
      File([0x6D, 0x6C, 0x78, 0x35, 0x5F, 0x31, 0x30, 0x0A])
  ]
}
