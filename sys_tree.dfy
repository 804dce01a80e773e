/** The read-only sysfs tree the discovery code walks, the fixed paths it uses,
    the errors it can report, and the few Go string operations it relies on. */
module SysTree {
  import opened Wrappers

  /** A path is the sequence of its segments, from the filesystem root. */
  type Path = seq<string>

  /** What `Readdir` reports about one entry: its name and whether lstat saw a
      directory (a sysfs device entry is a symbolic link, so it is not one). */
  datatype DirEntry = DirEntry(name: string, isDir: bool)

  /** A directory with its listing in `Readdir` order, or a file with its bytes. */
  datatype Node = Dir(listing: seq<DirEntry>) | File(bytes: seq<bv8>)

  type Tree = map<Path, Node>

  /** The errors the Go functions return, one constructor per origin. */
  datatype Error =
    | OpenFailed(path: Path)      // os.Open / os.OpenFile: no such path
    | ReadFailed(path: Path)      // ioutil.ReadAll on a directory
    | NoCharDevice                // getCharDevice found no qualifying entry
    | BadHexDigit(b: bv8)         // strconv.ParseUint on a non-hex byte
    | LinkNotFound(netdev: string) // netlink.LinkByName failed
    | UnknownDeviceType           // encapsulation neither "ether" nor "infiniband"

  const RdmaClassDir: Path := ["sys", "class", "infiniband"]
  const RdmaIbUcmDir: Path := ["sys", "class", "infiniband_cm"]
  const RdmaUmadDir: Path := ["sys", "class", "infiniband_mad"]
  const RdmaUverbsDir: Path := ["sys", "class", "infiniband_verbs"]

  /** The directory the returned character-device paths live in. */
  const DevInfiniband: string := "/dev/infiniband/"

  function PortsDir(dev: string): Path {
    RdmaClassDir + [dev, "ports"]
  }

  function NdevsDir(dev: string, port: string): Path {
    RdmaClassDir + [dev, "ports", port, "gid_attrs", "ndevs"]
  }

  function NodeGuidPath(dev: string): Path {
    RdmaClassDir + [dev, "node_guid"]
  }

  /** `os.Open` followed by `Readdir(-1)`. Opening a file succeeds and its
      `Readdir` error is ignored by every caller, so a file lists as empty. */
  function ListDir(t: Tree, p: Path): Result<seq<DirEntry>, Error> {
    if p !in t then Failure(OpenFailed(p))
    else match t[p]
      case Dir(listing) => Success(listing)
      case File(_) => Success([])
  }

  /** The pseudo-entries for a directory itself and its parent, which every
      listing loop skips. */
  predicate IsSelfOrParent(name: string) {
    name == "." || name == ".."
  }

  /** `os.OpenFile` followed by `ioutil.ReadAll`. Opening a directory succeeds,
      reading it fails. */
  function ReadFile(t: Tree, p: Path): Result<seq<bv8>, Error> {
    if p !in t then Failure(OpenFailed(p))
    else match t[p]
      case Dir(_) => Failure(ReadFailed(p))
      case File(bytes) => Success(bytes)
  }

  /** Go's `string(data)`: each byte becomes one character of the string. */
  function Text(data: seq<bv8>): (s: string)
    ensures |s| == |data|
    ensures forall i :: 0 <= i < |data| ==> s[i] as int == data[i] as int
  {
    seq(|data|, i requires 0 <= i < |data| => (data[i] as int) as char)
  }

  /** `sub` occurs in `s` starting at index `k`. */
  predicate OccursAt(s: string, sub: string, k: int) {
    0 <= k <= |s| - |sub| && s[k..k + |sub|] == sub
  }

  /** `strings.Contains(s, sub)`. */
  predicate Contains(s: string, sub: string) {
    exists k | 0 <= k <= |s| :: OccursAt(s, sub, k)
  }

  /** A substring of a substring of `s` is a substring of `s`. */
  lemma ContainsTransitive(s: string, mid: string, sub: string)
    requires Contains(s, mid) && Contains(mid, sub)
    ensures Contains(s, sub)
  {
    var k1 :| 0 <= k1 <= |s| && OccursAt(s, mid, k1);
    var k2 :| 0 <= k2 <= |mid| && OccursAt(mid, sub, k2);
    var k := k1 + k2;
    forall i | 0 <= i < |sub| ensures s[k..k + |sub|][i] == sub[i] {
      assert sub[i] == mid[k2..k2 + |sub|][i] == mid[k2 + i];
      assert mid[k2 + i] == s[k1..k1 + |mid|][k2 + i] == s[k + i];
    }
    assert OccursAt(s, sub, k);
  }

  /** `strings.TrimSuffix(s, "\n")`. */
  function TrimNewline(s: string): string {
    if |s| > 0 && s[|s| - 1] == '\n' then s[..|s| - 1] else s
  }

  /** Go's `("", nil)` convention for "searched everything, found nothing". */
  function NameOrEmpty(found: Option<string>): string {
    match found
    case Some(name) => name
    case None => ""
  }
}
