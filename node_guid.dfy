/** The node-GUID codec: `getNodeGuid` reads a device's `node_guid` file, a
    colon-separated hex rendering such as `00:1b:21:aa:ff:cc:dd:01` followed by
    a newline, and packs its hex digits into raw bytes. */
module NodeGuid {
  import opened Wrappers
  import opened SysTree

  /** The byte `:`. */
  const Colon: bv8 := 0x3A

  /** `strconv.ParseUint(string(b), 16, 8)` on one byte: the value of an ASCII
      hex digit of either case, and nothing for any other byte (a byte of 0x80
      or above becomes a two-byte UTF-8 string, which does not parse either). */
  function HexValue(b: bv8): (v: Option<bv8>)
    ensures v.Some? ==> v.value < 16
  {
    if 0x30 <= b <= 0x39 then Some(b - 0x30)
    else if 0x61 <= b <= 0x66 then Some(b - 0x61 + 10)
    else if 0x41 <= b <= 0x46 then Some(b - 0x41 + 10)
    else None
  }

  /** A byte the decoder gets past: a separator or a hex digit. */
  predicate Accepted(b: bv8) {
    b == Colon || HexValue(b).Some?
  }

  /** The number of hex digits in `s`. */
  function DigitCount(s: seq<bv8>): nat {
    if s == [] then 0
    else DigitCount(s[..|s| - 1]) + (if HexValue(s[|s| - 1]).Some? then 1 else 0)
  }

  /** The values of the hex digits of `s`, left to right, skipping colons; the
      first byte that is neither makes the whole reading fail with that byte. */
  function Nibbles(s: seq<bv8>): Result<seq<bv8>, Error> {
    if s == [] then Success([]) else Step(Nibbles(s[..|s| - 1]), s[|s| - 1])
  }

  /** Reading succeeds exactly when every byte is a colon or a hex digit, and
      then yields one nibble value per hex digit. */
  lemma {:induction false} NibblesShape(s: seq<bv8>)
    ensures Nibbles(s).Success? <==> forall i :: 0 <= i < |s| ==> Accepted(s[i])
    ensures Nibbles(s).Success? ==> |Nibbles(s).value| == DigitCount(s)
    ensures Nibbles(s).Success? ==> forall k :: 0 <= k < |Nibbles(s).value| ==> Nibbles(s).value[k] < 16
  {
    if s != [] {
      var front := s[..|s| - 1];
      NibblesShape(front);
      assert forall i :: 0 <= i < |front| ==> front[i] == s[i];
    }
  }

  /** One turn of the decoding loop: a failure stays, a colon is skipped, a
      hex digit adds its value, any other byte fails. */
  function Step(sofar: Result<seq<bv8>, Error>, b: bv8): Result<seq<bv8>, Error> {
    match sofar
    case Failure(e) => Failure(e)
    case Success(ns) =>
      if b == Colon then Success(ns)
      else match HexValue(b)
        case Some(v) => Success(ns + [v])
        case None => Failure(BadHexDigit(b))
  }

  /** The byte whose high half is the nibble `v` and whose low half is zero. */
  function Shifted(v: bv8): bv8 {
    v << 4
  }

  /** The high and the low nibble of a byte. */
  function HighNibble(b: bv8): bv8 {
    b >> 4
  }

  function LowNibble(b: bv8): bv8 {
    b & 0xF
  }

  /** Two nibbles to a byte, the first of each pair in the high half; an odd
      nibble out fills only the high half of the last byte. */
  function Pack(ns: seq<bv8>): (g: seq<bv8>)
    ensures |g| == (|ns| + 1) / 2
  {
    seq((|ns| + 1) / 2, k requires 0 <= k < (|ns| + 1) / 2 =>
      Shifted(ns[2 * k]) | (if 2 * k + 1 < |ns| then ns[2 * k + 1] else 0))
  }

  /** What `getNodeGuid` makes of the file's bytes: the last byte (the newline
      sysfs ends the file with) is dropped unchecked, the rest is read as
      nibbles and packed. The source panics on an empty file. */
  function DecodeGuid(data: seq<bv8>): Result<seq<bv8>, Error>
    requires |data| > 0
  {
    match Nibbles(data[..|data| - 1])
    case Failure(e) => Failure(e)
    case Success(ns) => Success(Pack(ns))
  }

  /** Decoding succeeds exactly when every byte before the dropped last one is
      a colon or a hex digit, and then yields half as many bytes as there are
      hex digits, rounded up. */
  lemma DecodeGuidShape(data: seq<bv8>)
    requires |data| > 0
    ensures DecodeGuid(data).Success? <==> forall i :: 0 <= i < |data| - 1 ==> Accepted(data[i])
    ensures DecodeGuid(data).Success? ==> |DecodeGuid(data).value| == (DigitCount(data[..|data| - 1]) + 1) / 2
  {
    var body := data[..|data| - 1];
    NibblesShape(body);
    assert forall i :: 0 <= i < |body| ==> body[i] == data[i];
  }

  /** The device's `node_guid` file, if it can be read, is not empty. */
  predicate GuidFileNonEmpty(t: Tree, dev: string) {
    ReadFile(t, NodeGuidPath(dev)).Success? ==> |ReadFile(t, NodeGuidPath(dev)).value| > 0
  }

  /** The outcome of `getNodeGuid(dev)`: the read error, or the decoding. */
  function NodeGuidOf(t: Tree, dev: string): Result<seq<bv8>, Error>
    requires GuidFileNonEmpty(t, dev)
  {
    match ReadFile(t, NodeGuidPath(dev))
    case Failure(e) => Failure(e)
    case Success(data) => DecodeGuid(data)
  }

  /** Total views of `NodeGuidOf` for the matchers' contracts. */
  predicate GuidFails(t: Tree, dev: string) {
    GuidFileNonEmpty(t, dev) && NodeGuidOf(t, dev).Failure?
  }

  predicate GuidIs(t: Tree, dev: string, g: seq<bv8>) {
    GuidFileNonEmpty(t, dev) && NodeGuidOf(t, dev) == Success(g)
  }

  predicate GuidDiffers(t: Tree, dev: string, g: seq<bv8>) {
    GuidFileNonEmpty(t, dev) && NodeGuidOf(t, dev).Success? && NodeGuidOf(t, dev).value != g
  }

  /** `getNodeGuid`: the byte loop of the source, with its counter `j` of
      digits seen, appending a high nibble on even `j` and OR-ing a low nibble
      into `nodeGuid[j/2]` on odd `j`. */
  method GetNodeGuid(t: Tree, dev: string) returns (r: Result<seq<bv8>, Error>)
    requires GuidFileNonEmpty(t, dev)
    ensures r == NodeGuidOf(t, dev)
  {
    var read := ReadFile(t, NodeGuidPath(dev));
    if read.Failure? {
      return Failure(read.error);
    }
    var data := read.value[..|read.value| - 1];
    var nodeGuid: seq<bv8> := [];
    var j := 0;
    var i := 0;
    ghost var ns: seq<bv8> := [];
    while i < |data|
      invariant 0 <= i <= |data|
      invariant ScanUpTo(data, i) == Success(ns)
      invariant j == |ns|
      invariant nodeGuid == Pack(ns)
    {
      var b := data[i];
      if b != Colon {
        var c := HexValue(b);
        if c.None? {
          ScanFailureSticks(data, i + 1);
          return Failure(BadHexDigit(b));
        }
        ghost var before := nodeGuid;
        if j % 2 == 0 {
          nodeGuid := nodeGuid + [c.value << 4];
        } else {
          nodeGuid := nodeGuid[j / 2 := nodeGuid[j / 2] | c.value];
        }
        PackStep(ns, c.value, before, nodeGuid);
        j := j + 1;
        ns := ns + [c.value];
      }
      i := i + 1;
    }
    ScanIsNibbles(data, i);
    assert data[..i] == data;
    return Success(nodeGuid);
  }

  /** The scan of the first `i` bytes of `data`, indexed rather than sliced. */
  ghost function ScanUpTo(data: seq<bv8>, i: nat): Result<seq<bv8>, Error>
    requires i <= |data|
  {
    if i == 0 then Success([]) else Step(ScanUpTo(data, i - 1), data[i - 1])
  }

  /** The indexed scan is the scan of the prefix. */
  lemma {:induction false} ScanIsNibbles(data: seq<bv8>, i: nat)
    requires i <= |data|
    ensures ScanUpTo(data, i) == Nibbles(data[..i])
  {
    if i > 0 {
      ScanIsNibbles(data, i - 1);
      assert data[..i][..i - 1] == data[..i - 1];
    }
  }

  /** A failing indexed scan decides the scan of the whole input. */
  lemma {:induction false} ScanFailureSticks(data: seq<bv8>, n: nat)
    requires n <= |data| && ScanUpTo(data, n).Failure?
    ensures Nibbles(data) == ScanUpTo(data, n)
    decreases |data| - n
  {
    if n == |data| {
      ScanIsNibbles(data, n);
      assert data[..n] == data;
    } else {
      ScanFailureSticks(data, n + 1);
    }
  }

  /** One iteration of the packing loop extends the packing by one nibble. */
  lemma PackStep(ns: seq<bv8>, c: bv8, before: seq<bv8>, after: seq<bv8>)
    requires before == Pack(ns)
    requires |ns| % 2 == 0 ==> after == before + [c << 4]
    requires |ns| % 2 == 1 ==> |ns| / 2 < |before| && after == before[|ns| / 2 := before[|ns| / 2] | c]
    ensures after == Pack(ns + [c])
  {
    if |ns| % 2 == 0 {
      PackPushHigh(ns, c);
    } else {
      PackFillLow(ns, c);
    }
  }

  /** Appending an even-numbered nibble starts a new byte. */
  lemma PackPushHigh(ns: seq<bv8>, c: bv8)
    requires |ns| % 2 == 0
    ensures Pack(ns + [c]) == Pack(ns) + [c << 4]
  {
    var a, b := Pack(ns + [c]), Pack(ns) + [c << 4];
    forall k | 0 <= k < |a| ensures a[k] == b[k] {
      if k < |Pack(ns)| {
        assert (ns + [c])[2 * k] == ns[2 * k];
        assert (ns + [c])[2 * k + 1] == ns[2 * k + 1];
      }
    }
  }

  /** Appending an odd-numbered nibble fills the low half of the last byte. */
  lemma PackFillLow(ns: seq<bv8>, c: bv8)
    requires |ns| % 2 == 1
    ensures Pack(ns + [c]) == Pack(ns)[|ns| / 2 := Pack(ns)[|ns| / 2] | c]
  {
    var a, b := Pack(ns + [c]), Pack(ns)[|ns| / 2 := Pack(ns)[|ns| / 2] | c];
    forall k | 0 <= k < |a| ensures a[k] == b[k] {
      assert (ns + [c])[2 * k] == ns[2 * k];
      if k < |ns| / 2 {
        assert (ns + [c])[2 * k + 1] == ns[2 * k + 1];
      }
    }
  }

  /** Once a prefix fails, nothing after it is looked at. */
  lemma {:induction false} NibblesFailureSticks(s: seq<bv8>, rest: seq<bv8>)
    requires Nibbles(s).Failure?
    ensures Nibbles(s + rest) == Nibbles(s)
    decreases |rest|
  {
    if rest != [] {
      var front := rest[..|rest| - 1];
      assert (s + rest)[..|s + rest| - 1] == s + front;
      NibblesFailureSticks(s, front);
    } else {
      assert s + rest == s;
    }
  }

  /** Readings of adjacent pieces concatenate. */
  lemma {:induction false} NibblesAppend(s: seq<bv8>, rest: seq<bv8>)
    requires Nibbles(s).Success? && Nibbles(rest).Success?
    ensures Nibbles(s + rest) == Success(Nibbles(s).value + Nibbles(rest).value)
    decreases |rest|
  {
    if rest == [] {
      assert s + rest == s;
      assert Nibbles(s).value + [] == Nibbles(s).value;
    } else {
      var front := rest[..|rest| - 1];
      assert (s + rest)[..|s + rest| - 1] == s + front;
      assert Nibbles(front).Success?;
      NibblesAppend(s, front);
      var b := rest[|rest| - 1];
      assert Nibbles(s + rest) == Step(Nibbles(s + front), b);
      assert Nibbles(rest) == Step(Nibbles(front), b);
      if b != Colon {
        var v := HexValue(b).value;
        assert Nibbles(s).value + Nibbles(front).value + [v]
            == Nibbles(s).value + (Nibbles(front).value + [v]);
      }
    }
  }

  /** Decoding fails, with the offending byte, at the first byte before the
      dropped last one that is neither a colon nor a hex digit, whatever
      follows it. */
  lemma {:induction false} DecodeFailsAtFirstBadByte(data: seq<bv8>, k: nat)
    requires k < |data| - 1
    requires !Accepted(data[k])
    requires forall i :: 0 <= i < k ==> Accepted(data[i])
    ensures DecodeGuid(data) == Failure(BadHexDigit(data[k]))
  {
    var body := data[..|data| - 1];
    var front := body[..k];
    assert body[..k + 1][..k] == front;
    assert forall i :: 0 <= i < k ==> front[i] == data[i];
    NibblesShape(front);
    assert Nibbles(body[..k + 1]) == Step(Nibbles(front), data[k]);
    assert Nibbles(body[..k + 1]) == Failure(BadHexDigit(data[k]));
    assert body == body[..k + 1] + body[k + 1..];
    NibblesFailureSticks(body[..k + 1], body[k + 1..]);
  }

  // ---- The sysfs rendering of a GUID, and the round trip through it ----

  /** The lower-case hex digit for a nibble value. */
  function HexDigit(v: bv8): (d: bv8)
    requires v < 16
    ensures HexValue(d) == Some(v) && d != Colon
  {
    if v < 10 then 0x30 + v else 0x61 + (v - 10)
  }

  /** The colon-separated lower-case hex rendering `xx:xx:...:xx` of `g`. */
  function Render(g: seq<bv8>): (s: seq<bv8>)
    ensures |g| > 0 ==> |s| >= 2
  {
    if |g| == 0 then []
    else if |g| == 1 then [HexDigit(HighNibble(g[0])), HexDigit(LowNibble(g[0]))]
    else Render(g[..|g| - 1]) + [Colon, HexDigit(HighNibble(g[|g| - 1])), HexDigit(LowNibble(g[|g| - 1]))]
  }

  /** The nibbles of `g`, high half first. */
  function Split(g: seq<bv8>): (ns: seq<bv8>)
    ensures |ns| == 2 * |g| && |ns| % 2 == 0
  {
    seq(2 * |g|, i requires 0 <= i < 2 * |g| => if i % 2 == 0 then HighNibble(g[i / 2]) else LowNibble(g[i / 2]))
  }

  lemma PackSplit(g: seq<bv8>)
    ensures Pack(Split(g)) == g
  {
    var ns := Split(g);
    var p := Pack(ns);
    forall k | 0 <= k < |g| ensures p[k] == g[k] {
      assert 2 * k + 1 < |ns|;
      assert p[k] == Shifted(ns[2 * k]) | ns[2 * k + 1];
      assert ns[2 * k] == HighNibble(g[k]) && ns[2 * k + 1] == LowNibble(g[k]);
      Recombine(g[k]);
    }
  }

  /** Proof helper: a byte is its high nibble shifted back up, OR-ed with its low nibble. */
  lemma Recombine(b: bv8)
    ensures Shifted(HighNibble(b)) | LowNibble(b) == b
  {
  }

  /** The readings of the short pieces `Render` is built from. */
  lemma NibblesOfPieces(h: bv8, l: bv8)
    requires HexValue(h).Some? && HexValue(l).Some?
    ensures Nibbles([h]) == Success([HexValue(h).value])
    ensures Nibbles([h, l]) == Success([HexValue(h).value, HexValue(l).value])
    ensures Nibbles([Colon, h]) == Success([HexValue(h).value])
    ensures Nibbles([Colon, h, l]) == Success([HexValue(h).value, HexValue(l).value])
  {
    var vh, vl := HexValue(h).value, HexValue(l).value;
    assert h != Colon && l != Colon;
    assert [h][..0] == [] && [Colon][..0] == [];
    assert [h, l][..1] == [h];
    assert [Colon, h][..1] == [Colon];
    assert [Colon, h, l][..2] == [Colon, h];
    assert Nibbles([h]) == Step(Nibbles([]), h);
    assert Nibbles([Colon]) == Step(Nibbles([]), Colon);
    assert Nibbles([h, l]) == Step(Nibbles([h]), l);
    assert Nibbles([Colon, h]) == Step(Nibbles([Colon]), h);
    assert Nibbles([Colon, h, l]) == Step(Nibbles([Colon, h]), l);
    assert [] + [vh] == [vh];
    assert [vh] + [vl] == [vh, vl];
  }

  /** Reading the rendering of `g` gives back the nibbles of `g`. */
  lemma {:induction false} NibblesOfRender(g: seq<bv8>)
    ensures Nibbles(Render(g)) == Success(Split(g))
    decreases |g|
  {
    if |g| == 1 {
      var h, l := HexDigit(HighNibble(g[0])), HexDigit(LowNibble(g[0]));
      NibblesOfPieces(h, l);
      assert Split(g) == [HighNibble(g[0]), LowNibble(g[0])];
    } else if |g| > 1 {
      var p, b := g[..|g| - 1], g[|g| - 1];
      var h, l := HexDigit(HighNibble(b)), HexDigit(LowNibble(b));
      NibblesOfRender(p);
      NibblesOfPieces(h, l);
      assert Render(g) == Render(p) + [Colon, h, l];
      NibblesAppend(Render(p), [Colon, h, l]);
      SplitSnoc(g);
    }
  }

  lemma SplitSnoc(g: seq<bv8>)
    requires |g| > 0
    ensures Split(g) == Split(g[..|g| - 1]) + [HighNibble(g[|g| - 1]), LowNibble(g[|g| - 1])]
  {
    var a, b := Split(g), Split(g[..|g| - 1]) + [HighNibble(g[|g| - 1]), LowNibble(g[|g| - 1])];
    forall i | 0 <= i < |a| ensures a[i] == b[i] {
      if i < 2 * |g| - 2 {
        assert g[..|g| - 1][i / 2] == g[i / 2];
      }
    }
  }

  /** Round trip: decoding the rendering of any GUID followed by any last
      byte (sysfs writes a newline there) gives the GUID back. */
  lemma RoundTrip(g: seq<bv8>, last: bv8)
    ensures DecodeGuid(Render(g) + [last]) == Success(g)
  {
    assert (Render(g) + [last])[..|Render(g)|] == Render(g);
    NibblesOfRender(g);
    PackSplit(g);
  }

  /** Proof helper: a successful scan of the body decodes to its packing. */
  lemma DecodeOfNibbles(data: seq<bv8>, ns: seq<bv8>)
    requires |data| > 0 && Nibbles(data[..|data| - 1]) == Success(ns)
    ensures DecodeGuid(data) == Success(Pack(ns))
  {
  }

  /** Proof helper: a high nibble shifted back up is the byte's high half. */
  lemma HighHalf(b: bv8)
    ensures Shifted(HighNibble(b)) == b & 0xF0
  {
  }

  /** A file without the final newline loses its last hex digit: the last
      byte decodes with an empty low half. */
  lemma MissingNewlineTruncates(g: seq<bv8>)
    requires |g| > 0
    ensures DecodeGuid(Render(g)) == Success(g[..|g| - 1] + [g[|g| - 1] & 0xF0])
  {
    if |g| == 1 {
      TruncatedSingle(g);
    } else {
      TruncatedLast(g);
    }
  }

  /** `MissingNewlineTruncates` for a one-byte GUID. */
  lemma TruncatedSingle(g: seq<bv8>)
    requires |g| == 1
    ensures DecodeGuid(Render(g)) == Success(g[..0] + [g[0] & 0xF0])
  {
    RenderOne(g);
    TruncatedOne(g[0], HexDigit(LowNibble(g[0])));
    HighHalf(g[0]);
    assert g[..0] + [g[0] & 0xF0] == [g[0] & 0xF0];
  }

  /** `MissingNewlineTruncates` for a GUID of two bytes or more. */
  lemma TruncatedLast(g: seq<bv8>)
    requires |g| > 1
    ensures DecodeGuid(Render(g)) == Success(g[..|g| - 1] + [g[|g| - 1] & 0xF0])
  {
    var b := g[|g| - 1];
    RenderLast(g);
    TruncatedMore(g[..|g| - 1], b, HexDigit(LowNibble(b)));
    HighHalf(b);
  }

  /** Proof helper: the rendering of a one-byte GUID is its two digits. */
  lemma RenderOne(g: seq<bv8>)
    requires |g| == 1
    ensures Render(g) == [HexDigit(HighNibble(g[0])), HexDigit(LowNibble(g[0]))]
  {
  }

  /** Proof helper: the rendering of a longer GUID ends in a colon and the last byte's digits. */
  lemma RenderLast(g: seq<bv8>)
    requires |g| > 1
    ensures Render(g) == Render(g[..|g| - 1]) + [Colon, HexDigit(HighNibble(g[|g| - 1])), HexDigit(LowNibble(g[|g| - 1]))]
  {
  }

  /** A high digit and any final byte decode to that digit in the high half. */
  lemma TruncatedOne(b: bv8, last: bv8)
    ensures DecodeGuid([HexDigit(HighNibble(b)), last]) == Success([Shifted(HighNibble(b))])
  {
    var h := HexDigit(HighNibble(b));
    assert [h, last][..1] == [h];
    NibblesOfPieces(h, h);
    assert Pack([HighNibble(b)]) == [Shifted(HighNibble(b))];
    DecodeOfNibbles([h, last], [HighNibble(b)]);
  }

  /** A rendering, a colon, a high digit and any final byte decode to the
      GUID and one half-filled byte. */
  lemma TruncatedMore(p: seq<bv8>, b: bv8, last: bv8)
    requires |p| > 0
    ensures DecodeGuid(Render(p) + [Colon, HexDigit(HighNibble(b)), last]) == Success(p + [Shifted(HighNibble(b))])
  {
    var h := HexDigit(HighNibble(b));
    var s := Render(p) + [Colon, h, last];
    assert s[..|s| - 1] == Render(p) + [Colon, h];
    NibblesOfPieces(h, h);
    NibblesOfRender(p);
    NibblesAppend(Render(p), [Colon, h]);
    PackPushHigh(Split(p), HighNibble(b));
    PackSplit(p);
    DecodeOfNibbles(s, Split(p) + [HighNibble(b)]);
  }

  /** The bytes of the file text `00:1b:21:aa:ff:cc:dd:01` and a newline. */
  const ExampleFile: seq<bv8> := [
    0x30, 0x30, 0x3A, 0x31, 0x62, 0x3A, 0x32, 0x31, 0x3A, 0x61, 0x61, 0x3A,
    0x66, 0x66, 0x3A, 0x63, 0x63, 0x3A, 0x64, 0x64, 0x3A, 0x30, 0x31, 0x0A]

  /** Proof helper: rendering one more byte appends a colon and its two digits. */
  lemma RenderSnoc(p: seq<bv8>, b: bv8)
    requires |p| > 0
    ensures Render(p + [b]) == Render(p) + [Colon, HexDigit(HighNibble(b)), HexDigit(LowNibble(b))]
  {
    assert (p + [b])[..|p|] == p;
  }

  /** Proof helper: the rendering of the first four bytes of the example GUID. */
  lemma ExampleHead()
    ensures Render([0x00, 0x1b, 0x21, 0xaa]) == ExampleFile[..11]
  {
    var p1: seq<bv8> := [0x00];
    assert Render(p1) == [0x30, 0x30];
    var p2 := p1 + [0x1b];
    RenderSnoc(p1, 0x1b);
    assert Render(p2) == [0x30, 0x30, 0x3A, 0x31, 0x62];
    var p3 := p2 + [0x21];
    RenderSnoc(p2, 0x21);
    assert Render(p3) == [0x30, 0x30, 0x3A, 0x31, 0x62, 0x3A, 0x32, 0x31];
    var p4 := p3 + [0xaa];
    RenderSnoc(p3, 0xaa);
    assert HexDigit(HighNibble(0xaa)) == 0x61 && HexDigit(LowNibble(0xaa)) == 0x61;
    assert Render(p4) == [0x30, 0x30, 0x3A, 0x31, 0x62, 0x3A, 0x32, 0x31, 0x3A, 0x61, 0x61];
    assert p4 == [0x00, 0x1b, 0x21, 0xaa];
  }

  /** The rendering of the whole example GUID: the file without its newline. */
  lemma ExampleRender()
    ensures Render([0x00, 0x1b, 0x21, 0xaa, 0xff, 0xcc, 0xdd, 0x01]) == ExampleFile[..23]
  {
    var p4: seq<bv8> := [0x00, 0x1b, 0x21, 0xaa];
    ExampleHead();
    var p5 := p4 + [0xff];
    RenderSnoc(p4, 0xff);
    assert Render(p5) == ExampleFile[..11] + [0x3A, 0x66, 0x66];
    var p6 := p5 + [0xcc];
    RenderSnoc(p5, 0xcc);
    assert Render(p6) == ExampleFile[..11] + [0x3A, 0x66, 0x66, 0x3A, 0x63, 0x63];
    var p7 := p6 + [0xdd];
    RenderSnoc(p6, 0xdd);
    assert Render(p7) == ExampleFile[..11] + [0x3A, 0x66, 0x66, 0x3A, 0x63, 0x63, 0x3A, 0x64, 0x64];
    var p8 := p7 + [0x01];
    RenderSnoc(p7, 0x01);
    assert Render(p8) == ExampleFile[..11] + [0x3A, 0x66, 0x66, 0x3A, 0x63, 0x63, 0x3A, 0x64, 0x64, 0x3A, 0x30, 0x31];
    assert p8 == [0x00, 0x1b, 0x21, 0xaa, 0xff, 0xcc, 0xdd, 0x01];
    assert ExampleFile[..23] == ExampleFile[..11] + [0x3A, 0x66, 0x66, 0x3A, 0x63, 0x63, 0x3A, 0x64, 0x64, 0x3A, 0x30, 0x31];
  }

  /** The file `00:1b:21:aa:ff:cc:dd:01` and a newline decodes to its eight bytes. */
  lemma ExampleDecodes()
    ensures DecodeGuid(ExampleFile) == Success([0x00, 0x1b, 0x21, 0xaa, 0xff, 0xcc, 0xdd, 0x01])
  {
    ExampleRender();
    assert ExampleFile == ExampleFile[..23] + [0x0A];
    RoundTrip([0x00, 0x1b, 0x21, 0xaa, 0xff, 0xcc, 0xdd, 0x01], 0x0A);
  }
}
