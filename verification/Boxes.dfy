/** ISO base media boxes, and the walk that finds the first box of a type
    (crates/lvqr-agent-whisper/src/mdat.rs, crates/lvqr-agent-whisper/src/asc.rs). */
module Boxes {
  import opened Bytes

  type FourCC = kind: seq<byte> | |kind| == 4 witness [0, 0, 0, 0]

  const HEADER: nat := 8

  // "mdat", "moov", "trak", "mdia", "minf", "stbl", "stsd", "mp4a", "esds"
  const MDAT: FourCC := [0x6D, 0x64, 0x61, 0x74]
  const MOOV: FourCC := [0x6D, 0x6F, 0x6F, 0x76]
  const TRAK: FourCC := [0x74, 0x72, 0x61, 0x6B]
  const MDIA: FourCC := [0x6D, 0x64, 0x69, 0x61]
  const MINF: FourCC := [0x6D, 0x69, 0x6E, 0x66]
  const STBL: FourCC := [0x73, 0x74, 0x62, 0x6C]
  const STSD: FourCC := [0x73, 0x74, 0x73, 0x64]
  const MP4A: FourCC := [0x6D, 0x70, 0x34, 0x61]
  const ESDS: FourCC := [0x65, 0x73, 0x64, 0x73]

  /** A type by its four characters. */
  function Code(name: string): FourCC
    requires |name| == 4 && forall i :: 0 <= i < 4 ==> name[i] as int < 0x80
  {
    [name[0] as int, name[1] as int, name[2] as int, name[3] as int]
  }

  lemma Codes()
    ensures MDAT == Code("mdat") && MOOV == Code("moov") && TRAK == Code("trak") && MDIA == Code("mdia")
    ensures MINF == Code("minf") && STBL == Code("stbl") && STSD == Code("stsd")
    ensures MP4A == Code("mp4a") && ESDS == Code("esds")
  {
  }

  // ---------------------------------------------------------------- printing

  datatype Box = Box(kind: FourCC, body: seq<byte>)

  /** The size of the box is a 32-bit number. */
  predicate Fits(b: Box) { HEADER + |b.body| < 0x1_0000_0000 }

  function PrintBox(b: Box): seq<byte> {
    BigEndian(HEADER + |b.body|, 4) + b.kind + b.body
  }

  function PrintBoxes(boxes: seq<Box>): seq<byte> {
    if boxes == [] then [] else PrintBox(boxes[0]) + PrintBoxes(boxes[1..])
  }

  /** What surrounds a box: the boxes before it, and any bytes at all after it. */
  datatype Layer = Layer(before: seq<Box>, after: seq<byte>)

  /** Well-formed boxes, none of them of that type. */
  predicate Without(boxes: seq<Box>, kind: FourCC) {
    forall i :: 0 <= i < |boxes| ==> Fits(boxes[i]) && boxes[i].kind != kind
  }

  function Wrap(layer: Layer, kind: FourCC, body: seq<byte>): seq<byte> {
    PrintBoxes(layer.before) + PrintBox(Box(kind, body)) + layer.after
  }

  ghost predicate FirstBox(s: seq<byte>, kind: FourCC, body: seq<byte>, layer: Layer) {
    Without(layer.before, kind) && Fits(Box(kind, body)) && s == Wrap(layer, kind, body)
  }

  // ---------------------------------------------------------------- finding

  /** The declared size of the box at the head of `s`. */
  function SizeAt(s: seq<byte>): nat
    requires |s| >= HEADER
  {
    FromBigEndian(s[..4])
  }

  predicate Malformed(s: seq<byte>)
    requires |s| >= HEADER
  {
    SizeAt(s) < HEADER || SizeAt(s) > |s|
  }

  function FindBox(s: seq<byte>, kind: FourCC): Option<seq<byte>> {
    if |s| < HEADER || Malformed(s) then None
    else if s[4..8] == kind then Some(s[8..SizeAt(s)])
    else FindBox(s[SizeAt(s)..], kind)
  }

  lemma PrintedHead(b: Box, rest: seq<byte>)
    requires Fits(b)
    ensures var s := PrintBox(b) + rest;
            |s| >= HEADER && !Malformed(s) && SizeAt(s) == |PrintBox(b)|
            && s[4..8] == b.kind && s[8..SizeAt(s)] == b.body && s[SizeAt(s)..] == rest
  {
    var s := PrintBox(b) + rest;
    NumberWidths();
    DecodeEncodeNumber(HEADER + |b.body|, 4);
    assert s[..4] == BigEndian(HEADER + |b.body|, 4);
    assert s[4..8] == b.kind;
    assert s[8..HEADER + |b.body|] == b.body;
  }

  lemma ReprintedHead(s: seq<byte>)
    requires |s| >= HEADER && !Malformed(s)
    ensures Fits(Box(s[4..8], s[8..SizeAt(s)]))
    ensures s == PrintBox(Box(s[4..8], s[8..SizeAt(s)])) + s[SizeAt(s)..]
  {
    var size := SizeAt(s);
    NumberWidths();
    EncodeDecodeNumber(s[..4]);
    assert HEADER + |s[8..size]| == size;
    assert s == s[..4] + s[4..8] + s[8..size] + s[size..];
  }

  lemma {:induction false} FindsWrapped(s: seq<byte>, kind: FourCC, body: seq<byte>, layer: Layer)
    requires FirstBox(s, kind, body, layer)
    ensures FindBox(s, kind) == Some(body)
    decreases |layer.before|
  {
    if layer.before == [] {
      assert s == PrintBox(Box(kind, body)) + layer.after;
      PrintedHead(Box(kind, body), layer.after);
    } else {
      var inner := Layer(layer.before[1..], layer.after);
      assert s == PrintBox(layer.before[0]) + Wrap(inner, kind, body);
      PrintedHead(layer.before[0], Wrap(inner, kind, body));
      FindsWrapped(Wrap(inner, kind, body), kind, body, inner);
    }
  }

  lemma {:induction false} FoundIsWrapped(s: seq<byte>, kind: FourCC) returns (layer: Layer)
    requires FindBox(s, kind).Some?
    ensures FirstBox(s, kind, FindBox(s, kind).value, layer)
    decreases |s|
  {
    ReprintedHead(s);
    var head, rest := Box(s[4..8], s[8..SizeAt(s)]), s[SizeAt(s)..];
    if head.kind == kind {
      layer := Layer([], rest);
      assert s == Wrap(layer, kind, head.body);
    } else {
      hide FirstBox, PrintBox;
      var inner := FoundIsWrapped(rest, kind);
      layer := Layer([head] + inner.before, inner.after);
      LayerGrows(head, inner, rest, kind, FindBox(rest, kind).value);
    }
  }

  lemma LayerGrows(head: Box, inner: Layer, rest: seq<byte>, kind: FourCC, body: seq<byte>)
    requires Fits(head) && head.kind != kind && FirstBox(rest, kind, body, inner)
    ensures FirstBox(PrintBox(head) + rest, kind, body, Layer([head] + inner.before, inner.after))
  {
    hide PrintBox;
    var layer := Layer([head] + inner.before, inner.after);
    assert layer.before[1..] == inner.before;
    assert PrintBoxes(layer.before) == PrintBox(head) + PrintBoxes(inner.before);
  }

  /** A box is found exactly when the input is well-formed boxes of other types, then that box, then anything. */
  lemma {:induction false} FindBoxIff(s: seq<byte>, kind: FourCC, body: seq<byte>)
    ensures FindBox(s, kind) == Some(body) <==> exists layer :: FirstBox(s, kind, body, layer)
  {
    if layer :| FirstBox(s, kind, body, layer) {
      FindsWrapped(s, kind, body, layer);
    }
    if FindBox(s, kind) == Some(body) {
      var layer := FoundIsWrapped(s, kind);
    }
  }

  // ---------------------------------------------------------------- the loops

  /** `extract_first_mdat`. */
  method ExtractFirstMdat(payload: seq<byte>) returns (r: Option<seq<byte>>)
    ensures r == FindBox(payload, MDAT)
    ensures forall body :: r == Some(body) <==> exists layer :: FirstBox(payload, Code("mdat"), body, layer)
  {
    Codes();
    forall body ensures FindBox(payload, MDAT) == Some(body) <==> exists layer :: FirstBox(payload, MDAT, body, layer) {
      FindBoxIff(payload, MDAT, body);
    }
    r := WalkBoxes(payload, MDAT);
  }

  /** The walk itself, which `extract_first_mdat`, `descend` and `extract_asc` each spell out. */
  method WalkBoxes(payload: seq<byte>, kind: FourCC) returns (r: Option<seq<byte>>)
    ensures r == FindBox(payload, kind)
  {
    var cursor := 0;
    while cursor + HEADER <= |payload|
      invariant 0 <= cursor <= |payload|
      invariant FindBox(payload[cursor..], kind) == FindBox(payload, kind)
      decreases |payload| - cursor
    {
      ghost var rest := payload[cursor..];
      var size := FromBigEndian(payload[cursor..cursor + 4]);
      assert rest[..4] == payload[cursor..cursor + 4] && rest[4..8] == payload[cursor + 4..cursor + HEADER];
      if size < HEADER || size > |payload| - cursor {
        return None;
      }
      if payload[cursor + 4..cursor + HEADER] == kind {
        assert rest[8..size] == payload[cursor + HEADER..cursor + size];
        return Some(payload[cursor + HEADER..cursor + size]);
      }
      assert rest[size..] == payload[cursor + size..];
      cursor := cursor + size;
    }
    return None;
  }

  /** `descend`: into the first child of each type in turn. */
  method Descend(payload: seq<byte>, path: seq<FourCC>) returns (r: Option<seq<byte>>)
    ensures r == FindPath(payload, path)
  {
    var body := payload;
    for i := 0 to |path|
      invariant FindPath(body, path[i..]) == FindPath(payload, path)
    {
      assert path[i..][0] == path[i] && path[i..][1..] == path[i + 1..];
      var found := WalkBoxes(body, path[i]);
      if found.None? {
        return None;
      }
      body := found.value;
    }
    return Some(body);
  }

  function FindPath(s: seq<byte>, path: seq<FourCC>): Option<seq<byte>>
    decreases |path|
  {
    if path == [] then Some(s)
    else match FindBox(s, path[0])
      case None => None
      case Some(body) => FindPath(body, path[1..])
  }

  function WrapPath(layers: seq<Layer>, path: seq<FourCC>, leaf: seq<byte>): seq<byte>
    requires |layers| == |path|
  {
    if path == [] then leaf else Wrap(layers[0], path[0], WrapPath(layers[1..], path[1..], leaf))
  }

  ghost predicate NestedIn(s: seq<byte>, path: seq<FourCC>, leaf: seq<byte>, layers: seq<Layer>)
    decreases |path|
  {
    |layers| == |path|
    && if path == [] then s == leaf
       else var body := WrapPath(layers[1..], path[1..], leaf);
            FirstBox(s, path[0], body, layers[0]) && NestedIn(body, path[1..], leaf, layers[1..])
  }

  lemma {:induction false} FindsNested(s: seq<byte>, path: seq<FourCC>, leaf: seq<byte>, layers: seq<Layer>)
    requires NestedIn(s, path, leaf, layers)
    ensures FindPath(s, path) == Some(leaf) && s == WrapPath(layers, path, leaf)
    decreases |path|
  {
    if path != [] {
      var body := WrapPath(layers[1..], path[1..], leaf);
      FindsWrapped(s, path[0], body, layers[0]);
      FindsNested(body, path[1..], leaf, layers[1..]);
    }
  }

  lemma {:induction false} FoundIsNested(s: seq<byte>, path: seq<FourCC>) returns (layers: seq<Layer>)
    requires FindPath(s, path).Some?
    ensures NestedIn(s, path, FindPath(s, path).value, layers)
    decreases |path|
  {
    if path == [] {
      layers := [];
    } else {
      var leaf := FindPath(s, path).value;
      var layer := FoundIsWrapped(s, path[0]);
      var inner := FoundIsNested(FindBox(s, path[0]).value, path[1..]);
      FindsNested(FindBox(s, path[0]).value, path[1..], leaf, inner);
      layers := [layer] + inner;
      assert layers[1..] == inner;
    }
  }
}
