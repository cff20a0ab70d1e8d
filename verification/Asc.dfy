/** The audio configuration inside an init segment: MPEG-4 descriptors and the chain of boxes above them
    (crates/lvqr-agent-whisper/src/asc.rs). */
module Asc {
  import opened Bytes
  import opened Boxes

  // ---------------------------------------------------------------- descriptor lengths

  function Pow128(width: nat): nat {
    if width == 0 then 1 else Pow128(width - 1) * 128
  }

  /** A length in seven-bit groups, all but the last marked as continued (section 8.3.3 of ISO/IEC 14496-1). */
  function PrintLength(n: nat, width: nat): (s: seq<byte>)
    requires width > 0
    ensures |s| == width
  {
    Continued(n / 128, width - 1) + [n % 128]
  }

  function Continued(n: nat, width: nat): (s: seq<byte>)
    ensures |s| == width
  {
    if width == 0 then [] else Continued(n / 128, width - 1) + [0x80 + n % 128]
  }

  predicate AllContinued(s: seq<byte>) {
    forall i :: 0 <= i < |s| ==> s[i] >= 0x80
  }

  /** The number whose groups are the low seven bits of each byte. */
  function Groups(s: seq<byte>): nat {
    if s == [] then 0 else Groups(s[..|s| - 1]) * 128 + s[|s| - 1] % 128
  }

  lemma {:induction false} PrintThenGroup(n: nat, width: nat)
    requires n < Pow128(width)
    ensures AllContinued(Continued(n, width)) && Groups(Continued(n, width)) == n
  {
    if width > 0 {
      PrintThenGroup(n / 128, width - 1);
      assert Continued(n, width)[..width - 1] == Continued(n / 128, width - 1);
    }
  }

  /** The groups stand with the high bits first. */
  lemma GroupsInOrder(n: nat)
    ensures n < 128 ==> PrintLength(n, 1) == [n]
    ensures n < 128 * 128 ==> PrintLength(n, 2) == [0x80 + n / 128, n % 128]
  {
  }

  lemma SplitGroups(n: nat, last: byte)
    ensures (n * 128 + last % 128) / 128 == n && (n * 128 + last % 128) % 128 == last % 128
    ensures last >= 0x80 ==> 0x80 + last % 128 == last
  {
  }

  lemma {:induction false} GroupThenPrint(s: seq<byte>)
    requires AllContinued(s)
    ensures Groups(s) < Pow128(|s|) && s == Continued(Groups(s), |s|)
  {
    if s != [] {
      var init, last := s[..|s| - 1], s[|s| - 1];
      GroupThenPrint(init);
      SplitGroups(Groups(init), last);
      assert s == init + [last];
    }
  }

  lemma ContinuedIff(s: seq<byte>, n: nat)
    ensures n < Pow128(|s|) && s == Continued(n, |s|) <==> AllContinued(s) && n == Groups(s)
  {
    if n < Pow128(|s|) && s == Continued(n, |s|) {
      PrintThenGroup(n, |s|);
    }
    if AllContinued(s) {
      GroupThenPrint(s);
    }
  }

  /** What `read_descriptor_length` means: at most four bytes, all but the last of them continued. */
  ghost predicate LengthAt(s: seq<byte>, n: nat, width: nat) {
    1 <= width <= 4 && width <= |s| && AllContinued(s[..width - 1]) && s[width - 1] < 0x80
    && n == Groups(s[..width])
  }

  lemma {:induction false} LengthAtIff(s: seq<byte>, n: nat, width: nat)
    requires 1 <= width <= 4 && width <= |s|
    ensures LengthAt(s, n, width) <==> n < Pow128(width) && s[..width] == PrintLength(n, width)
  {
    var init, last := s[..width - 1], s[width - 1];
    ContinuedIff(init, n / 128);
    assert s[..width] == init + [last];
    assert s[..width][..width - 1] == init;
    assert PrintLength(n, width)[..width - 1] == Continued(n / 128, width - 1);
  }

  lemma LengthIsUnique(s: seq<byte>, n: nat, width: nat)
    requires LengthAt(s, n, width)
    ensures forall n': nat, width': nat :: LengthAt(s, n', width') ==> n' == n && width' == width
  {
  }

  /** The length of a descriptor, and how many bytes it takes. */
  ghost function FindLength(s: seq<byte>): (r: Option<(nat, nat)>)
    ensures r.Some? ==> LengthAt(s, r.value.0, r.value.1)
    ensures forall n: nat, width: nat :: LengthAt(s, n, width) ==> r == Some((n, width))
  {
    if n: nat, width: nat :| LengthAt(s, n, width) then
      LengthIsUnique(s, n, width);
      Some((n, width))
    else None
  }

  method ReadDescriptorLength(buf: seq<byte>) returns (r: Option<(nat, nat)>)
    ensures r == FindLength(buf)
    ensures forall n: nat, width: nat :: r == Some((n, width)) <==>
              1 <= width <= 4 && width <= |buf| && n < Pow128(width) && buf[..width] == PrintLength(n, width)
  {
    var length: nat := 0;
    var idx := 0;
    forall n: nat, width: nat | 1 <= width <= 4 && width <= |buf|
      ensures LengthAt(buf, n, width) <==> n < Pow128(width) && buf[..width] == PrintLength(n, width)
    {
      LengthAtIff(buf, n, width);
    }
    while idx < 4 && idx < |buf|
      invariant 0 <= idx <= 4 && idx <= |buf|
      invariant AllContinued(buf[..idx]) && length == Groups(buf[..idx])
    {
      assert buf[..idx + 1][..idx] == buf[..idx];
      length := length * 128 + buf[idx] % 0x80;
      if buf[idx] < 0x80 {
        assert LengthAt(buf, length, idx + 1);
        return Some((length, idx + 1));
      }
      idx := idx + 1;
    }
    forall n: nat, width: nat ensures !LengthAt(buf, n, width) {
      assert 1 <= width <= idx ==> buf[..idx][width - 1] == buf[width - 1];
    }
    return None;
  }

  // ---------------------------------------------------------------- descriptors

  datatype Descriptor = Descriptor(tag: byte, width: nat, payload: seq<byte>)

  predicate Encodable(d: Descriptor) { 1 <= d.width <= 4 && |d.payload| < Pow128(d.width) }

  function PrintDescriptor(d: Descriptor): seq<byte>
    requires Encodable(d)
  {
    [d.tag] + PrintLength(|d.payload|, d.width) + d.payload
  }

  /** Well-formed descriptors, none of them with that tag. */
  predicate Lacks(ds: seq<Descriptor>, tag: byte) {
    forall i :: 0 <= i < |ds| ==> Encodable(ds[i]) && ds[i].tag != tag
  }

  function PrintDescriptors(ds: seq<Descriptor>): seq<byte>
    requires forall i :: 0 <= i < |ds| ==> Encodable(ds[i])
  {
    if ds == [] then [] else PrintDescriptor(ds[0]) + PrintDescriptors(ds[1..])
  }

  /** What surrounds a descriptor: fixed fields, the descriptors before it, the width of its own length, anything. */
  datatype Fold = Fold(preamble: seq<byte>, before: seq<Descriptor>, width: nat, after: seq<byte>)

  predicate Folds(fold: Fold, tag: byte, payload: seq<byte>) {
    Lacks(fold.before, tag) && Encodable(Descriptor(tag, fold.width, payload))
  }

  function WrapDescriptor(fold: Fold, tag: byte, payload: seq<byte>): seq<byte>
    requires Folds(fold, tag, payload)
  {
    fold.preamble + PrintDescriptors(fold.before) + PrintDescriptor(Descriptor(tag, fold.width, payload)) + fold.after
  }

  ghost function FindDescriptor(s: seq<byte>, tag: byte): Option<seq<byte>> {
    if s == [] then None
    else match FindLength(s[1..])
      case None => None
      case Some((len, used)) =>
        var end := 1 + used + len;
        if end > |s| then None
        else if s[0] == tag then Some(s[1 + used..end])
        else FindDescriptor(s[end..], tag)
  }

  ghost function FindDescriptorAfter(s: seq<byte>, tag: byte, skip: nat): Option<seq<byte>> {
    if |s| < skip then None else FindDescriptor(s[skip..], tag)
  }

  lemma PrintedDescriptorHead(d: Descriptor, rest: seq<byte>)
    requires Encodable(d)
    ensures var s := PrintDescriptor(d) + rest;
            var end := 1 + d.width + |d.payload|;
            end <= |s| && s[0] == d.tag && FindLength(s[1..]) == Some((|d.payload|, d.width))
            && s[1 + d.width..end] == d.payload && s[end..] == rest
  {
    var s := PrintDescriptor(d) + rest;
    assert s[1..][..d.width] == PrintLength(|d.payload|, d.width);
    LengthAtIff(s[1..], |d.payload|, d.width);
    assert s[1 + d.width..1 + d.width + |d.payload|] == d.payload;
    assert s[1 + d.width + |d.payload|..] == rest;
  }

  lemma ReprintedDescriptorHead(s: seq<byte>, len: nat, used: nat)
    requires s != [] && FindLength(s[1..]) == Some((len, used)) && 1 + used + len <= |s|
    ensures var d := Descriptor(s[0], used, s[1 + used..1 + used + len]);
            Encodable(d) && s == PrintDescriptor(d) + s[1 + used + len..]
  {
    LengthAtIff(s[1..], len, used);
    assert s == [s[0]] + s[1..][..used] + s[1 + used..1 + used + len] + s[1 + used + len..];
  }

  lemma FoldGrows(fold: Fold, head: Descriptor, tag: byte, payload: seq<byte>)
    requires fold.preamble == [] && Folds(fold, tag, payload)
    requires Encodable(head) && head.tag != tag
    ensures var outer := Fold([], [head] + fold.before, fold.width, fold.after);
            Folds(outer, tag, payload)
            && WrapDescriptor(outer, tag, payload) == PrintDescriptor(head) + WrapDescriptor(fold, tag, payload)
  {
    hide PrintDescriptor, Encodable;
    var outer := Fold([], [head] + fold.before, fold.width, fold.after);
    assert Lacks(outer.before, tag);
    assert outer.before[1..] == fold.before;
    assert PrintDescriptors(outer.before) == PrintDescriptor(head) + PrintDescriptors(fold.before);
  }

  lemma FoldSheds(fold: Fold, tag: byte, payload: seq<byte>)
    requires Folds(fold, tag, payload) && fold.before != []
    ensures var inner := Fold([], fold.before[1..], fold.width, fold.after);
            Folds(inner, tag, payload) && WrapDescriptor(fold, tag, payload)[|fold.preamble|..]
                                          == PrintDescriptor(fold.before[0]) + WrapDescriptor(inner, tag, payload)
    ensures |WrapDescriptor(fold, tag, payload)| >= |fold.preamble|
  {
    hide PrintDescriptor;
    assert PrintDescriptors(fold.before) == PrintDescriptor(fold.before[0]) + PrintDescriptors(fold.before[1..]);
  }

  lemma {:induction false} FindsFolded(fold: Fold, tag: byte, payload: seq<byte>)
    requires Folds(fold, tag, payload)
    ensures FindDescriptorAfter(WrapDescriptor(fold, tag, payload), tag, |fold.preamble|) == Some(payload)
    decreases |fold.before|
  {
    var s := WrapDescriptor(fold, tag, payload)[|fold.preamble|..];
    if fold.before == [] {
      assert s == PrintDescriptor(Descriptor(tag, fold.width, payload)) + fold.after;
      PrintedDescriptorHead(Descriptor(tag, fold.width, payload), fold.after);
    } else {
      var inner := Fold([], fold.before[1..], fold.width, fold.after);
      var rest := WrapDescriptor(inner, tag, payload);
      FoldSheds(fold, tag, payload);
      hide PrintDescriptor, PrintDescriptors, WrapDescriptor, FindLength;
      PrintedDescriptorHead(fold.before[0], rest);
      FindsFolded(inner, tag, payload);
      assert rest[0..] == rest;
    }
  }

  lemma {:induction false} FoundIsFolded(s: seq<byte>, tag: byte) returns (fold: Fold)
    requires FindDescriptor(s, tag).Some?
    ensures fold.preamble == [] && Folds(fold, tag, FindDescriptor(s, tag).value)
    ensures s == WrapDescriptor(fold, tag, FindDescriptor(s, tag).value)
    decreases |s|
  {
    var (len, used) := FindLength(s[1..]).value;
    ReprintedDescriptorHead(s, len, used);
    var head, rest := Descriptor(s[0], used, s[1 + used..1 + used + len]), s[1 + used + len..];
    hide PrintDescriptor, FindLength, Encodable;
    if head.tag == tag {
      fold := Fold([], [], used, rest);
    } else {
      var inner := FoundIsFolded(rest, tag);
      fold := Fold([], [head] + inner.before, inner.width, inner.after);
      FoldGrows(inner, head, tag, FindDescriptor(s, tag).value);
    }
  }

  ghost predicate FoldedIn(s: seq<byte>, tag: byte, skip: nat, payload: seq<byte>, fold: Fold) {
    Folds(fold, tag, payload) && |fold.preamble| == skip && s == WrapDescriptor(fold, tag, payload)
  }

  lemma FoundIsFoldedAfter(s: seq<byte>, tag: byte, skip: nat) returns (fold: Fold)
    requires FindDescriptorAfter(s, tag, skip).Some?
    ensures FoldedIn(s, tag, skip, FindDescriptorAfter(s, tag, skip).value, fold)
  {
    hide PrintDescriptor, FindDescriptor, Encodable;
    var inner := FoundIsFolded(s[skip..], tag);
    fold := inner.(preamble := s[..skip]);
    assert s == s[..skip] + s[skip..];
  }

  /** A descriptor is found exactly when the body is its fixed fields, well-formed descriptors with other tags, then
      that descriptor with its length in one to four bytes, then anything. */
  lemma {:induction false} FindDescriptorIff(s: seq<byte>, tag: byte, skip: nat, payload: seq<byte>)
    ensures FindDescriptorAfter(s, tag, skip) == Some(payload) <==> exists fold :: FoldedIn(s, tag, skip, payload, fold)
  {
    if fold :| FoldedIn(s, tag, skip, payload, fold) {
      FindsFolded(fold, tag, payload);
    }
    if FindDescriptorAfter(s, tag, skip) == Some(payload) {
      var fold := FoundIsFoldedAfter(s, tag, skip);
    }
  }

  /** `find_descriptor`. */
  method FindDescriptorIn(s: seq<byte>, tag: byte, skip: nat) returns (r: Option<seq<byte>>)
    ensures r == FindDescriptorAfter(s, tag, skip)
  {
    if |s| < skip {
      return None;
    }
    var body := s[skip..];
    while body != []
      invariant FindDescriptor(body, tag) == FindDescriptor(s[skip..], tag)
      decreases |body|
    {
      var length := ReadDescriptorLength(body[1..]);
      if length.None? {
        return None;
      }
      var (len, consumed) := length.value;
      var start := 1 + consumed;
      var end := start + len;
      if end > |body| {
        return None;
      }
      if body[0] == tag {
        return Some(body[start..end]);
      }
      body := body[end..];
    }
    return None;
  }

  // ---------------------------------------------------------------- the whole chain

  const PATH: seq<FourCC> := [MOOV, TRAK, MDIA, MINF, STBL, STSD]

  const ES: byte := 0x03
  const DECODER_CONFIG: byte := 0x04
  const DECODER_SPECIFIC: byte := 0x05

  /** Everything in an init segment but the audio configuration, from the outside in. */
  datatype Init = Init(outer: seq<Layer>, header: seq<byte>, entry: Layer, preamble: seq<byte>, box: Layer,
                       flags: seq<byte>, folds: Chain)
  datatype Chain = Chain(es: Fold, config: Fold, specific: Fold)

  /** An ES descriptor, tag 3, of three fixed bytes and what follows; in that a decoder configuration, tag 4, of
      thirteen fixed bytes; in that the decoder-specific information, tag 5 (section 7.2.6 of ISO/IEC 14496-1). */
  ghost predicate Carries(d: seq<byte>, asc: seq<byte>, x: Chain) {
    Folds(x.specific, 0x05, asc)
    && var config := WrapDescriptor(x.specific, 0x05, asc);
    Folds(x.config, 0x04, config)
    && var es := WrapDescriptor(x.config, 0x04, config);
    FoldedIn(d, 0x03, 0, es, x.es) && FoldedIn(es, 0x04, 3, config, x.config)
    && FoldedIn(config, 0x05, 13, asc, x.specific)
  }

  ghost function AscOfDescriptors(d: seq<byte>): Option<seq<byte>> {
    match FindDescriptorAfter(d, ES, 0)
    case None => None
    case Some(es) =>
      match FindDescriptorAfter(es, DECODER_CONFIG, 3)
      case None => None
      case Some(config) => FindDescriptorAfter(config, DECODER_SPECIFIC, 13)
  }

  lemma CarriedIsFound(d: seq<byte>, asc: seq<byte>, x: Chain)
    requires Carries(d, asc, x)
    ensures AscOfDescriptors(d) == Some(asc)
  {
    hide FindDescriptorAfter, WrapDescriptor, Folds;
    var config := WrapDescriptor(x.specific, DECODER_SPECIFIC, asc);
    FindsFolded(x.specific, DECODER_SPECIFIC, asc);
    FindsFolded(x.config, DECODER_CONFIG, config);
    FindsFolded(x.es, ES, WrapDescriptor(x.config, DECODER_CONFIG, config));
  }

  lemma FoundIsCarried(d: seq<byte>) returns (x: Chain)
    requires AscOfDescriptors(d).Some?
    ensures Carries(d, AscOfDescriptors(d).value, x)
  {
    hide FindDescriptorAfter, WrapDescriptor, Folds;
    var es := FindDescriptorAfter(d, ES, 0).value;
    var config := FindDescriptorAfter(es, DECODER_CONFIG, 3).value;
    var outer := FoundIsFoldedAfter(d, ES, 0);
    var middle := FoundIsFoldedAfter(es, DECODER_CONFIG, 3);
    var inner := FoundIsFoldedAfter(config, DECODER_SPECIFIC, 13);
    x := Chain(outer, middle, inner);
  }

  /** The body of `stsd`: version, flags and entry count; the first `mp4a` entry with its 28 fixed bytes; in that the
      first `esds`, a full box; in that the descriptors. */
  function PrintEntries(x: Init, d: seq<byte>): seq<byte> {
    x.header + Wrap(x.entry, Code("mp4a"), x.preamble + Wrap(x.box, Code("esds"), x.flags + d))
  }

  predicate EntriesFit(x: Init, d: seq<byte>) {
    var esds := Box(Code("esds"), x.flags + d);
    |x.header| == 8 && |x.preamble| == 28 && |x.flags| == 4
    && Without(x.entry.before, Code("mp4a"))
    && Fits(Box(Code("mp4a"), x.preamble + Wrap(x.box, Code("esds"), esds.body)))
    && Without(x.box.before, Code("esds")) && Fits(esds)
  }

  function DescriptorsOf(entries: seq<byte>): Option<seq<byte>> {
    if |entries| < 8 then None
    else match FindBox(entries[8..], MP4A)
      case None => None
      case Some(mp4a) =>
        if |mp4a| < 28 then None
        else match FindBox(mp4a[28..], ESDS)
          case None => None
          case Some(esds) => if |esds| < 4 then None else Some(esds[4..])
  }

  lemma EntriesAreFound(x: Init, d: seq<byte>)
    requires EntriesFit(x, d)
    ensures DescriptorsOf(PrintEntries(x, d)) == Some(d)
  {
    Codes();
    var esds := x.flags + d;
    var mp4a := x.preamble + Wrap(x.box, ESDS, esds);
    hide Wrap, FindBox;
    assert PrintEntries(x, d)[8..] == Wrap(x.entry, MP4A, mp4a);
    FindsWrapped(Wrap(x.entry, MP4A, mp4a), MP4A, mp4a, x.entry);
    assert mp4a[28..] == Wrap(x.box, ESDS, esds);
    FindsWrapped(Wrap(x.box, ESDS, esds), ESDS, esds, x.box);
    assert esds[4..] == d;
  }

  lemma FoundIsEntries(entries: seq<byte>) returns (x: Init)
    requires DescriptorsOf(entries).Some?
    ensures EntriesFit(x, DescriptorsOf(entries).value)
    ensures entries == PrintEntries(x, DescriptorsOf(entries).value)
  {
    Codes();
    var mp4a := FindBox(entries[8..], MP4A).value;
    var esds := FindBox(mp4a[28..], ESDS).value;
    hide FindBox;
    var entry := FoundIsWrapped(entries[8..], MP4A);
    var box := FoundIsWrapped(mp4a[28..], ESDS);
    hide Wrap;
    var none := Fold([], [], 1, []);
    x := Init([], entries[..8], entry, mp4a[..28], box, esds[..4], Chain(none, none, none));
    assert esds == esds[..4] + esds[4..] && mp4a == mp4a[..28] + mp4a[28..] && entries == entries[..8] + entries[8..];
  }

  /** The segment is exactly the chain of boxes and descriptors of `x` around that audio configuration: at every level
      well-formed siblings of other types may come before, and any bytes after. */
  ghost predicate AscIn(s: seq<byte>, asc: seq<byte>, x: Init, d: seq<byte>) {
    var path := [Code("moov"), Code("trak"), Code("mdia"), Code("minf"), Code("stbl"), Code("stsd")];
    Carries(d, asc, x.folds) && EntriesFit(x, d) && NestedIn(s, path, PrintEntries(x, d), x.outer)
  }

  ghost function AscOf(s: seq<byte>): Option<seq<byte>> {
    match FindPath(s, PATH)
    case None => None
    case Some(entries) =>
      match DescriptorsOf(entries)
      case None => None
      case Some(d) => AscOfDescriptors(d)
  }

  lemma {:induction false} AscOfIff(s: seq<byte>, asc: seq<byte>)
    ensures AscOf(s) == Some(asc) <==> exists x, d :: AscIn(s, asc, x, d)
  {
    Codes();
    hide Carries, EntriesFit, NestedIn, FindPath, DescriptorsOf, AscOfDescriptors, PrintEntries, Code;
    if x, d :| AscIn(s, asc, x, d) {
      FindsNested(s, PATH, PrintEntries(x, d), x.outer);
      EntriesAreFound(x, d);
      CarriedIsFound(d, asc, x.folds);
    }
    if AscOf(s) == Some(asc) {
      var x, d := FoundIsAsc(s);
    }
  }

  lemma FoundIsAsc(s: seq<byte>) returns (x: Init, d: seq<byte>)
    requires AscOf(s).Some?
    ensures AscIn(s, AscOf(s).value, x, d)
  {
    var entries := FindPath(s, PATH).value;
    d := DescriptorsOf(entries).value;
    var y := FoundIsEntries(entries);
    var outer := FoundIsNested(s, PATH);
    var chain := FoundIsCarried(d);
    x := y.(outer := outer, folds := chain);
    Codes();
    hide Carries, NestedIn, FindPath, DescriptorsOf, AscOfDescriptors, Wrap, Code;
    assert EntriesFit(x, d) && PrintEntries(x, d) == PrintEntries(y, d);
  }

  /** `extract_asc`. */
  method ExtractAsc(init: seq<byte>) returns (r: Option<seq<byte>>)
    ensures forall asc :: r == Some(asc) <==> exists x, d :: AscIn(init, asc, x, d)
  {
    hide AscIn, FindPath, FindBox, FindDescriptorAfter;
    forall asc ensures AscOf(init) == Some(asc) <==> exists x, d :: AscIn(init, asc, x, d) {
      hide AscOf;
      AscOfIff(init, asc);
    }
    var stsd := Descend(init, PATH);
    if stsd.None? || |stsd.value| < 8 {
      return None;
    }
    var mp4a := WalkBoxes(stsd.value[8..], MP4A);
    if mp4a.None? || |mp4a.value| < 28 {
      return None;
    }
    var esds := WalkBoxes(mp4a.value[28..], ESDS);
    if esds.None? || |esds.value| < 4 {
      return None;
    }
    var es := FindDescriptorIn(esds.value[4..], ES, 0);
    if es.None? {
      return None;
    }
    var config := FindDescriptorIn(es.value, DECODER_CONFIG, 3);
    if config.None? {
      return None;
    }
    r := FindDescriptorIn(config.value, DECODER_SPECIFIC, 13);
  }
}
