/** `SegmentRef` and its two binary codecs (crates/lvqr-archive/src/segment.rs, index.rs `decode_key`). */
module Segment {
  import opened Bytes

  datatype ArchiveError = Corrupt | NonUtf8Path | Io
  datatype Result<+T> = Ok(value: T) | Err(error: ArchiveError)

  datatype SegmentRef = SegmentRef(
    broadcast: Str,
    track: Str,
    segmentSeq: u64,
    startDts: u64,
    endDts: u64,
    timescale: u32,
    keyframeStart: bool,
    path: Str,
    byteOffset: u64,
    length: u64)

  // ---------------------------------------------------------------- keys

  /** Names longer than the u16 length prefix can say are refused by `EncodeKey`. */
  predicate NamesFit(broadcast: Str, track: Str) {
    |broadcast| <= U16_MAX && |track| <= U16_MAX
  }

  function StreamPrefix(broadcast: Str, track: Str): seq<byte> {
    BigEndian(|broadcast|, 2) + broadcast + BigEndian(|track|, 2) + track
  }

  /** The layout of an index key. */
  function Key(broadcast: Str, track: Str, startDts: u64): seq<byte> {
    StreamPrefix(broadcast, track) + BigEndian(startDts, 8)
  }

  lemma KeySlices(broadcast: Str, track: Str, rest: seq<byte>)
    ensures var p := StreamPrefix(broadcast, track) + rest;
            var nb, nt := |broadcast|, |track|;
            |p| == 4 + nb + nt + |rest| && p[..2] == BigEndian(nb, 2) && p[2..2 + nb] == broadcast
            && p[2 + nb..4 + nb] == BigEndian(nt, 2) && p[4 + nb..4 + nb + nt] == track && p[4 + nb + nt..] == rest
  {
  }

  /** No stream prefix is a prefix of a key of another stream, whatever the names are. */
  lemma {:induction false} PrefixFree(b: Str, t: Str, r: seq<byte>, b': Str, t': Str, r': seq<byte>)
    requires NamesFit(b, t) && NamesFit(b', t')
    requires StreamPrefix(b, t) + r == StreamPrefix(b', t') + r'
    ensures b == b' && t == t' && r == r'
  {
    KeySlices(b, t, r);
    KeySlices(b', t', r');
    NumberWidths();
    DecodeEncodeNumber(|b|, 2);
    DecodeEncodeNumber(|b'|, 2);
    DecodeEncodeNumber(|t|, 2);
    DecodeEncodeNumber(|t'|, 2);
  }

  lemma KeyInjective(b: Str, t: Str, d: u64, b': Str, t': Str, d': u64)
    requires NamesFit(b, t) && NamesFit(b', t')
    requires Key(b, t, d) == Key(b', t', d')
    ensures b == b' && t == t' && d == d'
  {
    PrefixFree(b, t, BigEndian(d, 8), b', t', BigEndian(d', 8));
    NumberWidths();
    DecodeEncodeNumber(d, 8);
    DecodeEncodeNumber(d', 8);
  }

  /** Within one stream, byte order of keys is numeric order of `startDts`. */
  lemma {:induction false} KeyOrderIsDtsOrder(b: Str, t: Str, d: u64, d': u64)
    ensures LexLess(Key(b, t, d), Key(b, t, d')) <==> d < d'
  {
    LexCommonPrefix(StreamPrefix(b, t), BigEndian(d, 8), BigEndian(d', 8));
    LexIsNumeric(BigEndian(d, 8), BigEndian(d', 8));
    NumberWidths();
    DecodeEncodeNumber(d, 8);
    DecodeEncodeNumber(d', 8);
  }

  /** A byte range between two keys of one stream holds exactly the keys of that stream in that dts range. */
  lemma {:induction false} RangeStaysInStream(b: Str, t: Str, lo: u64, hi: u64, b': Str, t': Str, d: u64)
    requires NamesFit(b, t) && NamesFit(b', t')
    ensures !LexLess(Key(b', t', d), Key(b, t, lo)) && LexLess(Key(b', t', d), Key(b, t, hi))
       <==> b' == b && t' == t && lo <= d < hi
  {
    if b' == b && t' == t {
      KeyOrderIsDtsOrder(b, t, d, lo);
      KeyOrderIsDtsOrder(b, t, d, hi);
    } else if !LexLess(Key(b', t', d), Key(b, t, lo)) && LexLess(Key(b', t', d), Key(b, t, hi)) {
      LexBetween(StreamPrefix(b, t), BigEndian(lo, 8), Key(b', t', d), BigEndian(hi, 8));
      PrefixFree(b, t, Key(b', t', d)[|StreamPrefix(b, t)|..], b', t', BigEndian(d, 8));
      assert false;
    }
  }

  /** The same for the closed range `[prefix_lower, prefix_upper]`: exactly the stream's own keys. */
  lemma {:induction false} StreamRangeIsStream(b: Str, t: Str, b': Str, t': Str, d: u64)
    requires NamesFit(b, t) && NamesFit(b', t')
    ensures !LexLess(Key(b', t', d), Key(b, t, 0)) && !LexLess(Key(b, t, U64_MAX), Key(b', t', d))
       <==> b' == b && t' == t
  {
    LexTotal(Key(b', t', d), Key(b, t, U64_MAX));
    RangeStaysInStream(b, t, 0, U64_MAX, b', t', d);
    if b' == b && t' == t {
      KeyOrderIsDtsOrder(b, t, d, 0);
      KeyOrderIsDtsOrder(b, t, U64_MAX, d);
    } else if Key(b', t', d) == Key(b, t, U64_MAX) {
      KeyInjective(b', t', d, b, t, U64_MAX);
      assert false;
    }
  }

  /** Where everything stands in a key: two bytes of length, the broadcast; two bytes of length, the track; and eight
      bytes of dts, each number with its high byte first. */
  ghost predicate KeyAt(key: seq<byte>, broadcast: Str, track: Str, startDts: u64) {
    var nb, nt := |broadcast|, |track|;
    |key| == nb + nt + 12 && key[0] as int * 256 + key[1] as int == nb && key[2..2 + nb] == broadcast
    && key[2 + nb] as int * 256 + key[3 + nb] as int == nt && key[4 + nb..4 + nb + nt] == track
    && FromBigEndian(key[4 + nb + nt..]) == startDts
  }

  lemma TwoBytes(n: u16)
    ensures BigEndian(n, 2)[0] as int * 256 + BigEndian(n, 2)[1] as int == n
  {
    assert BigEndian(n, 2) == BigEndian(n / 256, 1) + [n % 256] && BigEndian(n / 256, 1) == [n / 256 % 256];
  }

  lemma KeyIsAt(broadcast: Str, track: Str, startDts: u64)
    requires NamesFit(broadcast, track)
    ensures KeyAt(Key(broadcast, track, startDts), broadcast, track, startDts)
  {
    var key, nb := Key(broadcast, track, startDts), |broadcast|;
    KeySlices(broadcast, track, BigEndian(startDts, 8));
    TwoBytes(nb);
    TwoBytes(|track|);
    NumberWidths();
    DecodeEncodeNumber(startDts, 8);
    hide StreamPrefix, Key, BigEndian;
    assert key[..2][0] == key[0] && key[..2][1] == key[1];
    assert key[2 + nb..4 + nb][0] == key[2 + nb] && key[2 + nb..4 + nb][1] == key[3 + nb];
  }

  method EncodeKey(broadcast: Str, track: Str, startDts: u64) returns (r: Result<seq<byte>>)
    ensures r == if NamesFit(broadcast, track) then Ok(Key(broadcast, track, startDts)) else Err(Corrupt)
    ensures r.Ok? <==> |broadcast| <= 65535 && |track| <= 65535
    ensures r.Ok? ==> KeyAt(r.value, broadcast, track, startDts)
  {
    if NamesFit(broadcast, track) {
      KeyIsAt(broadcast, track, startDts);
    }
    if |broadcast| > U16_MAX {
      return Err(Corrupt);
    }
    if |track| > U16_MAX {
      return Err(Corrupt);
    }
    var out: seq<byte> := [];
    out := out + BigEndian(|broadcast|, 2);
    assert out == BigEndian(|broadcast|, 2);
    out := out + broadcast;
    out := out + BigEndian(|track|, 2);
    out := out + track;
    out := out + BigEndian(startDts, 8);
    return Ok(out);
  }

  /** A name behind its two-byte length: what the first and the second third of a key look like. */
  function Named(name: seq<byte>, rest: seq<byte>): seq<byte> {
    BigEndian(|name|, 2) + name + rest
  }

  lemma NamedSlices(name: seq<byte>, rest: seq<byte>)
    requires |name| <= U16_MAX
    ensures var s := Named(name, rest);
            |s| == 2 + |name| + |rest| && FromBigEndian(s[..2]) == |name| && s[2..2 + |name|] == name
            && s[2 + |name|..] == rest
  {
    NumberWidths();
    DecodeEncodeNumber(|name|, 2);
    assert Named(name, rest)[..2] == BigEndian(|name|, 2);
  }

  lemma KeyIsNamed(b: Str, t: Str, d: u64)
    ensures Key(b, t, d) == Named(b, Named(t, BigEndian(d, 8)))
  {
  }

  /** Advances over one length-prefixed name, exactly when `src` starts with one that is UTF-8. */
  method TakeName(src: seq<byte>) returns (ok: bool, name: Str, rem: seq<byte>)
    ensures ok ==> |name| <= U16_MAX && src == Named(name, rem)
    ensures forall n: Str, r: seq<byte> :: |n| <= U16_MAX && src == Named(n, r) ==> ok && name == n && rem == r
  {
    ok, name, rem := false, [], src;
    hide ValidUtf8, BigEndian, FromBigEndian;
    forall n: Str, r: seq<byte> | |n| <= U16_MAX && src == Named(n, r)
      ensures |src| == 2 + |n| + |r| && FromBigEndian(src[..2]) == |n| && src[2..2 + |n|] == n && src[2 + |n|..] == r
    {
      NamedSlices(n, r);
    }
    if |rem| < 2 { return; }
    var len := FromBigEndian(rem[..2]);
    NumberWidths();
    EncodeDecodeNumber(src[..2]);
    rem := rem[2..];
    if |rem| < len { return; }
    var bytes := rem[..len];
    assert bytes == src[2..2 + len];
    rem := rem[len..];
    assert rem == src[2 + len..];
    if !ValidUtf8(bytes) { return; }
    ok, name := true, bytes;
    assert src == src[..2] + bytes + rem;
  }

  /** Accepts exactly the images of `Key`, and returns the only preimage. */
  method DecodeKey(raw: seq<byte>) returns (r: Result<(Str, Str, u64)>)
    ensures r.Ok? ==> NamesFit(r.value.0, r.value.1) && raw == Key(r.value.0, r.value.1, r.value.2)
    ensures forall b: Str, t: Str, d: u64 :: NamesFit(b, t) && raw == Key(b, t, d) ==> r == Ok((b, t, d))
    ensures r.Err? ==> r.error == Corrupt
  {
    NumberWidths();
    forall b: Str, t: Str, d: u64 | NamesFit(b, t) && raw == Key(b, t, d)
      ensures raw == Named(b, Named(t, BigEndian(d, 8))) && FromBigEndian(BigEndian(d, 8)) == d
    {
      KeyIsNamed(b, t, d);
      DecodeEncodeNumber(d, 8);
    }
    var ok, broadcast, rem := TakeName(raw);
    if !ok { return Err(Corrupt); }
    var ok', track, rem' := TakeName(rem);
    if !ok' { return Err(Corrupt); }
    rem := rem';
    if |rem| < 8 { return Err(Corrupt); }
    var startDts := FromBigEndian(rem[..8]);
    EncodeDecodeNumber(rem[..8]);
    if rem[8..] != [] { return Err(Corrupt); }
    assert rem == rem[..8];
    KeyIsNamed(broadcast, track, startDts);
    return Ok((broadcast, track, startDts));
  }

  // ---------------------------------------------------------------- values

  /** The layout of an index value. The path length is cast to u32, so it wraps. */
  function Value(seg: SegmentRef): seq<byte> {
    BigEndian(seg.segmentSeq, 8) + BigEndian(seg.endDts, 8) + BigEndian(seg.timescale, 4)
    + [if seg.keyframeStart then 1 else 0] + BigEndian(seg.byteOffset, 8) + BigEndian(seg.length, 8)
    + BigEndian(|seg.path| % 0x1_0000_0000, 4) + seg.path
  }

  lemma ValueSlices(seg: SegmentRef)
    ensures var v := Value(seg);
            |v| == 41 + |seg.path| && v[..8] == BigEndian(seg.segmentSeq, 8) && v[8..16] == BigEndian(seg.endDts, 8)
            && v[16..20] == BigEndian(seg.timescale, 4) && v[20] == (if seg.keyframeStart then 1 else 0)
            && v[21..29] == BigEndian(seg.byteOffset, 8) && v[29..37] == BigEndian(seg.length, 8)
            && v[37..41] == BigEndian(|seg.path| % 0x1_0000_0000, 4) && v[41..] == seg.path
  {
  }

  /** The numbers at the fixed offsets of `v` are the fields of `seg`. */
  predicate FixedFieldsAre(v: seq<byte>, seg: SegmentRef)
    requires |v| >= 41
  {
    FromBigEndian(v[..8]) == seg.segmentSeq && FromBigEndian(v[8..16]) == seg.endDts
    && FromBigEndian(v[16..20]) == seg.timescale && v[20] == (if seg.keyframeStart then 1 else 0)
    && FromBigEndian(v[21..29]) == seg.byteOffset && FromBigEndian(v[29..37]) == seg.length
  }

  lemma ValueNumbers(seg: SegmentRef)
    ensures var v := Value(seg);
            |v| == 41 + |seg.path| && FixedFieldsAre(v, seg)
            && FromBigEndian(v[37..41]) == |seg.path| % 0x1_0000_0000 && v[41..] == seg.path
  {
    ValueSlices(seg);
    NumberWidths();
    DecodeEncodeNumber(seg.segmentSeq, 8);
    DecodeEncodeNumber(seg.endDts, 8);
    DecodeEncodeNumber(seg.timescale, 4);
    DecodeEncodeNumber(seg.byteOffset, 8);
    DecodeEncodeNumber(seg.length, 8);
    DecodeEncodeNumber(|seg.path| % 0x1_0000_0000, 4);
  }

  lemma SameField(v: seq<byte>, w: seq<byte>, i: nat, j: nat)
    requires i <= j <= |v| && j <= |w| && FromBigEndian(v[i..j]) == FromBigEndian(w[i..j])
    ensures forall k :: i <= k < j ==> v[k] == w[k]
  {
    EncodeDecodeNumber(v[i..j]);
    EncodeDecodeNumber(w[i..j]);
    forall k | i <= k < j
      ensures v[k] == w[k]
    {
      assert v[k] == v[i..j][k - i] && w[k] == w[i..j][k - i];
    }
  }

  lemma ReassembleValue(v: seq<byte>, seg: SegmentRef)
    requires |v| == 41 + |seg.path| && |seg.path| < 0x1_0000_0000
    requires FixedFieldsAre(v, seg) && FromBigEndian(v[37..41]) == |seg.path| && v[41..] == seg.path
    ensures v == Value(seg)
  {
    var w := Value(seg);
    ValueNumbers(seg);
    hide Value, BigEndian, ValidUtf8;
    SameField(v, w, 0, 8);
    SameField(v, w, 8, 16);
    SameField(v, w, 16, 20);
    SameField(v, w, 21, 29);
    SameField(v, w, 29, 37);
    SameField(v, w, 37, 41);
    assert v[..41] == w[..41];
    assert v == v[..41] + v[41..] && w == w[..41] + w[41..];
  }

  method EncodeValue(seg: SegmentRef) returns (out: seq<byte>)
    ensures out == Value(seg) && |out| == 41 + |seg.path| && out[41..] == seg.path
    ensures FromBigEndian(out[..8]) == seg.segmentSeq && FromBigEndian(out[8..16]) == seg.endDts
    ensures FromBigEndian(out[16..20]) == seg.timescale && out[20] == (if seg.keyframeStart then 1 else 0)
    ensures FromBigEndian(out[21..29]) == seg.byteOffset && FromBigEndian(out[29..37]) == seg.length
    ensures FromBigEndian(out[37..41]) == |seg.path| % 0x1_0000_0000
  {
    ValueNumbers(seg);
    out := [];
    out := out + BigEndian(seg.segmentSeq, 8);
    assert out == BigEndian(seg.segmentSeq, 8);
    out := out + BigEndian(seg.endDts, 8);
    out := out + BigEndian(seg.timescale, 4);
    out := out + [if seg.keyframeStart then 1 else 0];
    out := out + BigEndian(seg.byteOffset, 8);
    out := out + BigEndian(seg.length, 8);
    out := out + BigEndian(|seg.path| % 0x1_0000_0000, 4);
    out := out + seg.path;
  }

  /** The row decodes back only when its path length survived the u32 cast. */
  predicate Decodable(seg: SegmentRef) {
    |seg.path| < 0x1_0000_0000
  }

  /** Advances over the 41 bytes of fixed-width fields; `fields` leaves the path empty. */
  method ReadFixedFields(broadcast: Str, track: Str, startDts: u64, value: seq<byte>)
    returns (ok: bool, fields: SegmentRef, pathLen: nat, rem: seq<byte>)
    ensures ok <==> |value| >= 41 && value[20] <= 1
    ensures ok ==> FixedFieldsAre(value, fields) && pathLen == FromBigEndian(value[37..41]) && rem == value[41..]
    ensures fields.broadcast == broadcast && fields.track == track && fields.startDts == startDts
  {
    NumberWidths();
    fields, pathLen := SegmentRef(broadcast, track, 0, startDts, 0, 0, false, [], 0, 0), 0;
    ok, rem := false, value;
    if |rem| < 8 { return; }
    EncodeDecodeNumber(rem[..8]);
    fields := fields.(segmentSeq := FromBigEndian(rem[..8]));
    rem := rem[8..];
    if |rem| < 8 { return; }
    assert rem[..8] == value[8..16];
    EncodeDecodeNumber(rem[..8]);
    fields := fields.(endDts := FromBigEndian(rem[..8]));
    rem := rem[8..];
    if |rem| < 4 { return; }
    assert rem[..4] == value[16..20];
    EncodeDecodeNumber(rem[..4]);
    fields := fields.(timescale := FromBigEndian(rem[..4]));
    rem := rem[4..];
    if |rem| < 1 { return; }
    if rem[0] > 1 { return; }
    fields := fields.(keyframeStart := rem[0] == 1);
    rem := rem[1..];
    if |rem| < 8 { return; }
    assert rem[..8] == value[21..29];
    EncodeDecodeNumber(rem[..8]);
    fields := fields.(byteOffset := FromBigEndian(rem[..8]));
    rem := rem[8..];
    if |rem| < 8 { return; }
    assert rem[..8] == value[29..37];
    EncodeDecodeNumber(rem[..8]);
    fields := fields.(length := FromBigEndian(rem[..8]));
    rem := rem[8..];
    if |rem| < 4 { return; }
    assert rem[..4] == value[37..41];
    pathLen := FromBigEndian(rem[..4]);
    ok, rem := true, rem[4..];
  }

  /** Accepts exactly the encodings of rows of this key whose path is under 4 GiB, and inverts them. */
  method DecodeValue(broadcast: Str, track: Str, startDts: u64, value: seq<byte>) returns (r: Result<SegmentRef>)
    ensures r.Ok? ==> r.value.broadcast == broadcast && r.value.track == track && r.value.startDts == startDts
    ensures r.Ok? ==> Decodable(r.value) && value == Value(r.value)
    ensures forall seg: SegmentRef ::
              (value == Value(seg) && seg.broadcast == broadcast && seg.track == track && seg.startDts == startDts)
              ==> r == if |seg.path| < 0x1_0000_0000 then Ok(seg) else Err(Corrupt)
  {
    forall seg: SegmentRef | value == Value(seg)
      ensures |value| == 41 + |seg.path| && value[20] <= 1 && value[41..] == seg.path
      ensures FromBigEndian(value[37..41]) == |seg.path| % 0x1_0000_0000
    {
      ValueNumbers(seg);
    }
    var ok, fields, pathLen, rem := ReadFixedFields(broadcast, track, startDts, value);
    if !ok { return Err(Corrupt); }
    if |rem| < pathLen { return Err(Corrupt); }
    var path := rem[..pathLen];
    rem := rem[pathLen..];
    if rem != [] { return Err(Corrupt); }
    assert path == value[41..];
    if !ValidUtf8(path) { return Err(NonUtf8Path); }
    NumberWidths();
    EncodeDecodeNumber(value[37..41]);
    var seg := fields.(path := path);
    ReassembleValue(value, seg);
    forall other: SegmentRef |
      value == Value(other) && other.broadcast == broadcast && other.track == track && other.startDts == startDts
      ensures other == seg
    {
      ValueInjective(other, seg);
    }
    return Ok(seg);
  }

  /** A row is determined by its key and its encoded value, oversized path or not. */
  lemma {:induction false} ValueInjective(a: SegmentRef, b: SegmentRef)
    requires Value(a) == Value(b)
    requires a.broadcast == b.broadcast && a.track == b.track && a.startDts == b.startDts
    ensures a == b
  {
    ValueNumbers(a);
    ValueNumbers(b);
  }
}
