/** On-disk paths of the archive (crates/lvqr-archive/src/writer.rs). Paths are their UTF-8 bytes. */
module Writer {
  import opened Bytes
  import Decimal

  const SEPARATOR: byte := 0x2F
  const SEGMENT_FILENAME_WIDTH := 8

  function Ascii(s: string): (b: seq<byte>)
    requires forall i :: 0 <= i < |s| ==> s[i] as int < 0x80
    ensures |b| == |s| && forall i :: 0 <= i < |s| ==> b[i] == s[i] as int
  {
    seq(|s|, i requires 0 <= i < |s| => s[i] as int)
  }

  lemma StepOfPrefix(a: seq<byte>, b: seq<byte>)
    requires a != [] && Utf8Step(a) > 0
    ensures Utf8Step(a + b) == Utf8Step(a)
  {
    hide ValidUtf8;
    var n := if |a| < 4 then |a| else 4;
    assert forall i :: 0 <= i < n ==> (a + b)[i] == a[i];
  }

  lemma {:induction false} Utf8Concat(a: seq<byte>, b: seq<byte>)
    requires ValidUtf8(a) && ValidUtf8(b)
    ensures ValidUtf8(a + b)
  {
    if a == [] {
      assert a + b == b;
    } else {
      var n := Utf8Step(a);
      StepOfPrefix(a, b);
      Utf8Concat(a[n..], b);
      hide Utf8Step;
      assert (a + b)[n..] == a[n..] + b;
    }
  }

  lemma {:induction false} AsciiIsUtf8(s: seq<byte>)
    requires forall i :: 0 <= i < |s| ==> s[i] < 0x80
    ensures ValidUtf8(s)
  {
    if s != [] {
      AsciiIsUtf8(s[1..]);
    }
  }

  /** `Path::join` on Unix: an absolute right side replaces the left one. */
  function Join(base: Str, p: Str): Str {
    if p != [] && p[0] == SEPARATOR then p
    else if base == [] || base[|base| - 1] == SEPARATOR then Utf8Concat(base, p); base + p
    else
      assert ValidUtf8([SEPARATOR]) by { AsciiIsUtf8([SEPARATOR]); }
      Utf8Concat(base, [SEPARATOR]);
      Utf8Concat(base + [SEPARATOR], p);
      base + [SEPARATOR] + p
  }

  function SegmentFileName(segmentSeq: u64): string {
    Decimal.Pad(Decimal.Print(segmentSeq), SEGMENT_FILENAME_WIDTH) + ".m4s"
  }

  function FileName(name: string): Str
    requires forall i :: 0 <= i < |name| ==> name[i] as int < 0x80
  {
    AsciiIsUtf8(Ascii(name));
    Ascii(name)
  }

  function SegmentPath(dir: Str, broadcast: Str, track: Str, segmentSeq: u64): Str {
    Join(Join(Join(dir, broadcast), track), FileName(SegmentFileName(segmentSeq)))
  }

  function InitPath(dir: Str, broadcast: Str, track: Str): Str {
    Join(Join(Join(dir, broadcast), track), FileName("init.mp4"))
  }

  /** Joining one directory with two relative names tells the names apart. */
  lemma JoinInjective(base: Str, p: Str, q: Str)
    requires p == [] || p[0] != SEPARATOR
    requires q == [] || q[0] != SEPARATOR
    requires Join(base, p) == Join(base, q)
    ensures p == q
  {
    var prefix := if base == [] || base[|base| - 1] == SEPARATOR then base else base + [SEPARATOR];
    assert Join(base, p) == prefix + p && Join(base, q) == prefix + q;
    assert p == (prefix + p)[|prefix|..] && q == (prefix + q)[|prefix|..];
  }

  lemma SameAscii(s: string, t: string)
    requires forall i :: 0 <= i < |s| ==> s[i] as int < 0x80
    requires forall i :: 0 <= i < |t| ==> t[i] as int < 0x80
    requires Ascii(s) == Ascii(t)
    ensures s == t
  {
    forall i | 0 <= i < |s|
      ensures s[i] == t[i]
    {
      assert Ascii(s)[i] == Ascii(t)[i];
    }
  }

  lemma FileNameStart(segmentSeq: u64)
    ensures var n := SegmentFileName(segmentSeq);
            |n| > 4 && Decimal.IsDigit(n[0]) && forall i :: 0 <= i < |n| ==> n[i] as int < 0x80
  {
    var d := Decimal.Pad(Decimal.Print(segmentSeq), SEGMENT_FILENAME_WIDTH);
    Decimal.PadKeepsValue(Decimal.Print(segmentSeq), SEGMENT_FILENAME_WIDTH);
    PadNotEmpty(Decimal.Print(segmentSeq), SEGMENT_FILENAME_WIDTH);
    assert SegmentFileName(segmentSeq)[0] == d[0];
  }

  lemma {:induction false} PadNotEmpty(s: string, width: nat)
    requires Decimal.AllDigits(s) && s != []
    ensures Decimal.Pad(s, width) != []
    decreases width - |s|
  {
    if |s| < width {
      PadNotEmpty(['0'] + s, width);
    }
  }

  /** Distinct sequence numbers give distinct paths, for all names and directories, past the padding width too. */
  lemma {:induction false} SegmentPathInjective(dir: Str, broadcast: Str, track: Str, a: u64, b: u64)
    requires SegmentPath(dir, broadcast, track, a) == SegmentPath(dir, broadcast, track, b)
    ensures a == b
  {
    FileNameStart(a);
    FileNameStart(b);
    JoinInjective(Join(Join(dir, broadcast), track), FileName(SegmentFileName(a)), FileName(SegmentFileName(b)));
    SameAscii(SegmentFileName(a), SegmentFileName(b));
    var pa := Decimal.Pad(Decimal.Print(a), SEGMENT_FILENAME_WIDTH);
    var pb := Decimal.Pad(Decimal.Print(b), SEGMENT_FILENAME_WIDTH);
    assert pa == (pa + ".m4s")[..|pa|] && pb == (pb + ".m4s")[..|pb|];
    assert pa == pb;
    Decimal.PadKeepsValue(Decimal.Print(a), SEGMENT_FILENAME_WIDTH);
    Decimal.PadKeepsValue(Decimal.Print(b), SEGMENT_FILENAME_WIDTH);
    Decimal.ValueOfPrint(a);
    Decimal.ValueOfPrint(b);
  }

  /** No segment overwrites the init segment. */
  lemma {:induction false} SegmentIsNotInit(dir: Str, broadcast: Str, track: Str, a: u64)
    ensures SegmentPath(dir, broadcast, track, a) != InitPath(dir, broadcast, track)
  {
    hide SegmentFileName, Join;
    FileNameStart(a);
    var segment, init := FileName(SegmentFileName(a)), FileName("init.mp4");
    assert segment[0] == SegmentFileName(a)[0] as int;
    assert init[0] == 'i' as int;
    if SegmentPath(dir, broadcast, track, a) == InitPath(dir, broadcast, track) {
      JoinInjective(Join(Join(dir, broadcast), track), segment, init);
      assert false;
    }
  }

  // ---------------------------------------------------------------- the layout of the archive

  /** A directory or a relative name that `join` only has to put a slash behind. */
  predicate Component(name: Str) {
    name != [] && name[0] != 0x2F && name[|name| - 1] != 0x2F
  }

  lemma JoinComponents(base: Str, p: Str)
    requires base != [] && base[|base| - 1] != 0x2F && Component(p)
    ensures Join(base, p) == base + [0x2F] + p && Join(base, p)[|Join(base, p)| - 1] != 0x2F
  {
    var joined := base + [0x2F] + p;
    assert joined[|joined| - 1] == p[|p| - 1];
  }

  lemma {:induction false} PadFills(s: string, width: nat)
    requires Decimal.AllDigits(s)
    ensures |s| >= width ==> Decimal.Pad(s, width) == s
    ensures |s| < width ==> |Decimal.Pad(s, width)| == width
    decreases width - |s|
  {
    if |s| < width {
      PadFills(['0'] + s, width);
    }
  }

  lemma {:induction false} NoLeadingZero(n: nat)
    ensures Decimal.Print(n) != [] && (|Decimal.Print(n)| > 1 ==> Decimal.Print(n)[0] != '0')
    ensures n > 0 ==> Decimal.Print(n)[0] != '0'
  {
    if n >= 10 {
      NoLeadingZero(n / 10);
    }
  }

  /** The digits of a segment's file name: its number, filled up with zeros to eight digits and never longer than it
      needs to be. */
  predicate Numbers(digits: string, segmentSeq: u64) {
    Decimal.AllDigits(digits) && Decimal.ValueOf(digits) == segmentSeq && |digits| >= 8
    && (|digits| > 8 ==> digits[0] != '0')
  }

  lemma SegmentFileNameIs(segmentSeq: u64) returns (digits: string)
    ensures Numbers(digits, segmentSeq) && SegmentFileName(segmentSeq) == digits + ".m4s"
  {
    digits := Decimal.Pad(Decimal.Print(segmentSeq), 8);
    Decimal.PadKeepsValue(Decimal.Print(segmentSeq), 8);
    Decimal.ValueOfPrint(segmentSeq);
    PadFills(Decimal.Print(segmentSeq), 8);
    NoLeadingZero(segmentSeq);
  }

  /** Segments lie at `<dir>/<broadcast>/<track>/<number>.m4s`, and the init segment beside them at `init.mp4`. */
  lemma {:induction false} ArchiveLayout(dir: Str, broadcast: Str, track: Str, segmentSeq: u64)
    requires dir != [] && dir[|dir| - 1] != 0x2F && Component(broadcast) && Component(track)
    ensures exists digits :: Numbers(digits, segmentSeq)
              && (forall i :: 0 <= i < |digits + ".m4s"| ==> (digits + ".m4s")[i] as int < 0x80)
              && SegmentPath(dir, broadcast, track, segmentSeq)
                 == dir + [0x2F] + broadcast + [0x2F] + track + [0x2F] + Ascii(digits + ".m4s")
    ensures InitPath(dir, broadcast, track)
            == dir + [0x2F] + broadcast + [0x2F] + track + [0x2F] + Ascii("init.mp4")
  {
    JoinComponents(dir, broadcast);
    JoinComponents(Join(dir, broadcast), track);
    var digits := SegmentFileNameIs(segmentSeq);
    hide Join, SegmentFileName;
    FileNameStart(segmentSeq);
    var segment, init := FileName(digits + ".m4s"), FileName("init.mp4");
    assert Component(segment) && Component(init);
    JoinComponents(Join(Join(dir, broadcast), track), segment);
    JoinComponents(Join(Join(dir, broadcast), track), init);
  }
}
