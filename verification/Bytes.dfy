/** Bytes, fixed-width integers, big-endian numbers, lexicographic order and UTF-8 text. */
module Bytes {

  datatype Option<+T> = None | Some(value: T)

  type byte = b: int | 0 <= b < 0x100
  type u16 = n: int | 0 <= n < 0x1_0000
  type u32 = n: int | 0 <= n < 0x1_0000_0000
  type u64 = n: int | 0 <= n < 0x1_0000_0000_0000_0000

  const U16_MAX: u16 := 0xFFFF
  const U64_MAX: u64 := 0xFFFF_FFFF_FFFF_FFFF

  // ---------------------------------------------------------------- big-endian numbers

  function Pow256(width: nat): nat {
    if width == 0 then 1 else Pow256(width - 1) * 256
  }

  function BigEndian(n: nat, width: nat): (s: seq<byte>)
    ensures |s| == width
  {
    if width == 0 then [] else BigEndian(n / 256, width - 1) + [n % 256]
  }

  function FromBigEndian(s: seq<byte>): nat {
    if s == [] then 0 else FromBigEndian(s[..|s| - 1]) * 256 + s[|s| - 1]
  }

  lemma {:induction false} DecodeEncodeNumber(n: nat, width: nat)
    requires n < Pow256(width)
    ensures FromBigEndian(BigEndian(n, width)) == n
  {
    if width > 0 {
      DecodeEncodeNumber(n / 256, width - 1);
      assert BigEndian(n, width)[..width - 1] == BigEndian(n / 256, width - 1);
    }
  }

  lemma {:induction false} EncodeDecodeNumber(s: seq<byte>)
    ensures BigEndian(FromBigEndian(s), |s|) == s
    ensures FromBigEndian(s) < Pow256(|s|)
  {
    if s != [] {
      EncodeDecodeNumber(s[..|s| - 1]);
      assert s == s[..|s| - 1] + [s[|s| - 1]];
    }
  }

  lemma NumberWidths()
    ensures Pow256(2) == 0x1_0000 && Pow256(4) == 0x1_0000_0000
    ensures Pow256(8) == 0x1_0000_0000_0000_0000
  {
    assert Pow256(3) == 0x100_0000;
    assert Pow256(5) == 0x100_0000_0000;
    assert Pow256(6) == 0x1_0000_0000_0000;
    assert Pow256(7) == 0x100_0000_0000_0000;
  }

  // ---------------------------------------------------------------- lexicographic order

  predicate LexLess(a: seq<byte>, b: seq<byte>) {
    b != [] && (a == [] || a[0] < b[0] || (a[0] == b[0] && LexLess(a[1..], b[1..])))
  }

  lemma {:induction false} LexTotal(a: seq<byte>, b: seq<byte>)
    ensures LexLess(a, b) || a == b || LexLess(b, a)
    ensures !(LexLess(a, b) && LexLess(b, a))
    ensures !LexLess(a, a)
  {
    if a != [] {
      LexTotal(a[1..], a[1..]);
      if b != [] && a[0] == b[0] {
        LexTotal(a[1..], b[1..]);
        assert a == [a[0]] + a[1..] && b == [b[0]] + b[1..];
      }
    }
  }

  lemma {:induction false} LexTransitive(a: seq<byte>, b: seq<byte>, c: seq<byte>)
    requires LexLess(a, b) && LexLess(b, c)
    ensures LexLess(a, c)
  {
    if a != [] && a[0] == b[0] == c[0] {
      LexTransitive(a[1..], b[1..], c[1..]);
    }
  }

  lemma {:induction false} LexCommonPrefix(p: seq<byte>, a: seq<byte>, b: seq<byte>)
    ensures LexLess(p + a, p + b) <==> LexLess(a, b)
  {
    if p == [] {
      assert p + a == a && p + b == b;
    } else {
      LexCommonPrefix(p[1..], a, b);
      assert (p + a)[1..] == p[1..] + a && (p + b)[1..] == p[1..] + b;
    }
  }

  /** Whatever lies between two strings with a common prefix has that prefix itself. */
  lemma {:induction false} LexBetween(p: seq<byte>, a: seq<byte>, k: seq<byte>, b: seq<byte>)
    requires !LexLess(k, p + a) && LexLess(k, p + b)
    ensures p <= k
  {
    if p != [] {
      assert (p + a)[1..] == p[1..] + a && (p + b)[1..] == p[1..] + b;
      LexBetween(p[1..], a, k[1..], b);
      assert k == [k[0]] + k[1..];
    }
  }

  lemma {:induction false} LexSnoc(a: seq<byte>, x: byte, b: seq<byte>, y: byte)
    requires |a| == |b|
    ensures LexLess(a + [x], b + [y]) <==> LexLess(a, b) || (a == b && x < y)
  {
    if a != [] {
      LexSnoc(a[1..], x, b[1..], y);
      assert (a + [x])[1..] == a[1..] + [x] && (b + [y])[1..] == b[1..] + [y];
      assert a == [a[0]] + a[1..] && b == [b[0]] + b[1..];
    }
  }

  /** At equal width, byte order is numeric order. */
  lemma {:induction false} LexIsNumeric(a: seq<byte>, b: seq<byte>)
    requires |a| == |b|
    ensures LexLess(a, b) <==> FromBigEndian(a) < FromBigEndian(b)
  {
    if a != [] {
      var a', x, b', y := a[..|a| - 1], a[|a| - 1], b[..|b| - 1], b[|b| - 1];
      assert a == a' + [x] && b == b' + [y];
      LexSnoc(a', x, b', y);
      LexIsNumeric(a', b');
      EncodeDecodeNumber(a');
      EncodeDecodeNumber(b');
    }
  }

  // ---------------------------------------------------------------- text

  predicate Continuation(b: byte) { 0x80 <= b < 0xC0 }

  /** Length of the UTF-8 sequence at the head of `s` (Unicode table 3-7); 0 when ill-formed. */
  function Utf8Step(s: seq<byte>): (n: nat)
    requires s != []
    ensures n <= |s|
  {
    var b0 := s[0];
    if b0 < 0x80 then 1
    else if |s| >= 2 && 0xC2 <= b0 < 0xE0 && Continuation(s[1]) then 2
    else if |s| >= 3 && 0xE0 <= b0 < 0xF0 && Continuation(s[1]) && Continuation(s[2])
            && (b0 == 0xE0 ==> s[1] >= 0xA0) && (b0 == 0xED ==> s[1] < 0xA0) then 3
    else if |s| >= 4 && 0xF0 <= b0 < 0xF5 && Continuation(s[1]) && Continuation(s[2]) && Continuation(s[3])
            && (b0 == 0xF0 ==> s[1] >= 0x90) && (b0 == 0xF4 ==> s[1] < 0x90) then 4
    else 0
  }

  predicate ValidUtf8(s: seq<byte>) {
    s == [] || (Utf8Step(s) > 0 && ValidUtf8(s[Utf8Step(s)..]))
  }

  /** A Rust string: its UTF-8 bytes. Rust compares strings byte by byte, which is `LexLess`. */
  type Str = s: seq<byte> | ValidUtf8(s)

  /** Pairs of strings, first component first. */
  predicate PairLess(b: Str, t: Str, b': Str, t': Str) {
    LexLess(b, b') || (b == b' && LexLess(t, t'))
  }

  lemma PairLessOrder(b: Str, t: Str, b': Str, t': Str, b'': Str, t'': Str)
    ensures !PairLess(b, t, b, t)
    ensures PairLess(b, t, b', t') || (b == b' && t == t') || PairLess(b', t', b, t)
    ensures PairLess(b, t, b', t') && PairLess(b', t', b'', t'') ==> PairLess(b, t, b'', t'')
  {
    LexTotal(b, b');
    LexTotal(t, t');
    LexTotal(b, b);
    LexTotal(t, t);
    if LexLess(b, b') && LexLess(b', b'') {
      LexTransitive(b, b', b'');
    }
    if LexLess(t, t') && LexLess(t', t'') {
      LexTransitive(t, t', t'');
    }
  }
}
