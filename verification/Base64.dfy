/** The URL-safe base64 of section 5 of RFC 4648, without padding, decoded strictly: no padding, no other characters,
    and no bits left over. */
module Base64 {
  import opened Bytes

  type sextet = n: nat | n < 64

  function Char(n: sextet): char {
    if n < 26 then ('A' as int + n) as char
    else if n < 52 then ('a' as int + n - 26) as char
    else if n < 62 then ('0' as int + n - 52) as char
    else if n == 62 then '-'
    else '_'
  }

  predicate InAlphabet(c: char) {
    'A' <= c <= 'Z' || 'a' <= c <= 'z' || '0' <= c <= '9' || c == '-' || c == '_'
  }

  function Value(c: char): sextet
    requires InAlphabet(c)
  {
    if 'A' <= c <= 'Z' then c as int - 'A' as int
    else if 'a' <= c <= 'z' then c as int - 'a' as int + 26
    else if '0' <= c <= '9' then c as int - '0' as int + 52
    else if c == '-' then 62
    else 63
  }

  predicate AllInAlphabet(s: string) { forall i :: 0 <= i < |s| ==> InAlphabet(s[i]) }

  // ---------------------------------------------------------------- digits to the base of 64

  function Pow64(width: nat): nat {
    if width == 0 then 1 else Pow64(width - 1) * 64
  }

  /** A number in that many characters, high bits first. */
  function Digits(n: nat, width: nat): (s: string)
    ensures |s| == width && AllInAlphabet(s)
  {
    if width == 0 then [] else Digits(n / 64, width - 1) + [Char(n % 64)]
  }

  function Number(s: string): nat
    requires AllInAlphabet(s)
  {
    if s == [] then 0 else Number(s[..|s| - 1]) * 64 + Value(s[|s| - 1])
  }

  lemma CharValue(n: sextet)
    ensures InAlphabet(Char(n)) && Value(Char(n)) == n
  {
  }

  lemma ValueChar(c: char)
    requires InAlphabet(c)
    ensures Char(Value(c)) == c
  {
  }

  lemma {:induction false} NumberOfDigits(n: nat, width: nat)
    requires n < Pow64(width)
    ensures Number(Digits(n, width)) == n
  {
    hide Char, Value;
    if width > 0 {
      NumberOfDigits(n / 64, width - 1);
      CharValue(n % 64);
      assert Digits(n, width)[..width - 1] == Digits(n / 64, width - 1);
    }
  }

  lemma {:induction false} DigitsOfNumber(s: string)
    requires AllInAlphabet(s)
    ensures Number(s) < Pow64(|s|) && Digits(Number(s), |s|) == s
  {
    hide Char, Value, InAlphabet;
    if s != [] {
      var init, last := s[..|s| - 1], s[|s| - 1];
      DigitsOfNumber(init);
      ValueChar(last);
      SplitDigit(Number(init), Value(last));
      assert s == init + [last];
    }
  }

  lemma SplitDigit(n: nat, d: sextet)
    ensures (n * 64 + d) / 64 == n && (n * 64 + d) % 64 == d
  {
  }

  lemma Widths()
    ensures Pow64(2) == 0x1000 && Pow64(3) == 0x4_0000 && Pow64(4) == 0x100_0000
    ensures Pow256(1) == 0x100 && Pow256(2) == 0x1_0000 && Pow256(3) == 0x100_0000
  {
  }

  // ---------------------------------------------------------------- encoding

  /** Three bytes are four characters; one byte left over is two, and two are three, with zeros for the missing bits. */
  function Encode(b: seq<byte>): (s: string)
    ensures AllInAlphabet(s)
    ensures b != [] ==> s != []
  {
    if b == [] then []
    else if |b| == 1 then Digits(FromBigEndian(b) * 16, 2)
    else if |b| == 2 then Digits(FromBigEndian(b) * 4, 3)
    else Digits(FromBigEndian(b[..3]), 4) + Encode(b[3..])
  }

  function Decode(s: string): Option<seq<byte>> {
    if !AllInAlphabet(s) || |s| == 1 then None
    else if s == [] then Some([])
    else if |s| == 2 then if Number(s) % 16 != 0 then None else Some(BigEndian(Number(s) / 16, 1))
    else if |s| == 3 then if Number(s) % 4 != 0 then None else Some(BigEndian(Number(s) / 4, 2))
    else match Decode(s[4..])
      case None => None
      case Some(rest) => Some(BigEndian(Number(s[..4]), 3) + rest)
  }

  lemma ScaledBack(n: nat)
    ensures n * 16 % 16 == 0 && n * 16 / 16 == n && n * 4 % 4 == 0 && n * 4 / 4 == n
  {
  }

  lemma {:induction false} DecodeEncode(b: seq<byte>)
    ensures Decode(Encode(b)) == Some(b)
  {
    hide Char, Value, Digits, Number, FromBigEndian, BigEndian, Pow64, Pow256;
    Widths();
    if |b| == 1 || |b| == 2 {
      EncodeDecodeNumber(b);
      ScaledBack(FromBigEndian(b));
      NumberOfDigits(FromBigEndian(b) * if |b| == 1 then 16 else 4, |b| + 1);
    } else if b != [] {
      EncodeDecodeNumber(b[..3]);
      NumberOfDigits(FromBigEndian(b[..3]), 4);
      DecodeEncode(b[3..]);
      assert Encode(b)[4..] == Encode(b[3..]) && Encode(b)[..4] == Digits(FromBigEndian(b[..3]), 4);
      assert b == b[..3] + b[3..];
    }
  }

  lemma Rescaled(n: nat)
    ensures n % 16 == 0 ==> n / 16 * 16 == n
    ensures n % 4 == 0 ==> n / 4 * 4 == n
  {
  }

  /** Decoding is strict: every byte string has one encoding only. */
  lemma {:induction false} EncodeDecode(s: string)
    requires Decode(s).Some?
    ensures Encode(Decode(s).value) == s
  {
    hide Char, Value, Digits, Number, FromBigEndian, BigEndian, Pow64, Pow256;
    Widths();
    if |s| == 2 || |s| == 3 {
      DigitsOfNumber(s);
      Rescaled(Number(s));
      DecodeEncodeNumber(Number(s) / if |s| == 2 then 16 else 4, |s| - 1);
    } else if s != [] {
      DigitsOfNumber(s[..4]);
      DecodeEncodeNumber(Number(s[..4]), 3);
      EncodeDecode(s[4..]);
      var head, rest := BigEndian(Number(s[..4]), 3), Decode(s[4..]).value;
      assert (head + rest)[..3] == head && (head + rest)[3..] == rest;
      assert s == s[..4] + s[4..];
    }
  }

  // ---------------------------------------------------------------- the alphabet and the bits

  /** The characters are those of table 2 of RFC 4648, in that order. */
  lemma AlphabetIs(c: char)
    ensures 'A' <= c <= 'Z' ==> Char(c as int - 'A' as int) == c
    ensures 'a' <= c <= 'z' ==> Char(26 + c as int - 'a' as int) == c
    ensures '0' <= c <= '9' ==> Char(52 + c as int - '0' as int) == c
    ensures Char(62) == '-' && Char(63) == '_'
  {
  }

  /** Four characters are the number that three bytes are, high bits first. */
  predicate Spells(s: string, x: byte, y: byte, z: byte)
    requires |s| == 4 && AllInAlphabet(s)
  {
    Value(s[0]) as int * 262144 + Value(s[1]) as int * 4096 + Value(s[2]) as int * 64 + Value(s[3]) as int
    == x as int * 65536 + y as int * 256 + z as int
  }

  lemma FourDigits(s: string)
    requires |s| == 4 && AllInAlphabet(s)
    ensures Number(s) == Value(s[0]) as int * 262144 + Value(s[1]) as int * 4096 + Value(s[2]) as int * 64
                         + Value(s[3]) as int
  {
    hide Value, InAlphabet;
    assert Number(s[..3]) == Number(s[..2]) * 64 + Value(s[2]) by { assert s[..3][..2] == s[..2]; }
    assert Number(s[..2]) == Number(s[..1]) * 64 + Value(s[1]) by { assert s[..2][..1] == s[..1]; }
    assert Number(s[..1]) == Value(s[0]) by { assert s[..1][..0] == []; }
  }

  lemma ThreeBytes(b: seq<byte>)
    requires |b| == 3
    ensures FromBigEndian(b) == b[0] as int * 65536 + b[1] as int * 256 + b[2] as int
  {
    assert FromBigEndian(b[..2]) == FromBigEndian(b[..1]) * 256 + b[1] as int by { assert b[..2][..1] == b[..1]; }
    assert FromBigEndian(b[..1]) == b[0] as int by { assert b[..1][..0] == []; }
  }

  /** Each three bytes are encoded by themselves. */
  lemma {:induction false} EncodeConcat(a: seq<byte>, b: seq<byte>)
    requires |a| % 3 == 0
    ensures Encode(a + b) == Encode(a) + Encode(b)
    decreases |a|
  {
    hide Digits, FromBigEndian;
    if a == [] {
      assert a + b == b;
    } else {
      assert (a + b)[3..] == a[3..] + b && (a + b)[..3] == a[..3];
      EncodeConcat(a[3..], b);
    }
  }

  lemma ThreeEncoded(b: seq<byte>)
    requires |b| == 3
    ensures Encode(b) == Digits(FromBigEndian(b), 4)
  {
    assert b[..3] == b && b[3..] == [] && Encode([]) == [];
  }

  /** Three bytes are four characters with the same bits. */
  lemma {:induction false} EncodesBits(b: seq<byte>)
    requires |b| == 3
    ensures |Encode(b)| == 4 && Spells(Encode(b), b[0], b[1], b[2])
  {
    Widths();
    hide Value, Char, Digits, Number, FromBigEndian, Pow64, Pow256, InAlphabet;
    ThreeEncoded(b);
    EncodeDecodeNumber(b);
    NumberOfDigits(FromBigEndian(b), 4);
    FourDigits(Encode(b));
    ThreeBytes(b);
  }

  lemma OneEncoded(x: byte)
    ensures Encode([x]) == Digits(x as int * 16, 2)
  {
    assert [x][..0] == [] && FromBigEndian([x]) == x as int;
  }

  lemma TwoEncoded(x: byte, y: byte)
    ensures Encode([x, y]) == Digits((x as int * 256 + y as int) * 4, 3)
  {
    assert [x, y][..1] == [x] && [x][..0] == [] && FromBigEndian([x]) == x as int;
  }

  /** One byte left over is encoded as if zeros followed it, without the characters those would fill. */
  lemma {:induction false} OneByteLeft(x: byte)
    ensures Encode([x, 0, 0]) == Encode([x]) + "A" + "A" && |Encode([x])| == 2
  {
    hide *;
    var n := x as int * 16;
    OneEncoded(x);
    ThreeEncoded([x, 0, 0]);
    ThreeBytes([x, 0, 0]);
    DigitsShift(n, 2);
    DigitsShift(n * 64, 3);
  }

  /** ... and so are two. */
  lemma {:induction false} TwoBytesLeft(x: byte, y: byte)
    ensures Encode([x, y, 0]) == Encode([x, y]) + "A" && |Encode([x, y])| == 3
  {
    hide *;
    TwoEncoded(x, y);
    ThreeEncoded([x, y, 0]);
    ThreeBytes([x, y, 0]);
    DigitsShift((x as int * 256 + y as int) * 4, 3);
  }

  lemma DigitsShift(n: nat, width: nat)
    ensures Digits(n * 64, width + 1) == Digits(n, width) + "A"
  {
    assert n * 64 / 64 == n && n * 64 % 64 == 0 && Char(0) == 'A';
  }
}
