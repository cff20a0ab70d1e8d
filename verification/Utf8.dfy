/** Which byte strings are texts: the encodings of Unicode scalar values, one behind the other (section 3 of RFC
    3629). */
module Utf8 {
  import opened Bytes

  /** A code point that is no surrogate. */
  type Scalar = c: int | 0 <= c < 0xD800 || 0xE000 <= c < 0x11_0000

  function EncodeScalar(c: Scalar): (s: seq<byte>)
    ensures s != []
  {
    if c < 0x80 then [c]
    else if c < 0x800 then [0xC0 + c / 64, Low(c)]
    else if c < 0x1_0000 then [0xE0 + c / 4096, Low(c / 64), Low(c)]
    else [0xF0 + c / 262144, Low(c / 4096), Low(c / 64), Low(c)]
  }

  /** The lowest six bits, in a continuation byte. */
  function Low(n: nat): byte { 0x80 + n % 64 }

  function EncodeText(text: seq<Scalar>): seq<byte> {
    if text == [] then [] else EncodeScalar(text[0]) + EncodeText(text[1..])
  }

  lemma SixBits(a: nat, b: nat)
    requires b < 64
    ensures (a * 64 + b) / 64 == a && (a * 64 + b) % 64 == b
  {
  }

  lemma TwoAndThree(c: nat)
    ensures c / 64 / 64 == c / 4096 && c / 4096 / 64 == c / 262144
  {
  }

  /** Every scalar value is read back as one step. */
  lemma ScalarIsStep(c: Scalar, rest: seq<byte>)
    ensures Utf8Step(EncodeScalar(c) + rest) == |EncodeScalar(c)|
  {
    var s := EncodeScalar(c) + rest;
    TwoAndThree(c);
    assert forall i :: 0 <= i < |EncodeScalar(c)| ==> s[i] == EncodeScalar(c)[i];
  }

  lemma TwoBytes(a: byte, b: byte) returns (c: Scalar)
    requires 0xC2 <= a < 0xE0 && Continuation(b)
    ensures EncodeScalar(c) == [a, b]
  {
    c := (a - 0xC0) * 64 + (b - 0x80);
    SixBits(a - 0xC0, b - 0x80);
  }

  lemma ThreeBytes(a: byte, b: byte, d: byte) returns (c: Scalar)
    requires 0xE0 <= a < 0xF0 && Continuation(b) && Continuation(d)
    requires (a == 0xE0 ==> b >= 0xA0) && (a == 0xED ==> b < 0xA0)
    ensures EncodeScalar(c) == [a, b, d]
  {
    var high := (a - 0xE0) * 64 + (b - 0x80);
    SixBits(a - 0xE0, b - 0x80);
    SixBits(high, d - 0x80);
    TwoAndThree(high * 64 + (d - 0x80));
    c := high * 64 + (d - 0x80);
  }

  lemma FourBytes(a: byte, b: byte, d: byte, e: byte) returns (c: Scalar)
    requires 0xF0 <= a < 0xF5 && Continuation(b) && Continuation(d) && Continuation(e)
    requires (a == 0xF0 ==> b >= 0x90) && (a == 0xF4 ==> b < 0x90)
    ensures EncodeScalar(c) == [a, b, d, e]
  {
    var top := (a - 0xF0) * 64 + (b - 0x80);
    var high := top * 64 + (d - 0x80);
    SixBits(a - 0xF0, b - 0x80);
    SixBits(top, d - 0x80);
    SixBits(high, e - 0x80);
    TwoAndThree(high * 64 + (e - 0x80));
    c := high * 64 + (e - 0x80);
  }

  /** Every step is a scalar value. */
  lemma StepIsScalar(s: seq<byte>) returns (c: Scalar)
    requires s != [] && Utf8Step(s) > 0
    ensures EncodeScalar(c) == s[..Utf8Step(s)]
  {
    var n := Utf8Step(s);
    if n == 1 {
      c := s[0];
    } else if n == 2 {
      c := TwoBytes(s[0], s[1]);
    } else if n == 3 {
      c := ThreeBytes(s[0], s[1], s[2]);
    } else {
      c := FourBytes(s[0], s[1], s[2], s[3]);
    }
  }

  lemma {:induction false} EncodedIsValid(text: seq<Scalar>)
    ensures ValidUtf8(EncodeText(text))
  {
    if text != [] {
      var head, rest := EncodeScalar(text[0]), EncodeText(text[1..]);
      ScalarIsStep(text[0], rest);
      EncodedIsValid(text[1..]);
      hide Utf8Step, EncodeScalar;
      assert (head + rest)[|head|..] == rest;
    }
  }

  lemma {:induction false} ValidIsEncoded(s: seq<byte>) returns (text: seq<Scalar>)
    requires ValidUtf8(s)
    ensures s == EncodeText(text)
  {
    if s == [] {
      text := [];
    } else {
      var n := Utf8Step(s);
      var c := StepIsScalar(s);
      var rest := ValidIsEncoded(s[n..]);
      hide Utf8Step, EncodeScalar;
      text := [c] + rest;
      assert text[1..] == rest && s == s[..n] + s[n..];
    }
  }

  /** A byte string is a text exactly when it is the encoding of scalar values: no surrogates, nothing overlong, nothing
      cut short. */
  lemma {:induction false} ValidUtf8Iff(s: seq<byte>)
    ensures ValidUtf8(s) <==> exists text :: s == EncodeText(text)
  {
    if ValidUtf8(s) {
      var text := ValidIsEncoded(s);
    }
    if text :| s == EncodeText(text) {
      EncodedIsValid(text);
    }
  }

  /** ... and of one sequence of them only. */
  lemma {:induction false} EncodeTextInjective(a: seq<Scalar>, b: seq<Scalar>)
    requires EncodeText(a) == EncodeText(b)
    ensures a == b
  {
    if a != [] && b != [] {
      ScalarIsStep(a[0], EncodeText(a[1..]));
      ScalarIsStep(b[0], EncodeText(b[1..]));
      var x, y := EncodeScalar(a[0]), EncodeScalar(b[0]);
      assert x == EncodeText(a)[..|x|] && y == EncodeText(b)[..|y|];
      assert EncodeText(a[1..]) == EncodeText(a)[|x|..] && EncodeText(b[1..]) == EncodeText(b)[|y|..];
      ScalarInjective(a[0], b[0]);
      EncodeTextInjective(a[1..], b[1..]);
      assert a == [a[0]] + a[1..] && b == [b[0]] + b[1..];
    }
  }

  lemma ScalarInjective(a: Scalar, b: Scalar)
    requires EncodeScalar(a) == EncodeScalar(b)
    ensures a == b
  {
    TwoAndThree(a);
    TwoAndThree(b);
  }
}
