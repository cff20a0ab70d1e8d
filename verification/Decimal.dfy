/** Decimal printing and Rust's unsigned integer parsing. */
module Decimal {
  import opened Bytes

  predicate IsDigit(c: char) { '0' <= c <= '9' }

  predicate AllDigits(s: string) { forall i :: 0 <= i < |s| ==> IsDigit(s[i]) }

  function Digit(n: nat): char
    requires n < 10
  {
    ['0', '1', '2', '3', '4', '5', '6', '7', '8', '9'][n]
  }

  function DigitValue(c: char): nat
    requires IsDigit(c)
  {
    c as int - '0' as int
  }

  function Print(n: nat): (s: string)
    ensures s != [] && AllDigits(s)
  {
    if n < 10 then [Digit(n)] else Print(n / 10) + [Digit(n % 10)]
  }

  function ValueOf(s: string): nat
    requires AllDigits(s)
  {
    if s == [] then 0 else ValueOf(s[..|s| - 1]) * 10 + DigitValue(s[|s| - 1])
  }

  /** `str::parse` for an unsigned integer type with greatest value `max`: an optional `+`, then at least one digit,
      and no overflow. */
  function Parse(s: string, max: nat): Option<nat> {
    var digits := if |s| > 1 && s[0] == '+' then s[1..] else s;
    if digits == [] || !AllDigits(digits) || ValueOf(digits) > max then None else Some(ValueOf(digits))
  }

  lemma {:induction false} ValueOfPrint(n: nat)
    ensures ValueOf(Print(n)) == n
  {
    if n >= 10 {
      ValueOfPrint(n / 10);
      assert Print(n)[..|Print(n)| - 1] == Print(n / 10);
    }
  }

  lemma {:induction false} ParsePrint(n: nat, max: nat)
    requires n <= max
    ensures Parse(Print(n), max) == Some(n)
    ensures n < 10 ==> Print(n) == [('0' as int + n) as char]
  {
    ValueOfPrint(n);
    assert IsDigit(Print(n)[0]);
  }

  /** `{n:0width$}`: leading zeros up to `width` characters. */
  function Pad(s: string, width: nat): (p: string)
    requires AllDigits(s)
    ensures AllDigits(p)
    decreases width - |s|
  {
    if |s| >= width then s else Pad(['0'] + s, width)
  }

  lemma {:induction false} LeadingZero(s: string)
    requires AllDigits(s)
    ensures ValueOf(['0'] + s) == ValueOf(s)
  {
    if s != [] {
      assert (['0'] + s)[..|s|] == ['0'] + s[..|s| - 1];
      LeadingZero(s[..|s| - 1]);
    }
  }

  lemma {:induction false} PadKeepsValue(s: string, width: nat)
    requires AllDigits(s)
    ensures ValueOf(Pad(s, width)) == ValueOf(s)
    decreases width - |s|
  {
    if |s| < width {
      LeadingZero(s);
      PadKeepsValue(['0'] + s, width);
    }
  }

  // ---------------------------------------------------------------- exactly which texts are numbers

  predicate AllZeros(s: string) { forall i :: 0 <= i < |s| ==> s[i] == '0' }

  lemma {:induction false} ZerosKeepValue(zeros: string, s: string)
    requires AllZeros(zeros) && AllDigits(s)
    ensures AllDigits(zeros + s) && ValueOf(zeros + s) == ValueOf(s)
  {
    if zeros == [] {
      assert zeros + s == s;
    } else {
      assert zeros + s == ['0'] + (zeros[1..] + s);
      ZerosKeepValue(zeros[1..], s);
      LeadingZero(zeros[1..] + s);
    }
  }

  lemma PrintSnoc(n: nat, last: char)
    requires n > 0 && IsDigit(last)
    ensures Print(n * 10 + DigitValue(last)) == Print(n) + [last]
  {
    var m := n * 10 + DigitValue(last);
    assert m / 10 == n && m % 10 == DigitValue(last);
  }

  lemma PrintOne(last: char)
    requires IsDigit(last)
    ensures Print(DigitValue(last)) == [last]
  {
  }

  lemma ValueOfSnoc(s: string, last: char)
    requires AllDigits(s) && IsDigit(last)
    ensures AllDigits(s + [last]) && ValueOf(s + [last]) == ValueOf(s) * 10 + DigitValue(last)
  {
    assert (s + [last])[..|s|] == s;
  }

  lemma OneDigitMore(zeros: string, n: nat, last: char) returns (zeros': string)
    requires AllZeros(zeros) && IsDigit(last)
    ensures AllZeros(zeros') && zeros + Print(n) + [last] == zeros' + Print(n * 10 + DigitValue(last))
  {
    if n == 0 {
      PrintOne('0');
      PrintOne(last);
      zeros' := zeros + ['0'];
    } else {
      PrintSnoc(n, last);
      hide Print, DigitValue;
      assert zeros + Print(n) + [last] == zeros + (Print(n) + [last]);
      zeros' := zeros;
    }
  }

  lemma FirstDigit(last: char)
    requires IsDigit(last)
    ensures AllDigits([last]) && [last] == Print(ValueOf([last]))
  {
    PrintOne(last);
    assert ValueOf([last]) == DigitValue(last);
  }

  /** Digits are zeros and then the number they say, as it is printed. */
  lemma {:induction false} DigitsArePrinted(s: string) returns (zeros: string)
    requires AllDigits(s) && s != []
    ensures AllZeros(zeros) && s == zeros + Print(ValueOf(s))
  {
    hide Print, ValueOf, DigitValue;
    var init, last := s[..|s| - 1], s[|s| - 1];
    assert s == init + [last];
    if init == [] {
      FirstDigit(last);
      zeros := [];
    } else {
      ValueOfSnoc(init, last);
      var front := DigitsArePrinted(init);
      zeros := OneDigitMore(front, ValueOf(init), last);
    }
  }

  lemma NumeralParses(s: string, max: nat, n: nat, zeros: string)
    requires AllZeros(zeros) && (s == zeros + Print(n) || s == "+" + (zeros + Print(n))) && n <= max
    ensures Parse(s, max) == Some(n)
  {
    ZerosKeepValue(zeros, Print(n));
    ValueOfPrint(n);
    var digits := zeros + Print(n);
    hide Print, ValueOf;
    assert IsDigit(digits[0]);
    assert s == digits || (s[0] == '+' && s[1..] == digits);
  }

  lemma ParsedIsNumeral(s: string, max: nat) returns (zeros: string)
    requires Parse(s, max).Some?
    ensures var n := Parse(s, max).value;
            n <= max && AllZeros(zeros) && (s == zeros + Print(n) || s == "+" + (zeros + Print(n)))
  {
    hide Print, ValueOf;
    var digits := if |s| > 1 && s[0] == '+' then s[1..] else s;
    zeros := DigitsArePrinted(digits);
    assert s == digits || s == "+" + digits;
  }

  /** Exactly what parses as a number: an optional plus sign, any zeros, and the number as it is printed, if it is not
      too great for its type. */
  lemma {:induction false} ParseIff(s: string, max: nat, n: nat)
    ensures Parse(s, max) == Some(n) <==>
              n <= max && exists zeros :: AllZeros(zeros) && (s == zeros + Print(n) || s == "+" + (zeros + Print(n)))
  {
    hide Print, ValueOf, Parse;
    if zeros :| AllZeros(zeros) && (s == zeros + Print(n) || s == "+" + (zeros + Print(n))) {
      if n <= max {
        NumeralParses(s, max, n, zeros);
      }
    }
    if Parse(s, max) == Some(n) {
      var zeros := ParsedIsNumeral(s, max);
    }
  }
}
