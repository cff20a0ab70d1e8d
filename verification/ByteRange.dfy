/** HTTP byte ranges on archive files (crates/lvqr-cli/src/archive.rs). */
module ByteRange {
  import opened Bytes
  import opened Decimal
  import opened Text

  datatype ParsedRange = Single(start: nat, end: nat) | Unsatisfiable | Ignored

  /** `HeaderValue::to_str` accepts visible ASCII and tabs. */
  predicate Visible(raw: string) {
    forall i :: 0 <= i < |raw| ==> ' ' <= raw[i] <= '~' || raw[i] == '\t'
  }

  /** `str::parse::<usize>` on a 64-bit machine. */
  function ParseUsize(s: string): Option<nat> { Parse(s, U64_MAX) }

  function ParseSingleRange(raw: string, total: nat): (r: ParsedRange)
    ensures r.Single? ==> r.start <= r.end < total
  {
    if !Visible(raw) then Ignored
    else match StripPrefix(Trim(raw), "bytes=")
      case None => Ignored
      case Some(spec) =>
        if ',' in spec then Ignored
        else match SplitOnce(spec, '-')
          case None => Ignored
          case Some((a, b)) => Resolve(Trim(a), Trim(b), total)
  }

  function Resolve(first: string, last: string, total: nat): (r: ParsedRange)
    ensures r.Single? ==> r.start <= r.end < total
  {
    if total == 0 then Unsatisfiable
    else if first != [] && last != [] then
      (match (ParseUsize(first), ParseUsize(last))
       case (Some(start), Some(end)) =>
         if start > end || start >= total then Unsatisfiable
         else Single(start, if end < total then end else total - 1)
       case _ => Ignored)
    else if first != [] then
      (match ParseUsize(first)
       case Some(start) => if start >= total then Unsatisfiable else Single(start, total - 1)
       case None => Ignored)
    else if last != [] then
      (match ParseUsize(last)
       case Some(n) => if n == 0 then Unsatisfiable else Single(if n < total then total - n else 0, total - 1)
       case None => Ignored)
    else Ignored
  }

  // ---------------------------------------------------------------- what a header asks for

  /** The three forms of section 2.1 of RFC 7233. */
  datatype Spec = FromTo(first: nat, last: nat) | From(first: nat) | Suffix(length: nat)

  ghost predicate Requested(spec: Spec, total: nat, i: nat) {
    i < total && match spec
                 case FromTo(first, last) => first <= i <= last
                 case From(first) => first <= i
                 case Suffix(length) => i >= total - length
  }

  /** The answer covers exactly the requested bytes of the file; there are none exactly when it is unsatisfiable. */
  ghost predicate Covers(r: ParsedRange, spec: Spec, total: nat) {
    match r
    case Single(start, end) => start <= end < total && forall i: nat :: Requested(spec, total, i) <==> start <= i <= end
    case Unsatisfiable => forall i: nat :: !Requested(spec, total, i)
    case Ignored => false
  }

  function PrintSpec(spec: Spec): string { "bytes=" + FirstText(spec) + "-" + LastText(spec) }

  function FirstText(spec: Spec): string {
    match spec case FromTo(a, _) => Print(a) case From(a) => Print(a) case Suffix(_) => []
  }

  function LastText(spec: Spec): string {
    match spec case FromTo(_, b) => Print(b) case From(_) => [] case Suffix(n) => Print(n)
  }

  // ---------------------------------------------------------------- exactly which headers ask for it

  /** A header's text: blanks wherever they are trimmed, around the two numerals. */
  datatype Written = Written(lead: string, open: string, first: string, before: string,
                             after: string, last: string, close: string)

  function WrittenText(w: Written): string {
    w.lead + "bytes=" + (w.open + w.first + w.before) + "-" + (w.after + w.last + w.close)
  }

  predicate Spaced(w: Written) {
    AllBlank(w.lead) && AllBlank(w.open) && AllBlank(w.before) && AllBlank(w.after) && AllBlank(w.close)
  }

  predicate Says(first: string, last: string, spec: Spec) {
    match spec
    case FromTo(a, b) => ParseUsize(first) == Some(a) && ParseUsize(last) == Some(b)
    case From(a) => ParseUsize(first) == Some(a) && last == []
    case Suffix(n) => first == [] && ParseUsize(last) == Some(n)
  }

  ghost predicate Denotes(raw: string, spec: Spec) {
    exists w :: Spaced(w) && Says(w.first, w.last, spec) && raw == WrittenText(w)
  }

  lemma NumeralText(s: string)
    requires ParseUsize(s).Some?
    ensures s != [] && Tight(s) && Visible(s) && ',' !in s && '-' !in s
  {
    assert forall i :: 0 <= i < |s| ==> IsDigit(s[i]) || s[i] == '+' by {
      var digits := if |s| > 1 && s[0] == '+' then s[1..] else s;
      assert forall i :: 0 <= i < |s| ==> i == 0 || s[i] == s[1..][i - 1];
    }
  }

  function Left(w: Written): string { w.open + w.first + w.before }

  function Right(w: Written): string { if w.last == [] then [] else w.after + w.last }

  lemma SaidNumerals(first: string, last: string, spec: Spec)
    requires Says(first, last, spec)
    ensures Tight(first) && ',' !in first && '-' !in first
    ensures Tight(last) && ',' !in last && (last == [] || !Blank(last[|last| - 1]))
  {
    if first != [] { NumeralText(first); }
    if last != [] { NumeralText(last); }
  }

  lemma TrimmedSides(w: Written)
    requires Spaced(w) && Tight(w.first) && Tight(w.last)
    ensures Trim(Left(w)) == w.first && Trim(Right(w)) == w.last
  {
    TrimRemoves([], [], []);
    hide Trim, Tight;
    TrimRemoves(w.open, w.first, w.before);
    TrimRemoves(w.after, w.last, []);
    assert w.after + w.last + [] == w.after + w.last;
  }

  lemma PlainSides(w: Written)
    requires Spaced(w) && ',' !in w.first && '-' !in w.first && ',' !in w.last
    ensures ',' !in Left(w) + "-" + Right(w) && '-' !in Left(w)
  {
    hide Trim;
    assert Blank(',') == Blank('-') == false;
  }

  lemma WrittenSides(w: Written, spec: Spec)
    requires Spaced(w) && Says(w.first, w.last, spec)
    ensures Trim(Left(w)) == w.first && Trim(Right(w)) == w.last
    ensures ',' !in Left(w) + "-" + Right(w) && '-' !in Left(w)
    ensures Right(w) == [] || !Blank(Right(w)[|Right(w)| - 1])
  {
    SaidNumerals(w.first, w.last, spec);
    hide Says, Tight, Trim, Spaced, Left;
    TrimmedSides(w);
    PlainSides(w);
  }

  function Close(w: Written): string { if w.last == [] then w.after + w.close else w.close }

  lemma Regrouped(w: Written)
    ensures WrittenText(w) == w.lead + ("bytes=" + (Left(w) + "-" + Right(w))) + Close(w)
  {
    var a, c := "bytes=", "-";
    assert w.after + w.last + w.close == Right(w) + Close(w);
    hide Left, Right, Close;
    assert w.lead + a + Left(w) + c + (Right(w) + Close(w)) == w.lead + (a + (Left(w) + c + Right(w))) + Close(w);
  }

  lemma CoreIsTight(a: string, b: string)
    requires b == [] || !Blank(b[|b| - 1])
    ensures Tight("bytes=" + (a + "-" + b))
  {
    var core := "bytes=" + (a + "-" + b);
    assert core[0] == 'b';
    assert core[|core| - 1] == if b == [] then '-' else b[|b| - 1];
  }

  lemma WrittenCore(w: Written, spec: Spec)
    requires Spaced(w) && Says(w.first, w.last, spec)
    ensures Trim(WrittenText(w)) == "bytes=" + (Left(w) + "-" + Right(w))
  {
    WrittenSides(w, spec);
    Regrouped(w);
    CoreIsTight(Left(w), Right(w));
    hide Trim, Says, Left, Right, WrittenText, Tight;
    TrimRemoves(w.lead, "bytes=" + (Left(w) + "-" + Right(w)), Close(w));
  }

  lemma VisibleJoin(a: string, b: string)
    requires Visible(a) && Visible(b)
    ensures Visible(a + b)
  {
  }

  lemma WrittenIsVisible(w: Written, spec: Spec)
    requires Spaced(w) && Says(w.first, w.last, spec)
    ensures Visible(WrittenText(w))
  {
    if w.first != [] { NumeralText(w.first); }
    if w.last != [] { NumeralText(w.last); }
    assert Visible(w.lead) && Visible(w.open) && Visible(w.before) && Visible(w.after) && Visible(w.close);
    assert Visible(w.first) && Visible(w.last) && Visible("bytes=") && Visible("-");
    hide Visible, Says, Spaced;
    VisibleJoin(w.lead, "bytes=");
    VisibleJoin(w.open, w.first);
    VisibleJoin(w.open + w.first, w.before);
    VisibleJoin(w.lead + "bytes=", w.open + w.first + w.before);
    VisibleJoin(w.lead + "bytes=" + (w.open + w.first + w.before), "-");
    VisibleJoin(w.after, w.last);
    VisibleJoin(w.after + w.last, w.close);
    VisibleJoin(w.lead + "bytes=" + (w.open + w.first + w.before) + "-", w.after + w.last + w.close);
  }

  lemma DenotedIsParsed(raw: string, spec: Spec, total: nat)
    requires Denotes(raw, spec)
    ensures exists first, last :: Says(first, last, spec) && ParseSingleRange(raw, total) == Resolve(first, last, total)
  {
    var w :| Spaced(w) && Says(w.first, w.last, spec) && raw == WrittenText(w);
    WrittenIsVisible(w, spec);
    WrittenSides(w, spec);
    WrittenCore(w, spec);
    SplitsAtFirst(Left(w), '-', Right(w));
    hide Resolve, Says, Trim, Visible, Left, Right, WrittenText;
    assert ParseSingleRange(raw, total) == Resolve(w.first, w.last, total);
  }

  lemma ResolveCovers(first: string, last: string, spec: Spec, total: nat)
    requires Says(first, last, spec)
    ensures Covers(Resolve(first, last, total), spec, total)
  {
    if first != [] && last != [] {
      var start, end := ParseUsize(first).value, ParseUsize(last).value;
      if start <= end && start < total {
        assert Requested(spec, total, start);
      }
    }
  }

  /** Every header that asks for bytes gets exactly those of them that the file has. */
  lemma {:induction false} RangeIsExact(raw: string, spec: Spec, total: nat)
    requires Denotes(raw, spec)
    ensures Covers(ParseSingleRange(raw, total), spec, total)
  {
    DenotedIsParsed(raw, spec, total);
    var first, last :| Says(first, last, spec) && ParseSingleRange(raw, total) == Resolve(first, last, total);
    ResolveCovers(first, last, spec, total);
  }

  lemma ResolvedIsSaid(first: string, last: string, total: nat)
    requires total > 0 && Resolve(first, last, total) != Ignored
    ensures exists spec :: Says(first, last, spec)
  {
    var spec :=
      if first == [] then Suffix(ParseUsize(last).value)
      else if last == [] then From(ParseUsize(first).value)
      else FromTo(ParseUsize(first).value, ParseUsize(last).value);
    assert Says(first, last, spec);
  }

  lemma ParsedHasSides(raw: string, total: nat) returns (a: string, b: string)
    requires ParseSingleRange(raw, total) != Ignored
    ensures Trim(raw) == "bytes=" + (a + "-" + b)
    ensures Visible(raw) && ',' !in a + "-" + b && '-' !in a
    ensures ParseSingleRange(raw, total) == Resolve(Trim(a), Trim(b), total)
  {
    hide Resolve, Trim, Visible;
    var spec := StripPrefix(Trim(raw), "bytes=").value;
    a, b := SplitOnce(spec, '-').value.0, SplitOnce(spec, '-').value.1;
  }

  lemma WrittenFrom(lead: string, open: string, first: string, before: string, after: string, last: string,
                    tail: string, close: string, a: string, b: string)
    requires a == open + first + before && b == after + last + tail
    ensures WrittenText(Written(lead, open, first, before, after, last, tail + close))
            == lead + ("bytes=" + (a + "-" + b)) + close
  {
    assert after + last + (tail + close) == b + close;
  }

  lemma ParsedIsWritten(raw: string, total: nat) returns (w: Written)
    requires total > 0 && ParseSingleRange(raw, total) != Ignored
    ensures Spaced(w) && raw == WrittenText(w) && Resolve(w.first, w.last, total) != Ignored
  {
    var a, b := ParsedHasSides(raw, total);
    hide Resolve, Trim, WrittenText, ParseSingleRange, Tight;
    var lead, close := TrimKeeps(raw);
    var open, before := TrimKeeps(a);
    var after, tail := TrimKeeps(b);
    w := Written(lead, open, Trim(a), before, after, Trim(b), tail + close);
    WrittenFrom(lead, open, Trim(a), before, after, Trim(b), tail, close, a, b);
  }

  /** On a file with any bytes at all, a header is ignored exactly when it denotes no single range. */
  lemma {:induction false} IgnoredIff(raw: string, total: nat)
    requires total > 0
    ensures ParseSingleRange(raw, total) == Ignored <==> !exists spec :: Denotes(raw, spec)
  {
    if spec :| Denotes(raw, spec) {
      RangeIsExact(raw, spec, total);
    }
    if ParseSingleRange(raw, total) != Ignored {
      var w := ParsedIsWritten(raw, total);
      ResolvedIsSaid(w.first, w.last, total);
      var spec :| Says(w.first, w.last, spec);
      assert Denotes(raw, spec);
    }
  }

  lemma SaysOne(first: string, last: string, spec: Spec, spec': Spec)
    requires Says(first, last, spec) && Says(first, last, spec')
    ensures spec == spec'
  {
  }

  /** A header denotes at most one range. */
  lemma {:induction false} DenotesOne(raw: string, spec: Spec)
    requires Denotes(raw, spec)
    ensures forall other :: Denotes(raw, other) ==> other == spec
  {
    var w :| Spaced(w) && Says(w.first, w.last, spec) && raw == WrittenText(w);
    forall other | Denotes(raw, other) ensures other == spec {
      var v :| Spaced(v) && Says(v.first, v.last, other) && raw == WrittenText(v);
      SameRange(raw, w, v, spec, other);
    }
  }

  lemma SameRange(raw: string, w: Written, w': Written, spec: Spec, spec': Spec)
    requires Spaced(w) && Says(w.first, w.last, spec) && raw == WrittenText(w)
    requires Spaced(w') && Says(w'.first, w'.last, spec') && raw == WrittenText(w')
    ensures spec == spec'
  {
    WrittenSides(w, spec);
    WrittenSides(w', spec');
    SameSides(raw, w, w', spec, spec');
    hide Trim, Says, Left, Right, WrittenText;
    SaysOne(w.first, w.last, spec, spec');
  }

  lemma SameTail(head: string, a: string, b: string)
    requires head + a == head + b
    ensures a == b
  {
    assert a == (head + a)[|head|..] && b == (head + b)[|head|..];
  }

  // ---------------------------------------------------------------- the grammar of RFC 7233

  /** A last position before the first: invalid by section 2.1 of RFC 7233. */
  predicate Backwards(spec: Spec) { spec.FromTo? && spec.last < spec.first }

  /** A numeral of the RFC: digits only. */
  predicate Numeral(s: string) { s != [] && AllDigits(s) }

  /** The header is a valid single range by the grammar of section 2.1: digits, and no blanks but around the value. */
  ghost predicate Conforms(raw: string, spec: Spec) {
    !Backwards(spec) && exists w :: ConformsAs(raw, spec, w)
  }

  ghost predicate ConformsAs(raw: string, spec: Spec, w: Written) {
    Spaced(w) && w.open == w.before == w.after == [] && raw == WrittenText(w) && Says(w.first, w.last, spec)
    && (w.first == [] || Numeral(w.first)) && (w.last == [] || Numeral(w.last))
  }

  /** What section 2.1 asks for: the requested bytes of a valid range, and no notice taken of any other header. That the
      section counts a suffix range as satisfiable even on an empty file, which has no byte to send, is left aside. */
  ghost predicate ByTheRfc(raw: string, total: nat) {
    if spec :| Conforms(raw, spec) then Covers(ParseSingleRange(raw, total), spec, total)
    else ParseSingleRange(raw, total) == Ignored
  }

  /** A backwards range is answered as unsatisfiable, on every file. */
  lemma {:induction false} BackwardsIsUnsatisfiable(raw: string, spec: Spec, total: nat)
    requires Denotes(raw, spec) && Backwards(spec)
    ensures ParseSingleRange(raw, total) == Unsatisfiable
  {
    RangeIsExact(raw, spec, total);
    hide ParseSingleRange, Denotes;
    var r := ParseSingleRange(raw, total);
    assert r.Single? ==> Requested(spec, total, r.start);
  }

  /** On a non-empty file a header is answered by the RFC exactly when it is not one of those the code reads more
      freely: signed numerals, blanks around a numeral, or a backwards range. On an empty file, where the answer for any
      header of the right shape is that it is unsatisfiable, exactly when such a header conforms. */
  lemma {:induction false} ByTheRfcIff(raw: string, total: nat)
    ensures total > 0 ==> (ByTheRfc(raw, total) <==> forall spec :: Denotes(raw, spec) ==> Conforms(raw, spec))
    ensures total == 0 ==> (ByTheRfc(raw, total) <==>
              (ParseSingleRange(raw, total) == Unsatisfiable ==> exists spec :: Conforms(raw, spec)))
  {
    if total > 0 {
      IgnoredIff(raw, total);
    } else {
      EmptyFileIff(raw);
    }
    hide ParseSingleRange, Covers, ConformsAs, Backwards;
    forall spec | Conforms(raw, spec) ensures Denotes(raw, spec) && Covers(ParseSingleRange(raw, total), spec, total) {
      ConformingDenotes(raw, spec);
      RangeIsExact(raw, spec, total);
    }
    forall spec | Denotes(raw, spec) ensures forall other :: Denotes(raw, other) ==> other == spec {
      DenotesOne(raw, spec);
    }
    hide Denotes;
  }

  lemma ConformingDenotes(raw: string, spec: Spec)
    requires Conforms(raw, spec)
    ensures Denotes(raw, spec)
  {
    hide Says, WrittenText;
    var w :| ConformsAs(raw, spec, w);
  }

  predicate Plain(s: string) { s == [] || Numeral(s) }

  /** The sides of the dash are determined by the header. */
  lemma SameSides(raw: string, w: Written, w': Written, spec: Spec, spec': Spec)
    requires Spaced(w) && Says(w.first, w.last, spec) && raw == WrittenText(w)
    requires Spaced(w') && Says(w'.first, w'.last, spec') && raw == WrittenText(w')
    ensures Left(w) == Left(w') && Right(w) == Right(w')
  {
    WrittenSides(w, spec);
    WrittenSides(w', spec');
    WrittenCore(w, spec);
    WrittenCore(w', spec');
    hide Trim, Says, Left, Right, WrittenText;
    SplitsAtFirst(Left(w), '-', Right(w));
    SplitsAtFirst(Left(w'), '-', Right(w'));
    SameTail("bytes=", Left(w) + "-" + Right(w), Left(w') + "-" + Right(w'));
  }

  /** A header conforms exactly when it is not backwards and each side of its dash is digits or nothing. */
  lemma ConformsIff(w: Written, spec: Spec)
    requires Spaced(w) && Says(w.first, w.last, spec)
    ensures Conforms(WrittenText(w), spec) <==> !Backwards(spec) && Plain(Left(w)) && Plain(Right(w))
  {
    var raw := WrittenText(w);
    if v :| ConformsAs(raw, spec, v) {
      SameSides(raw, w, v, spec, spec);
      assert Left(v) == v.first && Right(v) == v.last;
    }
    if Plain(Left(w)) && Plain(Right(w)) {
      PlainSidesConform(w, spec);
    }
  }

  lemma PlainSidesConform(w: Written, spec: Spec)
    requires Spaced(w) && Says(w.first, w.last, spec) && Plain(Left(w)) && Plain(Right(w))
    ensures exists v :: ConformsAs(WrittenText(w), spec, v)
  {
    WrittenSides(w, spec);
    PlainIsTight(Left(w));
    PlainIsTight(Right(w));
    Regrouped(w);
    var none: string := [];
    var v := Written(w.lead, none, Left(w), none, none, Right(w), Close(w));
    hide Trim, Says, Numeral;
    assert none + Left(w) + none == Left(w) && none + Right(w) + Close(w) == Right(w) + Close(w);
    SameGrouping(w.lead, "bytes=", Left(w), "-", Right(w), Close(w));
    assert ConformsAs(WrittenText(w), spec, v);
  }

  lemma SameGrouping(a: string, b: string, c: string, d: string, e: string, f: string)
    ensures a + (b + (c + d + e)) + f == a + b + c + d + (e + f)
  {
  }

  lemma PlainIsTight(s: string)
    requires Plain(s)
    ensures Trim(s) == s
  {
    var none: string := [];
    TrimRemoves(none, s, none);
    assert none + s + none == s;
  }

  /** Exactly which of the headers that denote a range are answered by the RFC. */
  lemma {:induction false} WrittenByTheRfcIff(w: Written, spec: Spec, total: nat)
    requires total > 0 && Spaced(w) && Says(w.first, w.last, spec)
    ensures ByTheRfc(WrittenText(w), total) <==> !Backwards(spec) && Plain(Left(w)) && Plain(Right(w))
  {
    var raw := WrittenText(w);
    ConformsIff(w, spec);
    ByTheRfcIff(raw, total);
    assert Denotes(raw, spec);
    DenotesOne(raw, spec);
    hide ByTheRfc, Denotes, Conforms, Plain, Backwards, Left, Right;
  }

  /** A signed numeral is served where the RFC has digits only. */
  lemma {:induction false} SignedNumeralsAreServed(a: u64, b: u64, total: nat)
    requires a <= b < total
    ensures var raw := "bytes=" + ("+" + Print(a)) + "-" + ("+" + Print(b));
            ParseSingleRange(raw, total) == Single(a, b) && !ByTheRfc(raw, total)
  {
    SignedNumeral(a);
    SignedNumeral(b);
    hide *;
    SignedTextsAreServed("+" + Print(a), "+" + Print(b), a, b, total);
  }

  lemma SignedTextsAreServed(first: string, last: string, a: u64, b: u64, total: nat)
    requires ParseUsize(first) == Some(a) && ParseUsize(last) == Some(b) && !Plain(first) && a <= b < total
    ensures var raw := "bytes=" + first + "-" + last;
            ParseSingleRange(raw, total) == Single(a, b) && !ByTheRfc(raw, total)
  {
    var w := Written([], [], first, [], [], last, []);
    PlainText(first, last);
    assert Left(w) == first;
    assert Spaced(w) && Says(first, last, FromTo(a, b));
    hide *;
    SignedIsServed(w, FromTo(a, b), total);
  }

  lemma SignedIsServed(w: Written, spec: Spec, total: nat)
    requires Spaced(w) && Says(w.first, w.last, spec) && !Plain(Left(w))
    requires spec.FromTo? && spec.first <= spec.last < total
    ensures ParseSingleRange(WrittenText(w), total) == Single(spec.first, spec.last)
    ensures !ByTheRfc(WrittenText(w), total)
  {
    assert Denotes(WrittenText(w), spec);
    hide Denotes, WrittenText, Left, Right, Says, Spaced, ParseSingleRange, ByTheRfc, Plain, Covers;
    RangeIsExact(WrittenText(w), spec, total);
    CoveredStretch(ParseSingleRange(WrittenText(w), total), spec.first, spec.last + 1, total);
    WrittenByTheRfcIff(w, spec, total);
  }

  lemma SignedNumeral(n: u64)
    ensures ParseUsize("+" + Print(n)) == Some(n) && !Plain("+" + Print(n))
  {
    ValueOfPrint(n);
    var s := "+" + Print(n);
    assert s[0] == '+' && s[1..] == Print(n);
  }

  /** On an empty file every header of that shape is unsatisfiable, whatever its numerals say. */
  lemma {:induction false} EmptyFileIff(raw: string)
    ensures ParseSingleRange(raw, 0) == Unsatisfiable <==>
              (forall i :: 0 <= i < |raw| ==> ' ' <= raw[i] <= '~' || raw[i] == '\t')
              && exists a, b {:trigger a + "-" + b} ::
                Trim(raw) == "bytes=" + (a + "-" + b) && ',' !in a + "-" + b && '-' !in a
    ensures ParseSingleRange(raw, 0) != Unsatisfiable ==> ParseSingleRange(raw, 0) == Ignored
  {
    if ParseSingleRange(raw, 0) == Unsatisfiable {
      var a, b := ParsedHasSides(raw, 0);
    }
    if a, b {:trigger a + "-" + b} :| Trim(raw) == "bytes=" + (a + "-" + b) && ',' !in a + "-" + b && '-' !in a {
      SplitsAtFirst(a, '-', b);
    }
  }

  ghost predicate Representable(spec: Spec) {
    match spec
    case FromTo(first, last) => first <= U64_MAX && last <= U64_MAX
    case From(first) => first <= U64_MAX
    case Suffix(length) => length <= U64_MAX
  }

  lemma PrintedSays(spec: Spec)
    requires Representable(spec)
    ensures Says(FirstText(spec), LastText(spec), spec)
  {
    match spec {
      case FromTo(a, b) => ParsePrint(a, U64_MAX); ParsePrint(b, U64_MAX);
      case From(a) => ParsePrint(a, U64_MAX);
      case Suffix(n) => ParsePrint(n, U64_MAX);
    }
  }

  lemma PlainText(first: string, last: string)
    ensures WrittenText(Written([], [], first, [], [], last, [])) == "bytes=" + first + "-" + last
  {
    var none: string := [];
    assert none + first + none == first && none + last + none == last;
    assert none + "bytes=" == "bytes=";
  }

  lemma PrintedDenotes(spec: Spec)
    requires Representable(spec)
    ensures Denotes(PrintSpec(spec), spec)
  {
    PrintedSays(spec);
    hide Says, FirstText, LastText, Representable, WrittenText;
    PlainText(FirstText(spec), LastText(spec));
  }

  /** Printing then parsing any of the three forms gives that range. */
  lemma {:induction false} PrintedRangeIsExact(spec: Spec, total: nat)
    requires Representable(spec)
    ensures Covers(ParseSingleRange(PrintSpec(spec), total), spec, total)
  {
    PrintedDenotes(spec);
    RangeIsExact(PrintSpec(spec), spec, total);
  }

  // ---------------------------------------------------------------- serving a file

  datatype Response =
    | Partial(body: seq<byte>, start: nat, end: nat, total: nat)   // 206
    | Whole(body: seq<byte>)                                       // 200
    | NotSatisfiable(total: nat)                                   // 416

  function Respond(file: seq<byte>, range: Option<string>): Response {
    match range
    case None => Whole(file)
    case Some(raw) =>
      match ParseSingleRange(raw, |file|)
      case Single(start, end) => Partial(file[start..end + 1], start, end, |file|)
      case Unsatisfiable => NotSatisfiable(|file|)
      case Ignored => Whole(file)
  }

  function Body(r: Response): seq<byte> {
    match r
    case Partial(body, _, _, _) => body
    case Whole(body) => body
    case NotSatisfiable(_) => []
  }

  /** The response is the bytes asked for that the file has, with their place in it, or the news that there are
      none. */
  ghost predicate Serves(r: Response, file: seq<byte>, spec: Spec) {
    match r
    case Partial(body, start, end, total) =>
      total == |file| && start <= end < total && |body| == end - start + 1
      && (forall i: nat :: Requested(spec, total, i) <==> start <= i <= end)
      && forall i :: start <= i <= end ==> body[i - start] == file[i]
    case NotSatisfiable(total) => total == |file| && forall i: nat :: !Requested(spec, total, i)
    case Whole(_) => false
  }

  lemma CoveredIsServed(file: seq<byte>, raw: string, spec: Spec)
    requires Covers(ParseSingleRange(raw, |file|), spec, |file|)
    ensures Serves(Respond(file, Some(raw)), file, spec)
  {
    hide ParseSingleRange, Requested;
  }

  /** What a client gets for a header that asks for bytes: those of them the file has, with their place in it, or the
      news that there are none. Without a header, or with one that asks for nothing of a non-empty file, it gets the
      whole file. */
  lemma {:induction false} ResponseIsExact(file: seq<byte>, raw: string)
    ensures Respond(file, None) == Whole(file)
    ensures file != [] && (!exists spec :: Denotes(raw, spec)) ==> Respond(file, Some(raw)) == Whole(file)
    ensures forall spec :: Denotes(raw, spec) ==> Serves(Respond(file, Some(raw)), file, spec)
  {
    if file != [] {
      IgnoredIff(raw, |file|);
    }
    hide ParseSingleRange, Denotes, Covers, Serves;
    forall spec | Denotes(raw, spec) ensures Serves(Respond(file, Some(raw)), file, spec) {
      RangeIsExact(raw, spec, |file|);
      CoveredIsServed(file, raw, spec);
    }
  }

  predicate Cuts(cuts: seq<nat>) { forall i, j :: 0 <= i < j < |cuts| ==> cuts[i] < cuts[j] }

  /** The header for bytes `a` up to but not including `b`. */
  function Stretch(a: nat, b: nat): string
    requires a < b
  {
    PrintSpec(FromTo(a, b - 1))
  }

  /** What a client gets that asks for each stretch between successive cuts and joins the answers. */
  function Fetched(file: seq<byte>, cuts: seq<nat>): seq<byte>
    requires Cuts(cuts)
  {
    if |cuts| < 2 then [] else Body(Respond(file, Some(Stretch(cuts[0], cuts[1])))) + Fetched(file, cuts[1..])
  }

  lemma CoveredStretch(r: ParsedRange, a: nat, b: nat, total: nat)
    requires a < b <= total && Covers(r, FromTo(a, b - 1), total)
    ensures r == Single(a, b - 1)
  {
    var spec := FromTo(a, b - 1);
    assert Requested(spec, total, a) && Requested(spec, total, b - 1);
    assert Requested(spec, total, r.start) && Requested(spec, total, r.end);
  }

  lemma StretchIsServed(file: seq<byte>, a: nat, b: nat)
    requires a < b <= |file| <= U64_MAX
    ensures Respond(file, Some(Stretch(a, b))) == Partial(file[a..b], a, b - 1, |file|)
  {
    hide PrintSpec, ParseSingleRange, Covers;
    PrintedRangeIsExact(FromTo(a, b - 1), |file|);
    CoveredStretch(ParseSingleRange(Stretch(a, b), |file|), a, b, |file|);
  }

  /** Successive ranges that cover the file reassemble it. */
  lemma {:induction false} RangesReassemble(file: seq<byte>, cuts: seq<nat>)
    requires |file| <= U64_MAX && Cuts(cuts)
    requires |cuts| > 0 && cuts[|cuts| - 1] == |file|
    ensures cuts[0] <= |file| && Fetched(file, cuts) == file[cuts[0]..]
  {
    hide Respond, Stretch;
    if |cuts| > 1 {
      RangesReassemble(file, cuts[1..]);
      StretchIsServed(file, cuts[0], cuts[1]);
      assert file[cuts[0]..] == file[cuts[0]..cuts[1]] + file[cuts[1]..];
    }
  }

  // ---------------------------------------------------------------- whose file it is

  function TrimEndSlashes(s: string): string {
    if s != [] && s[|s| - 1] == '/' then TrimEndSlashes(s[..|s| - 1]) else s
  }

  /** `N.mp4` for decimal digits N. */
  predicate TrackShaped(track: string) {
    |track| > 4 && track[|track| - 4..] == ".mp4" && AllDigits(track[..|track| - 4])
  }

  /** `broadcast_from_rel`: the broadcast whose permissions a file is checked against. */
  function BroadcastFromRel(rel: string): string {
    var trimmed := TrimEndSlashes(rel);
    match RSplitOnce(trimmed, '/')
    case None => trimmed
    case Some((head, _)) =>
      match RSplitOnce(head, '/')
      case None => trimmed
      case Some((broadcast, track)) => if TrackShaped(track) then broadcast else trimmed
  }

  predicate TrackNumber(digits: string) { digits != [] && forall i :: 0 <= i < |digits| ==> '0' <= digits[i] <= '9' }

  /** The path is a segment file of that broadcast, as the archive lays them out. */
  ghost predicate SegmentOf(path: string, broadcast: string) {
    exists digits, file ::
      TrackNumber(digits) && '/' !in file && path == broadcast + "/" + (digits + ".mp4") + "/" + file
  }

  lemma TrackShapedIff(track: string)
    ensures TrackShaped(track) <==> exists digits :: TrackNumber(digits) && track == digits + ".mp4"
  {
    if TrackShaped(track) {
      assert TrackNumber(track[..|track| - 4]) && track == track[..|track| - 4] + ".mp4";
    }
    if digits :| TrackNumber(digits) && track == digits + ".mp4" {
      assert track[..|track| - 4] == digits;
    }
  }

  lemma SegmentParts(broadcast: string, digits: string, file: string)
    requires TrackNumber(digits) && '/' !in file
    ensures var path := broadcast + "/" + (digits + ".mp4") + "/" + file;
            RSplitOnce(path, '/') == Some((broadcast + "/" + (digits + ".mp4"), file))
            && RSplitOnce(broadcast + "/" + (digits + ".mp4"), '/') == Some((broadcast, digits + ".mp4"))
  {
    assert '/' !in digits + ".mp4";
    SplitsAtLast(broadcast, '/', digits + ".mp4");
    SplitsAtLast(broadcast + "/" + (digits + ".mp4"), '/', file);
  }

  predicate Slashes(s: string) { forall i :: 0 <= i < |s| ==> s[i] == '/' }

  lemma {:induction false} SlashesAreTrimmed(path: string, slashes: string)
    requires Slashes(slashes) && (path != [] ==> path[|path| - 1] != '/')
    ensures TrimEndSlashes(path + slashes) == path
    decreases |slashes|
  {
    if slashes == [] {
      assert path + slashes == path;
    } else {
      assert (path + slashes)[..|path| + |slashes| - 1] == path + slashes[..|slashes| - 1];
      SlashesAreTrimmed(path, slashes[..|slashes| - 1]);
    }
  }

  /** Slashes at the end aside, a segment file is checked as its broadcast, and any other path as itself. */
  lemma {:induction false} BroadcastIsRecovered(path: string, slashes: string)
    requires Slashes(slashes) && (path != [] ==> path[|path| - 1] != '/')
    ensures forall b :: SegmentOf(path, b) ==> BroadcastFromRel(path + slashes) == b
    ensures (!exists b :: SegmentOf(path, b)) ==> BroadcastFromRel(path + slashes) == path
  {
    var rel := path + slashes;
    SlashesAreTrimmed(path, slashes);
    hide TrackShaped, TrackNumber, TrimEndSlashes;
    forall b | SegmentOf(path, b) ensures BroadcastFromRel(rel) == b {
      var digits, file :| TrackNumber(digits) && '/' !in file
                          && path == b + "/" + (digits + ".mp4") + "/" + file;
      SegmentParts(b, digits, file);
      TrackShapedIff(digits + ".mp4");
    }
    if BroadcastFromRel(rel) != path {
      var (head, file) := RSplitOnce(path, '/').value;
      var (b, track) := RSplitOnce(head, '/').value;
      TrackShapedIff(track);
      var digits :| TrackNumber(digits) && track == digits + ".mp4";
      assert path == b + "/" + (digits + ".mp4") + "/" + file;
      assert SegmentOf(path, b);
    }
  }
}
