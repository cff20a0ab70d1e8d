/** The string operations the text parsers use. */
module Text {
  import opened Bytes

  // ---------------------------------------------------------------- trimming

  /** The white space a header value can hold. */
  predicate Blank(c: char) { c == ' ' || c == '\t' }

  predicate AllBlank(s: string) { forall i :: 0 <= i < |s| ==> Blank(s[i]) }

  function TrimStart(s: string): string {
    if s != [] && Blank(s[0]) then TrimStart(s[1..]) else s
  }

  function TrimEnd(s: string): string {
    if s != [] && Blank(s[|s| - 1]) then TrimEnd(s[..|s| - 1]) else s
  }

  function Trim(s: string): string { TrimEnd(TrimStart(s)) }

  predicate Tight(s: string) { s == [] || (!Blank(s[0]) && !Blank(s[|s| - 1])) }

  lemma {:induction false} TrimStartDrops(left: string, rest: string)
    requires AllBlank(left)
    ensures TrimStart(left + rest) == TrimStart(rest)
  {
    if left == [] {
      assert left + rest == rest;
    } else {
      assert (left + rest)[1..] == left[1..] + rest;
      TrimStartDrops(left[1..], rest);
    }
  }

  lemma {:induction false} TrimEndDrops(rest: string, right: string)
    requires AllBlank(right)
    ensures TrimEnd(rest + right) == TrimEnd(rest)
  {
    if right == [] {
      assert rest + right == rest;
    } else {
      assert (rest + right)[..|rest + right| - 1] == rest + right[..|right| - 1];
      TrimEndDrops(rest, right[..|right| - 1]);
    }
  }

  lemma {:induction false} TrimStartSplits(s: string) returns (left: string)
    ensures AllBlank(left) && s == left + TrimStart(s)
    ensures TrimStart(s) == [] || !Blank(TrimStart(s)[0])
  {
    if s != [] && Blank(s[0]) {
      var rest := TrimStartSplits(s[1..]);
      left := [s[0]] + rest;
      hide TrimStart;
      assert s == [s[0]] + s[1..] && left + TrimStart(s) == [s[0]] + (rest + TrimStart(s));
    } else {
      left := [];
    }
  }

  lemma {:induction false} TrimEndSplits(s: string) returns (right: string)
    ensures AllBlank(right) && s == TrimEnd(s) + right
    ensures TrimEnd(s) == [] || !Blank(TrimEnd(s)[|TrimEnd(s)| - 1])
    ensures TrimEnd(s) != [] ==> TrimEnd(s)[0] == s[0]
  {
    if s != [] && Blank(s[|s| - 1]) {
      var rest := TrimEndSplits(s[..|s| - 1]);
      right := rest + [s[|s| - 1]];
      hide TrimEnd;
      assert s == s[..|s| - 1] + [s[|s| - 1]] && TrimEnd(s) + right == (TrimEnd(s) + rest) + [s[|s| - 1]];
    } else {
      right := [];
    }
  }

  /** Trimming removes blanks at both ends, and all of them. */
  lemma {:induction false} TrimRemoves(left: string, core: string, right: string)
    requires forall i :: 0 <= i < |left| ==> left[i] == ' ' || left[i] == '\t'
    requires forall i :: 0 <= i < |right| ==> right[i] == ' ' || right[i] == '\t'
    requires core != [] ==> core[0] != ' ' && core[0] != '\t' && core[|core| - 1] != ' ' && core[|core| - 1] != '\t'
    ensures Trim(left + core + right) == core
  {
    assert AllBlank(left) && AllBlank(right) && Tight(core);
    assert left + core + right == left + (core + right);
    TrimStartDrops(left, core + right);
    if core == [] {
      assert core + right == right + [];
      TrimStartDrops(right, []);
    } else {
      TrimEndDrops(core, right);
    }
  }

  lemma TrimKeeps(s: string) returns (left: string, right: string)
    ensures AllBlank(left) && AllBlank(right) && Tight(Trim(s))
    ensures s == left + Trim(s) + right
  {
    left := TrimStartSplits(s);
    right := TrimEndSplits(TrimStart(s));
  }

  // ---------------------------------------------------------------- splitting

  /** `str::split_once`: at the first occurrence. */
  function SplitOnce(s: string, c: char): (r: Option<(string, string)>)
    ensures r.Some? ==> s == r.value.0 + [c] + r.value.1 && c !in r.value.0
    ensures r.None? ==> c !in s
  {
    if s == [] then None
    else if s[0] == c then Some(([], s[1..]))
    else match SplitOnce(s[1..], c)
      case None => None
      case Some((a, b)) => Some(([s[0]] + a, b))
  }

  lemma {:induction false} SplitsAtFirst(a: string, c: char, b: string)
    requires c !in a
    ensures SplitOnce(a + [c] + b, c) == Some((a, b))
  {
    var s := a + [c] + b;
    if a == [] {
      assert s[1..] == b;
    } else {
      assert s[1..] == a[1..] + [c] + b && a == [a[0]] + a[1..];
      SplitsAtFirst(a[1..], c, b);
    }
  }

  /** `str::split`: every piece between occurrences. */
  function Split(s: string, c: char): (r: seq<string>)
    ensures r != []
    decreases |s|
  {
    match SplitOnce(s, c)
    case None => [s]
    case Some((a, b)) => [a] + Split(b, c)
  }

  /** `str::strip_prefix`. */
  function StripPrefix(s: string, prefix: string): (r: Option<string>)
    ensures forall rest :: r == Some(rest) <==> s == prefix + rest
  {
    if prefix <= s then
      assert s == prefix + s[|prefix|..];
      Some(s[|prefix|..])
    else None
  }

  function Join(pieces: seq<string>, c: char): string
    requires pieces != []
  {
    if |pieces| == 1 then pieces[0] else pieces[0] + [c] + Join(pieces[1..], c)
  }

  lemma NothingToSplit(s: string, c: char)
    requires c !in s
    ensures SplitOnce(s, c) == None
  {
  }

  /** Splitting undoes joining. */
  lemma {:induction false} SplitJoin(pieces: seq<string>, c: char)
    requires pieces != [] && forall i :: 0 <= i < |pieces| ==> c !in pieces[i]
    ensures Split(Join(pieces, c), c) == pieces
    decreases |pieces|
  {
    if |pieces| == 1 {
      NothingToSplit(pieces[0], c);
    } else {
      SplitsAtFirst(pieces[0], c, Join(pieces[1..], c));
      SplitJoin(pieces[1..], c);
    }
  }

  /** `str::rsplit_once`: at the last occurrence. */
  function RSplitOnce(s: string, c: char): (r: Option<(string, string)>)
    ensures r.Some? ==> s == r.value.0 + [c] + r.value.1 && c !in r.value.1
    ensures r.None? ==> c !in s
  {
    if s == [] then None
    else
      var last := s[|s| - 1];
      assert s == s[..|s| - 1] + [last];
      if last == c then Some((s[..|s| - 1], []))
      else match RSplitOnce(s[..|s| - 1], c)
        case None => None
        case Some((a, b)) => Some((a, b + [last]))
  }

  lemma {:induction false} SplitsAtLast(a: string, c: char, b: string)
    requires c !in b
    ensures RSplitOnce(a + [c] + b, c) == Some((a, b))
  {
    var s := a + [c] + b;
    if b == [] {
      assert s[..|s| - 1] == a;
    } else {
      var init := b[..|b| - 1];
      assert b == init + [b[|b| - 1]] && s[..|s| - 1] == a + [c] + init;
      SplitsAtLast(a, c, init);
    }
  }
}
