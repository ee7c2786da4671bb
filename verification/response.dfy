/** The plain-text body of the integer-generation endpoint: the body is split
    on '\n', empty lines are dropped, and every remaining line is parsed as a
    decimal int32 (`content.Split('\n')`, then
    `from line in lines where line.Length > 0 select int.Parse(line)`). */
module Response {
  import opened Outcomes
  import opened IntParse

  const NewLine: char := '\n'

  /** `s.Split(sep)`: the pieces between separators, empty pieces included,
      so a string with k separators has k + 1 pieces. */
  function Split(s: string, sep: char): (parts: seq<string>)
    ensures |parts| >= 1
  {
    if s == [] then [[]]
    else
      var init := Split(s[..|s| - 1], sep);
      var c := s[|s| - 1];
      if c == sep then init + [[]]
      else init[..|init| - 1] + [init[|init| - 1] + [c]]
  }

  /** `p` does not contain the separator. */
  predicate NoSeparator(p: string, sep: char) {
    forall j :: 0 <= j < |p| ==> p[j] != sep
  }

  /** No piece holds the separator. */
  lemma {:induction false} SplitPiecesLackSeparator(s: string, sep: char)
    ensures forall i :: 0 <= i < |Split(s, sep)| ==> NoSeparator(Split(s, sep)[i], sep)
  {
    if s != [] {
      var t := s[..|s| - 1];
      SplitPiecesLackSeparator(t, sep);
      var init := Split(t, sep);
      assert NoSeparator(init[|init| - 1], sep);
    }
  }

  /** The inverse of `Split`: the pieces with the separator between them. */
  function Join(parts: seq<string>, sep: char): string
    requires |parts| >= 1
  {
    if |parts| == 1 then parts[0]
    else Join(parts[..|parts| - 1], sep) + [sep] + parts[|parts| - 1]
  }

  /** Splitting loses nothing: joining the pieces gives the string back. */
  lemma {:induction false} JoinSplit(s: string, sep: char)
    ensures Join(Split(s, sep), sep) == s
  {
    if s != [] {
      var t := s[..|s| - 1];
      var c := s[|s| - 1];
      assert s == t + [c];
      JoinSplit(t, sep);
      var init := Split(t, sep);
      if c == sep {
        JoinAfterSeparator(init, sep);
      } else {
        JoinExtendLast(init, c, sep);
      }
    }
  }

  lemma JoinAfterSeparator(parts: seq<string>, sep: char)
    requires |parts| >= 1
    ensures Join(parts + [[]], sep) == Join(parts, sep) + [sep]
  {
    var ps := parts + [[]];
    assert ps[..|ps| - 1] == parts;
  }

  lemma JoinExtendLast(parts: seq<string>, c: char, sep: char)
    requires |parts| >= 1
    ensures Join(parts[..|parts| - 1] + [parts[|parts| - 1] + [c]], sep) == Join(parts, sep) + [c]
  {
    var ps := parts[..|parts| - 1] + [parts[|parts| - 1] + [c]];
    if |parts| > 1 {
      assert ps[..|ps| - 1] == parts[..|parts| - 1];
    }
  }

  /** `parts` with `p` appended to its last piece. */
  function ExtendLast(parts: seq<string>, p: string): (r: seq<string>)
    requires |parts| >= 1
    ensures |r| == |parts|
  {
    parts[..|parts| - 1] + [parts[|parts| - 1] + p]
  }

  lemma ExtendLastTwice(parts: seq<string>, q: string, c: char)
    requires |parts| >= 1
    ensures ExtendLast(ExtendLast(parts, q), [c]) == ExtendLast(parts, q + [c])
  {
    var pq := ExtendLast(parts, q);
    assert pq[..|pq| - 1] == parts[..|parts| - 1];
    assert pq[|pq| - 1] == parts[|parts| - 1] + q;
    assert pq[|pq| - 1] + [c] == parts[|parts| - 1] + (q + [c]);
  }

  /** One more character that is not the separator extends the last piece. */
  lemma SplitStep(t: string, c: char, sep: char)
    requires c != sep
    ensures Split(t + [c], sep) == ExtendLast(Split(t, sep), [c])
  {
    assert (t + [c])[..|t|] == t;
  }

  /** Characters other than the separator extend the last piece. */
  lemma {:induction false} SplitExtendLast(a: string, p: string, sep: char)
    requires NoSeparator(p, sep)
    ensures Split(a + p, sep) == ExtendLast(Split(a, sep), p)
  {
    var sa := Split(a, sep);
    if p == [] {
      assert a + p == a;
      assert sa[|sa| - 1] + p == sa[|sa| - 1];
      assert sa[..|sa| - 1] + [sa[|sa| - 1]] == sa;
    } else {
      var q := p[..|p| - 1];
      var c := p[|p| - 1];
      assert p == q + [c];
      assert c != sep;
      assert NoSeparator(q, sep) by {
        forall i | 0 <= i < |q| ensures q[i] != sep { assert q[i] == p[i]; }
      }
      SplitExtendLast(a, q, sep);
      assert a + p == (a + q) + [c];
      SplitStep(a + q, c, sep);
      ExtendLastTwice(sa, q, c);
    }
  }

  /** A separator at the end opens a new, empty piece. */
  lemma SplitAfterSeparator(a: string, sep: char)
    ensures Split(a + [sep], sep) == Split(a, sep) + [[]]
  {
    var s := a + [sep];
    assert s[..|s| - 1] == a;
  }

  /** Splitting undoes joining when no piece holds the separator. */
  lemma {:induction false} SplitJoin(parts: seq<string>, sep: char)
    requires |parts| >= 1
    requires forall i :: 0 <= i < |parts| ==> NoSeparator(parts[i], sep)
    ensures Split(Join(parts, sep), sep) == parts
  {
    var last := parts[|parts| - 1];
    assert NoSeparator(last, sep);
    if |parts| == 1 {
      SplitSingle(last, sep);
      assert parts == [last];
    } else {
      var init := parts[..|parts| - 1];
      forall i | 0 <= i < |init| ensures NoSeparator(init[i], sep) {
        assert init[i] == parts[i];
      }
      SplitJoin(init, sep);
      SplitJoinStep(init, last, sep);
      assert init + [last] == parts;
    }
  }

  lemma SplitSingle(p: string, sep: char)
    requires NoSeparator(p, sep)
    ensures Split(Join([p], sep), sep) == [p]
  {
    SplitExtendLast([], p, sep);
    assert [] + p == p;
  }

  lemma SplitJoinStep(init: seq<string>, last: string, sep: char)
    requires |init| >= 1 && NoSeparator(last, sep)
    requires Split(Join(init, sep), sep) == init
    ensures Split(Join(init + [last], sep), sep) == init + [last]
  {
    var j := Join(init, sep);
    var a := j + [sep];
    var parts := init + [last];
    assert parts[..|parts| - 1] == init;
    assert Join(parts, sep) == a + last;
    SplitAfterSeparator(j, sep);
    var sa := init + [[]];
    SplitExtendLast(a, last, sep);
    assert sa[..|sa| - 1] == init;
    assert sa[|sa| - 1] + last == last;
  }

  /** The `where line.Length > 0` filter. */
  function NonEmpty(lines: seq<string>): (r: seq<string>)
    ensures |r| <= |lines|
    ensures forall i :: 0 <= i < |r| ==> r[i] != []
  {
    if lines == [] then []
    else (if lines[0] != [] then [lines[0]] else []) + NonEmpty(lines[1..])
  }

  /** The filter keeps exactly the non-empty lines. */
  lemma {:induction false} NonEmptyKeeps(lines: seq<string>, l: string)
    ensures l in NonEmpty(lines) <==> l in lines && l != []
  {
    if lines != [] {
      NonEmptyKeeps(lines[1..], l);
      assert l in lines <==> l == lines[0] || l in lines[1..];
    }
  }

  /** The filter distributes over concatenation, so it keeps the order of the
      lines it retains. */
  lemma {:induction false} NonEmptyAppend(a: seq<string>, b: seq<string>)
    ensures NonEmpty(a + b) == NonEmpty(a) + NonEmpty(b)
  {
    if a == [] {
      assert a + b == b;
    } else {
      assert (a + b)[1..] == a[1..] + b;
      NonEmptyAppend(a[1..], b);
    }
  }

  /** Every line parses. */
  predicate AllParse(lines: seq<string>) {
    forall i :: 0 <= i < |lines| ==> ParseInt32(lines[i]).Some?
  }

  /** `vs` holds the value of each line, in order. */
  predicate ParsedAs(lines: seq<string>, vs: seq<int>) {
    |vs| == |lines| && forall i :: 0 <= i < |lines| ==> ParseInt32(lines[i]) == Some(vs[i])
  }

  /** `select int.Parse(line)` followed by `ToArray()`: all lines parsed, in
      order; the first line that does not parse aborts the whole query. */
  function ParseAll(lines: seq<string>): (r: Result<seq<int>>)
    ensures r.Ok? <==> AllParse(lines)
    ensures r.Ok? ==> ParsedAs(lines, r.value)
    ensures r.Err? ==> r.error.Unparsable? && r.error.text in lines && ParseInt32(r.error.text).None?
  {
    if lines == [] then Ok([])
    else
      var rest := lines[1..];
      match ParseInt32(lines[0])
      case None => Err(Unparsable(lines[0]))
      case Some(v) =>
        match ParseAll(rest)
        case Err(e) =>
          ParseAllStep(lines, v, e);
          Err(e)
        case Ok(vs) =>
          ParsedAsStep(lines, v, vs);
          Ok([v] + vs)
  }

  lemma ParseAllStep(lines: seq<string>, v: int, e: Error)
    requires lines != [] && ParseInt32(lines[0]) == Some(v)
    requires !AllParse(lines[1..]) && e.Unparsable? && e.text in lines[1..]
    ensures !AllParse(lines) && e.text in lines
  {
    var i :| 0 <= i < |lines[1..]| && ParseInt32(lines[1..][i]).None?;
    assert lines[1..][i] == lines[i + 1];
  }

  lemma ParsedAsStep(lines: seq<string>, v: int, vs: seq<int>)
    requires lines != [] && ParseInt32(lines[0]) == Some(v)
    requires ParsedAs(lines[1..], vs)
    ensures AllParse(lines) && ParsedAs(lines, [v] + vs)
  {
    var all := [v] + vs;
    forall i | 0 <= i < |lines|
      ensures ParseInt32(lines[i]) == Some(all[i])
    {
      if i > 0 {
        assert lines[i] == lines[1..][i - 1];
        assert all[i] == vs[i - 1];
      }
    }
  }

  /** Every non-empty line of the body is an int32 numeral. */
  predicate AllLinesParse(body: string) {
    forall l :: l in Split(body, NewLine) && l != [] ==> ParseInt32(l).Some?
  }

  /** The whole body handling of the integer endpoint: the body is accepted
      exactly when every non-empty line parses, and then yields the values of
      the non-empty lines, in order; otherwise the error names a non-empty
      line that does not parse, and no partial result is returned. */
  function ParseResponse(body: string): (r: Result<seq<int>>)
    ensures r.Ok? <==> AllLinesParse(body)
    ensures r.Ok? ==> ParsedAs(NonEmpty(Split(body, NewLine)), r.value)
    ensures r.Err? ==> r.error.Unparsable? && r.error.text != []
                       && r.error.text in Split(body, NewLine) && ParseInt32(r.error.text).None?
  {
    var lines := Split(body, NewLine);
    NonEmptyKeepsAll(lines);
    ParseAll(NonEmpty(lines))
  }

  lemma NonEmptyKeepsAll(lines: seq<string>)
    ensures AllParse(NonEmpty(lines)) <==> forall l :: l in lines && l != [] ==> ParseInt32(l).Some?
    ensures forall l :: l in NonEmpty(lines) ==> l in lines && l != []
  {
    var kept := NonEmpty(lines);
    forall l ensures l in lines && l != [] <==> l in kept {
      NonEmptyKeeps(lines, l);
    }
    assert AllParse(kept) <==> forall l :: l in kept ==> ParseInt32(l).Some?;
  }

  /** The body the service sends for `xs`: each value in decimal on a line of
      its own, every line ended by '\n'. */
  function Render(xs: seq<int>): string
  {
    Join(FormatAll(xs) + [[]], NewLine)
  }

  function FormatAll(xs: seq<int>): (ls: seq<string>)
    ensures |ls| == |xs|
  {
    seq(|xs|, i requires 0 <= i < |xs| => FormatInt(xs[i]))
  }

  /** A service response for int32 values parses back to exactly those
      values, in order. */
  lemma ParseRender(xs: seq<int>)
    requires forall i :: 0 <= i < |xs| ==> MinInt32 <= xs[i] <= MaxInt32
    ensures ParseResponse(Render(xs)) == Ok(xs)
  {
    var ls := FormatAll(xs);
    FormattedLines(xs);
    RenderLines(xs);
    NonEmptyAppend(ls, [[]]);
    AllNonEmptyKept(ls);
    assert NonEmpty([[]]) == [];
    assert ls + [] == ls;
    ParseFormattedLines(xs);
  }

  lemma FormattedLines(xs: seq<int>)
    ensures var ls := FormatAll(xs);
            forall i :: 0 <= i < |ls| ==> ls[i] != [] && NoSeparator(ls[i], NewLine)
  {
    var ls := FormatAll(xs);
    forall i | 0 <= i < |ls|
      ensures ls[i] != [] && NoSeparator(ls[i], NewLine)
    {
      FormatIntShape(xs[i]);
    }
  }

  lemma RenderLines(xs: seq<int>)
    ensures Split(Render(xs), NewLine) == FormatAll(xs) + [[]]
  {
    var parts := FormatAll(xs) + [[]];
    FormattedLines(xs);
    assert forall i :: 0 <= i < |parts| ==> NoSeparator(parts[i], NewLine);
    SplitJoin(parts, NewLine);
  }

  lemma ParseFormattedLines(xs: seq<int>)
    requires forall i :: 0 <= i < |xs| ==> MinInt32 <= xs[i] <= MaxInt32
    ensures ParseAll(FormatAll(xs)) == Ok(xs)
  {
    var ls := FormatAll(xs);
    forall i | 0 <= i < |ls|
      ensures ParseInt32(ls[i]) == Some(xs[i])
    {
      ParseFormat(xs[i]);
    }
    var r := ParseAll(ls);
    assert r.Ok?;
    assert r.value == xs;
  }

  lemma {:induction false} AllNonEmptyKept(ls: seq<string>)
    requires forall i :: 0 <= i < |ls| ==> ls[i] != []
    ensures NonEmpty(ls) == ls
  {
    if ls != [] {
      AllNonEmptyKept(ls[1..]);
      assert [ls[0]] + ls[1..] == ls;
    }
  }
}
