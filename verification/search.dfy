/** The line-by-line search: fold query and lines with the active case mode,
    scan each folded line for the folded query, and keep the lines that have
    at least one match, with each match reported as an offset plus the slice
    of the original line at that offset. */
module LineSearch {
  import opened Text
  import opened Matcher

  /** Which transform is applied to query and lines before matching. */
  datatype Mode = CaseSensitive | CaseInsensitive

  /** One match: its offset in the line and the original text there. */
  datatype Occurrence = Occurrence(idx: nat, value: string)

  /** A line that matched, with its matches in scan order. */
  datatype SingleLineResult = SingleLineResult(line: string, matches: seq<Occurrence>)

  /** The transform of a mode: identity, or ASCII lower-casing. */
  function Fold(mode: Mode, s: string): (r: string)
    ensures |r| == |s|
  {
    match mode
    case CaseSensitive => s
    case CaseInsensitive => ToLower(s)
  }

  /** Folding commutes with slicing, so folded offsets are original offsets. */
  lemma FoldSlice(mode: Mode, s: string, lo: nat, hi: nat)
    requires lo <= hi <= |s|
    ensures Fold(mode, s[lo..hi]) == Fold(mode, s)[lo..hi]
  {
    if mode == CaseInsensitive {
      ToLowerSlice(s, lo, hi);
    }
  }

  /** The offsets of a match list. */
  function Offsets(ms: seq<Occurrence>): (r: seq<nat>)
    ensures |r| == |ms|
    ensures forall k :: 0 <= k < |ms| ==> r[k] == ms[k].idx
  {
    seq(|ms|, k requires 0 <= k < |ms| => ms[k].idx)
  }

  /** The matches of one line for an already folded query `fq`: the greedy
      scan of the folded line, each offset paired with the original slice. */
  function LineMatches(mode: Mode, fq: string, line: string): (r: seq<Occurrence>)
    requires |fq| > 0
    ensures forall k :: 0 <= k < |r| ==> r[k].idx + |fq| <= |line|
  {
    var idxs := MatchIndices(Fold(mode, line), fq, 0);
    GreedyOrdered(Fold(mode, line), fq, 0, idxs);
    seq(|idxs|, k requires 0 <= k < |idxs| => Occurrence(idxs[k], line[idxs[k]..idxs[k] + |fq|]))
  }

  /** Each match lies inside the line, its value is the line's original
      text at its offset and has the folded query's length, and that text
      folds to the folded query. */
  ghost predicate FaithfulSpans(mode: Mode, fq: string, line: string, ms: seq<Occurrence>)
  {
    forall k :: 0 <= k < |ms| ==>
      && ms[k].idx + |fq| <= |line|
      && ms[k].value == line[ms[k].idx..ms[k].idx + |fq|]
      && Fold(mode, ms[k].value) == fq
  }

  /** An occurrence in the folded line is a span of the original line that
      folds to the query. */
  lemma SpanFolds(mode: Mode, fq: string, line: string, i: nat)
    requires IsMatchAt(Fold(mode, line), fq, i)
    ensures i + |fq| <= |line| && Fold(mode, line[i..i + |fq|]) == fq
  {
    FoldSlice(mode, line, i, i + |fq|);
  }

  /** The matches of a line are faithful spans of it. */
  lemma LineMatchesSlices(mode: Mode, fq: string, line: string)
    requires |fq| > 0
    ensures FaithfulSpans(mode, fq, line, LineMatches(mode, fq, line))
  {
    var fline := Fold(mode, line);
    var idxs := MatchIndices(fline, fq, 0);
    var r := LineMatches(mode, fq, line);
    assert |r| == |idxs|;
    forall k | 0 <= k < |r|
      ensures r[k].idx + |fq| <= |line|
      ensures r[k].value == line[r[k].idx..r[k].idx + |fq|]
      ensures Fold(mode, r[k].value) == fq
    {
      assert GreedyStep(fline, fq, 0, idxs, k);
      SpanFolds(mode, fq, line, idxs[k]);
      assert r[k] == Occurrence(idxs[k], line[idxs[k]..idxs[k] + |fq|]);
    }
  }

  /** The offsets of a line's matches are the leftmost-greedy scan of the
      folded line, so they ascend and never overlap. */
  lemma LineMatchesGreedy(mode: Mode, fq: string, line: string)
    requires |fq| > 0
    ensures var r := LineMatches(mode, fq, line);
      && LeftmostGreedy(Fold(mode, line), fq, 0, Offsets(r))
      && (forall i, j :: 0 <= i < j < |r| ==> r[i].idx + |fq| <= r[j].idx)
  {
    var fline := Fold(mode, line);
    var idxs := MatchIndices(fline, fq, 0);
    GreedyOrdered(fline, fq, 0, idxs);
    assert Offsets(LineMatches(mode, fq, line)) == idxs;
  }

  /** `a` is `b` with some elements left out, order kept. */
  ghost predicate SubsequenceOf<T>(a: seq<T>, b: seq<T>)
    decreases |b|
  {
    |a| == 0 || (|b| > 0 && ((a[0] == b[0] && SubsequenceOf(a[1..], b[1..])) || SubsequenceOf(a, b[1..])))
  }

  /** The lines of a result list. */
  function LinesOf(rs: seq<SingleLineResult>): (r: seq<string>)
    ensures |r| == |rs|
    ensures forall i :: 0 <= i < |rs| ==> r[i] == rs[i].line
  {
    seq(|rs|, i requires 0 <= i < |rs| => rs[i].line)
  }

  /** Every line paired with its matches, before any line is dropped. */
  function ScanLines(mode: Mode, fq: string, ls: seq<string>): (r: seq<SingleLineResult>)
    requires |fq| > 0
    ensures LinesOf(r) == ls
    ensures forall i :: 0 <= i < |ls| ==> r[i].matches == LineMatches(mode, fq, ls[i])
  {
    seq(|ls|, i requires 0 <= i < |ls| => SingleLineResult(ls[i], LineMatches(mode, fq, ls[i])))
  }

  /** Drop the lines whose match list is empty. */
  function DropUnmatched(rs: seq<SingleLineResult>): (r: seq<SingleLineResult>)
    ensures |r| <= |rs|
    ensures forall i :: 0 <= i < |r| ==> r[i] in rs && |r[i].matches| > 0
    ensures SubsequenceOf(r, rs)
    decreases |rs|
  {
    if |rs| == 0 then []
    else
      var rest := DropUnmatched(rs[1..]);
      if |rs[0].matches| == 0 then
        rest
      else
        var r := [rs[0]] + rest;
        assert r[1..] == rest;
        r
  }

  /** No line with a match is dropped. */
  lemma {:induction false} DropUnmatchedComplete(rs: seq<SingleLineResult>, j: nat)
    requires j < |rs| && |rs[j].matches| > 0
    ensures rs[j] in DropUnmatched(rs)
    decreases |rs|
  {
    if j > 0 {
      assert rs[1..][j - 1] == rs[j];
      DropUnmatchedComplete(rs[1..], j - 1);
    }
  }

  /** The positions of the entries that carry at least one match. */
  ghost function MatchedAt(rs: seq<SingleLineResult>): set<nat>
  {
    set j: nat | j < |rs| && |rs[j].matches| > 0
  }

  /** Every element of a set moved up by one. */
  ghost function Shift(s: set<nat>): set<nat>
  {
    set j | j in s :: j + 1
  }

  /** Moving every element of a set up by one keeps its size. */
  lemma {:induction false} ShiftCard(s: set<nat>)
    ensures |Shift(s)| == |s|
    decreases |s|
  {
    if s != {} {
      var x :| x in s;
      var t := s - {x};
      ShiftCard(t);
      var up := Shift(s);
      var upT := Shift(t);
      forall y | y in up
        ensures y in upT + {x + 1}
      {
        assert y - 1 in s;
        if y != x + 1 {
          assert y - 1 in t;
        }
      }
      forall y | y in upT + {x + 1}
        ensures y in up
      {
        assert y - 1 in s;
      }
      assert up == upT + {x + 1};
      assert x + 1 !in upT;
      assert s == t + {x};
    }
  }

  /** The matched positions of a list are its head's, if it matched, and
      those of its tail moved up by one. */
  lemma MatchedCons(rs: seq<SingleLineResult>)
    requires |rs| > 0
    ensures MatchedAt(rs) ==
      (if |rs[0].matches| > 0 then {0} else {}) + Shift(MatchedAt(rs[1..]))
  {
    var tail := MatchedAt(rs[1..]);
    var rhs := (if |rs[0].matches| > 0 then {0} else {}) + Shift(tail);
    forall j: nat | j in MatchedAt(rs)
      ensures j in rhs
    {
      if j > 0 {
        assert rs[1..][j - 1] == rs[j];
        assert j - 1 in tail;
      }
    }
    forall j: nat | j in rhs
      ensures j in MatchedAt(rs)
    {
      if j > 0 {
        assert j - 1 in tail;
        assert rs[1..][j - 1] == rs[j];
      }
    }
  }

  /** Exactly as many entries are kept as carry a match: with the
      subsequence clause, this fixes the filtered list, repeated entries
      included. */
  lemma {:induction false} DropUnmatchedCount(rs: seq<SingleLineResult>)
    ensures |DropUnmatched(rs)| == |MatchedAt(rs)|
    decreases |rs|
  {
    if |rs| == 0 {
      assert MatchedAt(rs) == {};
    } else {
      DropUnmatchedCount(rs[1..]);
      MatchedCons(rs);
      ShiftCard(MatchedAt(rs[1..]));
      var sh := Shift(MatchedAt(rs[1..]));
      assert 0 !in sh;
      if |rs[0].matches| > 0 {
        assert {0} + sh == sh + {0};
      } else {
        assert {} + sh == sh;
      }
    }
  }

  /** `search(query, contents, transform)` with the transform given by `mode`:
      the folded query is scanned for in every folded line, and the lines that
      have at least one match are reported in document order. */
  function Search(query: string, contents: string, mode: Mode): (r: seq<SingleLineResult>)
    requires |query| > 0
    ensures |r| <= |Lines(contents)|
  {
    DropUnmatched(ScanLines(mode, Fold(mode, query), Lines(contents)))
  }

  /** Every reported line is a line of the document that matched, and it
      carries exactly that line's matches. */
  lemma SearchSound(query: string, contents: string, mode: Mode)
    requires |query| > 0
    ensures var r := Search(query, contents, mode);
      forall i :: 0 <= i < |r| ==>
        && r[i].line in Lines(contents)
        && |r[i].matches| > 0
        && r[i].matches == LineMatches(mode, Fold(mode, query), r[i].line)
  {
    var ls := Lines(contents);
    var scanned := ScanLines(mode, Fold(mode, query), ls);
    var r := Search(query, contents, mode);
    forall i | 0 <= i < |r|
      ensures r[i].line in ls
      ensures r[i].matches == LineMatches(mode, Fold(mode, query), r[i].line)
    {
      var j :| 0 <= j < |scanned| && scanned[j] == r[i];
      assert LinesOf(scanned)[j] == ls[j];
    }
  }

  /** No matching line is dropped. */
  lemma SearchComplete(query: string, contents: string, mode: Mode, j: nat)
    requires |query| > 0
    requires j < |Lines(contents)|
    requires |LineMatches(mode, Fold(mode, query), Lines(contents)[j])| > 0
    ensures exists i ::
      (0 <= i < |Search(query, contents, mode)| && Search(query, contents, mode)[i].line == Lines(contents)[j])
  {
    var ls := Lines(contents);
    var scanned := ScanLines(mode, Fold(mode, query), ls);
    assert LinesOf(scanned)[j] == ls[j];
    DropUnmatchedComplete(scanned, j);
    var r := Search(query, contents, mode);
    var i :| 0 <= i < |r| && r[i] == scanned[j];
    assert r[i].line == ls[j];
  }

  /** One result per matching line of the document: a line that occurs
      twice and matches is reported twice. */
  lemma SearchCount(query: string, contents: string, mode: Mode)
    requires |query| > 0
    ensures |Search(query, contents, mode)| ==
      |set j: nat | j < |Lines(contents)| && |LineMatches(mode, Fold(mode, query), Lines(contents)[j])| > 0|
  {
    var ls := Lines(contents);
    var fq := Fold(mode, query);
    var scanned := ScanLines(mode, fq, ls);
    DropUnmatchedCount(scanned);
    assert MatchedAt(scanned) == set j: nat | j < |ls| && |LineMatches(mode, fq, ls[j])| > 0;
  }

  /** A matching line that occurs twice in a row is reported twice. */
  lemma SearchRepeatedLine(query: string, l: string, mode: Mode)
    requires |query| > 0 && NoNewline(l) && |l| > 0
    requires |LineMatches(mode, Fold(mode, query), l)| > 0
    ensures var res := SingleLineResult(l, LineMatches(mode, Fold(mode, query), l));
      Search(query, Join([l, l]), mode) == [res, res]
  {
    var fq := Fold(mode, query);
    var res := SingleLineResult(l, LineMatches(mode, fq, l));
    LinesJoin([l, l]);
    var scanned := ScanLines(mode, fq, [l, l]);
    assert scanned == [res, res];
    assert scanned[1..] == [res];
    assert [res][1..] == [];
    assert DropUnmatched([res]) == [res] + DropUnmatched([]);
    assert DropUnmatched(scanned) == [res] + DropUnmatched([res]);
    assert Search(query, Join([l, l]), mode) == DropUnmatched(scanned);
  }

  /** Taking the lines of two results keeps the subsequence relation. */
  lemma {:induction false} SubsequenceLines(a: seq<SingleLineResult>, b: seq<SingleLineResult>)
    requires SubsequenceOf(a, b)
    ensures SubsequenceOf(LinesOf(a), LinesOf(b))
    decreases |b|
  {
    if |a| > 0 {
      assert LinesOf(b)[1..] == LinesOf(b[1..]);
      if a[0] == b[0] && SubsequenceOf(a[1..], b[1..]) {
        SubsequenceLines(a[1..], b[1..]);
        assert LinesOf(a)[1..] == LinesOf(a[1..]);
      } else {
        SubsequenceLines(a, b[1..]);
      }
    }
  }

  /** Reported lines keep their document order. */
  lemma SearchInOrder(query: string, contents: string, mode: Mode)
    requires |query| > 0
    ensures SubsequenceOf(LinesOf(Search(query, contents, mode)), Lines(contents))
  {
    var scanned := ScanLines(mode, Fold(mode, query), Lines(contents));
    SubsequenceLines(Search(query, contents, mode), scanned);
  }

  /** The result is empty exactly when no line of the document, folded,
      contains the folded query; in particular an empty document gives an
      empty result. */
  lemma SearchEmpty(query: string, contents: string, mode: Mode)
    requires |query| > 0
    ensures Search(query, contents, mode) == [] <==>
      forall j :: 0 <= j < |Lines(contents)| ==> NoMatchFrom(Fold(mode, Lines(contents)[j]), Fold(mode, query), 0)
    ensures |contents| == 0 ==> Search(query, contents, mode) == []
  {
    var ls := Lines(contents);
    var fq := Fold(mode, query);
    var r := Search(query, contents, mode);
    if r == [] {
      forall j | 0 <= j < |ls|
        ensures NoMatchFrom(Fold(mode, ls[j]), fq, 0)
      {
        if |LineMatches(mode, fq, ls[j])| > 0 {
          SearchComplete(query, contents, mode, j);
        }
        LineMatchesGreedy(mode, fq, ls[j]);
        MatchIndicesEmpty(Fold(mode, ls[j]), fq);
        assert Offsets(LineMatches(mode, fq, ls[j])) == [];
        GreedyUnique(Fold(mode, ls[j]), fq, 0, [], MatchIndices(Fold(mode, ls[j]), fq, 0));
      }
    } else {
      SearchSound(query, contents, mode);
      var l := r[0].line;
      var j :| 0 <= j < |ls| && ls[j] == l;
      LineMatchesGreedy(mode, fq, l);
      var offs := Offsets(LineMatches(mode, fq, l));
      GreedyTail(Fold(mode, l), fq, 0, offs);
      assert IsMatchAt(Fold(mode, ls[j]), fq, offs[0]);
    }
  }

  /** Every match of every reported line: the span lies inside the line, the
      value is the original text of the span and has the query's length, and
      folded it equals the folded query. */
  lemma SearchSpans(query: string, contents: string, mode: Mode)
    requires |query| > 0
    ensures var r := Search(query, contents, mode);
      forall i :: 0 <= i < |r| ==> FaithfulSpans(mode, Fold(mode, query), r[i].line, r[i].matches)
  {
    var r := Search(query, contents, mode);
    var fq := Fold(mode, query);
    SearchSound(query, contents, mode);
    forall i | 0 <= i < |r|
      ensures FaithfulSpans(mode, fq, r[i].line, r[i].matches)
    {
      LineMatchesSlices(mode, fq, r[i].line);
    }
  }

  /** Within a reported line, matches come in strictly ascending offset order
      and never overlap: each starts at or after the end of every earlier one;
      and they are exactly the leftmost-greedy scan of the folded line. */
  lemma SearchOrderedMatches(query: string, contents: string, mode: Mode)
    requires |query| > 0
    ensures var r := Search(query, contents, mode);
      forall i :: 0 <= i < |r| ==>
        && LeftmostGreedy(Fold(mode, r[i].line), Fold(mode, query), 0, Offsets(r[i].matches))
        && (forall k1, k2 :: 0 <= k1 < k2 < |r[i].matches| ==>
              r[i].matches[k1].idx + |query| <= r[i].matches[k2].idx)
  {
    var r := Search(query, contents, mode);
    SearchSound(query, contents, mode);
    forall i | 0 <= i < |r| {
      LineMatchesGreedy(mode, Fold(mode, query), r[i].line);
    }
  }

  /** `search_case_sensitive`: every reported value is the query itself,
      found verbatim at its offset in the line. */
  function SearchCaseSensitive(query: string, contents: string): (r: seq<SingleLineResult>)
    requires |query| > 0
    ensures forall i, k :: 0 <= i < |r| && 0 <= k < |r[i].matches| ==>
      r[i].matches[k].value == query && IsMatchAt(r[i].line, query, r[i].matches[k].idx)
  {
    var r := Search(query, contents, CaseSensitive);
    SearchSpans(query, contents, CaseSensitive);
    r
  }

  /** A case-insensitive match: the line's original text at the match's
      offset, as long as the query, equal to it once both are lower-cased. */
  ghost predicate InsensitiveSpan(query: string, line: string, m: Occurrence)
  {
    && m.idx + |query| <= |line|
    && m.value == line[m.idx..m.idx + |query|]
    && ToLower(m.value) == ToLower(query)
  }

  /** Faithful case-insensitive spans, spelled out match by match. */
  lemma InsensitiveSpans(query: string, rs: seq<SingleLineResult>)
    requires forall i :: 0 <= i < |rs| ==> FaithfulSpans(CaseInsensitive, ToLower(query), rs[i].line, rs[i].matches)
    ensures forall i, k :: 0 <= i < |rs| && 0 <= k < |rs[i].matches| ==>
      InsensitiveSpan(query, rs[i].line, rs[i].matches[k])
  {
    forall i, k | 0 <= i < |rs| && 0 <= k < |rs[i].matches|
      ensures InsensitiveSpan(query, rs[i].line, rs[i].matches[k])
    {
      var ms := rs[i].matches;
      assert FaithfulSpans(CaseInsensitive, ToLower(query), rs[i].line, ms);
      assert Fold(CaseInsensitive, ms[k].value) == ToLower(query);
    }
  }

  /** `search_case_insensitive`: every reported value is the line's original
      text at its offset, and it equals the query once both are lower-cased. */
  function SearchCaseInsensitive(query: string, contents: string): (r: seq<SingleLineResult>)
    requires |query| > 0
    ensures forall i, k :: 0 <= i < |r| && 0 <= k < |r[i].matches| ==>
      InsensitiveSpan(query, r[i].line, r[i].matches[k])
  {
    var r := Search(query, contents, CaseInsensitive);
    SearchSpans(query, contents, CaseInsensitive);
    InsensitiveSpans(query, r);
    r
  }
}
