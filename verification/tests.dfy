/**
 * minigrep's unit tests, restated as lemmas about the model:
 * each test's query and document, and the exact result its assertion expects.
 * The helpers at the top evaluate the scan on concrete text a few
 * characters at a time.
 */
module SourceTests {
  import opened Options
  import opened Text
  import opened Matcher
  import opened LineSearch

  /** The scan passes over positions holding no copy of the query's first character. */
  lemma {:induction false} FindSkip(t: string, q: string, lo: nat, hi: nat)
    requires |q| > 0 && lo <= hi <= |t|
    requires q[0] !in t[lo..hi]
    ensures FindFrom(t, q, lo) == FindFrom(t, q, hi)
    decreases hi - lo
  {
    if lo < hi && lo + |q| <= |t| {
      assert t[lo] == t[lo..hi][0];
      AgreesIsMatch(t, q, lo);
      assert t[lo + 1..hi] == t[lo..hi][1..];
      FindSkip(t, q, lo + 1, hi);
    }
  }

  /** The scan stops at an occurrence. */
  lemma FindHit(t: string, q: string, i: nat)
    requires i + |q| <= |t| && t[i..i + |q|] == q
    ensures FindFrom(t, q, i) == Some(i)
  {
    AgreesIsMatch(t, q, i);
  }

  /** The scan steps past a position where the query differs at offset m. */
  lemma FindMiss(t: string, q: string, i: nat, m: nat)
    requires i + |q| <= |t| && m < |q| && t[i + m] != q[m]
    ensures FindFrom(t, q, i) == FindFrom(t, q, i + 1)
  {
    assert t[i..i + |q|][m] != q[m];
    AgreesIsMatch(t, q, i);
  }

  /** The scan finds nothing once the query's first character no longer occurs. */
  lemma FindRest(t: string, q: string, lo: nat)
    requires |q| > 0 && lo <= |t| && q[0] !in t[lo..]
    ensures FindFrom(t, q, lo) == None
  {
    FindSkip(t, q, lo, |t|);
  }

  /** The greedy scan of a line, from the outcomes of its successive searches. */
  lemma ScanEnd(t: string, q: string, from: nat)
    requires |q| > 0 && FindFrom(t, q, from) == None
    ensures MatchIndices(t, q, from) == []
  {
  }

  lemma ScanStep(t: string, q: string, from: nat, i: nat)
    requires |q| > 0 && FindFrom(t, q, from) == Some(i)
    ensures MatchIndices(t, q, from) == [i] + MatchIndices(t, q, i + |q|)
  {
  }

  lemma ScanOne(t: string, q: string, i: nat)
    requires |q| > 0 && FindFrom(t, q, 0) == Some(i) && FindFrom(t, q, i + |q|) == None
    ensures MatchIndices(t, q, 0) == [i]
  {
    ScanStep(t, q, 0, i);
    ScanEnd(t, q, i + |q|);
  }

  /** The last match of a scan resumed at `from`. */
  lemma ScanLast(t: string, q: string, from: nat, j: nat)
    requires |q| > 0 && FindFrom(t, q, from) == Some(j) && FindFrom(t, q, j + |q|) == None
    ensures MatchIndices(t, q, from) == [j]
  {
    ScanStep(t, q, from, j);
    ScanEnd(t, q, j + |q|);
  }

  lemma ScanTwo(t: string, q: string, i: nat, j: nat)
    requires |q| > 0 && FindFrom(t, q, 0) == Some(i) && FindFrom(t, q, i + |q|) == Some(j)
    requires FindFrom(t, q, j + |q|) == None
    ensures MatchIndices(t, q, 0) == [i, j]
  {
    ScanStep(t, q, 0, i);
    ScanLast(t, q, i + |q|, j);
  }

  /** Scanning and filtering a document one line at a time. */
  lemma DropScanCons(mode: Mode, fq: string, l: string, ls: seq<string>)
    requires |fq| > 0
    ensures DropUnmatched(ScanLines(mode, fq, [l] + ls))
      == (if |LineMatches(mode, fq, l)| > 0 then [SingleLineResult(l, LineMatches(mode, fq, l))] else [])
         + DropUnmatched(ScanLines(mode, fq, ls))
  {
    var s := ScanLines(mode, fq, [l] + ls);
    assert s[1..] == ScanLines(mode, fq, ls);
  }

  /** A line's matches, given the offsets the scan reports for it. */
  lemma LineMatchesFrom(mode: Mode, fq: string, line: string, idxs: seq<nat>)
    requires |fq| > 0 && MatchIndices(Fold(mode, line), fq, 0) == idxs
    ensures forall k :: 0 <= k < |idxs| ==> idxs[k] + |fq| <= |line|
    ensures LineMatches(mode, fq, line)
      == seq(|idxs|, k requires 0 <= k < |idxs| => Occurrence(idxs[k], line[idxs[k]..idxs[k] + |fq|]))
  {
    GreedyOrdered(Fold(mode, line), fq, 0, idxs);
  }

  lemma {:induction false} DropAppend(xs: seq<SingleLineResult>, ys: seq<SingleLineResult>)
    ensures DropUnmatched(xs + ys) == DropUnmatched(xs) + DropUnmatched(ys)
    decreases |xs|
  {
    if |xs| == 0 {
      assert xs + ys == ys;
    } else {
      assert (xs + ys)[1..] == xs[1..] + ys;
      DropAppend(xs[1..], ys);
    }
  }

  /** Scanning and filtering a document splits at any line boundary. */
  lemma SearchCons(mode: Mode, fq: string, l: string, ls: seq<string>)
    requires |fq| > 0
    ensures DropUnmatched(ScanLines(mode, fq, [l] + ls))
      == DropUnmatched(ScanLines(mode, fq, [l])) + DropUnmatched(ScanLines(mode, fq, ls))
  {
    assert ScanLines(mode, fq, [l] + ls) == ScanLines(mode, fq, [l]) + ScanLines(mode, fq, ls);
    DropAppend(ScanLines(mode, fq, [l]), ScanLines(mode, fq, ls));
  }

  /** The lines of a document that carry matches, with their matches. */
  function DropScan(mode: Mode, fq: string, ls: seq<string>): seq<SingleLineResult>
    requires |fq| > 0
  {
    DropUnmatched(ScanLines(mode, fq, ls))
  }

  lemma DropScanSplit(mode: Mode, fq: string, l: string, ls: seq<string>)
    requires |fq| > 0
    ensures DropScan(mode, fq, [l] + ls) == DropScan(mode, fq, [l]) + DropScan(mode, fq, ls)
  {
    SearchCons(mode, fq, l, ls);
  }

  /** A document given as its lines: the multi-line string literal of a test. */
  lemma SearchJoin2(query: string, mode: Mode, a: string, b: string)
    requires |query| > 0 && NoNewline(a) && NoNewline(b) && |b| > 0
    ensures var fq := Fold(mode, query);
      Search(query, Join([a, b]), mode) == DropScan(mode, fq, [a]) + DropScan(mode, fq, [b])
  {
    LinesJoin([a, b]);
    assert [a, b] == [a] + [b];
    DropScanSplit(mode, Fold(mode, query), a, [b]);
  }

  lemma SearchJoin3(query: string, mode: Mode, a: string, b: string, c: string)
    requires |query| > 0 && NoNewline(a) && NoNewline(b) && NoNewline(c) && |c| > 0
    ensures var fq := Fold(mode, query);
      Search(query, Join([a, b, c]), mode)
        == DropScan(mode, fq, [a]) + (DropScan(mode, fq, [b]) + DropScan(mode, fq, [c]))
  {
    var fq := Fold(mode, query);
    LinesJoin([a, b, c]);
    assert [a, b, c] == [a] + [b, c];
    assert [b, c] == [b] + [c];
    DropScanSplit(mode, fq, a, [b, c]);
    DropScanSplit(mode, fq, b, [c]);
  }

  lemma SearchJoin4(query: string, mode: Mode, a: string, b: string, c: string, d: string)
    requires |query| > 0 && NoNewline(a) && NoNewline(b) && NoNewline(c) && NoNewline(d) && |d| > 0
    ensures var fq := Fold(mode, query);
      Search(query, Join([a, b, c, d]), mode)
        == DropScan(mode, fq, [a]) + (DropScan(mode, fq, [b]) + (DropScan(mode, fq, [c]) + DropScan(mode, fq, [d])))
  {
    var fq := Fold(mode, query);
    LinesJoin([a, b, c, d]);
    assert [a, b, c, d] == [a] + [b, c, d];
    assert [b, c, d] == [b] + [c, d];
    assert [c, d] == [c] + [d];
    DropScanSplit(mode, fq, a, [b, c, d]);
    DropScanSplit(mode, fq, b, [c, d]);
    DropScanSplit(mode, fq, c, [d]);
  }

  lemma Concat4<T>(x1: seq<T>, x2: seq<T>, x3: seq<T>, x4: seq<T>, r1: T, r2: T, r3: T, r4: T)
    requires x1 == [r1] && x2 == [r2] && x3 == [r3] && x4 == [r4]
    ensures x1 + (x2 + (x3 + x4)) == [r1, r2, r3, r4]
  {
  }

  /** In case-sensitive mode every reported value is the query itself. */
  lemma SensitiveMatchesFrom(fq: string, line: string, idxs: seq<nat>)
    requires |fq| > 0 && MatchIndices(line, fq, 0) == idxs
    ensures LineMatches(CaseSensitive, fq, line) == seq(|idxs|, k requires 0 <= k < |idxs| => Occurrence(idxs[k], fq))
  {
    LineMatchesFrom(CaseSensitive, fq, line, idxs);
    LineMatchesSlices(CaseSensitive, fq, line);
  }

  /** Each entry point reports what the search in its mode finds. */
  lemma SensitiveEntry(query: string, contents: string, r: seq<SingleLineResult>)
    requires |query| > 0 && Search(query, contents, CaseSensitive) == r
    ensures SearchCaseSensitive(query, contents) == r
  {
  }

  lemma InsensitiveEntry(query: string, contents: string, r: seq<SingleLineResult>)
    requires |query| > 0 && Search(query, contents, CaseInsensitive) == r
    ensures SearchCaseInsensitive(query, contents) == r
  {
  }

  /** A single line's contribution to the result. */
  lemma LineResult(mode: Mode, fq: string, l: string, ms: seq<Occurrence>)
    requires |fq| > 0 && LineMatches(mode, fq, l) == ms
    ensures DropScan(mode, fq, [l]) == if |ms| > 0 then [SingleLineResult(l, ms)] else []
  {
    DropScanCons(mode, fq, l, []);
    assert [l] == [l] + [];
  }

  /** A line without the query's first character has no matches. */
  lemma NoMatches(mode: Mode, fq: string, l: string)
    requires |fq| > 0 && fq[0] !in Fold(mode, l)
    ensures LineMatches(mode, fq, l) == []
  {
    assert Fold(mode, l)[0..] == Fold(mode, l);
    FindRest(Fold(mode, l), fq, 0);
    ScanEnd(Fold(mode, l), fq, 0);
    LineMatchesFrom(mode, fq, l, []);
  }

  // ---------------------------------------------------------------- one_result

  lemma DuctFound()
    ensures FindFrom("safe, fast, productive.", "duct", 0) == FindFrom("safe, fast, productive.", "duct", 15)
  {
    FindSkip("safe, fast, productive.", "duct", 0, 15);
  }

  lemma DuctHit()
    ensures FindFrom("safe, fast, productive.", "duct", 15) == Some(15)
  {
    FindHit("safe, fast, productive.", "duct", 15);
  }

  lemma DuctDone()
    ensures FindFrom("safe, fast, productive.", "duct", 19) == None
  {
    FindRest("safe, fast, productive.", "duct", 19);
  }

  lemma DuctInProductive()
    ensures LineMatches(CaseSensitive, "duct", "safe, fast, productive.") == [Occurrence(15, "duct")]
  {
    DuctFound();
    DuctHit();
    DuctDone();
    ScanOne("safe, fast, productive.", "duct", 15);
    SensitiveMatchesFrom("duct", "safe, fast, productive.", [15]);
  }

  lemma DuctElsewhere()
    ensures LineMatches(CaseSensitive, "duct", "Rust:") == []
    ensures LineMatches(CaseSensitive, "duct", "Pick three.") == []
    ensures LineMatches(CaseSensitive, "duct", "Duct tape.") == []
  {
    NoMatches(CaseSensitive, "duct", "Rust:");
    NoMatches(CaseSensitive, "duct", "Pick three.");
    NoMatches(CaseSensitive, "duct", "Duct tape.");
  }

  /** One line of three matches the query once. */
  lemma OneResult()
    ensures SearchCaseSensitive("duct", Join(["Rust:", "safe, fast, productive.", "Pick three."]))
      == [SingleLineResult("safe, fast, productive.", [Occurrence(15, "duct")])]
  {
    var m := CaseSensitive;
    var a, b, c := "Rust:", "safe, fast, productive.", "Pick three.";
    SearchJoin3("duct", m, a, b, c);
    DuctInProductive();
    DuctElsewhere();
    LineResult(m, "duct", a, []);
    LineResult(m, "duct", b, [Occurrence(15, "duct")]);
    LineResult(m, "duct", c, []);
    SensitiveEntry("duct", Join([a, b, c]), [SingleLineResult(b, [Occurrence(15, "duct")])]);
  }

  // ----------------------------------------------------------------- no_result

  lemma NotTheWordMiss()
    ensures FindFrom("Not the word", "Naharda!", 0) == FindFrom("Not the word", "Naharda!", 1)
  {
    FindMiss("Not the word", "Naharda!", 0, 1);
  }

  lemma NotTheWordDone()
    ensures FindFrom("Not the word", "Naharda!", 1) == None
  {
    FindRest("Not the word", "Naharda!", 1);
  }

  lemma NotTheWord()
    ensures LineMatches(CaseSensitive, "Naharda!", "Not the word") == []
    ensures LineMatches(CaseSensitive, "Naharda!", "Also not the word.") == []
  {
    NotTheWordMiss();
    NotTheWordDone();
    ScanEnd("Not the word", "Naharda!", 0);
    LineMatchesFrom(CaseSensitive, "Naharda!", "Not the word", []);
    NoMatches(CaseSensitive, "Naharda!", "Also not the word.");
  }

  /** No line contains the query, so nothing is reported. */
  lemma NoResult()
    ensures SearchCaseSensitive("Naharda!", Join(["Not the word", "Also not the word."])) == []
  {
    var m := CaseSensitive;
    var a, b := "Not the word", "Also not the word.";
    SearchJoin2("Naharda!", m, a, b);
    NotTheWord();
    LineResult(m, "Naharda!", a, []);
    LineResult(m, "Naharda!", b, []);
    SensitiveEntry("Naharda!", Join([a, b]), []);
  }

  // ---------------------------------------------------------- multiple_results

  lemma AtEndSkip()
    ensures FindFrom("I am talking to you, Naharda!", "Naharda!", 0) == FindFrom("I am talking to you, Naharda!", "Naharda!", 21)
  {
    FindSkip("I am talking to you, Naharda!", "Naharda!", 0, 21);
  }

  lemma AtEndHit()
    ensures FindFrom("I am talking to you, Naharda!", "Naharda!", 21) == Some(21)
    ensures FindFrom("I am talking to you, Naharda!", "Naharda!", 29) == None
  {
    FindHit("I am talking to you, Naharda!", "Naharda!", 21);
    FindRest("I am talking to you, Naharda!", "Naharda!", 29);
  }

  lemma AtEndMatches()
    ensures LineMatches(CaseSensitive, "Naharda!", "I am talking to you, Naharda!") == [Occurrence(21, "Naharda!")]
  {
    AtEndSkip();
    AtEndHit();
    ScanOne("I am talking to you, Naharda!", "Naharda!", 21);
    SensitiveMatchesFrom("Naharda!", "I am talking to you, Naharda!", [21]);
  }

  lemma AfterPrefixSkip()
    ensures FindFrom("NahardaNaharda!", "Naharda!", 0) == FindFrom("NahardaNaharda!", "Naharda!", 7)
  {
    FindMiss("NahardaNaharda!", "Naharda!", 0, 7);
    FindSkip("NahardaNaharda!", "Naharda!", 1, 7);
  }

  lemma AfterPrefixHit()
    ensures FindFrom("NahardaNaharda!", "Naharda!", 7) == Some(7)
    ensures FindFrom("NahardaNaharda!", "Naharda!", 15) == None
  {
    FindHit("NahardaNaharda!", "Naharda!", 7);
    FindRest("NahardaNaharda!", "Naharda!", 15);
  }

  lemma AfterPrefixMatches()
    ensures LineMatches(CaseSensitive, "Naharda!", "NahardaNaharda!") == [Occurrence(7, "Naharda!")]
  {
    AfterPrefixSkip();
    AfterPrefixHit();
    ScanOne("NahardaNaharda!", "Naharda!", 7);
    SensitiveMatchesFrom("Naharda!", "NahardaNaharda!", [7]);
  }

  lemma TwiceHits()
    ensures FindFrom("Naharda!Naharda!", "Naharda!", 0) == Some(0)
    ensures FindFrom("Naharda!Naharda!", "Naharda!", 8) == Some(8)
    ensures FindFrom("Naharda!Naharda!", "Naharda!", 16) == None
  {
    FindHit("Naharda!Naharda!", "Naharda!", 0);
    FindHit("Naharda!Naharda!", "Naharda!", 8);
    FindRest("Naharda!Naharda!", "Naharda!", 16);
  }

  lemma TwiceMatches()
    ensures LineMatches(CaseSensitive, "Naharda!", "Naharda!Naharda!")
      == [Occurrence(0, "Naharda!"), Occurrence(8, "Naharda!")]
  {
    TwiceHits();
    ScanTwo("Naharda!Naharda!", "Naharda!", 0, 8);
    SensitiveMatchesFrom("Naharda!", "Naharda!Naharda!", [0, 8]);
  }

  lemma SpacedFirst()
    ensures FindFrom("Naharda! Naharda Naharda!", "Naharda!", 0) == Some(0)
    ensures FindFrom("Naharda! Naharda Naharda!", "Naharda!", 25) == None
  {
    FindHit("Naharda! Naharda Naharda!", "Naharda!", 0);
    FindRest("Naharda! Naharda Naharda!", "Naharda!", 25);
  }

  lemma SpacedNearMiss()
    ensures FindFrom("Naharda! Naharda Naharda!", "Naharda!", 8) == FindFrom("Naharda! Naharda Naharda!", "Naharda!", 10)
  {
    FindSkip("Naharda! Naharda Naharda!", "Naharda!", 8, 9);
    FindMiss("Naharda! Naharda Naharda!", "Naharda!", 9, 7);
  }

  lemma SpacedSecond()
    ensures FindFrom("Naharda! Naharda Naharda!", "Naharda!", 10) == FindFrom("Naharda! Naharda Naharda!", "Naharda!", 17)
  {
    FindSkip("Naharda! Naharda Naharda!", "Naharda!", 10, 17);
  }

  lemma SpacedHit()
    ensures FindFrom("Naharda! Naharda Naharda!", "Naharda!", 17) == Some(17)
  {
    FindHit("Naharda! Naharda Naharda!", "Naharda!", 17);
  }

  lemma SpacedMatches()
    ensures LineMatches(CaseSensitive, "Naharda!", "Naharda! Naharda Naharda!")
      == [Occurrence(0, "Naharda!"), Occurrence(17, "Naharda!")]
  {
    SpacedFirst();
    SpacedNearMiss();
    SpacedSecond();
    SpacedHit();
    ScanTwo("Naharda! Naharda Naharda!", "Naharda!", 0, 17);
    SensitiveMatchesFrom("Naharda!", "Naharda! Naharda Naharda!", [0, 17]);
  }

  lemma NahardaContributions()
    ensures DropScan(CaseSensitive, "Naharda!", ["I am talking to you, Naharda!"])
      == [SingleLineResult("I am talking to you, Naharda!", [Occurrence(21, "Naharda!")])]
    ensures DropScan(CaseSensitive, "Naharda!", ["NahardaNaharda!"])
      == [SingleLineResult("NahardaNaharda!", [Occurrence(7, "Naharda!")])]
    ensures DropScan(CaseSensitive, "Naharda!", ["Naharda!Naharda!"])
      == [SingleLineResult("Naharda!Naharda!", [Occurrence(0, "Naharda!"), Occurrence(8, "Naharda!")])]
    ensures DropScan(CaseSensitive, "Naharda!", ["Naharda! Naharda Naharda!"])
      == [SingleLineResult("Naharda! Naharda Naharda!", [Occurrence(0, "Naharda!"), Occurrence(17, "Naharda!")])]
  {
    var m := CaseSensitive;
    var q := "Naharda!";
    AtEndMatches();
    AfterPrefixMatches();
    TwiceMatches();
    SpacedMatches();
    LineResult(m, q, "I am talking to you, Naharda!", [Occurrence(21, q)]);
    LineResult(m, q, "NahardaNaharda!", [Occurrence(7, q)]);
    LineResult(m, q, "Naharda!Naharda!", [Occurrence(0, q), Occurrence(8, q)]);
    LineResult(m, q, "Naharda! Naharda Naharda!", [Occurrence(0, q), Occurrence(17, q)]);
  }

  /** Every line matches; back-to-back and repeated occurrences are all found,
      and a near miss is not. */
  lemma MultipleResults()
    ensures SearchCaseSensitive("Naharda!", Join(["I am talking to you, Naharda!", "NahardaNaharda!",
        "Naharda!Naharda!", "Naharda! Naharda Naharda!"]))
      == [ SingleLineResult("I am talking to you, Naharda!", [Occurrence(21, "Naharda!")]),
           SingleLineResult("NahardaNaharda!", [Occurrence(7, "Naharda!")]),
           SingleLineResult("Naharda!Naharda!", [Occurrence(0, "Naharda!"), Occurrence(8, "Naharda!")]),
           SingleLineResult("Naharda! Naharda Naharda!", [Occurrence(0, "Naharda!"), Occurrence(17, "Naharda!")]) ]
  {
    var m := CaseSensitive;
    var q := "Naharda!";
    var a, b, c, d := "I am talking to you, Naharda!", "NahardaNaharda!", "Naharda!Naharda!", "Naharda! Naharda Naharda!";
    SearchJoin4(q, m, a, b, c, d);
    NahardaContributions();
    Concat4(DropScan(m, q, [a]), DropScan(m, q, [b]), DropScan(m, q, [c]), DropScan(m, q, [d]),
      SingleLineResult(a, [Occurrence(21, q)]), SingleLineResult(b, [Occurrence(7, q)]),
      SingleLineResult(c, [Occurrence(0, q), Occurrence(8, q)]), SingleLineResult(d, [Occurrence(0, q), Occurrence(17, q)]));
    SensitiveEntry(q, Join([a, b, c, d]), [SingleLineResult(a, [Occurrence(21, q)]), SingleLineResult(b, [Occurrence(7, q)]),
      SingleLineResult(c, [Occurrence(0, q), Occurrence(8, q)]), SingleLineResult(d, [Occurrence(0, q), Occurrence(17, q)])]);
  }

  // ------------------------------------------------------------ case_sensitive

  /** A capitalised occurrence does not match in case-sensitive mode. */
  lemma CaseSensitiveTest()
    ensures SearchCaseSensitive("duct", Join(["Rust:", "safe, fast, productive.", "Pick three.", "Duct tape."]))
      == [SingleLineResult("safe, fast, productive.", [Occurrence(15, "duct")])]
  {
    var m := CaseSensitive;
    var a, b, c, d := "Rust:", "safe, fast, productive.", "Pick three.", "Duct tape.";
    SearchJoin4("duct", m, a, b, c, d);
    DuctInProductive();
    DuctElsewhere();
    LineResult(m, "duct", a, []);
    LineResult(m, "duct", b, [Occurrence(15, "duct")]);
    LineResult(m, "duct", c, []);
    LineResult(m, "duct", d, []);
    SensitiveEntry("duct", Join([a, b, c, d]), [SingleLineResult(b, [Occurrence(15, "duct")])]);
  }

  // ---------------------------------------------------------- case_insensitive

  /** The ASCII folding of each line of the document. */
  lemma Folded()
    ensures Fold(CaseInsensitive, "Rust:") == "rust:"
    ensures Fold(CaseInsensitive, "safe, fast, productive.") == "safe, fast, productive."
    ensures Fold(CaseInsensitive, "Pick three.") == "pick three."
    ensures Fold(CaseInsensitive, "Trust me.") == "trust me."
  {
  }

  /** The ASCII folding of the query. */
  lemma FoldedQuery()
    ensures Fold(CaseInsensitive, "rUsT") == "rust"
  {
  }

  lemma RustHits()
    ensures FindFrom("rust:", "rust", 0) == Some(0)
    ensures FindFrom("rust:", "rust", 4) == None
  {
    FindHit("rust:", "rust", 0);
    FindRest("rust:", "rust", 4);
  }

  lemma TrustHits()
    ensures FindFrom("trust me.", "rust", 0) == Some(1)
    ensures FindFrom("trust me.", "rust", 5) == None
  {
    FindSkip("trust me.", "rust", 0, 1);
    FindHit("trust me.", "rust", 1);
    FindRest("trust me.", "rust", 5);
  }

  lemma ProductiveSkip()
    ensures FindFrom("safe, fast, productive.", "rust", 0) == FindFrom("safe, fast, productive.", "rust", 13)
  {
    FindSkip("safe, fast, productive.", "rust", 0, 13);
  }

  lemma ProductiveMiss()
    ensures FindFrom("safe, fast, productive.", "rust", 13) == None
  {
    FindMiss("safe, fast, productive.", "rust", 13, 1);
    FindRest("safe, fast, productive.", "rust", 14);
  }

  lemma ThreeMiss()
    ensures FindFrom("pick three.", "rust", 0) == None
  {
    FindSkip("pick three.", "rust", 0, 7);
    FindMiss("pick three.", "rust", 7, 1);
    FindRest("pick three.", "rust", 8);
  }

  lemma RustMatches()
    ensures LineMatches(CaseInsensitive, "rust", "Rust:") == [Occurrence(0, "Rust")]
  {
    Folded();
    RustHits();
    ScanOne("rust:", "rust", 0);
    LineMatchesFrom(CaseInsensitive, "rust", "Rust:", [0]);
    assert "Rust:"[0..4] == "Rust";
  }

  lemma TrustMatches()
    ensures LineMatches(CaseInsensitive, "rust", "Trust me.") == [Occurrence(1, "rust")]
  {
    Folded();
    TrustHits();
    ScanOne("trust me.", "rust", 1);
    LineMatchesFrom(CaseInsensitive, "rust", "Trust me.", [1]);
    assert "Trust me."[1..5] == "rust";
  }

  lemma UnmatchedFolded()
    ensures LineMatches(CaseInsensitive, "rust", "safe, fast, productive.") == []
    ensures LineMatches(CaseInsensitive, "rust", "Pick three.") == []
  {
    Folded();
    ProductiveSkip();
    ProductiveMiss();
    ScanEnd("safe, fast, productive.", "rust", 0);
    LineMatchesFrom(CaseInsensitive, "rust", "safe, fast, productive.", []);
    ThreeMiss();
    ScanEnd("pick three.", "rust", 0);
    LineMatchesFrom(CaseInsensitive, "rust", "Pick three.", []);
  }

  lemma TrustContributions()
    ensures DropScan(CaseInsensitive, "rust", ["Rust:"]) == [SingleLineResult("Rust:", [Occurrence(0, "Rust")])]
    ensures DropScan(CaseInsensitive, "rust", ["safe, fast, productive."]) == []
    ensures DropScan(CaseInsensitive, "rust", ["Pick three."]) == []
    ensures DropScan(CaseInsensitive, "rust", ["Trust me."]) == [SingleLineResult("Trust me.", [Occurrence(1, "rust")])]
  {
    var m := CaseInsensitive;
    RustMatches();
    TrustMatches();
    UnmatchedFolded();
    LineResult(m, "rust", "Rust:", [Occurrence(0, "Rust")]);
    LineResult(m, "rust", "safe, fast, productive.", []);
    LineResult(m, "rust", "Pick three.", []);
    LineResult(m, "rust", "Trust me.", [Occurrence(1, "rust")]);
  }

  /** The document's lines with their case-insensitive matches. */
  lemma TrustSearch()
    ensures Search("rUsT", Join(["Rust:", "safe, fast, productive.", "Pick three.", "Trust me."]), CaseInsensitive)
      == [SingleLineResult("Rust:", [Occurrence(0, "Rust")]), SingleLineResult("Trust me.", [Occurrence(1, "rust")])]
  {
    var a, b, c, d := "Rust:", "safe, fast, productive.", "Pick three.", "Trust me.";
    SearchJoin4("rUsT", CaseInsensitive, a, b, c, d);
    FoldedQuery();
    TrustContributions();
  }

  /** Case-insensitive mode finds occurrences in any casing and reports them
      in the casing of the line. */
  lemma CaseInsensitiveTest()
    ensures SearchCaseInsensitive("rUsT", Join(["Rust:", "safe, fast, productive.", "Pick three.", "Trust me."]))
      == [SingleLineResult("Rust:", [Occurrence(0, "Rust")]), SingleLineResult("Trust me.", [Occurrence(1, "rust")])]
  {
    TrustSearch();
    InsensitiveEntry("rUsT", Join(["Rust:", "safe, fast, productive.", "Pick three.", "Trust me."]),
      [SingleLineResult("Rust:", [Occurrence(0, "Rust")]), SingleLineResult("Trust me.", [Occurrence(1, "rust")])]);
  }
}
