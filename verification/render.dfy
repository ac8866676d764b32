/** The way a result line is cut for display: plain gap, highlighted match,
    plain gap, ..., highlighted match, plain tail. Colours and printing are
    presentation and are not modelled; only the cut is. */
module ColoredPrint {
  import opened Options
  import opened LineSearch

  /** One printed piece of a line. */
  datatype Segment = Plain(text: string) | Highlighted(text: string)

  /** The printed text, colours ignored. */
  function Flatten(segs: seq<Segment>): string
  {
    if |segs| == 0 then "" else segs[0].text + Flatten(segs[1..])
  }

  /** The cursor before the k-th match: the start `cur`, or the end of the
      (k-1)-th match. */
  function End(ms: seq<Occurrence>, cur: nat, k: nat): nat
    requires k <= |ms|
  {
    if k == 0 then cur else ms[k - 1].idx + |ms[k - 1].value|
  }

  /** The k-th match starts at or after the cursor and ends inside the line,
      so both slices taken for it are in range. */
  ghost predicate FitsAt(line: string, ms: seq<Occurrence>, cur: nat, k: nat)
    requires k < |ms|
  {
    End(ms, cur, k) <= ms[k].idx && ms[k].idx + |ms[k].value| <= |line|
  }

  /** Every slice the cut takes is in range. */
  ghost predicate Fits(line: string, ms: seq<Occurrence>, cur: nat)
  {
    forall k :: 0 <= k < |ms| ==> FitsAt(line, ms, cur, k)
  }

  /** Matches fit from `cur` exactly when the first one does and the others
      fit from its end. */
  lemma FitsCons(line: string, ms: seq<Occurrence>, cur: nat)
    requires |ms| > 0
    ensures Fits(line, ms, cur) <==>
      FitsAt(line, ms, cur, 0) && Fits(line, ms[1..], ms[0].idx + |ms[0].value|)
  {
    var e := ms[0].idx + |ms[0].value|;
    var tail := ms[1..];
    forall k | 0 <= k < |tail|
      ensures FitsAt(line, tail, e, k) <==> FitsAt(line, ms, cur, k + 1)
    {
      assert tail[k] == ms[k + 1];
      assert End(tail, e, k) == End(ms, cur, k + 1);
    }
    if FitsAt(line, ms, cur, 0) && Fits(line, tail, e) {
      forall k | 0 <= k < |ms|
        ensures FitsAt(line, ms, cur, k)
      {
        if k > 0 {
          assert FitsAt(line, tail, e, k - 1);
        }
      }
    }
  }

  lemma FlattenPrepend(a: Segment, b: Segment, rest: seq<Segment>)
    ensures Flatten([a, b] + rest) == a.text + b.text + Flatten(rest)
  {
    assert ([a, b] + rest)[1..] == [b] + rest;
    assert ([b] + rest)[1..] == rest;
  }

  /** A gap and a highlighted match in front of the cut of the rest of the
      line reassemble the line from the gap's start. */
  lemma FlattenCut(line: string, cur: nat, i: nat, e: nat, rest: seq<Segment>)
    requires cur <= i <= e <= |line| && Flatten(rest) == line[e..]
    ensures Flatten([Plain(line[cur..i]), Highlighted(line[i..e])] + rest) == line[cur..]
  {
    FlattenPrepend(Plain(line[cur..i]), Highlighted(line[i..e]), rest);
    assert line[cur..] == line[cur..i] + line[i..e] + line[e..];
  }

  /** The cut of `line[cur..]` around the matches `ms`, as the loop of
      `colored_print` performs it; `None` where a slice would be out of range
      (where `colored_print` panics). */
  function RenderFrom(line: string, ms: seq<Occurrence>, cur: nat): (r: Option<seq<Segment>>)
    requires cur <= |line|
    ensures r.Some? <==> Fits(line, ms, cur)
    ensures r.Some? ==> Flatten(r.value) == line[cur..] && |r.value| == 2 * |ms| + 1
    decreases |ms|
  {
    if |ms| == 0 then
      Some([Plain(line[cur..])])
    else
      var m := ms[0];
      FitsCons(line, ms, cur);
      if m.idx < cur || m.idx + |m.value| > |line| then
        None
      else
        var e := m.idx + |m.value|;
        match RenderFrom(line, ms[1..], e)
        case None => None
        case Some(rest) =>
          FlattenCut(line, cur, m.idx, e, rest);
          Some([Plain(line[cur..m.idx]), Highlighted(line[m.idx..e])] + rest)
  }

  /** One step of the cut: a fitting first match contributes its gap and its
      highlighted slice in front of the cut of the rest. */
  lemma RenderStep(line: string, ms: seq<Occurrence>, cur: nat)
    requires cur <= |line| && |ms| > 0
    requires Fits(line, ms, cur)
    ensures FitsAt(line, ms, cur, 0)
    ensures var e := ms[0].idx + |ms[0].value|;
      && Fits(line, ms[1..], e)
      && RenderFrom(line, ms, cur).value
         == [Plain(line[cur..ms[0].idx]), Highlighted(line[ms[0].idx..e])] + RenderFrom(line, ms[1..], e).value
  {
    FitsCons(line, ms, cur);
  }

  /** The pieces printed for the k-th match: the gap since the cursor, then
      the line's slice under the match, highlighted. */
  ghost predicate PiecesAt(line: string, ms: seq<Occurrence>, cur: nat, segs: seq<Segment>, k: nat)
    requires k < |ms|
  {
    && FitsAt(line, ms, cur, k)
    && 2 * k + 1 < |segs|
    && segs[2 * k] == Plain(line[End(ms, cur, k)..ms[k].idx])
    && segs[2 * k + 1] == Highlighted(line[ms[k].idx..ms[k].idx + |ms[k].value|])
  }

  /** The pieces of a later match are the pieces it has in the cut of the
      rest, two segments further on. */
  lemma PiecesShift(line: string, ms: seq<Occurrence>, cur: nat, front: seq<Segment>, rest: seq<Segment>, k: nat)
    requires 0 < k < |ms| && |front| == 2
    requires PiecesAt(line, ms[1..], ms[0].idx + |ms[0].value|, rest, k - 1)
    ensures PiecesAt(line, ms, cur, front + rest, k)
  {
    var e := ms[0].idx + |ms[0].value|;
    assert ms[1..][k - 1] == ms[k];
    assert End(ms[1..], e, k - 1) == End(ms, cur, k);
    assert (front + rest)[2 * k] == rest[2 * (k - 1)];
    assert (front + rest)[2 * k + 1] == rest[2 * (k - 1) + 1];
  }

  /** The cut ends with the plain tail after the last match. */
  lemma {:induction false} RenderTail(line: string, ms: seq<Occurrence>, cur: nat)
    requires cur <= |line|
    requires Fits(line, ms, cur)
    ensures End(ms, cur, |ms|) <= |line|
    ensures RenderFrom(line, ms, cur).value[2 * |ms|] == Plain(line[End(ms, cur, |ms|)..])
    decreases |ms|
  {
    if |ms| > 0 {
      RenderStep(line, ms, cur);
      var e := ms[0].idx + |ms[0].value|;
      var tail := ms[1..];
      RenderTail(line, tail, e);
      assert End(tail, e, |tail|) == End(ms, cur, |ms|);
      assert RenderFrom(line, ms, cur).value[2 * |ms|] == RenderFrom(line, tail, e).value[2 * |tail|];
    }
  }

  /** The segments alternate: the k-th gap, then the k-th match's slice of the
      line, and the tail after the last match closes the line. */
  lemma {:induction false} RenderShape(line: string, ms: seq<Occurrence>, cur: nat)
    requires cur <= |line|
    requires Fits(line, ms, cur)
    ensures var segs := RenderFrom(line, ms, cur).value;
      && (forall k :: 0 <= k < |ms| ==> PiecesAt(line, ms, cur, segs, k))
      && End(ms, cur, |ms|) <= |line|
      && segs[2 * |ms|] == Plain(line[End(ms, cur, |ms|)..])
    decreases |ms|
  {
    RenderTail(line, ms, cur);
    var segs := RenderFrom(line, ms, cur).value;
    if |ms| > 0 {
      RenderStep(line, ms, cur);
      var e := ms[0].idx + |ms[0].value|;
      var tail := ms[1..];
      var front := [Plain(line[cur..ms[0].idx]), Highlighted(line[ms[0].idx..e])];
      var rest := RenderFrom(line, tail, e).value;
      assert segs == front + rest;
      RenderShape(line, tail, e);
      forall k | 0 < k < |ms|
        ensures PiecesAt(line, ms, cur, segs, k)
      {
        PiecesShift(line, ms, cur, front, rest, k);
      }
      assert PiecesAt(line, ms, cur, segs, 0);
    }
  }

  /** `colored_print` on one result: the whole line cut from offset 0. */
  function Render(res: SingleLineResult): (r: Option<seq<Segment>>)
    ensures r.Some? <==> Fits(res.line, res.matches, 0)
    ensures r.Some? ==> Flatten(r.value) == res.line
  {
    RenderFrom(res.line, res.matches, 0)
  }

  /** A result line whose cut stays in range, reassembles the line, and
      highlights exactly the reported values, in order. */
  ghost predicate RendersFaithfully(res: SingleLineResult)
  {
    var r := Render(res);
    && r.Some?
    && Flatten(r.value) == res.line
    && |r.value| == 2 * |res.matches| + 1
    && (forall k :: 0 <= k < |res.matches| ==> r.value[2 * k + 1] == Highlighted(res.matches[k].value))
  }

  /** Faithful, ascending, non-overlapping spans fit the cut from offset 0. */
  lemma SpansFit(mode: Mode, fq: string, line: string, ms: seq<Occurrence>)
    requires FaithfulSpans(mode, fq, line, ms)
    requires forall k1, k2 :: 0 <= k1 < k2 < |ms| ==> ms[k1].idx + |fq| <= ms[k2].idx
    ensures Fits(line, ms, 0)
  {
    forall k | 0 <= k < |ms|
      ensures FitsAt(line, ms, 0, k)
    {
      assert |ms[k].value| == |fq|;
      if k > 0 {
        assert |ms[k - 1].value| == |fq|;
        assert ms[k - 1].idx + |fq| <= ms[k].idx;
      }
    }
  }

  /** With faithful spans, the k-th highlighted piece is the k-th value. */
  lemma HighlightsAreValues(mode: Mode, fq: string, line: string, ms: seq<Occurrence>)
    requires FaithfulSpans(mode, fq, line, ms) && Fits(line, ms, 0)
    ensures var segs := RenderFrom(line, ms, 0).value;
      forall k :: 0 <= k < |ms| ==> segs[2 * k + 1] == Highlighted(ms[k].value)
  {
    RenderShape(line, ms, 0);
    var segs := RenderFrom(line, ms, 0).value;
    forall k | 0 <= k < |ms|
      ensures segs[2 * k + 1] == Highlighted(ms[k].value)
    {
      assert PiecesAt(line, ms, 0, segs, k);
      assert ms[k].value == line[ms[k].idx..ms[k].idx + |fq|];
    }
  }

  /** Faithful, ascending, non-overlapping spans render faithfully. */
  lemma SpansRenderFaithfully(mode: Mode, fq: string, res: SingleLineResult)
    requires FaithfulSpans(mode, fq, res.line, res.matches)
    requires forall k1, k2 :: 0 <= k1 < k2 < |res.matches| ==> res.matches[k1].idx + |fq| <= res.matches[k2].idx
    ensures RendersFaithfully(res)
  {
    SpansFit(mode, fq, res.line, res.matches);
    HighlightsAreValues(mode, fq, res.line, res.matches);
  }

  /** Every line `search` reports can be cut without a slice going out of
      range, the pieces reassemble the line exactly, and the k-th highlighted
      piece is the k-th reported value. */
  lemma SearchResultsRender(query: string, contents: string, mode: Mode)
    requires |query| > 0
    ensures var r := Search(query, contents, mode);
      forall i :: 0 <= i < |r| ==> RendersFaithfully(r[i])
  {
    var r := Search(query, contents, mode);
    var fq := Fold(mode, query);
    SearchSpans(query, contents, mode);
    SearchOrderedMatches(query, contents, mode);
    forall i | 0 <= i < |r|
      ensures RendersFaithfully(r[i])
    {
      SpansRenderFaithfully(mode, fq, r[i]);
    }
  }

}
