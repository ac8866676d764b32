/** The scan behind Rust's `str::match_indices`: every non-overlapping
    occurrence of a pattern, found left to right, each search resuming at the
    end of the previous match. */
module Matcher {
  import opened Options

  /** `q` occurs in `t` starting at offset `i`. */
  predicate IsMatchAt(t: string, q: string, i: nat)
  {
    i + |q| <= |t| && t[i..i + |q|] == q
  }

  /** No occurrence of `q` starts in the offset range [lo, hi). */
  ghost predicate NoMatchIn(t: string, q: string, lo: int, hi: int)
  {
    forall j: nat :: lo <= j < hi ==> !IsMatchAt(t, q, j)
  }

  /** No occurrence of `q` starts at or after `lo`. */
  ghost predicate NoMatchFrom(t: string, q: string, lo: int)
  {
    forall j: nat :: lo <= j ==> !IsMatchAt(t, q, j)
  }

  /** Character-by-character comparison: `q[m..]` agrees with `t` from
      offset `i + m` on. */
  predicate AgreesFrom(t: string, q: string, i: nat, m: nat)
    decreases |q| - m
  {
    m >= |q| || (i + m < |t| && t[i + m] == q[m] && AgreesFrom(t, q, i, m + 1))
  }

  lemma {:induction false} AgreesFromAll(t: string, q: string, i: nat, m: nat)
    requires i + |q| <= |t|
    ensures AgreesFrom(t, q, i, m) <==> forall p :: m <= p < |q| ==> t[i + p] == q[p]
    decreases |q| - m
  {
    if m < |q| {
      AgreesFromAll(t, q, i, m + 1);
    }
  }

  /** The character comparison decides an occurrence. */
  lemma AgreesIsMatch(t: string, q: string, i: nat)
    requires i + |q| <= |t|
    ensures AgreesFrom(t, q, i, 0) <==> IsMatchAt(t, q, i)
  {
    AgreesFromAll(t, q, i, 0);
    if AgreesFrom(t, q, i, 0) {
      assert t[i..i + |q|] == q;
    }
  }

  /** The leftmost occurrence of `q` in `t` at or after the cursor `from`. */
  function FindFrom(t: string, q: string, from: nat): (r: Option<nat>)
    ensures r.Some? ==> FirstAt(t, q, from, r.value)
    ensures r.None? ==> NoMatchFrom(t, q, from)
    decreases |t| - from
  {
    if from + |q| > |t| then None
    else if AgreesFrom(t, q, from, 0) then
      AgreesIsMatch(t, q, from);
      Some(from)
    else
      AgreesIsMatch(t, q, from);
      FindFrom(t, q, from + 1)
  }

  /** Where the scan stands before reporting the k-th offset of `r`: the
      starting cursor, or the end of the (k-1)-th match. */
  function Cursor(q: string, from: nat, r: seq<nat>, k: nat): nat
    requires k <= |r|
  {
    if k == 0 then from else r[k - 1] + |q|
  }

  /** `i` is the first occurrence of `q` in `t` at or after the cursor `lo`. */
  ghost predicate FirstAt(t: string, q: string, lo: nat, i: nat)
  {
    lo <= i && IsMatchAt(t, q, i) && NoMatchIn(t, q, lo, i)
  }

  /** The k-th reported offset is the first occurrence after the cursor. */
  ghost predicate GreedyStep(t: string, q: string, from: nat, r: seq<nat>, k: nat)
    requires k < |r|
  {
    FirstAt(t, q, Cursor(q, from, r, k), r[k])
  }

  /** `r` is what a leftmost-first, non-overlapping scan from `from` reports:
      each offset is the first occurrence at or after the cursor, and after the
      last match no occurrence is left. */
  ghost predicate LeftmostGreedy(t: string, q: string, from: nat, r: seq<nat>)
  {
    && (forall k :: 0 <= k < |r| ==> GreedyStep(t, q, from, r, k))
    && NoMatchFrom(t, q, Cursor(q, from, r, |r|))
  }

  /** The offsets `t.match_indices(q)` yields once the scan is at `from`. */
  function MatchIndices(t: string, q: string, from: nat): (r: seq<nat>)
    requires |q| > 0
    ensures LeftmostGreedy(t, q, from, r)
    decreases |t| - from
  {
    match FindFrom(t, q, from)
    case None => []
    case Some(i) =>
      var rest := MatchIndices(t, q, i + |q|);
      GreedyCons(t, q, from, i, rest);
      [i] + rest
  }

  /** A leading match followed by a greedy scan from its end is a greedy scan. */
  lemma GreedyCons(t: string, q: string, from: nat, i: nat, rest: seq<nat>)
    requires FirstAt(t, q, from, i)
    requires LeftmostGreedy(t, q, i + |q|, rest)
    ensures LeftmostGreedy(t, q, from, [i] + rest)
  {
    var r := [i] + rest;
    forall k | 0 <= k < |r|
      ensures GreedyStep(t, q, from, r, k)
    {
      if k > 0 {
        assert GreedyStep(t, q, i + |q|, rest, k - 1);
        assert r[k] == rest[k - 1];
        assert Cursor(q, from, r, k) == Cursor(q, i + |q|, rest, k - 1);
      }
    }
    assert Cursor(q, from, r, |r|) == Cursor(q, i + |q|, rest, |rest|);
  }

  /** The tail of a greedy scan is the greedy scan resumed after its first match. */
  lemma GreedyTail(t: string, q: string, from: nat, r: seq<nat>)
    requires LeftmostGreedy(t, q, from, r)
    requires |r| > 0
    ensures FirstAt(t, q, from, r[0])
    ensures LeftmostGreedy(t, q, r[0] + |q|, r[1..])
  {
    var rest := r[1..];
    var c := r[0] + |q|;
    assert GreedyStep(t, q, from, r, 0);
    forall k | 0 <= k < |rest|
      ensures GreedyStep(t, q, c, rest, k)
    {
      assert GreedyStep(t, q, from, r, k + 1);
      assert rest[k] == r[k + 1];
      assert Cursor(q, c, rest, k) == Cursor(q, from, r, k + 1);
    }
    assert Cursor(q, c, rest, |rest|) == Cursor(q, from, r, |r|);
  }

  /** There is only one first occurrence after a given cursor. */
  lemma FirstAtUnique(t: string, q: string, lo: nat, i: nat, j: nat)
    requires FirstAt(t, q, lo, i) && FirstAt(t, q, lo, j)
    ensures i == j
  {
  }

  /** A greedy scan is empty exactly when nothing is found from its cursor,
      and otherwise starts with what `FindFrom` finds. */
  lemma GreedyHead(t: string, q: string, from: nat, r: seq<nat>)
    requires LeftmostGreedy(t, q, from, r)
    ensures |r| == 0 <==> FindFrom(t, q, from).None?
    ensures |r| > 0 ==> FindFrom(t, q, from) == Some(r[0])
  {
    var f := FindFrom(t, q, from);
    if |r| > 0 {
      GreedyTail(t, q, from, r);
      if f.Some? {
        FirstAtUnique(t, q, from, r[0], f.value);
      }
    }
  }

  /** The scan is determined: two greedy scans from the same cursor agree. */
  lemma {:induction false} GreedyUnique(t: string, q: string, from: nat, r1: seq<nat>, r2: seq<nat>)
    requires LeftmostGreedy(t, q, from, r1)
    requires LeftmostGreedy(t, q, from, r2)
    ensures r1 == r2
    decreases |r1|
  {
    GreedyHead(t, q, from, r1);
    GreedyHead(t, q, from, r2);
    if |r1| > 0 {
      GreedyTail(t, q, from, r1);
      GreedyTail(t, q, from, r2);
      GreedyUnique(t, q, r1[0] + |q|, r1[1..], r2[1..]);
      assert r1 == [r1[0]] + r1[1..];
      assert r2 == [r2[0]] + r2[1..];
    }
  }

  /** `MatchIndices` is exactly the leftmost-greedy scan: it is one, and any
      offset list that is one equals it. */
  lemma MatchIndicesCharacterized(t: string, q: string, from: nat, r: seq<nat>)
    requires |q| > 0
    ensures r == MatchIndices(t, q, from) <==> LeftmostGreedy(t, q, from, r)
  {
    if LeftmostGreedy(t, q, from, r) {
      GreedyUnique(t, q, from, r, MatchIndices(t, q, from));
    }
  }

  /** Reported spans lie inside the text, start at or after the cursor, come
      in ascending order and never overlap (back-to-back is allowed). */
  lemma {:induction false} GreedyOrdered(t: string, q: string, from: nat, r: seq<nat>)
    requires |q| > 0
    requires LeftmostGreedy(t, q, from, r)
    ensures forall k :: 0 <= k < |r| ==> from <= r[k] && r[k] + |q| <= |t|
    ensures forall i, j :: 0 <= i < j < |r| ==> r[i] + |q| <= r[j]
    decreases |r|
  {
    if |r| > 0 {
      GreedyTail(t, q, from, r);
      GreedyOrdered(t, q, r[0] + |q|, r[1..]);
      forall i, j | 0 <= i < j < |r| ensures r[i] + |q| <= r[j] {
        assert r[j] == r[1..][j - 1];
        if i > 0 {
          assert r[i] == r[1..][i - 1];
        }
      }
      forall k | 0 <= k < |r| ensures from <= r[k] && r[k] + |q| <= |t| {
        if k > 0 {
          assert r[k] == r[1..][k - 1];
        }
      }
    }
  }

  /** No occurrence is missed: every occurrence at or after the cursor is
      reported or overlaps a reported match. */
  lemma {:induction false} GreedyComplete(t: string, q: string, from: nat, r: seq<nat>, j: nat)
    requires |q| > 0
    requires LeftmostGreedy(t, q, from, r)
    requires from <= j && IsMatchAt(t, q, j)
    ensures exists k :: 0 <= k < |r| && r[k] <= j < r[k] + |q|
    decreases |r|
  {
    if |r| > 0 {
      GreedyTail(t, q, from, r);
      if j >= r[0] + |q| {
        GreedyComplete(t, q, r[0] + |q|, r[1..], j);
        var k :| 0 <= k < |r[1..]| && r[1..][k] <= j < r[1..][k] + |q|;
        assert r[k + 1] == r[1..][k];
      }
    }
  }

  /** A text with no occurrence at all yields no offsets, and conversely. */
  lemma MatchIndicesEmpty(t: string, q: string)
    requires |q| > 0
    ensures MatchIndices(t, q, 0) == [] <==> NoMatchFrom(t, q, 0)
  {
    var r := MatchIndices(t, q, 0);
    if |r| > 0 {
      GreedyTail(t, q, 0, r);
    }
  }

}
