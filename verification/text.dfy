/** Character-level helpers of the search core: ASCII case folding and the
    line splitting performed by Rust's `str::lines`. */
module Text {

  /** ASCII lower-casing of one character; every other character is kept. */
  function LowerChar(c: char): char
  {
    if 'A' <= c <= 'Z' then (c as int + 32) as char else c
  }

  /** Character-wise lower-casing of a whole string. */
  function ToLower(s: string): (r: string)
    ensures |r| == |s|
  {
    seq(|s|, i requires 0 <= i < |s| => LowerChar(s[i]))
  }

  /** Each character of the folded string is the folded character. */
  lemma ToLowerAt(s: string, i: nat)
    requires i < |s|
    ensures ToLower(s)[i] == LowerChar(s[i])
  {
  }

  /** Folding keeps every offset: lowering a slice is slicing the lowered string. */
  lemma ToLowerSlice(s: string, lo: nat, hi: nat)
    requires lo <= hi <= |s|
    ensures ToLower(s[lo..hi]) == ToLower(s)[lo..hi]
  {
    var a := ToLower(s[lo..hi]);
    var b := ToLower(s)[lo..hi];
    forall i | 0 <= i < hi - lo
      ensures a[i] == b[i]
    {
      ToLowerAt(s[lo..hi], i);
      ToLowerAt(s, lo + i);
    }
  }

  /** Folding twice is folding once. */
  lemma ToLowerIdempotent(s: string)
    ensures ToLower(ToLower(s)) == ToLower(s)
  {
    forall i | 0 <= i < |s|
      ensures ToLower(ToLower(s))[i] == ToLower(s)[i]
    {
      ToLowerAt(s, i);
      ToLowerAt(ToLower(s), i);
    }
  }

  /** Folding only touches the ASCII capitals and leaves no capital behind. */
  lemma ToLowerChangesOnlyCapitals(s: string)
    ensures forall i :: 0 <= i < |s| ==> !('A' <= ToLower(s)[i] <= 'Z')
    ensures forall i :: 0 <= i < |s| && !('A' <= s[i] <= 'Z') ==> ToLower(s)[i] == s[i]
  {
    forall i | 0 <= i < |s|
      ensures ToLower(s)[i] == LowerChar(s[i])
    {
      ToLowerAt(s, i);
    }
  }

  // ---------------------------------------------------------------------
  // Lines
  // ---------------------------------------------------------------------

  predicate NoNewline(s: string)
  {
    '\n' !in s
  }

  predicate AllNoNewline(ls: seq<string>)
  {
    forall k :: 0 <= k < |ls| ==> NoNewline(ls[k])
  }

  /** The pieces joined with a single '\n' between neighbours. */
  function Join(ls: seq<string>): string
  {
    if |ls| == 0 then ""
    else if |ls| == 1 then ls[0]
    else ls[0] + "\n" + Join(ls[1..])
  }

  /** Every piece followed by its own '\n' terminator. */
  function Unlines(ls: seq<string>): string
  {
    if |ls| == 0 then "" else ls[0] + "\n" + Unlines(ls[1..])
  }

  /** Joining after growing the first piece by one character grows the result. */
  lemma JoinPrepend(c: char, ls: seq<string>)
    requires |ls| >= 1
    ensures Join([[c] + ls[0]] + ls[1..]) == [c] + Join(ls)
  {
    var ls' := [[c] + ls[0]] + ls[1..];
    assert ls'[0] == [c] + ls[0];
    if |ls| > 1 {
      assert ls'[1..] == ls[1..];
      var j := Join(ls[1..]);
      assert Join(ls') == ls'[0] + "\n" + j;
      assert Join(ls) == ls[0] + "\n" + j;
      PrependAssoc(c, ls[0], j);
    }
  }

  lemma PrependAssoc(c: char, h: string, j: string)
    ensures ([c] + h) + "\n" + j == [c] + (h + "\n" + j)
  {
  }

  /** Every '\n'-separated piece of `s`, including empty ones; always at least one. */
  function Split(s: string): (r: seq<string>)
    ensures |r| >= 1
    ensures AllNoNewline(r)
    ensures Join(r) == s
    decreases |s|
  {
    if |s| == 0 then [""]
    else
      var rest := Split(s[1..]);
      if s[0] == '\n' then
        assert ([""] + rest)[1..] == rest;
        [""] + rest
      else
        JoinPrepend(s[0], rest);
        assert s == [s[0]] + s[1..];
        [[s[0]] + rest[0]] + rest[1..]
  }

  /** Splitting undoes joining for newline-free pieces. */
  lemma {:induction false} SplitJoin(ls: seq<string>)
    requires |ls| >= 1
    requires AllNoNewline(ls)
    ensures Split(Join(ls)) == ls
    decreases |Join(ls)|
  {
    if ls[0] == "" {
      if |ls| > 1 {
        var tail := ls[1..];
        assert AllNoNewline(tail) by {
          forall k | 0 <= k < |tail| ensures NoNewline(tail[k]) {
            assert tail[k] == ls[k + 1];
          }
        }
        var s := Join(ls);
        assert s == "\n" + Join(tail);
        assert s[1..] == Join(tail);
        SplitJoin(tail);
        assert [""] + tail == ls;
      }
    } else {
      var c := ls[0][0];
      var w := ls[0][1..];
      var ls' := [w] + ls[1..];
      assert ls'[1..] == ls[1..];
      assert AllNoNewline(ls') by {
        forall k | 0 <= k < |ls'| ensures NoNewline(ls'[k]) {
          if k == 0 {
            assert forall x :: x in w ==> x in ls[0];
          } else {
            assert ls'[k] == ls[k];
          }
        }
      }
      JoinPrepend(c, ls');
      assert [c] + w == ls[0];
      assert [[c] + w] + ls[1..] == ls;
      var s := Join(ls);
      assert s == [c] + Join(ls');
      assert c != '\n' by { assert c in ls[0]; }
      assert s[1..] == Join(ls');
      SplitJoin(ls');
    }
  }

  /** `Unlines` is `Join` with one more terminator at the end. */
  lemma {:induction false} UnlinesIsJoin(ls: seq<string>)
    requires |ls| >= 1
    ensures Unlines(ls) == Join(ls) + "\n"
    decreases |ls|
  {
    if |ls| > 1 {
      UnlinesIsJoin(ls[1..]);
    }
  }

  /** The lines of a text as `str::lines` yields them: pieces between '\n'
      characters, where a final '\n' ends the last line instead of opening an
      empty one. */
  function Lines(s: string): (r: seq<string>)
    ensures AllNoNewline(r)
    ensures |r| == 0 <==> |s| == 0
    ensures Unlines(r) == (if |s| > 0 && s[|s| - 1] != '\n' then s + "\n" else s)
  {
    if |s| == 0 then []
    else if s[|s| - 1] == '\n' then
      var body := s[..|s| - 1];
      UnlinesIsJoin(Split(body));
      assert body + "\n" == s;
      Split(body)
    else
      UnlinesIsJoin(Split(s));
      Split(s)
  }

  /** Splitting a terminated list of newline-free lines gives the lines back. */
  lemma LinesUnlines(ls: seq<string>)
    requires AllNoNewline(ls)
    ensures Lines(Unlines(ls)) == ls
  {
    if |ls| > 0 {
      UnlinesIsJoin(ls);
      var s := Unlines(ls);
      assert s[..|s| - 1] == Join(ls);
      SplitJoin(ls);
    }
  }

  /** A text without a trailing terminator ends with the last character of its
      last line. */
  lemma {:induction false} JoinLast(ls: seq<string>)
    requires |ls| >= 1 && |ls[|ls| - 1]| > 0
    ensures |Join(ls)| > 0 && Join(ls)[|Join(ls)| - 1] == ls[|ls| - 1][|ls[|ls| - 1]| - 1]
    decreases |ls|
  {
    if |ls| > 1 {
      JoinLast(ls[1..]);
    }
  }

  /** Splitting an unterminated text whose last line is not empty gives the
      joined lines back. */
  lemma LinesJoin(ls: seq<string>)
    requires |ls| >= 1 && |ls[|ls| - 1]| > 0
    requires AllNoNewline(ls)
    ensures Lines(Join(ls)) == ls
  {
    JoinLast(ls);
    var last := ls[|ls| - 1];
    assert last[|last| - 1] in last;
    SplitJoin(ls);
  }

}
