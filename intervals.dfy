/** Speaking intervals and the merge-on-insert list that `find_speaking` accumulates
    (silence.py:44-54): a new candidate is either appended, or unioned with the last
    accepted interval when the two overlap. */
module Intervals {

  /** A kept time range `[start, end]`, in seconds. */
  datatype Interval = Interval(start: real, end: real)

  /** Consecutive intervals do not overlap: each ends no later than the next one starts. */
  ghost predicate Chained(r: seq<Interval>) {
    forall k :: 0 <= k < |r| - 1 ==> r[k].end <= r[k + 1].start
  }

  /** Every interval is non-empty. */
  ghost predicate Proper(r: seq<Interval>) {
    forall k :: 0 <= k < |r| ==> r[k].start < r[k].end
  }

  ghost predicate StartsAscending(cs: seq<Interval>) {
    forall p, q :: 0 <= p < q < |cs| ==> cs[p].start <= cs[q].start
  }

  ghost predicate EndsAscending(cs: seq<Interval>) {
    forall p, q :: 0 <= p < q < |cs| ==> cs[p].end <= cs[q].end
  }

  /** The source's `need_to_merge`: there is a last accepted interval and it ends after
      the candidate starts. */
  predicate NeedsMerge(acc: seq<Interval>, c: Interval) {
    |acc| > 0 && acc[|acc| - 1].end > c.start
  }

  /** One insertion step: merge into the last interval, or append. The list never
      shrinks, grows by one exactly when no merge is needed, and ends where the candidate
      ends. */
  function Push(acc: seq<Interval>, c: Interval): (r: seq<Interval>)
    ensures |r| == if NeedsMerge(acc, c) then |acc| else |acc| + 1
    ensures r[|r| - 1].end == c.end
  {
    if NeedsMerge(acc, c) then acc[..|acc| - 1] + [Interval(acc[|acc| - 1].start, c.end)]
    else acc + [c]
  }

  /** A step merges or appends, never both: on a merge the length is unchanged, earlier
      intervals are untouched and the last one becomes `[last.start, c.end]`; otherwise
      exactly `c` is appended. */
  lemma PushMergesOrAppends(acc: seq<Interval>, c: Interval)
    ensures NeedsMerge(acc, c) ==>
              |Push(acc, c)| == |acc| &&
              Push(acc, c)[..|acc| - 1] == acc[..|acc| - 1] &&
              Push(acc, c)[|acc| - 1] == Interval(acc[|acc| - 1].start, c.end)
    ensures !NeedsMerge(acc, c) ==> Push(acc, c) == acc + [c]
  {
  }

  /** Inserting keeps consecutive intervals non-overlapping. */
  lemma PushChained(acc: seq<Interval>, c: Interval)
    requires Chained(acc)
    ensures Chained(Push(acc, c))
  {
    var r := Push(acc, c);
    forall k | 0 <= k < |r| - 1
      ensures r[k].end <= r[k + 1].start
    {
      if NeedsMerge(acc, c) {
        assert r[k] == acc[k];
        assert r[k + 1].start == acc[k + 1].start;
      } else if k == |acc| - 1 {
        assert r[k] == acc[k] && r[k + 1] == c;
      } else {
        assert r[k] == acc[k] && r[k + 1] == acc[k + 1];
      }
    }
  }

  /** The list `find_speaking` holds after inserting the candidates `cs` in order. */
  function MergeAll(cs: seq<Interval>): (r: seq<Interval>)
    ensures |r| <= |cs|
    ensures cs != [] ==> |r| >= 1
    decreases |cs|
  {
    if cs == [] then [] else Push(MergeAll(cs[..|cs| - 1]), cs[|cs| - 1])
  }

  lemma MergeAllSnoc(cs: seq<Interval>, c: Interval)
    ensures MergeAll(cs + [c]) == Push(MergeAll(cs), c)
  {
    assert (cs + [c])[..|cs|] == cs;
  }

  /** Number of consecutive candidate pairs whose padded ranges overlap. */
  function Overlaps(cs: seq<Interval>): nat
    decreases |cs|
  {
    if |cs| < 2 then 0
    else Overlaps(cs[..|cs| - 1]) + (if cs[|cs| - 2].end > cs[|cs| - 1].start then 1 else 0)
  }

  /** The accumulated list always ends where the newest candidate ends, and begins where
      the first candidate begins. */
  lemma {:induction false} MergeAllEnds(cs: seq<Interval>)
    requires cs != []
    ensures |MergeAll(cs)| > 0
    ensures MergeAll(cs)[|MergeAll(cs)| - 1].end == cs[|cs| - 1].end
    ensures MergeAll(cs)[0].start == cs[0].start
  {
    var init := cs[..|cs| - 1];
    var c := cs[|cs| - 1];
    if init != [] {
      MergeAllEnds(init);
      PushMergesOrAppends(MergeAll(init), c);
      assert init[0] == cs[0];
    }
  }

  /** Exact accounting: every overlapping consecutive pair of candidates costs one merge,
      every other candidate is appended. */
  lemma {:induction false} MergeAllCount(cs: seq<Interval>)
    ensures |MergeAll(cs)| + Overlaps(cs) == |cs|
  {
    if cs != [] {
      var init := cs[..|cs| - 1];
      var c := cs[|cs| - 1];
      MergeAllCount(init);
      if init != [] {
        MergeAllEnds(init);
        assert init[|init| - 1] == cs[|cs| - 2];
        assert NeedsMerge(MergeAll(init), c) <==> cs[|cs| - 2].end > c.start;
      }
    }
  }

  /** Merging is strict: when two consecutive candidates overlap, fewer intervals come out
      than went in. */
  lemma MergeAllShrinks(cs: seq<Interval>, k: nat)
    requires k + 1 < |cs| && cs[k].end > cs[k + 1].start
    ensures |MergeAll(cs)| < |cs|
  {
    OverlapsPositive(cs, k);
    MergeAllCount(cs);
  }

  lemma {:induction false} OverlapsPositive(cs: seq<Interval>, k: nat)
    requires k + 1 < |cs| && cs[k].end > cs[k + 1].start
    ensures Overlaps(cs) > 0
  {
    if k + 2 < |cs| {
      var init := cs[..|cs| - 1];
      assert init[k] == cs[k] && init[k + 1] == cs[k + 1];
      OverlapsPositive(init, k);
    }
  }

  /** Consecutive output intervals never overlap. */
  lemma {:induction false} MergeAllChained(cs: seq<Interval>)
    ensures Chained(MergeAll(cs))
  {
    if cs != [] {
      MergeAllChained(cs[..|cs| - 1]);
      PushChained(MergeAll(cs[..|cs| - 1]), cs[|cs| - 1]);
    }
  }

  /** Every output start is some candidate's start and every output end some candidate's
      end: merging never invents a boundary. */
  lemma {:induction false} MergeAllOrigins(cs: seq<Interval>)
    ensures forall k :: 0 <= k < |MergeAll(cs)| ==>
              (exists p :: 0 <= p < |cs| && MergeAll(cs)[k].start == cs[p].start) &&
              (exists q :: 0 <= q < |cs| && MergeAll(cs)[k].end == cs[q].end)
  {
    if cs != [] {
      var init := cs[..|cs| - 1];
      var c := cs[|cs| - 1];
      var m := MergeAll(init);
      var r := MergeAll(cs);
      assert r == Push(m, c);
      MergeAllOrigins(init);
      PushMergesOrAppends(m, c);
      forall k | 0 <= k < |r|
        ensures exists p :: 0 <= p < |cs| && r[k].start == cs[p].start
        ensures exists q :: 0 <= q < |cs| && r[k].end == cs[q].end
      {
        if k < |m| {
          var p :| 0 <= p < |init| && m[k].start == init[p].start;
          assert cs[p] == init[p];
          assert r[k].start == m[k].start;
        } else {
          assert r[k] == c;
        }
        if k < |m| - 1 || (k == |m| - 1 && !NeedsMerge(m, c)) {
          var q :| 0 <= q < |init| && m[k].end == init[q].end;
          assert cs[q] == init[q];
          assert r[k] == m[k];
        } else {
          assert r[k].end == cs[|cs| - 1].end;
        }
      }
      assert forall k :: 0 <= k < |r| ==> exists p :: 0 <= p < |cs| && r[k].start == cs[p].start;
      assert forall k :: 0 <= k < |r| ==> exists q :: 0 <= q < |cs| && r[k].end == cs[q].end;
    } else {
      assert MergeAll(cs) == [];
    }
  }

  /** When candidates are non-empty and end in ascending order, so are merged intervals. */
  lemma {:induction false} MergeAllProper(cs: seq<Interval>)
    requires Proper(cs) && EndsAscending(cs)
    ensures Proper(MergeAll(cs))
  {
    if cs != [] {
      var init := cs[..|cs| - 1];
      var c := cs[|cs| - 1];
      var m := MergeAll(init);
      assert Proper(init) && EndsAscending(init);
      MergeAllProper(init);
      PushMergesOrAppends(m, c);
      if NeedsMerge(m, c) {
        MergeAllEnds(init);
        assert m[|m| - 1].start < m[|m| - 1].end == init[|init| - 1].end <= c.end;
      }
    }
  }

  /** Some interval of `r` contains `c`. */
  ghost predicate Covered(r: seq<Interval>, c: Interval) {
    exists k :: 0 <= k < |r| && r[k].start <= c.start && c.end <= r[k].end
  }

  /** A step keeps covered every range that was covered, when the candidate ends no
      earlier than the list does. */
  lemma PushKeepsCovered(m: seq<Interval>, c: Interval, x: Interval)
    requires Covered(m, x)
    requires |m| > 0 && m[|m| - 1].end <= c.end
    ensures Covered(Push(m, c), x)
  {
    var k :| 0 <= k < |m| && m[k].start <= x.start && x.end <= m[k].end;
    PushMergesOrAppends(m, c);
    var r := Push(m, c);
    if k == |m| - 1 && NeedsMerge(m, c) {
      assert r[k].start == m[k].start && r[k].end == c.end;
    } else {
      assert r[k] == m[k];
    }
  }

  /** A step covers the candidate itself, when a merge target starts no later than it. */
  lemma PushCoversNew(m: seq<Interval>, c: Interval)
    requires NeedsMerge(m, c) ==> m[|m| - 1].start <= c.start
    ensures Covered(Push(m, c), c)
  {
    PushMergesOrAppends(m, c);
    var r := Push(m, c);
    if NeedsMerge(m, c) {
      assert r[|m| - 1].start <= c.start && c.end <= r[|m| - 1].end;
    } else {
      assert r[|m|] == c;
    }
  }

  lemma PushKeepsAllCovered(m: seq<Interval>, c: Interval, xs: seq<Interval>)
    requires forall p :: 0 <= p < |xs| ==> Covered(m, xs[p])
    requires |m| > 0 && m[|m| - 1].end <= c.end
    ensures forall p :: 0 <= p < |xs| ==> Covered(Push(m, c), xs[p])
  {
    forall p | 0 <= p < |xs|
      ensures Covered(Push(m, c), xs[p])
    {
      PushKeepsCovered(m, c, xs[p]);
    }
  }

  /** With ascending starts, the last output interval starts no later than the last
      candidate. */
  lemma MergeAllLastStart(cs: seq<Interval>)
    requires cs != [] && StartsAscending(cs)
    ensures |MergeAll(cs)| > 0 && MergeAll(cs)[|MergeAll(cs)| - 1].start <= cs[|cs| - 1].start
  {
    MergeAllEnds(cs);
    MergeAllOrigins(cs);
    var m := MergeAll(cs);
    var q :| 0 <= q < |cs| && m[|m| - 1].start == cs[q].start;
  }

  /** No candidate is lost: when candidates are sorted, each lies inside an output interval. */
  lemma {:induction false} MergeAllCovers(cs: seq<Interval>)
    requires StartsAscending(cs) && EndsAscending(cs)
    ensures forall p :: 0 <= p < |cs| ==> Covered(MergeAll(cs), cs[p])
  {
    if cs != [] {
      var init := cs[..|cs| - 1];
      var c := cs[|cs| - 1];
      var m := MergeAll(init);
      assert MergeAll(cs) == Push(m, c);
      if init != [] {
        assert StartsAscending(init) && EndsAscending(init);
        MergeAllCovers(init);
        MergeAllEnds(init);
        assert init[|init| - 1] == cs[|cs| - 2];
        MergeAllLastStart(init);
        PushKeepsAllCovered(m, c, init);
      }
      PushCoversNew(m, c);
      forall p | 0 <= p < |cs|
        ensures Covered(MergeAll(cs), cs[p])
      {
        if p < |init| {
          assert cs[p] == init[p];
        }
      }
    }
  }

  lemma {:induction false} ChainedPair(r: seq<Interval>, i: nat, j: nat)
    requires Chained(r) && Proper(r)
    requires i < j < |r|
    ensures r[i].end <= r[j].start
    decreases j - i
  {
    if i + 1 < j {
      ChainedPair(r, i, j - 1);
    }
  }

  /** Chained non-empty intervals are pairwise disjoint and strictly ascending. */
  lemma ChainedOrdered(r: seq<Interval>)
    requires Chained(r) && Proper(r)
    ensures forall i, j :: 0 <= i < j < |r| ==> r[i].end <= r[j].start && r[i].start < r[j].start
  {
    forall i, j | 0 <= i < j < |r|
      ensures r[i].end <= r[j].start && r[i].start < r[j].start
    {
      ChainedPair(r, i, j);
    }
  }
}
