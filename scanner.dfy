/** The silence scanner of silence.py:22-56: classify fixed-size windows of the audio as
    silent or speaking, detect the edges between the two, and build the padded, merged
    list of speaking intervals.

    Times are exact reals. Boundary `i` between windows `i - 1` and `i` sits at
    `i * windowSize` seconds. The audio is its duration and a peak function over a time
    range, standing for `audio_clip.subclip(a, b).max_volume()`. */
module Scanner {
  import opened Intervals

  /** The default settings of `find_speaking`, which its callers rely on. */
  const DefaultWindowSize: real := 0.1
  const DefaultVolumeThreshold: real := 0.01
  const DefaultEaseIn: real := 0.25

  /** The number of whole windows that fit in the audio: `floor(end / window_size)`;
      when it is negative, `range` yields no window at all. */
  function NumWindows(audioEnd: real, windowSize: real): nat
    requires windowSize != 0.0
  {
    var q := (audioEnd / windowSize).Floor;
    if q < 0 then 0 else q
  }

  /** The windows cover `[0, N * windowSize]` inside the audio, and what is left over, the
      trailing partial window, is shorter than one window: it is never classified. */
  lemma NumWindowsCoverage(audioEnd: real, windowSize: real)
    requires windowSize > 0.0
    ensures audioEnd >= 0.0 ==>
              Boundary(NumWindows(audioEnd, windowSize), windowSize) <= audioEnd &&
              audioEnd - Boundary(NumWindows(audioEnd, windowSize), windowSize) < windowSize
    ensures audioEnd < 0.0 ==> NumWindows(audioEnd, windowSize) == 0
  {
    var x := audioEnd / windowSize;
    var q := x.Floor;
    assert x * windowSize == audioEnd;
    if audioEnd >= 0.0 {
      assert x >= 0.0;
      assert q >= 0;
      assert NumWindows(audioEnd, windowSize) == q;
      assert q as real * windowSize <= x * windowSize by {
        assert (x - q as real) * windowSize >= 0.0;
      }
      assert x * windowSize < (q + 1) as real * windowSize by {
        assert ((q + 1) as real - x) * windowSize > 0.0;
      }
      assert (q + 1) as real * windowSize == q as real * windowSize + windowSize;
      assert Boundary(q, windowSize) == q as real * windowSize;
      assert audioEnd < Boundary(q, windowSize) + windowSize;
    } else {
      assert x < 0.0;
    }
  }

  /** A negative window size over audio of non-negative length yields no window, and so
      no interval. */
  lemma NegativeWindowIsEmpty(audioEnd: real, peak: (real, real) -> real, windowSize: real,
                              volumeThreshold: real, easeIn: real)
    requires windowSize < 0.0 && audioEnd >= 0.0
    ensures WindowIsSilent(audioEnd, peak, windowSize, volumeThreshold) == []
    ensures Speaking(WindowIsSilent(audioEnd, peak, windowSize, volumeThreshold), windowSize, easeIn) == []
  {
    assert audioEnd / windowSize <= 0.0;
    assert NumWindows(audioEnd, windowSize) == 0;
  }

  /** The time of boundary `i`, where window `i` starts: `i * window_size` seconds. */
  function Boundary(i: int, windowSize: real): real {
    i as real * windowSize
  }

  /** Window `i` covers `[i * windowSize, (i + 1) * windowSize]`; it is silent when its
      peak volume is below the threshold. */
  predicate SilentWindow(peak: (real, real) -> real, windowSize: real, volumeThreshold: real, i: nat) {
    peak(Boundary(i, windowSize), Boundary(i + 1, windowSize)) < volumeThreshold
  }

  /** The classification list `window_is_silent`: one entry per whole window. */
  function WindowIsSilent(audioEnd: real, peak: (real, real) -> real, windowSize: real,
                          volumeThreshold: real): seq<bool>
    requires windowSize != 0.0
  {
    seq(NumWindows(audioEnd, windowSize),
        i requires 0 <= i => SilentWindow(peak, windowSize, volumeThreshold, i))
  }

  /** A silence-to-speaking edge at boundary `i`. */
  predicate IsRise(silent: seq<bool>, i: nat) {
    1 <= i < |silent| && silent[i - 1] && !silent[i]
  }

  /** A speaking-to-silence edge at boundary `i`. */
  predicate IsFall(silent: seq<bool>, i: nat) {
    1 <= i < |silent| && !silent[i - 1] && silent[i]
  }

  /** Window `i` opens a speaking run: it is speaking, and it is the first window or
      follows a silent one. */
  predicate OpensSpeech(silent: seq<bool>, i: nat) {
    i < |silent| && !silent[i] && (i == 0 || silent[i - 1])
  }

  /** The value of `speaking_start` (as a window index) when boundary `j` is reached: the
      latest silence-to-speaking edge before `j`, or the initial 0 when there is none. */
  function LastRise(silent: seq<bool>, j: nat): (i: nat)
    ensures i == 0 || (i < j && IsRise(silent, i))
    ensures forall k: nat :: i < k < j ==> !IsRise(silent, k)
    decreases j
  {
    if j <= 1 then 0
    else if IsRise(silent, j - 1) then j - 1
    else LastRise(silent, j - 1)
  }

  /** The speaking-to-silence edges among boundaries `1 .. k - 1`, in ascending order. */
  function Falls(silent: seq<bool>, k: nat): seq<nat>
    decreases k
  {
    if k <= 1 then []
    else Falls(silent, k - 1) + (if IsFall(silent, k - 1) then [k - 1] else [])
  }

  /** `Falls` lists exactly the speaking-to-silence edges below `k`, strictly ascending. */
  lemma {:induction false} FallsExact(silent: seq<bool>, k: nat)
    ensures forall p :: 0 <= p < |Falls(silent, k)| ==> IsFall(silent, Falls(silent, k)[p]) && Falls(silent, k)[p] < k
    ensures forall p, q :: 0 <= p < q < |Falls(silent, k)| ==> Falls(silent, k)[p] < Falls(silent, k)[q]
    ensures forall j: nat :: IsFall(silent, j) && j < k ==> j in Falls(silent, k)
    decreases k
  {
    if k > 1 {
      FallsExact(silent, k - 1);
    }
  }

  /** The padded interval `[speaking_start - ease_in, speaking_end + ease_in]` that a
      speaking-to-silence edge at boundary `j` produces. */
  function Candidate(silent: seq<bool>, j: nat, windowSize: real, easeIn: real): Interval {
    Interval(Boundary(LastRise(silent, j), windowSize) - easeIn, Boundary(j, windowSize) + easeIn)
  }

  /** The candidates produced at boundaries `1 .. k - 1`, before any merging: one per
      speaking-to-silence edge. */
  function Candidates(silent: seq<bool>, k: nat, windowSize: real, easeIn: real): seq<Interval>
    decreases k
  {
    if k <= 1 then []
    else
      Candidates(silent, k - 1, windowSize, easeIn) +
      (if IsFall(silent, k - 1) then [Candidate(silent, k - 1, windowSize, easeIn)] else [])
  }

  /** One candidate per speaking-to-silence edge, in the order of the edges. */
  lemma {:induction false} CandidatesAt(silent: seq<bool>, k: nat, windowSize: real, easeIn: real)
    ensures |Candidates(silent, k, windowSize, easeIn)| == |Falls(silent, k)|
    ensures forall p :: 0 <= p < |Falls(silent, k)| ==>
              Candidates(silent, k, windowSize, easeIn)[p] == Candidate(silent, Falls(silent, k)[p], windowSize, easeIn)
    decreases k
  {
    if k > 1 {
      CandidatesAt(silent, k - 1, windowSize, easeIn);
    }
  }

  /** What `find_speaking` returns for a classification list, stated in two phases:
      collect every candidate, then insert them one by one into the merge-on-insert list. */
  function Speaking(silent: seq<bool>, windowSize: real, easeIn: real): seq<Interval> {
    MergeAll(Candidates(silent, |silent|, windowSize, easeIn))
  }

  /** The first loop of `find_speaking` (silence.py:24-29): measure the peak of every
      whole window and record whether it is below the threshold. */
  method ClassifyWindows(audioEnd: real, peak: (real, real) -> real, windowSize: real,
                         volumeThreshold: real)
    returns (windowIsSilent: seq<bool>)
    requires windowSize != 0.0
    ensures windowIsSilent == WindowIsSilent(audioEnd, peak, windowSize, volumeThreshold)
  {
    var numWindows := NumWindows(audioEnd, windowSize);
    windowIsSilent := [];
    for i := 0 to numWindows
      invariant |windowIsSilent| == i
      invariant forall k :: 0 <= k < i ==> windowIsSilent[k] == SilentWindow(peak, windowSize, volumeThreshold, k)
    {
      var v := peak(i as real * windowSize, (i + 1) as real * windowSize);
      assert i as real * windowSize == Boundary(i, windowSize);
      assert (i + 1) as real * windowSize == Boundary(i + 1, windowSize);
      assert (v < volumeThreshold) == SilentWindow(peak, windowSize, volumeThreshold, i);
      windowIsSilent := windowIsSilent + [v < volumeThreshold];
    }
  }

  /** The second loop of `find_speaking` (silence.py:32-56): walk the boundaries, track
      `speaking_start`, and insert a padded interval at every speaking-to-silence edge,
      merging it into the last one when they overlap. */
  method ScanEdges(windowIsSilent: seq<bool>, windowSize: real, easeIn: real)
    returns (speakingIntervals: seq<Interval>)
    ensures speakingIntervals == Speaking(windowIsSilent, windowSize, easeIn)
  {
    var speakingStart: real := 0.0;
    var speakingEnd: real := 0.0;
    speakingIntervals := [];
    var i := 1;
    ScanStart(windowIsSilent, windowSize, easeIn);
    while i < |windowIsSilent|
      invariant 1 <= i <= if |windowIsSilent| == 0 then 1 else |windowIsSilent|
      invariant ScanState(windowIsSilent, i, windowSize, easeIn, speakingStart, speakingIntervals)
    {
      ghost var start0, acc0 := speakingStart, speakingIntervals;
      var e1 := windowIsSilent[i - 1];
      var e2 := windowIsSilent[i];
      // silence -> speaking
      if e1 && !e2 {
        speakingStart := i as real * windowSize;
        assert speakingStart == Boundary(i, windowSize);
      }
      // speaking -> silence: a speaking interval is complete
      if !e1 && e2 {
        speakingEnd := i as real * windowSize;
        assert speakingEnd == Boundary(i, windowSize);
        var newSpeakingInterval := Interval(speakingStart - easeIn, speakingEnd + easeIn);
        var needToMerge := |speakingIntervals| > 0 &&
                           speakingIntervals[|speakingIntervals| - 1].end > newSpeakingInterval.start;
        if needToMerge {
          var mergedInterval := Interval(speakingIntervals[|speakingIntervals| - 1].start,
                                         newSpeakingInterval.end);
          speakingIntervals := speakingIntervals[..|speakingIntervals| - 1] + [mergedInterval];
        } else {
          speakingIntervals := speakingIntervals + [newSpeakingInterval];
        }
        assert speakingIntervals == Push(acc0, newSpeakingInterval);
      }
      ScanStep(windowIsSilent, i, windowSize, easeIn, start0, acc0, speakingStart, speakingIntervals);
      i := i + 1;
    }
    ScanEnd(windowIsSilent, i, windowSize, easeIn, speakingStart, speakingIntervals);
  }

  /** `find_speaking`: classify the windows, then scan their edges. The result is ordered
      and non-overlapping, and with a non-negative padding every interval is non-empty. */
  method FindSpeaking(audioEnd: real, peak: (real, real) -> real,
                      windowSize: real := DefaultWindowSize,
                      volumeThreshold: real := DefaultVolumeThreshold,
                      easeIn: real := DefaultEaseIn)
    returns (speakingIntervals: seq<Interval>)
    requires windowSize != 0.0
    ensures speakingIntervals ==
            Speaking(WindowIsSilent(audioEnd, peak, windowSize, volumeThreshold), windowSize, easeIn)
    ensures Chained(speakingIntervals)
    ensures windowSize > 0.0 && easeIn >= 0.0 ==> Proper(speakingIntervals)
  {
    var windowIsSilent := ClassifyWindows(audioEnd, peak, windowSize, volumeThreshold);
    speakingIntervals := ScanEdges(windowIsSilent, windowSize, easeIn);
    SpeakingChained(windowIsSilent, windowSize, easeIn);
    if windowSize > 0.0 && easeIn >= 0.0 {
      SpeakingProper(windowIsSilent, windowSize, easeIn);
    }
  }

  /** The scan's state on reaching boundary `i`: `speaking_start` is the latest
      silence-to-speaking boundary (or 0), and the list holds the merged candidates of the
      speaking-to-silence edges seen so far. */
  ghost predicate ScanState(silent: seq<bool>, i: nat, windowSize: real, easeIn: real,
                            start: real, acc: seq<Interval>) {
    start == Boundary(LastRise(silent, i), windowSize) &&
    acc == MergeAll(Candidates(silent, i, windowSize, easeIn))
  }

  /** Before the scan: `speaking_start` is 0 and no interval is recorded. */
  lemma ScanStart(silent: seq<bool>, windowSize: real, easeIn: real)
    ensures ScanState(silent, 1, windowSize, easeIn, 0.0, [])
  {
  }

  /** One iteration of the scan at boundary `i`: a silence-to-speaking edge moves
      `speaking_start` to boundary `i`; a speaking-to-silence edge inserts
      `[speaking_start - ease_in, i + ease_in]`; the next state is the scan's state at
      `i + 1`. */
  lemma ScanStep(silent: seq<bool>, i: nat, windowSize: real, easeIn: real,
                 start: real, acc: seq<Interval>, start': real, acc': seq<Interval>)
    requires 1 <= i < |silent|
    requires ScanState(silent, i, windowSize, easeIn, start, acc)
    requires start' == if silent[i - 1] && !silent[i] then Boundary(i, windowSize) else start
    requires acc' == if !silent[i - 1] && silent[i]
                     then Push(acc, Interval(start - easeIn, Boundary(i, windowSize) + easeIn))
                     else acc
    ensures ScanState(silent, i + 1, windowSize, easeIn, start', acc')
  {
    var cs := Candidates(silent, i, windowSize, easeIn);
    if IsFall(silent, i) {
      assert Candidates(silent, i + 1, windowSize, easeIn) == cs + [Candidate(silent, i, windowSize, easeIn)];
      MergeAllSnoc(cs, Candidate(silent, i, windowSize, easeIn));
    } else {
      assert Candidates(silent, i + 1, windowSize, easeIn) == cs;
    }
  }

  /** After the scan: the list holds every candidate of the classification. */
  lemma ScanEnd(silent: seq<bool>, i: nat, windowSize: real, easeIn: real,
                start: real, acc: seq<Interval>)
    requires 1 <= i && (i == |silent| || (|silent| == 0 && i == 1))
    requires ScanState(silent, i, windowSize, easeIn, start, acc)
    ensures acc == Speaking(silent, windowSize, easeIn)
  {
    assert Candidates(silent, i, windowSize, easeIn) == Candidates(silent, |silent|, windowSize, easeIn);
  }

  // ---------------------------------------------------------------------------
  // Properties of the edge detector and the candidates

  lemma ScaleLess(i: int, j: int, windowSize: real)
    requires windowSize > 0.0 && i < j
    ensures Boundary(i, windowSize) < Boundary(j, windowSize)
  {
    assert (j - i) as real * windowSize > 0.0;
  }

  lemma ScaleLeq(i: int, j: int, windowSize: real)
    requires windowSize > 0.0 && i <= j
    ensures Boundary(i, windowSize) <= Boundary(j, windowSize)
  {
    assert (j - i) as real * windowSize >= 0.0;
  }

  /** `speaking_start` only moves forward. */
  lemma LastRiseMonotone(silent: seq<bool>, j1: nat, j2: nat)
    requires j1 <= j2
    ensures LastRise(silent, j1) <= LastRise(silent, j2)
  {
  }

  /** The unpadded run of every candidate is non-empty: `speaking_start < speaking_end`,
      because the start was set at an earlier boundary or is the initial 0. With a
      non-negative padding the candidate itself is non-empty. */
  lemma CandidateProper(silent: seq<bool>, j: nat, windowSize: real, easeIn: real)
    requires IsFall(silent, j) && windowSize > 0.0
    ensures Boundary(LastRise(silent, j), windowSize) < Boundary(j, windowSize)
    ensures easeIn >= 0.0 ==> Candidate(silent, j, windowSize, easeIn).start <
                               Candidate(silent, j, windowSize, easeIn).end
  {
    ScaleLess(LastRise(silent, j), j, windowSize);
  }

  /** Candidates come out sorted: ends strictly ascending, starts never decreasing. */
  lemma CandidatesSorted(silent: seq<bool>, k: nat, windowSize: real, easeIn: real)
    requires windowSize > 0.0
    ensures StartsAscending(Candidates(silent, k, windowSize, easeIn))
    ensures EndsAscending(Candidates(silent, k, windowSize, easeIn))
    ensures forall p, q :: 0 <= p < q < |Candidates(silent, k, windowSize, easeIn)| ==>
              Candidates(silent, k, windowSize, easeIn)[p].end <
              Candidates(silent, k, windowSize, easeIn)[q].end
  {
    var cs := Candidates(silent, k, windowSize, easeIn);
    var f := Falls(silent, k);
    FallsExact(silent, k);
    CandidatesAt(silent, k, windowSize, easeIn);
    forall p, q | 0 <= p < q < |cs|
      ensures cs[p].start <= cs[q].start && cs[p].end < cs[q].end
    {
      assert cs[p] == Candidate(silent, f[p], windowSize, easeIn);
      assert cs[q] == Candidate(silent, f[q], windowSize, easeIn);
      LastRiseMonotone(silent, f[p], f[q]);
      ScaleLeq(LastRise(silent, f[p]), LastRise(silent, f[q]), windowSize);
      ScaleLess(f[p], f[q], windowSize);
    }
  }

  lemma CandidatesProper(silent: seq<bool>, k: nat, windowSize: real, easeIn: real)
    requires windowSize > 0.0 && easeIn >= 0.0
    ensures Proper(Candidates(silent, k, windowSize, easeIn))
  {
    var cs := Candidates(silent, k, windowSize, easeIn);
    var f := Falls(silent, k);
    FallsExact(silent, k);
    CandidatesAt(silent, k, windowSize, easeIn);
    forall p | 0 <= p < |cs|
      ensures cs[p].start < cs[p].end
    {
      assert cs[p] == Candidate(silent, f[p], windowSize, easeIn);
      CandidateProper(silent, f[p], windowSize, easeIn);
    }
  }

  // ---------------------------------------------------------------------------
  // Properties of the result

  /** Output intervals are ordered and do not overlap: each ends no later than the next
      one starts. */
  lemma SpeakingChained(silent: seq<bool>, windowSize: real, easeIn: real)
    ensures Chained(Speaking(silent, windowSize, easeIn))
  {
    MergeAllChained(Candidates(silent, |silent|, windowSize, easeIn));
  }

  /** With a non-negative padding every output interval is non-empty, so the output is
      strictly ascending and pairwise disjoint. */
  lemma SpeakingProper(silent: seq<bool>, windowSize: real, easeIn: real)
    requires windowSize > 0.0 && easeIn >= 0.0
    ensures Proper(Speaking(silent, windowSize, easeIn))
    ensures forall i, j :: 0 <= i < j < |Speaking(silent, windowSize, easeIn)| ==>
              Speaking(silent, windowSize, easeIn)[i].end <= Speaking(silent, windowSize, easeIn)[j].start
  {
    var cs := Candidates(silent, |silent|, windowSize, easeIn);
    CandidatesProper(silent, |silent|, windowSize, easeIn);
    CandidatesSorted(silent, |silent|, windowSize, easeIn);
    MergeAllProper(cs);
    MergeAllChained(cs);
    ChainedOrdered(MergeAll(cs));
  }

  /** At most one interval per speaking-to-silence edge, at least one when there is such an
      edge; exactly one fewer for each pair of consecutive candidates whose padding
      overlaps. */
  lemma SpeakingCount(silent: seq<bool>, windowSize: real, easeIn: real)
    ensures |Speaking(silent, windowSize, easeIn)| <= |Falls(silent, |silent|)|
    ensures |Speaking(silent, windowSize, easeIn)| + Overlaps(Candidates(silent, |silent|, windowSize, easeIn))
            == |Falls(silent, |silent|)|
    ensures (exists j: nat :: IsFall(silent, j)) ==> |Speaking(silent, windowSize, easeIn)| >= 1
  {
    var cs := Candidates(silent, |silent|, windowSize, easeIn);
    CandidatesAt(silent, |silent|, windowSize, easeIn);
    FallsExact(silent, |silent|);
    MergeAllCount(cs);
    if exists j: nat :: IsFall(silent, j) {
      var j: nat :| IsFall(silent, j);
      assert j in Falls(silent, |silent|);
    }
  }

  /** The result is empty exactly when the classification has no speaking-to-silence edge. */
  lemma SpeakingEmptyIff(silent: seq<bool>, windowSize: real, easeIn: real)
    ensures Speaking(silent, windowSize, easeIn) == [] <==> forall j: nat :: !IsFall(silent, j)
  {
    var cs := Candidates(silent, |silent|, windowSize, easeIn);
    CandidatesAt(silent, |silent|, windowSize, easeIn);
    FallsExact(silent, |silent|);
    if exists j: nat :: IsFall(silent, j) {
      var j: nat :| IsFall(silent, j);
      assert j in Falls(silent, |silent|);
    }
  }

  /** Fewer than two windows, or one classification throughout, yields no interval. */
  lemma UniformIsEmpty(silent: seq<bool>, windowSize: real, easeIn: real)
    requires |silent| < 2 || forall i :: 0 <= i < |silent| ==> silent[i] == silent[0]
    ensures Speaking(silent, windowSize, easeIn) == []
  {
    SpeakingEmptyIff(silent, windowSize, easeIn);
  }

  /** A speaking window after a silent first window is preceded by a
      silence-to-speaking edge. */
  lemma {:induction false} SpeechAfterSilenceRises(s: seq<bool>, i: nat)
    requires i < |s| && s[0] && !s[i]
    ensures exists m: nat :: 1 <= m <= i && IsRise(s, m)
    decreases i
  {
    if s[i - 1] {
      assert IsRise(s, i);
    } else {
      SpeechAfterSilenceRises(s, i - 1);
    }
  }

  /** When a speaking-to-silence edge is reached, `speaking_start` marks the window that
      opened the run: a silence-to-speaking edge, or window 0 only when the audio speaks
      from its first window. */
  lemma LastRiseOpens(s: seq<bool>, j: nat)
    requires IsFall(s, j)
    ensures LastRise(s, j) < j && OpensSpeech(s, LastRise(s, j))
  {
    if s[0] {
      SpeechAfterSilenceRises(s, j - 1);
    }
  }

  /** Each output interval starts where a speaking run opens (a silence-to-speaking
      boundary, or boundary 0 exactly when the first window is speaking), minus the
      padding; and it ends at a speaking-to-silence boundary plus the padding. */
  lemma SpeakingOrigins(silent: seq<bool>, windowSize: real, easeIn: real, k: nat)
    requires k < |Speaking(silent, windowSize, easeIn)|
    ensures exists i: nat :: OpensSpeech(silent, i) &&
              Speaking(silent, windowSize, easeIn)[k].start == Boundary(i, windowSize) - easeIn
    ensures exists j: nat :: IsFall(silent, j) &&
              Speaking(silent, windowSize, easeIn)[k].end == Boundary(j, windowSize) + easeIn
  {
    var cs := Candidates(silent, |silent|, windowSize, easeIn);
    var r := MergeAll(cs);
    MergeAllOrigins(cs);
    var p :| 0 <= p < |cs| && r[k].start == cs[p].start;
    var q :| 0 <= q < |cs| && r[k].end == cs[q].end;
    assert Speaking(silent, windowSize, easeIn) == r;
    CandidateOrigins(silent, windowSize, easeIn, p);
    var i: nat :| OpensSpeech(silent, i) && cs[p].start == Boundary(i, windowSize) - easeIn;
    assert r[k].start == Boundary(i, windowSize) - easeIn;
    CandidateOrigins(silent, windowSize, easeIn, q);
    var j: nat :| IsFall(silent, j) && cs[q].end == Boundary(j, windowSize) + easeIn;
    assert r[k].end == Boundary(j, windowSize) + easeIn;
  }

  /** Each candidate is made at a speaking-to-silence edge `j`. It starts where the run
      closed by `j` opened, minus the padding: at the last silence-to-speaking edge before
      `j`, or at window 0 when the audio speaks from its first window. It ends at `j`
      plus the padding. */
  lemma CandidateOrigins(silent: seq<bool>, windowSize: real, easeIn: real, p: nat)
    requires p < |Candidates(silent, |silent|, windowSize, easeIn)|
    ensures exists i: nat, j: nat :: IsFall(silent, j) && i < j && OpensSpeech(silent, i) &&
              (forall m: nat :: i < m < j ==> !IsRise(silent, m)) &&
              Candidates(silent, |silent|, windowSize, easeIn)[p] ==
                Interval(Boundary(i, windowSize) - easeIn, Boundary(j, windowSize) + easeIn)
  {
    var cs := Candidates(silent, |silent|, windowSize, easeIn);
    var f := Falls(silent, |silent|);
    CandidatesAt(silent, |silent|, windowSize, easeIn);
    FallsExact(silent, |silent|);
    assert cs[p] == Candidate(silent, f[p], windowSize, easeIn);
    assert IsFall(silent, f[p]);
    LastRiseOpens(silent, f[p]);
  }

  /** No candidate is lost by merging: the padded range of every speaking-to-silence edge
      lies inside some output interval. */
  lemma SpeakingCovers(silent: seq<bool>, windowSize: real, easeIn: real, j: nat)
    requires windowSize > 0.0 && IsFall(silent, j)
    ensures Covered(Speaking(silent, windowSize, easeIn), Candidate(silent, j, windowSize, easeIn))
  {
    var cs := Candidates(silent, |silent|, windowSize, easeIn);
    var f := Falls(silent, |silent|);
    CandidatesAt(silent, |silent|, windowSize, easeIn);
    FallsExact(silent, |silent|);
    CandidatesSorted(silent, |silent|, windowSize, easeIn);
    MergeAllCovers(cs);
    assert j in f;
    var p :| 0 <= p < |f| && f[p] == j;
    assert cs[p] == Candidate(silent, j, windowSize, easeIn);
    assert Covered(MergeAll(cs), cs[p]);
  }

  // ---------------------------------------------------------------------------
  // The first and the last window

  /** `n` windows of the same classification. */
  function Run(n: nat, silent: bool): (r: seq<bool>)
    ensures |r| == n && forall i :: 0 <= i < n ==> r[i] == silent
  {
    seq(n, _ => silent)
  }

  lemma {:induction false} LastRisePrefix(s: seq<bool>, t: seq<bool>, j: nat)
    requires j <= |s| && j <= |t| && s[..j] == t[..j]
    ensures LastRise(s, j) == LastRise(t, j)
    decreases j
  {
    if j > 1 {
      assert s[..j - 1] == t[..j - 1] by {
        assert s[..j - 1] == s[..j][..j - 1] && t[..j - 1] == t[..j][..j - 1];
      }
      assert s[j - 2] == s[..j][j - 2] && s[j - 1] == s[..j][j - 1];
      assert t[j - 2] == t[..j][j - 2] && t[j - 1] == t[..j][j - 1];
      assert IsRise(s, j - 1) == IsRise(t, j - 1);
      LastRisePrefix(s, t, j - 1);
    }
  }

  /** The candidates up to boundary `k` depend only on the first `k` windows. */
  lemma {:induction false} CandidatesPrefix(s: seq<bool>, t: seq<bool>, k: nat, windowSize: real, easeIn: real)
    requires k <= |s| && k <= |t| && s[..k] == t[..k]
    ensures Candidates(s, k, windowSize, easeIn) == Candidates(t, k, windowSize, easeIn)
    decreases k
  {
    if k > 1 {
      assert s[..k - 1] == t[..k - 1] by {
        assert s[..k - 1] == s[..k][..k - 1] && t[..k - 1] == t[..k][..k - 1];
      }
      CandidatesPrefix(s, t, k - 1, windowSize, easeIn);
      assert s[k - 2] == s[..k][k - 2] && s[k - 1] == s[..k][k - 1];
      assert t[k - 2] == t[..k][k - 2] && t[k - 1] == t[..k][k - 1];
      assert IsFall(s, k - 1) == IsFall(t, k - 1);
      LastRisePrefix(s, t, k - 1);
      assert Candidate(s, k - 1, windowSize, easeIn) == Candidate(t, k - 1, windowSize, easeIn);
    }
  }

  /** Boundaries without a speaking-to-silence edge add no candidate. */
  lemma {:induction false} CandidatesQuiet(s: seq<bool>, lo: nat, hi: nat, windowSize: real, easeIn: real)
    requires 1 <= lo <= hi
    requires forall j: nat :: lo <= j < hi ==> !IsFall(s, j)
    ensures Candidates(s, hi, windowSize, easeIn) == Candidates(s, lo, windowSize, easeIn)
    decreases hi
  {
    if lo < hi {
      CandidatesQuiet(s, lo, hi - 1, windowSize, easeIn);
      assert !IsFall(s, hi - 1);
    }
  }

  /** A speaking run that reaches the last window, with no closing edge, contributes no
      interval: appending it to a classification changes nothing. */
  lemma TrailingSpeakingIgnored(prefix: seq<bool>, n: nat, windowSize: real, easeIn: real)
    ensures Speaking(prefix + Run(n, false), windowSize, easeIn) == Speaking(prefix, windowSize, easeIn)
  {
    var t := prefix + Run(n, false);
    var lo := if |prefix| == 0 then 1 else |prefix|;
    forall j: nat | lo <= j < |t|
      ensures !IsFall(t, j)
    {
      assert t[j] == Run(n, false)[j - |prefix|];
    }
    if |t| >= lo {
      CandidatesQuiet(t, lo, |t|, windowSize, easeIn);
    }
    assert t[..|prefix|] == prefix[..|prefix|];
    CandidatesPrefix(t, prefix, |prefix|, windowSize, easeIn);
    assert Candidates(t, lo, windowSize, easeIn) == Candidates(t, |prefix|, windowSize, easeIn);
  }

  lemma {:induction false} FirstSilentIsFall(silent: seq<bool>, i: nat)
    requires i < |silent| && !silent[0] && silent[i]
    ensures exists m: nat :: 1 <= m <= i && IsFall(silent, m)
    decreases i
  {
    if silent[i - 1] {
      FirstSilentIsFall(silent, i - 1);
    } else {
      assert IsFall(silent, i);
    }
  }

  /** The first speaking-to-silence edge comes before every other one. */
  lemma FallsFirst(silent: seq<bool>, k: nat)
    requires |Falls(silent, k)| > 0
    ensures forall j: nat :: IsFall(silent, j) && j < k ==> Falls(silent, k)[0] <= j
  {
    var f := Falls(silent, k);
    FallsExact(silent, k);
    forall j: nat | IsFall(silent, j) && j < k
      ensures f[0] <= j
    {
      assert j in f;
      var p :| 0 <= p < |f| && f[p] == j;
      if p > 0 {
        assert f[0] < f[p];
      }
    }
  }

  /** A speaking run at the very start, once closed, yields an interval that starts at
      `0 - ease_in`: `speaking_start` keeps its initial value 0. */
  lemma LeadingSpeakingRun(silent: seq<bool>, windowSize: real, easeIn: real)
    requires |silent| > 0 && !silent[0]
    requires exists j: nat :: IsFall(silent, j)
    ensures |Speaking(silent, windowSize, easeIn)| > 0
    ensures Speaking(silent, windowSize, easeIn)[0].start == -easeIn
  {
    var cs := Candidates(silent, |silent|, windowSize, easeIn);
    var f := Falls(silent, |silent|);
    CandidatesAt(silent, |silent|, windowSize, easeIn);
    FallsExact(silent, |silent|);
    var j: nat :| IsFall(silent, j);
    assert j in f;
    FallsFirst(silent, |silent|);
    MergeAllEnds(cs);
    var i := LastRise(silent, f[0]);
    if i != 0 {
      FirstSilentIsFall(silent, i - 1);
      assert false;
    }
    assert cs[0] == Candidate(silent, f[0], windowSize, easeIn);
    assert cs[0].start == Boundary(0, windowSize) - easeIn;
  }

  // ---------------------------------------------------------------------------
  // Where the intervals lie

  /** Every interval starts no earlier than `-ease_in` and ends between the first boundary
      and the last classified boundary, each padded by `ease_in`. */
  lemma SpeakingBounds(silent: seq<bool>, windowSize: real, easeIn: real)
    requires windowSize > 0.0
    ensures forall k :: 0 <= k < |Speaking(silent, windowSize, easeIn)| ==>
              -easeIn <= Speaking(silent, windowSize, easeIn)[k].start &&
              Boundary(1, windowSize) + easeIn <= Speaking(silent, windowSize, easeIn)[k].end &&
              Speaking(silent, windowSize, easeIn)[k].end <= Boundary(|silent| - 1, windowSize) + easeIn
  {
    var r := Speaking(silent, windowSize, easeIn);
    forall k | 0 <= k < |r|
      ensures -easeIn <= r[k].start
      ensures Boundary(1, windowSize) + easeIn <= r[k].end <= Boundary(|silent| - 1, windowSize) + easeIn
    {
      SpeakingOrigins(silent, windowSize, easeIn, k);
      var i: nat :| OpensSpeech(silent, i) && r[k].start == Boundary(i, windowSize) - easeIn;
      var j: nat :| IsFall(silent, j) && r[k].end == Boundary(j, windowSize) + easeIn;
      ScaleLeq(0, i, windowSize);
      ScaleLeq(1, j, windowSize);
      ScaleLeq(j, |silent| - 1, windowSize);
    }
  }

  /** The last classified boundary lies at least one window before the end of the audio. */
  lemma LastBoundaryInside(audioEnd: real, windowSize: real)
    requires windowSize > 0.0 && NumWindows(audioEnd, windowSize) >= 1
    ensures Boundary(NumWindows(audioEnd, windowSize) - 1, windowSize) <= audioEnd - windowSize
  {
    var n := NumWindows(audioEnd, windowSize);
    NumWindowsCoverage(audioEnd, windowSize);
    assert Boundary(n - 1, windowSize) == Boundary(n, windowSize) - windowSize;
  }

  /** For the audio itself: intervals start at `-ease_in` or later and end at most
      `ease_in - window_size` past the end of the audio, since the last window that can
      close a run lies wholly inside it. */
  lemma IntervalsWithinAudio(audioEnd: real, peak: (real, real) -> real, windowSize: real,
                             volumeThreshold: real, easeIn: real)
    requires windowSize > 0.0
    ensures forall k :: 0 <= k < |Speaking(WindowIsSilent(audioEnd, peak, windowSize, volumeThreshold), windowSize, easeIn)| ==>
              -easeIn <= Speaking(WindowIsSilent(audioEnd, peak, windowSize, volumeThreshold), windowSize, easeIn)[k].start &&
              Speaking(WindowIsSilent(audioEnd, peak, windowSize, volumeThreshold), windowSize, easeIn)[k].end <=
                audioEnd - windowSize + easeIn
  {
    var silent := WindowIsSilent(audioEnd, peak, windowSize, volumeThreshold);
    assert |silent| == NumWindows(audioEnd, windowSize);
    SpeakingBounds(silent, windowSize, easeIn);
    if |silent| < 2 {
      UniformIsEmpty(silent, windowSize, easeIn);
    } else {
      LastBoundaryInside(audioEnd, windowSize);
    }
  }

  // ---------------------------------------------------------------------------
  // A single speaking run

  /** The edges of `a` silent, `b` speaking and `c` silent windows: one rise at `a` and
      one fall at `a + b`. */
  lemma SingleRunEdges(a: nat, b: nat, c: nat)
    requires b >= 1 && c >= 1
    ensures |Run(a, true) + Run(b, false) + Run(c, true)| == a + b + c
    ensures forall j: nat :: IsFall(Run(a, true) + Run(b, false) + Run(c, true), j) <==> j == a + b
    ensures forall j: nat :: IsRise(Run(a, true) + Run(b, false) + Run(c, true), j) <==> a >= 1 && j == a
  {
    var s := Run(a, true) + Run(b, false) + Run(c, true);
    assert forall k :: 0 <= k < |s| ==> s[k] == (k < a || a + b <= k);
  }

  /** A classification with a single speaking-to-silence edge yields a single candidate. */
  lemma OneFall(s: seq<bool>, f: nat, windowSize: real, easeIn: real)
    requires 1 <= f < |s|
    requires forall j: nat :: IsFall(s, j) <==> j == f
    ensures Candidates(s, |s|, windowSize, easeIn) == [Candidate(s, f, windowSize, easeIn)]
  {
    CandidatesQuiet(s, 1, f, windowSize, easeIn);
    assert Candidates(s, f + 1, windowSize, easeIn) == [Candidate(s, f, windowSize, easeIn)];
    CandidatesQuiet(s, f + 1, |s|, windowSize, easeIn);
  }

  /** `a` silent windows, `b` speaking windows, `c` silent windows give exactly one
      interval: from boundary `a` to boundary `a + b`, padded by `ease_in` on each side.
      With `a == 0` the audio speaks from its first window and the interval starts at
      `-ease_in`. */
  lemma SingleRun(a: nat, b: nat, c: nat, windowSize: real, easeIn: real)
    requires b >= 1 && c >= 1
    ensures Speaking(Run(a, true) + Run(b, false) + Run(c, true), windowSize, easeIn) ==
            [Interval(Boundary(a, windowSize) - easeIn, Boundary(a + b, windowSize) + easeIn)]
  {
    var s := Run(a, true) + Run(b, false) + Run(c, true);
    SingleRunEdges(a, b, c);
    OneFall(s, a + b, windowSize, easeIn);
    assert a >= 1 ==> IsRise(s, a);
    assert LastRise(s, a + b) == a;
    var c0 := Candidate(s, a + b, windowSize, easeIn);
    assert MergeAll([c0]) == [c0];
  }

  /** The classification of 10 silent, 10 speaking and 10 silent windows, with one
      interval `[0.75, 2.25]` under the default window and padding. */
  lemma DefaultSettingsRuns()
    ensures Speaking(Run(10, true) + Run(10, false) + Run(10, true), DefaultWindowSize, DefaultEaseIn) ==
            [Interval(0.75, 2.25)]
  {
    SingleRun(10, 10, 10, DefaultWindowSize, DefaultEaseIn);
  }

  /** The peak volume of audio that is loud from 1 s to 2 s and silent elsewhere. */
  function StepPeak(a: real, b: real): real {
    if 1.0 <= a && b <= 2.0 then 1.0 else 0.0
  }

  /** Three seconds of audio, silent except between 1 s and 2 s, scanned with the default
      settings: 30 whole windows, and one interval, `[0.75, 2.25]`. */
  lemma DefaultSettingsExample()
    ensures NumWindows(3.0, DefaultWindowSize) == 30
    ensures Speaking(WindowIsSilent(3.0, StepPeak, DefaultWindowSize, DefaultVolumeThreshold),
                     DefaultWindowSize, DefaultEaseIn) == [Interval(0.75, 2.25)]
  {
    var w := WindowIsSilent(3.0, StepPeak, DefaultWindowSize, DefaultVolumeThreshold);
    var s := Run(10, true) + Run(10, false) + Run(10, true);
    assert 3.0 / DefaultWindowSize == 30.0;
    assert |w| == 30 == |s|;
    forall i | 0 <= i < 30
      ensures w[i] == s[i]
    {
      assert w[i] == SilentWindow(StepPeak, DefaultWindowSize, DefaultVolumeThreshold, i);
      assert s[i] == (i < 10 || 20 <= i);
    }
    assert w == s;
    DefaultSettingsRuns();
  }
}
