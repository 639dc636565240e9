/** `get_keep_clips` (silence.py:59-60): turn the speaking intervals into the time ranges
    that are cut out of the video. A padded interval may start before the video does; its
    start is clamped to 0 and its end kept as it is. */
module Clips {
  import opened Intervals
  import opened Scanner

  /** The part of the video between `start` and `end` seconds, standing for
      `vid.subclip(start, end)`. */
  datatype SubClip = SubClip(start: real, end: real)

  predicate InInterval(iv: Interval, t: real) {
    iv.start <= t <= iv.end
  }

  predicate InClip(c: SubClip, t: real) {
    c.start <= t <= c.end
  }

  function Max(a: real, b: real): real {
    if a >= b then a else b
  }

  /** One clip per interval, in order. Each clip starts at time 0 or later, and holds
      exactly the non-negative times of its interval. An interval that starts at 0 or
      later is kept unchanged; one that starts earlier is cut to start at 0. */
  function KeepClips(intervals: seq<Interval>): (clips: seq<SubClip>)
    ensures |clips| == |intervals|
    ensures forall k :: 0 <= k < |clips| ==> clips[k].start >= 0.0 && clips[k].end == intervals[k].end
    ensures forall k, t :: 0 <= k < |clips| && t >= 0.0 ==>
              (InClip(clips[k], t) <==> InInterval(intervals[k], t))
    ensures forall k :: 0 <= k < |clips| && intervals[k].start >= 0.0 ==>
              clips[k].start == intervals[k].start
    ensures forall k :: 0 <= k < |clips| && intervals[k].start < 0.0 ==> clips[k].start == 0.0
  {
    seq(|intervals|, k requires 0 <= k < |intervals| => SubClip(Max(intervals[k].start, 0.0), intervals[k].end))
  }

  /** Clamping keeps the order: clips of non-overlapping intervals do not overlap either. */
  lemma KeepClipsChained(intervals: seq<Interval>)
    requires Chained(intervals)
    ensures forall k :: 0 <= k < |intervals| - 1 ==> KeepClips(intervals)[k].end <= KeepClips(intervals)[k + 1].start
  {
  }

  /** Clamping never empties a clip whose interval ends after time 0. */
  lemma KeepClipsNonEmpty(intervals: seq<Interval>)
    requires Proper(intervals)
    requires forall k :: 0 <= k < |intervals| ==> intervals[k].end > 0.0
    ensures forall k :: 0 <= k < |intervals| ==> KeepClips(intervals)[k].start < KeepClips(intervals)[k].end
  {
  }

  /** The clips cut from the scanner's output, with a positive window and non-negative
      padding: each starts at 0 or later and is non-empty, and the clips come in time
      order without overlapping. */
  lemma ClipsOfSpeaking(silent: seq<bool>, windowSize: real, easeIn: real)
    requires windowSize > 0.0 && easeIn >= 0.0
    ensures forall k :: 0 <= k < |KeepClips(Speaking(silent, windowSize, easeIn))| ==>
              0.0 <= KeepClips(Speaking(silent, windowSize, easeIn))[k].start <
                     KeepClips(Speaking(silent, windowSize, easeIn))[k].end
    ensures forall i, j :: 0 <= i < j < |KeepClips(Speaking(silent, windowSize, easeIn))| ==>
              KeepClips(Speaking(silent, windowSize, easeIn))[i].end <=
              KeepClips(Speaking(silent, windowSize, easeIn))[j].start
  {
    var r := Speaking(silent, windowSize, easeIn);
    SpeakingProper(silent, windowSize, easeIn);
    SpeakingBounds(silent, windowSize, easeIn);
    assert Boundary(1, windowSize) == windowSize;
    KeepClipsNonEmpty(r);
    var clips := KeepClips(r);
    forall i, j | 0 <= i < j < |clips|
      ensures clips[i].end <= clips[j].start
    {
      assert r[i].end <= r[j].start;
    }
  }
}
