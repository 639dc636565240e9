# Silence remover: a verified model of the speaking-interval scanner

This project models the core of a command-line tool that cuts the silent stretches out of
a video. It models three parts of `silence.py`:

- `find_speaking` (silence.py:22-56) splits the audio into fixed-size windows. It marks each
  window silent when its peak volume is below a threshold. It then walks the boundaries
  between neighbouring windows:
  - a silence-to-speaking edge records `speaking_start`;
  - a speaking-to-silence edge produces the padded candidate
    `[speaking_start - ease_in, speaking_end + ease_in]`.

  Each candidate is either appended to the result, or merged into the last interval when
  the two overlap.
- `get_keep_clips` (silence.py:59-60) turns each interval into a sub-clip. It clamps the
  start at 0 and leaves the end unchanged.
- The selection rule of `remove_silence_dir` (silence.py:119-133):
  - an empty directory is an error;
  - otherwise every entry whose suffix is `.mp4`, `.avi`, `.mov` or `.mkv` is processed
    into `<dir>/no_silence/<name>`.

The files:

- `intervals.dfy` (module `Intervals`): the interval type, the one-step merge-or-append
  (`Push`) and the whole insertion sequence (`MergeAll`), with their laws.
- `scanner.dfy` (module `Scanner`): the window classification, the edge detector and the
  methods for the two loops of `find_speaking`.
  - The specification `Speaking` describes the scan in two phases: collect every candidate
    (`Candidates`), then insert them in order (`MergeAll`).
  - The loop invariant of `ScanEdges` ties the interleaved loop of the source to that
    specification.
  - Every lemma about the result is proved about `Speaking`.
- `clips.dfy` (module `Clips`): `get_keep_clips`, and what its clips look like for the
  scanner's output.
- `batch.dfy` (module `Batch`): the suffix rule and the directory loop. The suffix is
  `PurePath.suffix` of the Python standard library: it starts at the last dot, provided
  that dot is neither the first nor the last character of the name; otherwise it is
  empty.

How the model represents the source's inputs:

- The audio is its duration plus a peak function over a time range. The peak function
  stands for `audio_clip.subclip(a, b).max_volume()`.
- Times are exact reals. Boundary `i` lies at `i * window_size` seconds.
- A directory is a path (its sequence of components) plus its listing (the entry names in
  the order the operating system lists them).

Two consequences of the code are easy to miss:

- `speaking_start` starts at 0 (silence.py:32). So a run that is speaking from the very
  first window *does* produce an interval once it ends, and that interval starts at
  `-ease_in` (`Scanner.LeadingSpeakingRun`). Only a trailing run, which has no closing
  edge, produces nothing (`Scanner.TrailingSpeakingIgnored`).
- The result is empty exactly when there is no speaking-to-silence edge
  (`Scanner.SpeakingEmptyIff`). That includes audio that is speaking throughout, not only
  audio that is silent throughout.

## Model

| member | source | states |
|---|---|---|
| Scanner.NumWindowsCoverage | silence.py:24 | For a non-negative duration, the `floor(end / window_size)` whole windows end at or before the end of the audio. The unclassified remainder is shorter than one window. A negative duration gives no window. |
| Scanner.NumWindows | silence.py:24 | The window count `floor(end / window_size)`, taken as 0 when negative, as `range` does. Its meaning is stated in `Scanner.NumWindowsCoverage`. |
| Scanner.WindowIsSilent | silence.py:24-29 | The classification list: one entry per whole window, entry `i` true when the peak of `[i*w, (i+1)*w]` is below the threshold. `Scanner.ClassifyWindows` is proved to build it. |
| Scanner.NegativeWindowIsEmpty | silence.py:24-26 | A negative window size over audio of non-negative length gives no window and no interval. |
| Scanner.ClassifyWindows | silence.py:24-29 | The first loop builds the classification list: one entry per whole window, and entry `i` is whether the peak of `[i*w, (i+1)*w]` is below the threshold. |
| Scanner.LastRise | silence.py:32-40 | The value `speaking_start` holds on reaching a boundary is the initial 0 or a silence-to-speaking boundary before it. No later rise lies between it and the current boundary. |
| Scanner.FallsExact | silence.py:42 | The speaking-to-silence list holds exactly the edges below the bound, in strictly ascending order. |
| Scanner.CandidatesAt | silence.py:42-44 | There is one candidate per speaking-to-silence edge, in edge order, and it is that edge's padded `[speaking_start - ease_in, speaking_end + ease_in]`. |
| Scanner.Candidate | silence.py:42-44 | The padded interval `[speaking_start - ease_in, speaking_end + ease_in]` produced at a speaking-to-silence boundary, with `speaking_start` given by `Scanner.LastRise`. Its non-emptiness is `Scanner.CandidateProper`. |
| Scanner.Candidates | silence.py:35-44 | The candidates of every speaking-to-silence edge, before merging. `Scanner.CandidatesAt` states that there is one per edge, in edge order. |
| Scanner.Speaking | silence.py:32-56 | What `find_speaking` returns for a classification: the candidates inserted in order with the merge-or-append step. `Scanner.ScanEdges` is proved to compute it. |
| Scanner.ScanStart | silence.py:32-34 | Before the second loop, `speaking_start` is 0 and the list is empty: the scan state at boundary 1. |
| Scanner.ScanStep | silence.py:35-54 | One iteration turns the scan state at boundary `i` into the state at `i + 1`. A rise sets `speaking_start` to `i*w`. A fall inserts the padded candidate with a merge-or-append. Otherwise nothing changes. |
| Scanner.ScanEnd | silence.py:35-56 | When the loop stops, the list is the full specification result, including when there are fewer than two windows. |
| Scanner.ScanEdges | silence.py:32-56 | The second loop, with its in-place merge of the last element, returns exactly `Speaking` of the classification. |
| Scanner.FindSpeaking | silence.py:22-56 | With the same defaults as the source (window 0.1 s, threshold 0.01, padding 0.25 s), `find_speaking` returns `Speaking` of the window classification. Consecutive intervals do not overlap. With a positive window and non-negative padding, every interval is non-empty. |
| Scanner.LastRiseMonotone | silence.py:39-40 | `speaking_start` never moves backwards. |
| Scanner.CandidateProper | silence.py:32-44 | Each candidate's unpadded start is strictly before its end, because the start is an earlier boundary or the initial 0. With non-negative padding the candidate is non-empty. |
| Scanner.CandidatesSorted | silence.py:40-44 | Candidate starts never decrease and candidate ends strictly increase. |
| Scanner.CandidatesProper | silence.py:44 | With non-negative padding every candidate is non-empty. |
| Scanner.SpeakingChained | silence.py:46-54 | For consecutive output intervals, the first ends no later than the next starts. |
| Scanner.SpeakingProper | silence.py:44-54 | With a positive window and non-negative padding, every interval is non-empty. The intervals are then pairwise disjoint and in time order. |
| Scanner.SpeakingCount | silence.py:42-54 | There are at most as many intervals as speaking-to-silence edges, and at least one when such an edge exists. Exactly one interval is lost per overlapping pair of consecutive candidates. |
| Scanner.SpeakingEmptyIff | silence.py:35-56 | The result is empty if and only if the classification has no speaking-to-silence edge. |
| Scanner.UniformIsEmpty | silence.py:35-56 | Fewer than two windows, or one classification throughout, gives no interval. |
| Scanner.SpeechAfterSilenceRises | silence.py:36-40 | When the first window is silent, every later speaking window has a silence-to-speaking boundary at or before it. |
| Scanner.LastRiseOpens | silence.py:32-44 | At a speaking-to-silence boundary, `speaking_start` lies before it and marks the window that opened the run. It is 0 only when the first window is speaking. |
| Scanner.SpeakingOrigins | silence.py:32-44 | Every interval starts at `i*w - ease_in`, where window `i` opens a speaking run: `i` is a silence-to-speaking boundary, or `i` is 0 and the first window is speaking. Every interval ends at `j*w + ease_in`, where `j` is a speaking-to-silence boundary. |
| Scanner.CandidateOrigins | silence.py:32-44 | Every candidate is `[i*w - ease_in, j*w + ease_in]`. Here `j` is a speaking-to-silence boundary and `i < j` opens the run it closes: there is no silence-to-speaking boundary strictly between them, and `i` is such a boundary itself, or 0 with the first window speaking. |
| Scanner.SpeakingCovers | silence.py:44-54 | Merging loses no candidate: every candidate lies inside some output interval. |
| Scanner.LastRisePrefix | silence.py:35-40 | `speaking_start` at a boundary depends only on the windows before it. |
| Scanner.CandidatesPrefix | silence.py:35-44 | The candidates up to a boundary depend only on the windows before it. |
| Scanner.CandidatesQuiet | silence.py:42 | Boundaries without a speaking-to-silence edge add no candidate. |
| Scanner.TrailingSpeakingIgnored | silence.py:35-56 | Appending a speaking run with no closing edge to a classification leaves the result unchanged. |
| Scanner.FirstSilentIsFall | silence.py:35-43 | When the first window is speaking, a later silent window is preceded by a speaking-to-silence edge. |
| Scanner.FallsFirst | silence.py:42 | The first listed speaking-to-silence edge precedes every other one. |
| Scanner.LeadingSpeakingRun | silence.py:32-44 | A closed speaking run that begins at window 0 yields a first interval starting at `-ease_in`. |
| Scanner.SpeakingBounds | silence.py:40-44 | Every interval starts at `-ease_in` or later. Every interval ends at or after the first boundary plus `ease_in`, and at or before the last classified boundary plus `ease_in`. |
| Scanner.LastBoundaryInside | silence.py:24-35 | The last classified boundary lies at least one window before the end of the audio. |
| Scanner.IntervalsWithinAudio | silence.py:22-56 | For the audio itself, every interval lies within `[-ease_in, end - window_size + ease_in]`. |
| Scanner.SingleRunEdges | silence.py:36-43 | Silent, speaking, silent runs have exactly one fall, at `a + b`. There is exactly one rise, at `a`, when the leading silent run is non-empty, and none otherwise. |
| Scanner.OneFall | silence.py:36-44 | A classification with exactly one speaking-to-silence boundary yields exactly one candidate, the one made at that boundary. |
| Scanner.SingleRun | silence.py:32-56 | `a` silent, `b` speaking and `c` silent windows give exactly one interval, `[a*w - ease_in, (a+b)*w + ease_in]`. This includes `a = 0`, audio that speaks from its first window. |
| Scanner.DefaultSettingsRuns | silence.py:22-56 | With the default window of 0.1 s and padding of 0.25 s, the classification of 10 silent, 10 speaking and 10 silent windows gives `[0.75, 2.25]`. |
| Scanner.DefaultSettingsExample | silence.py:22-56 | With the default settings, 3 s of audio whose peak is 1 between 1 s and 2 s and 0 elsewhere has 30 whole windows and gives the single interval `[0.75, 2.25]`. |
| Intervals.Push | silence.py:46-54 | The `need_to_merge` step: merge into the last interval when it ends after the candidate starts, otherwise append. The list grows by one exactly when no merge is needed. Either way it then ends where the candidate ends. |
| Intervals.PushMergesOrAppends | silence.py:50-54 | A merge keeps the length and the earlier intervals, and replaces the last interval with `[last.start, new.end]`. Otherwise exactly the candidate is appended. |
| Intervals.PushChained | silence.py:46-54 | Insertion keeps consecutive intervals non-overlapping. |
| Intervals.MergeAllSnoc | silence.py:46-54 | Inserting one more candidate is one more insertion step. |
| Intervals.MergeAllEnds | silence.py:46-54 | A non-empty candidate list gives a non-empty result. The result starts where the first candidate starts and ends where the last candidate ends. |
| Intervals.MergeAllCount | silence.py:46-54 | The result's length plus the number of overlapping consecutive candidate pairs is the number of candidates. |
| Intervals.MergeAll | silence.py:46-54 | The list after inserting the candidates in order. It has at most one interval per candidate, and at least one when there is any candidate. |
| Intervals.MergeAllShrinks | silence.py:46-52 | When two consecutive candidates overlap, fewer intervals come out than candidates went in. |
| Intervals.OverlapsPositive | silence.py:46-49 | An overlapping consecutive pair is counted. |
| Intervals.MergeAllChained | silence.py:46-54 | The result never has two consecutive overlapping intervals. |
| Intervals.MergeAllOrigins | silence.py:51-54 | Every output start and every output end comes from some candidate. |
| Intervals.MergeAllLastStart | silence.py:46-54 | With ascending candidate starts, the last output interval starts no later than the last candidate. |
| Intervals.MergeAllProper | silence.py:51-52 | Non-empty candidates with ascending ends give non-empty intervals. |
| Intervals.MergeAllCovers | silence.py:46-54 | With sorted candidates, every candidate lies inside some output interval. |
| Intervals.PushKeepsCovered | silence.py:46-54 | One insertion keeps covering a range that was already covered, when the candidate ends no earlier than the list. |
| Intervals.PushKeepsAllCovered | silence.py:46-54 | The same for every range of a list. |
| Intervals.PushCoversNew | silence.py:46-54 | After an insertion the candidate lies inside an output interval, when any merge target starts no later than the candidate. |
| Intervals.ChainedPair | silence.py:46-54 | In a chained list of non-empty intervals, any earlier interval ends before any later one starts. |
| Intervals.ChainedOrdered | silence.py:46-54 | A chained list of non-empty intervals is pairwise disjoint and strictly ascending by start. |
| Clips.KeepClips | silence.py:59-60 | There is one clip per interval, in order. Each clip start is non-negative and each end is unchanged. The clip holds exactly the non-negative times of its interval. An interval starting at 0 or later is kept as is; one starting earlier gets start 0. |
| Clips.KeepClipsChained | silence.py:59-60 | Clips of non-overlapping intervals do not overlap. |
| Clips.KeepClipsNonEmpty | silence.py:59-60 | Clamping never empties a non-empty interval that ends after 0. |
| Clips.ClipsOfSpeaking | silence.py:56-60 | Every clip cut from the scanner's output, with a positive window and non-negative padding, satisfies `0 <= start < end`. The clips are in time order and pairwise disjoint. |
| Batch.LastDot | silence.py:126 | `str.rfind('.')` inside `PurePath.suffix`: an index from -1 up to one less than the name's length. What the index means is stated in `Batch.LastDotIsLast`. |
| Batch.LastDotIsLast | silence.py:126 | The index of the last dot holds a dot, no dot follows it, and -1 means there is no dot. |
| Batch.SuffixShape | silence.py:126 | A suffix is empty, or it is a dot followed by at least one dot-free character that ends the name after a non-empty stem. |
| Batch.Suffix | silence.py:126 | `PurePath.suffix`: from the last dot to the end when that dot is neither the first nor the last character, otherwise empty. Its shape is `Batch.SuffixShape`. |
| Batch.IsVideo | silence.py:126 | `file.suffix in [".mp4", ".avi", ".mov", ".mkv"]`. It is characterised independently by `Batch.IsVideoIff`. |
| Batch.IsVideoIff | silence.py:126 | A name is selected if and only if it is longer than four characters and ends in one of the four extensions. |
| Batch.StemAndExtension | silence.py:126 | A non-empty stem followed by a video extension is selected. |
| Batch.VideoNameExamples | silence.py:126 | `talk.mp4`, `a.b.mkv` and `..mov` are selected. |
| Batch.OtherNameExamples | silence.py:126 | `.mp4`, `talk.MP4` and `talk.mp4.txt` are not selected. |
| Batch.OutputDirIsNotVideo | silence.py:126-128 | `no_silence` itself is never selected. |
| Batch.RemoveSilenceDir | silence.py:119-133 | An empty listing is the `EmptyDirectory` error and makes nothing. Otherwise the result is one job per video entry in listing order. The output directory is made exactly when there is a job. |
| Batch.VideoJobs | silence.py:125-133 | The jobs of a listing: one `<dir>/<name>` to `<dir>/no_silence/<name>` job per video entry, in listing order. `Batch.RemoveSilenceDir` is proved to compute it; its properties are the `Batch.VideoJobs…` lemmas below. |
| Batch.VideoJobsMembers | silence.py:125-133 | There is a job for an entry if and only if the entry is a video, and every job comes from some video entry. |
| Batch.VideoJobsEmptyIff | silence.py:125-129 | There are no jobs, and so no output directory, if and only if no entry is a video. |
| Batch.VideoJobsOnlyVideos | silence.py:126 | Every job's input is the directory followed by one name, and that name passes the video test. |
| Batch.VideoJobsAppend | silence.py:125 | Jobs keep listing order: the jobs of two concatenated listings are the concatenation of their jobs. |
| Batch.VideoJobsCount | silence.py:125-126 | There is at most one job per entry, and exactly one per entry if and only if every entry is a video. |
| Batch.VideoJobsOutputs | silence.py:128-132 | Each output is `<dir>/no_silence/<name>` for its input `<dir>/<name>`, so it never overwrites the input. |
| Batch.ListingExample | silence.py:122-133 | A listing of two videos and a text file gives exactly two jobs, in order. |

## Left out

- `get_fps` (silence.py:63-82): it runs the external `ffprobe` program and divides the parsed frame rate as floating point.
- `remove_silence` (silence.py:85-106): it only hands the clips to the video library for concatenation and encoding.
- `remove_silence_from_video`, `main_single_file`, `main_dir` and `main` (silence.py:109-176): these open files, read the command line and print.
- The video library's `subclip` and `max_volume`: the peak volume is a function parameter, and a clip is its `(start, end)` pair. The library's handling of an end beyond the clip's duration is not modelled. (`Scanner.IntervalsWithinAudio` bounds how far past the end an interval can reach.)
- Floating-point rounding of `end / window_size`, `i * window_size` and the padding: times are exact reals.
- A window size of 0: the source raises a division error, and the model requires a non-zero window size.
- The file system:
  - `remove_silence_dir` reads the listing twice (once for the emptiness test, once for the loop); the model takes a single listing;
  - entry kinds are not distinguished, since the code only looks at names;
  - `mkdir` is the `madeOutputDir` result of `Batch.RemoveSilenceDir`.
- `Batch.LastDot`: its own contract only bounds the index; what the index means is stated in `Batch.LastDotIsLast`.
- Failures while processing a video: an exception raised for one file by `remove_silence_from_video` (silence.py:133) leaves the loop at silence.py:125, and later entries are never processed. `Batch.RemoveSilenceDir` lists the jobs the loop would start if none fails; it does not model where a failing one stops the loop.
- app.py and dir.py are graphical front ends with no logic of their own, so they are not part of this model.
