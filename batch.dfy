/** The selection rule of `remove_silence_dir` (silence.py:119-133): refuse an empty
    directory, then pick each entry whose suffix is a video extension and send it to
    `<dir>/no_silence/<name>`.

    A path is its sequence of components; the directory listing is a parameter, in the
    order the operating system lists it. */
module Batch {

  type Name = seq<char>
  type Path = seq<Name>

  datatype DirError = EmptyDirectory

  datatype Result<T> = Ok(value: T) | Err(error: DirError)

  /** One file to process: where it is read from and where its edited copy goes. */
  datatype Job = Job(input: Path, output: Path)

  const OutputDirName: Name := "no_silence"

  const VideoSuffixes: seq<Name> := [".mp4", ".avi", ".mov", ".mkv"]

  /** `name.rfind('.')`: the index of the last dot, or -1 when there is none. */
  function LastDot(name: Name): (i: int)
    ensures -1 <= i < |name|
    decreases |name|
  {
    if |name| == 0 then -1
    else if name[|name| - 1] == '.' then |name| - 1
    else LastDot(name[..|name| - 1])
  }

  /** `LastDot` finds a dot, and no dot follows it; -1 means the name has no dot. */
  lemma {:induction false} LastDotIsLast(name: Name)
    ensures LastDot(name) >= 0 ==> name[LastDot(name)] == '.'
    ensures forall k :: LastDot(name) < k < |name| ==> name[k] != '.'
    decreases |name|
  {
    if |name| > 0 && name[|name| - 1] != '.' {
      var init := name[..|name| - 1];
      LastDotIsLast(init);
      assert forall k :: 0 <= k < |init| ==> init[k] == name[k];
    }
  }

  /** `PurePath.suffix`: from the last dot to the end, provided the dot is neither the
      first nor the last character; otherwise empty. */
  function Suffix(name: Name): Name {
    var i := LastDot(name);
    if 0 < i < |name| - 1 then name[i..] else []
  }

  /** A suffix is empty, or a dot followed by at least one character and no other dot,
      ending the name after a non-empty stem. */
  lemma SuffixShape(name: Name)
    ensures Suffix(name) == [] ||
            (|Suffix(name)| >= 2 && Suffix(name)[0] == '.' && '.' !in Suffix(name)[1..] &&
             |Suffix(name)| < |name| && name[|name| - |Suffix(name)|..] == Suffix(name))
  {
    LastDotIsLast(name);
    var r := Suffix(name);
    if r != [] {
      var i := LastDot(name);
      forall k | 0 <= k < |r| - 1
        ensures r[1..][k] != '.'
      {
        assert r[1..][k] == name[i + 1 + k];
      }
    }
  }

  predicate IsVideo(name: Name) {
    Suffix(name) in VideoSuffixes
  }

  /** An independent description of a video name: longer than four characters and
      ending in one of the four extensions. */
  predicate EndsInVideoExtension(name: Name) {
    |name| > 4 && name[|name| - 4..] in VideoSuffixes
  }

  lemma IsVideoIff(name: Name)
    ensures IsVideo(name) <==> EndsInVideoExtension(name)
  {
    if EndsInVideoExtension(name) {
      var n := |name|;
      var ext := name[n - 4..];
      assert ext[0] == '.' && '.' !in ext[1..];
      assert name[n - 4] == ext[0];
      forall k | n - 4 < k < n
        ensures name[k] != '.'
      {
        assert name[k] == ext[1..][k - (n - 3)];
      }
      LastDotIsLast(name);
      assert LastDot(name) == n - 4;
    }
  }

  /** The job for one selected entry. */
  function JobFor(dir: Path, name: Name): Job {
    Job(dir + [name], dir + [OutputDirName, name])
  }

  /** The jobs for the video entries of a listing, in listing order. */
  function VideoJobs(dir: Path, entries: seq<Name>): seq<Job>
    decreases |entries|
  {
    if entries == [] then []
    else
      VideoJobs(dir, entries[..|entries| - 1]) +
      (if IsVideo(entries[|entries| - 1]) then [JobFor(dir, entries[|entries| - 1])] else [])
  }

  /** `remove_silence_dir`: an empty directory is an error; otherwise one job per video
      entry, and the output directory is made exactly when there is at least one. */
  method RemoveSilenceDir(dir: Path, entries: seq<Name>)
    returns (r: Result<seq<Job>>, madeOutputDir: bool)
    ensures entries == [] ==> r == Err(EmptyDirectory) && !madeOutputDir
    ensures entries != [] ==> r == Ok(VideoJobs(dir, entries))
    ensures madeOutputDir <==> VideoJobs(dir, entries) != []
  {
    if |entries| == 0 {
      return Err(EmptyDirectory), false;
    }
    var jobs: seq<Job> := [];
    madeOutputDir := false;
    for i := 0 to |entries|
      invariant jobs == VideoJobs(dir, entries[..i])
      invariant madeOutputDir <==> jobs != []
    {
      var file := entries[i];
      assert entries[..i + 1][..i] == entries[..i];
      if IsVideo(file) {
        madeOutputDir := true;
        jobs := jobs + [JobFor(dir, file)];
      }
    }
    assert entries[..|entries|] == entries;
    return Ok(jobs), madeOutputDir;
  }

  /** A job is made for an entry exactly when it is a video, and every job is made for
      some entry. */
  lemma {:induction false} VideoJobsMembers(dir: Path, entries: seq<Name>)
    ensures forall k :: 0 <= k < |entries| && IsVideo(entries[k]) ==> JobFor(dir, entries[k]) in VideoJobs(dir, entries)
    ensures forall j :: j in VideoJobs(dir, entries) ==>
              exists k :: 0 <= k < |entries| && IsVideo(entries[k]) && j == JobFor(dir, entries[k])
    decreases |entries|
  {
    if entries != [] {
      var init := entries[..|entries| - 1];
      VideoJobsMembers(dir, init);
      forall k | 0 <= k < |init|
        ensures entries[k] == init[k]
      {
      }
    }
  }

  /** The output directory is made exactly when some entry is a video. */
  lemma VideoJobsEmptyIff(dir: Path, entries: seq<Name>)
    ensures VideoJobs(dir, entries) == [] <==> forall k :: 0 <= k < |entries| ==> !IsVideo(entries[k])
  {
    VideoJobsMembers(dir, entries);
    if VideoJobs(dir, entries) != [] {
      var j := VideoJobs(dir, entries)[0];
      assert j in VideoJobs(dir, entries);
    }
  }

  /** No job reads an entry that is not a video: the output directory itself, files
      without an extension, hidden files such as `.mp4`, and other extensions are all
      skipped. */
  lemma {:induction false} VideoJobsOnlyVideos(dir: Path, entries: seq<Name>)
    ensures forall j :: j in VideoJobs(dir, entries) ==>
              |j.input| == |dir| + 1 && IsVideo(j.input[|dir|])
    decreases |entries|
  {
    if entries != [] {
      VideoJobsOnlyVideos(dir, entries[..|entries| - 1]);
    }
  }

  /** Listing order is kept: the jobs of two listings one after the other are the jobs of
      the first followed by those of the second. */
  lemma {:induction false} VideoJobsAppend(dir: Path, a: seq<Name>, b: seq<Name>)
    ensures VideoJobs(dir, a + b) == VideoJobs(dir, a) + VideoJobs(dir, b)
    decreases |b|
  {
    if b == [] {
      assert a + b == a;
    } else {
      var b' := b[..|b| - 1];
      assert (a + b)[..|a + b| - 1] == a + b';
      VideoJobsAppend(dir, a, b');
    }
  }

  /** At most one job per entry, and one per entry exactly when every entry is a video. */
  lemma {:induction false} VideoJobsCount(dir: Path, entries: seq<Name>)
    ensures |VideoJobs(dir, entries)| <= |entries|
    ensures |VideoJobs(dir, entries)| == |entries| <==> forall k :: 0 <= k < |entries| ==> IsVideo(entries[k])
    decreases |entries|
  {
    if entries != [] {
      var init := entries[..|entries| - 1];
      var last := entries[|entries| - 1];
      VideoJobsCount(dir, init);
      assert forall k :: 0 <= k < |init| ==> init[k] == entries[k];
      var allInit := forall k :: 0 <= k < |init| ==> IsVideo(init[k]);
      var all := forall k :: 0 <= k < |entries| ==> IsVideo(entries[k]);
      assert all <==> allInit && IsVideo(last);
      if IsVideo(last) {
        assert |VideoJobs(dir, entries)| == |VideoJobs(dir, init)| + 1;
      } else {
        assert |VideoJobs(dir, entries)| == |VideoJobs(dir, init)|;
      }
    }
  }

  /** Every output lies in the `no_silence` sub-directory under the same name as its
      input, so no input is overwritten. */
  lemma {:induction false} VideoJobsOutputs(dir: Path, entries: seq<Name>)
    ensures forall j :: j in VideoJobs(dir, entries) ==>
              |j.input| == |dir| + 1 &&
              j.output == dir + [OutputDirName, j.input[|j.input| - 1]] &&
              j.input == dir + [j.input[|j.input| - 1]] &&
              j.output != j.input
    decreases |entries|
  {
    if entries != [] {
      VideoJobsOutputs(dir, entries[..|entries| - 1]);
    }
  }

  /** A non-empty stem followed by a video extension is a video name. */
  lemma StemAndExtension(stem: Name, ext: Name)
    requires |stem| > 0 && ext in VideoSuffixes
    ensures IsVideo(stem + ext)
  {
    assert (stem + ext)[|stem + ext| - 4..] == ext;
    IsVideoIff(stem + ext);
  }

  /** Names that are videos: the extension follows a non-empty stem, which may itself
      hold dots. */
  lemma VideoNameExamples()
    ensures IsVideo("talk.mp4") && IsVideo("a.b.mkv") && IsVideo("..mov")
  {
    StemAndExtension("talk", ".mp4");
    assert "talk" + ".mp4" == "talk.mp4";
    StemAndExtension("a.b", ".mkv");
    assert "a.b" + ".mkv" == "a.b.mkv";
    StemAndExtension(".", ".mov");
    assert "." + ".mov" == "..mov";
  }

  /** Names that are not: a hidden file with no stem, an upper-case extension, another
      extension after the video one, and the output directory. */
  lemma OtherNameExamples()
    ensures !IsVideo(".mp4") && !IsVideo("talk.MP4") && !IsVideo("talk.mp4.txt")
  {
    IsVideoIff(".mp4");
    IsVideoIff("talk.MP4");
    assert "talk.MP4"[4..] == ".MP4";
    IsVideoIff("talk.mp4.txt");
    assert "talk.mp4.txt"[8..] == ".txt";
  }

  /** The output directory is never taken for a video, so a second run skips it. */
  lemma OutputDirIsNotVideo()
    ensures !IsVideo(OutputDirName)
  {
    IsVideoIff(OutputDirName);
    assert OutputDirName[6..] == "ence";
  }

  /** A directory with two videos and a text file gives two jobs, in listing order. */
  lemma ListingExample(dir: Path)
    ensures VideoJobs(dir, ["a.mp4", "notes.txt", "b.mov"]) ==
            [Job(dir + ["a.mp4"], dir + ["no_silence", "a.mp4"]),
             Job(dir + ["b.mov"], dir + ["no_silence", "b.mov"])]
  {
    var entries: seq<Name> := ["a.mp4", "notes.txt", "b.mov"];
    StemAndExtension("a", ".mp4");
    assert "a" + ".mp4" == "a.mp4";
    StemAndExtension("b", ".mov");
    assert "b" + ".mov" == "b.mov";
    IsVideoIff("notes.txt");
    assert "notes.txt"[5..] == ".txt";
    assert entries[..2] == ["a.mp4", "notes.txt"];
    assert entries[..2][..1] == ["a.mp4"];
    assert ["a.mp4"][..0] == [];
  }
}
