/** `processAllVideos` and `downloadAudio` (youtubeAudioDownloader.ts),
    without the process they start. Each record becomes one download job:
    the output file is `downloaded_audio/<title>_<date>.mp3`, both parts
    sanitised, and the date falls back to the current time in milliseconds
    when the record has none. The command handed to the shell quotes the
    output path and appends the url. Jobs run one after the other; a failed
    download is caught and the loop moves on. */
module Download {
  import opened Wrappers
  import opened Strings
  import opened Content
  import opened Sanitize

  /** `path.join("./downloaded_audio", name)` with the POSIX `path`
      module normalises the leading `./` away, giving
      `downloaded_audio/name`. */
  const OutputDir := "downloaded_audio"
  const Extension := ".mp3"
  /** Everything of the yt-dlp command before the output path. */
  const CommandHead := "yt-dlp -x --audio-format mp3 -o \""

  datatype Job = Job(url: string, title: string, outputPath: string, command: string)

  /** `video.uploadDate || new Date().getTime().toString()`: an absent or
      empty date is replaced by the clock reading `now`. */
  function DateLabel(uploadDate: Option<string>, now: nat): (d: string)
    ensures d != ""
    ensures uploadDate.Some? && uploadDate.value != "" ==> d == uploadDate.value
    ensures uploadDate.None? || uploadDate.value == "" ==> forall i :: 0 <= i < |d| ==> IsDigit(d[i])
  {
    if uploadDate.Some? && uploadDate.value != "" then uploadDate.value else NatToString(now)
  }

  function FileName(title: string, date: string): string {
    SanitizeFilename(title) + "_" + SanitizeFilename(date) + Extension
  }

  function OutputPath(title: string, date: string): string {
    OutputDir + "/" + FileName(title, date)
  }

  function Command(outputPath: string, url: string): string {
    CommandHead + outputPath + "\" " + url
  }

  function MakeJob(video: ScrapedContent, now: nat): (job: Job)
    ensures job.url == video.url && job.title == video.title
    ensures job.outputPath == OutputPath(video.title, DateLabel(video.uploadDate, now))
    ensures job.command == Command(job.outputPath, video.url)
  {
    var path := OutputPath(video.title, DateLabel(video.uploadDate, now));
    Job(video.url, video.title, path, Command(path, video.url))
  }

  /** The jobs of `processAllVideos`, in input order; the clock is read once
      per record, `clock(i)` being the reading while record `i` is handled. */
  function Plan(videos: seq<ScrapedContent>, clock: nat -> nat): (jobs: seq<Job>)
    ensures |jobs| == |videos|
    ensures forall i :: 0 <= i < |videos| ==> jobs[i].url == videos[i].url && jobs[i].title == videos[i].title
    // record `i`'s file is named after its own title and date
    ensures forall i :: 0 <= i < |videos| ==>
              && jobs[i].outputPath == OutputPath(videos[i].title, DateLabel(videos[i].uploadDate, clock(i)))
              && jobs[i].command == Command(jobs[i].outputPath, videos[i].url)
  {
    var jobs := seq(|videos|, i requires 0 <= i < |videos| => MakeJob(videos[i], clock(i)));
    assert forall i :: 0 <= i < |videos| ==> jobs[i] == MakeJob(videos[i], clock(i));
    jobs
  }

  /** The output paths of the jobs whose download succeeded according to
      `succeeds`, in job order: the files written to disk. `downloadAudio`
      resolves with this path, and `processAllVideos` discards it; a failure
      is caught and the remaining jobs still run. */
  function Completed(jobs: seq<Job>, succeeds: Job -> bool): (done: seq<string>)
    ensures |done| <= |jobs|
  {
    if jobs == [] then []
    else (if succeeds(jobs[0]) then [jobs[0].outputPath] else []) + Completed(jobs[1..], succeeds)
  }

  // ---------------------------------------------------------------------
  // The output path.

  /** Characters allowed in a file name part. */
  predicate Plain(s: string) {
    forall k :: 0 <= k < |s| ==> s[k] != '/' && s[k] != '"' && !IsJsSpace(s[k])
  }

  lemma SanitizedIsPlain(s: string)
    ensures Plain(SanitizeFilename(s))
  {
    SanitizeShape(s);
    var t := SanitizeFilename(s);
    forall k | 0 <= k < |t| ensures t[k] != '/' && t[k] != '"' && !IsJsSpace(t[k]) {
      assert !IsForbidden(t[k]);
    }
  }

  lemma JoinPlain(a: string, b: string)
    requires Plain(a) && Plain(b)
    ensures Plain(a + b)
  {
    forall k | 0 <= k < |a + b| ensures (a + b)[k] != '/' && (a + b)[k] != '"' && !IsJsSpace((a + b)[k]) {
      if k < |a| {
        assert (a + b)[k] == a[k];
      } else {
        assert (a + b)[k] == b[k - |a|];
      }
    }
  }

  /** Joining two plain parts with `_` and the extension. */
  lemma JoinParts(a: string, b: string)
    requires Plain(a) && Plain(b)
    ensures var f := a + "_" + b + Extension;
            && f[|f| - |Extension|..] == Extension
            && Plain(f)
  {
    assert Plain("_") && Plain(Extension);
    JoinPlain(a, "_");
    JoinPlain(a + "_", b);
    JoinPlain(a + "_" + b, Extension);
  }

  /** No file name contains `/`, `"` or whitespace, and each ends in
      `.mp3`. */
  lemma FileNameShape(title: string, date: string)
    ensures var f := FileName(title, date);
            && |f| >= |Extension|
            && f[|f| - |Extension|..] == Extension
            && Plain(f)
  {
    SanitizedIsPlain(title);
    SanitizedIsPlain(date);
    JoinParts(SanitizeFilename(title), SanitizeFilename(date));
  }

  /** Placing a plain file name under the output directory. */
  lemma InOutputDir(f: string)
    requires Plain(f) && |f| >= |Extension| && f[|f| - |Extension|..] == Extension
    ensures var p := OutputDir + "/" + f;
            && p[..|OutputDir| + 1] == OutputDir + "/"
            && p[|p| - |Extension|..] == Extension
            && (forall k :: 0 <= k < |p| ==> (p[k] == '/' <==> k == |OutputDir|))
            && (forall k :: 0 <= k < |p| ==> p[k] != '"')
  {
    var p := OutputDir + "/" + f;
    assert p[|p| - |Extension|..] == f[|f| - |Extension|..];
    forall k | 0 <= k < |p| ensures (p[k] == '/' <==> k == |OutputDir|) && p[k] != '"' {
      if k < |OutputDir| {
        assert p[k] == OutputDir[k];
      } else if k > |OutputDir| {
        assert p[k] == f[k - |OutputDir| - 1];
      }
    }
  }

  /** Every file lands directly inside the output directory: the only `/`
      of the path is the one after the directory name, the path holds no
      `"`, and it ends in `.mp3`. */
  lemma OutputPathShape(title: string, date: string)
    ensures var p := OutputPath(title, date);
            && p[..|OutputDir| + 1] == OutputDir + "/"
            && p[|p| - |Extension|..] == Extension
            && (forall k :: 0 <= k < |p| ==> (p[k] == '/' <==> k == |OutputDir|))
            && (forall k :: 0 <= k < |p| ==> p[k] != '"')
  {
    FileNameShape(title, date);
    InOutputDir(FileName(title, date));
  }

  lemma DigitsClean(d: string)
    requires forall i :: 0 <= i < |d| ==> IsDigit(d[i])
    ensures NoForbidden(d) && NoSpace(d)
  {
    forall i | 0 <= i < |d| ensures !IsForbidden(d[i]) && !IsJsSpace(d[i]) {
      assert IsDigit(d[i]);
    }
  }

  /** With no usable upload date the file is named after the clock
      reading, digits unchanged by sanitising. */
  lemma DateFallback(title: string, uploadDate: Option<string>, now: nat)
    requires uploadDate.None? || uploadDate.value == ""
    ensures FileName(title, DateLabel(uploadDate, now))
            == SanitizeFilename(title) + "_" + NatToString(now) + Extension
  {
    var d := NatToString(now);
    assert DateLabel(uploadDate, now) == d;
    DigitsClean(d);
    PathWithCleanDate(title, d);
  }

  /** A date free of forbidden characters and whitespace appears verbatim. */
  lemma PathWithCleanDate(title: string, date: string)
    requires NoForbidden(date) && NoSpace(date)
    ensures FileName(title, date) == SanitizeFilename(title) + "_" + date + Extension
  {
    SanitizeClean(date);
  }

  // ---------------------------------------------------------------------
  // The command.

  /** A path free of `"` is exactly the quoted argument of its command. */
  lemma QuotedArgument(p: string, url: string)
    requires forall k :: 0 <= k < |p| ==> p[k] != '"'
    ensures var c := Command(p, url);
            && |c| >= |CommandHead| && c[..|CommandHead|] == CommandHead
            && IndexOf(c[|CommandHead|..], "\"") == Some(|p|)
  {
    var c := Command(p, url);
    var rest := c[|CommandHead|..];
    assert rest == p + "\" " + url;
    assert rest[|p|..|p| + 1] == "\"";
    assert OccursAt(rest, "\"", |p|);
    forall k | 0 <= k < |p| ensures !OccursAt(rest, "\"", k) {
      assert rest[k..k + 1][0] == p[k];
    }
    assert FirstOccurrence(rest, "\"", |p|);
  }

  /** The quoted argument of the command is exactly the output path: the
      first `"` after the opening one closes it, since no output path holds
      a `"`. */
  lemma CommandQuotesPath(title: string, date: string, url: string)
    ensures var p := OutputPath(title, date);
            var c := Command(p, url);
            && |c| >= |CommandHead| && c[..|CommandHead|] == CommandHead
            && IndexOf(c[|CommandHead|..], "\"") == Some(|p|)
  {
    OutputPathShape(title, date);
    QuotedArgument(OutputPath(title, date), url);
  }

  /** Every planned job writes its own file inside the output directory,
      under a properly quoted argument. */
  lemma PlanJobsShape(videos: seq<ScrapedContent>, clock: nat -> nat)
    ensures var jobs := Plan(videos, clock);
            forall i :: 0 <= i < |jobs| ==>
              && |jobs[i].outputPath| > |OutputDir|
              && jobs[i].outputPath[..|OutputDir| + 1] == OutputDir + "/"
              && |jobs[i].command| >= |CommandHead|
              && IndexOf(jobs[i].command[|CommandHead|..], "\"") == Some(|jobs[i].outputPath|)
  {
    var jobs := Plan(videos, clock);
    forall i | 0 <= i < |jobs|
      ensures && |jobs[i].outputPath| > |OutputDir|
              && jobs[i].outputPath[..|OutputDir| + 1] == OutputDir + "/"
              && |jobs[i].command| >= |CommandHead|
              && IndexOf(jobs[i].command[|CommandHead|..], "\"") == Some(|jobs[i].outputPath|)
    {
      var d := DateLabel(videos[i].uploadDate, clock(i));
      assert jobs[i] == MakeJob(videos[i], clock(i));
      OutputPathShape(videos[i].title, d);
      CommandQuotesPath(videos[i].title, d, videos[i].url);
    }
  }

  // ---------------------------------------------------------------------
  // Running the jobs.

  /** A job's file is downloaded exactly when some job with that path
      succeeded: a failed job does not stop the ones after it. */
  lemma {:induction false} CompletedExactly(jobs: seq<Job>, succeeds: Job -> bool, path: string)
    ensures path in Completed(jobs, succeeds)
            <==> exists k :: 0 <= k < |jobs| && succeeds(jobs[k]) && jobs[k].outputPath == path
  {
    if jobs != [] {
      CompletedExactly(jobs[1..], succeeds, path);
      if exists k :: 0 <= k < |jobs| && succeeds(jobs[k]) && jobs[k].outputPath == path {
        var k :| 0 <= k < |jobs| && succeeds(jobs[k]) && jobs[k].outputPath == path;
        if k > 0 {
          assert jobs[1..][k - 1] == jobs[k];
        }
      }
      if path in Completed(jobs[1..], succeeds) {
        var k :| 0 <= k < |jobs| - 1 && succeeds(jobs[1..][k]) && jobs[1..][k].outputPath == path;
        assert jobs[k + 1] == jobs[1..][k];
      }
    }
  }

  /** When every download succeeds, every planned file is downloaded, in
      order. */
  lemma {:induction false} AllSucceed(jobs: seq<Job>, succeeds: Job -> bool)
    requires forall k :: 0 <= k < |jobs| ==> succeeds(jobs[k])
    ensures Completed(jobs, succeeds) == seq(|jobs|, k requires 0 <= k < |jobs| => jobs[k].outputPath)
  {
    if jobs != [] {
      AllSucceed(jobs[1..], succeeds);
    }
  }
}
