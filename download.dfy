/**
 * The producer side of the audio pipeline: batching the channel's video
 * list, the gate that keeps live streams and already processed videos out,
 * the `<YYYY-MM-DD>_<title>` naming of a download, the catalog filter, the
 * retry loop of one download and the order of the clean-up phases.
 */
module Download {
  import opened Text
  import opened FileTree
  import opened Catalog
  import StageGC
  import Fullwidth
  import Reconcile
  import ColonMerge

  /** One entry of the channel's video list, as the YouTube Data API returns it. */
  datatype VideoInfo = VideoInfo(url: string, id: string, title: string, publishedAt: string)

  // ---------------------------------------------------------------------
  // chunked_iterable

  /** The concatenation of a sequence of chunks. */
  function Flatten<T>(cs: seq<seq<T>>): seq<T>
    decreases |cs|
  {
    if cs == [] then [] else cs[0] + Flatten(cs[1..])
  }

  /** The chunks `chunked_iterable(xs, size)` yields, in order. */
  function Chunks<T>(xs: seq<T>, size: nat): seq<seq<T>>
    decreases |xs|
  {
    if size == 0 || xs == [] then []
    else if |xs| <= size then [xs]
    else [xs[..size]] + Chunks(xs[size..], size)
  }

  /**
   * With a positive size the chunks are non-empty, all but the last hold
   * exactly `size` items, none holds more, and together they are the input
   * in order; with size 0 nothing is yielded.
   */
  lemma {:induction false} ChunksSpec<T>(xs: seq<T>, size: nat)
    ensures var cs := Chunks(xs, size);
      (size == 0 ==> cs == []) &&
      (size >= 1 ==> Flatten(cs) == xs) &&
      (forall k :: 0 <= k < |cs| ==> 1 <= |cs[k]| <= size) &&
      (forall k :: 0 <= k < |cs| - 1 ==> |cs[k]| == size)
    decreases |xs|
  {
    if size >= 1 && |xs| > size {
      var rest := Chunks(xs[size..], size);
      ChunksSpec(xs[size..], size);
      var cs := Chunks(xs, size);
      assert cs[1..] == rest;
      assert xs == xs[..size] + xs[size..];
      forall k | 0 <= k < |cs| ensures 1 <= |cs[k]| <= size {
        if k > 0 {
          assert cs[k] == rest[k - 1];
        }
      }
      forall k | 0 <= k < |cs| - 1 ensures |cs[k]| == size {
        if k > 0 {
          assert cs[k] == rest[k - 1];
        }
      }
    } else if size >= 1 && xs != [] {
      assert Flatten([xs]) == xs + Flatten<T>([]);
    }
  }

  /** The generator loop of `chunked_iterable`, collecting what it yields. */
  method ChunkedIterable<T>(xs: seq<T>, size: nat) returns (chunks: seq<seq<T>>)
    ensures chunks == Chunks(xs, size)
  {
    chunks := [];
    var i := 0;
    while true
      invariant 0 <= i <= |xs|
      invariant chunks + Chunks(xs[i..], size) == Chunks(xs, size)
      decreases |xs| - i
    {
      var chunk := if i + size <= |xs| then xs[i..i + size] else xs[i..];
      if chunk == [] {
        assert size == 0 || xs[i..] == [];
        assert chunks == Chunks(xs, size);
        return;
      }
      assert Chunks(xs[i..], size) == [chunk] + Chunks(xs[i + |chunk|..], size) by {
        if |xs[i..]| > size {
          assert chunk == xs[i..][..size];
          assert xs[i..][size..] == xs[i + size..];
        } else {
          assert chunk == xs[i..];
          assert xs[i + |chunk|..] == [];
        }
      }
      chunks := chunks + [chunk];
      i := i + |chunk|;
    }
  }

  // ---------------------------------------------------------------------
  // video_valid_for_processing

  /** `video_title.replace('/', '_')`. */
  function NormalizedTitle(title: string): (n: string)
    ensures |n| == |title| && '/' !in n
    ensures forall i :: 0 <= i < |title| && title[i] != '/' ==> n[i] == title[i]
  {
    MapChar(title, '/', '_')
  }

  /** The words that mark a live stream, in the order the gate tries them. */
  const LiveWords: seq<string> := ["livestream", "live stream", "live"]

  /** The lower-cased normalised title contains one of the live-stream words. */
  predicate IsLive(title: string) {
    exists w :: w in LiveWords && Contains(ToLower(NormalizedTitle(title)), w)
  }

  /** The denylist is exactly the word `live`: the two longer words begin with it. */
  lemma LiveIffContainsLive(title: string)
    ensures IsLive(title) <==> Contains(ToLower(NormalizedTitle(title)), "live")
  {
    var s := ToLower(NormalizedTitle(title));
    assert "live" in LiveWords;
    forall w | w in LiveWords && Contains(s, w) ensures Contains(s, "live") {
      ContainsIffOccurs(s, w);
      var i :| OccursAt(s, w, i);
      assert s[i..i + 4] == s[i..i + |w|][..4] == w[..4] == "live";
      ContainsAt(s, "live", i);
    }
  }

  /** A name ending with one of the four suffixes a processed video leaves behind. */
  predicate StageArtifact(f: Name) {
    EndsWith(f, ".mp3") || EndsWith(f, "_diarized_content.json") ||
    EndsWith(f, "_diarized_content_processed_diarized.txt") || EndsWith(f, "_content_processed_diarized.txt")
  }

  /** The processed-transcript suffix is subsumed by the shorter `_content_processed_diarized.txt`. */
  lemma TranscriptSuffixSubsumed(f: Name)
    ensures EndsWith(f, "_diarized_content_processed_diarized.txt") ==> EndsWith(f, "_content_processed_diarized.txt")
  {
    var long := "_diarized_content_processed_diarized.txt";
    var short := "_content_processed_diarized.txt";
    assert long[|long| - |short|..] == short;
    if EndsWith(f, long) {
      assert f[|f| - |short|..] == f[|f| - |long|..][|long| - |short|..];
    }
  }

  /** Some directory the walk visits lists an artifact whose name contains the normalised title. */
  predicate AlreadyProcessed(t: Tree, walk: seq<Visit>, title: string) {
    exists k, f :: 0 <= k < |walk| && f in Children(t, walk[k].root) && Contains(f, NormalizedTitle(title)) && StageArtifact(f)
  }

  /** The verdict of `video_valid_for_processing`. */
  predicate ValidForProcessing(t: Tree, walk: seq<Visit>, title: string) {
    !IsLive(title) && !AlreadyProcessed(t, walk, title)
  }

  /** `title_exists_in_files(directory, suffix)`. */
  method TitleExistsInFiles(fs: FileSystem, dir: Path, normalized: string, suffix: string) returns (found: bool)
    ensures found <==> exists f :: f in Children(fs.entries, dir) && Contains(f, normalized) && EndsWith(f, suffix)
  {
    var rest := fs.ListDir(dir);
    ghost var names := rest;
    while rest != {}
      invariant rest <= names
      invariant forall f :: f in names && f !in rest ==> !(Contains(f, normalized) && EndsWith(f, suffix))
      decreases |rest|
    {
      var f :| f in rest;
      if Contains(f, normalized) && EndsWith(f, suffix) {
        return true;
      }
      rest := rest - {f};
    }
    return false;
  }

  /** The condition of the walk loop: `root` lists an artifact of one of the four stages whose name contains the title. */
  method StageArtifactExists(fs: FileSystem, root: Path, normalized: string) returns (found: bool)
    ensures found <==> exists f :: f in Children(fs.entries, root) && Contains(f, normalized) && StageArtifact(f)
  {
    var mp3 := TitleExistsInFiles(fs, root, normalized, ".mp3");
    var json := TitleExistsInFiles(fs, root, normalized, "_diarized_content.json");
    var processed := TitleExistsInFiles(fs, root, normalized, "_diarized_content_processed_diarized.txt");
    var content := TitleExistsInFiles(fs, root, normalized, "_content_processed_diarized.txt");
    found := mp3 || json || processed || content;
  }

  /** `video_valid_for_processing(channel_name, video_title, dir_path)`, given the visits of `os.walk(dir_path)`. */
  method VideoValidForProcessing(fs: FileSystem, walk: seq<Visit>, title: string) returns (valid: bool)
    ensures valid == ValidForProcessing(fs.entries, walk, title)
  {
    var live := LiveTitle(title);
    if live {
      return false;
    }
    var processed := ProcessedInWalk(fs, walk, title);
    return !processed;
  }

  /** The live-stream gate: the denylist words are tried in order on the lower-cased title. */
  method LiveTitle(title: string) returns (live: bool)
    ensures live == IsLive(title)
  {
    var lowered := ToLower(NormalizedTitle(title));
    for j := 0 to |LiveWords|
      invariant forall w :: w in LiveWords[..j] ==> !Contains(lowered, w)
    {
      if Contains(lowered, LiveWords[j]) {
        assert LiveWords[j] in LiveWords;
        return true;
      }
    }
    assert LiveWords[..|LiveWords|] == LiveWords;
    return false;
  }

  /** The walk loop of the gate: some visited directory already holds a stage artifact of the title. */
  method ProcessedInWalk(fs: FileSystem, walk: seq<Visit>, title: string) returns (processed: bool)
    ensures processed == AlreadyProcessed(fs.entries, walk, title)
  {
    var normalized := NormalizedTitle(title);
    for k := 0 to |walk|
      invariant forall k', f :: 0 <= k' < k && f in Children(fs.entries, walk[k'].root) && Contains(f, normalized) ==> !StageArtifact(f)
    {
      var found := StageArtifactExists(fs, walk[k].root, normalized);
      if found {
        return true;
      }
    }
    return false;
  }

  // ---------------------------------------------------------------------
  // prepare_download_info

  /** `publishedAt.replace(':', '-').replace('.', '-')[:10]`. */
  function DatePrefix(publishedAt: string): (p: string)
    ensures |p| == if |publishedAt| < 10 then |publishedAt| else 10
    ensures ':' !in p && '.' !in p
    ensures forall i :: 0 <= i < |p| && publishedAt[i] != ':' && publishedAt[i] != '.' ==> p[i] == publishedAt[i]
  {
    var s := MapChar(MapChar(publishedAt, ':', '-'), '.', '-');
    if |s| <= 10 then s else s[..10]
  }

  /** `YYYY-MM-DD`: four digits, a dash, two digits, a dash, two digits. */
  predicate IsDateStamp(s: string) {
    |s| == 10 && s[4] == '-' && s[7] == '-' &&
    forall i :: 0 <= i < 10 && i != 4 && i != 7 ==> IsDigit(s[i])
  }

  /** An ISO 8601 timestamp such as `2023-12-30T10:00:00Z` yields its calendar date. */
  lemma DatePrefixOfTimestamp(publishedAt: string)
    requires |publishedAt| >= 10 && IsDateStamp(publishedAt[..10])
    ensures DatePrefix(publishedAt) == publishedAt[..10]
  {
    var p := DatePrefix(publishedAt);
    forall i | 0 <= i < 10 ensures p[i] == publishedAt[i] {
      assert publishedAt[..10][i] == publishedAt[i];
    }
  }

  /** The `<date>_<title>` name of a download's directory and, with `.mp3`, of its audio file. */
  function DownloadName(publishedAt: string, title: string): (d: string)
    ensures |d| == |DatePrefix(publishedAt)| + 1 + |title|
    ensures d[..|DatePrefix(publishedAt)|] == DatePrefix(publishedAt)
    ensures OccursAt(d, title, |DatePrefix(publishedAt)| + 1)
  {
    var d := DatePrefix(publishedAt) + "_" + title;
    assert d[|DatePrefix(publishedAt)| + 1..] == title;
    d
  }

  /**
   * `prepare_download_info(video_info, dir_path, video_title)`: the video's
   * directory is created when missing, and the output template and the audio
   * path inside it are returned.
   */
  method PrepareDownloadInfo(fs: FileSystem, info: VideoInfo, dir: Path, title: string) returns (outtmpl: Path, audio: Path)
    modifies fs
    ensures var d := DownloadName(info.publishedAt, title);
      audio == dir + [d, d + ".mp3"] && outtmpl == dir + [d, d + ".%(ext)s"]
    ensures var videoDir := dir + [DownloadName(info.publishedAt, title)];
      fs.entries == if videoDir in old(fs.entries) then old(fs.entries) else WithDirs(old(fs.entries), videoDir)
  {
    var d := DownloadName(info.publishedAt, title);
    var videoDir := dir + [d];
    if !fs.Exists(videoDir) {
      fs.MakeDirs(videoDir);
    }
    audio := videoDir + [d + ".mp3"];
    outtmpl := videoDir + [d + ".%(ext)s"];
  }

  /**
   * The batch download saves a video's audio as `<title>.mp3` in the channel
   * directory. Once that file sits in a directory the gate walks, the video
   * is no longer valid for processing.
   */
  lemma DownloadedAudioBlocksRedownload(t: Tree, walk: seq<Visit>, k: int, title: string)
    requires 0 <= k < |walk| && '/' !in title
    requires walk[k].root + [title + ".mp3"] in t
    ensures !ValidForProcessing(t, walk, title)
  {
    var f := title + ".mp3";
    assert NormalizedTitle(title) == title;
    assert f in Children(t, walk[k].root);
    assert OccursAt(f, title, 0) by {
      assert f[0..|title|] == title;
    }
    ContainsAt(f, title, 0);
    assert f[|f| - 4..] == ".mp3";
  }

  /**
   * After the mp3 pass has moved the audio to `<date>_<title>/<date>_<title>.mp3`,
   * the gate still refuses the video once it walks that directory.
   */
  lemma MovedAudioBlocksRedownload(t: Tree, walk: seq<Visit>, k: int, date: string, title: string)
    requires 0 <= k < |walk| && '/' !in title
    requires walk[k].root + [date + "_" + title + ".mp3"] in t
    ensures !ValidForProcessing(t, walk, title)
  {
    var f := date + "_" + title + ".mp3";
    assert NormalizedTitle(title) == title;
    assert f in Children(t, walk[k].root);
    assert OccursAt(f, title, |date| + 1) by {
      assert f[|date| + 1..|date| + 1 + |title|] == title;
    }
    ContainsAt(f, title, |date| + 1);
    assert f[|f| - 4..] == ".mp3";
  }

  /** The audio file of a prepared download already sits where the mp3 reconciliation puts it, so that pass leaves it alone. */
  lemma DownloadedAudioIsPlaced(catalog: seq<Video>, baseName: Name, t: Tree, dir: Path, publishedAt: string, title: string)
    requires TidyTitle(DownloadName(publishedAt, title))
    ensures var d := DownloadName(publishedAt, title);
      var x := Reconcile.Artifact(dir + [d, d + ".mp3"], Reconcile.RecoveredTitle(Reconcile.Audio, d + ".mp3"));
      Reconcile.PlanAsWritten(Reconcile.Audio, catalog, baseName, t, x).AlreadyPlaced?
  {
    var d := DownloadName(publishedAt, title);
    assert Reconcile.PlacedName(Reconcile.Audio, d) == d + ".mp3";
    Reconcile.PlacedFileIsSkipped(Reconcile.Audio, catalog, baseName, t, dir, d);
  }

  /**
   * The batch download saves each video as `<dir>/<title>.mp3`, with no date
   * prefix. When that title is a tidy catalog title and `dir` is not named
   * after it, the mp3 pass moves the file into `<date>_<title>/<date>_<title>.mp3`
   * beside it, with the date of a catalog row.
   */
  lemma DownloadedAudioIsMoved(rows: seq<Video>, baseName: Name, t: Tree, dir: Path, title: string)
    requires title != [] && TidyTitle(title) && title in Titles(rows)
    requires Reconcile.ContainingDir(dir + [title + ".mp3"], baseName) != title
    ensures var x := Reconcile.Artifact(dir + [title + ".mp3"], Reconcile.RecoveredTitle(Reconcile.Audio, title + ".mp3"));
      var a := Reconcile.PlanAsWritten(Reconcile.Audio, rows, baseName, t, x);
      a.Move? &&
      (exists row :: row in rows &&
        a.newDir == dir + [row.publishedDate + "_" + title] && a.dst == a.newDir + [row.publishedDate + "_" + title + ".mp3"])
  {
    var p := dir + [title + ".mp3"];
    Mp3TitleRoundTrip(title);
    assert Reconcile.RecoveredTitle(Reconcile.Audio, title + ".mp3") == title;
    ExactTitleMatchesPrefix(title, Titles(rows));
    assert p[..|p| - 1] == dir;
    var a := Reconcile.PlanAsWritten(Reconcile.Audio, rows, baseName, t, Reconcile.Artifact(p, title));
    var row := FirstWithTitle(rows, BestMatch(title, Titles(rows)));
    assert row.Some?;
    assert a.newDir == dir + [row.value.publishedDate + "_" + title];
  }

  // ---------------------------------------------------------------------
  // filter_videos_in_dataframe

  /** The catalog of known videos, whose title column the filter rewrites in place. */
  class VideoTable {
    var rows: seq<Video>

    constructor (rows: seq<Video>)
      ensures this.rows == rows
    {
      this.rows := rows;
    }
  }

  /** The titles of the API's video list. */
  function InfoTitles(infos: seq<VideoInfo>): (ts: seq<string>)
    ensures |ts| == |infos| && forall i :: 0 <= i < |infos| ==> ts[i] == infos[i].title
  {
    seq(|infos|, i requires 0 <= i < |infos| => infos[i].title)
  }

  /** The rows whose title is one of `titles`, in catalog order. */
  function SelectByTitle(rows: seq<Video>, titles: seq<string>): (sel: seq<Video>)
    ensures |sel| <= |rows|
    ensures forall v :: v in sel <==> v in rows && v.title in titles
    decreases |rows|
  {
    if rows == [] then []
    else
      var init := SelectByTitle(rows[..|rows| - 1], titles);
      var last := rows[|rows| - 1];
      assert forall v :: v in rows <==> v in rows[..|rows| - 1] || v == last;
      if last.title in titles then init + [last] else init
  }

  /** Selection keeps catalog order: selecting from two parts is concatenating the two selections. */
  lemma {:induction false} SelectByTitleAppend(a: seq<Video>, b: seq<Video>, titles: seq<string>)
    ensures SelectByTitle(a + b, titles) == SelectByTitle(a, titles) + SelectByTitle(b, titles)
    decreases |b|
  {
    if b == [] {
      assert a + b == a;
    } else {
      var ab := a + b;
      assert ab[..|ab| - 1] == a + b[..|b| - 1];
      assert ab[|ab| - 1] == b[|b| - 1];
      SelectByTitleAppend(a, b[..|b| - 1], titles);
    }
  }

  /**
   * `filter_videos_in_dataframe(video_info_list, youtube_videos_df)`: the
   * titles of the table are normalised in place, and the rows whose
   * normalised title is one of the API's titles are returned in table order.
   */
  method FilterVideosInDataframe(infos: seq<VideoInfo>, table: VideoTable) returns (selected: seq<Video>)
    modifies table
    ensures table.rows == NormalizeCatalog(old(table.rows))
    ensures selected == SelectByTitle(table.rows, InfoTitles(infos))
  {
    table.rows := NormalizeCatalog(table.rows);
    var titles := InfoTitles(infos);
    selected := [];
    for i := 0 to |table.rows|
      invariant selected == SelectByTitle(table.rows[..i], titles)
    {
      assert table.rows[..i + 1][..i] == table.rows[..i];
      if table.rows[i].title in titles {
        selected := selected + [table.rows[i]];
      }
    }
    assert table.rows[..|table.rows|] == table.rows;
  }

  // ---------------------------------------------------------------------
  // download_video

  /**
   * `download_video(url, ydl_opts, retries)`, where `succeeds(i)` is the
   * outcome of attempt `i`: attempts are made while retries are left and
   * stop at the first success.
   */
  method DownloadVideo(succeeds: nat -> bool, retries: int) returns (attempts: nat, downloaded: bool)
    ensures downloaded <==> exists i :: 0 <= i < retries && succeeds(i)
    ensures downloaded ==> 1 <= attempts <= retries && succeeds(attempts - 1)
    ensures forall i :: 0 <= i < attempts - 1 ==> !succeeds(i)
    ensures !downloaded ==> attempts == (if retries > 0 then retries else 0)
  {
    attempts := 0;
    downloaded := false;
    var left := retries;
    while left > 0
      invariant left == retries - attempts
      invariant retries <= 0 ==> attempts == 0
      invariant retries > 0 ==> left >= 0
      invariant forall i :: 0 <= i < attempts ==> !succeeds(i)
      decreases left
    {
      attempts := attempts + 1;
      if succeeds(attempts - 1) {
        downloaded := true;
        break;
      }
      left := left - 1;
    }
  }

  // ---------------------------------------------------------------------
  // clean_mp3s and run

  /** The visits each clean-up phase's own `os.walk` makes of the tree as that phase finds it. */
  datatype Walks = Walks(gc: seq<Visit>, fullwidth: seq<Visit>, mp3: seq<Visit>, merge: seq<Visit>)

  /** The tree after `clean_mp3s`: mp3 garbage collection, full-width clean-up, mp3 reconciliation, colon merge. */
  function CleanedMp3s(t: Tree, catalog: seq<Video>, baseName: Name, w: Walks): Tree {
    var collected := StageGC.Collected(t, StageGC.Subdirs(w.gc));
    var cleaned := Fullwidth.CleanWalk(collected, w.fullwidth);
    var placed := Reconcile.MoveRemaining(Reconcile.Audio, catalog, baseName, cleaned, w.mp3);
    ColonMerge.MergeDirectoriesSpec(placed, w.merge).0
  }

  /** `clean_mp3s()`: the four maintenance passes over the content directory, in this order. */
  method CleanMp3s(fs: FileSystem, catalog: seq<Video>, baseName: Name, w: Walks)
    modifies fs
    ensures fs.entries == CleanedMp3s(old(fs.entries), catalog, baseName, w)
  {
    StageGC.DeleteMp3IfTextOrJsonExists(fs, w.gc);
    Fullwidth.CleanFullwidthCharacters(fs, w.fullwidth);
    Reconcile.MoveRemainingToSubdirs(fs, Reconcile.Audio, catalog, baseName, w.mp3);
    var _ := ColonMerge.MergeDirectories(fs, w.merge);
  }

  /**
   * `run(...)`: the tree is cleaned, the downloads add their files, and the
   * tree is cleaned again.
   */
  method Run(fs: FileSystem, catalog: seq<Video>, baseName: Name, before: Walks, downloaded: Tree, after: Walks)
    modifies fs
    ensures fs.entries == CleanedMp3s(CleanedMp3s(old(fs.entries), catalog, baseName, before) + downloaded, catalog, baseName, after)
  {
    CleanMp3s(fs, catalog, baseName, before);
    fs.entries := fs.entries + downloaded;
    CleanMp3s(fs, catalog, baseName, after);
  }
}
