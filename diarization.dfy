/**
 * Speaker diarisation of the downloaded audio: which audio files are sent to
 * the transcription service, how they are shared among the API keys, and the
 * `<stem>_diarized_content.json` file each transcription leaves beside its
 * audio. The service itself is a parameter: it returns the JSON text to
 * write, or nothing.
 */
module Diarization {
  import opened Wrappers
  import opened Text
  import opened FileTree
  import Transcripts
  import Download

  // ---------------------------------------------------------------------
  // is_valid_filename

  /** `re.match(r'^\d{4}-\d{2}-\d{2}_', name)`: the name starts with a date stamp and an underscore. */
  predicate IsValidFilename(name: Name) {
    |name| >= 11 && Download.IsDateStamp(name[..10]) && name[10] == '_'
  }

  /** An audio file the run sends off: an `.mp3` whose name starts with a date stamp. */
  predicate Selected(name: Name) {
    EndsWith(name, ".mp3") && IsValidFilename(name)
  }

  /**
   * The audio file of a download, `<date>_<title>.mp3`, has a valid name
   * exactly when the date part cut from the publication time is a date stamp.
   */
  lemma DownloadNameValid(publishedAt: string, title: string)
    ensures IsValidFilename(Download.DownloadName(publishedAt, title) + ".mp3") <==> Download.IsDateStamp(Download.DatePrefix(publishedAt))
  {
    var p := Download.DatePrefix(publishedAt);
    var name := Download.DownloadName(publishedAt, title) + ".mp3";
    assert name[..|p|] == p;
    assert name[|p|] == '_';
    if |p| == 10 {
      assert name[..10] == p;
    } else if |name| >= 11 {
      assert name[..10][|p|] == '_';
    }
  }

  /** In particular a video published at an ISO 8601 time such as `2023-12-30T10:00:00Z` is selected. */
  lemma DownloadedAudioSelected(publishedAt: string, title: string)
    requires |publishedAt| >= 10 && Download.IsDateStamp(publishedAt[..10])
    ensures Selected(Download.DownloadName(publishedAt, title) + ".mp3")
  {
    Download.DatePrefixOfTimestamp(publishedAt);
    DownloadNameValid(publishedAt, title);
  }

  // ---------------------------------------------------------------------
  // main: the audio files found by the walk

  /** The selected files of one directory listing, as paths, in listing order. */
  function Mp3sIn(root: Path, files: seq<Name>): seq<Path>
    decreases |files|
  {
    if files == [] then []
    else
      var f := files[|files| - 1];
      Mp3sIn(root, files[..|files| - 1]) + (if Selected(f) then [root + [f]] else [])
  }

  /** `[os.path.join(root, file) for root, _, files in os.walk(data_path) for file in files if ...]`. */
  function Mp3Files(walk: seq<Visit>): seq<Path>
    decreases |walk|
  {
    if walk == [] then []
    else Mp3Files(walk[..|walk| - 1]) + Mp3sIn(walk[|walk| - 1].root, walk[|walk| - 1].files)
  }

  lemma {:induction false} Mp3sInSpec(root: Path, files: seq<Name>)
    ensures forall p :: p in Mp3sIn(root, files) <==> exists f :: f in files && Selected(f) && p == root + [f]
    decreases |files|
  {
    if files != [] {
      Mp3sInSpec(root, files[..|files| - 1]);
      assert files == files[..|files| - 1] + [files[|files| - 1]];
    }
  }

  /** A walked file with a selected name, joined to its directory. */
  ghost predicate FoundIn(walk: seq<Visit>, p: Path) {
    exists k, f :: 0 <= k < |walk| && f in walk[k].files && Selected(f) && p == walk[k].root + [f]
  }

  /** The list holds exactly the walked files that are selected, each joined to its directory. */
  lemma {:induction false} Mp3FilesSpec(walk: seq<Visit>)
    ensures forall p :: p in Mp3Files(walk) <==>
      exists k, f :: 0 <= k < |walk| && f in walk[k].files && Selected(f) && p == walk[k].root + [f]
    decreases |walk|
  {
    if walk != [] {
      var init := walk[..|walk| - 1];
      var v := walk[|walk| - 1];
      Mp3FilesSpec(init);
      Mp3sInSpec(v.root, v.files);
      Mp3FilesStepSound(walk, init, v);
      Mp3FilesStepComplete(walk, init, v);
    }
  }

  lemma Mp3FilesStepSound(walk: seq<Visit>, init: seq<Visit>, v: Visit)
    requires walk != [] && init == walk[..|walk| - 1] && v == walk[|walk| - 1]
    requires forall p :: p in Mp3Files(init) ==> FoundIn(init, p)
    requires forall p :: p in Mp3sIn(v.root, v.files) ==> exists f :: f in v.files && Selected(f) && p == v.root + [f]
    ensures forall p :: p in Mp3Files(walk) ==> FoundIn(walk, p)
  {
    forall p | p in Mp3Files(walk) ensures FoundIn(walk, p) {
      if p in Mp3Files(init) {
        var k, f :| 0 <= k < |init| && f in init[k].files && Selected(f) && p == init[k].root + [f];
        assert walk[k] == init[k];
      } else {
        var f :| f in v.files && Selected(f) && p == v.root + [f];
      }
    }
  }

  lemma Mp3FilesStepComplete(walk: seq<Visit>, init: seq<Visit>, v: Visit)
    requires walk != [] && init == walk[..|walk| - 1] && v == walk[|walk| - 1]
    requires forall p :: FoundIn(init, p) ==> p in Mp3Files(init)
    requires forall f :: f in v.files && Selected(f) ==> v.root + [f] in Mp3sIn(v.root, v.files)
    ensures forall p :: FoundIn(walk, p) ==> p in Mp3Files(walk)
  {
    var whole := Mp3Files(walk);
    assert whole == Mp3Files(init) + Mp3sIn(v.root, v.files);
    forall p | FoundIn(walk, p) ensures p in whole {
      var k, f :| 0 <= k < |walk| && f in walk[k].files && Selected(f) && p == walk[k].root + [f];
      if k < |init| {
        assert init[k] == walk[k];
        assert FoundIn(init, p);
        assert p in Mp3Files(init);
      } else {
        assert walk[k] == v;
        assert p in Mp3sIn(v.root, v.files);
      }
    }
  }

  /** Every file on the list lies below the base and has a selected name. */
  lemma Mp3FilesSelected(walk: seq<Visit>)
    ensures forall p :: p in Mp3Files(walk) ==> |p| >= 1 && Selected(p[|p| - 1])
  {
    Mp3FilesSpec(walk);
    forall p | p in Mp3Files(walk) ensures |p| >= 1 && Selected(p[|p| - 1]) {
      var k, f :| 0 <= k < |walk| && f in walk[k].files && Selected(f) && p == walk[k].root + [f];
    }
  }

  // ---------------------------------------------------------------------
  // transcribe_and_save

  /** `os.path.splitext(name)[0] + "_diarized_content.json"` for the file's own name. */
  function TranscriptName(name: Name): Name {
    Transcripts.Stem(name) + "_diarized_content.json"
  }

  /** The transcript of `p` lies beside it; `splitext` on the whole path only looks at the last name. */
  function TranscriptPath(p: Path): Path
    requires |p| >= 1
  {
    p[..|p| - 1] + [TranscriptName(p[|p| - 1])]
  }

  /** Cutting the extension of `<d>.mp3` gives `d` whenever `d` is more than dots. */
  lemma StemOfAudio(d: Name)
    requires exists j :: 0 <= j < |d| && d[j] != '.'
    ensures Transcripts.Stem(d + ".mp3") == d
  {
    var name := d + ".mp3";
    assert name[|d|] == '.';
    assert forall j :: |d| < j < |name| ==> name[j] != '.';
    var j :| 0 <= j < |d| && d[j] != '.';
    assert name[j] == d[j];
    assert name[..|d|] == d;
  }

  /**
   * The audio file `<dir>/<d>.mp3` gets its transcript at `<dir>/<d>_diarized_content.json`,
   * and transcript processing turns that into `<d>_diarized_content_processed_diarized.txt`.
   */
  lemma TranscriptOfAudio(dir: Path, d: Name)
    requires exists j :: 0 <= j < |d| && d[j] != '.'
    ensures TranscriptPath(dir + [d + ".mp3"]) == dir + [d + "_diarized_content.json"]
    ensures Transcripts.OutputPath(TranscriptPath(dir + [d + ".mp3"])) == dir + [d + "_diarized_content_processed_diarized.txt"]
  {
    StemOfAudio(d);
    var p := dir + [d + ".mp3"];
    assert p[..|p| - 1] == dir && p[|p| - 1] == d + ".mp3";
    assert d + "_diarized_content.json" == d + "_diarized_content.json";
    Transcripts.OutputOfDiarization(dir, d);
  }

  /** A selected name is its stem followed by `.mp3`. */
  lemma SelectedStem(name: Name)
    requires Selected(name)
    ensures Transcripts.Stem(name) == name[..|name| - 4]
  {
    var d := name[..|name| - 4];
    assert name == d + ".mp3";
    assert d[0] == name[..10][0];
    assert Download.IsDateStamp(name[..10]);
    assert IsDigit(d[0]);
    StemOfAudio(d);
  }

  /** A transcript never lands on the file it was made from: its last dot sits 17 places further right. */
  lemma TranscriptNameDiffers(name: Name)
    ensures TranscriptName(name) != name
  {
    var s := Transcripts.Stem(name);
    var out := TranscriptName(name);
    var i := LastIndexOf(name, '.');
    if s == name {
      assert |out| > |name|;
    } else {
      assert s == name[..i];
      assert LastIndexOf(out, '.') == i + 17 by {
        assert out[i + 17] == '.';
        assert forall j :: i + 17 < j < |out| ==> out[j] != '.';
      }
    }
  }

  /** Two selected audio files never share a transcript. */
  lemma TranscriptPathInjective(p: Path, q: Path)
    requires |p| >= 1 && Selected(p[|p| - 1]) && |q| >= 1 && Selected(q[|q| - 1])
    ensures TranscriptPath(p) == TranscriptPath(q) ==> p == q
  {
    if TranscriptPath(p) == TranscriptPath(q) {
      var a, b := p[|p| - 1], q[|q| - 1];
      assert |p| == |q|;
      assert TranscriptName(a) == TranscriptName(b) by {
        assert TranscriptPath(p)[|p| - 1] == TranscriptName(a);
        assert TranscriptPath(q)[|q| - 1] == TranscriptName(b);
      }
      TranscriptNameInjective(a, b);
      assert p[..|p| - 1] == q[..|q| - 1] by {
        assert p[..|p| - 1] == TranscriptPath(p)[..|p| - 1];
        assert q[..|q| - 1] == TranscriptPath(q)[..|q| - 1];
      }
      assert p == p[..|p| - 1] + [a] && q == q[..|q| - 1] + [b];
    }
  }

  /** Two selected audio names never share a transcript name. */
  lemma TranscriptNameInjective(a: Name, b: Name)
    requires Selected(a) && Selected(b) && TranscriptName(a) == TranscriptName(b)
    ensures a == b
  {
    SelectedStem(a);
    SelectedStem(b);
    SameSuffixSamePrefix(a[..|a| - 4], b[..|b| - 4], "_diarized_content.json");
    SplitAtSuffix(a, ".mp3");
    SplitAtSuffix(b, ".mp3");
  }

  lemma SameSuffixSamePrefix(x: string, y: string, z: string)
    requires x + z == y + z
    ensures x == y
  {
    assert |x| == |y|;
    assert (x + z)[..|x|] == x && (y + z)[..|y|] == y;
  }

  lemma SplitAtSuffix(s: string, suffix: string)
    requires EndsWith(s, suffix)
    ensures s == s[..|s| - |suffix|] + suffix
  {
  }

  /** `file_path.split('/')[-3]` on the full path: the channel directory two levels above the file, if any. */
  function ChannelName(full: Path): Option<Name> {
    if |full| >= 3 then Some(full[|full| - 3]) else None
  }

  /** In the `<channel>/<video>/<file>` layout the channel is found. */
  lemma ChannelOfLayout(base: Path, channel: Name, video: Name, file: Name)
    ensures ChannelName(base + [channel, video, file]) == Some(channel)
  {
    var full := base + [channel, video, file];
    assert full[|full| - 3] == channel;
  }

  /**
   * What `transcribe_and_save` leaves on disk for the audio file `p` below
   * `base`, given what the service returns: nothing happens when the
   * transcript exists, the audio is missing, the path is too short for a
   * channel name (the `IndexError` is caught) or the service returns nothing.
   */
  function Diarized(t: Tree, base: Path, p: Path, transcript: Option<string>): Tree
    requires |p| >= 1
  {
    var out := TranscriptPath(p);
    if out in t || p !in t || ChannelName(base + p).None? || transcript.None? then t
    else t[out := File(transcript.value)]
  }

  /**
   * Only the transcript path can change; an existing transcript is never
   * overwritten; the transcript is there afterwards exactly when it was
   * before or the audio exists below a channel and the service answered;
   * and the audio file is kept as it was.
   */
  lemma DiarizedSpec(t: Tree, base: Path, p: Path, transcript: Option<string>)
    requires |p| >= 1
    ensures var t' := Diarized(t, base, p, transcript);
      (forall q :: q != TranscriptPath(p) ==> (q in t' <==> q in t) && (q in t ==> t'[q] == t[q])) &&
      (TranscriptPath(p) in t ==> t' == t) &&
      (TranscriptPath(p) in t' <==> TranscriptPath(p) in t || (p in t && |base| + |p| >= 3 && transcript.Some?)) &&
      (p in t ==> p in t' && t'[p] == t[p])
  {
    TranscriptNameDiffers(p[|p| - 1]);
    assert TranscriptPath(p)[|p| - 1] != p[|p| - 1];
  }

  /** `transcribe_and_save((key, p))`, the service's answer given as `transcript`. */
  method TranscribeAndSave(fs: FileSystem, base: Path, p: Path, transcript: Option<string>)
    requires |p| >= 1
    modifies fs
    ensures fs.entries == Diarized(old(fs.entries), base, p, transcript)
  {
    var out := p[..|p| - 1] + [Transcripts.Stem(p[|p| - 1]) + "_diarized_content.json"];
    if fs.Exists(out) {
      return;
    }
    if !fs.Exists(p) {
      return;
    }
    var segments := base + p;
    if |segments| < 3 {
      return;
    }
    if transcript.None? {
      return;
    }
    fs.Write(out, transcript.value);
  }

  // ---------------------------------------------------------------------
  // worker

  /** The files of a work list transcribed one after another, `transcribe` giving the service's answer per file. */
  function DiarizedAll(t: Tree, base: Path, files: seq<Path>, transcribe: Path -> Option<string>): Tree
    requires forall p :: p in files ==> |p| >= 1
    decreases |files|
  {
    if files == [] then t
    else
      var p := files[|files| - 1];
      Diarized(DiarizedAll(t, base, files[..|files| - 1], transcribe), base, p, transcribe(p))
  }

  lemma {:induction false} DiarizedAllAppend(t: Tree, base: Path, a: seq<Path>, b: seq<Path>, transcribe: Path -> Option<string>)
    requires forall p :: p in a + b ==> |p| >= 1
    ensures DiarizedAll(t, base, a + b, transcribe) == DiarizedAll(DiarizedAll(t, base, a, transcribe), base, b, transcribe)
    decreases |b|
  {
    if b != [] {
      var b' := b[..|b| - 1];
      assert (a + b)[..|a + b| - 1] == a + b';
      DiarizedAllAppend(t, base, a, b', transcribe);
    } else {
      assert a + b == a;
    }
  }

  /** Entries are never removed or changed by a run; only transcripts appear. */
  lemma {:induction false} DiarizedAllKeeps(t: Tree, base: Path, files: seq<Path>, transcribe: Path -> Option<string>)
    requires forall p :: p in files ==> |p| >= 1
    ensures forall q :: q in t ==> q in DiarizedAll(t, base, files, transcribe) && DiarizedAll(t, base, files, transcribe)[q] == t[q]
    decreases |files|
  {
    if files != [] {
      var p := files[|files| - 1];
      DiarizedAllKeeps(t, base, files[..|files| - 1], transcribe);
      DiarizedSpec(DiarizedAll(t, base, files[..|files| - 1], transcribe), base, p, transcribe(p));
    }
  }

  /** A new entry after a run is the transcript of a file on the work list. */
  lemma {:induction false} DiarizedAllOnlyTranscripts(t: Tree, base: Path, files: seq<Path>, transcribe: Path -> Option<string>)
    requires forall p :: p in files ==> |p| >= 1
    ensures forall q :: q in DiarizedAll(t, base, files, transcribe) && q !in t ==> exists p :: p in files && q == TranscriptPath(p)
    decreases |files|
  {
    if files != [] {
      var init := files[..|files| - 1];
      var p := files[|files| - 1];
      DiarizedAllOnlyTranscripts(t, base, init, transcribe);
      DiarizedSpec(DiarizedAll(t, base, init, transcribe), base, p, transcribe(p));
      forall q | q in DiarizedAll(t, base, files, transcribe) && q !in t
        ensures exists p' :: p' in files && q == TranscriptPath(p')
      {
        if q in DiarizedAll(t, base, init, transcribe) {
          var p' :| p' in init && q == TranscriptPath(p');
          assert p' in files;
        } else {
          assert q == TranscriptPath(p) && p in files;
        }
      }
    }
  }

  /** Every file on the work list that exists below a channel and that the service answers for ends up with a transcript. */
  lemma DiarizedAllCovers(t: Tree, base: Path, files: seq<Path>, transcribe: Path -> Option<string>, p: Path)
    requires forall q :: q in files ==> |q| >= 1
    requires p in files && p in t && |base| + |p| >= 3 && transcribe(p).Some?
    ensures TranscriptPath(p) in DiarizedAll(t, base, files, transcribe)
  {
    var k :| 0 <= k < |files| && files[k] == p;
    assert files == files[..k + 1] + files[k + 1..];
    assert files[..k + 1][..k] == files[..k];
    var before := DiarizedAll(t, base, files[..k], transcribe);
    DiarizedAllKeeps(t, base, files[..k], transcribe);
    DiarizedSpec(before, base, p, transcribe(p));
    DiarizedAllAppend(t, base, files[..k + 1], files[k + 1..], transcribe);
    DiarizedAllKeeps(DiarizedAll(t, base, files[..k + 1], transcribe), base, files[k + 1..], transcribe);
  }

  /** A selected file left off the work list gets no transcript. */
  lemma UnlistedNotTranscribed(t: Tree, base: Path, files: seq<Path>, transcribe: Path -> Option<string>, p: Path)
    requires forall q :: q in files ==> |q| >= 1 && Selected(q[|q| - 1])
    requires |p| >= 1 && Selected(p[|p| - 1]) && p !in files && TranscriptPath(p) !in t
    ensures TranscriptPath(p) !in DiarizedAll(t, base, files, transcribe)
  {
    DiarizedAllOnlyTranscripts(t, base, files, transcribe);
    if TranscriptPath(p) in DiarizedAll(t, base, files, transcribe) {
      var q :| q in files && TranscriptPath(p) == TranscriptPath(q);
      TranscriptPathInjective(p, q);
    }
  }

  /** `worker(key, files)`: its thread pool's calls, taken one after another. */
  method Worker(fs: FileSystem, base: Path, files: seq<Path>, transcribe: Path -> Option<string>)
    requires forall p :: p in files ==> |p| >= 1
    modifies fs
    ensures fs.entries == DiarizedAll(old(fs.entries), base, files, transcribe)
  {
    for i := 0 to |files|
      invariant fs.entries == DiarizedAll(old(fs.entries), base, files[..i], transcribe)
    {
      assert files[..i + 1][..i] == files[..i];
      TranscribeAndSave(fs, base, files[i], transcribe(files[i]));
    }
    assert files[..|files|] == files;
  }

  // ---------------------------------------------------------------------
  // main: sharing the files among the keys

  lemma MulStep(m: nat, size: nat)
    ensures m <= 1 ==> m * size <= size
    ensures m >= 1 ==> m * size == (m - 1) * size + size
    ensures m >= 2 ==> m * size >= size + size
  {
    if m >= 2 {
      assert (m - 1) * size >= size;
    }
  }

  /** `[files[i:i + size] for i in range(0, n, size)]` for a positive size: the chunks of that size. */
  lemma {:induction false} ChunksPrefix<T>(xs: seq<T>, size: nat, m: nat)
    requires size >= 1 && m * size <= |xs|
    ensures |Download.Chunks(xs, size)| >= m
    ensures Download.Flatten(Download.Chunks(xs, size)[..m]) == xs[..m * size]
    decreases m
  {
    var cs := Download.Chunks(xs, size);
    MulStep(m, size);
    if m == 0 {
      assert cs[..0] == [];
    } else if |xs| <= size {
      assert m == 1;
      assert cs == [xs];
      assert cs[..1] == [xs];
      assert Download.Flatten(cs[..1]) == xs + Download.Flatten<T>([]);
    } else {
      var rest := xs[size..];
      ChunksPrefix(rest, size, m - 1);
      assert cs == [xs[..size]] + Download.Chunks(rest, size);
      assert cs[..m][1..] == Download.Chunks(rest, size)[..m - 1];
      assert xs[..m * size] == xs[..size] + rest[..(m - 1) * size];
    }
  }

  /** With chunks of a positive size, `m` chunks suffice for `m * size` items. */
  lemma {:induction false} ChunksCount<T>(xs: seq<T>, size: nat, m: nat)
    requires size >= 1 && |xs| <= m * size
    ensures |Download.Chunks(xs, size)| <= m
    decreases |xs|
  {
    MulStep(m, size);
    if xs != [] && |xs| > size {
      assert m >= 2;
      ChunksCount(xs[size..], size, m - 1);
    }
  }

  lemma {:induction false} FlattenAppend<T>(a: seq<seq<T>>, b: seq<seq<T>>)
    ensures Download.Flatten(a + b) == Download.Flatten(a) + Download.Flatten(b)
    decreases |a|
  {
    if a != [] {
      assert (a + b)[1..] == a[1..] + b;
      FlattenAppend(a[1..], b);
    } else {
      assert a + b == b;
    }
  }

  lemma {:induction false} FlattenEmpty<T>(cs: seq<seq<T>>)
    requires forall i :: 0 <= i < |cs| ==> cs[i] == []
    ensures Download.Flatten(cs) == []
    decreases |cs|
  {
    if cs != [] {
      FlattenEmpty(cs[1..]);
    }
  }

  /**
   * The chunks handed to the keys as written: the size is `n // k`, and key
   * `i` takes chunk `i % len(chunks)`. `range` refuses a zero step, so fewer
   * files than keys is an error (`None`).
   */
  function AssignAsWritten(files: seq<Path>, k: nat): Option<seq<seq<Path>>>
    requires k >= 1
  {
    var size := |files| / k;
    if size == 0 then None
    else
      var cs := Download.Chunks(files, size);
      assert |cs| >= 1;
      Some(seq(k, i requires 0 <= i < k => cs[i % |cs|]))
  }

  /** With fewer files than keys the split fails. */
  lemma AsWrittenFewerFilesFails(files: seq<Path>, k: nat)
    requires 1 <= |files| < k
    ensures AssignAsWritten(files, k) == None
  {
  }

  lemma DivFacts(n: nat, k: nat)
    requires k >= 1
    ensures k * (n / k) <= n
    ensures n >= k ==> n / k >= 1
  {
  }

  /** Key `i` gets chunk `i` when there are at least as many chunks as keys. */
  lemma AsWrittenShares(files: seq<Path>, k: nat)
    requires k >= 1 && |files| / k >= 1
    requires |Download.Chunks(files, |files| / k)| >= k
    ensures AssignAsWritten(files, k) == Some(Download.Chunks(files, |files| / k)[..k])
  {
    var size := |files| / k;
    var cs := Download.Chunks(files, size);
    var shares := seq(k, i requires 0 <= i < k => cs[i % |cs|]);
    assert AssignAsWritten(files, k) == Some(shares);
    forall i | 0 <= i < k ensures shares[i] == cs[i] {
      ModOfSmaller(i, |cs|);
    }
    assert shares == cs[..k];
  }

  lemma ModOfSmaller(i: nat, n: nat)
    requires i < n
    ensures i % n == i
  {
  }

  /** With at least as many files as keys, the keys together get only the first `k * (n // k)` files. */
  lemma AsWrittenTakesPrefix(files: seq<Path>, k: nat)
    requires k >= 1 && |files| >= k
    ensures AssignAsWritten(files, k).Some?
    ensures Download.Flatten(AssignAsWritten(files, k).value) == files[..k * (|files| / k)]
  {
    var size := |files| / k;
    DivFacts(|files|, k);
    ChunksPrefix(files, size, k);
    AsWrittenShares(files, k);
  }

  /** Five files and two keys: the fifth file is never handed to any key. */
  lemma AsWrittenDropsFifthFile()
    ensures var files := [["a"], ["b"], ["c"], ["d"], ["e"]];
      AssignAsWritten(files, 2).Some? && ["e"] !in Download.Flatten(AssignAsWritten(files, 2).value)
  {
    var files := [["a"], ["b"], ["c"], ["d"], ["e"]];
    AsWrittenTakesPrefix(files, 2);
    assert files[..2 * (|files| / 2)] == [["a"], ["b"], ["c"], ["d"]];
  }

  /** The chunk size that shares `n` files among `k` keys: `ceil(n / k)`. */
  function ShareSize(n: nat, k: nat): (size: nat)
    requires k >= 1
    ensures n <= k * size
    ensures n >= 1 ==> size >= 1 && (size - 1) * k < n
  {
    (n + k - 1) / k
  }

  /** The files shared among `k` keys in chunks of `ceil(n / k)`; keys without a chunk get nothing. */
  function AssignEvenly(files: seq<Path>, k: nat): (chunks: seq<seq<Path>>)
    requires k >= 1
    ensures |chunks| == k
  {
    var cs := Download.Chunks(files, ShareSize(|files|, k));
    seq(k, i requires 0 <= i < k => if i < |cs| then cs[i] else [])
  }

  /** Every file is handed to exactly one key, in order, and no key gets more than `ceil(n / k)` files. */
  lemma AssignEvenlyCovers(files: seq<Path>, k: nat)
    requires k >= 1
    ensures Download.Flatten(AssignEvenly(files, k)) == files
    ensures forall i :: 0 <= i < k ==> |AssignEvenly(files, k)[i]| <= ShareSize(|files|, k)
  {
    var size := ShareSize(|files|, k);
    var cs := Download.Chunks(files, size);
    var chunks := AssignEvenly(files, k);
    Download.ChunksSpec(files, size);
    if files == [] {
      assert cs == [];
      FlattenEmpty(chunks);
    } else {
      ChunksCount(files, size, k);
      var pad := seq(k - |cs|, i => []);
      assert chunks == cs + pad;
      FlattenEmpty(pad);
      FlattenAppend(cs, pad);
      assert Download.Flatten(cs) + [] == Download.Flatten(cs);
    }
  }

  /** What `main` sets off, or why it stops before. */
  datatype Outcome =
    | MissingKeys                                        // `ASSEMBLY_AI_API_KEYS` unset or empty
    | NoFiles                                            // nothing to transcribe
    | ZeroStep                                           // `range` called with a zero step
    | Assigned(keys: seq<string>, work: seq<seq<Path>>)  // key `keys[i]` works through `work[i]`

  /** `main` with the sharing as written. */
  function MainAsWritten(apiKeys: string, walk: seq<Visit>): Outcome {
    if apiKeys == [] then MissingKeys
    else
      var keys := Split(apiKeys, ',');
      var files := Mp3Files(walk);
      if files == [] then NoFiles
      else match AssignAsWritten(files, |keys|)
        case None => ZeroStep
        case Some(work) => Assigned(keys, work)
  }

  /** `main` with the files shared in chunks of `ceil(n / k)`. */
  function Main(apiKeys: string, walk: seq<Visit>): Outcome {
    if apiKeys == [] then MissingKeys
    else
      var keys := Split(apiKeys, ',');
      var files := Mp3Files(walk);
      if files == [] then NoFiles
      else Assigned(keys, AssignEvenly(files, |keys|))
  }

  /**
   * With keys set, `main` stops only when there is nothing to transcribe;
   * otherwise each key gets one work list and together they are exactly the
   * selected files.
   */
  lemma MainSpec(apiKeys: string, walk: seq<Visit>)
    ensures var o := Main(apiKeys, walk);
      (o == MissingKeys <==> apiKeys == []) &&
      (o == NoFiles <==> apiKeys != [] && Mp3Files(walk) == []) &&
      (o.Assigned? ==> |o.work| == |o.keys| && Download.Flatten(o.work) == Mp3Files(walk))
  {
    if apiKeys != [] && Mp3Files(walk) != [] {
      AssignEvenlyCovers(Mp3Files(walk), |Split(apiKeys, ',')|);
    }
  }

  /** The lists before `cs[i]`, `cs[i]` itself and the lists after it, flattened. */
  lemma FlattenSplit<T>(cs: seq<seq<T>>, i: nat)
    requires i < |cs|
    ensures Download.Flatten(cs) == Download.Flatten(cs[..i]) + cs[i] + Download.Flatten(cs[i + 1..])
    ensures Download.Flatten(cs[..i + 1]) == Download.Flatten(cs[..i]) + cs[i]
  {
    assert cs == cs[..i] + cs[i..];
    FlattenAppend(cs[..i], cs[i..]);
    assert cs[i..][1..] == cs[i + 1..];
    assert cs[..i + 1] == cs[..i] + [cs[i]];
    FlattenAppend(cs[..i], [cs[i]]);
    assert Download.Flatten([cs[i]]) == cs[i] + Download.Flatten<T>([]);
  }

  /**
   * The process pool, its workers taken one after another: the files of all
   * work lists are transcribed in key order.
   */
  method RunWorkers(fs: FileSystem, base: Path, work: seq<seq<Path>>, transcribe: Path -> Option<string>)
    requires forall p :: p in Download.Flatten(work) ==> |p| >= 1
    modifies fs
    ensures fs.entries == DiarizedAll(old(fs.entries), base, Download.Flatten(work), transcribe)
  {
    for i := 0 to |work|
      invariant forall p :: p in Download.Flatten(work[..i]) ==> |p| >= 1
      invariant fs.entries == DiarizedAll(old(fs.entries), base, Download.Flatten(work[..i]), transcribe)
    {
      FlattenSplit(work, i);
      DiarizedAllAppend(old(fs.entries), base, Download.Flatten(work[..i]), work[i], transcribe);
      Worker(fs, base, work[i], transcribe);
    }
    assert work[..|work|] == work;
  }

  /**
   * A whole diarisation run: every selected audio file that exists below a
   * channel and that the service answers for has its transcript afterwards,
   * and no other file appears.
   */
  lemma RunTranscribesEverySelectedFile(apiKeys: string, walk: seq<Visit>, t: Tree, base: Path, transcribe: Path -> Option<string>, p: Path)
    requires Main(apiKeys, walk).Assigned?
    ensures forall q :: q in Mp3Files(walk) ==> |q| >= 1
    ensures forall q :: q in Download.Flatten(Main(apiKeys, walk).work) ==> |q| >= 1
    ensures p in Mp3Files(walk) && p in t && |base| + |p| >= 3 && transcribe(p).Some? ==>
      TranscriptPath(p) in DiarizedAll(t, base, Download.Flatten(Main(apiKeys, walk).work), transcribe)
    ensures forall q :: q in DiarizedAll(t, base, Download.Flatten(Main(apiKeys, walk).work), transcribe) && q !in t ==>
      exists r :: r in Mp3Files(walk) && q == TranscriptPath(r)
  {
    MainSpec(apiKeys, walk);
    Mp3FilesSelected(walk);
    var files := Download.Flatten(Main(apiKeys, walk).work);
    assert files == Mp3Files(walk);
    if p in Mp3Files(walk) && p in t && |base| + |p| >= 3 && transcribe(p).Some? {
      DiarizedAllCovers(t, base, files, transcribe, p);
    }
    DiarizedAllOnlyTranscripts(t, base, files, transcribe);
  }

  /** As written, five selected files and two keys leave the fifth without a transcript whatever the service answers. */
  lemma AsWrittenFifthFileUntranscribed(t: Tree, base: Path, transcribe: Path -> Option<string>, files: seq<Path>)
    requires |files| == 5 && forall i, j :: 0 <= i < j < 5 ==> files[i] != files[j]
    requires forall q :: q in files ==> |q| >= 1 && Selected(q[|q| - 1])
    requires TranscriptPath(files[4]) !in t
    ensures AssignAsWritten(files, 2).Some?
    ensures forall q :: q in Download.Flatten(AssignAsWritten(files, 2).value) ==> |q| >= 1 && Selected(q[|q| - 1])
    ensures TranscriptPath(files[4]) !in DiarizedAll(t, base, Download.Flatten(AssignAsWritten(files, 2).value), transcribe)
  {
    AsWrittenTakesPrefix(files, 2);
    var handed := Download.Flatten(AssignAsWritten(files, 2).value);
    assert handed == files[..4];
    assert files[4] !in handed;
    UnlistedNotTranscribed(t, base, handed, transcribe, files[4]);
  }
}
