/**
 * Turning a diarised transcript into readable segments: the
 * `HH:MM:SS.mmm` time stamp, the segmentation of one utterance's word
 * stream into groups of sentences, and the output file of a transcript.
 */
module Transcripts {
  import opened Wrappers
  import opened Text
  import opened FileTree

  // ---------------------------------------------------------------------
  // format_time

  /** A duration split into hours, minutes, seconds and milliseconds. */
  datatype Clock = Clock(hours: nat, minutes: nat, seconds: nat, millis: nat)

  /** The three `divmod` steps of `format_time`. */
  function Decompose(ms: nat): (c: Clock)
    ensures c.minutes < 60 && c.seconds < 60 && c.millis < 1000
    ensures c.hours * 3600000 + c.minutes * 60000 + c.seconds * 1000 + c.millis == ms
  {
    var seconds := ms / 1000;
    var minutes := seconds / 60;
    Clock(minutes / 60, minutes % 60, seconds % 60, ms % 1000)
  }

  /** `format_time(ms)`: `f"{h:02}:{m:02}:{s:02}.{ms:03}"`. */
  function FormatTime(ms: nat): (r: string)
    ensures |r| >= 12 && r[|r| - 10] == ':' && r[|r| - 7] == ':' && r[|r| - 4] == '.'
    ensures forall i :: 0 <= i < |r| && i != |r| - 10 && i != |r| - 7 && i != |r| - 4 ==> IsDigit(r[i])
  {
    var c := Decompose(ms);
    FieldWidth(c.minutes, 2);
    FieldWidth(c.seconds, 2);
    FieldWidth(c.millis, 3);
    ZeroPadded(c.hours, 2) + ":" + ZeroPadded(c.minutes, 2) + ":" + ZeroPadded(c.seconds, 2) + "." + ZeroPadded(c.millis, 3)
  }

  /** A field below `10^w` is printed with exactly `w` digits. */
  lemma FieldWidth(n: nat, w: nat)
    requires 1 <= w && n < Pow10(w)
    ensures |ZeroPadded(n, w)| == w
  {
    DecimalLength(n, w, Pow10(w));
  }

  /** Reading an `H…H:MM:SS.mmm` stamp back into milliseconds. */
  function ParseTime(s: string): Option<nat> {
    if |s| >= 12 && s[|s| - 10] == ':' && s[|s| - 7] == ':' && s[|s| - 4] == '.' then
      Some(ParseDecimal(s[..|s| - 10]) * 3600000 + ParseDecimal(s[|s| - 9..|s| - 7]) * 60000 +
           ParseDecimal(s[|s| - 6..|s| - 4]) * 1000 + ParseDecimal(s[|s| - 3..]))
    else None
  }

  /** The stamp determines the duration: reading it back gives the milliseconds. */
  lemma ParseFormatTime(ms: nat)
    ensures ParseTime(FormatTime(ms)) == Some(ms)
  {
    var c := Decompose(ms);
    FieldWidth(c.minutes, 2);
    FieldWidth(c.seconds, 2);
    FieldWidth(c.millis, 3);
    var h := ZeroPadded(c.hours, 2);
    var m := ZeroPadded(c.minutes, 2);
    var s := ZeroPadded(c.seconds, 2);
    var r := ZeroPadded(c.millis, 3);
    var f := FormatTime(ms);
    assert f == h + ":" + m + ":" + s + "." + r;
    assert f[..|f| - 10] == h;
    assert f[|f| - 9..|f| - 7] == m;
    assert f[|f| - 6..|f| - 4] == s;
    assert f[|f| - 3..] == r;
    ParseZeroPadded(c.hours, 2);
    ParseZeroPadded(c.minutes, 2);
    ParseZeroPadded(c.seconds, 2);
    ParseZeroPadded(c.millis, 3);
  }

  // ---------------------------------------------------------------------
  // process_utterance

  /** A word of the diarised transcript: its text and the millisecond at which it ends. */
  datatype Word = Word(text: string, end: nat)

  /** An utterance: its speaker label, its start and end, and its words. */
  datatype Utterance = Utterance(speaker: string, start: nat, end: nat, words: seq<Word>)

  /** A segment of an utterance: its time span, its speaker and its words. */
  datatype Segment = Segment(start: nat, end: nat, speaker: string, words: seq<Word>)

  /** The texts of a run of words. */
  function Texts(ws: seq<Word>): (ts: seq<string>)
    ensures |ts| == |ws| && forall i :: 0 <= i < |ws| ==> ts[i] == ws[i].text
  {
    seq(|ws|, i requires 0 <= i < |ws| => ws[i].text)
  }

  /** The word closes a sentence: its text holds a `.`. */
  predicate Dotted(w: Word) {
    '.' in w.text
  }

  /** The number of sentence-closing words in a run. */
  function DottedCount(ws: seq<Word>): nat
    decreases |ws|
  {
    if ws == [] then 0 else DottedCount(ws[..|ws| - 1]) + if Dotted(ws[|ws| - 1]) then 1 else 0
  }

  /** The words of a sequence of segments, one after the other. */
  function AllWords(segs: seq<Segment>): seq<Word>
    decreases |segs|
  {
    if segs == [] then [] else AllWords(segs[..|segs| - 1]) + segs[|segs| - 1].words
  }

  /** The state of the loop of `process_utterance`: segments emitted, the open segment's words, its sentence count and its start. */
  datatype Scan = Scan(done: seq<Segment>, content: seq<Word>, count: int, start: nat)

  /** One iteration: the word joins the open segment, which is emitted once it holds `n` sentences. */
  function Feed(st: Scan, speaker: string, w: Word, n: int): Scan {
    var content := st.content + [w];
    var count := if Dotted(w) then st.count + 1 else st.count;
    if count == n then Scan(st.done + [Segment(st.start, w.end, speaker, content)], [], 0, w.end)
    else Scan(st.done, content, count, st.start)
  }

  /** The loop state after the words `ws`. */
  function ScanWords(u: Utterance, n: int, ws: seq<Word>): Scan
    decreases |ws|
  {
    if ws == [] then Scan([], [], 0, u.start)
    else Feed(ScanWords(u, n, ws[..|ws| - 1]), u.speaker, ws[|ws| - 1], n)
  }

  /** The segments of `process_utterance(utterance, n)`: the emitted ones, then the open one if it holds words. */
  function Segments(u: Utterance, n: int): seq<Segment> {
    var st := ScanWords(u, n, u.words);
    if st.content != [] then st.done + [Segment(st.start, u.end, u.speaker, st.content)] else st.done
  }

  /** A segment emitted inside the loop: `n` sentences, ended by the end of its sentence-closing last word. */
  predicate Closed(seg: Segment, n: int) {
    seg.words != [] && DottedCount(seg.words) == n &&
    Dotted(seg.words[|seg.words| - 1]) && seg.end == seg.words[|seg.words| - 1].end
  }

  /** The segments follow one another: the first starts with the utterance, each next one where the previous one ended. */
  predicate Chained(segs: seq<Segment>, start: nat) {
    (segs != [] ==> segs[0].start == start) &&
    forall k :: 0 <= k < |segs| - 1 ==> segs[k + 1].start == segs[k].end
  }

  /** A segment that starts where the chain ends extends the chain. */
  lemma ChainedAppend(segs: seq<Segment>, start: nat, seg: Segment)
    requires Chained(segs, start)
    requires seg.start == if segs == [] then start else segs[|segs| - 1].end
    ensures Chained(segs + [seg], start)
  {
    var r := segs + [seg];
    forall k | 0 <= k < |r| - 1 ensures r[k + 1].start == r[k].end {
      if k + 1 < |segs| {
        assert r[k + 1] == segs[k + 1] && r[k] == segs[k];
      }
    }
  }

  /** The loop loses and repeats no word, and counts the sentences of the open segment. */
  predicate WordsKept(ws: seq<Word>, st: Scan) {
    AllWords(st.done) + st.content == ws && st.count == DottedCount(st.content)
  }

  /** The emitted segments carry the speaker and words, and chain from the utterance's start to the open segment's start. */
  predicate WellChained(u: Utterance, st: Scan) {
    (forall k :: 0 <= k < |st.done| ==> st.done[k].speaker == u.speaker && st.done[k].words != []) &&
    Chained(st.done, u.start) &&
    st.start == (if st.done == [] then u.start else st.done[|st.done| - 1].end)
  }

  /** For a positive sentence count, the open segment holds fewer sentences and every emitted one is closed. */
  predicate AllClosed(n: int, st: Scan) {
    n >= 1 ==> st.count < n && forall k :: 0 <= k < |st.done| ==> Closed(st.done[k], n)
  }

  lemma FeedKeepsWords(ws: seq<Word>, st: Scan, speaker: string, w: Word, n: int)
    requires WordsKept(ws, st)
    ensures WordsKept(ws + [w], Feed(st, speaker, w, n))
  {
    var content := st.content + [w];
    assert content[..|content| - 1] == st.content;
    var st' := Feed(st, speaker, w, n);
    if st'.done != st.done {
      var done := st'.done;
      assert done[..|done| - 1] == st.done;
    }
  }

  lemma FeedKeepsChain(u: Utterance, st: Scan, w: Word, n: int)
    requires WellChained(u, st)
    ensures WellChained(u, Feed(st, u.speaker, w, n))
  {
    var st' := Feed(st, u.speaker, w, n);
    if st'.done != st.done {
      var seg := st'.done[|st'.done| - 1];
      assert st'.done == st.done + [seg];
      ChainedAppend(st.done, u.start, seg);
    }
  }

  lemma FeedKeepsClosed(ws: seq<Word>, st: Scan, speaker: string, w: Word, n: int)
    requires WordsKept(ws, st) && AllClosed(n, st)
    ensures AllClosed(n, Feed(st, speaker, w, n))
  {
    var content := st.content + [w];
    assert content[..|content| - 1] == st.content;
    var st' := Feed(st, speaker, w, n);
    if n >= 1 && st'.done != st.done {
      var seg := st'.done[|st'.done| - 1];
      assert st'.done == st.done + [seg];
      assert Closed(seg, n);
    }
  }

  /** What the loop keeps true after the words `ws`. */
  lemma {:induction false} ScanWordsInvariant(u: Utterance, n: int, ws: seq<Word>)
    ensures var st := ScanWords(u, n, ws); WordsKept(ws, st) && WellChained(u, st) && AllClosed(n, st)
    decreases |ws|
  {
    if ws != [] {
      var init := ws[..|ws| - 1];
      var w := ws[|ws| - 1];
      assert ws == init + [w];
      ScanWordsInvariant(u, n, init);
      var st := ScanWords(u, n, init);
      FeedKeepsWords(init, st, u.speaker, w, n);
      FeedKeepsChain(u, st, w, n);
      FeedKeepsClosed(init, st, u.speaker, w, n);
    }
  }

  /**
   * `process_utterance(utterance, n)` partitions the words: the segments'
   * words, in order, are the utterance's words; every segment carries the
   * speaker and holds words; the segments are chained from the utterance's
   * start; for `n >= 1` every segment but the last closes exactly `n`
   * sentences, and the last either does so too or holds the leftover words
   * (fewer than `n` sentences) and ends with the utterance.
   */
  lemma SegmentsSpec(u: Utterance, n: int)
    ensures var segs := Segments(u, n);
      AllWords(segs) == u.words &&
      (forall k :: 0 <= k < |segs| ==> segs[k].speaker == u.speaker && segs[k].words != []) &&
      Chained(segs, u.start) &&
      (n >= 1 ==> forall k :: 0 <= k < |segs| - 1 ==> Closed(segs[k], n)) &&
      (n >= 1 && segs != [] ==>
        (Closed(segs[|segs| - 1], n) || (DottedCount(segs[|segs| - 1].words) < n && segs[|segs| - 1].end == u.end)))
  {
    ScanWordsInvariant(u, n, u.words);
    var st := ScanWords(u, n, u.words);
    var segs := Segments(u, n);
    if st.content != [] {
      var last := Segment(st.start, u.end, u.speaker, st.content);
      assert segs[..|segs| - 1] == st.done;
      assert forall k :: 0 <= k < |st.done| ==> segs[k] == st.done[k];
      assert segs[|segs| - 1] == last;
    }
  }

  /** An utterance without words yields no segment. */
  lemma NoWordsNoSegments(u: Utterance, n: int)
    requires u.words == []
    ensures Segments(u, n) == []
  {
  }

  /** `f"{format_time(start)} - {format_time(end)}, Speaker {speaker}: {' '.join(texts)}"`. */
  function SegmentLine(start: nat, end: nat, speaker: string, texts: seq<string>): string {
    FormatTime(start) + " - " + FormatTime(end) + ", Speaker " + speaker + ": " + Join(texts, " ")
  }

  /** The line written for a segment. */
  function Render(seg: Segment): string {
    SegmentLine(seg.start, seg.end, seg.speaker, Texts(seg.words))
  }

  lemma RenderAllAppend(segs: seq<Segment>, seg: Segment)
    ensures RenderAll(segs + [seg]) == RenderAll(segs) + [Render(seg)]
  {
  }

  lemma TextsAppend(ws: seq<Word>, w: Word)
    ensures Texts(ws + [w]) == Texts(ws) + [w.text]
  {
  }

  /** The lines of a sequence of segments. */
  function RenderAll(segs: seq<Segment>): (lines: seq<string>)
    ensures |lines| == |segs| && forall k :: 0 <= k < |segs| ==> lines[k] == Render(segs[k])
  {
    seq(|segs|, k requires 0 <= k < |segs| => Render(segs[k]))
  }

  /** The loop of `process_utterance(utterance, sentence_count)`. */
  method ProcessUtterance(u: Utterance, n: int) returns (output: seq<string>)
    ensures output == RenderAll(Segments(u, n))
  {
    output := [];
    var start := u.start;
    var content: seq<string> := [];
    var count := 0;
    ghost var done: seq<Segment> := [];
    ghost var words: seq<Word> := [];
    for i := 0 to |u.words|
      invariant ScanWords(u, n, u.words[..i]) == Scan(done, words, count, start)
      invariant output == RenderAll(done) && content == Texts(words)
    {
      assert u.words[..i + 1][..i] == u.words[..i];
      var w := u.words[i];
      ghost var next := Feed(Scan(done, words, count, start), u.speaker, w, n);
      assert ScanWords(u, n, u.words[..i + 1]) == next;
      TextsAppend(words, w);
      content := content + [w.text];
      words := words + [w];
      if '.' in w.text {
        count := count + 1;
      }
      if count == n {
        var segment := SegmentLine(start, w.end, u.speaker, content);
        RenderAllAppend(done, Segment(start, w.end, u.speaker, words));
        done := done + [Segment(start, w.end, u.speaker, words)];
        output := output + [segment];
        content := [];
        words := [];
        count := 0;
        start := w.end;
      }
      assert next == Scan(done, words, count, start);
    }
    assert u.words[..|u.words|] == u.words;
    if content != [] {
      var segment := SegmentLine(start, u.end, u.speaker, content);
      RenderAllAppend(done, Segment(start, u.end, u.speaker, words));
      output := output + [segment];
    }
  }

  // ---------------------------------------------------------------------
  // process_transcript

  /** `os.path.splitext(name)[0]`: the name without its last extension; a dot that only leading dots precede starts no extension. */
  function Stem(name: Name): Name {
    var i := LastIndexOf(name, '.');
    if i > 0 && exists j :: 0 <= j < i && name[j] != '.' then name[..i] else name
  }

  /** The transcript written for the diarisation file `p`: `<stem>_processed_diarized.txt` in the same directory. */
  function OutputPath(p: Path): (q: Path)
    requires |p| >= 1
    ensures |q| == |p| && q[..|p| - 1] == p[..|p| - 1]
  {
    p[..|p| - 1] + [Stem(p[|p| - 1]) + "_processed_diarized.txt"]
  }

  /** The diarisation file of a video, `<D>_diarized_content.json`, yields the transcript `<D>_diarized_content_processed_diarized.txt` that the later stages look for. */
  lemma OutputOfDiarization(dir: Path, d: Name)
    ensures OutputPath(dir + [d + "_diarized_content.json"]) == dir + [d + "_diarized_content_processed_diarized.txt"]
  {
    var name := d + "_diarized_content.json";
    var p := dir + [name];
    assert p[..|p| - 1] == dir && p[|p| - 1] == name;
    DiarizationStem(d);
    assert OutputPath(p) == dir + [(d + "_diarized_content") + "_processed_diarized.txt"];
    assert "_diarized_content" + "_processed_diarized.txt" == "_diarized_content_processed_diarized.txt";
    assert (d + "_diarized_content") + "_processed_diarized.txt" == d + ("_diarized_content" + "_processed_diarized.txt");
  }

  lemma DiarizationStem(d: Name)
    ensures Stem(d + "_diarized_content.json") == d + "_diarized_content"
  {
    var name := d + "_diarized_content.json";
    var i := |d| + 17;
    assert name[i] == '.';
    assert forall j :: i < j < |name| ==> name[j] != '.';
    assert LastIndexOf(name, '.') == i;
    assert name[|d|] != '.';
    assert name[..i] == d + "_diarized_content";
  }

  /** Every line followed by a newline, as the output loop writes them. */
  function Lines(lines: seq<string>): string
    decreases |lines|
  {
    if lines == [] then "" else Lines(lines[..|lines| - 1]) + lines[|lines| - 1] + "\n"
  }

  lemma LinesAppend(lines: seq<string>, line: string)
    ensures Lines(lines + [line]) == Lines(lines) + line + "\n"
  {
    assert (lines + [line])[..|lines|] == lines;
  }

  /** The lines of all utterances' segments, utterance by utterance. */
  function AllSegmentLines(data: seq<Utterance>, n: int): seq<string>
    decreases |data|
  {
    if data == [] then [] else AllSegmentLines(data[..|data| - 1], n) + RenderAll(Segments(data[|data| - 1], n))
  }

  /**
   * The text `process_transcript` writes for a file holding `content`, where
   * `parse` is the JSON decoder: nothing for blank content, undecodable
   * content or an empty list; otherwise the segment lines of all utterances.
   */
  function TranscriptText(content: string, parse: string -> Option<seq<Utterance>>, n: int): Option<string> {
    if Strip(content) == [] then None
    else match parse(content)
      case None => None
      case Some(data) => if data == [] then None else Some(Lines(AllSegmentLines(data, n)))
  }

  /** The tree after `process_transcript(p)`: the transcript is written next to `p` when there is something to write. */
  function Transcribed(t: Tree, p: Path, parse: string -> Option<seq<Utterance>>, n: int): Tree {
    if |p| >= 1 && p in t && t[p].File? then
      match TranscriptText(t[p].content, parse, n)
        case None => t
        case Some(text) => t[OutputPath(p) := File(text)]
    else t
  }

  /**
   * Only the transcript next to `p` can change. It changes only when the
   * content is non-blank, decodes, and is not an empty list; and then it holds
   * the segment lines of all utterances, each followed by a newline.
   */
  lemma TranscribedSpec(t: Tree, p: Path, parse: string -> Option<seq<Utterance>>, n: int)
    requires |p| >= 1
    ensures var t' := Transcribed(t, p, parse, n);
      (forall q :: q != OutputPath(p) ==> (q in t' <==> q in t) && (q in t ==> t'[q] == t[q])) &&
      (t' != t ==>
        (p in t && t[p].File? && Strip(t[p].content) != [] && parse(t[p].content).Some? && parse(t[p].content).value != [])) &&
      (p in t && t[p].File? && Strip(t[p].content) != [] && parse(t[p].content).Some? && parse(t[p].content).value != [] ==>
        OutputPath(p) in t' && t'[OutputPath(p)] == File(Lines(AllSegmentLines(parse(t[p].content).value, n))))
  {
    var t' := Transcribed(t, p, parse, n);
    if p in t && t[p].File? {
      var text := TranscriptText(t[p].content, parse, n);
      if text.Some? {
        assert t' == t[OutputPath(p) := File(text.value)];
      } else {
        assert t' == t;
      }
    } else {
      assert t' == t;
    }
  }

  /** The first loop of `process_transcript`: every utterance's segment lines, utterance by utterance. */
  method GatherSegments(data: seq<Utterance>, n: int) returns (allSegments: seq<string>)
    ensures allSegments == AllSegmentLines(data, n)
  {
    allSegments := [];
    for i := 0 to |data|
      invariant allSegments == AllSegmentLines(data[..i], n)
    {
      assert data[..i + 1][..i] == data[..i];
      var segs := ProcessUtterance(data[i], n);
      allSegments := allSegments + segs;
    }
    assert data[..|data|] == data;
  }

  /** The output loop of `process_transcript`: each line written followed by a newline. */
  method WriteLines(lines: seq<string>) returns (text: string)
    ensures text == Lines(lines)
  {
    text := "";
    for i := 0 to |lines|
      invariant text == Lines(lines[..i])
    {
      assert lines[..i + 1] == lines[..i] + [lines[i]];
      LinesAppend(lines[..i], lines[i]);
      text := text + lines[i] + "\n";
    }
    assert lines[..|lines|] == lines;
  }

  /** `process_transcript(file_path, log, sentence_count)`, given the JSON decoder. */
  method ProcessTranscript(fs: FileSystem, p: Path, parse: string -> Option<seq<Utterance>>, n: int)
    modifies fs
    ensures fs.entries == Transcribed(old(fs.entries), p, parse, n)
  {
    if |p| == 0 || !fs.Exists(p) || !fs.entries[p].File? {
      return;
    }
    var outputPath := OutputPath(p);
    var content := fs.entries[p].content;
    if Strip(content) == [] {
      assert TranscriptText(content, parse, n) == None;
      return;
    }
    var decoded := parse(content);
    if decoded.None? {
      assert TranscriptText(content, parse, n) == None;
      return;
    }
    var data := decoded.value;
    if data == [] {
      assert TranscriptText(content, parse, n) == None;
      return;
    }
    var allSegments := GatherSegments(data, n);
    var text := WriteLines(allSegments);
    assert TranscriptText(content, parse, n) == Some(text);
    fs.Write(outputPath, text);
  }
}
