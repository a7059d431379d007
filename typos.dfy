/**
 * The typo pass over the finished transcripts: every
 * `*_diarized_content_processed_diarized.txt` file found by the walk is read,
 * a fixed table of replacements is applied to its text in order, and the
 * file is written back.
 */
module Typos {
  import opened Text
  import opened FileTree

  /** The name ending of the transcripts the pass rewrites. */
  const TranscriptSuffix := "_diarized_content_processed_diarized.txt"

  /** The typos and their corrections, in the order the dictionary is iterated. */
  const TypoTable: seq<(string, string)> := [
    ("L Two", "L2"),
    ("L Two s", "L2s"),
    ("L Three", "L3s"),
    ("SWAV", "SUAVE"),
    ("MVV", "MEV"),
    ("layer two", "L2"),
    ("L one", "L1")
  ]

  /** No typo is the empty string, so each can be replaced. */
  predicate WellFormedTable(table: seq<(string, string)>) {
    forall k :: 0 <= k < |table| ==> table[k].0 != []
  }

  /** `for typo, correction in table: content = content.replace(typo, correction)`. */
  function ApplyAll(content: string, table: seq<(string, string)>): string
    requires WellFormedTable(table)
    decreases |table|
  {
    if table == [] then content
    else
      var (typo, correction) := table[|table| - 1];
      ReplaceAll(ApplyAll(content, table[..|table| - 1]), typo, correction)
  }

  /** The corrected text of a transcript. */
  function Corrected(content: string): string {
    ApplyAll(content, TypoTable)
  }

  lemma {:induction false} ApplyAllAppend(content: string, a: seq<(string, string)>, b: seq<(string, string)>)
    requires WellFormedTable(a + b)
    ensures WellFormedTable(a) && WellFormedTable(b)
    ensures ApplyAll(content, a + b) == ApplyAll(ApplyAll(content, a), b)
    decreases |b|
  {
    assert forall k :: 0 <= k < |a| ==> a[k] == (a + b)[k];
    assert forall k :: 0 <= k < |b| ==> b[k] == (a + b)[|a| + k];
    if b == [] {
      assert a + b == a;
    } else {
      assert (a + b)[..|a + b| - 1] == a + b[..|b| - 1];
      ApplyAllAppend(content, a, b[..|b| - 1]);
    }
  }

  /** Text that holds none of the typos is left exactly as it was. */
  lemma {:induction false} ApplyAllNoTypo(content: string, table: seq<(string, string)>)
    requires WellFormedTable(table)
    requires forall k :: 0 <= k < |table| ==> !Contains(content, table[k].0)
    ensures ApplyAll(content, table) == content
    decreases |table|
  {
    if table != [] {
      ApplyAllNoTypo(content, table[..|table| - 1]);
      ReplaceAbsent(content, table[|table| - 1].0, table[|table| - 1].1);
    }
  }

  lemma CorrectedNoTypo(content: string)
    requires forall k :: 0 <= k < |TypoTable| ==> !Contains(content, TypoTable[k].0)
    ensures Corrected(content) == content
  {
    ApplyAllNoTypo(content, TypoTable);
  }

  /** After `L Two` has become `L2` nothing spells `L Two s` any more. */
  lemma NoLTwosAfterLTwo(s: string)
    ensures !Contains(ReplaceAll(s, "L Two", "L2"), "L Two s")
  {
    var r := ReplaceAll(s, "L Two", "L2");
    assert Unmatchable("L Two", "L2");
    ReplaceLeavesNoOccurrence(s, "L Two", "L2");
    ContainsIffOccurs(r, "L Two s");
    if Contains(r, "L Two s") {
      var i :| OccursAt(r, "L Two s", i);
      assert r[i..i + 5] == r[i..i + 7][..5];
      assert OccursAt(r, "L Two", i);
    }
  }

  /** The `L Two s` entry never matches: the table acts as if it were not there. */
  lemma LTwosEntryIsDead(content: string)
    ensures WellFormedTable(TypoTable[..1] + TypoTable[2..]) &&
      Corrected(content) == ApplyAll(content, TypoTable[..1] + TypoTable[2..])
  {
    assert TypoTable == TypoTable[..2] + TypoTable[2..];
    ApplyAllAppend(content, TypoTable[..2], TypoTable[2..]);
    var live := TypoTable[..1] + TypoTable[2..];
    assert WellFormedTable(live) by {
      assert forall k :: 1 <= k < |live| ==> live[k] == TypoTable[k + 1];
    }
    ApplyAllAppend(content, TypoTable[..1], TypoTable[2..]);
    var afterFirst := ApplyAll(content, TypoTable[..1]);
    assert TypoTable[..2][..1] == TypoTable[..1];
    assert afterFirst == ReplaceAll(content, "L Two", "L2");
    NoLTwosAfterLTwo(content);
    ReplaceAbsent(afterFirst, "L Two s", "L2s");
    assert ApplyAll(content, TypoTable[..2]) == afterFirst;
  }

  /** The replacement loop for one file's text. */
  method CorrectText(content: string) returns (corrected: string)
    ensures corrected == Corrected(content)
  {
    corrected := content;
    for i := 0 to |TypoTable|
      invariant corrected == ApplyAll(content, TypoTable[..i])
    {
      assert TypoTable[..i + 1][..i] == TypoTable[..i];
      var (typo, correction) := TypoTable[i];
      corrected := ReplaceAll(corrected, typo, correction);
    }
    assert TypoTable[..|TypoTable|] == TypoTable;
  }

  // ---------------------------------------------------------------------
  // correct_typos_in_files

  /** The transcripts of one directory listing, as paths, in listing order. */
  function TranscriptsIn(root: Path, files: seq<Name>): seq<Path>
    decreases |files|
  {
    if files == [] then []
    else
      var f := files[|files| - 1];
      TranscriptsIn(root, files[..|files| - 1]) + (if EndsWith(f, TranscriptSuffix) then [root + [f]] else [])
  }

  /** The transcripts of the whole walk, in walk order. */
  function Listed(walk: seq<Visit>): seq<Path>
    decreases |walk|
  {
    if walk == [] then []
    else Listed(walk[..|walk| - 1]) + TranscriptsIn(walk[|walk| - 1].root, walk[|walk| - 1].files)
  }

  /** One transcript read, corrected and written back. */
  function FixFile(t: Tree, p: Path): Tree {
    if p in t && t[p].File? then t[p := File(Corrected(t[p].content))] else t
  }

  /** The transcripts rewritten one after another. */
  function FixAll(t: Tree, ps: seq<Path>): Tree
    decreases |ps|
  {
    if ps == [] then t else FixFile(FixAll(t, ps[..|ps| - 1]), ps[|ps| - 1])
  }

  /** What the pass leaves on disk. */
  function TyposCorrected(t: Tree, walk: seq<Visit>): Tree {
    FixAll(t, Listed(walk))
  }

  lemma {:induction false} FixAllAppend(t: Tree, a: seq<Path>, b: seq<Path>)
    ensures FixAll(t, a + b) == FixAll(FixAll(t, a), b)
    decreases |b|
  {
    if b == [] {
      assert a + b == a;
    } else {
      assert (a + b)[..|a + b| - 1] == a + b[..|b| - 1];
      FixAllAppend(t, a, b[..|b| - 1]);
    }
  }

  lemma {:induction false} TranscriptsInSpec(root: Path, files: seq<Name>)
    ensures forall p :: p in TranscriptsIn(root, files) <==> exists f :: f in files && EndsWith(f, TranscriptSuffix) && p == root + [f]
    decreases |files|
  {
    if files != [] {
      TranscriptsInSpec(root, files[..|files| - 1]);
      assert files == files[..|files| - 1] + [files[|files| - 1]];
    }
  }

  /** A listed path is a walked file whose name has the transcript ending. */
  lemma {:induction false} ListedSpec(walk: seq<Visit>)
    ensures forall p :: p in Listed(walk) ==>
      exists k, f :: 0 <= k < |walk| && f in walk[k].files && EndsWith(f, TranscriptSuffix) && p == walk[k].root + [f]
    decreases |walk|
  {
    if walk != [] {
      var init := walk[..|walk| - 1];
      var v := walk[|walk| - 1];
      ListedSpec(init);
      TranscriptsInSpec(v.root, v.files);
      forall p | p in Listed(walk)
        ensures exists k, f :: 0 <= k < |walk| && f in walk[k].files && EndsWith(f, TranscriptSuffix) && p == walk[k].root + [f]
      {
        if p in Listed(init) {
          var k, f :| 0 <= k < |init| && f in init[k].files && EndsWith(f, TranscriptSuffix) && p == init[k].root + [f];
          assert walk[k] == init[k];
        } else {
          var f :| f in v.files && EndsWith(f, TranscriptSuffix) && p == v.root + [f];
          assert walk[|walk| - 1] == v;
        }
      }
    }
  }

  /** No path occurs twice. */
  predicate Distinct(ps: seq<Path>) {
    forall i, j :: 0 <= i < j < |ps| ==> ps[i] != ps[j]
  }

  lemma DistinctAppend(a: seq<Path>, b: seq<Path>)
    requires Distinct(a) && Distinct(b)
    requires forall x :: x in a ==> x !in b
    ensures Distinct(a + b)
  {
    forall i, j | 0 <= i < j < |a + b| ensures (a + b)[i] != (a + b)[j] {
      if j < |a| {
        assert (a + b)[i] == a[i] && (a + b)[j] == a[j];
      } else if i < |a| {
        assert (a + b)[i] == a[i] && a[i] in a;
        assert (a + b)[j] == b[j - |a|] && b[j - |a|] in b;
      } else {
        assert (a + b)[i] == b[i - |a|] && (a + b)[j] == b[j - |a|];
      }
    }
  }

  /**
   * The rewrite keeps every path; a path not on the list keeps its entry; a
   * file listed exactly once holds its corrected text afterwards.
   */
  lemma {:induction false} FixAllSpec(t: Tree, ps: seq<Path>)
    requires Distinct(ps)
    ensures FixAll(t, ps).Keys == t.Keys
    ensures forall q :: q in t && q !in ps ==> FixAll(t, ps)[q] == t[q]
    ensures forall q :: q in t && q in ps && t[q].File? ==> FixAll(t, ps)[q] == File(Corrected(t[q].content))
    decreases |ps|
  {
    if ps != [] {
      var init := ps[..|ps| - 1];
      var p := ps[|ps| - 1];
      assert forall i :: 0 <= i < |init| ==> init[i] == ps[i] && ps[i] != p;
      FixAllSpec(t, init);
      assert p !in init;
      forall q | q in t && q in ps && t[q].File?
        ensures FixAll(t, ps)[q] == File(Corrected(t[q].content))
      {
        assert q == p || q in init;
      }
    }
  }

  /** With each directory walked once and its names distinct, no transcript is listed twice. */
  predicate WalkedOnce(walk: seq<Visit>) {
    (forall i, j :: 0 <= i < j < |walk| ==> walk[i].root != walk[j].root) &&
    (forall k, a, b :: 0 <= k < |walk| && 0 <= a < b < |walk[k].files| ==> walk[k].files[a] != walk[k].files[b])
  }

  lemma {:induction false} TranscriptsInDistinct(root: Path, files: seq<Name>)
    requires forall a, b :: 0 <= a < b < |files| ==> files[a] != files[b]
    ensures Distinct(TranscriptsIn(root, files))
    decreases |files|
  {
    if files != [] {
      var init := files[..|files| - 1];
      var f := files[|files| - 1];
      TranscriptsInDistinct(root, init);
      TranscriptsInSpec(root, init);
      var before := TranscriptsIn(root, init);
      forall g | g in init ensures root + [g] != root + [f] {
        var a :| 0 <= a < |init| && init[a] == g;
        assert files[a] == g;
        assert (root + [g])[|root|] == g;
      }
      DistinctAppend(before, if EndsWith(f, TranscriptSuffix) then [root + [f]] else []);
    }
  }

  lemma {:induction false} ListedDistinct(walk: seq<Visit>)
    requires WalkedOnce(walk)
    ensures Distinct(Listed(walk))
    decreases |walk|
  {
    if walk != [] {
      var init := walk[..|walk| - 1];
      var v := walk[|walk| - 1];
      assert WalkedOnce(init) by {
        forall k, a, b | 0 <= k < |init| && 0 <= a < b < |init[k].files|
          ensures init[k].files[a] != init[k].files[b]
        {
          assert init[k] == walk[k];
        }
      }
      ListedDistinct(init);
      ListedSpec(init);
      TranscriptsInDistinct(v.root, v.files);
      TranscriptsInSpec(v.root, v.files);
      var a := Listed(init);
      var b := TranscriptsIn(v.root, v.files);
      forall x | x in a ensures x !in b {
        var k, f :| 0 <= k < |init| && f in init[k].files && EndsWith(f, TranscriptSuffix) && x == init[k].root + [f];
        assert walk[k].root != walk[|walk| - 1].root;
        assert x[..|x| - 1] == init[k].root;
        assert forall g :: x != v.root + [g] by {
          forall g ensures x != v.root + [g] {
            assert (v.root + [g])[..|v.root|] == v.root;
          }
        }
      }
      DistinctAppend(a, b);
    }
  }

  /**
   * After the pass each transcript the walk lists holds its corrected text,
   * every other entry is as it was, and no path appears or disappears.
   */
  lemma TyposCorrectedSpec(t: Tree, walk: seq<Visit>)
    requires WalkedOnce(walk)
    ensures TyposCorrected(t, walk).Keys == t.Keys
    ensures forall q :: q in t && q !in Listed(walk) ==> TyposCorrected(t, walk)[q] == t[q]
    ensures forall k, f :: 0 <= k < |walk| && f in walk[k].files && EndsWith(f, TranscriptSuffix) && walk[k].root + [f] in t && t[walk[k].root + [f]].File? ==>
      TyposCorrected(t, walk)[walk[k].root + [f]] == File(Corrected(t[walk[k].root + [f]].content))
  {
    ListedDistinct(walk);
    var ps := Listed(walk);
    FixAllSpec(t, ps);
    forall k, f | 0 <= k < |walk| && f in walk[k].files && EndsWith(f, TranscriptSuffix) && walk[k].root + [f] in t && t[walk[k].root + [f]].File?
      ensures TyposCorrected(t, walk)[walk[k].root + [f]] == File(Corrected(t[walk[k].root + [f]].content))
    {
      ListedComplete(walk, k, f);
    }
  }

  lemma {:induction false} ListedComplete(walk: seq<Visit>, k: nat, f: Name)
    requires k < |walk| && f in walk[k].files && EndsWith(f, TranscriptSuffix)
    ensures walk[k].root + [f] in Listed(walk)
    decreases |walk|
  {
    var init := walk[..|walk| - 1];
    if k < |init| {
      assert init[k] == walk[k];
      ListedComplete(init, k, f);
    } else {
      TranscriptsInSpec(walk[k].root, walk[k].files);
    }
  }

  /** Every listed transcript is a file of the tree: what the walk reported is there to be read. */
  predicate ListsFiles(t: Tree, ps: seq<Path>) {
    forall p :: p in ps ==> p in t && t[p].File?
  }

  /** Rewriting keeps every path and every file a file. */
  lemma {:induction false} FixAllKeepsFiles(t: Tree, ps: seq<Path>, more: seq<Path>)
    requires ListsFiles(t, more)
    ensures FixAll(t, ps).Keys == t.Keys
    ensures ListsFiles(FixAll(t, ps), more)
    decreases |ps|
  {
    if ps != [] {
      FixAllKeepsFiles(t, ps[..|ps| - 1], more);
    }
  }

  /** The inner loop over one directory listing. */
  method CorrectVisit(fs: FileSystem, v: Visit)
    requires ListsFiles(fs.entries, TranscriptsIn(v.root, v.files))
    modifies fs
    ensures fs.entries == FixAll(old(fs.entries), TranscriptsIn(v.root, v.files))
  {
    for j := 0 to |v.files|
      invariant fs.entries == FixAll(old(fs.entries), TranscriptsIn(v.root, v.files[..j]))
    {
      CorrectVisitStep(old(fs.entries), v.root, v.files, j);
      var fname := v.files[j];
      if EndsWith(fname, TranscriptSuffix) {
        var p := v.root + [fname];
        var corrected := CorrectText(fs.entries[p].content);
        fs.Write(p, corrected);
      }
    }
    assert v.files[..|v.files|] == v.files;
  }

  /** One step of the inner loop: a transcript is there as a file and is rewritten; any other name is skipped. */
  lemma CorrectVisitStep(t: Tree, root: Path, files: seq<Name>, j: nat)
    requires j < |files| && ListsFiles(t, TranscriptsIn(root, files))
    ensures var done := FixAll(t, TranscriptsIn(root, files[..j]));
      var p := root + [files[j]];
      if EndsWith(files[j], TranscriptSuffix) then
        p in done && done[p].File? && FixAll(t, TranscriptsIn(root, files[..j + 1])) == FixFile(done, p)
      else
        FixAll(t, TranscriptsIn(root, files[..j + 1])) == done
  {
    var ps := TranscriptsIn(root, files[..j]);
    var p := root + [files[j]];
    assert files[..j + 1][..j] == files[..j] && files[..j + 1][j] == files[j];
    if EndsWith(files[j], TranscriptSuffix) {
      assert TranscriptsIn(root, files[..j + 1]) == ps + [p];
      assert (ps + [p])[..|ps|] == ps;
      TranscriptsInSpec(root, files);
      assert p in TranscriptsIn(root, files);
      FixAllKeepsFiles(t, ps, TranscriptsIn(root, files));
    } else {
      assert TranscriptsIn(root, files[..j + 1]) == ps + [];
      assert ps + [] == ps;
    }
  }

  /** `correct_typos_in_files()`, with the walk given and logging left out. */
  method CorrectTyposInFiles(fs: FileSystem, walk: seq<Visit>)
    requires ListsFiles(fs.entries, Listed(walk))
    modifies fs
    ensures fs.entries == TyposCorrected(old(fs.entries), walk)
  {
    for k := 0 to |walk|
      invariant fs.entries == FixAll(old(fs.entries), Listed(walk[..k]))
    {
      assert walk[..k + 1][..k] == walk[..k];
      assert Listed(walk[..k + 1]) == Listed(walk[..k]) + TranscriptsIn(walk[k].root, walk[k].files);
      FixAllAppend(old(fs.entries), Listed(walk[..k]), TranscriptsIn(walk[k].root, walk[k].files));
      ListedPrefix(walk, k);
      FixAllKeepsFiles(old(fs.entries), Listed(walk[..k]), TranscriptsIn(walk[k].root, walk[k].files));
      CorrectVisit(fs, walk[k]);
    }
    assert walk[..|walk|] == walk;
  }

  /** The transcripts of a visit are listed by the whole walk. */
  lemma ListedPrefix(walk: seq<Visit>, k: nat)
    requires k < |walk|
    ensures forall p :: p in TranscriptsIn(walk[k].root, walk[k].files) ==> p in Listed(walk)
  {
    TranscriptsInSpec(walk[k].root, walk[k].files);
    forall p | p in TranscriptsIn(walk[k].root, walk[k].files) ensures p in Listed(walk) {
      var f :| f in walk[k].files && EndsWith(f, TranscriptSuffix) && p == walk[k].root + [f];
      ListedComplete(walk, k, f);
    }
  }
}
