/**
 * The passes that put loose artifacts into their `<date>_<title>` directories
 * (`move_remaining_mp3_to_their_subdirs` and its txt and json twins), written
 * once and parametrised by the kind of artifact. The mp3 variant keeps its own
 * skip test and overwrites an existing destination; the txt and json variants
 * delete the source when the destination already exists.
 */
module Reconcile {
  import opened Wrappers
  import opened Text
  import opened FileTree
  import opened Catalog

  /** The three kinds of artifact a pass can collect. */
  datatype Kind = Audio | Transcript | Diarization

  /** The file-name suffix a pass collects. */
  function Suffix(kind: Kind): (s: string)
    ensures |s| >= 4
  {
    match kind
    case Audio => ".mp3"
    case Transcript => "_diarized_content_processed_diarized.txt"
    case Diarization => "_diarized_content.json"
  }

  /** The index of the only `.` of a suffix. */
  function SuffixDot(kind: Kind): nat {
    match kind
    case Audio => 0
    case Transcript => 36
    case Diarization => 17
  }

  lemma SuffixHasOneDot(kind: Kind)
    ensures SuffixDot(kind) < |Suffix(kind)| && Suffix(kind)[SuffixDot(kind)] == '.'
    ensures '.' !in Suffix(kind)[..SuffixDot(kind)] && '.' !in Suffix(kind)[SuffixDot(kind) + 1..]
  {
    var s, d := Suffix(kind), SuffixDot(kind);
    match kind {
      case Audio =>
        assert forall i :: 0 <= i < |s| && i != d ==> s[i] != '.';
      case Transcript =>
        assert forall i :: 0 <= i < |s| && i != d ==> s[i] != '.';
      case Diarization =>
        assert forall i :: 0 <= i < |s| && i != d ==> s[i] != '.';
    }
    OnlyDotAt(s, d);
  }

  lemma OnlyDotAt(s: string, d: nat)
    requires d < |s| && forall i :: 0 <= i < |s| && i != d ==> s[i] != '.'
    ensures '.' !in s[..d] && '.' !in s[d + 1..]
  {
  }

  // ---------------------------------------------------------------------
  // Collecting the artifacts

  /** The paths of the files of one listing that end with `suffix`, in listing order. */
  function WithSuffix(root: Path, files: seq<Name>, suffix: string): (ps: seq<Path>)
    ensures forall k :: 0 <= k < |ps| ==>
      |ps[k]| == |root| + 1 && ps[k][..|root|] == root && ps[k][|root|] in files && EndsWith(ps[k][|root|], suffix)
    decreases |files|
  {
    if files == [] then []
    else
      var init := files[..|files| - 1];
      var f := files[|files| - 1];
      assert forall g :: g in init ==> g in files;
      var ps := WithSuffix(root, init, suffix) + (if EndsWith(f, suffix) then [root + [f]] else []);
      assert (root + [f])[..|root|] == root;
      ps
  }

  lemma {:induction false} WithSuffixComplete(root: Path, files: seq<Name>, suffix: string)
    ensures forall f :: f in files && EndsWith(f, suffix) ==> root + [f] in WithSuffix(root, files, suffix)
    decreases |files|
  {
    if files != [] {
      var init := files[..|files| - 1];
      WithSuffixComplete(root, init, suffix);
      assert files == init + [files[|files| - 1]];
    }
  }

  /**
   * The paths a pass collects before it moves anything: the files of the walk
   * whose names end with `suffix`, in walk order.
   */
  function Artifacts(walk: seq<Visit>, suffix: string): (ps: seq<Path>)
    ensures forall k :: 0 <= k < |ps| ==> |ps[k]| >= 1 && EndsWith(ps[k][|ps[k]| - 1], suffix)
    decreases |walk|
  {
    if walk == [] then []
    else
      var v := walk[|walk| - 1];
      var ps := Artifacts(walk[..|walk| - 1], suffix) + WithSuffix(v.root, v.files, suffix);
      assert forall k :: 0 <= k < |ps| ==> |ps[k]| >= 1 && EndsWith(ps[k][|ps[k]| - 1], suffix) by {
        forall k | 0 <= k < |ps| ensures |ps[k]| >= 1 && EndsWith(ps[k][|ps[k]| - 1], suffix) {
          var n := |Artifacts(walk[..|walk| - 1], suffix)|;
          if k >= n {
            assert ps[k] == WithSuffix(v.root, v.files, suffix)[k - n];
          }
        }
      }
      ps
  }

  /** Every file of the walk whose name ends with `suffix` is collected. */
  lemma {:induction false} ArtifactsComplete(walk: seq<Visit>, suffix: string)
    ensures forall v, f :: v in walk && f in v.files && EndsWith(f, suffix) ==> v.root + [f] in Artifacts(walk, suffix)
    decreases |walk|
  {
    if walk != [] {
      var init := walk[..|walk| - 1];
      var v := walk[|walk| - 1];
      ArtifactsComplete(init, suffix);
      WithSuffixComplete(v.root, v.files, suffix);
      assert walk == init + [v];
    }
  }

  /** The collecting loop of a pass. */
  method CollectArtifacts(walk: seq<Visit>, suffix: string) returns (paths: seq<Path>)
    ensures paths == Artifacts(walk, suffix)
  {
    paths := [];
    for i := 0 to |walk|
      invariant paths == Artifacts(walk[..i], suffix)
    {
      ArtifactsNext(walk, suffix, i);
      var found := CollectListing(walk[i].root, walk[i].files, suffix);
      paths := paths + found;
    }
    assert walk[..|walk|] == walk;
  }

  /** The files of one listing that end with `suffix`, collected in listing order. */
  method CollectListing(root: Path, files: seq<Name>, suffix: string) returns (found: seq<Path>)
    ensures found == WithSuffix(root, files, suffix)
  {
    found := [];
    for j := 0 to |files|
      invariant found == WithSuffix(root, files[..j], suffix)
    {
      assert files[..j + 1][..j] == files[..j];
      if EndsWith(files[j], suffix) {
        found := found + [root + [files[j]]];
      }
    }
    assert files[..|files|] == files;
  }

  lemma ArtifactsNext(walk: seq<Visit>, suffix: string, i: nat)
    requires i < |walk|
    ensures Artifacts(walk[..i + 1], suffix) == Artifacts(walk[..i], suffix) + WithSuffix(walk[i].root, walk[i].files, suffix)
  {
    assert walk[..i + 1][..i] == walk[..i];
  }

  // ---------------------------------------------------------------------
  // One file

  /** `os.path.basename(os.path.dirname(p))`: the directory holding `p`, or the base's own name for a file directly in it. */
  function ContainingDir(p: Path, baseName: Name): Name
    requires |p| >= 1
  {
    if |p| >= 2 then p[|p| - 2] else baseName
  }

  /** The title a pass reads off a file name. */
  function RecoveredTitle(kind: Kind, fileName: Name): string {
    if kind == Audio then Mp3Title(fileName) else ArtifactTitle(fileName, Suffix(kind))
  }

  /** What a pass does with one collected file; these are also the messages it prints. */
  datatype Action =
    | AlreadyPlaced
    | NotFound
    | Move(newDir: Path, dst: Path)
    | Delete(newDir: Path, dst: Path)

  /**
   * The decision the code makes for a file in directory `dir` whose recovered
   * title is `title` and whose directory is named `containing`. The mp3 pass
   * skips a file whose title is its directory's name before matching; the txt
   * and json passes match first and skip when `<date>_<title>` is the
   * directory's name. On a match the destination is
   * `<date>_<title>/<date>_<title><suffix>` beside the file, built from the
   * first catalog row carrying the matched title. The mp3 pass moves without
   * looking; the others delete the source when the destination exists.
   */
  function Decide(kind: Kind, rows: seq<Video>, t: Tree, dir: Path, title: string, containing: Name): (a: Action)
    ensures a.NotFound? <==> !(kind == Audio && title == containing) && BestMatch(title, Titles(rows)).None?
    ensures a.AlreadyPlaced? ==> (kind == Audio && title == containing) || (kind != Audio && BestMatch(title, Titles(rows)).Some?)
    ensures a.Move? || a.Delete? ==>
      |a.newDir| == |dir| + 1 && a.newDir[..|dir|] == dir && a.dst == a.newDir + [a.newDir[|dir|] + Suffix(kind)]
    ensures a.Move? || a.Delete? ==>
      var row := FirstWithTitle(rows, BestMatch(title, Titles(rows)));
      row.Some? && a.newDir == dir + [row.value.publishedDate + "_" + title] &&
      a.dst == a.newDir + [row.value.publishedDate + "_" + title + Suffix(kind)]
    ensures kind != Audio && (a.Move? || a.Delete?) ==> a.newDir[|dir|] != containing
    ensures kind == Audio ==> !a.Delete?
    ensures a.Delete? ==> a.dst in t
    ensures kind != Audio && a.Move? ==> a.dst !in t
  {
    if kind == Audio && title == containing then AlreadyPlaced
    else
      MatchHasRow(title, rows);
      match FirstWithTitle(rows, BestMatch(title, Titles(rows)))
      case None => NotFound
      case Some(row) =>
        var d := row.publishedDate + "_" + title;
        var newDir := dir + [d];
        var dst := newDir + [d + Suffix(kind)];
        if kind != Audio && d == containing then AlreadyPlaced
        else if kind != Audio && dst in t then Delete(newDir, dst)
        else Move(newDir, dst)
  }

  /** A collected file and the title the pass reads off its name. */
  datatype Artifact = Artifact(path: Path, title: string)

  /** The collected paths with their recovered titles. */
  function Titled(kind: Kind, paths: seq<Path>): (arts: seq<Artifact>)
    requires forall k :: 0 <= k < |paths| ==> |paths[k]| >= 1
    ensures |arts| == |paths|
    ensures forall k :: 0 <= k < |paths| ==> arts[k].path == paths[k]
  {
    seq(|paths|, k requires 0 <= k < |paths| => Artifact(paths[k], RecoveredTitle(kind, paths[k][|paths[k]| - 1])))
  }

  /** The decision the code makes for the artifact `x`. */
  function PlanAsWritten(kind: Kind, rows: seq<Video>, baseName: Name, t: Tree, x: Artifact): Action
    requires |x.path| >= 1
  {
    Decide(kind, rows, t, x.path[..|x.path| - 1], x.title, ContainingDir(x.path, baseName))
  }

  /**
   * The decision with the skip test corrected: every pass leaves a file alone
   * when its recovered title is already its directory's name, which is where
   * the passes themselves put it. The mp3 pass is unchanged.
   */
  function Plan(kind: Kind, rows: seq<Video>, baseName: Name, t: Tree, x: Artifact): (a: Action)
    requires |x.path| >= 1
    ensures kind == Audio ==> a == PlanAsWritten(kind, rows, baseName, t, x)
    ensures a != PlanAsWritten(kind, rows, baseName, t, x) ==> a.AlreadyPlaced?
    ensures x.title == ContainingDir(x.path, baseName) ==> a.AlreadyPlaced?
  {
    var containing := ContainingDir(x.path, baseName);
    if x.title == containing then AlreadyPlaced
    else Decide(kind, rows, t, x.path[..|x.path| - 1], x.title, containing)
  }

  /** The tree after carrying out a decision about the file at `p`. */
  function Apply(t: Tree, p: Path, a: Action): Tree {
    match a
    case AlreadyPlaced => t
    case NotFound => t
    case Move(newDir, dst) => Renamed(WithDirs(t, newDir), p, dst)
    case Delete(newDir, _) => Removed(WithDirs(t, newDir), p)
  }

  /** One iteration of a pass as written: the code's decision, carried out. */
  function Step(kind: Kind, rows: seq<Video>, baseName: Name, t: Tree, x: Artifact): Tree
    requires |x.path| >= 1
  {
    Apply(t, x.path, PlanAsWritten(kind, rows, baseName, t, x))
  }

  /** Nothing lies strictly below `p`: `p` is a file of a well-formed tree. */
  predicate Leaf(t: Tree, p: Path) {
    forall q :: q in t && Within(p, q) ==> q == p
  }

  /**
   * Moving a file into a new directory beside it: the file's content is at the
   * destination, the file is gone, every other entry but the destination is
   * unchanged, and the only entries added are the destination and the new
   * directory with its missing ancestors.
   */
  lemma MoveEffect(t: Tree, p: Path, newDir: Path, dst: Path)
    requires p in t && Leaf(t, p)
    requires |p| == |newDir| && p != newDir && |dst| == |newDir| + 1 && dst[..|newDir|] == newDir
    ensures var r := Renamed(WithDirs(t, newDir), p, dst);
      dst in r && r[dst] == t[p] && p !in r &&
      (forall q :: q in t && q != p && q != dst ==> q in r && r[q] == t[q]) &&
      (forall q :: q in r && q !in t ==> q == dst || Within(q, newDir))
  {
    var w := WithDirs(t, newDir);
    var r := Renamed(w, p, dst);
    assert !Within(p, newDir);
    assert Leaf(w, p);
    assert p == p + p[|p|..];
    assert dst == dst + p[|p|..];
    forall q | q in t && q != p && q != dst ensures q in r && r[q] == t[q] {
      assert !Within(p, q);
      assert Within(dst, q) ==> q[|dst|..] != [] && Within(p, p + q[|dst|..]);
    }
    forall q | q in r && q !in t ensures q == dst || Within(q, newDir) {
      assert Within(dst, q) ==> Within(p, p + q[|dst|..]) && q == dst + q[|dst|..];
    }
  }

  /** Deleting the source: the file is gone and everything else, the destination included, is unchanged. */
  lemma DeleteEffect(t: Tree, p: Path, newDir: Path, dst: Path)
    requires p in t && dst in t && p != dst
    ensures var r := Removed(WithDirs(t, newDir), p);
      p !in r && dst in r && r[dst] == t[dst] &&
      (forall q :: q in t && q != p ==> q in r && r[q] == t[q]) &&
      (forall q :: q in r && q !in t ==> Within(q, newDir))
  {
  }

  /**
   * One file: skipped and unmatched files leave the tree as it is; a moved file
   * takes its content to the destination (the mp3 pass replacing whatever was
   * there); a deleted file leaves the destination as it was. Nothing else
   * changes apart from the directories created on the way.
   */
  lemma StepEffect(kind: Kind, rows: seq<Video>, baseName: Name, t: Tree, x: Artifact)
    requires |x.path| >= 1 && x.path in t && Leaf(t, x.path)
    requires PlanAsWritten(kind, rows, baseName, t, x).Move? || PlanAsWritten(kind, rows, baseName, t, x).Delete? ==>
      PlanAsWritten(kind, rows, baseName, t, x).newDir != x.path
    ensures var a := PlanAsWritten(kind, rows, baseName, t, x); var r := Step(kind, rows, baseName, t, x);
      ((a.AlreadyPlaced? || a.NotFound?) ==> r == t) &&
      (a.Move? ==> a.dst in r && r[a.dst] == t[x.path] && x.path !in r) &&
      (a.Delete? ==> x.path !in r && a.dst in r && r[a.dst] == t[a.dst]) &&
      (forall q :: q in t && q != x.path && !(a.Move? && q == a.dst) ==> q in r && r[q] == t[q]) &&
      (forall q :: q in r && q !in t ==> (a.Move? || a.Delete?) && (q == a.dst || Within(q, a.newDir)))
  {
    var p := x.path;
    var a := PlanAsWritten(kind, rows, baseName, t, x);
    match a
    case AlreadyPlaced =>
    case NotFound =>
    case Move(newDir, dst) =>
      MoveEffect(t, p, newDir, dst);
    case Delete(newDir, dst) =>
      DeleteEffect(t, p, newDir, dst);
  }

  // ---------------------------------------------------------------------
  // A whole pass

  /** The tree after a pass has processed the artifacts `xs` in order. */
  function Reconciled(kind: Kind, rows: seq<Video>, baseName: Name, t: Tree, xs: seq<Artifact>): Tree
    requires forall k :: 0 <= k < |xs| ==> |xs[k].path| >= 1
    decreases |xs|
  {
    if xs == [] then t
    else Step(kind, rows, baseName, Reconciled(kind, rows, baseName, t, xs[..|xs| - 1]), xs[|xs| - 1])
  }

  /**
   * `move_remaining_{mp3,txt,json}_to_their_subdirs` on the tree below a base
   * directory named `baseName`: the catalog normalised, the artifacts collected
   * from the walk, then each of them reconciled in turn.
   */
  function MoveRemaining(kind: Kind, catalog: seq<Video>, baseName: Name, t: Tree, walk: seq<Visit>): Tree {
    Reconciled(kind, NormalizeCatalog(catalog), baseName, t, Titled(kind, Artifacts(walk, Suffix(kind))))
  }

  /** No name along `q` ends with `suffix`. */
  predicate Unrelated(q: Path, suffix: string) {
    forall i :: 0 <= i < |q| ==> !EndsWith(q[i], suffix)
  }

  lemma DestinationEndsWithSuffix(d: string, suffix: string)
    ensures EndsWith(d + suffix, suffix)
  {
    assert (d + suffix)[|d|..] == suffix;
  }

  /** An entry none of whose names ends with `suffix` does not lie at or below a path whose last name does. */
  lemma UnrelatedNotBelow(p: Path, q: Path, suffix: string)
    requires |p| >= 1 && EndsWith(p[|p| - 1], suffix) && Unrelated(q, suffix)
    ensures !Within(p, q)
  {
  }

  /** A pass never changes an entry none of whose names ends with the suffix it collects. */
  lemma {:induction false} ReconcileKeepsUnrelated(kind: Kind, rows: seq<Video>, baseName: Name, t: Tree, xs: seq<Artifact>, q: Path)
    requires forall k :: 0 <= k < |xs| ==> |xs[k].path| >= 1 && EndsWith(xs[k].path[|xs[k].path| - 1], Suffix(kind))
    requires q in t && Unrelated(q, Suffix(kind))
    ensures var r := Reconciled(kind, rows, baseName, t, xs); q in r && r[q] == t[q]
    decreases |xs|
  {
    if xs != [] {
      var init := xs[..|xs| - 1];
      var x := xs[|xs| - 1];
      ReconcileKeepsUnrelated(kind, rows, baseName, t, init, q);
      var prev := Reconciled(kind, rows, baseName, t, init);
      assert Reconciled(kind, rows, baseName, t, xs) == Step(kind, rows, baseName, prev, x);
      StepKeepsUnrelated(kind, rows, baseName, prev, x, q);
    }
  }

  /** One step never changes an entry none of whose names ends with the suffix. */
  lemma StepKeepsUnrelated(kind: Kind, rows: seq<Video>, baseName: Name, t: Tree, x: Artifact, q: Path)
    requires |x.path| >= 1 && EndsWith(x.path[|x.path| - 1], Suffix(kind))
    requires q in t && Unrelated(q, Suffix(kind))
    ensures var r := Step(kind, rows, baseName, t, x); q in r && r[q] == t[q]
  {
    var a := PlanAsWritten(kind, rows, baseName, t, x);
    if a.Move? {
      var dir := x.path[..|x.path| - 1];
      assert a.dst == a.newDir + [a.newDir[|dir|] + Suffix(kind)];
      DestinationEndsWithSuffix(a.newDir[|dir|], Suffix(kind));
    }
    ApplyKeepsUnrelated(t, x.path, a, q, Suffix(kind));
  }

  /** Carrying out a decision leaves alone an entry none of whose names ends with the suffix. */
  lemma ApplyKeepsUnrelated(t: Tree, p: Path, a: Action, q: Path, suffix: string)
    requires |p| >= 1 && EndsWith(p[|p| - 1], suffix)
    requires a.Move? ==> |a.dst| >= 1 && EndsWith(a.dst[|a.dst| - 1], suffix)
    requires q in t && Unrelated(q, suffix)
    ensures var r := Apply(t, p, a); q in r && r[q] == t[q]
  {
    UnrelatedNotBelow(p, q, suffix);
    match a
    case AlreadyPlaced =>
    case NotFound =>
    case Delete(newDir, dst) =>
      var w := WithDirs(t, newDir);
      assert q in w && w[q] == t[q];
    case Move(newDir, dst) =>
      UnrelatedNotBelow(dst, q, suffix);
      var w := WithDirs(t, newDir);
      assert q in w && w[q] == t[q];
  }

  /** A pass in which no file's title scores above zero against the catalog changes nothing. */
  lemma {:induction false} UnmatchedPassIsIdentity(kind: Kind, rows: seq<Video>, baseName: Name, t: Tree, xs: seq<Artifact>)
    requires forall k :: 0 <= k < |xs| ==> |xs[k].path| >= 1
    requires forall k :: 0 <= k < |xs| ==> BestMatch(xs[k].title, Titles(rows)).None?
    ensures Reconciled(kind, rows, baseName, t, xs) == t
    decreases |xs|
  {
    if xs != [] {
      UnmatchedPassIsIdentity(kind, rows, baseName, t, xs[..|xs| - 1]);
    }
  }

  /** The file name a pass gives to an artifact it places in directory `d`. */
  function PlacedName(kind: Kind, d: string): string {
    d + Suffix(kind)
  }

  /**
   * A file already where the passes put it, `<D>/<D><suffix>` for a tidy name
   * `D`, is left alone by every corrected pass.
   */
  lemma PlacedFileIsSkipped(kind: Kind, rows: seq<Video>, baseName: Name, t: Tree, dir: Path, d: string)
    requires TidyTitle(d)
    ensures Plan(kind, rows, baseName, t, Artifact(dir + [d, PlacedName(kind, d)], RecoveredTitle(kind, PlacedName(kind, d)))).AlreadyPlaced?
  {
    PlacedTitleRecovered(kind, d);
    assert ContainingDir(dir + [d, PlacedName(kind, d)], baseName) == d;
  }

  /** A file the corrected pass moves is left alone by the next pass, when its new name is tidy. */
  lemma MovedFileStaysPut(kind: Kind, rows: seq<Video>, baseName: Name, t: Tree, x: Artifact, t': Tree)
    requires |x.path| >= 1 && Plan(kind, rows, baseName, t, x).Move?
    requires TidyTitle(Plan(kind, rows, baseName, t, x).newDir[|x.path| - 1])
    ensures var dst := Plan(kind, rows, baseName, t, x).dst;
      Plan(kind, rows, baseName, t', Artifact(dst, RecoveredTitle(kind, dst[|dst| - 1]))).AlreadyPlaced?
  {
    var a := Plan(kind, rows, baseName, t, x);
    var d := a.newDir[|x.path| - 1];
    assert a.newDir == a.newDir[..|x.path| - 1] + [d];
    assert a.dst == a.newDir[..|x.path| - 1] + [d, PlacedName(kind, d)];
    PlacedFileIsSkipped(kind, rows, baseName, t', a.newDir[..|x.path| - 1], d);
  }

  /**
   * The file sits where the passes put it, `<D>/<D><suffix>` for a tidy `D`,
   * and carries the title `D` that the pass reads off its name (`PlacedTitleRecovered`).
   */
  predicate Placed(kind: Kind, x: Artifact) {
    |x.path| >= 2 && TidyTitle(x.path[|x.path| - 2]) &&
    x.path[|x.path| - 1] == PlacedName(kind, x.path[|x.path| - 2]) && x.title == x.path[|x.path| - 2]
  }

  /** The corrected pass: the same loop, deciding with `Plan`. */
  function ReconciledCorrected(kind: Kind, rows: seq<Video>, baseName: Name, t: Tree, xs: seq<Artifact>): Tree
    requires forall k :: 0 <= k < |xs| ==> |xs[k].path| >= 1
    decreases |xs|
  {
    if xs == [] then t
    else
      var prev := ReconciledCorrected(kind, rows, baseName, t, xs[..|xs| - 1]);
      var x := xs[|xs| - 1];
      Apply(prev, x.path, Plan(kind, rows, baseName, prev, x))
  }

  /** A corrected pass over files that are all already placed changes nothing. */
  lemma {:induction false} PlacedPassIsIdentity(kind: Kind, rows: seq<Video>, baseName: Name, t: Tree, xs: seq<Artifact>)
    requires forall k :: 0 <= k < |xs| ==> |xs[k].path| >= 2 && Placed(kind, xs[k])
    ensures ReconciledCorrected(kind, rows, baseName, t, xs) == t
    decreases |xs|
  {
    if xs != [] {
      var init := xs[..|xs| - 1];
      var x := xs[|xs| - 1];
      assert forall k :: 0 <= k < |init| ==> init[k] == xs[k];
      PlacedPassIsIdentity(kind, rows, baseName, t, init);
      PlacedStepIsIdentity(kind, rows, baseName, t, x);
    }
  }

  lemma PlacedStepIsIdentity(kind: Kind, rows: seq<Video>, baseName: Name, t: Tree, x: Artifact)
    requires Placed(kind, x)
    ensures Plan(kind, rows, baseName, t, x).AlreadyPlaced?
  {
    assert ContainingDir(x.path, baseName) == x.title;
  }

  /** The title read off the name of a placed file is the name of its directory. */
  lemma PlacedTitleRecovered(kind: Kind, d: string)
    requires TidyTitle(d)
    ensures RecoveredTitle(kind, PlacedName(kind, d)) == d
  {
    if kind == Audio {
      Mp3TitleRoundTrip(d);
    } else {
      SuffixHasOneDot(kind);
      ArtifactTitleRoundTrip(d, Suffix(kind), SuffixDot(kind));
    }
  }

  /** As written, a txt or json file titled `d` inside directory `d` is moved on whenever `d` matches a catalog title. */
  lemma MatchedInOwnDirMoves(kind: Kind, rows: seq<Video>, baseName: Name, t: Tree, dir: Path, d: string)
    requires kind != Audio && BestMatch(d, Titles(rows)).Some?
    ensures var p := dir + [d, PlacedName(kind, d)];
      var a := PlanAsWritten(kind, rows, baseName, t, Artifact(p, d));
      (a.Move? || a.Delete?) && a.newDir[..|p| - 1] == dir + [d] && a.newDir[|p| - 1] != d
  {
    var p := dir + [d, PlacedName(kind, d)];
    assert ContainingDir(p, baseName) == d;
    assert p[..|p| - 1] == dir + [d];
  }

  /**
   * As written, the txt and json passes move a file they have already placed
   * once more, into `<D>/<date>_<D>`, whenever its name `D` scores above zero
   * against some catalog title.
   */
  lemma PlacedArtifactMovedAgain(kind: Kind, rows: seq<Video>, baseName: Name, t: Tree, dir: Path, d: string)
    requires kind != Audio && TidyTitle(d)
    requires BestMatch(d, Titles(rows)).Some?
    ensures var p := dir + [d, PlacedName(kind, d)];
      var a := PlanAsWritten(kind, rows, baseName, t, Artifact(p, RecoveredTitle(kind, PlacedName(kind, d))));
      (a.Move? || a.Delete?) && a.newDir[..|p| - 1] == dir + [d] && a.newDir[|p| - 1] != d
  {
    PlacedTitleRecovered(kind, d);
    MatchedInOwnDirMoves(kind, rows, baseName, t, dir, d);
  }

  /**
   * The json file of "2023 Recap", published 2023-12-30, already sits in
   * `2023-12-30_2023 Recap/`; the json pass as written moves it on into a new
   * directory inside that one.
   */
  lemma RecapIsMovedAgain()
    ensures var d := "2023-12-30_2023 Recap";
      var x := Artifact([d, PlacedName(Diarization, d)], RecoveredTitle(Diarization, PlacedName(Diarization, d)));
      var a := PlanAsWritten(Diarization, [Video("2023 Recap", "2023-12-30")], "chan", map[], x);
      a.Move? && a.newDir[..1] == [d] && a.newDir[1] != d
  {
    var d := "2023-12-30_2023 Recap";
    var p: Path := [d, PlacedName(Diarization, d)];
    RecapIsTidy();
    RecapMatches();
    assert [] + p == p;
    PlacedArtifactMovedAgain(Diarization, [Video("2023 Recap", "2023-12-30")], "chan", map[], [], d);
  }

  lemma RecapIsTidy()
    ensures TidyTitle("2023-12-30_2023 Recap")
  {
    var d := "2023-12-30_2023 Recap";
    assert forall i :: 0 <= i < |d| ==> d[i] != '.' && (d[i] == ' ' ==> i == 15);
  }

  lemma RecapMatches()
    ensures BestMatch("2023-12-30_2023 Recap", Titles([Video("2023 Recap", "2023-12-30")])) == Some("2023 Recap")
  {
    var titles := Titles([Video("2023 Recap", "2023-12-30")]);
    assert titles == ["2023 Recap"];
    assert Overlap("2023-12-30_2023 Recap", "2023 Recap") >= 1;
    assert titles[..0] == [];
  }

  // ---------------------------------------------------------------------
  // The imperative pass

  /** One iteration of the processing loop, for the file at `x.path` whose recovered title is `x.title`. */
  method ReconcileFile(fs: FileSystem, kind: Kind, rows: seq<Video>, titles: seq<string>, baseName: Name, x: Artifact)
    requires |x.path| >= 1 && titles == Titles(rows)
    modifies fs
    ensures fs.entries == Step(kind, rows, baseName, old(fs.entries), x)
  {
    var p, title := x.path, x.title;
    ghost var t := fs.entries;
    var containing := ContainingDir(p, baseName);
    if kind == Audio && title == containing {
      assert PlanAsWritten(kind, rows, baseName, t, x) == AlreadyPlaced;
      return;
    }
    var best := FindClosestMatch(title, titles);
    var row := FirstWithTitle(rows, best);
    if row.None? {
      assert PlanAsWritten(kind, rows, baseName, t, x) == NotFound;
      return;
    }
    var d := row.value.publishedDate + "_" + title;
    if kind != Audio && d == containing {
      assert PlanAsWritten(kind, rows, baseName, t, x) == AlreadyPlaced;
      return;
    }
    var newDir := p[..|p| - 1] + [d];
    var dst := newDir + [d + Suffix(kind)];
    assert PlanAsWritten(kind, rows, baseName, t, x) == if kind != Audio && dst in t then Delete(newDir, dst) else Move(newDir, dst);
    PlaceFile(fs, kind, p, newDir, dst);
  }

  /** The end of an iteration: `os.makedirs(new_dir)`, then the file is deleted when its copy exists, otherwise moved. */
  method PlaceFile(fs: FileSystem, kind: Kind, p: Path, newDir: Path, dst: Path)
    requires Within(newDir, dst) && dst != newDir
    modifies fs
    ensures fs.entries == Apply(old(fs.entries), p, if kind != Audio && dst in old(fs.entries) then Delete(newDir, dst) else Move(newDir, dst))
  {
    fs.MakeDirs(newDir);
    if kind != Audio && fs.Exists(dst) {
      assert dst in old(fs.entries);
      fs.Remove(p);
    } else {
      fs.Rename(p, dst);
    }
  }

  /** The processing loop of a pass over the collected files `xs`. */
  method ReconcileAll(fs: FileSystem, kind: Kind, rows: seq<Video>, baseName: Name, xs: seq<Artifact>)
    requires forall k :: 0 <= k < |xs| ==> |xs[k].path| >= 1
    modifies fs
    ensures fs.entries == Reconciled(kind, rows, baseName, old(fs.entries), xs)
  {
    var titles := Titles(rows);
    for i := 0 to |xs|
      invariant fs.entries == Reconciled(kind, rows, baseName, old(fs.entries), xs[..i])
    {
      assert xs[..i + 1][..i] == xs[..i];
      ReconcileFile(fs, kind, rows, titles, baseName, xs[i]);
    }
    assert xs[..|xs|] == xs;
  }

  /** `move_remaining_{mp3,txt,json}_to_their_subdirs`. */
  method MoveRemainingToSubdirs(fs: FileSystem, kind: Kind, catalog: seq<Video>, baseName: Name, walk: seq<Visit>)
    modifies fs
    ensures fs.entries == MoveRemaining(kind, catalog, baseName, old(fs.entries), walk)
  {
    var rows := NormalizeCatalog(catalog);
    var paths := CollectArtifacts(walk, Suffix(kind));
    ReconcileAll(fs, kind, rows, baseName, Titled(kind, paths));
  }
}
