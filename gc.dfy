/**
 * `delete_mp3_if_text_or_json_exists`: in every directory below the base,
 * the mp3 files are deleted once a transcript (`.txt`) or diarisation
 * (`.json`) file sits beside them.
 */
module StageGC {
  import opened Text
  import opened FileTree

  predicate IsAudio(n: Name) {
    EndsWith(n, ".mp3")
  }

  predicate IsDerived(n: Name) {
    EndsWith(n, ".txt") || EndsWith(n, ".json")
  }

  /** No name is both an audio file and a derived artifact. */
  lemma AudioIsNotDerived(n: Name)
    ensures !(IsAudio(n) && IsDerived(n))
  {
    assert IsAudio(n) ==> n[|n| - 4..][3] == n[|n| - 1] == '3';
    assert EndsWith(n, ".txt") ==> n[|n| - 4..][3] == n[|n| - 1] == 't';
    assert EndsWith(n, ".json") ==> n[|n| - 5..][4] == n[|n| - 1] == 'n';
  }

  /** The mp3 files listed in `d`. */
  function AudioIn(t: Tree, d: Path): (names: set<Name>)
    ensures forall n :: n in names <==> d + [n] in t && IsAudio(n)
  {
    set n | n in Children(t, d) && IsAudio(n)
  }

  /** `d` lists at least one `.txt` or `.json` file. */
  predicate HasDerived(t: Tree, d: Path) {
    exists n :: n in Children(t, d) && IsDerived(n)
  }

  /** The children of `d` named in `names` removed, everything else kept. */
  function RemovedChildren(t: Tree, d: Path, names: set<Name>): (r: Tree)
    ensures forall q :: q in r <==> q in t && !(|q| == |d| + 1 && q[..|d|] == d && q[|d|] in names)
    ensures forall q :: q in r ==> r[q] == t[q]
  {
    map q | q in t && !(|q| == |d| + 1 && q[..|d|] == d && q[|d|] in names) :: t[q]
  }

  /** The rule for one directory: all its mp3 files go when a derived artifact sits beside them. */
  function CollectDir(t: Tree, d: Path): Tree {
    if AudioIn(t, d) != {} && HasDerived(t, d) then RemovedChildren(t, d, AudioIn(t, d)) else t
  }

  /** A directory is settled when it holds no mp3 file or no derived artifact. */
  predicate Settled(t: Tree, d: Path) {
    AudioIn(t, d) == {} || !HasDerived(t, d)
  }

  /**
   * One directory: the mp3 files are deleted exactly when a derived artifact
   * sits beside them, nothing else is deleted, nothing is added or changed,
   * and the directory is settled afterwards.
   */
  lemma CollectDirSpec(t: Tree, d: Path)
    ensures var r := CollectDir(t, d);
      (forall q :: q in r ==> q in t && r[q] == t[q]) &&
      (forall q :: q in t && q !in r ==> HasDerived(t, d) && |q| == |d| + 1 && q[..|d|] == d && IsAudio(q[|d|])) &&
      (HasDerived(t, d) ==> AudioIn(r, d) == {}) &&
      (!HasDerived(t, d) ==> r == t) &&
      Settled(r, d)
  {
    var r := CollectDir(t, d);
    forall q | q in t && q !in r
      ensures |q| == |d| + 1 && q[..|d|] == d && IsAudio(q[|d|])
    {
      assert q == d + [q[|d|]];
    }
    if HasDerived(t, d) && AudioIn(t, d) != {} {
      var n :| n in Children(t, d) && IsDerived(n);
      AudioIsNotDerived(n);
      assert (d + [n])[..|d|] == d && (d + [n])[|d|] == n;
      assert n in Children(r, d);
      assert HasDerived(r, d);
      forall m | d + [m] in r ensures !IsAudio(m) {
        assert (d + [m])[..|d|] == d && (d + [m])[|d|] == m;
      }
    }
  }

  /** A removal of mp3 files keeps every derived artifact of every directory. */
  lemma CollectDirKeepsDerived(t: Tree, d: Path, e: Path)
    ensures forall n :: IsDerived(n) ==> (e + [n] in CollectDir(t, d) <==> e + [n] in t)
  {
    CollectDirSpec(t, d);
    forall n | IsDerived(n) && e + [n] in t ensures e + [n] in CollectDir(t, d) {
      AudioIsNotDerived(n);
      if |e| == |d| {
        assert (e + [n])[|d|] == n;
      }
    }
  }

  /**
   * The pass reaches `d` and one of its `.mp3` entries is a directory:
   * `os.remove` raises `IsADirectoryError` on it, and nothing catches it.
   */
  predicate RaisesIn(t: Tree, d: Path) {
    HasDerived(t, d) && exists n :: n in AudioIn(t, d) && t[d + [n]].Dir?
  }

  /** A directory treated without raising keeps a well-formed tree well-formed. */
  lemma CollectDirWellFormed(t: Tree, d: Path)
    requires WellFormed(t) && !RaisesIn(t, d)
    ensures WellFormed(CollectDir(t, d))
  {
    var r := CollectDir(t, d);
    forall q | q in r && |q| > 1
      ensures q[..|q| - 1] in r && r[q[..|q| - 1]].Dir?
    {
      var p := q[..|q| - 1];
      assert p in t && t[p].Dir?;
      if |p| == |d| + 1 && p[..|d|] == d && p[|d|] in AudioIn(t, d) {
        assert p == d + [p[|d|]];
      }
    }
  }

  /** A pass in which no directory raises keeps a well-formed tree well-formed. */
  lemma {:induction false} CollectedWellFormed(t: Tree, ds: seq<Path>)
    requires WellFormed(t)
    requires forall k :: 0 <= k < |ds| ==> !RaisesIn(Collected(t, ds[..k]), ds[k])
    ensures WellFormed(Collected(t, ds))
    decreases |ds|
  {
    if ds != [] {
      var init := ds[..|ds| - 1];
      forall k | 0 <= k < |init|
        ensures !RaisesIn(Collected(t, init[..k]), init[k])
      {
        assert init[..k] == ds[..k] && init[k] == ds[k];
      }
      CollectedWellFormed(t, init);
      assert ds[..|ds| - 1] == init;
      CollectDirWellFormed(Collected(t, init), ds[|ds| - 1]);
    }
  }

  /** The directories below the base that the pass visits, in walk order. */
  function Subdirs(walk: seq<Visit>): (ds: seq<Path>)
    ensures forall k :: 0 <= k < |ds| ==> |ds[k]| >= 1
    decreases |walk|
  {
    if walk == [] then []
    else
      Subdirs(walk[..|walk| - 1]) + ChildDirs(walk[|walk| - 1])
  }

  /** The subdirectories one visit of the walk lists, as paths. */
  function ChildDirs(v: Visit): (ds: seq<Path>)
    ensures |ds| == |v.dirs|
    ensures forall k :: 0 <= k < |ds| ==> ds[k] == v.root + [v.dirs[k]]
  {
    seq(|v.dirs|, k requires 0 <= k < |v.dirs| => v.root + [v.dirs[k]])
  }

  /** The tree after the pass has treated the directories `ds` in order. */
  function Collected(t: Tree, ds: seq<Path>): Tree
    decreases |ds|
  {
    if ds == [] then t else CollectDir(Collected(t, ds[..|ds| - 1]), ds[|ds| - 1])
  }

  /** The pass only deletes mp3 files, and only from directories it visits. */
  lemma {:induction false} CollectedOnlyDeletesAudio(t: Tree, ds: seq<Path>)
    ensures var r := Collected(t, ds);
      (forall q :: q in r ==> q in t && r[q] == t[q]) &&
      (forall q :: q in t && q !in r ==> |q| >= 1 && q[..|q| - 1] in ds && IsAudio(q[|q| - 1]))
    decreases |ds|
  {
    if ds != [] {
      var init := ds[..|ds| - 1];
      var d := ds[|ds| - 1];
      CollectedOnlyDeletesAudio(t, init);
      var prev := Collected(t, init);
      CollectDirSpec(prev, d);
      forall q | q in t && q !in Collected(t, ds) ensures |q| >= 1 && q[..|q| - 1] in ds && IsAudio(q[|q| - 1]) {
        if q in prev {
          assert q[..|q| - 1] == d;
        } else {
          assert q[..|q| - 1] in init;
        }
      }
    }
  }

  /** The pass never deletes a `.txt` or `.json` file. */
  lemma {:induction false} CollectedKeepsDerived(t: Tree, ds: seq<Path>, e: Path, n: Name)
    requires IsDerived(n)
    ensures e + [n] in Collected(t, ds) <==> e + [n] in t
    decreases |ds|
  {
    if ds != [] {
      CollectedKeepsDerived(t, ds[..|ds| - 1], e, n);
      CollectDirKeepsDerived(Collected(t, ds[..|ds| - 1]), ds[|ds| - 1], e);
    }
  }

  /** Later steps keep a directory settled: they delete only mp3 files and never a derived artifact. */
  lemma SettledStays(t: Tree, d: Path, e: Path)
    requires Settled(t, d)
    ensures Settled(CollectDir(t, e), d)
  {
    var r := CollectDir(t, e);
    CollectDirSpec(t, e);
    CollectDirKeepsDerived(t, e, d);
    if AudioIn(t, d) == {} {
      forall n | d + [n] in r ensures !IsAudio(n) {
      }
    } else {
      assert forall n :: n in Children(r, d) ==> !IsDerived(n);
    }
  }

  /** After the pass every visited directory is settled. */
  lemma {:induction false} CollectedSettles(t: Tree, ds: seq<Path>)
    ensures forall k :: 0 <= k < |ds| ==> Settled(Collected(t, ds), ds[k])
    decreases |ds|
  {
    if ds != [] {
      var init := ds[..|ds| - 1];
      var prev := Collected(t, init);
      CollectedSettles(t, init);
      CollectDirSpec(prev, ds[|ds| - 1]);
      forall k | 0 <= k < |ds| - 1 ensures Settled(Collected(t, ds), ds[k]) {
        assert ds[k] == init[k];
        SettledStays(prev, ds[k], ds[|ds| - 1]);
      }
    }
  }

  /** A pass over settled directories changes nothing. */
  lemma {:induction false} SettledUnchanged(t: Tree, ds: seq<Path>)
    requires forall k :: 0 <= k < |ds| ==> Settled(t, ds[k])
    ensures Collected(t, ds) == t
    decreases |ds|
  {
    if ds != [] {
      SettledUnchanged(t, ds[..|ds| - 1]);
      assert Settled(t, ds[|ds| - 1]);
    }
  }

  /** Running the pass a second time over the same directories changes nothing. */
  lemma CollectedIdempotent(t: Tree, ds: seq<Path>)
    ensures Collected(Collected(t, ds), ds) == Collected(t, ds)
  {
    CollectedSettles(t, ds);
    SettledUnchanged(Collected(t, ds), ds);
  }

  // ---------------------------------------------------------------------
  // The imperative pass

  lemma RemovedNoChildren(t: Tree, d: Path)
    ensures RemovedChildren(t, d, {}) == t
  {
  }

  /** Removing one more child of `d` extends the set of removed names. */
  lemma RemovedOneMore(t: Tree, d: Path, names: set<Name>, n: Name)
    ensures Removed(RemovedChildren(t, d, names), d + [n]) == RemovedChildren(t, d, names + {n})
  {
    forall q | |q| == |d| + 1 && q[..|d|] == d ensures q == d + [n] <==> q[|d|] == n {
      assert q == q[..|d|] + [q[|d|]];
    }
  }

  /** The loop that removes each mp3 file of `d` in turn. */
  method CollectOneDir(fs: FileSystem, d: Path)
    modifies fs
    ensures fs.entries == CollectDir(old(fs.entries), d)
  {
    var names := fs.ListDir(d);
    var audio := set n | n in names && IsAudio(n);
    var derived := exists n :: n in names && IsDerived(n);
    assert audio == AudioIn(old(fs.entries), d);
    assert derived == HasDerived(old(fs.entries), d);
    if audio != {} && derived {
      var rest := audio;
      ghost var done: set<Name> := {};
      RemovedNoChildren(fs.entries, d);
      while rest != {}
        invariant rest <= audio && done <= audio
        invariant forall m :: m in audio ==> (m in done <==> m !in rest)
        invariant fs.entries == RemovedChildren(old(fs.entries), d, done)
        decreases |rest|
      {
        var n :| n in rest;
        RemovedOneMore(old(fs.entries), d, done, n);
        fs.Remove(d + [n]);
        done := done + {n};
        rest := rest - {n};
      }
      assert done == audio;
    }
  }

  /** Treating `a` and then `b` is treating `a + b`. */
  lemma {:induction false} CollectedAppend(t: Tree, a: seq<Path>, b: seq<Path>)
    ensures Collected(t, a + b) == Collected(Collected(t, a), b)
    decreases |b|
  {
    if b == [] {
      assert a + b == a;
    } else {
      var ab := a + b;
      assert ab[..|ab| - 1] == a + b[..|b| - 1];
      assert ab[|ab| - 1] == b[|b| - 1];
      CollectedAppend(t, a, b[..|b| - 1]);
    }
  }

  /** The inner loop: every subdirectory one visit lists, in order. */
  method CollectVisit(fs: FileSystem, v: Visit)
    modifies fs
    ensures fs.entries == Collected(old(fs.entries), ChildDirs(v))
  {
    ghost var dirs := ChildDirs(v);
    for j := 0 to |v.dirs|
      invariant fs.entries == Collected(old(fs.entries), dirs[..j])
    {
      assert dirs[..j + 1][..j] == dirs[..j];
      CollectOneDir(fs, v.root + [v.dirs[j]]);
    }
    assert dirs[..|v.dirs|] == dirs;
  }

  /** `delete_mp3_if_text_or_json_exists` over the directories the walk lists. */
  method DeleteMp3IfTextOrJsonExists(fs: FileSystem, walk: seq<Visit>)
    modifies fs
    ensures fs.entries == Collected(old(fs.entries), Subdirs(walk))
  {
    for i := 0 to |walk|
      invariant fs.entries == Collected(old(fs.entries), Subdirs(walk[..i]))
    {
      assert walk[..i + 1][..i] == walk[..i];
      CollectedAppend(old(fs.entries), Subdirs(walk[..i]), ChildDirs(walk[i]));
      CollectVisit(fs, walk[i]);
    }
    assert walk[..|walk|] == walk;
  }
}
