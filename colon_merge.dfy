/**
 * The colon merge: sibling directories whose names differ only in the
 * full-width colon U+FF1A versus `:` are merged into one. Each sibling's
 * target is the last sibling in the listing with the same standardised name;
 * a sibling moves to its target when the target is absent, and otherwise its
 * entries move into the target one by one, an entry whose standardised name is
 * already taken being deleted. Emptied sources are removed at the very end.
 */
module ColonMerge {
  import opened FileTree
  import opened Text
  import Ordering

  const FullwidthColon: char := '\U{FF1A}'

  /** `standardize_name`: every full-width colon becomes `:`. */
  function Standardize(name: Name): Name {
    ReplaceAll(name, [FullwidthColon], [':'])
  }

  /** Standardising replaces each full-width colon by `:` and changes nothing else. */
  lemma StandardizeSpec(name: Name)
    ensures |Standardize(name)| == |name|
    ensures forall i :: 0 <= i < |name| ==>
      Standardize(name)[i] == if name[i] == FullwidthColon then ':' else name[i]
  {
    ReplaceOneChar(name, FullwidthColon, ':');
  }

  lemma StandardizeIdempotent(name: Name)
    ensures Standardize(Standardize(name)) == Standardize(name)
  {
    var s := Standardize(name);
    StandardizeSpec(name);
    StandardizeSpec(s);
  }

  /** A name without a full-width colon is its own standard name. */
  lemma StandardizeNoColon(name: Name)
    requires FullwidthColon !in name
    ensures Standardize(name) == name
  {
    StandardizeSpec(name);
  }

  // ---------------------------------------------------------------------
  // The map of standard names

  /** `standard_dirs` after the first pass over the listed subdirectories of `root`. */
  function StandardDirs(root: Path, dirs: seq<Name>): (sd: map<Name, Path>)
    ensures forall i :: 0 <= i < |dirs| ==> Standardize(dirs[i]) in sd
    decreases |dirs|
  {
    if dirs == [] then map[]
    else
      var last := dirs[|dirs| - 1];
      StandardDirs(root, dirs[..|dirs| - 1])[Standardize(last) := root + [last]]
  }

  /** `j` is the last index at or after `i` holding a name with the same standard name as `dirs[i]`. */
  predicate TargetIndex(dirs: seq<Name>, i: int, j: int) {
    0 <= i <= j < |dirs| && Standardize(dirs[j]) == Standardize(dirs[i]) &&
    forall k :: j < k < |dirs| ==> Standardize(dirs[k]) != Standardize(dirs[i])
  }

  /** Each sibling's target is the last sibling in the listing that shares its standard name. */
  lemma {:induction false} StandardDirsTarget(root: Path, dirs: seq<Name>, i: int)
    requires 0 <= i < |dirs|
    ensures exists j :: TargetIndex(dirs, i, j) && StandardDirs(root, dirs)[Standardize(dirs[i])] == root + [dirs[j]]
    decreases |dirs|
  {
    var n := |dirs| - 1;
    var init := dirs[..n];
    if Standardize(dirs[n]) == Standardize(dirs[i]) {
      assert TargetIndex(dirs, i, n);
    } else {
      assert i < n;
      StandardDirsTarget(root, init, i);
      var j :| TargetIndex(init, i, j) && StandardDirs(root, init)[Standardize(init[i])] == root + [init[j]];
      assert TargetIndex(dirs, i, j);
    }
  }

  /** The target of a sibling with no later sibling of the same standard name is the sibling itself. */
  lemma LastOfGroupIsOwnTarget(root: Path, dirs: seq<Name>, i: int)
    requires 0 <= i < |dirs|
    requires forall k :: i < k < |dirs| ==> Standardize(dirs[k]) != Standardize(dirs[i])
    ensures StandardDirs(root, dirs)[Standardize(dirs[i])] == root + [dirs[i]]
  {
    StandardDirsTarget(root, dirs, i);
    var j :| TargetIndex(dirs, i, j) && StandardDirs(root, dirs)[Standardize(dirs[i])] == root + [dirs[j]];
    assert j == i;
  }

  /** The first loop of `merge_directories` for one visit. */
  method BuildStandardDirs(root: Path, dirs: seq<Name>) returns (sd: map<Name, Path>)
    ensures sd == StandardDirs(root, dirs)
  {
    sd := map[];
    for j := 0 to |dirs|
      invariant sd == StandardDirs(root, dirs[..j])
    {
      assert dirs[..j + 1][..j] == dirs[..j];
      sd := sd[Standardize(dirs[j]) := root + [dirs[j]]];
    }
    assert dirs[..|dirs|] == dirs;
  }

  // ---------------------------------------------------------------------
  // Moving the entries of a source into its target

  /** No other name in `names` has the same standard name as `n`. */
  predicate Alone(names: set<Name>, n: Name) {
    forall m :: m in names && m != n ==> Standardize(m) != Standardize(n)
  }

  /** One entry of `src`: moved to `dst` under its standard name, or deleted when that name is taken. */
  function MergeItem(t: Tree, src: Path, dst: Path, item: Name): Tree {
    var srcItem := src + [item];
    var dstItem := dst + [Standardize(item)];
    if dstItem in t then Removed(t, srcItem) else Renamed(t, srcItem, dstItem)
  }

  function MergeItems(t: Tree, src: Path, dst: Path, items: seq<Name>): Tree
    decreases |items|
  {
    if items == [] then t
    else MergeItem(MergeItems(t, src, dst, items[..|items| - 1]), src, dst, items[|items| - 1])
  }

  /**
   * At the turn of `items[i]`, its target name is taken and the item is a
   * directory: `os.remove` raises `IsADirectoryError` there, and nothing
   * catches it.
   */
  predicate RaisesAt(t: Tree, src: Path, dst: Path, items: seq<Name>, i: int) {
    0 <= i < |items| &&
    var ti := MergeItems(t, src, dst, items[..i]);
    dst + [Standardize(items[i])] in ti && src + [items[i]] in ti && ti[src + [items[i]]].Dir?
  }

  /** One turn that does not raise keeps the tree well-formed and the target a directory. */
  lemma MergeItemWellFormed(t: Tree, src: Path, dst: Path, item: Name)
    requires WellFormed(t) && Disjoint(src, dst) && dst in t && t[dst].Dir?
    requires !(dst + [Standardize(item)] in t && src + [item] in t && t[src + [item]].Dir?)
    ensures var t' := MergeItem(t, src, dst, item);
      WellFormed(t') && dst in t' && t'[dst].Dir?
  {
    var srcItem := src + [item];
    var dstItem := dst + [Standardize(item)];
    if dstItem in t {
      RemovedFileWellFormed(t, srcItem);
    } else {
      assert dstItem[..|dstItem| - 1] == dst;
      RenamedWellFormed(t, srcItem, dstItem);
      assert !Within(dstItem, dst);
    }
  }

  /**
   * A merge in which no turn raises keeps a well-formed tree well-formed: on
   * every run the code completes, the model's result is a proper tree.
   */
  lemma {:induction false} MergeItemsWellFormed(t: Tree, src: Path, dst: Path, items: seq<Name>)
    requires WellFormed(t) && Disjoint(src, dst) && dst in t && t[dst].Dir?
    requires forall i :: 0 <= i < |items| ==> !RaisesAt(t, src, dst, items, i)
    ensures var t' := MergeItems(t, src, dst, items);
      WellFormed(t') && dst in t' && t'[dst].Dir?
    decreases |items|
  {
    if items != [] {
      var init := items[..|items| - 1];
      forall i | 0 <= i < |init|
        ensures !RaisesAt(t, src, dst, init, i)
      {
        assert init[..i] == items[..i] && init[i] == items[i];
        assert !RaisesAt(t, src, dst, items, i);
      }
      MergeItemsWellFormed(t, src, dst, init);
      assert !RaisesAt(t, src, dst, items, |items| - 1);
      MergeItemWellFormed(MergeItems(t, src, dst, init), src, dst, items[|items| - 1]);
    }
  }

  /**
   * The model's outcome where the code raises: the source `s` holds a
   * directory `a` whose target name `d/a` is taken. The model drops only the
   * key `s/a`, so `s/a/f` is left without a parent.
   */
  lemma ConflictingDirOrphansSubtree()
    ensures var t := map[["s"] := Dir, ["s", "a"] := Dir, ["s", "a", "f"] := File(""), ["d"] := Dir, ["d", "a"] := Dir];
      WellFormed(t) && RaisesAt(t, ["s"], ["d"], ["a"], 0) &&
      ["s", "a", "f"] in MergeItems(t, ["s"], ["d"], ["a"]) && !WellFormed(MergeItems(t, ["s"], ["d"], ["a"]))
  {
    var t := map[["s"] := Dir, ["s", "a"] := Dir, ["s", "a", "f"] := File(""), ["d"] := Dir, ["d", "a"] := Dir];
    assert Standardize("a") == "a";
    assert ["s"] + ["a"] == ["s", "a"];
    assert ["d"] + ["a"] == ["d", "a"];
    assert ["a"][..0] == [];
    var t' := MergeItems(t, ["s"], ["d"], ["a"]);
    assert t' == t - {["s", "a"]};
    assert ["s", "a", "f"][..2] == ["s", "a"];
  }

  /** Whatever already lies in the target keeps its place and content: nothing there is overwritten. */
  lemma {:induction false} MergeItemsKeepsTarget(t: Tree, src: Path, dst: Path, items: seq<Name>, q: Path)
    requires Disjoint(src, dst) && ChildrenClosed(t, dst)
    requires q in t && Within(dst, q)
    ensures q in MergeItems(t, src, dst, items) && MergeItems(t, src, dst, items)[q] == t[q]
    decreases |items|
  {
    if items != [] {
      var init := items[..|items| - 1];
      var item := items[|items| - 1];
      var t1 := MergeItems(t, src, dst, init);
      MergeItemsKeepsTarget(t, src, dst, init, q);
      var srcItem := src + [item];
      var dstItem := dst + [Standardize(item)];
      DisjointBelow(src, dst, q);
      WithinChild(src, item, q);
      WithinChild(dst, Standardize(item), q);
      if dstItem !in t1 && |q| > |dst| {
        var p := q[..|dst| + 1];
        assert p == dst + [q[|dst|]];
        if |q| > |dst| + 1 {
          assert p in t;
          assert Within(dst, p);
          MergeItemsKeepsTarget(t, src, dst, init, p);
        } else {
          assert p == q;
        }
        assert p in t1;
      }
    }
  }

  /** An entry of the source that is left was there from the start and was not listed. */
  lemma {:induction false} MergeItemsSourceChildren(t: Tree, src: Path, dst: Path, items: seq<Name>, n: Name)
    requires Disjoint(src, dst)
    requires src + [n] in MergeItems(t, src, dst, items)
    ensures src + [n] in t && n !in items
    decreases |items|
  {
    if items != [] {
      var init := items[..|items| - 1];
      var item := items[|items| - 1];
      MergeItemSourceChild(MergeItems(t, src, dst, init), src, dst, item, n);
      MergeItemsSourceChildren(t, src, dst, init, n);
      assert forall k :: 0 <= k < |init| ==> items[k] == init[k];
    }
  }

  /** One merge step only takes entries out of the source, and takes out the item it handles. */
  lemma MergeItemSourceChild(t: Tree, src: Path, dst: Path, item: Name, n: Name)
    requires Disjoint(src, dst)
    requires src + [n] in MergeItem(t, src, dst, item)
    ensures src + [n] in t && n != item
  {
    ChildNotBelowOtherChild(src, dst, Standardize(item), n);
    WithinChild(src, item, src + [n]);
    assert (src + [n])[..|src|] == src && (src + [n])[|src|] == n;
  }

  /** A listed entry of the source is still there until its own turn. */
  lemma {:induction false} SourceItemWaits(t: Tree, src: Path, dst: Path, all: seq<Name>, k: nat, i: int)
    requires Disjoint(src, dst) && k <= i < |all| && Ordering.StrictlySorted(all)
    requires src + [all[i]] in t
    ensures src + [all[i]] in MergeItems(t, src, dst, all[..k])
    decreases k
  {
    if k > 0 {
      var init := all[..k][..k - 1];
      assert init == all[..k - 1];
      var item := all[k - 1];
      SourceItemWaits(t, src, dst, all, k - 1, i);
      assert item != all[i];
      WithinChild(src, item, src + [all[i]]);
      assert (src + [all[i]])[..|src|] == src && (src + [all[i]])[|src|] == all[i];
      ChildNotBelowOtherChild(src, dst, Standardize(item), all[i]);
    }
  }

  /** Once its turn has come, each listed entry of the source has a counterpart under its standard name in the target. */
  lemma {:induction false} ItemPlaced(t: Tree, src: Path, dst: Path, all: seq<Name>, k: nat, i: int)
    requires Disjoint(src, dst) && 0 <= i < k <= |all| && Ordering.StrictlySorted(all)
    requires src + [all[i]] in t
    ensures dst + [Standardize(all[i])] in MergeItems(t, src, dst, all[..k])
    decreases k
  {
    var init := all[..k][..k - 1];
    assert init == all[..k - 1];
    var item := all[k - 1];
    var t1 := MergeItems(t, src, dst, init);
    var srcItem := src + [item];
    var dstItem := dst + [Standardize(item)];
    var target := dst + [Standardize(all[i])];
    ChildNotBelowOtherChild(dst, src, item, Standardize(all[i]));
    if i == k - 1 {
      SourceItemWaits(t, src, dst, all, k - 1, i);
      ChildNotBelowOtherChild(src, dst, Standardize(item), item);
      assert srcItem[|srcItem|..] == [] && dstItem + srcItem[|srcItem|..] == dstItem;
    } else {
      ItemPlaced(t, src, dst, all, k - 1, i);
      WithinChild(dst, Standardize(item), target);
      assert target[..|dst|] == dst && target[|dst|] == Standardize(all[i]);
    }
  }

  /** A listed entry of the source, and everything below it, keeps its content until its own turn. */
  lemma {:induction false} SourceSubtreeWaits(t: Tree, src: Path, dst: Path, all: seq<Name>, k: nat, i: int, s: Path)
    requires Disjoint(src, dst) && k <= i < |all| && Ordering.StrictlySorted(all)
    requires src + [all[i]] + s in t
    ensures var q := src + [all[i]] + s;
      q in MergeItems(t, src, dst, all[..k]) && MergeItems(t, src, dst, all[..k])[q] == t[q]
    decreases k
  {
    if k > 0 {
      var init := all[..k][..k - 1];
      assert init == all[..k - 1];
      var item := all[k - 1];
      SourceSubtreeWaits(t, src, dst, all, k - 1, i, s);
      assert item != all[i];
      var q := src + [all[i]] + s;
      assert q[..|src|] == src && q[|src|] == all[i];
      WithinChild(src, item, q);
      DisjointBelow(src, dst, q);
    }
  }

  /** No entry of the source moves onto a standard name none of the entries handled so far has. */
  lemma {:induction false} TargetSlotStaysFree(t: Tree, src: Path, dst: Path, all: seq<Name>, k: nat, name: Name)
    requires Disjoint(src, dst) && k <= |all|
    requires dst + [name] !in t
    requires forall j :: 0 <= j < k ==> Standardize(all[j]) != name
    ensures dst + [name] !in MergeItems(t, src, dst, all[..k])
    decreases k
  {
    if k > 0 {
      var init := all[..k][..k - 1];
      assert init == all[..k - 1];
      var item := all[k - 1];
      TargetSlotStaysFree(t, src, dst, all, k - 1, name);
      var q := dst + [name];
      DisjointBelow(src, dst, q);
      WithinChild(dst, Standardize(item), q);
      assert q[..|dst|] == dst && q[|dst|] == name;
    }
  }

  /**
   * Once its turn has come, the first listed entry of the source with a given
   * standard name that is free in the target sits there under that name with
   * its whole subtree, each entry with the content it had in the source.
   */
  lemma {:induction false} ItemPlacedWithContent(t: Tree, src: Path, dst: Path, all: seq<Name>, k: nat, i: int, s: Path)
    requires Disjoint(src, dst) && 0 <= i < k <= |all| && Ordering.StrictlySorted(all)
    requires src + [all[i]] in t && dst + [Standardize(all[i])] !in t
    requires forall j :: 0 <= j < i ==> Standardize(all[j]) != Standardize(all[i])
    requires src + [all[i]] + s in t
    ensures var t' := MergeItems(t, src, dst, all[..k]);
      dst + [Standardize(all[i])] + s in t' && t'[dst + [Standardize(all[i])] + s] == t[src + [all[i]] + s]
    decreases k
  {
    var init := all[..k][..k - 1];
    assert init == all[..k - 1];
    var item := all[k - 1];
    var t1 := MergeItems(t, src, dst, init);
    var name := Standardize(all[i]);
    var from := src + [all[i]] + s;
    var to := dst + [name] + s;
    if i == k - 1 {
      TargetSlotStaysFree(t, src, dst, all, k - 1, name);
      SourceSubtreeWaits(t, src, dst, all, k - 1, i, s);
      var srcItem := src + [item];
      assert from == srcItem + s && from[..|srcItem|] == srcItem && from[|srcItem|..] == s;
    } else {
      ItemPlacedWithContent(t, src, dst, all, k - 1, i, s);
      ItemPlaced(t, src, dst, all, k - 1, i);
      assert to[..|dst|] == dst && to[|dst|] == name;
      DisjointBelow(src, dst, to);
      WithinChild(src, item, to);
      WithinChild(dst, Standardize(item), to);
    }
  }

  /** `ItemPlacedWithContent` for the whole sorted listing of the source. */
  lemma MergedEntryContent(t: Tree, src: Path, dst: Path, n: Name, s: Path)
    requires Disjoint(src, dst)
    requires n in Children(t, src) && Alone(Children(t, src), n) && dst + [Standardize(n)] !in t
    requires src + [n] + s in t
    ensures var t' := MergeItems(t, src, dst, Ordering.SortedSet(Children(t, src)));
      dst + [Standardize(n)] + s in t' && t'[dst + [Standardize(n)] + s] == t[src + [n] + s]
  {
    var items := Ordering.SortedSet(Children(t, src));
    assert items[..|items|] == items;
    var i :| 0 <= i < |items| && items[i] == n;
    assert forall j :: 0 <= j < i ==> items[j] in Children(t, src) && items[j] != n;
    ItemPlacedWithContent(t, src, dst, items, |items|, i, s);
  }

  /**
   * Merging all entries of the source, in sorted order: every entry of the
   * source ends up with a counterpart under its standard name in the target,
   * what the target held before is kept as it was, an entry whose standard
   * name was free in the target and is shared by no other entry arrives there
   * with its whole subtree and content, and the source is left empty.
   */
  lemma MergeIntoTarget(t: Tree, src: Path, dst: Path)
    requires Disjoint(src, dst) && ChildrenClosed(t, dst)
    ensures var items := Ordering.SortedSet(Children(t, src));
      var t' := MergeItems(t, src, dst, items);
      (forall n :: n in Children(t, src) ==> dst + [Standardize(n)] in t') &&
      (forall q :: q in t && Within(dst, q) ==> q in t' && t'[q] == t[q]) &&
      (forall n, s :: n in Children(t, src) && Alone(Children(t, src), n) && dst + [Standardize(n)] !in t && src + [n] + s in t
         ==> dst + [Standardize(n)] + s in t' && t'[dst + [Standardize(n)] + s] == t[src + [n] + s]) &&
      Children(t', src) == {}
  {
    var items := Ordering.SortedSet(Children(t, src));
    var t' := MergeItems(t, src, dst, items);
    assert items[..|items|] == items;
    forall n | n in Children(t, src) ensures dst + [Standardize(n)] in t' {
      var i :| 0 <= i < |items| && items[i] == n;
      ItemPlaced(t, src, dst, items, |items|, i);
    }
    forall q | q in t && Within(dst, q) ensures q in t' && t'[q] == t[q] {
      MergeItemsKeepsTarget(t, src, dst, items, q);
    }
    forall n, s | n in Children(t, src) && Alone(Children(t, src), n) && dst + [Standardize(n)] !in t && src + [n] + s in t
      ensures dst + [Standardize(n)] + s in t' && t'[dst + [Standardize(n)] + s] == t[src + [n] + s]
    {
      MergedEntryContent(t, src, dst, n, s);
    }
    forall n ensures n !in Children(t', src) {
      if src + [n] in t' {
        MergeItemsSourceChildren(t, src, dst, items, n);
      }
    }
  }

  // ---------------------------------------------------------------------
  // One visit and the whole walk

  /**
   * The second loop of `merge_directories` for one sibling `d` of `root`: the
   * new tree and the source queued for removal, if any.
   */
  function MergeSibling(t: Tree, root: Path, sd: map<Name, Path>, d: Name): (Tree, seq<Path>)
    requires Standardize(d) in sd
  {
    var src := root + [d];
    var dst := sd[Standardize(d)];
    if src == dst then (t, [])
    else if dst !in t then (Renamed(t, src, dst), [])
    else (MergeItems(t, src, dst, Ordering.SortedSet(Children(t, src))), [src])
  }

  function MergeSiblings(t: Tree, root: Path, sd: map<Name, Path>, dirs: seq<Name>): (Tree, seq<Path>)
    requires forall i :: 0 <= i < |dirs| ==> Standardize(dirs[i]) in sd
    decreases |dirs|
  {
    if dirs == [] then (t, [])
    else
      var (t1, q1) := MergeSiblings(t, root, sd, dirs[..|dirs| - 1]);
      var (t2, q2) := MergeSibling(t1, root, sd, dirs[|dirs| - 1]);
      (t2, q1 + q2)
  }

  function MergeVisit(t: Tree, v: Visit): (Tree, seq<Path>) {
    MergeSiblings(t, v.root, StandardDirs(v.root, v.dirs), v.dirs)
  }

  /** The walk phase of `merge_directories`: the tree and the queue of sources to remove. */
  function MergeWalk(m: Tree, walk: seq<Visit>): (Tree, seq<Path>)
    decreases |walk|
  {
    if walk == [] then (m, [])
    else
      var (t1, q1) := MergeWalk(m, walk[..|walk| - 1]);
      var (t2, q2) := MergeVisit(t1, walk[|walk| - 1]);
      (t2, q1 + q2)
  }

  /** The last loop: each queued directory is removed when empty and reported otherwise. */
  function RemoveEmpty(t: Tree, queue: seq<Path>): (r: (Tree, seq<Path>))
    ensures forall q :: q in r.0 ==> q in t && r.0[q] == t[q]
    ensures forall d :: d in r.1 ==> d in queue
    decreases |queue|
  {
    if queue == [] then (t, [])
    else
      var (t1, reported) := RemoveEmpty(t, queue[..|queue| - 1]);
      var d := queue[|queue| - 1];
      assert forall x :: x in reported ==> x in queue[..|queue| - 1];
      if Children(t1, d) == {} then (Removed(t1, d), reported) else (t1, reported + [d])
  }

  /** Only queued directories are removed. */
  lemma {:induction false} RemoveEmptyKeepsUnqueued(t: Tree, queue: seq<Path>, q: Path)
    requires q in t && q !in queue
    ensures q in RemoveEmpty(t, queue).0
    decreases |queue|
  {
    if queue != [] {
      RemoveEmptyKeepsUnqueued(t, queue[..|queue| - 1], q);
    }
  }

  /** Once removed or empty, a directory stays so: the loop only removes. */
  lemma {:induction false} RemoveEmptyRemovesEmpty(t: Tree, queue: seq<Path>, i: int)
    requires 0 <= i < |queue| && Children(t, queue[i]) == {}
    ensures queue[i] !in RemoveEmpty(t, queue).0
    decreases |queue|
  {
    var init := queue[..|queue| - 1];
    var d := queue[|queue| - 1];
    var t1 := RemoveEmpty(t, init).0;
    if i < |queue| - 1 {
      assert init[i] == queue[i];
      RemoveEmptyRemovesEmpty(t, init, i);
    } else {
      assert forall x :: x in Children(t1, d) ==> x in Children(t, d);
      assert Children(t1, d) == {};
    }
  }

  /** A queued directory still present at the end was reported. */
  lemma {:induction false} RemoveEmptyReportsKept(t: Tree, queue: seq<Path>, i: int)
    requires 0 <= i < |queue| && queue[i] in RemoveEmpty(t, queue).0
    ensures queue[i] in RemoveEmpty(t, queue).1
    decreases |queue|
  {
    var init := queue[..|queue| - 1];
    var d := queue[|queue| - 1];
    if i < |queue| - 1 {
      assert init[i] == queue[i];
      assert queue[i] in RemoveEmpty(t, init).0;
      RemoveEmptyReportsKept(t, init, i);
    }
  }

  /** The last turn of the removal loop. */
  lemma RemoveEmptyLast(t: Tree, queue: seq<Path>)
    requires queue != []
    ensures var p := RemoveEmpty(t, queue[..|queue| - 1]);
      var d := queue[|queue| - 1];
      RemoveEmpty(t, queue).0 == (if Children(p.0, d) == {} then Removed(p.0, d) else p.0) &&
      RemoveEmpty(t, queue).1 == if Children(p.0, d) == {} then p.1 else p.1 + [d]
  {
  }

  /** `d` is the `i`-th queued directory and had no entries left at that turn. */
  predicate EmptyAtTurn(t: Tree, queue: seq<Path>, i: int, d: Path) {
    0 <= i < |queue| && queue[i] == d && Children(RemoveEmpty(t, queue[..i]).0, d) == {}
  }

  /** `d` is the `i`-th queued directory and still had entries at that turn. */
  predicate NonEmptyAtTurn(t: Tree, queue: seq<Path>, i: int, d: Path) {
    0 <= i < |queue| && queue[i] == d && Children(RemoveEmpty(t, queue[..i]).0, d) != {}
  }

  /** A directory of the tree is gone at the end only if it was queued and had no entries left at its turn. */
  lemma {:induction false} RemoveEmptyOnlyIfEmpty(t: Tree, queue: seq<Path>, q: Path)
    requires q in t && q !in RemoveEmpty(t, queue).0
    ensures exists i :: EmptyAtTurn(t, queue, i, q)
    decreases |queue|
  {
    var n := |queue| - 1;
    var init := queue[..n];
    var t1 := RemoveEmpty(t, init).0;
    RemoveEmptyLast(t, queue);
    if q in t1 {
      assert EmptyAtTurn(t, queue, n, q);
    } else {
      RemoveEmptyOnlyIfEmpty(t, init, q);
      var i :| EmptyAtTurn(t, init, i, q);
      assert init[..i] == queue[..i];
      assert EmptyAtTurn(t, queue, i, q);
    }
  }

  /** A directory is reported only if it still had entries at one of its turns. */
  lemma {:induction false} RemoveEmptyReportsOnlyNonEmpty(t: Tree, queue: seq<Path>, d: Path)
    requires d in RemoveEmpty(t, queue).1
    ensures exists i :: NonEmptyAtTurn(t, queue, i, d)
    decreases |queue|
  {
    var n := |queue| - 1;
    var init := queue[..n];
    if d in RemoveEmpty(t, init).1 {
      RemoveEmptyReportsOnlyNonEmpty(t, init, d);
      var i :| NonEmptyAtTurn(t, init, i, d);
      NonEmptyAtTurnExtends(t, queue, n, i, d);
    } else {
      RemoveEmptyReportedLast(t, queue, d);
    }
  }

  /** What happened at a turn does not depend on the directories queued after it. */
  lemma NonEmptyAtTurnExtends(t: Tree, queue: seq<Path>, k: nat, i: int, d: Path)
    requires k <= |queue| && NonEmptyAtTurn(t, queue[..k], i, d)
    ensures NonEmptyAtTurn(t, queue, i, d)
  {
    assert queue[..k][..i] == queue[..i];
  }

  /** A directory newly reported at the last turn is the last queued one, and it had entries then. */
  lemma RemoveEmptyReportedLast(t: Tree, queue: seq<Path>, d: Path)
    requires queue != [] && d in RemoveEmpty(t, queue).1 && d !in RemoveEmpty(t, queue[..|queue| - 1]).1
    ensures NonEmptyAtTurn(t, queue, |queue| - 1, d)
  {
    RemoveEmptyLast(t, queue);
  }

  /** A directory present, and reported, after `j` turns stays so when it is not queued again. */
  lemma {:induction false} RemoveEmptyKeepsAfter(t: Tree, queue: seq<Path>, j: nat, q: Path)
    requires j <= |queue| && q in RemoveEmpty(t, queue[..j]).0
    requires forall k :: j <= k < |queue| ==> queue[k] != q
    ensures q in RemoveEmpty(t, queue).0
    ensures q in RemoveEmpty(t, queue[..j]).1 ==> q in RemoveEmpty(t, queue).1
    decreases |queue|
  {
    if j < |queue| {
      var init := queue[..|queue| - 1];
      assert init[..j] == queue[..j];
      RemoveEmptyKeepsAfter(t, init, j, q);
      RemoveEmptyLast(t, queue);
    } else {
      assert queue[..j] == queue;
    }
  }

  /** A directory present and not empty at its turn, and not queued again, is reported and kept. */
  lemma RemoveEmptyKeepsReported(t: Tree, queue: seq<Path>, i: int)
    requires 0 <= i < |queue| && forall k :: i < k < |queue| ==> queue[k] != queue[i]
    requires queue[i] in RemoveEmpty(t, queue[..i]).0 && Children(RemoveEmpty(t, queue[..i]).0, queue[i]) != {}
    ensures queue[i] in RemoveEmpty(t, queue).0 && queue[i] in RemoveEmpty(t, queue).1
  {
    var upTo := queue[..i + 1];
    assert upTo[..i] == queue[..i];
    RemoveEmptyLast(t, upTo);
    RemoveEmptyKeepsAfter(t, queue, i + 1, queue[i]);
  }

  /**
   * With every queued directory in the tree and none queued twice, each
   * reported directory is still there at the end: a directory is never both
   * reported and removed.
   */
  lemma RemoveEmptyReportedKept(t: Tree, queue: seq<Path>)
    requires forall k :: 0 <= k < |queue| ==> queue[k] in t
    requires forall j, k :: 0 <= j < k < |queue| ==> queue[j] != queue[k]
    ensures forall d :: d in RemoveEmpty(t, queue).1 ==> d in RemoveEmpty(t, queue).0
  {
    forall d | d in RemoveEmpty(t, queue).1 ensures d in RemoveEmpty(t, queue).0 {
      RemoveEmptyReportsOnlyNonEmpty(t, queue, d);
      var i :| NonEmptyAtTurn(t, queue, i, d);
      RemoveEmptyKeepsUnqueued(t, queue[..i], d);
      RemoveEmptyKeepsReported(t, queue, i);
    }
  }

  /** `merge_directories(base_path)`, given the visits of `os.walk(base_path)`: the final tree and the directories reported as not empty. */
  function MergeDirectoriesSpec(m: Tree, walk: seq<Visit>): (Tree, seq<Path>) {
    var (t, queue) := MergeWalk(m, walk);
    RemoveEmpty(t, queue)
  }

  /** A sibling that is its own target, in particular one whose standard name no later sibling shares, is left untouched. */
  lemma LastOfGroupUntouched(t: Tree, root: Path, dirs: seq<Name>, i: int)
    requires 0 <= i < |dirs|
    requires forall k :: i < k < |dirs| ==> Standardize(dirs[k]) != Standardize(dirs[i])
    ensures MergeSibling(t, root, StandardDirs(root, dirs), dirs[i]) == (t, [])
  {
    LastOfGroupIsOwnTarget(root, dirs, i);
  }

  /**
   * One sibling of a well-formed tree: left alone when it is its own target;
   * renamed to the target when the target is absent; otherwise merged into the
   * target as `MergeIntoTarget` states, and queued for removal.
   */
  lemma MergeSiblingSpec(t: Tree, root: Path, dirs: seq<Name>, i: int)
    requires 0 <= i < |dirs| && WellFormed(t)
    ensures var sd := StandardDirs(root, dirs);
      var src := root + [dirs[i]];
      var dst := sd[Standardize(dirs[i])];
      var r := MergeSibling(t, root, sd, dirs[i]);
      (src == dst ==> r == (t, [])) &&
      (src != dst && dst !in t ==> r == (Renamed(t, src, dst), [])) &&
      (src != dst && dst in t ==>
        r.1 == [src] && Children(r.0, src) == {} &&
        (forall n :: n in Children(t, src) ==> dst + [Standardize(n)] in r.0) &&
        (forall q :: q in t && Within(dst, q) ==> q in r.0 && r.0[q] == t[q]))
  {
    StandardDirsTarget(root, dirs, i);
    var sd := StandardDirs(root, dirs);
    var j :| TargetIndex(dirs, i, j) && sd[Standardize(dirs[i])] == root + [dirs[j]];
    var src := root + [dirs[i]];
    var dst := root + [dirs[j]];
    if src != dst && dst in t {
      WithinChild(root, dirs[i], dst);
      WithinChild(root, dirs[j], src);
      assert src[..|root|] == root && src[|root|] == dirs[i];
      assert dst[..|root|] == root && dst[|root|] == dirs[j];
      WellFormedChildrenClosed(t, dst);
      MergeIntoTarget(t, src, dst);
    }
  }

  /** A visit none of whose subdirectories has a full-width colon in its name changes nothing. */
  lemma {:induction false} NoColonNoChange(t: Tree, root: Path, dirs: seq<Name>, k: nat)
    requires k <= |dirs|
    requires forall i :: 0 <= i < |dirs| ==> FullwidthColon !in dirs[i]
    ensures MergeSiblings(t, root, StandardDirs(root, dirs), dirs[..k]) == (t, [])
    decreases k
  {
    if k > 0 {
      var i := k - 1;
      assert dirs[..k][..i] == dirs[..i] && dirs[..k][i] == dirs[i];
      NoColonNoChange(t, root, dirs, i);
      StandardDirsTarget(root, dirs, i);
      var j :| TargetIndex(dirs, i, j) && StandardDirs(root, dirs)[Standardize(dirs[i])] == root + [dirs[j]];
      StandardizeNoColon(dirs[i]);
      StandardizeNoColon(dirs[j]);
      assert dirs[j] == dirs[i];
      var sd := StandardDirs(root, dirs);
      assert MergeSibling(t, root, sd, dirs[i]) == (t, []);
      var prev := MergeSiblings(t, root, sd, dirs[..k][..i]);
      assert prev == (t, []);
      var step := MergeSibling(prev.0, root, sd, dirs[..k][i]);
      assert step == (t, []);
      assert MergeSiblings(t, root, sd, dirs[..k]) == (step.0, prev.1 + step.1);
      assert prev.1 + step.1 == [];
      assert MergeSiblings(t, root, sd, dirs[..k]) == (t, []);
    } else {
      assert dirs[..k] == [];
    }
  }

  // ---------------------------------------------------------------------
  // The imperative pass

  /** The second loop of `merge_directories` for one sibling. */
  method MergeOneSibling(fs: FileSystem, root: Path, sd: map<Name, Path>, d: Name) returns (queued: seq<Path>)
    requires Standardize(d) in sd
    modifies fs
    ensures (fs.entries, queued) == MergeSibling(old(fs.entries), root, sd, d)
  {
    var standardName := Standardize(d);
    var src := root + [d];
    var dst := sd[standardName];
    queued := [];
    if src != dst {
      if !fs.Exists(dst) {
        fs.Rename(src, dst);
      } else {
        var items := Ordering.SortedSet(fs.ListDir(src));
        MergeContents(fs, src, dst, items);
        queued := [src];
      }
    }
  }

  /** The loop over the sorted contents of a source whose target already exists. */
  method MergeContents(fs: FileSystem, src: Path, dst: Path, items: seq<Name>)
    modifies fs
    ensures fs.entries == MergeItems(old(fs.entries), src, dst, items)
  {
    ghost var start := fs.entries;
    for k := 0 to |items|
      invariant fs.entries == MergeItems(start, src, dst, items[..k])
    {
      assert items[..k + 1][..k] == items[..k];
      var srcItem := src + [items[k]];
      var dstItem := dst + [Standardize(items[k])];
      if fs.Exists(dstItem) {
        fs.Remove(srcItem);
      } else {
        fs.Rename(srcItem, dstItem);
      }
    }
    assert items[..|items|] == items;
  }

  method MergeVisitDirs(fs: FileSystem, v: Visit) returns (queued: seq<Path>)
    modifies fs
    ensures (fs.entries, queued) == MergeVisit(old(fs.entries), v)
  {
    var standardDirs := BuildStandardDirs(v.root, v.dirs);
    queued := [];
    for j := 0 to |v.dirs|
      invariant (fs.entries, queued) == MergeSiblings(old(fs.entries), v.root, standardDirs, v.dirs[..j])
    {
      MergeSiblingsNext(old(fs.entries), v.root, standardDirs, v.dirs, j);
      var more := MergeOneSibling(fs, v.root, standardDirs, v.dirs[j]);
      queued := queued + more;
    }
    assert v.dirs[..|v.dirs|] == v.dirs;
  }

  lemma MergeSiblingsNext(t: Tree, root: Path, sd: map<Name, Path>, dirs: seq<Name>, j: nat)
    requires j < |dirs| && forall i :: 0 <= i < |dirs| ==> Standardize(dirs[i]) in sd
    ensures MergeSiblings(t, root, sd, dirs[..j + 1]) ==
      var before := MergeSiblings(t, root, sd, dirs[..j]);
      var step := MergeSibling(before.0, root, sd, dirs[j]);
      (step.0, before.1 + step.1)
  {
    assert dirs[..j + 1][..j] == dirs[..j];
  }

  method RemoveEmptyDirectories(fs: FileSystem, queue: seq<Path>) returns (reported: seq<Path>)
    modifies fs
    ensures (fs.entries, reported) == RemoveEmpty(old(fs.entries), queue)
  {
    reported := [];
    for i := 0 to |queue|
      invariant (fs.entries, reported) == RemoveEmpty(old(fs.entries), queue[..i])
    {
      assert queue[..i + 1][..i] == queue[..i];
      if fs.ListDir(queue[i]) == {} {
        fs.Remove(queue[i]);
      } else {
        reported := reported + [queue[i]];
      }
    }
    assert queue[..|queue|] == queue;
  }

  /** `merge_directories(base_path)`: returns the directories it reports as not empty after the merge. */
  method MergeDirectories(fs: FileSystem, walk: seq<Visit>) returns (reported: seq<Path>)
    modifies fs
    ensures (fs.entries, reported) == MergeDirectoriesSpec(old(fs.entries), walk)
  {
    var dirsToRemove: seq<Path> := [];
    for i := 0 to |walk|
      invariant (fs.entries, dirsToRemove) == MergeWalk(old(fs.entries), walk[..i])
    {
      assert walk[..i + 1][..i] == walk[..i];
      var more := MergeVisitDirs(fs, walk[i]);
      dirsToRemove := dirsToRemove + more;
    }
    assert walk[..|walk|] == walk;
    reported := RemoveEmptyDirectories(fs, dirsToRemove);
  }
}
