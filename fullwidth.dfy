/**
 * The full-width clean-up: every name in the artifact tree that holds a
 * full-width form of a printable ASCII character is rewritten with the ASCII
 * character, visiting the tree bottom-up; a renamed entry that would land on
 * an existing name is deleted instead.
 */
module Fullwidth {
  import opened FileTree

  /** The full-width forms U+FF01..U+FF5E of the printable ASCII characters U+0021..U+007E. */
  predicate IsFullwidth(c: char) {
    0xFF01 <= c as int <= 0xFF5E
  }

  predicate IsPrintableAscii(c: char) {
    0x21 <= c as int <= 0x7E
  }

  /** The full-width form of a printable ASCII character. */
  function AsciiToFullwidth(a: char): (c: char)
    requires IsPrintableAscii(a)
    ensures IsFullwidth(c)
  {
    (a as int + 0xFEE0) as char
  }

  /** `fullwidth_to_ascii`: a full-width character becomes its ASCII character, any other stays. */
  function FullwidthToAscii(c: char): (a: char)
    ensures IsFullwidth(c) ==> IsPrintableAscii(a) && AsciiToFullwidth(a) == c
    ensures !IsFullwidth(c) ==> a == c
    ensures !IsFullwidth(a)
  {
    if IsFullwidth(c) then (c as int - 0xFEE0) as char else c
  }

  /** Every printable ASCII character is the image of exactly its full-width form. */
  lemma AsciiRoundTrip(a: char)
    requires IsPrintableAscii(a)
    ensures FullwidthToAscii(AsciiToFullwidth(a)) == a
  {
  }

  lemma FullwidthToAsciiIdempotent(c: char)
    ensures FullwidthToAscii(FullwidthToAscii(c)) == FullwidthToAscii(c)
  {
  }

  /** `''.join(fullwidth_to_ascii(ch) for ch in name)`. */
  function MapName(name: Name): (r: Name)
    ensures |r| == |name|
    ensures forall i :: 0 <= i < |name| ==> r[i] == FullwidthToAscii(name[i])
  {
    seq(|name|, i requires 0 <= i < |name| => FullwidthToAscii(name[i]))
  }

  /** A name the mapping changes: it holds a full-width character. */
  predicate Dirty(name: Name) {
    MapName(name) != name
  }

  lemma DirtyIffFullwidth(name: Name)
    ensures Dirty(name) <==> exists i :: 0 <= i < |name| && IsFullwidth(name[i])
  {
    if exists i :: 0 <= i < |name| && IsFullwidth(name[i]) {
      var i :| 0 <= i < |name| && IsFullwidth(name[i]);
      assert MapName(name)[i] != name[i];
    }
  }

  /** A mapped name is clean, so mapping twice is mapping once. */
  lemma MapNameIdempotent(name: Name)
    ensures !Dirty(MapName(name))
  {
  }

  /** One entry of a directory listing: its name and whether it was listed among the subdirectories. */
  datatype Item = Item(name: Name, isDir: bool)

  /** The names of one of the two lists of a visit, as entries. */
  function Items(names: seq<Name>, isDir: bool): (items: seq<Item>)
    ensures |items| == |names|
    ensures forall i :: 0 <= i < |names| ==> items[i] == Item(names[i], isDir)
  {
    seq(|names|, i requires 0 <= i < |names| => Item(names[i], isDir))
  }

  /** The order a visit handles its entries in: files first, then directories. */
  function Listing(v: Visit): (items: seq<Item>)
    ensures |items| == |v.files| + |v.dirs|
    ensures forall i :: 0 <= i < |v.files| ==> items[i] == Item(v.files[i], false)
    ensures forall i :: 0 <= i < |v.dirs| ==> items[|v.files| + i] == Item(v.dirs[i], true)
  {
    Items(v.files, false) + Items(v.dirs, true)
  }

  /**
   * The handling of one listed entry of `root`. A clean name is left alone.
   * A dirty one is renamed to its mapped name when nothing is there yet;
   * otherwise it is deleted, a directory together with everything below it.
   */
  function CleanItem(t: Tree, root: Path, it: Item): (t': Tree)
    ensures !Dirty(it.name) ==> t' == t
    ensures Dirty(it.name) ==> root + [it.name] !in t'
    ensures Dirty(it.name) && root + [MapName(it.name)] !in t && root + [it.name] in t ==>
      root + [MapName(it.name)] in t' && t'[root + [MapName(it.name)]] == t[root + [it.name]]
    ensures root + [MapName(it.name)] in t ==> root + [MapName(it.name)] in t' && t'[root + [MapName(it.name)]] == t[root + [MapName(it.name)]]
    ensures Dirty(it.name) && it.isDir && root + [MapName(it.name)] in t ==> forall q :: q in t' ==> !Within(root + [it.name], q)
  {
    var src := root + [it.name];
    var dst := root + [MapName(it.name)];
    WithinChild(root, it.name, dst);
    WithinChild(root, MapName(it.name), src);
    assert src[..|src|] == src && src[|src|..] == [] && dst + src[|src|..] == dst;
    if !Dirty(it.name) then t
    else if dst in t then (if it.isDir then RemovedTree(t, src) else Removed(t, src))
    else Renamed(t, src, dst)
  }

  /** The entries of one listing handled in order. */
  function CleanItems(t: Tree, root: Path, items: seq<Item>): Tree
    decreases |items|
  {
    if items == [] then t
    else CleanItem(CleanItems(t, root, items[..|items| - 1]), root, items[|items| - 1])
  }

  /** `clean_fullwidth_characters` over the visits of a bottom-up walk. */
  function CleanWalk(m: Tree, walk: seq<Visit>): Tree
    decreases |walk|
  {
    if walk == [] then m
    else
      var v := walk[|walk| - 1];
      CleanItems(CleanWalk(m, walk[..|walk| - 1]), v.root, Listing(v))
  }

  /** The body of either loop of `clean_fullwidth_characters` for one entry. */
  method CleanEntry(fs: FileSystem, root: Path, it: Item)
    modifies fs
    ensures fs.entries == CleanItem(old(fs.entries), root, it)
  {
    var newName := MapName(it.name);
    if newName != it.name {
      if fs.Exists(root + [newName]) {
        if it.isDir {
          fs.RemoveTree(root + [it.name]);
        } else {
          fs.Remove(root + [it.name]);
        }
      } else {
        fs.Rename(root + [it.name], root + [newName]);
      }
    }
  }

  /** One loop of a visit: the listed files, or the listed subdirectories, in order. */
  method CleanNames(fs: FileSystem, root: Path, names: seq<Name>, isDir: bool)
    modifies fs
    ensures fs.entries == CleanItems(old(fs.entries), root, Items(names, isDir))
  {
    var items := Items(names, isDir);
    ghost var t0 := fs.entries;
    for j := 0 to |names|
      invariant fs.entries == CleanItems(t0, root, items[..j])
    {
      CleanItemsNext(t0, root, items, j);
      CleanEntry(fs, root, Item(names[j], isDir));
    }
    assert items[..|names|] == items;
  }

  /** Handling one more entry of a listing. */
  lemma CleanItemsNext(t: Tree, root: Path, items: seq<Item>, j: nat)
    requires j < |items|
    ensures CleanItems(t, root, items[..j + 1]) == CleanItem(CleanItems(t, root, items[..j]), root, items[j])
  {
    assert items[..j + 1][..j] == items[..j];
  }

  /** Handling `a` and then `b` is handling `a + b`. */
  lemma {:induction false} CleanItemsAppend(t: Tree, root: Path, a: seq<Item>, b: seq<Item>)
    ensures CleanItems(t, root, a + b) == CleanItems(CleanItems(t, root, a), root, b)
    decreases |b|
  {
    if b != [] {
      var ab := a + b;
      var last := b[|b| - 1];
      CleanItemsAppend(t, root, a, b[..|b| - 1]);
      assert ab[..|ab| - 1] == a + b[..|b| - 1] && ab[|ab| - 1] == last;
      assert CleanItems(t, root, ab) == CleanItem(CleanItems(t, root, ab[..|ab| - 1]), root, last);
      assert CleanItems(CleanItems(t, root, a), root, b) ==
        CleanItem(CleanItems(CleanItems(t, root, a), root, b[..|b| - 1]), root, last);
    } else {
      assert a + b == a;
    }
  }

  /** One visit: first the files, then the subdirectories. */
  method CleanVisitEntries(fs: FileSystem, v: Visit)
    modifies fs
    ensures fs.entries == CleanItems(old(fs.entries), v.root, Listing(v))
  {
    CleanNames(fs, v.root, v.files, false);
    CleanNames(fs, v.root, v.dirs, true);
    CleanItemsAppend(old(fs.entries), v.root, Items(v.files, false), Items(v.dirs, true));
  }

  /** `clean_fullwidth_characters(base_path)`, given the visits `os.walk(base_path, topdown=False)` makes. */
  method CleanFullwidthCharacters(fs: FileSystem, walk: seq<Visit>)
    modifies fs
    ensures fs.entries == CleanWalk(old(fs.entries), walk)
  {
    for i := 0 to |walk|
      invariant fs.entries == CleanWalk(old(fs.entries), walk[..i])
    {
      assert walk[..i + 1][..i] == walk[..i];
      CleanVisitEntries(fs, walk[i]);
    }
    assert walk[..|walk|] == walk;
  }

  // ---------------------------------------------------------------------
  // Properties of the pass

  /** A listing of clean names changes nothing. */
  lemma {:induction false} CleanItemsOfCleanNames(t: Tree, root: Path, items: seq<Item>)
    requires forall i :: 0 <= i < |items| ==> !Dirty(items[i].name)
    ensures CleanItems(t, root, items) == t
    decreases |items|
  {
    if items != [] {
      CleanItemsOfCleanNames(t, root, items[..|items| - 1]);
    }
  }

  /** Every name a visit lists is clean. */
  predicate CleanVisit(v: Visit) {
    (forall i :: 0 <= i < |v.files| ==> !Dirty(v.files[i])) &&
    (forall i :: 0 <= i < |v.dirs| ==> !Dirty(v.dirs[i]))
  }

  /** A walk of a tree whose names are all clean performs no mutation: a second run changes nothing. */
  lemma {:induction false} CleanWalkFixpoint(m: Tree, walk: seq<Visit>)
    requires forall k :: 0 <= k < |walk| ==> CleanVisit(walk[k])
    ensures CleanWalk(m, walk) == m
    decreases |walk|
  {
    if walk != [] {
      var v := walk[|walk| - 1];
      CleanWalkFixpoint(m, walk[..|walk| - 1]);
      CleanItemsOfCleanNames(m, v.root, Listing(v));
    }
  }

  /** `n` is among the names of `items`. */
  predicate Lists(items: seq<Item>, n: Name) {
    exists i :: 0 <= i < |items| && items[i].name == n
  }

  /**
   * After a listing is handled, every name directly in `root` is clean, or
   * it was there before and was not listed.
   */
  lemma {:induction false} CleanItemsChildren(t: Tree, root: Path, items: seq<Item>, n: Name)
    requires root + [n] in CleanItems(t, root, items)
    ensures !Dirty(n) || (root + [n] in t && !Lists(items, n))
    decreases |items|
  {
    if items != [] {
      var init := items[..|items| - 1];
      var it := items[|items| - 1];
      var t1 := CleanItems(t, root, init);
      var q := root + [n];
      if q in t1 {
        CleanItemsChildren(t, root, init, n);
        if Dirty(n) {
          assert it.name != n;
          forall i | 0 <= i < |items| ensures items[i].name != n {
            if i < |items| - 1 {
              assert init[i] == items[i];
            }
          }
        }
      } else if Dirty(it.name) {
        var dst := root + [MapName(it.name)];
        WithinChild(root, MapName(it.name), q);
        assert q[|root|] == n;
        MapNameIdempotent(it.name);
      }
    }
  }

  /** After a visit that lists every entry of its directory, every name left in that directory is clean. */
  lemma VisitLeavesCleanNames(t: Tree, v: Visit)
    requires forall n :: n in Children(t, v.root) ==> Lists(Listing(v), n)
    ensures forall n :: n in Children(CleanItems(t, v.root, Listing(v)), v.root) ==> !Dirty(n)
  {
    forall n | n in Children(CleanItems(t, v.root, Listing(v)), v.root) ensures !Dirty(n) {
      CleanItemsChildren(t, v.root, Listing(v), n);
    }
  }

  /** `q` is a listed dirty entry of `root`, or lies below one. */
  predicate Affected(root: Path, items: seq<Item>, q: Path) {
    |q| > |root| && q[..|root|] == root && Dirty(q[|root|]) && Lists(items, q[|root|])
  }

  lemma NotAffectedByPrefix(root: Path, items: seq<Item>, q: Path)
    requires items != [] && !Affected(root, items, q)
    ensures !Affected(root, items[..|items| - 1], q)
  {
    var init := items[..|items| - 1];
    if |q| > |root| && q[..|root|] == root && Dirty(q[|root|]) {
      forall i | 0 <= i < |init| ensures init[i].name != q[|root|] {
        assert init[i] == items[i];
      }
    }
  }

  /** Handling one entry leaves alone what is neither at nor below its old or its new path. */
  lemma CleanItemFrame(t: Tree, root: Path, it: Item, q: Path)
    requires q in t && !Within(root + [it.name], q)
    requires root + [MapName(it.name)] in t || !Within(root + [MapName(it.name)], q)
    ensures q in CleanItem(t, root, it) && CleanItem(t, root, it)[q] == t[q]
  {
  }

  /**
   * A visit leaves alone every entry that is neither a listed dirty name of
   * its directory nor below one: same path, same content.
   */
  lemma {:induction false} CleanItemsFrame(m: Tree, root: Path, items: seq<Item>, q: Path)
    requires ChildrenClosed(m, root)
    requires q in m && !Affected(root, items, q)
    ensures q in CleanItems(m, root, items) && CleanItems(m, root, items)[q] == m[q]
    decreases |items|, 2
  {
    if items != [] {
      var init := items[..|items| - 1];
      var it := items[|items| - 1];
      var t1 := CleanItems(m, root, init);
      NotAffectedByPrefix(root, items, q);
      CleanItemsFrame(m, root, init, q);
      if Dirty(it.name) {
        var dst := root + [MapName(it.name)];
        assert Lists(items, it.name) by { assert items[|items| - 1].name == it.name; }
        WithinChild(root, it.name, q);
        if dst !in t1 {
          AbsentTargetHoldsNothing(m, root, init, q, MapName(it.name));
        }
        CleanItemFrame(t1, root, it, q);
      }
    }
  }

  /** Under the frame, no surviving entry lies at or below a clean name that is absent. */
  lemma AbsentTargetHoldsNothing(m: Tree, root: Path, init: seq<Item>, q: Path, c: Name)
    requires ChildrenClosed(m, root)
    requires !Dirty(c) && root + [c] !in CleanItems(m, root, init)
    requires q in m && q in CleanItems(m, root, init) && !Affected(root, init, q)
    ensures !Within(root + [c], q)
    decreases |init| + 1, 1
  {
    WithinChild(root, c, q);
    if |q| > |root| && q[..|root|] == root {
      var p := root + [q[|root|]];
      assert q[..|root| + 1] == p;
      if |q| > |root| + 1 {
        ChildSurvives(m, root, init, q, p);
      } else {
        assert q == p;
      }
      assert p in CleanItems(m, root, init);
    }
  }

  lemma ChildSurvives(m: Tree, root: Path, init: seq<Item>, q: Path, p: Path)
    requires ChildrenClosed(m, root)
    requires q in m && !Affected(root, init, q)
    requires |q| > |root| + 1 && q[..|root|] == root && p == q[..|root| + 1]
    ensures p in CleanItems(m, root, init)
    decreases |init| + 1, 0
  {
    assert p in m;
    assert p[..|root|] == root && p[|root|] == q[|root|];
    assert !Affected(root, init, p);
    CleanItemsFrame(m, root, init, p);
  }

  // ---------------------------------------------------------------------
  // A bottom-up walk leaves clean names, so a second run changes nothing

  /** `n` is among the names of `items` listed as directories. */
  predicate ListsDir(items: seq<Item>, n: Name) {
    exists i :: 0 <= i < |items| && items[i] == Item(n, true)
  }

  lemma ListsSnoc(items: seq<Item>, n: Name)
    requires items != []
    ensures Lists(items, n) <==> Lists(items[..|items| - 1], n) || items[|items| - 1].name == n
    ensures ListsDir(items, n) <==> ListsDir(items[..|items| - 1], n) || items[|items| - 1] == Item(n, true)
  {
    var init := items[..|items| - 1];
    if Lists(items, n) && items[|items| - 1].name != n {
      var i :| 0 <= i < |items| && items[i].name == n;
      assert init[i] == items[i];
    }
    if ListsDir(items, n) && items[|items| - 1] != Item(n, true) {
      var i :| 0 <= i < |items| && items[i] == Item(n, true);
      assert init[i] == items[i];
    }
    if Lists(init, n) {
      var i :| 0 <= i < |init| && init[i].name == n;
      assert items[i] == init[i];
    }
    if ListsDir(init, n) {
      var i :| 0 <= i < |init| && init[i] == Item(n, true);
      assert items[i] == init[i];
    }
  }

  /** Every name in the tree at or below `d`, after `d` itself, is clean. */
  predicate CleanBelow(t: Tree, d: Path) {
    forall q, j :: q in t && Within(d, q) && |d| <= j < |q| ==> !Dirty(q[j])
  }

  /**
   * Where an entry strictly below `root` came from, after a listing is handled:
   * an entry `q0` below `root` that had the same name or the name `q` now has
   * mapped, and the same names below that. A name still dirty was not moved,
   * was not listed as a directory and, on a direct child, was not listed at all.
   */
  predicate Origin(t: Tree, root: Path, items: seq<Item>, q: Path, q0: Path) {
    |q| > |root| && q0 in t && |q0| == |q| && q0[..|root|] == root &&
    q0[|root| + 1..] == q[|root| + 1..] &&
    (q[|root|] == q0[|root|] || q[|root|] == MapName(q0[|root|])) &&
    (Dirty(q[|root|]) ==> q0 == q && !ListsDir(items, q[|root|]) && (|q| == |root| + 1 ==> !Lists(items, q[|root|])))
  }

  /** Every entry strictly below `root` after a listing is handled has an origin in the tree before. */
  lemma {:induction false} CleanItemsOrigin(t: Tree, root: Path, items: seq<Item>, q: Path)
    requires |q| > |root| && q[..|root|] == root && q in CleanItems(t, root, items)
    ensures exists q0 :: Origin(t, root, items, q, q0)
    decreases |items|
  {
    if items == [] {
      assert Origin(t, root, items, q, q);
    } else {
      var init := items[..|items| - 1];
      var it := items[|items| - 1];
      var t1 := CleanItems(t, root, init);
      var src := root + [it.name];
      var dst := root + [MapName(it.name)];
      if q in t1 && (!Dirty(it.name) || !Within(src, q) || (!it.isDir && q != src && dst in t1)) {
        CleanItemsOrigin(t, root, init, q);
        var q0 :| Origin(t, root, init, q, q0);
        KeptOrigin(t, root, items, q, q0);
      } else {
        assert Dirty(it.name) && dst !in t1;
        assert Within(dst, q) && src + q[|dst|..] in t1;
        var q1 := src + q[|dst|..];
        WithinChild(root, MapName(it.name), q);
        assert q1[..|root|] == root && q1[|root|] == it.name && q1[|root| + 1..] == q[|root| + 1..];
        CleanItemsOrigin(t, root, init, q1);
        var q0 :| Origin(t, root, init, q1, q0);
        MovedOrigin(t, root, items, it.name, q, q1, q0);
      }
    }
  }

  /** An entry the last item of a listing leaves in place keeps the origin it had before. */
  lemma KeptOrigin(t: Tree, root: Path, items: seq<Item>, q: Path, q0: Path)
    requires items != [] && |q| > |root| && q[..|root|] == root
    requires Origin(t, root, items[..|items| - 1], q, q0)
    requires var it := items[|items| - 1];
      !Dirty(it.name) || !Within(root + [it.name], q) || (!it.isDir && q != root + [it.name])
    ensures Origin(t, root, items, q, q0)
  {
    ListsSnoc(items, q[|root|]);
    WithinChild(root, items[|items| - 1].name, q);
  }

  /** An entry moved from `q1` onto the mapped name of a dirty `name` has the origin of `q1`. */
  lemma MovedOrigin(t: Tree, root: Path, items: seq<Item>, name: Name, q: Path, q1: Path, q0: Path)
    requires items != [] && Dirty(name) && |q| > |root| && |q1| == |q|
    requires q1[|root|] == name && q[|root|] == MapName(name) && q1[|root| + 1..] == q[|root| + 1..]
    requires Origin(t, root, items[..|items| - 1], q1, q0)
    ensures Origin(t, root, items, q, q0)
  {
    MapNameIdempotent(q0[|root|]);
    MapNameIdempotent(name);
  }

  /** A listing only adds entries strictly below its directory. */
  lemma {:induction false} CleanItemsAddsBelow(t: Tree, root: Path, items: seq<Item>, q: Path)
    requires q in CleanItems(t, root, items) && !(|q| > |root| && q[..|root|] == root)
    ensures q in t
    decreases |items|
  {
    if items != [] {
      var it := items[|items| - 1];
      WithinChild(root, it.name, q);
      WithinChild(root, MapName(it.name), q);
      CleanItemsAddsBelow(t, root, items[..|items| - 1], q);
    }
  }

  /**
   * A visit lists what its directory holds: every direct entry among its
   * files or directories, and every entry holding entries among its directories.
   */
  predicate ListsEntries(t: Tree, v: Visit) {
    (forall q :: q in t && |q| > |v.root| && q[..|v.root|] == v.root ==> q[|v.root|] in v.files || q[|v.root|] in v.dirs) &&
    (forall q :: q in t && |q| > |v.root| + 1 && q[..|v.root|] == v.root ==> q[|v.root|] in v.dirs)
  }

  lemma ListingLists(v: Visit, n: Name)
    ensures n in v.files ==> Lists(Listing(v), n)
    ensures n in v.dirs ==> ListsDir(Listing(v), n)
  {
    if n in v.files {
      var i :| 0 <= i < |v.files| && v.files[i] == n;
      assert Listing(v)[i].name == n;
    }
    if n in v.dirs {
      var i :| 0 <= i < |v.dirs| && v.dirs[i] == n;
      assert Listing(v)[|v.files| + i] == Item(n, true);
    }
  }

  /**
   * A visit that lists what its directory holds, after all its listed
   * subdirectories are clean below, leaves its directory clean below.
   */
  lemma VisitCleansBelow(t: Tree, v: Visit, q: Path, j: int)
    requires ListsEntries(t, v)
    requires forall n :: n in v.dirs ==> CleanBelow(t, v.root + [n])
    requires q in CleanItems(t, v.root, Listing(v)) && Within(v.root, q) && |v.root| <= j < |q|
    ensures !Dirty(q[j])
  {
    var root := v.root;
    CleanItemsOrigin(t, root, Listing(v), q);
    var q0 :| Origin(t, root, Listing(v), q, q0);
    var n0 := q0[|root|];
    ListingLists(v, n0);
    if j == |root| {
      MapNameIdempotent(n0);
    } else {
      assert q[j] == q[|root| + 1..][j - |root| - 1] == q0[j];
      WithinChild(root, n0, q0);
      assert n0 in v.dirs;
      assert !Dirty(q0[j]);
    }
  }

  /** The directories a walk visits. */
  function Roots(walk: seq<Visit>): (roots: set<Path>)
    ensures forall k :: 0 <= k < |walk| ==> walk[k].root in roots
    ensures forall r :: r in roots ==> exists k :: 0 <= k < |walk| && walk[k].root == r
  {
    set k | 0 <= k < |walk| :: walk[k].root
  }

  /** `os.walk(..., topdown=False)`: each listed subdirectory was visited before its parent. */
  predicate BottomUp(walk: seq<Visit>) {
    forall k, n :: 0 <= k < |walk| && n in walk[k].dirs ==> walk[k].root + [n] in Roots(walk[..k])
  }

  /** Each visit lists what its directory holds when the visit begins. */
  predicate WalkListsEntries(m: Tree, walk: seq<Visit>) {
    forall k :: 0 <= k < |walk| ==> ListsEntries(CleanWalk(m, walk[..k]), walk[k])
  }

  /** After a bottom-up walk that lists what each directory holds, every visited directory is clean below. */
  lemma {:induction false} CleanWalkCleansVisited(m: Tree, walk: seq<Visit>)
    requires BottomUp(walk) && WalkListsEntries(m, walk)
    ensures forall r :: r in Roots(walk) ==> CleanBelow(CleanWalk(m, walk), r)
    decreases |walk|
  {
    if walk != [] {
      var n := |walk| - 1;
      var init := walk[..n];
      var v := walk[n];
      WalkPrefix(m, walk, n);
      CleanWalkCleansVisited(m, init);
      LastVisit(m, walk);
      RootsSnoc(walk);
      VisitKeepsCleanAll(CleanWalk(m, init), v, Roots(init));
    }
  }

  /** What the conditions on a walk say of its last visit. */
  lemma LastVisit(m: Tree, walk: seq<Visit>)
    requires walk != [] && BottomUp(walk) && WalkListsEntries(m, walk)
    ensures var init := walk[..|walk| - 1];
      var v := walk[|walk| - 1];
      ListsEntries(CleanWalk(m, init), v) &&
      (forall d :: d in v.dirs ==> v.root + [d] in Roots(init)) &&
      CleanWalk(m, walk) == CleanItems(CleanWalk(m, init), v.root, Listing(v))
  {
  }

  /** `VisitKeepsClean` for every directory visited so far and the one visited now. */
  lemma VisitKeepsCleanAll(t1: Tree, v: Visit, visited: set<Path>)
    requires ListsEntries(t1, v)
    requires forall n :: n in v.dirs ==> v.root + [n] in visited
    requires forall d :: d in visited ==> CleanBelow(t1, d)
    ensures forall r :: r in visited || r == v.root ==> CleanBelow(CleanItems(t1, v.root, Listing(v)), r)
  {
    forall r | r in visited || r == v.root ensures CleanBelow(CleanItems(t1, v.root, Listing(v)), r) {
      VisitKeepsClean(t1, v, visited, r);
    }
  }

  /** The conditions on a walk hold of its prefixes. */
  lemma WalkPrefix(m: Tree, walk: seq<Visit>, n: nat)
    requires n <= |walk| && BottomUp(walk) && WalkListsEntries(m, walk)
    ensures BottomUp(walk[..n]) && WalkListsEntries(m, walk[..n])
  {
    var init := walk[..n];
    forall k | 0 <= k < n ensures init[..k] == walk[..k] && init[k] == walk[k] {
    }
  }

  lemma RootsSnoc(walk: seq<Visit>)
    requires walk != []
    ensures forall r :: r in Roots(walk) <==> r in Roots(walk[..|walk| - 1]) || r == walk[|walk| - 1].root
  {
    var init := walk[..|walk| - 1];
    forall k | 0 <= k < |init| ensures init[k] == walk[k] {
    }
  }

  /** One visit of the walk, with every directory visited before it clean below. */
  lemma VisitKeepsClean(t1: Tree, v: Visit, visited: set<Path>, r: Path)
    requires ListsEntries(t1, v)
    requires forall n :: n in v.dirs ==> v.root + [n] in visited
    requires forall d :: d in visited ==> CleanBelow(t1, d)
    requires r in visited || r == v.root
    ensures CleanBelow(CleanItems(t1, v.root, Listing(v)), r)
  {
    var root := v.root;
    var t' := CleanItems(t1, root, Listing(v));
    forall q, j | q in t' && Within(r, q) && |r| <= j < |q| ensures !Dirty(q[j]) {
      if |q| > |root| && q[..|root|] == root {
        if j >= |root| {
          VisitCleansBelow(t1, v, q, j);
        } else {
          AboveVisitUnchanged(t1, root, Listing(v), r, q, j);
        }
      } else {
        CleanItemsAddsBelow(t1, root, Listing(v), q);
        assert r in visited;
      }
    }
  }

  /** The names of an entry down to the visited directory are those of its origin. */
  lemma AboveVisitUnchanged(t1: Tree, root: Path, items: seq<Item>, r: Path, q: Path, j: int)
    requires |q| > |root| && q[..|root|] == root && q in CleanItems(t1, root, items)
    requires Within(r, q) && |r| <= j < |root| && CleanBelow(t1, r)
    ensures !Dirty(q[j])
  {
    CleanItemsOrigin(t1, root, items, q);
    var q0 :| Origin(t1, root, items, q, q0);
    assert q[j] == root[j] == q0[j];
    assert q0[..|r|] == root[..|r|] == q[..|r|];
  }

  /** Every visit of the second run lists only entries of its tree, under the directory the first run cleaned. */
  predicate ListsOnlyPresent(t: Tree, base: Path, v: Visit) {
    Within(base, v.root) &&
    (forall i :: 0 <= i < |v.files| ==> v.root + [v.files[i]] in t) &&
    (forall i :: 0 <= i < |v.dirs| ==> v.root + [v.dirs[i]] in t)
  }

  /** Below a directory that is clean below, a visit listing only present entries lists clean names. */
  lemma PresentNamesClean(t: Tree, base: Path, v: Visit)
    requires CleanBelow(t, base) && ListsOnlyPresent(t, base, v)
    ensures CleanVisit(v)
  {
    forall i | 0 <= i < |v.files| ensures !Dirty(v.files[i]) {
      var q := v.root + [v.files[i]];
      assert q[..|base|] == base && q[|v.root|] == v.files[i];
    }
    forall i | 0 <= i < |v.dirs| ensures !Dirty(v.dirs[i]) {
      var q := v.root + [v.dirs[i]];
      assert q[..|base|] == base && q[|v.root|] == v.dirs[i];
    }
  }

  /**
   * Running the clean-up twice is running it once: after a bottom-up walk of
   * `base` that lists what each directory holds, a second walk under `base`
   * finds only clean names and changes nothing.
   */
  lemma CleanWalkTwice(m: Tree, walk: seq<Visit>, base: Path, again: seq<Visit>)
    requires BottomUp(walk) && WalkListsEntries(m, walk) && base in Roots(walk)
    requires forall k :: 0 <= k < |again| ==> ListsOnlyPresent(CleanWalk(m, walk), base, again[k])
    ensures CleanWalk(CleanWalk(m, walk), again) == CleanWalk(m, walk)
  {
    var t := CleanWalk(m, walk);
    CleanWalkCleansVisited(m, walk);
    assert CleanBelow(t, base);
    forall k | 0 <= k < |again| ensures CleanVisit(again[k]) {
      PresentNamesClean(t, base, again[k]);
    }
    CleanWalkFixpoint(t, again);
  }
}
