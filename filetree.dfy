/**
 * The directory tree the pipeline keeps its artifacts in, as an in-memory
 * map from paths to entries. A path is the sequence of names below the base
 * directory of a pass; the base itself is the empty path and is not an entry.
 * The operations are the effects of the `os` and `shutil` calls the code makes.
 */
module FileTree {

  type Name = string
  type Path = seq<Name>

  datatype Entry = File(content: string) | Dir

  type Tree = map<Path, Entry>

  /** One triple of `os.walk`: a directory, the subdirectories and the files it listed. */
  datatype Visit = Visit(root: Path, dirs: seq<Name>, files: seq<Name>)

  /** `q` is `p` itself or lies below `p`. */
  predicate Within(p: Path, q: Path) {
    |p| <= |q| && q[..|p|] == p
  }

  /** The paths within a child `n` of `d` are those below `d` whose next name is `n`. */
  lemma WithinChild(d: Path, n: Name, q: Path)
    ensures Within(d + [n], q) <==> |q| > |d| && q[..|d|] == d && q[|d|] == n
  {
    if |q| > |d| && q[..|d|] == d && q[|d|] == n {
      assert q[..|d| + 1] == q[..|d|] + [q[|d|]];
    }
    if Within(d + [n], q) {
      assert q[..|d|] == q[..|d| + 1][..|d|];
      assert q[|d|] == q[..|d| + 1][|d|];
    }
  }

  /** Every entry's parent, other than the base, is a directory of the tree. */
  predicate WellFormed(m: Tree) {
    forall p :: p in m ==> |p| >= 1 && (|p| == 1 || (p[..|p| - 1] in m && m[p[..|p| - 1]].Dir?))
  }

  /** Every entry deeper than one level below `d` has its child of `d` in the tree. */
  predicate ChildrenClosed(m: Tree, d: Path) {
    forall q :: q in m && |q| > |d| + 1 && q[..|d|] == d ==> q[..|d| + 1] in m
  }

  /** Two paths that both lie above a third lie one above the other. */
  lemma PrefixesComparable(a: Path, b: Path, q: Path)
    ensures Within(a, q) && Within(b, q) ==> Within(a, b) || Within(b, a)
  {
    if Within(a, q) && Within(b, q) {
      if |a| <= |b| {
        assert b[..|a|] == q[..|b|][..|a|];
      } else {
        assert a[..|b|] == q[..|a|][..|b|];
      }
    }
  }

  /** Neither path lies at or below the other. */
  predicate Disjoint(a: Path, b: Path) {
    !Within(a, b) && !Within(b, a)
  }

  /** Nothing lies below two disjoint paths at once. */
  lemma DisjointBelow(a: Path, b: Path, q: Path)
    requires Disjoint(a, b)
    ensures !(Within(a, q) && Within(b, q))
  {
    PrefixesComparable(a, b, q);
  }

  /** A child of one of two disjoint paths never lies below a child of the other. */
  lemma ChildNotBelowOtherChild(a: Path, b: Path, x: Name, n: Name)
    requires Disjoint(a, b)
    ensures !Within(b + [x], a + [n])
  {
    WithinChild(b, x, a + [n]);
    if |b| <= |a| {
      assert (a + [n])[..|b|] == a[..|b|];
    }
  }

  /** In a well-formed tree every non-empty prefix of an entry is an entry. */
  lemma {:induction false} AncestorsPresent(m: Tree, q: Path, j: nat)
    requires WellFormed(m) && q in m && 1 <= j <= |q|
    ensures q[..j] in m
    decreases |q| - j
  {
    if j < |q| {
      AncestorsPresent(m, q, j + 1);
      var p := q[..j + 1];
      assert p[..|p| - 1] == q[..j];
    } else {
      assert q[..j] == q;
    }
  }

  lemma WellFormedChildrenClosed(m: Tree, d: Path)
    requires WellFormed(m)
    ensures ChildrenClosed(m, d)
  {
    forall q | q in m && |q| > |d| + 1 && q[..|d|] == d ensures q[..|d| + 1] in m {
      AncestorsPresent(m, q, |d| + 1);
    }
  }

  /** `os.listdir(d)`: the names directly inside `d`. */
  function Children(m: Tree, d: Path): (names: set<Name>)
    ensures forall n :: n in names <==> d + [n] in m
  {
    var names := set q | q in m && |q| == |d| + 1 && q[..|d|] == d :: q[|d|];
    assert forall n :: d + [n] in m ==> (d + [n])[..|d|] == d && (d + [n])[|d|] == n;
    assert forall q :: q in m && |q| == |d| + 1 && q[..|d|] == d ==> q == d + [q[|d|]];
    names
  }

  /** The directories of the tree. */
  function Directories(m: Tree): set<Path> {
    set p | p in m && m[p].Dir?
  }

  /** `os.remove(p)`. */
  function Removed(m: Tree, p: Path): (m': Tree)
    ensures m'.Keys == m.Keys - {p}
  {
    m - {p}
  }

  /** `shutil.rmtree(p)`: `p` and everything below it disappear. */
  function RemovedTree(m: Tree, p: Path): (m': Tree)
    ensures forall q :: q in m' <==> q in m && !Within(p, q)
    ensures forall q :: q in m' ==> m'[q] == m[q]
  {
    map q | q in m && !Within(p, q) :: m[q]
  }

  /**
   * `os.rename(src, dst)`, and `shutil.move(src, dst)` onto a destination
   * that is not a directory: the entry at `src` and everything below it now
   * sit at `dst`; an entry already at `dst` is replaced.
   */
  function Renamed(m: Tree, src: Path, dst: Path): (m': Tree)
    ensures forall q :: q in m && Within(src, q) ==> dst + q[|src|..] in m' && m'[dst + q[|src|..]] == m[q]
    ensures forall q :: q in m' ==> (q in m && !Within(src, q)) || (Within(dst, q) && src + q[|dst|..] in m)
    ensures forall q :: q in m && !Within(src, q) && !(Within(dst, q) && src + q[|dst|..] in m) ==> q in m' && m'[q] == m[q]
  {
    var kept := map q | q in m && !Within(src, q) :: m[q];
    MovedKeysInjective(src, dst);
    var moved := map q | q in m && Within(src, q) :: dst + q[|src|..] := m[q];
    assert forall q :: q in m && Within(src, q) ==>
      (dst + q[|src|..])[..|dst|] == dst && (dst + q[|src|..])[|dst|..] == q[|src|..] && q == src + q[|src|..];
    kept + moved
  }

  /** `os.remove` of a file, the only kind of entry it accepts, keeps a well-formed tree well-formed. */
  lemma RemovedFileWellFormed(m: Tree, p: Path)
    requires WellFormed(m) && (p in m ==> m[p].File?)
    ensures WellFormed(Removed(m, p))
  {
  }

  /** The conditions under which a move keeps a well-formed tree well-formed. */
  predicate RenameFits(m: Tree, src: Path, dst: Path) {
    WellFormed(m) && |src| >= 1 && |dst| >= 1 && dst !in m &&
    (|dst| == 1 || (dst[..|dst| - 1] in m && m[dst[..|dst| - 1]].Dir? && !Within(src, dst[..|dst| - 1])))
  }

  /** An entry the move leaves in place keeps its parent directory. */
  lemma RenamedKeptParent(m: Tree, src: Path, dst: Path, q: Path)
    requires RenameFits(m, src, dst) && q in m && !Within(src, q) && |q| > 1
    ensures var m' := Renamed(m, src, dst); q[..|q| - 1] in m' && m'[q[..|q| - 1]].Dir?
  {
    var p := q[..|q| - 1];
    assert p in m && m[p].Dir?;
    assert !Within(dst, p) by {
      if Within(dst, p) {
        assert p[..|dst|] == dst;
        AncestorsPresent(m, p, |dst|);
      }
    }
  }

  /** An entry the move brings in has its parent directory. */
  lemma RenamedMovedParent(m: Tree, src: Path, dst: Path, q: Path)
    requires RenameFits(m, src, dst) && Within(dst, q) && src + q[|dst|..] in m && |q| > 1
    ensures var m' := Renamed(m, src, dst); q[..|q| - 1] in m' && m'[q[..|q| - 1]].Dir?
  {
    var r := q[|dst|..];
    assert q == q[..|dst|] + r;
    if r == [] {
      var p := dst[..|dst| - 1];
      assert q[..|q| - 1] == p;
      assert !Within(dst, p);
    } else {
      var q0 := src + r;
      var p0 := src + r[..|r| - 1];
      assert q0[..|q0| - 1] == p0;
      assert p0 in m && m[p0].Dir?;
      assert p0[..|src|] == src && p0[|src|..] == r[..|r| - 1];
      assert q[..|q| - 1] == dst + r[..|r| - 1];
    }
  }

  /**
   * Moving an entry to a free name whose parent is a directory outside the
   * moved entry keeps a well-formed tree well-formed.
   */
  lemma RenamedWellFormed(m: Tree, src: Path, dst: Path)
    requires RenameFits(m, src, dst)
    ensures WellFormed(Renamed(m, src, dst))
  {
    var m' := Renamed(m, src, dst);
    forall q | q in m'
      ensures |q| >= 1 && (|q| == 1 || (q[..|q| - 1] in m' && m'[q[..|q| - 1]].Dir?))
    {
      if q in m && !Within(src, q) {
        if |q| > 1 {
          RenamedKeptParent(m, src, dst, q);
        }
      } else {
        assert Within(dst, q) && src + q[|dst|..] in m;
        if |q| > 1 {
          RenamedMovedParent(m, src, dst, q);
        }
      }
    }
  }

  lemma MovedKeysInjective(src: Path, dst: Path)
    ensures forall q1, q2 :: Within(src, q1) && Within(src, q2) && dst + q1[|src|..] == dst + q2[|src|..] ==> q1 == q2
  {
    forall q1, q2 | Within(src, q1) && Within(src, q2) && dst + q1[|src|..] == dst + q2[|src|..]
      ensures q1 == q2
    {
      assert q1[|src|..] == (dst + q1[|src|..])[|dst|..];
      assert q2[|src|..] == (dst + q2[|src|..])[|dst|..];
      assert q1 == q1[..|src|] + q1[|src|..];
      assert q2 == q2[..|src|] + q2[|src|..];
    }
  }

  /** `os.makedirs(p, exist_ok=True)`: every missing ancestor of `p`, and `p`, become directories. */
  function WithDirs(m: Tree, p: Path): (m': Tree)
    ensures forall q :: q in m ==> q in m' && m'[q] == m[q]
    ensures forall j :: 1 <= j <= |p| ==> p[..j] in m'
    ensures forall q :: q in m' && q !in m ==> q != [] && Within(q, p) && m'[q] == Dir
  {
    m + map j | 1 <= j <= |p| && p[..j] !in m :: p[..j] := Dir
  }

  /** The mutable tree a pass works on. */
  class FileSystem {
    var entries: Tree

    constructor (initial: Tree)
      ensures entries == initial
    {
      entries := initial;
    }

    /** `os.path.exists(p)`. */
    predicate Exists(p: Path)
      reads this
    {
      p in entries
    }

    /** `os.listdir(d)`. */
    function ListDir(d: Path): set<Name>
      reads this
    {
      Children(entries, d)
    }

    method Remove(p: Path)
      modifies this
      ensures entries == Removed(old(entries), p)
    {
      entries := Removed(entries, p);
    }

    method RemoveTree(p: Path)
      modifies this
      ensures entries == RemovedTree(old(entries), p)
    {
      entries := RemovedTree(entries, p);
    }

    method Rename(src: Path, dst: Path)
      modifies this
      ensures entries == Renamed(old(entries), src, dst)
    {
      entries := Renamed(entries, src, dst);
    }

    /** `open(p, 'w').write(content)`: the file `p` is created or truncated and holds `content`. */
    method Write(p: Path, content: string)
      modifies this
      ensures entries == old(entries)[p := File(content)]
    {
      entries := entries[p := File(content)];
    }

    method MakeDirs(p: Path)
      modifies this
      ensures entries == WithDirs(old(entries), p)
    {
      entries := WithDirs(entries, p);
    }
  }
}
