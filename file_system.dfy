/**
 * The file system beneath the workspace editor, as the system calls that
 * python/src/toolbox/core/file.py makes see it: a map from resolved paths to
 * regular files and directories, closed under parents.  Symbolic links,
 * permissions and other kinds of entry are not modelled.
 */
module FileSystem {
  import opened Wrappers
  import opened PathPolicy

  datatype Node = FileNode(content: string) | DirNode

  type Tree = map<Path, Node>

  /** `PurePath.parent`: the root is its own parent. */
  function Parent(p: Path): Path {
    if p == [] then [] else p[..|p| - 1]
  }

  /** A directory tree: the root is a directory, every key is resolved, and
      every entry but the root sits in a directory. */
  ghost predicate WellFormed(m: Tree) {
    && [] in m && m[[]].DirNode?
    && (forall p :: p in m ==> Clean(p))
    && (forall p :: p in m && p != [] ==> Parent(p) in m && m[Parent(p)].DirNode?)
  }

  /** `p` and everything below it. */
  function Under(m: Tree, p: Path): set<Path> {
    set q | q in m && p <= q
  }

  /** The names that `iterdir()` yields for directory `d`. */
  function ChildNames(m: Tree, d: Path): set<string> {
    set q | q in m && |q| == |d| + 1 && d <= q :: q[|d|]
  }

  /** The tree with `p` and everything below it removed. */
  function Without(m: Tree, p: Path): Tree {
    map q | q in m && !(p <= q) :: m[q]
  }

  /** `m'` is `m` with some entries below (or at) `p` removed and nothing
      else touched. */
  ghost predicate RemovedOnlyUnder(m': Tree, m: Tree, p: Path) {
    && (forall q :: q in m' ==> q in m && m'[q] == m[q])
    && (forall q :: q in m && !(p <= q) ==> q in m')
  }

  lemma ChildNamesIff(m: Tree, d: Path, n: string)
    ensures n in ChildNames(m, d) <==> d + [n] in m
  {
    if d + [n] in m {
      var q := d + [n];
      assert |q| == |d| + 1 && d <= q && q[|d|] == n;
    }
    if n in ChildNames(m, d) {
      var q :| q in m && |q| == |d| + 1 && d <= q && q[|d|] == n;
      assert q == d + [n];
    }
  }

  /** Every ancestor of an entry is a directory of the tree. */
  lemma {:induction false} AncestorIn(m: Tree, p: Path, k: nat)
    requires WellFormed(m) && p in m && k <= |p|
    ensures p[..k] in m
    ensures k < |p| ==> m[p[..k]].DirNode?
    decreases |p| - k
  {
    if k == |p| {
      assert p[..k] == p;
    } else {
      AncestorIn(m, p, k + 1);
      assert Parent(p[..k + 1]) == p[..k];
    }
  }

  /** Every proper prefix of an entry is a directory of the tree. */
  lemma PrefixIsDir(m: Tree, p: Path, q: Path)
    requires WellFormed(m) && q in m && p < q
    ensures p in m && m[p].DirNode?
  {
    AncestorIn(m, q, |p|);
    assert q[..|p|] == p;
  }

  /** A regular file has nothing below it. */
  lemma FileHasNoDescendants(m: Tree, p: Path)
    requires WellFormed(m) && p in m && m[p].FileNode?
    ensures forall q :: q in m ==> !(p < q)
  {
    forall q | q in m && p < q ensures false {
      PrefixIsDir(m, p, q);
    }
  }

  /** A directory without children has nothing below it. */
  lemma NoChildrenNoDescendants(m: Tree, d: Path)
    requires WellFormed(m) && ChildNames(m, d) == {}
    ensures forall q :: q in m ==> !(d < q)
  {
    forall q | q in m && d < q ensures false {
      AncestorIn(m, q, |d| + 1);
      assert q[..|d| + 1] == d + [q[|d|]];
      ChildNamesIff(m, d, q[|d|]);
    }
  }

  /** Leaving a tree alone removes nothing. */
  lemma RemovedNothing(m: Tree, p: Path)
    ensures RemovedOnlyUnder(m, m, p)
  {
  }

  /** Two removals below `p` compose into one. */
  lemma RemovedOnlyUnderTrans(m'': Tree, m': Tree, m: Tree, p: Path, c: Path)
    requires RemovedOnlyUnder(m', m, p) && RemovedOnlyUnder(m'', m', c) && p <= c
    ensures RemovedOnlyUnder(m'', m, p)
  {
    forall q | q in m && !(p <= q) ensures q in m'' {
      assert !(c <= q);
    }
  }

  /** Once nothing is left below `p` but what was there before, removing the
      whole subtree gives the same tree as removing it from the start. */
  lemma WithoutAfterRemoval(m': Tree, m: Tree, p: Path)
    requires RemovedOnlyUnder(m', m, p)
    ensures Without(m', p) == Without(m, p)
  {
  }

  /** Removing a leaf (a file or an empty directory) keeps the tree shape. */
  lemma RemoveLeafWellFormed(m: Tree, p: Path)
    requires WellFormed(m) && p in m && p != [] && ChildNames(m, p) == {}
    ensures WellFormed(m - {p})
    ensures m - {p} == Without(m, p)
  {
    NoChildrenNoDescendants(m, p);
    var m' := m - {p};
    forall q | q in m && p <= q ensures q == p {
      assert !(p < q);
    }
    assert m'.Keys == Without(m, p).Keys;
  }

  /** A leaf has no children. */
  lemma FileNoChildren(m: Tree, p: Path)
    requires WellFormed(m) && p in m && m[p].FileNode?
    ensures ChildNames(m, p) == {}
  {
    forall n | n in ChildNames(m, p) ensures false {
      ChildNamesIff(m, p, n);
      PrefixIsDir(m, p, p + [n]);
    }
  }

  /** Adding an entry whose parent is a directory keeps the tree shape. */
  lemma AddEntryWellFormed(m: Tree, p: Path, node: Node)
    requires WellFormed(m) && Clean(p) && p != []
    requires Parent(p) in m && m[Parent(p)].DirNode?
    requires p in m ==> m[p].FileNode? && node.FileNode?
    ensures WellFormed(m[p := node])
  {
  }

  // ---------------------------------------------------------------------
  // rename(2)
  // ---------------------------------------------------------------------

  /** Whether a new entry may be made at `p`: its parent must be a directory. */
  function ParentCheck(m: Tree, p: Path): Outcome<OsError> {
    if Parent(p) !in m then Fail(NoSuchEntry)
    else if !m[Parent(p)].DirNode? then Fail(NotADirectory)
    else Pass
  }

  /** The outcome of `os.rename(src, dst)` on POSIX: a file may replace a
      file and a directory an empty directory; nothing moves into itself. */
  function RenameCheck(m: Tree, src: Path, dst: Path): Outcome<OsError> {
    if src !in m then Fail(NoSuchEntry)
    else if src == dst then Pass
    else if src == [] || dst == [] then Fail(Busy)
    else if ParentCheck(m, dst).Fail? then ParentCheck(m, dst)
    else if src < dst then Fail(InvalidMove)
    else if dst !in m then Pass
    else if m[src].FileNode? && m[dst].FileNode? then Pass
    else if m[src].FileNode? then Fail(IsADirectory)
    else if m[dst].FileNode? then Fail(NotADirectory)
    else if ChildNames(m, dst) == {} then Pass
    else Fail(DirectoryNotEmpty)
  }

  /** The tree after `src` and everything below it moved to `dst`, replacing
      whatever leaf stood at `dst`. */
  function Moved(m: Tree, src: Path, dst: Path): Tree {
    if src == dst then m
    else
      var kept := map q | q in m && !(src <= q) && !(dst <= q) :: m[q];
      var keys := set q | q in m && src <= q :: dst + q[|src|..];
      var moved := map k | k in keys && |dst| <= |k| && src + k[|dst|..] in m :: m[src + k[|dst|..]];
      kept + moved
  }

  /** What stood at `src + r` now stands at `dst + r`. */
  lemma MovedAt(m: Tree, src: Path, dst: Path, r: Path)
    requires src + r in m
    ensures dst + r in Moved(m, src, dst) && Moved(m, src, dst)[dst + r] == m[src + r]
  {
    if src != dst {
      var q := src + r;
      assert src <= q && q[|src|..] == r;
      assert (dst + r)[|dst|..] == r;
    }
  }

  /** What stood at `src` now stands at `dst`. */
  lemma MovedTarget(m: Tree, src: Path, dst: Path)
    requires src in m
    ensures dst in Moved(m, src, dst) && Moved(m, src, dst)[dst] == m[src]
  {
    assert src + [] == src && dst + [] == dst;
    MovedAt(m, src, dst, []);
  }

  /** Every entry of the moved tree was either left in place or moved. */
  lemma MovedFrom(m: Tree, src: Path, dst: Path, k: Path)
    requires src != dst && k in Moved(m, src, dst)
    ensures (dst <= k && src + k[|dst|..] in m && Moved(m, src, dst)[k] == m[src + k[|dst|..]])
            || (k in m && !(src <= k) && !(dst <= k) && Moved(m, src, dst)[k] == m[k])
  {
  }

  /** Entries outside both `src` and `dst` are untouched by a move. */
  lemma MovedKeeps(m: Tree, src: Path, dst: Path, q: Path)
    requires q in m && !(src <= q) && !(dst <= q)
    ensures q in Moved(m, src, dst) && Moved(m, src, dst)[q] == m[q]
  {
  }

  /** After a move nothing is left at or below `src` unless it was moved
      onto itself. */
  lemma MovedRemovesSource(m: Tree, src: Path, dst: Path, q: Path)
    requires src != dst && src <= q && !(dst <= q)
    ensures q !in Moved(m, src, dst)
  {
  }

  /** A move onto an ancestor of the source is refused: the ancestor is a
      directory that is not empty, since the source lies below it. */
  lemma AncestorTargetRefused(m: Tree, src: Path, dst: Path)
    requires WellFormed(m) && src in m && dst < src
    ensures RenameCheck(m, src, dst) ==
            if dst == [] then Fail(Busy)
            else if m[src].FileNode? then Fail(IsADirectory)
            else Fail(DirectoryNotEmpty)
  {
    PrefixIsDir(m, dst, src);
    var n := src[|dst|];
    assert src[..|dst| + 1] == dst + [n];
    AncestorIn(m, src, |dst| + 1);
    ChildNamesIff(m, dst, n);
    if dst != [] {
      PrefixIsDir(m, Parent(dst), src);
    }
  }

  /** A move keeps every key resolved. */
  lemma MovedClean(m: Tree, src: Path, dst: Path, k: Path)
    requires WellFormed(m) && Clean(dst) && src != dst && k in Moved(m, src, dst)
    ensures Clean(k)
  {
    MovedFrom(m, src, dst, k);
    if dst <= k {
      var r := k[|dst|..];
      assert Clean(src + r);
      assert k == dst + r;
      forall i | |dst| <= i < |k| ensures IsName(k[i]) {
        assert k[i] == (src + r)[|src| + i - |dst|];
      }
    }
  }

  /** After a permitted move, the parent of `dst` is still a directory. */
  lemma MovedParentOfTarget(m: Tree, src: Path, dst: Path)
    requires WellFormed(m) && RenameCheck(m, src, dst).Pass? && src != dst
    ensures Parent(dst) in Moved(m, src, dst) && Moved(m, src, dst)[Parent(dst)].DirNode?
  {
    assert !(src <= Parent(dst));
    assert !(dst <= Parent(dst));
    MovedKeeps(m, src, dst, Parent(dst));
  }

  /** After a permitted move, the parent of a moved entry below `dst` is the
      moved parent of its source. */
  lemma MovedParentBelowTarget(m: Tree, src: Path, dst: Path, r: Path)
    requires WellFormed(m) && src != dst && src + r in m && r != []
    ensures Parent(dst + r) in Moved(m, src, dst) && Moved(m, src, dst)[Parent(dst + r)].DirNode?
  {
    var q := src + r;
    assert Parent(q) == src + r[..|r| - 1];
    assert Parent(dst + r) == dst + r[..|r| - 1];
    MovedAt(m, src, dst, r[..|r| - 1]);
  }

  /** After a permitted move, an entry left in place keeps its parent. */
  lemma MovedParentKept(m: Tree, src: Path, dst: Path, k: Path)
    requires WellFormed(m) && k in m && k != [] && !(src <= k) && !(dst <= k)
    ensures Parent(k) in Moved(m, src, dst) && Moved(m, src, dst)[Parent(k)].DirNode?
  {
    assert !(src <= Parent(k));
    assert !(dst <= Parent(k));
    MovedKeeps(m, src, dst, Parent(k));
  }

  /** After a permitted move, every entry but the root sits in a directory. */
  lemma MovedParent(m: Tree, src: Path, dst: Path, k: Path)
    requires WellFormed(m) && RenameCheck(m, src, dst).Pass? && src != dst
    requires k in Moved(m, src, dst) && k != []
    ensures Parent(k) in Moved(m, src, dst) && Moved(m, src, dst)[Parent(k)].DirNode?
  {
    MovedFrom(m, src, dst, k);
    if k == dst {
      MovedParentOfTarget(m, src, dst);
    } else if dst <= k {
      var r := k[|dst|..];
      assert k == dst + r;
      MovedParentBelowTarget(m, src, dst, r);
    } else {
      MovedParentKept(m, src, dst, k);
    }
  }

  /** A permitted move keeps the tree shape. */
  lemma MovedWellFormed(m: Tree, src: Path, dst: Path)
    requires WellFormed(m) && Clean(dst)
    requires RenameCheck(m, src, dst).Pass?
    ensures WellFormed(Moved(m, src, dst))
  {
    if src != dst {
      var m' := Moved(m, src, dst);
      MovedKeeps(m, src, dst, []);
      forall k | k in m' ensures Clean(k) {
        MovedClean(m, src, dst, k);
      }
      forall k | k in m' && k != [] ensures Parent(k) in m' && m'[Parent(k)].DirNode? {
        MovedParent(m, src, dst, k);
      }
    }
  }

  // ---------------------------------------------------------------------
  // The system calls
  // ---------------------------------------------------------------------

  /** The file system as seen by the process, with its working directory. */
  class Disk {
    var entries: Tree
    const cwd: Path

    ghost predicate Valid()
      reads this
    {
      WellFormed(entries)
    }

    constructor (entries: Tree, cwd: Path)
      requires WellFormed(entries)
      ensures Valid() && this.entries == entries && this.cwd == cwd
    {
      this.entries := entries;
      this.cwd := cwd;
    }

    /** `Path.is_file()` on a resolved path. */
    predicate IsFile(p: Path)
      reads this
    {
      p in entries && entries[p].FileNode?
    }

    /** `Path.is_dir()` on a resolved path. */
    predicate IsDir(p: Path)
      reads this
    {
      p in entries && entries[p].DirNode?
    }

    /** `open(p, "w").write(content)`: truncate or create a regular file. */
    method WriteText(p: Path, content: string) returns (r: Outcome<OsError>)
      requires Valid() && Clean(p)
      modifies this
      ensures Valid()
      ensures r == (if IsDir(p) then Fail(IsADirectory)
                    else if old(IsFile(p)) then Pass else ParentCheck(old(entries), p))
      ensures r.Pass? ==> entries == old(entries)[p := FileNode(content)]
      ensures r.Fail? ==> entries == old(entries)
    {
      if IsDir(p) {
        return Fail(IsADirectory);
      }
      if !IsFile(p) {
        r := ParentCheck(entries, p);
        if r.Fail? {
          return;
        }
      }
      AddEntryWellFormed(entries, p, FileNode(content));
      entries := entries[p := FileNode(content)];
      r := Pass;
    }

    /** `Path.touch()`: an existing entry of either kind is left as it is
        (only its timestamp changes); otherwise an empty file is made. */
    method Touch(p: Path) returns (r: Outcome<OsError>)
      requires Valid() && Clean(p)
      modifies this
      ensures Valid()
      ensures r == (if p in old(entries) then Pass else ParentCheck(old(entries), p))
      ensures r.Pass? && p !in old(entries) ==> entries == old(entries)[p := FileNode("")]
      ensures r.Fail? || p in old(entries) ==> entries == old(entries)
    {
      if p in entries {
        return Pass;
      }
      r := ParentCheck(entries, p);
      if r.Pass? {
        AddEntryWellFormed(entries, p, FileNode(""));
        entries := entries[p := FileNode("")];
      }
    }

    /** `Path.mkdir()` without `parents` or `exist_ok`. */
    method Mkdir(p: Path) returns (r: Outcome<OsError>)
      requires Valid() && Clean(p)
      modifies this
      ensures Valid()
      ensures r == (if p in old(entries) then Fail(EntryExists) else ParentCheck(old(entries), p))
      ensures r.Pass? ==> entries == old(entries)[p := DirNode]
      ensures r.Fail? ==> entries == old(entries)
    {
      if p in entries {
        return Fail(EntryExists);
      }
      r := ParentCheck(entries, p);
      if r.Pass? {
        AddEntryWellFormed(entries, p, DirNode);
        entries := entries[p := DirNode];
      }
    }

    /** `Path.unlink()`. */
    method Unlink(p: Path) returns (r: Outcome<OsError>)
      requires Valid()
      modifies this
      ensures Valid()
      ensures r == (if p !in old(entries) then Fail(NoSuchEntry)
                    else if old(entries)[p].DirNode? then Fail(IsADirectory) else Pass)
      ensures r.Pass? ==> entries == old(entries) - {p} == Without(old(entries), p)
      ensures r.Fail? ==> entries == old(entries)
    {
      if p !in entries {
        return Fail(NoSuchEntry);
      }
      if entries[p].DirNode? {
        return Fail(IsADirectory);
      }
      FileNoChildren(entries, p);
      RemoveLeafWellFormed(entries, p);
      entries := entries - {p};
      r := Pass;
    }

    /** `Path.rmdir()`: only an empty directory goes. */
    method Rmdir(p: Path) returns (r: Outcome<OsError>)
      requires Valid()
      modifies this
      ensures Valid()
      ensures r == (if p !in old(entries) then Fail(NoSuchEntry)
                    else if old(entries)[p].FileNode? then Fail(NotADirectory)
                    else if p == [] then Fail(Busy)
                    else if ChildNames(old(entries), p) != {} then Fail(DirectoryNotEmpty)
                    else Pass)
      ensures r.Pass? ==> entries == old(entries) - {p} == Without(old(entries), p)
      ensures r.Fail? ==> entries == old(entries)
    {
      if p !in entries {
        return Fail(NoSuchEntry);
      }
      if entries[p].FileNode? {
        return Fail(NotADirectory);
      }
      if p == [] {
        return Fail(Busy);
      }
      if ChildNames(entries, p) != {} {
        return Fail(DirectoryNotEmpty);
      }
      RemoveLeafWellFormed(entries, p);
      entries := entries - {p};
      r := Pass;
    }

    /** `os.rename(src, dst)`. */
    method Rename(src: Path, dst: Path) returns (r: Outcome<OsError>)
      requires Valid() && Clean(dst)
      modifies this
      ensures Valid()
      ensures r == RenameCheck(old(entries), src, dst)
      ensures r.Pass? ==> entries == Moved(old(entries), src, dst)
      ensures r.Fail? ==> entries == old(entries)
    {
      r := RenameCheck(entries, src, dst);
      if r.Pass? {
        MovedWellFormed(entries, src, dst);
        entries := Moved(entries, src, dst);
      }
    }
  }
}
