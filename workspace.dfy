/**
 * The handles the editor works through (`core/file.py`): `File`, `Folder`
 * and `AnsibleRootFolder`. Each handle keeps the path it was given, checked
 * by its validators and then resolved; every operation first checks the kind
 * of entry the path designates and, before a change, the custom-roles rule.
 * The file system they act on is a shared `Disk`.
 */
module Workspace {
  import opened Wrappers
  import opened PathPolicy
  import opened FileSystem

  /** `Path("")`, where a handle points once its entry is deleted. */
  const EMPTY := RawPath(false, [])

  /** `PurePath.parent`: the last part dropped (the empty path and "/" are
      their own parents). */
  function ParentOf(raw: RawPath): RawPath {
    RawPath(raw.absolute, if raw.parts == [] then [] else raw.parts[..|raw.parts| - 1])
  }

  /** `base / name`: an absolute `name` replaces `base`. */
  function Join(base: RawPath, name: RawPath): RawPath {
    if name.absolute then RawPath(true, Lexical(name.parts))
    else RawPath(base.absolute, base.parts + Lexical(name.parts))
  }

  /** `path / name` for a name that `iterdir()` yields. */
  function Child(raw: RawPath, name: string): RawPath {
    RawPath(raw.absolute, raw.parts + [name])
  }

  /** Resolving the path of a child is resolving its parent and stepping
      down once. */
  lemma ResolveChild(cwd: Path, raw: RawPath, name: string)
    requires IsName(name)
    ensures Resolve(cwd, Child(raw, name)) == Resolve(cwd, raw) + [name]
  {
    var base := if raw.absolute then raw.parts else cwd + raw.parts;
    assert (if raw.absolute then raw.parts + [name] else cwd + (raw.parts + [name])) == base + [name];
    NormalizeSnoc(base, name);
  }

  /** The validators' view of a path leads where the path itself leads. */
  lemma ResolveLexical(cwd: Path, raw: RawPath)
    ensures Resolve(cwd, RawPath(raw.absolute, Lexical(raw.parts))) == Resolve(cwd, raw)
  {
    NormalizeLexical(if raw.absolute then [] else cwd, raw.parts);
    assert [] + raw.parts == raw.parts && [] + Lexical(raw.parts) == Lexical(raw.parts);
  }

  /** Where `base / name` leads: an absolute `name` leads where it leads on
      its own; a relative one is walked, `..` included, from where `base`
      leads. */
  lemma JoinResolves(cwd: Path, base: RawPath, name: RawPath)
    ensures Resolve(cwd, Join(base, name)) ==
            if name.absolute then Resolve(cwd, name) else Normalize(Resolve(cwd, base) + name.parts)
  {
    if name.absolute {
      NormalizeLexical([], name.parts);
      assert [] + name.parts == name.parts && [] + Lexical(name.parts) == Lexical(name.parts);
    } else {
      var b := if base.absolute then base.parts else cwd + base.parts;
      assert (if base.absolute then base.parts + Lexical(name.parts) else cwd + (base.parts + Lexical(name.parts)))
             == b + Lexical(name.parts);
      NormalizeLexical(b, name.parts);
      NormalizeAppend(b, name.parts);
    }
  }

  /** The parent of a resolved path leads to its parent directory. */
  lemma ParentOfResolved(cwd: Path, p: Path)
    requires Clean(p)
    ensures Resolve(cwd, ParentOf(RawPath(true, p))) == Parent(p)
  {
    NormalizeClean(Parent(p));
  }

  /** Renaming a handle that keeps a resolved path to a plain name moves the
      entry within its own directory. */
  lemma RenameStaysInDirectory(cwd: Path, p: Path, n: string)
    requires Clean(p) && IsName(n)
    ensures Resolve(cwd, Join(ParentOf(RawPath(true, p)), RawPath(false, [n]))) == Parent(p) + [n]
  {
    JoinResolves(cwd, ParentOf(RawPath(true, p)), RawPath(false, [n]));
    ParentOfResolved(cwd, p);
    NormalizeSnoc(Parent(p), n);
    NormalizeClean(Parent(p));
  }

  /** After a rename, `get_name` reports the last part of the new name as
      written. */
  lemma NameAfterRename(base: RawPath, name: RawPath)
    requires Lexical(name.parts) != []
    ensures BaseName(Join(base, name).parts) == BaseName(Lexical(name.parts))
  {
  }

  /** A resolved path resolves to itself, so the second `resolve()` in each
      constructor changes nothing. */
  lemma ResolveResolved(cwd: Path, p: Path)
    requires Clean(p)
    ensures Resolve(cwd, RawPath(true, p)) == p
  {
    NormalizeClean(p);
  }

  /** The names below a resolved directory are plain names. */
  lemma ChildIsName(m: Tree, d: Path, n: string)
    requires WellFormed(m) && n in ChildNames(m, d)
    ensures IsName(n) && d + [n] in m
  {
    ChildNamesIff(m, d, n);
    assert (d + [n])[|d|] == n;
  }

  /** Below `d`, the subtree of child `n` is what starts with `n`. */
  lemma ChildPrefix(d: Path, n: string, q: Path)
    requires d < q
    ensures d + [n] <= q <==> q[|d|] == n
  {
    if q[|d|] == n {
      assert q[..|d| + 1] == d + [n];
    }
  }

  /** The subtree of a child is strictly smaller than that of its parent. */
  lemma SubtreeShrinks(m: Tree, m': Tree, d: Path, n: string)
    requires d in m && forall q :: q in m' ==> q in m
    ensures |Under(m', d + [n])| < |Under(m, d)|
  {
    var small, big := Under(m', d + [n]), Under(m, d);
    forall q | q in small ensures q in big {
      assert q[..|d|] == (d + [n])[..|d|] == d;
    }
    assert d in big - small;
    assert big == small + (big - small);
    assert small !! (big - small);
    assert |big| == |small| + |big - small|;
  }

  /** What `rename` returns once both checks pass: `path.parent / new_name`
      when `os.rename` moves the entry there, the OS error otherwise. */
  function RenameResult(m: Tree, cwd: Path, raw: RawPath, newName: RawPath): Result<RawPath, FsError> {
    var newPath := Join(ParentOf(raw), newName);
    match RenameCheck(m, Resolve(cwd, raw), Resolve(cwd, newPath))
    case Pass => Success(newPath)
    case Fail(e) => Failure(Os(e))
  }

  // ---------------------------------------------------------------------
  // File
  // ---------------------------------------------------------------------

  /** A regular file under the ansible tree. */
  class File {
    const disk: Disk
    var path: RawPath

    constructor (disk: Disk, path: RawPath)
      ensures this.disk == disk && this.path == path
    {
      this.disk := disk;
      this.path := path;
    }

    /** The entry the handle designates: its path as the OS resolves it. */
    function Target(): Path
      reads this
    {
      Resolve(disk.cwd, path)
    }

    /** `File(path)`: the validators see the path as given; the handle
        keeps it resolved. */
    static method Open(disk: Disk, raw: RawPath) returns (r: Result<File, FsError>)
      ensures r.Failure? <==> FileScope(Lexical(raw.parts)).Fail?
      ensures r.Failure? ==> r.error == FileScope(Lexical(raw.parts)).error
      ensures r.Success? ==> fresh(r.value) && r.value.disk == disk
      ensures r.Success? ==> r.value.path == RawPath(true, Resolve(disk.cwd, raw))
      ensures r.Success? ==> r.value.Target() == Resolve(disk.cwd, raw)
    {
      var pure := RawPath(raw.absolute, Lexical(raw.parts));
      var scope := FileScope(pure.parts);
      if scope.Fail? {
        return Failure(scope.error);
      }
      var resolved := Resolve(disk.cwd, pure);
      ResolveLexical(disk.cwd, raw);
      ResolveResolved(disk.cwd, resolved);
      var f := new File(disk, RawPath(true, resolved));
      r := Success(f);
    }

    /** The constructor as evidently intended: the path is resolved first
        and the resolved path is validated, so no `..` leads the handle out
        of the ansible directory it names. */
    static method OpenContained(disk: Disk, raw: RawPath) returns (r: Result<File, FsError>)
      ensures r.Failure? <==> AdmitFile(disk.cwd, raw).Failure?
      ensures r.Success? ==> fresh(r.value) && r.value.disk == disk
      ensures r.Success? ==> r.value.Target() == Resolve(disk.cwd, raw)
      ensures r.Success? ==> IntendedFileScope(r.value.Target()).Pass?
    {
      var admitted := AdmitFile(disk.cwd, raw);
      if admitted.Failure? {
        return Failure(admitted.error);
      }
      var p := admitted.value;
      ResolveResolved(disk.cwd, p);
      var f := new File(disk, RawPath(true, p));
      r := Success(f);
    }

    /** `read_content`. */
    method ReadContent() returns (r: Result<string, FsError>)
      ensures r.Success? <==> disk.IsFile(Target())
      ensures r.Failure? ==> r.error == NotAFile
      ensures r.Success? ==> r.value == disk.entries[Target()].content
    {
      var t := Target();
      if !disk.IsFile(t) {
        return Failure(NotAFile);
      }
      r := Success(disk.entries[t].content);
    }

    /** `write_content`: `osAccepts` stands for whether `open`/`write`
        succeed, which the source turns into the result `False`. */
    method WriteContent(content: string, osAccepts: bool) returns (r: Result<bool, FsError>)
      requires disk.Valid()
      modifies disk
      ensures disk.Valid()
      ensures !old(disk.IsFile(Target())) ==> r == Failure(NotAFile)
      ensures old(disk.IsFile(Target())) && CustomRolesCheck(path.parts).Fail? ==>
                r == Failure(CustomRolesCheck(path.parts).error)
      ensures old(disk.IsFile(Target())) && CustomRolesCheck(path.parts).Pass? ==>
                r == Success(osAccepts)
      ensures r == Success(true) ==> disk.entries == old(disk.entries)[Target() := FileNode(content)]
      ensures r != Success(true) ==> disk.entries == old(disk.entries)
    {
      var t := Target();
      if !disk.IsFile(t) {
        return Failure(NotAFile);
      }
      var c := CustomRolesCheck(path.parts);
      if c.Fail? {
        return Failure(c.error);
      }
      if !osAccepts {
        return Success(false);
      }
      var w := disk.WriteText(t, content);
      r := Success(true);
    }

    /** `write_content` followed by `read_content`: a write that reports
        success is read back as written. */
    method WriteThenRead(content: string, osAccepts: bool) returns (w: Result<bool, FsError>, r: Result<string, FsError>)
      requires disk.Valid()
      modifies disk
      ensures w == Success(true) ==> r == Success(content)
      ensures w != Success(true) ==> r == (if old(disk.IsFile(Target())) then Success(old(disk.entries[Target()].content)) else Failure(NotAFile))
    {
      w := WriteContent(content, osAccepts);
      r := ReadContent();
    }

    /** `create`: an existing file is refused; an existing directory is
        left as it is, since `touch` only updates its timestamp. */
    method Create() returns (r: Outcome<FsError>)
      requires disk.Valid()
      modifies disk
      ensures disk.Valid()
      ensures old(disk.IsFile(Target())) ==> r == Fail(AlreadyExists)
      ensures !old(disk.IsFile(Target())) && CustomRolesCheck(path.parts).Fail? ==>
                r == CustomRolesCheck(path.parts)
      ensures !old(disk.IsFile(Target())) && CustomRolesCheck(path.parts).Pass? ==>
                r == (if Target() in old(disk.entries) then Pass
                      else match ParentCheck(old(disk.entries), Target())
                           case Pass => Pass
                           case Fail(e) => Fail(Os(e)))
      ensures r.Pass? && Target() !in old(disk.entries) ==>
                disk.entries == old(disk.entries)[Target() := FileNode("")]
      ensures r.Fail? || Target() in old(disk.entries) ==> disk.entries == old(disk.entries)
    {
      var t := Target();
      if disk.IsFile(t) {
        return Fail(AlreadyExists);
      }
      r := CustomRolesCheck(path.parts);
      if r.Fail? {
        return;
      }
      var o := disk.Touch(t);
      r := if o.Fail? then Fail(Os(o.error)) else Pass;
    }

    /** `rename`: the new path is `path.parent / new_name`, kept as
        written. */
    method Rename(newName: RawPath) returns (r: Result<RawPath, FsError>)
      requires disk.Valid()
      modifies this, disk
      ensures disk.Valid()
      ensures !old(disk.IsFile(Target())) ==> r == Failure(NotAFile)
      ensures old(disk.IsFile(Target())) && CustomRolesCheck(old(path).parts).Fail? ==>
                r == Failure(CustomRolesCheck(old(path).parts).error)
      ensures old(disk.IsFile(Target())) && CustomRolesCheck(old(path).parts).Pass? ==>
                r == RenameResult(old(disk.entries), disk.cwd, old(path), newName)
      ensures r.Success? ==> r.value == Join(ParentOf(old(path)), newName) && path == r.value
      ensures r.Success? ==> disk.entries == Moved(old(disk.entries), old(Target()), Target())
      ensures r.Success? ==> disk.IsFile(Target()) && disk.entries[Target()] == old(disk.entries[Target()])
      ensures r.Failure? ==> disk.entries == old(disk.entries) && path == old(path)
    {
      var t := Target();
      if !disk.IsFile(t) {
        return Failure(NotAFile);
      }
      var c := CustomRolesCheck(path.parts);
      if c.Fail? {
        return Failure(c.error);
      }
      var newPath := Join(ParentOf(path), newName);
      var dst := Resolve(disk.cwd, newPath);
      var o := disk.Rename(t, dst);
      if o.Fail? {
        return Failure(Os(o.error));
      }
      MovedTarget(old(disk.entries), t, dst);
      path := newPath;
      r := Success(newPath);
    }

    /** `delete`: the file goes and the handle is left at `Path("")`. */
    method Delete() returns (r: Outcome<FsError>)
      requires disk.Valid()
      modifies this, disk
      ensures disk.Valid()
      ensures !old(disk.IsFile(Target())) ==> r == Fail(NotAFile)
      ensures old(disk.IsFile(Target())) ==> r == CustomRolesCheck(old(path).parts)
      ensures r.Pass? ==> disk.entries == Without(old(disk.entries), old(Target())) && path == EMPTY
      ensures r.Fail? ==> disk.entries == old(disk.entries) && path == old(path)
    {
      var t := Target();
      if !disk.IsFile(t) {
        return Fail(NotAFile);
      }
      r := CustomRolesCheck(path.parts);
      if r.Fail? {
        return;
      }
      var o := disk.Unlink(t);
      path := EMPTY;
    }

    /** `get_name`. */
    method GetName() returns (r: Result<string, FsError>)
      ensures r.Success? <==> disk.IsFile(Target())
      ensures r.Failure? ==> r.error == NotAFile
      ensures r.Success? ==> r.value == BaseName(path.parts)
    {
      if !disk.IsFile(Target()) {
        return Failure(NotAFile);
      }
      r := Success(BaseName(path.parts));
    }
  }

  // ---------------------------------------------------------------------
  // Folder
  // ---------------------------------------------------------------------

  /** One element of `Folder.get_items()`: `{"is_file": ..., "path": ...}`. */
  datatype Item = Item(isFile: bool, path: RawPath)

  /** The item `iterdir()` yields for child `n` of the directory `d`, which
      the handle reaches through `raw`. */
  function Listed(m: Tree, d: Path, raw: RawPath, n: string): Item {
    Item(d + [n] in m && m[d + [n]].FileNode?, Child(raw, n))
  }

  /** `items` lists every child of `d` exactly once. */
  ghost predicate Lists(m: Tree, d: Path, raw: RawPath, items: seq<Item>) {
    && (forall i :: 0 <= i < |items| ==>
          BaseName(items[i].path.parts) in ChildNames(m, d) &&
          items[i] == Listed(m, d, raw, BaseName(items[i].path.parts)))
    && (forall n :: n in ChildNames(m, d) ==>
          exists i :: 0 <= i < |items| && BaseName(items[i].path.parts) == n)
    && (forall i, j :: 0 <= i < j < |items| ==>
          BaseName(items[i].path.parts) != BaseName(items[j].path.parts))
  }

  /** Items made one per name of a duplicate-free enumeration of the
      children list the directory. */
  lemma ListsInOrder(m: Tree, d: Path, raw: RawPath, items: seq<Item>, order: seq<string>)
    requires |order| == |items|
    requires forall i :: 0 <= i < |items| ==> items[i] == Listed(m, d, raw, order[i])
    requires forall n :: n in order <==> n in ChildNames(m, d)
    requires forall i, j :: 0 <= i < j < |order| ==> order[i] != order[j]
    ensures Lists(m, d, raw, items)
  {
    forall i | 0 <= i < |items| ensures BaseName(items[i].path.parts) == order[i] {
    }
    forall n | n in ChildNames(m, d)
      ensures exists i :: 0 <= i < |items| && BaseName(items[i].path.parts) == n
    {
      var i :| 0 <= i < |order| && order[i] == n;
      assert BaseName(items[i].path.parts) == n;
    }
  }

  /** `iterdir()` on directory `d`, reached through `raw`: every child once,
      in an order the file system chooses. */
  method ListChildren(m: Tree, d: Path, raw: RawPath) returns (items: seq<Item>)
    ensures Lists(m, d, raw, items)
  {
    var names := ChildNames(m, d);
    var left := names;
    items := [];
    ghost var order: seq<string> := [];
    while left != {}
      invariant left <= names
      invariant |order| == |items|
      invariant forall i :: 0 <= i < |items| ==> items[i] == Listed(m, d, raw, order[i])
      invariant forall n :: n in order <==> n in names && n !in left
      invariant forall i, j :: 0 <= i < j < |order| ==> order[i] != order[j]
      decreases |left|
    {
      var n :| n in left;
      items := items + [Listed(m, d, raw, n)];
      order := order + [n];
      left := left - {n};
    }
    ListsInOrder(m, d, raw, items, order);
  }

  /** A folder under ansible/inventory or ansible/roles. */
  class Folder {
    const disk: Disk
    var path: RawPath

    constructor (disk: Disk, path: RawPath)
      ensures this.disk == disk && this.path == path
    {
      this.disk := disk;
      this.path := path;
    }

    /** The entry the handle designates: its path as the OS resolves it. */
    function Target(): Path
      reads this
    {
      Resolve(disk.cwd, path)
    }

    /** `Folder(path)`: the validators see the path as given; the handle
        keeps it resolved. */
    static method Open(disk: Disk, raw: RawPath) returns (r: Result<Folder, FsError>)
      ensures r.Failure? <==> FolderScope(Lexical(raw.parts)).Fail?
      ensures r.Failure? ==> r.error == FolderScope(Lexical(raw.parts)).error
      ensures r.Success? ==> fresh(r.value) && r.value.disk == disk
      ensures r.Success? ==> r.value.path == RawPath(true, Resolve(disk.cwd, raw))
      ensures r.Success? ==> r.value.Target() == Resolve(disk.cwd, raw)
    {
      var pure := RawPath(raw.absolute, Lexical(raw.parts));
      var scope := FolderScope(pure.parts);
      if scope.Fail? {
        return Failure(scope.error);
      }
      var resolved := Resolve(disk.cwd, pure);
      ResolveLexical(disk.cwd, raw);
      ResolveResolved(disk.cwd, resolved);
      var f := new Folder(disk, RawPath(true, resolved));
      r := Success(f);
    }

    /** `get_items`: every child, in the order `iterdir()` happens to give. */
    method GetItems() returns (r: Result<seq<Item>, FsError>)
      requires disk.Valid()
      ensures r.Success? <==> disk.IsDir(Target())
      ensures r.Failure? ==> r.error == NotAFolder
      ensures r.Success? ==> Lists(disk.entries, Target(), path, r.value)
    {
      var t := Target();
      if !disk.IsDir(t) {
        return Failure(NotAFolder);
      }
      var items := ListChildren(disk.entries, t, path);
      r := Success(items);
    }

    /** `create`: an existing directory is refused; `mkdir` refuses any
        other existing entry. */
    method Create() returns (r: Outcome<FsError>)
      requires disk.Valid()
      modifies disk
      ensures disk.Valid()
      ensures old(disk.IsDir(Target())) ==> r == Fail(AlreadyExists)
      ensures !old(disk.IsDir(Target())) && CustomRolesCheck(path.parts).Fail? ==>
                r == CustomRolesCheck(path.parts)
      ensures !old(disk.IsDir(Target())) && CustomRolesCheck(path.parts).Pass? ==>
                r == (if Target() in old(disk.entries) then Fail(Os(EntryExists))
                      else match ParentCheck(old(disk.entries), Target())
                           case Pass => Pass
                           case Fail(e) => Fail(Os(e)))
      ensures r.Pass? ==> disk.entries == old(disk.entries)[Target() := DirNode]
      ensures r.Fail? ==> disk.entries == old(disk.entries)
    {
      var t := Target();
      if disk.IsDir(t) {
        return Fail(AlreadyExists);
      }
      r := CustomRolesCheck(path.parts);
      if r.Fail? {
        return;
      }
      var o := disk.Mkdir(t);
      r := if o.Fail? then Fail(Os(o.error)) else Pass;
    }

    /** `rename`: the new path is `path.parent / new_name`, kept as
        written. */
    method Rename(newName: RawPath) returns (r: Result<RawPath, FsError>)
      requires disk.Valid()
      modifies this, disk
      ensures disk.Valid()
      ensures !old(disk.IsDir(Target())) ==> r == Failure(NotAFolder)
      ensures old(disk.IsDir(Target())) && CustomRolesCheck(old(path).parts).Fail? ==>
                r == Failure(CustomRolesCheck(old(path).parts).error)
      ensures old(disk.IsDir(Target())) && CustomRolesCheck(old(path).parts).Pass? ==>
                r == RenameResult(old(disk.entries), disk.cwd, old(path), newName)
      ensures r.Success? ==> r.value == Join(ParentOf(old(path)), newName) && path == r.value
      ensures r.Success? ==> disk.entries == Moved(old(disk.entries), old(Target()), Target())
      ensures r.Success? ==> disk.IsDir(Target())
      ensures r.Failure? ==> disk.entries == old(disk.entries) && path == old(path)
    {
      var t := Target();
      if !disk.IsDir(t) {
        return Failure(NotAFolder);
      }
      var c := CustomRolesCheck(path.parts);
      if c.Fail? {
        return Failure(c.error);
      }
      var newPath := Join(ParentOf(path), newName);
      var dst := Resolve(disk.cwd, newPath);
      var o := disk.Rename(t, dst);
      if o.Fail? {
        return Failure(Os(o.error));
      }
      MovedTarget(old(disk.entries), t, dst);
      path := newPath;
      r := Success(newPath);
    }

    /** `delete`: only an empty folder goes; the handle is left at
        `Path("")`. */
    method Delete() returns (r: Outcome<FsError>)
      requires disk.Valid()
      modifies this, disk
      ensures disk.Valid()
      ensures !old(disk.IsDir(Target())) ==> r == Fail(NotAFolder)
      ensures old(disk.IsDir(Target())) && CustomRolesCheck(old(path).parts).Fail? ==>
                r == CustomRolesCheck(old(path).parts)
      ensures r == Fail(NotEmpty) <==>
                old(disk.IsDir(Target())) && CustomRolesCheck(old(path).parts).Pass? &&
                ChildNames(old(disk.entries), old(Target())) != {}
      ensures r.Pass? ==> disk.entries == Without(old(disk.entries), old(Target())) && path == EMPTY
      ensures old(disk.IsDir(Target())) && CustomRolesCheck(old(path).parts).Pass? &&
              ChildNames(old(disk.entries), old(Target())) == {} ==>
                r == (if old(Target()) == [] then Fail(Os(Busy)) else Pass)
      ensures r.Pass? ==> old(Target()) != [] && ChildNames(old(disk.entries), old(Target())) == {}
      ensures r.Fail? ==> disk.entries == old(disk.entries) && path == old(path)
    {
      var t := Target();
      if !disk.IsDir(t) {
        return Fail(NotAFolder);
      }
      r := CustomRolesCheck(path.parts);
      if r.Fail? {
        return;
      }
      var listing := GetItems();
      var items := listing.value;
      if |items| > 0 {
        var n := BaseName(items[0].path.parts);
        assert n in ChildNames(disk.entries, t);
        return Fail(NotEmpty);
      }
      var o := disk.Rmdir(t);
      if o.Fail? {
        return Fail(Os(o.error));
      }
      path := EMPTY;
    }

    /** `get_name`: the last part of the path as kept. */
    method GetName() returns (r: string)
      ensures r == BaseName(path.parts)
      ensures path.parts != [] ==> r == path.parts[|path.parts| - 1]
    {
      r := BaseName(path.parts);
    }

    /** `force_delete`: every child goes first (a file through its own `File`
        handle, a folder recursively through a `Folder` handle, each handle
        validated on the way), then the folder itself. The first error
        stops the walk; what was deleted before it stays deleted. */
    method ForceDelete() returns (r: Outcome<FsError>)
      requires disk.Valid()
      modifies this, disk
      decreases |Under(disk.entries, Target())|, 2
      ensures disk.Valid()
      ensures !old(disk.IsDir(Target())) ==> r == Fail(NotAFolder) && disk.entries == old(disk.entries)
      ensures old(disk.IsDir(Target())) && CustomRolesCheck(old(path).parts).Fail? ==>
                r == CustomRolesCheck(old(path).parts) && disk.entries == old(disk.entries)
      ensures r.Pass? ==> disk.entries == Without(old(disk.entries), old(Target())) && path == EMPTY
      ensures r.Fail? ==> path == old(path)
      ensures r.Fail? ==> RemovedOnlyUnder(disk.entries, old(disk.entries), old(Target()))
      ensures old(disk.IsDir(Target())) && ForceDeletable(old(disk.entries), old(Target()), old(path)) ==> r.Pass?
    {
      var t := Target();
      ghost var m0 := disk.entries;
      RemovedNothing(m0, t);
      if !disk.IsDir(t) {
        return Fail(NotAFolder);
      }
      r := CustomRolesCheck(path.parts);
      if r.Fail? {
        return;
      }
      var listing := GetItems();
      r := RemoveChildren(disk, t, path, listing.value);
      if r.Fail? {
        return;
      }
      ghost var cleared := disk.entries;
      WithoutAfterRemoval(cleared, m0, t);
      var o := disk.Rmdir(t);
      if o.Fail? {
        r := Fail(Os(o.error));
        return;
      }
      path := EMPTY;
      r := Pass;
    }
  }

  /** The loop of `force_delete`: each listed child of `t`, which the folder
      reaches through `raw`, is removed in turn until one fails. */
  method RemoveChildren(disk: Disk, t: Path, raw: RawPath, items: seq<Item>) returns (r: Outcome<FsError>)
    requires disk.Valid() && Resolve(disk.cwd, raw) == t && disk.IsDir(t)
    requires Lists(disk.entries, t, raw, items)
    modifies disk
    decreases |Under(disk.entries, t)|, 1
    ensures disk.Valid()
    ensures RemovedOnlyUnder(disk.entries, old(disk.entries), t)
    ensures r.Pass? ==> ChildNames(disk.entries, t) == {} && disk.IsDir(t)
    ensures r.Fail? ==>
              exists i :: 0 <= i < |items| &&
                StoppedAt(disk.entries, old(disk.entries), t, NamesOf(items[..i]), BaseName(items[i].path.parts))
    ensures ChildrenDeletable(old(disk.entries), t, raw) ==> r.Pass?
  {
    ghost var m0 := disk.entries;
    var i := 0;
    while i < |items|
      invariant 0 <= i <= |items|
      invariant disk.Valid()
      invariant ClearedBelow(disk.entries, m0, t, NamesOf(items[..i]))
    {
      var item := items[i];
      ghost var n := BaseName(item.path.parts);
      ghost var done := NamesOf(items[..i]);
      ghost var before := disk.entries;
      NotYetDone(items, i);
      assert n in ChildNames(m0, t) && item == Listed(m0, t, raw, n);
      ChildIsName(m0, t, n);
      ResolveChild(disk.cwd, raw, n);
      ClearedChildPresent(before, m0, t, done, n);
      SubtreeShrinks(m0, before, t, n);
      if ChildrenDeletable(m0, t, raw) {
        ChildDeletable(before, m0, t, raw, n);
      }
      r := RemoveChild(disk, item.path, item.isFile, t + [n]);
      if r.Fail? {
        ClearedStop(disk.entries, before, m0, t, done, n);
        assert StoppedAt(disk.entries, m0, t, NamesOf(items[..i]), BaseName(items[i].path.parts));
        return;
      }
      ClearedStep(before, m0, t, done, n);
      NamesOfNext(items, i);
      i := i + 1;
    }
    assert items[..i] == items;
    ClearedAll(disk.entries, m0, t, raw, items);
    r := Pass;
  }

  /** One step of `force_delete`: the child at `raw`, which resolves to `c`,
      goes through a `File` or a `Folder` handle as its kind says. */
  method RemoveChild(disk: Disk, raw: RawPath, isFile: bool, ghost c: Path) returns (r: Outcome<FsError>)
    requires disk.Valid() && Resolve(disk.cwd, raw) == c
    requires c in disk.entries && c != [] && isFile == disk.entries[c].FileNode?
    modifies disk
    decreases |Under(disk.entries, c)|, 3
    ensures disk.Valid()
    ensures r.Pass? ==> disk.entries == Without(old(disk.entries), c)
    ensures r.Fail? ==> RemovedOnlyUnder(disk.entries, old(disk.entries), c)
    ensures (FolderScope(Lexical(raw.parts)).Pass? && CustomRolesCheck(c).Pass? &&
             SubtreeAdmitted(old(disk.entries), c)) ==> r.Pass?
  {
    if isFile {
      var handle := File.Open(disk, raw);
      if handle.Failure? {
        return Fail(handle.error);
      }
      r := handle.value.Delete();
    } else {
      var handle := Folder.Open(disk, raw);
      if handle.Failure? {
        return Fail(handle.error);
      }
      if SubtreeAdmitted(disk.entries, c) {
        SubtreeDeletable(disk.entries, c);
      }
      r := handle.value.ForceDelete();
    }
  }

  /** Every entry strictly below `c` passes both the folder validators and
      the custom-roles check, so the handles `force_delete` makes for them
      open and act. */
  ghost predicate SubtreeAdmitted(m: Tree, c: Path) {
    forall q :: q in m && c < q ==> FolderScope(q).Pass? && CustomRolesCheck(q).Pass?
  }

  /** Each child of `t`, reached through `raw`, can be removed: its handle
      opens, the custom-roles check passes for it, and so for all below it. */
  ghost predicate ChildrenDeletable(m: Tree, t: Path, raw: RawPath) {
    forall n :: n in ChildNames(m, t) ==>
      && FolderScope(Lexical(raw.parts + [n])).Pass?
      && CustomRolesCheck(t + [n]).Pass?
      && SubtreeAdmitted(m, t + [n])
  }

  /** When `force_delete` on the directory `t`, reached through `raw`, goes
      through: `t` is not the root, which `rmdir` refuses, and every check
      on the way passes. */
  ghost predicate ForceDeletable(m: Tree, t: Path, raw: RawPath) {
    t != [] && CustomRolesCheck(raw.parts).Pass? && ChildrenDeletable(m, t, raw)
  }

  /** The walk stopped at child `n`: the children named in `done` are gone
      with all they held, the children not yet reached are untouched, and
      nothing outside `t`'s subtree changed. */
  ghost predicate StoppedAt(m: Tree, m0: Tree, t: Path, done: set<string>, n: string) {
    && RemovedOnlyUnder(m, m0, t)
    && (forall q :: q in m && t < q ==> q[|t|] !in done)
    && (forall q :: q in m0 && t < q && q[|t|] !in done && q[|t|] != n ==> q in m)
  }

  /** Below a resolved directory whose subtree is admitted, every child
      passes the checks a nested `force_delete` makes. */
  lemma SubtreeDeletable(m: Tree, c: Path)
    requires WellFormed(m) && SubtreeAdmitted(m, c)
    ensures ChildrenDeletable(m, c, RawPath(true, c))
  {
    forall n | n in ChildNames(m, c)
      ensures FolderScope(Lexical(c + [n])).Pass? && CustomRolesCheck(c + [n]).Pass?
      ensures SubtreeAdmitted(m, c + [n])
    {
      ChildIsName(m, c, n);
      LexicalClean(c + [n]);
      assert c < c + [n];
      SubtreeAdmittedBelow(m, c, c + [n]);
    }
  }

  /** An admitted subtree admits every subtree inside it. */
  lemma SubtreeAdmittedBelow(m: Tree, c: Path, d: Path)
    requires SubtreeAdmitted(m, c) && c <= d
    ensures SubtreeAdmitted(m, d)
  {
    forall q | q in m && d < q ensures c < q {
      assert q[..|c|] == d[..|c|];
    }
  }

  /** A child not yet handled still passes the checks it passed before the
      walk began. */
  lemma ChildDeletable(m: Tree, m0: Tree, t: Path, raw: RawPath, n: string)
    requires forall q :: q in m ==> q in m0
    requires ChildrenDeletable(m0, t, raw) && n in ChildNames(m0, t)
    ensures FolderScope(Lexical(Child(raw, n).parts)).Pass? && CustomRolesCheck(t + [n]).Pass?
    ensures SubtreeAdmitted(m, t + [n])
  {
  }

  /** A failure inside child `n` ends the walk in the state `StoppedAt`
      describes. */
  lemma ClearedStop(m': Tree, m: Tree, m0: Tree, t: Path, done: set<string>, n: string)
    requires ClearedBelow(m, m0, t, done) && RemovedOnlyUnder(m', m, t + [n])
    ensures StoppedAt(m', m0, t, done, n)
  {
    ClearedFail(m', m, m0, t, done, n);
    forall q | q in m0 && t < q && q[|t|] !in done && q[|t|] != n ensures q in m' {
      ChildPrefix(t, n, q);
    }
  }

  /** The names of the items handled so far. */
  ghost function NamesOf(items: seq<Item>): set<string> {
    if items == [] then {}
    else NamesOf(items[..|items| - 1]) + {BaseName(items[|items| - 1].path.parts)}
  }

  /** Handling one more item adds its name. */
  lemma NamesOfNext(items: seq<Item>, i: int)
    requires 0 <= i < |items|
    ensures NamesOf(items[..i + 1]) == NamesOf(items[..i]) + {BaseName(items[i].path.parts)}
  {
    assert items[..i + 1][..i] == items[..i];
  }

  /** Every handled item's name is among the handled names. */
  lemma {:induction false} NamesOfHas(items: seq<Item>, i: int)
    requires 0 <= i < |items|
    ensures BaseName(items[i].path.parts) in NamesOf(items)
  {
    if i < |items| - 1 {
      assert items[..|items| - 1][i] == items[i];
      NamesOfHas(items[..|items| - 1], i);
    }
  }

  /** The handled names are names of handled items. */
  lemma {:induction false} NamesOfOnly(items: seq<Item>, n: string)
    requires n in NamesOf(items)
    ensures exists i :: 0 <= i < |items| && BaseName(items[i].path.parts) == n
  {
    if BaseName(items[|items| - 1].path.parts) != n {
      NamesOfOnly(items[..|items| - 1], n);
      var i :| 0 <= i < |items| - 1 && BaseName(items[..|items| - 1][i].path.parts) == n;
      assert items[..|items| - 1][i] == items[i];
    }
  }

  /** In a listing without repeated names, the next item has not been
      handled yet. */
  lemma NotYetDone(items: seq<Item>, i: int)
    requires 0 <= i < |items|
    requires forall a, b :: 0 <= a < b < |items| ==>
               BaseName(items[a].path.parts) != BaseName(items[b].path.parts)
    ensures BaseName(items[i].path.parts) !in NamesOf(items[..i])
  {
    var n := BaseName(items[i].path.parts);
    forall k | 0 <= k < i ensures BaseName(items[..i][k].path.parts) != n {
      assert items[..i][k] == items[k];
    }
    if n in NamesOf(items[..i]) {
      NamesOfOnly(items[..i], n);
    }
  }

  /** Below `t`, the children named in `done` have been removed with all
      they held, and nothing else of `m0` has changed. */
  ghost predicate ClearedBelow(m: Tree, m0: Tree, t: Path, done: set<string>) {
    && (forall q :: q in m ==> q in m0 && m[q] == m0[q])
    && (forall q :: q in m0 && !(t < q) ==> q in m)
    && (forall q :: q in m0 && t < q && q[|t|] !in done ==> q in m)
    && (forall q :: q in m && t < q ==> q[|t|] !in done)
  }

  /** A child not yet handled is still there, as it was. */
  lemma ClearedChildPresent(m: Tree, m0: Tree, t: Path, done: set<string>, n: string)
    requires ClearedBelow(m, m0, t, done) && t + [n] in m0 && n !in done
    ensures t + [n] in m && m[t + [n]] == m0[t + [n]]
  {
    assert (t + [n])[|t|] == n;
  }

  /** Removing the subtree of one more child keeps the walk's bookkeeping. */
  lemma ClearedStep(m: Tree, m0: Tree, t: Path, done: set<string>, n: string)
    requires ClearedBelow(m, m0, t, done)
    ensures ClearedBelow(Without(m, t + [n]), m0, t, done + {n})
  {
    forall q | t < q ensures t + [n] <= q <==> q[|t|] == n {
      ChildPrefix(t, n, q);
    }
  }

  /** A failure partway through a child removes only what lies below `t`. */
  lemma ClearedFail(m': Tree, m: Tree, m0: Tree, t: Path, done: set<string>, n: string)
    requires ClearedBelow(m, m0, t, done) && RemovedOnlyUnder(m', m, t + [n])
    ensures RemovedOnlyUnder(m', m0, t)
  {
    forall q | q in m0 && !(t <= q) ensures q in m' {
      assert !(t + [n] <= q);
    }
  }

  /** Once every listed child is handled, `t` has no children left, and only
      entries below it have gone. */
  lemma ClearedAll(m: Tree, m0: Tree, t: Path, raw: RawPath, items: seq<Item>)
    requires WellFormed(m0) && t in m0
    requires Lists(m0, t, raw, items) && ClearedBelow(m, m0, t, NamesOf(items))
    ensures ChildNames(m, t) == {}
    ensures t in m && m[t] == m0[t]
    ensures RemovedOnlyUnder(m, m0, t)
  {
    forall n | n in ChildNames(m, t) ensures false {
      assert (t + [n])[|t|] == n;
      ChildNamesIff(m, t, n);
      ChildNamesIff(m0, t, n);
      var i :| 0 <= i < |items| && BaseName(items[i].path.parts) == n;
      NamesOfHas(items, i);
    }
  }

  // ---------------------------------------------------------------------
  // AnsibleRootFolder
  // ---------------------------------------------------------------------

  /** One element of `AnsibleRootFolder.get_items()`: a file, or a folder
      with the listing of its contents. */
  datatype Entry =
    | FileEntry(path: Path, name: string)
    | DirEntry(path: Path, name: string, items: seq<Entry>)

  /** `e` stands for the child `e.name` of `d`, at its path and of its kind. */
  ghost predicate Describes(m: Tree, d: Path, e: Entry) {
    && e.path == d + [e.name]
    && d + [e.name] in m
    && (e.FileEntry? <==> m[d + [e.name]].FileNode?)
  }

  /** `es` mirrors everything below `d`: every child once, each folder with
      the mirror of its own contents. */
  ghost predicate Mirrors(m: Tree, d: Path, es: seq<Entry>)
    decreases es
  {
    && (forall i :: 0 <= i < |es| ==> Describes(m, d, es[i]))
    && (forall i :: 0 <= i < |es| && es[i].DirEntry? ==> Mirrors(m, d + [es[i].name], es[i].items))
    && (forall n :: n in ChildNames(m, d) ==> exists i :: 0 <= i < |es| && es[i].name == n)
    && (forall i, j :: 0 <= i < j < |es| ==> es[i].name != es[j].name)
  }

  /** The children of the ansible root that its listing shows. */
  predicate Shown(m: Tree, root: Path, n: string) {
    (root + [n] in m && m[root + [n]].FileNode?) || n == INVENTORY || n == ROLES
  }

  /** The listing of the ansible root: its regular files, and its inventory
      and roles folders with everything below them; nothing else. */
  ghost predicate RootView(m: Tree, root: Path, es: seq<Entry>) {
    && (forall i :: 0 <= i < |es| ==> Describes(m, root, es[i]))
    && (forall i :: 0 <= i < |es| && es[i].DirEntry? ==>
          (es[i].name == INVENTORY || es[i].name == ROLES) &&
          Mirrors(m, root + [es[i].name], es[i].items))
    && (forall n :: n in ChildNames(m, root) && Shown(m, root, n) ==>
          exists i :: 0 <= i < |es| && es[i].name == n)
    && (forall i, j :: 0 <= i < j < |es| ==> es[i].name != es[j].name)
  }

  /** `p` is the path of some entry of the listing, at any depth. */
  ghost predicate Reaches(es: seq<Entry>, p: Path)
    decreases es
  {
    exists i :: 0 <= i < |es| && (es[i].path == p || (es[i].DirEntry? && Reaches(es[i].items, p)))
  }

  /** A mirror shows only entries that exist below its folder. */
  lemma {:induction false} MirrorsSound(m: Tree, d: Path, es: seq<Entry>, p: Path)
    requires Mirrors(m, d, es) && Reaches(es, p)
    ensures p in m && d < p
    decreases es
  {
    var i :| 0 <= i < |es| && (es[i].path == p || (es[i].DirEntry? && Reaches(es[i].items, p)));
    var c := d + [es[i].name];
    if es[i].path != p {
      MirrorsSound(m, c, es[i].items, p);
      assert d < c;
    }
  }

  /** A mirror shows every entry below its folder. */
  lemma {:induction false} MirrorsComplete(m: Tree, d: Path, es: seq<Entry>, p: Path)
    requires WellFormed(m) && Mirrors(m, d, es) && p in m && d < p
    ensures Reaches(es, p)
    decreases |p| - |d|
  {
    var n := p[|d|];
    var c := d + [n];
    assert p[..|d| + 1] == c;
    AncestorIn(m, p, |d| + 1);
    ChildNamesIff(m, d, n);
    var i :| 0 <= i < |es| && es[i].name == n;
    if p != c {
      assert c < p;
      PrefixIsDir(m, c, p);
      MirrorsComplete(m, c, es[i].items, p);
    }
  }

  /** The root listing never shows anything outside the root's own files and
      its inventory and roles subtrees. */
  lemma RootViewConfined(m: Tree, root: Path, es: seq<Entry>, p: Path)
    requires RootView(m, root, es) && Reaches(es, p)
    ensures p in m
    ensures (Parent(p) == root && p != root && m[p].FileNode?) ||
            root + [INVENTORY] < p || root + [ROLES] < p ||
            p == root + [INVENTORY] || p == root + [ROLES]
  {
    var i :| 0 <= i < |es| && (es[i].path == p || (es[i].DirEntry? && Reaches(es[i].items, p)));
    var c := root + [es[i].name];
    if es[i].path != p {
      MirrorsSound(m, c, es[i].items, p);
    } else if es[i].FileEntry? {
      assert Parent(p) == root;
    }
  }

  /** The root listing shows every file of the root and everything in its
      inventory and roles folders. */
  lemma RootViewComplete(m: Tree, root: Path, es: seq<Entry>, p: Path)
    requires WellFormed(m) && RootView(m, root, es) && p in m
    requires (Parent(p) == root && p != root && m[p].FileNode?) ||
             root + [INVENTORY] <= p || root + [ROLES] <= p
    ensures Reaches(es, p)
  {
    var n := p[|root|];
    var c := root + [n];
    ShownOnPath(m, root, p);
    var i := RootEntryFor(m, root, es, n);
    if p == c {
      assert es[i].path == p;
    } else {
      assert c < p;
      PrefixIsDir(m, c, p);
      MirrorsComplete(m, c, es[i].items, p);
      assert es[i].DirEntry? && Reaches(es[i].items, p);
    }
  }

  /** The child of the root on the way to such an entry is shown. */
  lemma ShownOnPath(m: Tree, root: Path, p: Path)
    requires WellFormed(m) && p in m
    requires (Parent(p) == root && p != root && m[p].FileNode?) ||
             root + [INVENTORY] <= p || root + [ROLES] <= p
    ensures |root| < |p| && p[..|root| + 1] == root + [p[|root|]]
    ensures root + [p[|root|]] in m && Shown(m, root, p[|root|])
  {
    var n := p[|root|];
    assert p[..|root| + 1] == root + [n];
    AncestorIn(m, p, |root| + 1);
    if root + [INVENTORY] <= p {
      assert n == (root + [INVENTORY])[|root|];
    } else if root + [ROLES] <= p {
      assert n == (root + [ROLES])[|root|];
    } else {
      assert p == root + [n];
    }
  }

  /** A shown child of the root has its entry in the root listing. */
  lemma RootEntryFor(m: Tree, root: Path, es: seq<Entry>, n: string) returns (i: nat)
    requires RootView(m, root, es) && root + [n] in m && Shown(m, root, n)
    ensures i < |es| && es[i].name == n && es[i].path == root + [n]
    ensures m[root + [n]].DirNode? ==> es[i].DirEntry? && Mirrors(m, root + [n], es[i].items)
  {
    ChildNamesIff(m, root, n);
    i :| 0 <= i < |es| && es[i].name == n;
  }

  /** `es` mirrors the children named in `order`, in that order, each once. */
  ghost predicate PartialMirror(m: Tree, d: Path, es: seq<Entry>, order: seq<string>) {
    && |order| == |es|
    && (forall i :: 0 <= i < |es| ==> Describes(m, d, es[i]) && es[i].name == order[i])
    && (forall i :: 0 <= i < |es| && es[i].DirEntry? ==> Mirrors(m, d + [es[i].name], es[i].items))
    && (forall i, j :: 0 <= i < j < |order| ==> order[i] != order[j])
  }

  /** One more child, not yet listed, extends a partial mirror. */
  lemma PartialMirrorExtend(m: Tree, d: Path, es: seq<Entry>, order: seq<string>, e: Entry)
    requires PartialMirror(m, d, es, order) && e.name !in order
    requires Describes(m, d, e) && (e.DirEntry? ==> Mirrors(m, d + [e.name], e.items))
    ensures PartialMirror(m, d, es + [e], order + [e.name])
  {
  }

  /** A partial mirror of all the children is a mirror. */
  lemma MirrorsInOrder(m: Tree, d: Path, es: seq<Entry>, order: seq<string>)
    requires PartialMirror(m, d, es, order)
    requires forall n :: n in order <==> n in ChildNames(m, d)
    ensures Mirrors(m, d, es)
  {
    forall n | n in ChildNames(m, d) ensures exists i :: 0 <= i < |es| && es[i].name == n {
      var i :| 0 <= i < |order| && order[i] == n;
    }
  }

  /** The entries made one per shown name of a duplicate-free enumeration
      of the children form the root listing. */
  lemma RootViewInOrder(m: Tree, root: Path, es: seq<Entry>, order: seq<string>)
    requires PartialMirror(m, root, es, order)
    requires forall n :: n in order ==> Shown(m, root, n)
    requires forall n :: n in ChildNames(m, root) && Shown(m, root, n) ==> n in order
    ensures RootView(m, root, es)
  {
    forall i | 0 <= i < |es| && es[i].DirEntry? ensures es[i].name == INVENTORY || es[i].name == ROLES {
      assert order[i] in order;
    }
    forall n | n in ChildNames(m, root) && Shown(m, root, n)
      ensures exists i :: 0 <= i < |es| && es[i].name == n
    {
      var i :| 0 <= i < |order| && order[i] == n;
    }
  }

  /** The ansible root folder, whose listing the editor shows. */
  class AnsibleRootFolder {
    const disk: Disk
    const path: RawPath

    constructor (disk: Disk, path: RawPath)
      ensures this.disk == disk && this.path == path
    {
      this.disk := disk;
      this.path := path;
    }

    /** The folder the handle designates. */
    function Target(): Path {
      Resolve(disk.cwd, path)
    }

    /** `AnsibleRootFolder(path)`: the path as given must end in "ansible";
        the handle keeps it resolved. */
    static method Open(disk: Disk, raw: RawPath) returns (r: Result<AnsibleRootFolder, FsError>)
      ensures r.Failure? <==> BaseName(Lexical(raw.parts)) != ANSIBLE
      ensures r.Failure? ==> r.error == NotAnsibleRoot
      ensures r.Success? ==> fresh(r.value) && r.value.disk == disk
      ensures r.Success? ==> r.value.path == RawPath(true, Resolve(disk.cwd, raw))
      ensures r.Success? ==> r.value.Target() == Resolve(disk.cwd, raw)
    {
      var pure := RawPath(raw.absolute, Lexical(raw.parts));
      var scope := RootScope(pure.parts);
      if scope.Fail? {
        return Failure(scope.error);
      }
      var resolved := Resolve(disk.cwd, pure);
      ResolveLexical(disk.cwd, raw);
      ResolveResolved(disk.cwd, resolved);
      var f := new AnsibleRootFolder(disk, RawPath(true, resolved));
      r := Success(f);
    }

    /** `get_items`: the root's files, and its inventory and roles folders
        listed in full; other folders are skipped. A missing root or a
        root that is a file fails as `iterdir()` does. */
    method GetItems() returns (r: Result<seq<Entry>, FsError>)
      requires disk.Valid()
      ensures r.Failure? <==> !disk.IsDir(Target())
      ensures r.Failure? ==> r.error == Os(if Target() in disk.entries then NotADirectory else NoSuchEntry)
      ensures r.Success? ==> RootView(disk.entries, Target(), r.value)
    {
      var root := Target();
      if root !in disk.entries {
        return Failure(Os(NoSuchEntry));
      }
      if !disk.IsDir(root) {
        return Failure(Os(NotADirectory));
      }
      var m := disk.entries;
      var names := ChildNames(m, root);
      var left := names;
      var es: seq<Entry> := [];
      ghost var order: seq<string> := [];
      while left != {}
        invariant left <= names
        invariant PartialMirror(m, root, es, order)
        invariant forall n :: n in order ==> n in names && n !in left && Shown(m, root, n)
        invariant forall n :: n in names && n !in left && Shown(m, root, n) ==> n in order
        decreases |left|
      {
        var n :| n in left;
        ChildIsName(m, root, n);
        var c := root + [n];
        if disk.IsFile(c) {
          PartialMirrorExtend(m, root, es, order, FileEntry(c, n));
          es := es + [FileEntry(c, n)];
          order := order + [n];
        } else if n == INVENTORY || n == ROLES {
          var sub := ItemsRecursive(c);
          PartialMirrorExtend(m, root, es, order, DirEntry(c, n, sub));
          es := es + [DirEntry(c, n, sub)];
          order := order + [n];
        }
        left := left - {n};
      }
      RootViewInOrder(m, root, es, order);
      r := Success(es);
    }

    /** `__get_items_recursive`: everything below the folder `d`. */
    method ItemsRecursive(d: Path) returns (es: seq<Entry>)
      requires disk.Valid() && disk.IsDir(d)
      decreases |Under(disk.entries, d)|
      ensures Mirrors(disk.entries, d, es)
    {
      var m := disk.entries;
      var names := ChildNames(m, d);
      var left := names;
      es := [];
      ghost var order: seq<string> := [];
      while left != {}
        invariant left <= names
        invariant PartialMirror(m, d, es, order)
        invariant forall n :: n in order <==> n in names && n !in left
        decreases |left|
      {
        var n :| n in left;
        ChildIsName(m, d, n);
        var c := d + [n];
        var e;
        if disk.IsFile(c) {
          e := FileEntry(c, n);
        } else {
          SubtreeShrinks(m, m, d, n);
          var sub := ItemsRecursive(c);
          e := DirEntry(c, n, sub);
        }
        PartialMirrorExtend(m, d, es, order, e);
        es := es + [e];
        order := order + [n];
        left := left - {n};
      }
      MirrorsInOrder(m, d, es, order);
    }
  }
}
