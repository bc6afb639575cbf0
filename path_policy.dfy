/**
 * The path policy of the workspace editor (python/src/toolbox/core/file.py):
 * path normalisation as `Path.resolve()` performs it (without symbolic links),
 * the scope validators that pydantic runs when a `File`, `Folder` or
 * `AnsibleRootFolder` is constructed, and the custom-roles check that every
 * mutation runs first.  All of them are scans over the segments of a path.
 */
module PathPolicy {
  import opened Wrappers

  /** An absolute, resolved path as the sequence of its segment names; the
      leading "/" anchor is implicit (it is never equal to "ansible"). */
  type Path = seq<string>

  /** A path as a caller supplies it: `parts` are its segments after
      `pathlib.Path` parsing and may still hold "..". */
  datatype RawPath = RawPath(absolute: bool, parts: seq<string>)

  const ANSIBLE := "ansible"
  const INVENTORY := "inventory"
  const ROLES := "roles"
  const CUSTOM := "custom"

  /** Every failure of the workspace: the `ValueError`s raised by the
      validators and checks, Python's `IndexError` from `parts[index + k]`,
      and the `OSError`s of the underlying system calls. */
  datatype FsError =
    | NotFromAnsible           // no "ansible" segment at all
    | NotInInventoryOrRoles    // the segment after the last "ansible" is neither
    | NotAnsibleRoot           // an AnsibleRootFolder whose name is not "ansible"
    | NotInAnsibleFolder       // the custom-roles check found no "ansible" segment
    | NotInCustomRoles         // under roles/ but not under roles/custom/
    | IndexOutOfRange          // Python IndexError
    | NotAFile
    | NotAFolder
    | AlreadyExists
    | NotEmpty
    | Os(os: OsError)

  datatype OsError =
    | NoSuchEntry        // FileNotFoundError
    | EntryExists        // FileExistsError
    | IsADirectory       // IsADirectoryError
    | NotADirectory      // NotADirectoryError
    | DirectoryNotEmpty  // OSError ENOTEMPTY
    | InvalidMove        // OSError EINVAL: a directory moved into itself
    | Busy               // OSError EBUSY: the file system root

  // ---------------------------------------------------------------------
  // Resolution
  // ---------------------------------------------------------------------

  /** A segment that survives resolution unchanged. */
  predicate IsName(s: string) {
    s != "" && s != "." && s != ".."
  }

  /** A resolved path: no ".", ".." or empty segment left. */
  predicate Clean(p: Path) {
    forall i :: 0 <= i < |p| ==> IsName(p[i])
  }

  /** One segment of lexical resolution: ".." climbs, but never above "/". */
  function Step(acc: Path, seg: string): Path {
    if seg == "" || seg == "." then acc
    else if seg == ".." then (if acc == [] then [] else acc[..|acc| - 1])
    else acc + [seg]
  }

  /** `Path.resolve()` on an absolute path, symbolic links left out. */
  function Normalize(raw: seq<string>): (p: Path)
    ensures Clean(p)
    ensures |p| <= |raw|
  {
    if raw == [] then [] else Step(Normalize(raw[..|raw| - 1]), raw[|raw| - 1])
  }

  /** `Path.resolve()`: a relative path is taken from the working directory. */
  function Resolve(cwd: Path, raw: RawPath): (p: Path)
    ensures Clean(p)
  {
    Normalize(if raw.absolute then raw.parts else cwd + raw.parts)
  }

  /** `PurePath` splitting: empty and "." segments vanish, ".." stays. */
  function Lexical(segs: seq<string>): (r: seq<string>)
    ensures forall i :: 0 <= i < |r| ==> r[i] != "" && r[i] != "."
    ensures forall s :: s in r <==> s in segs && s != "" && s != "."
  {
    if segs == [] then []
    else if segs[|segs| - 1] == "" || segs[|segs| - 1] == "." then Lexical(segs[..|segs| - 1])
    else Lexical(segs[..|segs| - 1]) + [segs[|segs| - 1]]
  }

  /** Parsing keeps the segments in order: the parts of a concatenation are
      the parts of each half, one after the other. */
  lemma {:induction false} LexicalAppend(a: seq<string>, b: seq<string>)
    ensures Lexical(a + b) == Lexical(a) + Lexical(b)
    decreases |b|
  {
    if b == [] {
      assert a + b == a;
    } else {
      var init, last := b[..|b| - 1], b[|b| - 1];
      assert (a + b)[..|a + b| - 1] == a + init;
      LexicalAppend(a, init);
    }
  }

  /** A single segment survives parsing unless it is empty or ".". */
  lemma LexicalOne(x: string)
    ensures Lexical([x]) == if x == "" || x == "." then [] else [x]
  {
    assert [x][..0] == [];
  }

  /** A resolved path is parsed into exactly its own segments. */
  lemma {:induction false} LexicalClean(p: Path)
    requires Clean(p)
    ensures Lexical(p) == p
  {
    if p != [] {
      LexicalClean(p[..|p| - 1]);
    }
  }

  /** Splitting a path into its parts does not change where it leads, even
      below a prefix such as the working directory. */
  lemma {:induction false} NormalizeLexical(prefix: seq<string>, segs: seq<string>)
    ensures Normalize(prefix + Lexical(segs)) == Normalize(prefix + segs)
  {
    if segs == [] {
    } else {
      var init, last := segs[..|segs| - 1], segs[|segs| - 1];
      assert prefix + segs == (prefix + init) + [last];
      NormalizeLexical(prefix, init);
      NormalizeSnoc(prefix + init, last);
      if last != "" && last != "." {
        assert prefix + Lexical(segs) == (prefix + Lexical(init)) + [last];
        NormalizeSnoc(prefix + Lexical(init), last);
      }
    }
  }

  /** Resolving a path in two goes, a prefix first and then the rest from
      where the prefix led, resolves it in one. */
  lemma {:induction false} NormalizeAppend(a: seq<string>, b: seq<string>)
    ensures Normalize(a + b) == Normalize(Normalize(a) + b)
    decreases |b|
  {
    if b == [] {
      assert a + b == a && Normalize(a) + b == Normalize(a);
      NormalizeClean(Normalize(a));
    } else {
      var init, last := b[..|b| - 1], b[|b| - 1];
      assert a + b == (a + init) + [last];
      assert Normalize(a) + b == (Normalize(a) + init) + [last];
      NormalizeAppend(a, init);
      NormalizeSnoc(a + init, last);
      NormalizeSnoc(Normalize(a) + init, last);
    }
  }

  /** `PurePath.name`: the last part, "" for an empty path. */
  function BaseName(parts: seq<string>): string {
    if parts == [] then "" else parts[|parts| - 1]
  }

  /** Resolution leaves an already resolved path alone, so the second
      `resolve()` in each subclass constructor changes nothing. */
  lemma {:induction false} NormalizeClean(p: Path)
    requires Clean(p)
    ensures Normalize(p) == p
  {
    if p != [] {
      NormalizeClean(p[..|p| - 1]);
    }
  }

  /** Resolution proceeds segment by segment, left to right. */
  lemma NormalizeSnoc(s: seq<string>, x: string)
    ensures Normalize(s + [x]) == Step(Normalize(s), x)
  {
    assert (s + [x])[..|s|] == s;
  }

  // ---------------------------------------------------------------------
  // The scan for the last "ansible" segment
  // ---------------------------------------------------------------------

  /** `i` is the index of the last segment equal to `name`. */
  ghost predicate LastAt(parts: seq<string>, name: string, i: int) {
    0 <= i < |parts| && parts[i] == name &&
    forall j :: i < j < |parts| ==> parts[j] != name
  }

  /** The loop `for i, part in enumerate(parts): if part == name: index = i`,
      starting from `index = -1`. */
  function LastIndex(parts: seq<string>, name: string): (r: int)
    ensures -1 <= r < |parts|
    ensures r == -1 <==> name !in parts
    ensures r != -1 ==> LastAt(parts, name, r)
  {
    if parts == [] then -1
    else if parts[|parts| - 1] == name then |parts| - 1
    else LastIndex(parts[..|parts| - 1], name)
  }

  /** The last occurrence of a name is unique. */
  lemma LastAtUnique(parts: seq<string>, name: string, i: int, k: int)
    requires LastAt(parts, name, i) && LastAt(parts, name, k)
    ensures i == k
  {
  }

  // ---------------------------------------------------------------------
  // Constructor validators (run by pydantic on the path AS SUPPLIED)
  // ---------------------------------------------------------------------

  /** The segment after the last "ansible" names one of the two editable
      subtrees. */
  ghost predicate InSubtree(parts: seq<string>, i: int) {
    0 <= i && i + 1 < |parts| && (parts[i + 1] == INVENTORY || parts[i + 1] == ROLES)
  }

  /** `Folder.path_has_ansible` followed by
      `Folder.folder_is_in_ansible_inventory_or_roles`. */
  function FolderScope(parts: seq<string>): (r: Outcome<FsError>)
    ensures r.Pass? <==> exists i :: LastAt(parts, ANSIBLE, i) && InSubtree(parts, i)
    ensures r == Fail(NotFromAnsible) <==> ANSIBLE !in parts
    ensures r == Fail(IndexOutOfRange) <==> |parts| > 0 && parts[|parts| - 1] == ANSIBLE
    ensures r.Pass? || r == Fail(NotFromAnsible) || r == Fail(IndexOutOfRange)
            || r == Fail(NotInInventoryOrRoles)
  {
    if ANSIBLE !in parts then Fail(NotFromAnsible)
    else
      var index := LastIndex(parts, ANSIBLE);
      if index + 1 >= |parts| then Fail(IndexOutOfRange)
      else if parts[index + 1] == INVENTORY || parts[index + 1] == ROLES then Pass
      else Fail(NotInInventoryOrRoles)
  }

  /** Python's `Path == str`: a `pathlib.Path` never equals a string. */
  predicate PathEqualsText(p: seq<string>, s: string) {
    false
  }

  /** `File.path_has_ansible` followed by
      `File.file_is_in_ansible_inventory_or_roles`.  Its extra root-level
      clause `v.parent == "ansible"` compares a `Path` with a `str` and never
      holds, so a file is admitted exactly when a folder would be. */
  function FileScope(parts: seq<string>): (r: Outcome<FsError>)
    ensures r == FolderScope(parts)
  {
    if ANSIBLE !in parts then Fail(NotFromAnsible)
    else
      var index := LastIndex(parts, ANSIBLE);
      if index + 1 >= |parts| then Fail(IndexOutOfRange)
      else if parts[index + 1] == INVENTORY || parts[index + 1] == ROLES then Pass
      else if PathEqualsText(parts[..|parts| - 1], ANSIBLE) then Pass
      else Fail(NotInInventoryOrRoles)
  }

  /** `AnsibleRootFolder.path_is_ansible_root`: `Path.name` is the last
      segment ("" for an empty path). */
  function RootScope(parts: seq<string>): (r: Outcome<FsError>)
    ensures r.Pass? <==> |parts| > 0 && parts[|parts| - 1] == ANSIBLE
    ensures r.Fail? ==> r.error == NotAnsibleRoot
  {
    if BaseName(parts) == ANSIBLE then Pass
    else Fail(NotAnsibleRoot)
  }

  // ---------------------------------------------------------------------
  // The custom-roles check (run on the RESOLVED path before a mutation)
  // ---------------------------------------------------------------------

  /** `check_if_not_in_custom_roles_folder`: a path under the last
      "ansible" may be changed unless it lies under roles/ outside
      roles/custom/. */
  function CustomRolesCheck(parts: seq<string>): (r: Outcome<FsError>)
    ensures r.Pass? <==>
              exists i :: LastAt(parts, ANSIBLE, i) && i + 1 < |parts| &&
                          (parts[i + 1] == ROLES ==> i + 2 < |parts| && parts[i + 2] == CUSTOM)
    ensures r == Fail(NotInAnsibleFolder) <==> ANSIBLE !in parts
    ensures r == Fail(NotInCustomRoles) ==>
              exists i :: LastAt(parts, ANSIBLE, i) && i + 2 < |parts| &&
                          parts[i + 1] == ROLES && parts[i + 2] != CUSTOM
  {
    var index := LastIndex(parts, ANSIBLE);
    if index == -1 then Fail(NotInAnsibleFolder)
    else if index + 1 >= |parts| then Fail(IndexOutOfRange)
    else if parts[index + 1] == ROLES then
      if index + 2 >= |parts| then Fail(IndexOutOfRange)
      else if parts[index + 2] != CUSTOM then Fail(NotInCustomRoles)
      else Pass
    else Pass
  }

  // ---------------------------------------------------------------------
  // Properties of the validators
  // ---------------------------------------------------------------------

  /** The match is not anchored to any configured root: a directory named
      "ansible" anywhere qualifies, whatever precedes it. */
  lemma {:induction false} AnyAnsibleDirQualifies(prefix: seq<string>, sub: string, rest: seq<string>)
    requires sub == INVENTORY || sub == ROLES
    requires ANSIBLE !in rest
    ensures FolderScope(prefix + [ANSIBLE, sub] + rest).Pass?
  {
    var parts := prefix + [ANSIBLE, sub] + rest;
    var i := |prefix|;
    assert parts[i] == ANSIBLE && parts[i + 1] == sub;
    forall j | i < j < |parts| ensures parts[j] != ANSIBLE {
      if j > i + 1 {
        assert parts[j] == rest[j - i - 2];
      }
    }
    assert LastAt(parts, ANSIBLE, i) && InSubtree(parts, i);
  }

  /** The match is exact segment equality: a segment that merely contains
      "ansible" does not count. */
  lemma SubstringDoesNotQualify()
    ensures FolderScope(["srv", "my-ansible", "inventory", "hosts"]) == Fail(NotFromAnsible)
  {
    assert "my-ansible" != ANSIBLE;
  }

  /** A later "ansible" segment takes over: below it the scope is decided
      afresh, so ansible/inventory/ansible/x is rejected. */
  lemma {:induction false} LastAnsibleDecides(prefix: seq<string>, rest: seq<string>)
    requires ANSIBLE !in rest
    requires rest == [] || (rest[0] != INVENTORY && rest[0] != ROLES)
    ensures FolderScope(prefix + [ANSIBLE] + rest).Fail?
  {
    var parts := prefix + [ANSIBLE] + rest;
    var i := |prefix|;
    forall j | i < j < |parts| ensures parts[j] != ANSIBLE {
      assert parts[j] == rest[j - i - 1];
    }
    assert LastAt(parts, ANSIBLE, i);
    LastAtUnique(parts, ANSIBLE, i, LastIndex(parts, ANSIBLE));
    if rest != [] {
      assert parts[i + 1] == rest[0];
    }
  }

  /** Under roles/, only roles/custom/... passes the custom-roles check;
      inventory/... and everything else below "ansible" passes. */
  lemma {:induction false} CustomRolesOnlyCustom(prefix: seq<string>, role: string, rest: seq<string>)
    requires ANSIBLE !in [role] + rest
    ensures CustomRolesCheck(prefix + [ANSIBLE, ROLES, role] + rest).Pass? <==> role == CUSTOM
  {
    var parts := prefix + [ANSIBLE, ROLES, role] + rest;
    var i := |prefix|;
    forall j | i < j < |parts| ensures parts[j] != ANSIBLE {
      if j == i + 1 {
      } else if j == i + 2 {
        assert parts[j] == role;
      } else {
        assert parts[j] == rest[j - i - 3];
      }
    }
    assert LastAt(parts, ANSIBLE, i);
    LastAtUnique(parts, ANSIBLE, i, LastIndex(parts, ANSIBLE));
  }

  // ---------------------------------------------------------------------
  // Findings: the validators see the raw path, and the root-level clause
  // ---------------------------------------------------------------------

  /** As written: the validator runs before `resolve()`, so a raw path that
      climbs out with ".." is admitted while the stored path lies outside
      every "ansible" directory. */
  lemma ValidationPrecedesResolution()
    ensures FileScope(["srv", "ansible", "inventory", "..", "..", "etc", "passwd"]).Pass?
    ensures Resolve([], RawPath(true, ["srv", "ansible", "inventory", "..", "..", "etc", "passwd"]))
            == ["srv", "etc", "passwd"]
    ensures ANSIBLE !in Resolve([], RawPath(true, ["srv", "ansible", "inventory", "..", "..", "etc", "passwd"]))
  {
    TraversalAdmitted();
    TraversalResolved();
    assert "srv" != ANSIBLE && "etc" != ANSIBLE && "passwd" != ANSIBLE;
  }

  /** The raw path with ".." passes the file validator. */
  lemma TraversalAdmitted()
    ensures FileScope(["srv", "ansible", "inventory", "..", "..", "etc", "passwd"]).Pass?
  {
    var raw := ["srv", "ansible", "inventory", "..", "..", "etc", "passwd"];
    assert LastAt(raw, ANSIBLE, 1) && InSubtree(raw, 1);
  }

  /** Resolving it climbs back out of the "ansible" directory. */
  lemma TraversalResolved()
    ensures Normalize(["srv", "ansible", "inventory", "..", "..", "etc", "passwd"]) == ["srv", "etc", "passwd"]
  {
    var s1: seq<string> := ["srv"];
    var s2 := s1 + ["ansible"];
    var s3 := s2 + ["inventory"];
    var s4 := s3 + [".."];
    var s5 := s4 + [".."];
    var s6 := s5 + ["etc"];
    var s7 := s6 + ["passwd"];
    assert s7 == ["srv", "ansible", "inventory", "..", "..", "etc", "passwd"];
    NormalizeSnoc([], "srv");
    assert [] + ["srv"] == s1;
    NormalizeSnoc(s1, "ansible");
    NormalizeSnoc(s2, "inventory");
    assert Normalize(s3) == ["srv", "ansible", "inventory"];
    NormalizeSnoc(s3, "..");
    NormalizeSnoc(s4, "..");
    assert Normalize(s5) == ["srv"];
    NormalizeSnoc(s5, "etc");
    NormalizeSnoc(s6, "passwd");
  }

  /** As written: a file directly inside an "ansible" directory is refused,
      since the root-level clause never holds. */
  lemma RootLevelFileRefused()
    ensures FileScope(["srv", "ansible", "site.yml"]) == Fail(NotInInventoryOrRoles)
  {
    var parts := ["srv", "ansible", "site.yml"];
    assert LastAt(parts, ANSIBLE, 1);
    assert "site.yml" != ANSIBLE && "site.yml" != INVENTORY && "site.yml" != ROLES;
    LastAtUnique(parts, ANSIBLE, 1, LastIndex(parts, ANSIBLE));
  }

  /** A resolved path inside the workspace whose root is the directory
      `root`: a file directly in it, or anything under inventory/ or roles/. */
  ghost predicate Contained(p: Path, root: Path) {
    Clean(p) && |root| > 0 && root[|root| - 1] == ANSIBLE && root < p &&
    (|p| == |root| + 1 || p[|root|] == INVENTORY || p[|root|] == ROLES)
  }

  /** The file validator as evidently intended: the segment after the last
      "ansible" is inventory or roles, or it is the file's own name. */
  function IntendedFileScope(p: Path): (r: Outcome<FsError>)
    ensures r.Pass? <==> exists i :: LastAt(p, ANSIBLE, i) && (InSubtree(p, i) || i + 2 == |p|)
    ensures r.Fail? ==> r.error == (if ANSIBLE in p then NotInInventoryOrRoles else NotFromAnsible)
  {
    if ANSIBLE !in p then Fail(NotFromAnsible)
    else
      var index := LastIndex(p, ANSIBLE);
      if index + 1 >= |p| then Fail(NotInInventoryOrRoles)
      else if p[index + 1] == INVENTORY || p[index + 1] == ROLES || index + 2 == |p| then Pass
      else Fail(NotInInventoryOrRoles)
  }

  /** Corrected admission of a file: resolve first, then validate the
      resolved path with the intended validator. */
  function AdmitFile(cwd: Path, raw: RawPath): (r: Result<Path, FsError>)
    ensures r.Success? ==> r.value == Resolve(cwd, raw)
    ensures r.Success? ==> Contained(r.value, r.value[..LastIndex(r.value, ANSIBLE) + 1])
  {
    var p := Resolve(cwd, raw);
    match IntendedFileScope(p)
    case Pass => Success(p)
    case Fail(e) => Failure(e)
  }

  /** The corrected validator admits the root-level files the as-written one
      refuses. */
  lemma {:induction false} IntendedAdmitsRootFiles(root: Path, name: string)
    requires Clean(root) && IsName(name) && name != ANSIBLE
    requires |root| > 0 && root[|root| - 1] == ANSIBLE
    ensures IntendedFileScope(root + [name]).Pass?
    ensures AdmitFile([], RawPath(true, root + [name])) == Success(root + [name])
  {
    var p := root + [name];
    assert LastAt(p, ANSIBLE, |root| - 1);
    var k := LastIndex(p, ANSIBLE);
    LastAtUnique(p, ANSIBLE, |root| - 1, k);
    assert Clean(p);
    NormalizeClean(p);
  }

  /** Whatever raw path the corrected admission accepts, no ".." can lead
      the stored path out of the "ansible" directory it names. */
  lemma {:induction false} AdmitFileNeverEscapes(cwd: Path, raw: RawPath)
    requires AdmitFile(cwd, raw).Success?
    ensures ANSIBLE in Resolve(cwd, raw)
    ensures exists root :: Contained(Resolve(cwd, raw), root)
  {
    var p := Resolve(cwd, raw);
    var root := p[..LastIndex(p, ANSIBLE) + 1];
    assert Contained(p, root);
  }
}
