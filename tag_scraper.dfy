/**
 * `read_tags_helper` (`helpers/read_tags.py`): collects, from the task lists
 * of the roles, a mapping from software title to the tags of the task that
 * installs (or uninstalls) it. Listing the roles directory and parsing the
 * YAML files are not modelled: the roles arrive as records, in the order
 * `iterdir()` gives them, each with its parsed tasks.
 */
module TagScraper {
  import opened Wrappers

  /** The `tags` field of a parsed task. */
  datatype TaskTags = NoTags | TagList(tags: seq<string>) | NotAList

  /** A parsed task: its `name`, if any, and its `tags` field. */
  datatype Task = Task(name: Option<string>, tags: TaskTags)

  /** An entry of the roles directory: whether it is a directory, whether
      `tasks/main.yml` exists inside it, and the tasks that file holds. */
  datatype RoleDir = RoleDir(isDir: bool, hasMainYml: bool, tasks: seq<Task>)

  datatype ScrapeError = RolesDirMissing

  /** A Python dictionary from title to tags, in insertion order. */
  type TagMap = seq<(string, seq<string>)>

  /** The word a task name must contain in each mode. */
  function Keyword(install: bool): string {
    if install then "Install" else "Uninstall"
  }

  // ---------------------------------------------------------------------
  // Python string operations
  // ---------------------------------------------------------------------

  /** `sub` occurs in `s` at position `i`. */
  predicate OccursAt(s: string, sub: string, i: int) {
    0 <= i && i + |sub| <= |s| && s[i..i + |sub|] == sub
  }

  /** `s.find(sub, i)`: the first position from `i` on where `sub` occurs,
      or -1. */
  function FindFrom(s: string, sub: string, i: nat): (r: int)
    requires i <= |s|
    ensures r == -1 || (i <= r <= |s| && OccursAt(s, sub, r))
    decreases |s| - i
  {
    if OccursAt(s, sub, i) then i
    else if i == |s| then -1
    else FindFrom(s, sub, i + 1)
  }

  /** `s.find(sub)`. */
  function Find(s: string, sub: string): (r: int)
    ensures -1 <= r <= |s|
    ensures r >= 0 ==> OccursAt(s, sub, r)
  {
    FindFrom(s, sub, 0)
  }

  /** No occurrence from `i` on comes before the one `FindFrom` reports. */
  lemma {:induction false} FindFromFirst(s: string, sub: string, i: nat)
    requires i <= |s|
    ensures var r := FindFrom(s, sub, i);
            forall k :: i <= k < (if r < 0 then |s| + 1 else r) ==> !OccursAt(s, sub, k)
    decreases |s| - i
  {
    if !OccursAt(s, sub, i) && i < |s| {
      FindFromFirst(s, sub, i + 1);
    }
  }

  /** `s.find(sub)` is the first occurrence; -1 means there is none. */
  lemma FindFirst(s: string, sub: string)
    ensures var r := Find(s, sub);
            forall k :: 0 <= k < (if r < 0 then |s| + 1 else r) ==> !OccursAt(s, sub, k)
  {
    FindFromFirst(s, sub, 0);
  }

  /** `sub in s`. */
  predicate Contains(s: string, sub: string) {
    Find(s, sub) >= 0
  }

  /** `s.split(sep)[1]` for a separator that occurs in `s`: the text between
      its first and its second occurrence (or the end). */
  function SecondField(s: string, sep: string): (r: string)
    requires sep != [] && Contains(s, sep)
    ensures !Contains(r, sep)
  {
    var rest := s[Find(s, sep) + |sep|..];
    var k := Find(rest, sep);
    if k < 0 then rest
    else
      var r := rest[..k];
      FindFirst(rest, sep);
      assert forall m :: 0 <= m <= |r| ==> (OccursAt(r, sep, m) ==> OccursAt(rest, sep, m)) by {
        forall m | 0 <= m <= |r| && OccursAt(r, sep, m) ensures OccursAt(rest, sep, m) {
          assert rest[m..m + |sep|] == r[m..m + |sep|];
        }
      }
      r
  }

  /** The second field starts right after the first separator and runs to
      the next separator or to the end. */
  lemma SecondFieldBetween(s: string, sep: string)
    requires sep != [] && Contains(s, sep)
    ensures var i, r := Find(s, sep) + |sep|, SecondField(s, sep);
            && i + |r| <= |s| && r == s[i..i + |r|]
            && (i + |r| == |s| || OccursAt(s, sep, i + |r|))
  {
    var f := Find(s, sep);
    assert OccursAt(s, sep, f);
    var i := f + |sep|;
    var rest := s[i..];
    var k := Find(rest, sep);
    var r := SecondField(s, sep);
    if k >= 0 {
      assert OccursAt(rest, sep, k);
      assert r == rest[..k];
      assert r == s[i..i + k];
      assert s[i + k..i + k + |sep|] == rest[k..k + |sep|];
    } else {
      assert r == rest;
    }
  }

  /** The characters `str.strip()` removes. */
  const WHITESPACE: set<char> := {' ', '\t', '\n', '\U{b}', '\U{c}', '\r', '\U{1c}', '\U{1d}', '\U{1e}', '\U{1f}', '\U{85}', '\U{a0}', '\U{1680}', '\U{2000}', '\U{2001}', '\U{2002}', '\U{2003}', '\U{2004}', '\U{2005}', '\U{2006}', '\U{2007}', '\U{2008}', '\U{2009}', '\U{200a}', '\U{2028}', '\U{2029}', '\U{202f}', '\U{205f}', '\U{3000}'}

  /** `c.isspace()`. */
  predicate IsSpace(c: char) {
    c in WHITESPACE
  }

  /** `s.lstrip()`. */
  function LStrip(s: string): string {
    if s != [] && IsSpace(s[0]) then LStrip(s[1..]) else s
  }

  /** `s.rstrip()`. */
  function RStrip(s: string): string {
    if s != [] && IsSpace(s[|s| - 1]) then RStrip(s[..|s| - 1]) else s
  }

  /** `s.strip()`. */
  function Strip(s: string): string {
    RStrip(LStrip(s))
  }

  /** `lstrip` removes the leading whitespace and nothing else. */
  lemma {:induction false} LStripSuffix(s: string)
    ensures var r := LStrip(s);
            && |r| <= |s| && r == s[|s| - |r|..]
            && (forall i :: 0 <= i < |s| - |r| ==> IsSpace(s[i]))
            && (r != [] ==> !IsSpace(r[0]))
  {
    if s != [] && IsSpace(s[0]) {
      LStripSuffix(s[1..]);
    }
  }

  /** `rstrip` removes the trailing whitespace and nothing else. */
  lemma {:induction false} RStripPrefix(s: string)
    ensures var r := RStrip(s);
            && |r| <= |s| && r == s[..|r|]
            && (forall i :: |r| <= i < |s| ==> IsSpace(s[i]))
            && (r != [] ==> !IsSpace(r[|r| - 1]))
  {
    if s != [] && IsSpace(s[|s| - 1]) {
      RStripPrefix(s[..|s| - 1]);
    }
  }

  /** Stripping removes whitespace at both ends and nothing else. */
  lemma StripTrims(s: string)
    ensures var r, i := Strip(s), |s| - |LStrip(s)|;
            && (r != [] ==> !IsSpace(r[0]) && !IsSpace(r[|r| - 1]))
            && 0 <= i && i + |r| <= |s| && r == s[i..i + |r|]
            && (forall k :: 0 <= k < i ==> IsSpace(s[k]))
            && (forall k :: i + |r| <= k < |s| ==> IsSpace(s[k]))
  {
    var l := LStrip(s);
    var r := RStrip(l);
    LStripSuffix(s);
    RStripPrefix(l);
    var i := |s| - |l|;
    assert l == s[i..];
    assert r == l[..|r|];
    assert r == s[i..i + |r|];
    forall k | i + |r| <= k < |s| ensures IsSpace(s[k]) {
      assert s[k] == l[k - i];
    }
  }

  /** A title with no space at either end is left alone by stripping. */
  lemma StripTrimmed(s: string)
    requires s == [] || (!IsSpace(s[0]) && !IsSpace(s[|s| - 1]))
    ensures Strip(s) == s
  {
  }

  // ---------------------------------------------------------------------
  // Which tasks count, and the dictionary they build
  // ---------------------------------------------------------------------

  /** The `(title, tags)` a task adds in the mode of `keyword`, if any: it
      needs a name containing the keyword and a list of tags. */
  function Contribution(t: Task, keyword: string): Option<(string, seq<string>)>
    requires keyword != []
  {
    if t.name.None? || !Contains(t.name.value, keyword) || !t.tags.TagList? then None
    else Some((Strip(SecondField(t.name.value, keyword)), t.tags.tags))
  }

  /** A task counts exactly when it has a name holding the keyword and a
      list of tags. Its title is a piece of its name after the first
      occurrence of the keyword, holds no further occurrence of it and has
      no whitespace at either end; its tags are kept as they are. */
  lemma ContributionWhen(t: Task, keyword: string)
    requires keyword != []
    ensures var c := Contribution(t, keyword);
            c.Some? <==> t.name.Some? && Contains(t.name.value, keyword) && t.tags.TagList?
    ensures var c := Contribution(t, keyword);
            c.Some? ==>
              var name, title := t.name.value, c.value.0;
              && c.value.1 == t.tags.tags
              && !Contains(title, keyword)
              && (title == [] || (!IsSpace(title[0]) && !IsSpace(title[|title| - 1])))
              && exists j :: Find(name, keyword) + |keyword| <= j && OccursAt(name, title, j)
  {
    var c := Contribution(t, keyword);
    if c.Some? {
      TitleFromName(t.name.value, keyword);
      LStripSuffix(SecondField(t.name.value, keyword));
      assert OccursAt(t.name.value, c.value.0, TitleStart(t.name.value, keyword));
    }
  }

  /** The title `split(keyword)[1].strip()` takes from a name holds no
      further keyword, has no whitespace at either end, and stands in the
      name after the first keyword. */
  lemma TitleFromName(name: string, keyword: string)
    requires keyword != [] && Contains(name, keyword)
    ensures var title := Strip(SecondField(name, keyword));
            && !Contains(title, keyword)
            && (title == [] || (!IsSpace(title[0]) && !IsSpace(title[|title| - 1])))
            && OccursAt(name, title, TitleStart(name, keyword))
  {
    var field := SecondField(name, keyword);
    StripPiece(field, keyword);
    TitlePosition(name, keyword);
  }

  /** Where the title starts in the name: after the first keyword and the
      whitespace that follows it. */
  function TitleStart(name: string, keyword: string): int
    requires keyword != [] && Contains(name, keyword)
  {
    var field := SecondField(name, keyword);
    Find(name, keyword) + |keyword| + |field| - |LStrip(field)|
  }

  /** Stripping a text without the keyword leaves no keyword and no
      whitespace at the ends. */
  lemma StripPiece(field: string, keyword: string)
    requires !Contains(field, keyword)
    ensures var title := Strip(field);
            && !Contains(title, keyword)
            && (title == [] || (!IsSpace(title[0]) && !IsSpace(title[|title| - 1])))
  {
    StripTrims(field);
    var l := |field| - |LStrip(field)|;
    SliceKeepsAbsence(field, keyword, l, l + |Strip(field)|);
  }

  /** The title stands in the name at `TitleStart`. */
  lemma TitlePosition(name: string, keyword: string)
    requires keyword != [] && Contains(name, keyword)
    ensures OccursAt(name, Strip(SecondField(name, keyword)), TitleStart(name, keyword))
  {
    var field := SecondField(name, keyword);
    var title := Strip(field);
    SecondFieldBetween(name, keyword);
    StripTrims(field);
    var i := Find(name, keyword) + |keyword|;
    var l := |field| - |LStrip(field)|;
    SliceOfSlice(name, i, i + |field|, l, l + |title|);
  }

  /** A slice of a slice is a slice of the whole. */
  lemma SliceOfSlice(s: string, a: int, b: int, c: int, d: int)
    requires 0 <= a <= b <= |s| && 0 <= c <= d <= b - a
    ensures s[a..b][c..d] == s[a + c..a + d]
  {
    assert |s[a..b][c..d]| == |s[a + c..a + d]|;
    forall k | 0 <= k < d - c ensures s[a..b][c..d][k] == s[a + c..a + d][k] {
      assert s[a..b][c..d][k] == s[a..b][c + k] == s[a + c + k];
    }
  }

  /** A string without `sub` has no slice holding `sub`. */
  lemma SliceKeepsAbsence(s: string, sub: string, a: int, b: int)
    requires 0 <= a <= b <= |s| && !Contains(s, sub)
    ensures !Contains(s[a..b], sub)
  {
    FindFirst(s, sub);
    var r := Find(s[a..b], sub);
    if r >= 0 {
      SliceOfSlice(s, a, b, r, r + |sub|);
      assert OccursAt(s, sub, a + r);
    }
  }

  /** What the tasks add, in order. */
  function TaskContributions(tasks: seq<Task>, keyword: string): TagMap
    requires keyword != []
  {
    if tasks == [] then []
    else
      var last := Contribution(tasks[|tasks| - 1], keyword);
      TaskContributions(tasks[..|tasks| - 1], keyword) + (if last.Some? then [last.value] else [])
  }

  /** The contributions of consecutive runs of tasks. */
  lemma {:induction false} TaskContributionsAppend(a: seq<Task>, b: seq<Task>, keyword: string)
    requires keyword != []
    ensures TaskContributions(a + b, keyword) == TaskContributions(a, keyword) + TaskContributions(b, keyword)
    decreases |b|
  {
    if b == [] {
      assert a + b == a;
    } else {
      var init := b[..|b| - 1];
      assert (a + b)[..|a + b| - 1] == a + init;
      TaskContributionsAppend(a, init, keyword);
    }
  }

  /** A role is read only if it is a directory holding `tasks/main.yml`. */
  predicate IsRead(role: RoleDir) {
    role.isDir && role.hasMainYml
  }

  /** What the roles add, role by role, task by task. */
  function Contributions(roles: seq<RoleDir>, keyword: string): TagMap
    requires keyword != []
  {
    if roles == [] then []
    else
      var last := roles[|roles| - 1];
      Contributions(roles[..|roles| - 1], keyword) +
      (if IsRead(last) then TaskContributions(last.tasks, keyword) else [])
  }

  /** `d[k] = v`: a new key goes last, an existing key keeps its place. */
  function Put(d: TagMap, k: string, v: seq<string>): (r: TagMap)
    ensures |r| == |d| || |r| == |d| + 1
  {
    if d == [] then [(k, v)]
    else if d[0].0 == k then [(k, v)] + d[1..]
    else [d[0]] + Put(d[1..], k, v)
  }

  /** The assignments `pairs`, in order, on `d`. */
  function PutAll(d: TagMap, pairs: TagMap): TagMap
    decreases |pairs|
  {
    if pairs == [] then d
    else PutAll(Put(d, pairs[0].0, pairs[0].1), pairs[1..])
  }

  /** `d.get(k)`. */
  function Lookup(d: TagMap, k: string): Option<seq<string>> {
    if d == [] then None
    else if d[0].0 == k then Some(d[0].1)
    else Lookup(d[1..], k)
  }

  /** The value the last assignment to `k` in `pairs` gives, if any. */
  function LastValue(pairs: TagMap, k: string): Option<seq<string>> {
    if pairs == [] then None
    else if pairs[|pairs| - 1].0 == k then Some(pairs[|pairs| - 1].1)
    else LastValue(pairs[..|pairs| - 1], k)
  }

  /** No key appears twice: each is absent from the entries after it. */
  predicate DistinctKeys(d: TagMap) {
    d != [] ==> Lookup(d[1..], d[0].0).None? && DistinctKeys(d[1..])
  }

  /** An assignment makes the key map to the new value and leaves every
      other key alone; keys stay distinct. */
  lemma {:induction false} PutLookup(d: TagMap, k: string, v: seq<string>, q: string)
    ensures Lookup(Put(d, k, v), q) == if q == k then Some(v) else Lookup(d, q)
  {
    if d != [] && d[0].0 != k {
      PutLookup(d[1..], k, v, q);
    }
  }

  /** Assignments never duplicate a key. */
  lemma {:induction false} PutDistinct(d: TagMap, k: string, v: seq<string>)
    requires DistinctKeys(d)
    ensures DistinctKeys(Put(d, k, v))
  {
    var r := Put(d, k, v);
    if d == [] {
      assert r == [(k, v)];
    } else if d[0].0 == k {
      assert r[1..] == d[1..];
    } else {
      assert r[1..] == Put(d[1..], k, v);
      PutDistinct(d[1..], k, v);
      PutLookup(d[1..], k, v, d[0].0);
    }
  }

  /** After a run of assignments, each key holds the value of the last
      assignment to it, or what it held before if none. */
  lemma {:induction false} PutAllLookup(d: TagMap, pairs: TagMap, q: string)
    ensures Lookup(PutAll(d, pairs), q) ==
            if LastValue(pairs, q).Some? then LastValue(pairs, q) else Lookup(d, q)
    decreases |pairs|
  {
    if pairs != [] {
      PutLookup(d, pairs[0].0, pairs[0].1, q);
      PutAllLookup(Put(d, pairs[0].0, pairs[0].1), pairs[1..], q);
      LastValueCons(pairs, q);
    }
  }

  /** The last assignment in `[p] + rest` is the last in `rest`, or `p`. */
  lemma {:induction false} LastValueCons(pairs: TagMap, q: string)
    requires pairs != []
    ensures LastValue(pairs, q) ==
            if LastValue(pairs[1..], q).Some? then LastValue(pairs[1..], q)
            else if pairs[0].0 == q then Some(pairs[0].1) else None
    decreases |pairs|
  {
    if |pairs| > 1 && pairs[|pairs| - 1].0 != q {
      var init := pairs[..|pairs| - 1];
      LastValueCons(init, q);
      assert init[1..] == pairs[1..][..|pairs[1..]| - 1];
    }
  }

  /** A run of assignments on an empty dictionary never duplicates a key. */
  lemma {:induction false} PutAllDistinct(d: TagMap, pairs: TagMap)
    requires DistinctKeys(d)
    ensures DistinctKeys(PutAll(d, pairs))
    decreases |pairs|
  {
    if pairs != [] {
      PutDistinct(d, pairs[0].0, pairs[0].1);
      PutAllDistinct(Put(d, pairs[0].0, pairs[0].1), pairs[1..]);
    }
  }

  /** The mapping `read_tags_helper` returns. */
  function Scraped(roles: seq<RoleDir>, install: bool): TagMap {
    PutAll([], Contributions(roles, Keyword(install)))
  }

  // ---------------------------------------------------------------------
  // read_tags_helper
  // ---------------------------------------------------------------------

  /** `read_tags_helper(install_tags)`: the two modes run the same loop and
      differ only in the keyword. */
  method ReadTagsHelper(install: bool, rolesDirExists: bool, roles: seq<RoleDir>)
    returns (r: Result<TagMap, ScrapeError>)
    ensures r.Failure? <==> !rolesDirExists
    ensures r.Success? ==> r.value == Scraped(roles, install)
  {
    if !rolesDirExists {
      return Failure(RolesDirMissing);
    }
    var keyword := Keyword(install);
    var tags: TagMap := [];
    var i := 0;
    while i < |roles|
      invariant 0 <= i <= |roles|
      invariant tags == PutAll([], Contributions(roles[..i], keyword))
    {
      var role := roles[i];
      ContributionsStep(roles, i, keyword);
      ghost var before := Contributions(roles[..i], keyword);
      if !role.isDir || !role.hasMainYml {
        assert before + [] == before;
        i := i + 1;
        continue;
      }
      ghost var start := tags;
      var j := 0;
      while j < |role.tasks|
        invariant 0 <= j <= |role.tasks|
        invariant tags == PutAll(start, TaskContributions(role.tasks[..j], keyword))
      {
        var task := role.tasks[j];
        TaskContributionsStep(role.tasks, j, keyword);
        if task.name.None? || !Contains(task.name.value, keyword) || !task.tags.TagList? {
          assert TaskContributions(role.tasks[..j], keyword) + [] == TaskContributions(role.tasks[..j], keyword);
          j := j + 1;
          continue;
        }
        var title := Strip(SecondField(task.name.value, keyword));
        PutAllSnoc(start, TaskContributions(role.tasks[..j], keyword), title, task.tags.tags);
        tags := Put(tags, title, task.tags.tags);
        j := j + 1;
      }
      assert role.tasks[..j] == role.tasks;
      PutAllAppend([], before, TaskContributions(role.tasks, keyword));
      i := i + 1;
    }
    assert roles[..i] == roles;
    r := Success(tags);
  }

  /** The contributions of one more task. */
  lemma TaskContributionsStep(tasks: seq<Task>, j: nat, keyword: string)
    requires j < |tasks| && keyword != []
    ensures var c := Contribution(tasks[j], keyword);
            TaskContributions(tasks[..j + 1], keyword) ==
            TaskContributions(tasks[..j], keyword) + (if c.Some? then [c.value] else [])
  {
    assert tasks[..j + 1][..j] == tasks[..j];
  }

  /** The contributions of one more role. */
  lemma ContributionsStep(roles: seq<RoleDir>, i: nat, keyword: string)
    requires i < |roles| && keyword != []
    ensures Contributions(roles[..i + 1], keyword) ==
            Contributions(roles[..i], keyword) + (if IsRead(roles[i]) then TaskContributions(roles[i].tasks, keyword) else [])
  {
    assert roles[..i + 1][..i] == roles[..i];
  }

  /** A run of assignments split in two. */
  lemma {:induction false} PutAllAppend(d: TagMap, a: TagMap, b: TagMap)
    ensures PutAll(d, a + b) == PutAll(PutAll(d, a), b)
    decreases |a|
  {
    if a == [] {
      assert a + b == b;
    } else {
      assert (a + b)[1..] == a[1..] + b;
      PutAllAppend(Put(d, a[0].0, a[0].1), a[1..], b);
    }
  }

  /** One more assignment at the end of the run. */
  lemma {:induction false} PutAllSnoc(d: TagMap, pairs: TagMap, k: string, v: seq<string>)
    ensures PutAll(d, pairs + [(k, v)]) == Put(PutAll(d, pairs), k, v)
    decreases |pairs|
  {
    if pairs == [] {
      assert pairs + [(k, v)] == [(k, v)];
    } else {
      assert (pairs + [(k, v)])[1..] == pairs[1..] + [(k, v)];
      PutAllSnoc(Put(d, pairs[0].0, pairs[0].1), pairs[1..], k, v);
    }
  }

  // ---------------------------------------------------------------------
  // Properties of the scraped mapping
  // ---------------------------------------------------------------------

  /** Task `t` yields `(k, v)`. */
  predicate TaskYields(t: Task, keyword: string, k: string, v: seq<string>)
    requires keyword != []
  {
    Contribution(t, keyword) == Some((k, v))
  }

  /** One of the first `n` tasks yields `(k, v)`. */
  ghost predicate TasksYield(tasks: seq<Task>, n: nat, keyword: string, k: string, v: seq<string>)
    requires n <= |tasks| && keyword != []
  {
    exists j {:trigger TaskYields(tasks[j], keyword, k, v)} :: 0 <= j < n && TaskYields(tasks[j], keyword, k, v)
  }

  /** Role `role` is read and one of its tasks yields `(k, v)`. */
  ghost predicate RoleYields(role: RoleDir, keyword: string, k: string, v: seq<string>)
    requires keyword != []
  {
    IsRead(role) && TasksYield(role.tasks, |role.tasks|, keyword, k, v)
  }

  /** One of the first `n` roles is read and has a task that yields `(k, v)`. */
  ghost predicate Yields(roles: seq<RoleDir>, n: nat, keyword: string, k: string, v: seq<string>)
    requires n <= |roles| && keyword != []
  {
    exists i {:trigger RoleYields(roles[i], keyword, k, v)} :: 0 <= i < n && RoleYields(roles[i], keyword, k, v)
  }

  /** The last assignment to a key is one of the assignments. */
  lemma {:induction false} LastValueIn(pairs: TagMap, k: string)
    ensures LastValue(pairs, k).Some? <==> exists p :: 0 <= p < |pairs| && pairs[p].0 == k
    ensures LastValue(pairs, k).Some? ==> (k, LastValue(pairs, k).value) in pairs
    decreases |pairs|
  {
    if pairs != [] {
      var init := pairs[..|pairs| - 1];
      LastValueIn(init, k);
      if exists p :: 0 <= p < |init| && init[p].0 == k {
        var p :| 0 <= p < |init| && init[p].0 == k;
        assert pairs[p].0 == k;
      }
      if exists p :: 0 <= p < |pairs| && pairs[p].0 == k {
        var p :| 0 <= p < |pairs| && pairs[p].0 == k;
        if p < |init| {
          assert init[p].0 == k;
        }
      }
    }
  }

  /** Counting one more task. */
  lemma TasksYieldStep(tasks: seq<Task>, n: nat, keyword: string, k: string, v: seq<string>)
    requires n < |tasks| && keyword != []
    ensures TasksYield(tasks, n + 1, keyword, k, v) <==>
            TasksYield(tasks, n, keyword, k, v) || TaskYields(tasks[n], keyword, k, v)
  {
    if TasksYield(tasks, n + 1, keyword, k, v) {
      var j :| 0 <= j < n + 1 && TaskYields(tasks[j], keyword, k, v);
      if j < n {
        assert TasksYield(tasks, n, keyword, k, v);
      }
    }
    if TaskYields(tasks[n], keyword, k, v) {
      assert 0 <= n < n + 1;
    }
  }

  /** Counting one more role. */
  lemma YieldsStep(roles: seq<RoleDir>, n: nat, keyword: string, k: string, v: seq<string>)
    requires n < |roles| && keyword != []
    ensures Yields(roles, n + 1, keyword, k, v) <==>
            Yields(roles, n, keyword, k, v) || RoleYields(roles[n], keyword, k, v)
  {
    if Yields(roles, n + 1, keyword, k, v) {
      var i :| 0 <= i < n + 1 && RoleYields(roles[i], keyword, k, v);
      if i < n {
        assert Yields(roles, n, keyword, k, v);
      }
    }
    if RoleYields(roles[n], keyword, k, v) {
      assert 0 <= n < n + 1;
    }
  }

  /** The first `n` tasks contribute exactly what they yield. */
  lemma {:induction false} TaskPrefixFrom(tasks: seq<Task>, n: nat, keyword: string, k: string, v: seq<string>)
    requires n <= |tasks| && keyword != []
    ensures (k, v) in TaskContributions(tasks[..n], keyword) <==> TasksYield(tasks, n, keyword, k, v)
  {
    if n == 0 {
      assert tasks[..0] == [];
    } else {
      TaskPrefixFrom(tasks, n - 1, keyword, k, v);
      TaskContributionsStep(tasks, n - 1, keyword);
      TasksYieldStep(tasks, n - 1, keyword, k, v);
      var c := Contribution(tasks[n - 1], keyword);
      assert (k, v) in (if c.Some? then [c.value] else []) <==> TaskYields(tasks[n - 1], keyword, k, v);
    }
  }

  /** The first `n` roles contribute exactly what their tasks yield. */
  lemma {:induction false} RolePrefixFrom(roles: seq<RoleDir>, n: nat, keyword: string, k: string, v: seq<string>)
    requires n <= |roles| && keyword != []
    ensures (k, v) in Contributions(roles[..n], keyword) <==> Yields(roles, n, keyword, k, v)
  {
    if n == 0 {
      assert roles[..0] == [];
    } else {
      var tasks := roles[n - 1].tasks;
      RolePrefixFrom(roles, n - 1, keyword, k, v);
      ContributionsStep(roles, n - 1, keyword);
      YieldsStep(roles, n - 1, keyword, k, v);
      TaskPrefixFrom(tasks, |tasks|, keyword, k, v);
      assert tasks[..|tasks|] == tasks;
    }
  }

  /** Every contribution comes from a task of a role that is read, and every
      such task contributes. */
  lemma ContributionsFrom(roles: seq<RoleDir>, keyword: string, k: string, v: seq<string>)
    requires keyword != []
    ensures (k, v) in Contributions(roles, keyword) <==> Yields(roles, |roles|, keyword, k, v)
  {
    RolePrefixFrom(roles, |roles|, keyword, k, v);
    assert roles[..|roles|] == roles;
  }

  /** The title a later task yields overwrites the one an earlier task
      yielded: each key holds the tags of the last task that yields it. */
  lemma ScrapedLastWins(roles: seq<RoleDir>, install: bool, k: string)
    ensures Lookup(Scraped(roles, install), k) == LastValue(Contributions(roles, Keyword(install)), k)
  {
    PutAllLookup([], Contributions(roles, Keyword(install)), k);
  }

  /** Every entry of the mapping comes from a task of a role that is read,
      and every title such a task yields is in the mapping. */
  lemma ScrapedFromTasks(roles: seq<RoleDir>, install: bool, k: string)
    ensures forall v :: Lookup(Scraped(roles, install), k) == Some(v) ==> Yields(roles, |roles|, Keyword(install), k, v)
    ensures (exists v :: Yields(roles, |roles|, Keyword(install), k, v)) ==> Lookup(Scraped(roles, install), k).Some?
  {
    var pairs := Contributions(roles, Keyword(install));
    ScrapedLastWins(roles, install, k);
    LastValueIn(pairs, k);
    forall v | Lookup(Scraped(roles, install), k) == Some(v) ensures Yields(roles, |roles|, Keyword(install), k, v) {
      ContributionsFrom(roles, Keyword(install), k, v);
    }
    if exists v :: Yields(roles, |roles|, Keyword(install), k, v) {
      var v :| Yields(roles, |roles|, Keyword(install), k, v);
      ContributionsFrom(roles, Keyword(install), k, v);
      var p :| 0 <= p < |pairs| && pairs[p] == (k, v);
      assert pairs[p].0 == k;
    }
  }

  /** Titles are never listed twice. */
  lemma ScrapedDistinct(roles: seq<RoleDir>, install: bool)
    ensures DistinctKeys(Scraped(roles, install))
  {
    PutAllDistinct([], Contributions(roles, Keyword(install)));
  }

  /** The contributions of consecutive runs of roles. */
  lemma {:induction false} ContributionsAppend(a: seq<RoleDir>, b: seq<RoleDir>, keyword: string)
    requires keyword != []
    ensures Contributions(a + b, keyword) == Contributions(a, keyword) + Contributions(b, keyword)
    decreases |b|
  {
    if b == [] {
      assert a + b == a;
    } else {
      var init := b[..|b| - 1];
      assert (a + b)[..|a + b| - 1] == a + init;
      ContributionsAppend(a, init, keyword);
    }
  }

  /** An entry that is not a directory holding `tasks/main.yml` changes
      nothing, wherever it is listed. */
  lemma UnreadRoleIgnored(a: seq<RoleDir>, role: RoleDir, b: seq<RoleDir>, install: bool)
    requires !IsRead(role)
    ensures Scraped(a + [role] + b, install) == Scraped(a + b, install)
  {
    var kw := Keyword(install);
    ContributionsAppend(a + [role], b, kw);
    ContributionsAppend(a, [role], kw);
    ContributionsAppend(a, b, kw);
    assert [role][..0] == [];
    assert Contributions([role], kw) == [];
    assert Contributions(a + [role], kw) == Contributions(a, kw);
  }

  /** A task the filter skips (no name, no keyword in it, or tags that are
      not a list) changes nothing, wherever it stands in a role's tasks. */
  lemma FilteredTaskIgnored(a: seq<RoleDir>, role: RoleDir, b: seq<RoleDir>,
                            before: seq<Task>, t: Task, after: seq<Task>, install: bool)
    requires role.tasks == before + [t] + after
    requires t.name.None? || !Contains(t.name.value, Keyword(install)) || !t.tags.TagList?
    ensures Scraped(a + [role] + b, install) == Scraped(a + [role.(tasks := before + after)] + b, install)
  {
    var kw := Keyword(install);
    var role' := role.(tasks := before + after);
    TaskContributionsAppend(before + [t], after, kw);
    TaskContributionsAppend(before, [t], kw);
    TaskContributionsAppend(before, after, kw);
    assert [t][..0] == [];
    assert TaskContributions([t], kw) == [];
    assert TaskContributions(role.tasks, kw) == TaskContributions(role'.tasks, kw);
    SingleRole(role, kw);
    SingleRole(role', kw);
    ContributionsAppend(a + [role], b, kw);
    ContributionsAppend(a, [role], kw);
    ContributionsAppend(a + [role'], b, kw);
    ContributionsAppend(a, [role'], kw);
  }

  /** What one role adds. */
  lemma SingleRole(role: RoleDir, keyword: string)
    requires keyword != []
    ensures Contributions([role], keyword) == if IsRead(role) then TaskContributions(role.tasks, keyword) else []
  {
    assert [role][..0] == [];
  }

  // ---------------------------------------------------------------------
  // Properties of the titles
  // ---------------------------------------------------------------------

  /** A task named "Install <title>" files its tags under `<title>`. */
  lemma InstallTitle(title: string)
    requires !Contains(title, "Install")
    requires title == [] || (!IsSpace(title[0]) && !IsSpace(title[|title| - 1]))
    ensures Strip(SecondField("Install " + title, "Install")) == title
  {
    var name := "Install " + title;
    assert OccursAt(name, "Install", 0);
    assert Find(name, "Install") == 0;
    var rest := name[7..];
    assert rest == " " + title;
    RestFind(title, "Install");
    assert LStrip(rest) == LStrip(title);
    StripTrimmed(title);
  }

  /** A keyword that is not in `title` is not in `" " + title`. */
  lemma RestFind(title: string, kw: string)
    requires !Contains(title, kw) && kw != [] && kw[0] != ' '
    ensures !Contains(" " + title, kw)
  {
    var s := " " + title;
    FindFirst(title, kw);
    forall i | 0 <= i <= |s| ensures !OccursAt(s, kw, i) {
      if i == 0 {
        assert |s| == 0 || s[0] == ' ';
      } else if i + |kw| <= |s| {
        assert title[i - 1..i - 1 + |kw|] == s[i..i + |kw|];
        assert !OccursAt(title, kw, i - 1);
      }
    }
  }

  /** "Uninstall" does not contain "Install" (the case differs), so an
      uninstall task is never read in install mode. */
  lemma UninstallNeverInstalls(rest: string)
    requires !Contains(rest, "Install")
    ensures !Contains("Uninstall " + rest, "Install")
  {
    var s := "Uninstall " + rest;
    FindFirst(rest, "Install");
    forall i | 0 <= i <= |s| ensures !OccursAt(s, "Install", i) {
      if i < 10 {
        assert s[i] != 'I';
      } else if i + 7 <= |s| {
        assert rest[i - 10..i - 10 + 7] == s[i..i + 7];
        assert !OccursAt(rest, "Install", i - 10);
      }
    }
  }
}
