/**
 * The lists of installable and removable software (`core/tags.py`): the
 * `validate_tags` check on a mapping from software title to its tags, and
 * the `Tags` objects whose mapping `read_tags_from_playbooks` replaces with
 * what the playbooks hold.
 */
module SoftwareTags {
  import opened Wrappers
  import opened TagScraper

  /** A value of the mapping as the validator sees it: a list of tags, or
      something that is not a list. */
  datatype TagValue = ListValue(tags: seq<string>) | OtherValue

  /** The mapping handed to the validator, in dictionary order. */
  type Entries = seq<(string, TagValue)>

  /** The `ValueError`s `validate_tags` raises, with the entry they name. */
  datatype TagError =
    | ValueNotAList(name: string)
    | TagNotWord(name: string, tag: string)
    | TagNotLowercase(name: string, tag: string)
    | BadTagName(name: string)

  // ---------------------------------------------------------------------
  // The patterns
  // ---------------------------------------------------------------------

  predicate IsAsciiLower(c: char) { 'a' <= c <= 'z' }
  predicate IsAsciiUpper(c: char) { 'A' <= c <= 'Z' }
  predicate IsDigit(c: char) { '0' <= c <= '9' }

  /** The class `[a-zA-Z0-9_]`. */
  predicate WordChar(c: char) {
    IsAsciiLower(c) || IsAsciiUpper(c) || IsDigit(c) || c == '_'
  }

  /** The class `[a-zA-Z0-9_\-\.\/ ]`. */
  predicate NameChar(c: char) {
    WordChar(c) || c == '-' || c == '.' || c == '/' || c == ' '
  }

  /** The part of `s` that `^[...]+$` must cover under `re.match`: `$` also
      matches just before one final newline. */
  function MatchBody(s: string): (r: string)
    ensures s == r || s == r + "\n"
  {
    if s != [] && s[|s| - 1] == '\n' then s[..|s| - 1] else s
  }

  /** `re.match(r"^[a-zA-Z0-9_]+$", s) is not None`. */
  predicate IsWord(s: string) {
    var b := MatchBody(s);
    b != [] && forall i :: 0 <= i < |b| ==> WordChar(b[i])
  }

  /** `re.match(r"^[a-zA-Z0-9_\-\.\/ ]+$", s) is not None`. */
  predicate IsTitle(s: string) {
    var b := MatchBody(s);
    b != [] && forall i :: 0 <= i < |b| ==> NameChar(b[i])
  }

  /** `s.islower()` for the strings that reach it, whose only cased
      characters are ASCII letters: some letter, and no capital. */
  predicate IsLower(s: string) {
    (exists i :: 0 <= i < |s| && IsAsciiLower(s[i])) &&
    forall i :: 0 <= i < |s| ==> !IsAsciiUpper(s[i])
  }

  // ---------------------------------------------------------------------
  // validate_tags
  // ---------------------------------------------------------------------

  /** The checks on one tag of entry `name`: the pattern, then the case. */
  function TagProblem(name: string, tag: string): Option<TagError> {
    if !IsWord(tag) then Some(TagNotWord(name, tag))
    else if !IsLower(tag) then Some(TagNotLowercase(name, tag))
    else None
  }

  /** The first problem among the tags of entry `name`, in list order. */
  function TagsProblem(name: string, tags: seq<string>): (r: Option<TagError>)
    ensures r.None? <==> forall i :: 0 <= i < |tags| ==> TagProblem(name, tags[i]).None?
    ensures r.Some? ==> exists i :: (0 <= i < |tags| && TagProblem(name, tags[i]) == r &&
                                     forall j :: 0 <= j < i ==> TagProblem(name, tags[j]).None?)
  {
    if tags == [] then None
    else if TagProblem(name, tags[0]).Some? then TagProblem(name, tags[0])
    else
      var rest := TagsProblem(name, tags[1..]);
      if rest.Some? then
        var i :| 0 <= i < |tags[1..]| && TagProblem(name, tags[1..][i]) == rest &&
                 forall j :: 0 <= j < i ==> TagProblem(name, tags[1..][j]).None?;
        assert TagProblem(name, tags[i + 1]) == rest;
        rest
      else rest
  }

  /** The checks on one entry: the value must be a list, each tag must pass,
      and only then is the title checked. */
  function EntryProblem(e: (string, TagValue)): Option<TagError> {
    if e.1.OtherValue? then Some(ValueNotAList(e.0))
    else if TagsProblem(e.0, e.1.tags).Some? then TagsProblem(e.0, e.1.tags)
    else if !IsTitle(e.0) then Some(BadTagName(e.0))
    else None
  }

  /** The first failing entry's problem, in dictionary order. */
  function FirstProblem(entries: Entries): (r: Option<TagError>)
    ensures r.None? <==> forall i :: 0 <= i < |entries| ==> EntryProblem(entries[i]).None?
    ensures r.Some? ==> exists i :: (0 <= i < |entries| && EntryProblem(entries[i]) == r &&
                                     forall j :: 0 <= j < i ==> EntryProblem(entries[j]).None?)
  {
    if entries == [] then None
    else if EntryProblem(entries[0]).Some? then EntryProblem(entries[0])
    else
      var rest := FirstProblem(entries[1..]);
      if rest.Some? then
        var i :| 0 <= i < |entries[1..]| && EntryProblem(entries[1..][i]) == rest &&
                 forall j :: 0 <= j < i ==> EntryProblem(entries[1..][j]).None?;
        assert EntryProblem(entries[i + 1]) == rest;
        rest
      else rest
  }

  /** `validate_tags`: the mapping itself when every entry passes, otherwise
      the problem of the first entry that fails. */
  function ValidateTags(entries: Entries): (r: Result<Entries, TagError>)
    ensures r.Success? <==> forall i :: 0 <= i < |entries| ==> EntryProblem(entries[i]).None?
    ensures r.Success? ==> r.value == entries
    ensures r.Failure? ==> exists i :: (0 <= i < |entries| && EntryProblem(entries[i]) == Some(r.error) &&
                                        forall j :: 0 <= j < i ==> EntryProblem(entries[j]).None?)
  {
    var p := FirstProblem(entries);
    if p.Some? then Failure(p.value) else Success(entries)
  }

  // ---------------------------------------------------------------------
  // What the checks accept
  // ---------------------------------------------------------------------

  /** A tag passes exactly when, up to one final newline, it is made of
      lowercase letters, digits and underscores and holds a letter. */
  lemma TagAccepted(name: string, tag: string)
    ensures TagProblem(name, tag).None? <==>
            var b := MatchBody(tag);
            && (forall i :: 0 <= i < |b| ==> IsAsciiLower(b[i]) || IsDigit(b[i]) || b[i] == '_')
            && (exists i :: 0 <= i < |b| && IsAsciiLower(b[i]))
  {
    var b := MatchBody(tag);
    assert forall i :: 0 <= i < |b| ==> b[i] == tag[i];
    if tag != b {
      assert tag[|tag| - 1] == '\n';
    }
  }

  /** Tags of digits and underscores only fail the case check. */
  lemma NoLetterTagRejected(name: string, tag: string)
    requires tag != []
    requires forall i :: 0 <= i < |tag| ==> IsDigit(tag[i]) || tag[i] == '_'
    ensures TagProblem(name, tag) == Some(TagNotLowercase(name, tag))
  {
    assert MatchBody(tag) == tag;
  }

  /** A single trailing newline does not change the verdict on a tag. */
  lemma TrailingNewlineIgnored(name: string, tag: string)
    requires tag == [] || tag[|tag| - 1] != '\n'
    ensures TagProblem(name, tag + "\n").None? <==> TagProblem(name, tag).None?
  {
    var t := tag + "\n";
    assert MatchBody(t) == tag;
    assert forall i :: 0 <= i < |tag| ==> t[i] == tag[i];
    assert MatchBody(tag) == tag;
  }

  /** Within an entry, a value that is not a list is reported first, then a
      failing tag, and only then a bad title, whatever the entries after it
      hold; an entry that passes leaves the verdict to the entries after
      it. */
  lemma ValueCheckedBeforeTitle(name: string, tags: seq<string>, rest: Entries)
    ensures ValidateTags([(name, OtherValue)] + rest) == Failure(ValueNotAList(name))
    ensures TagsProblem(name, tags).Some? ==>
              ValidateTags([(name, ListValue(tags))] + rest) == Failure(TagsProblem(name, tags).value)
    ensures TagsProblem(name, tags).None? && !IsTitle(name) ==>
              ValidateTags([(name, ListValue(tags))] + rest) == Failure(BadTagName(name))
    ensures TagsProblem(name, tags).None? && IsTitle(name) ==>
              && (ValidateTags([(name, ListValue(tags))] + rest).Success? <==> ValidateTags(rest).Success?)
              && (ValidateTags(rest).Failure? ==> ValidateTags([(name, ListValue(tags))] + rest) == ValidateTags(rest))
  {
    assert ([(name, OtherValue)] + rest)[1..] == rest;
    assert ([(name, ListValue(tags))] + rest)[1..] == rest;
  }

  // ---------------------------------------------------------------------
  // Tags objects
  // ---------------------------------------------------------------------

  /** Which class a `Tags` object is: the base class, `InstallationTags`
      or `UninstallationTags`. */
  datatype TagKind = Base | Installation | Uninstallation

  /** The mapping of a `Tags` object as the validator sees it. */
  function AsEntries(m: TagMap): (r: Entries)
    ensures |r| == |m|
    ensures forall i :: 0 <= i < |m| ==> r[i] == (m[i].0, ListValue(m[i].1))
  {
    if m == [] then [] else [(m[0].0, ListValue(m[0].1))] + AsEntries(m[1..])
  }

  /** A `Tags` object: its class and its mapping from title to tags. */
  class Tags {
    const kind: TagKind
    var tags: TagMap

    /** `__init__`: every object starts with an empty mapping. */
    constructor(kind: TagKind)
      ensures this.kind == kind && tags == []
    {
      this.kind := kind;
      tags := [];
    }

    /** `get_tags`. */
    method GetTags() returns (r: TagMap)
      ensures r == tags
    {
      r := tags;
    }

    /** `read_tags_from_playbooks`, defined by the two subclasses: the
        mapping becomes what the playbooks hold for the class's mode, as a
        whole and without passing through `validate_tags`; when the roles
        directory is missing the error propagates and the mapping stays. */
    method ReadTagsFromPlaybooks(rolesDirExists: bool, roles: seq<RoleDir>) returns (r: Outcome<ScrapeError>)
      requires kind != Base
      modifies this
      ensures r.Pass? <==> rolesDirExists
      ensures r.Pass? ==> tags == Scraped(roles, kind == Installation)
      ensures r.Fail? ==> tags == old(tags) && r.error == RolesDirMissing
    {
      var scraped := ReadTagsHelper(kind == Installation, rolesDirExists, roles);
      if scraped.Failure? {
        return Fail(scraped.error);
      }
      tags := scraped.value;
      r := Pass;
    }
  }

  /** The playbooks can put into a `Tags` object a mapping that
      `validate_tags` would refuse: a role whose task is named "Install Web"
      with the tag "Web" yields an entry whose tag is not lowercase. */
  lemma ScrapedTagsNotValidated()
    ensures var roles := [RoleDir(true, true, [Task(Some("Install Web"), TaskTags.TagList(["Web"]))])];
            && Scraped(roles, true) == [("Web", ["Web"])]
            && ValidateTags(AsEntries(Scraped(roles, true))) == Failure(TagNotLowercase("Web", "Web"))
  {
    WebRoleScraped();
    WebEntryRefused();
  }

  /** The role with the "Install Web" task yields the entry "Web". */
  lemma WebRoleScraped()
    ensures Scraped([RoleDir(true, true, [Task(Some("Install Web"), TaskTags.TagList(["Web"]))])], true)
            == [("Web", ["Web"])]
  {
    var task := Task(Some("Install Web"), TaskTags.TagList(["Web"]));
    var roles := [RoleDir(true, true, [task])];
    assert FindFrom("Web", "Install", 3) == -1;
    assert FindFrom("Web", "Install", 2) == -1;
    assert FindFrom("Web", "Install", 1) == -1;
    assert !Contains("Web", "Install");
    assert "Install " + "Web" == "Install Web";
    InstallTitle("Web");
    assert OccursAt("Install Web", "Install", 0);
    assert Contribution(task, "Install") == Some(("Web", ["Web"]));
    assert [task][..0] == [];
    assert TaskContributions([task], "Install") == [("Web", ["Web"])];
    assert roles[..0] == [];
    assert Contributions(roles, "Install") == [("Web", ["Web"])];
  }

  /** `validate_tags` refuses the entry "Web" with the tag "Web". */
  lemma WebEntryRefused()
    ensures ValidateTags(AsEntries([("Web", ["Web"])])) == Failure(TagNotLowercase("Web", "Web"))
  {
    var entries := AsEntries([("Web", ["Web"])]);
    assert entries == [("Web", ListValue(["Web"]))];
    assert MatchBody("Web") == "Web";
    assert !IsLower("Web") by {
      assert IsAsciiUpper("Web"[0]);
    }
    assert TagProblem("Web", "Web") == Some(TagNotLowercase("Web", "Web"));
    assert TagsProblem("Web", ["Web"]) == Some(TagNotLowercase("Web", "Web"));
  }
}
