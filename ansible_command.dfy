/**
 * The argument vectors the toolbox hands to Ansible (`core/ansible.py`):
 * the field validators of the `Ansible` model, the `ansible-playbook`
 * command built by `get_command` and the `ansible ... -m ping` command built
 * by `get_ping_command`. Running the commands is not part of this model.
 */
module AnsibleCommand {

  /** The fields of an `Ansible` model that the commands use; `extraVars`
      lists the `extra_vars` dictionary in its iteration order. */
  datatype Ansible = Ansible(
    playbook: string,
    inventory: string,
    tags: seq<string>,
    extraVars: seq<(string, string)>,
    user: string,
    password: string,
    verbosity: int)

  /** The `ValueError`s the validators raise. */
  datatype ConfigError =
    | EmptyPlaybook
    | EmptyInventory
    | EmptyUser
    | RootUser
    | EmptyPassword
    | VerbosityOutOfRange

  // ---------------------------------------------------------------------
  // Validators
  // ---------------------------------------------------------------------

  /** `validate_user`: the empty check comes before the root check. */
  function UserErrors(user: string): (r: seq<ConfigError>)
    ensures forall x :: x in r <==> (x == EmptyUser && user == "") || (x == RootUser && user == "root")
    ensures r == [] <==> user != "" && user != "root"
  {
    if user == "" then [EmptyUser]
    else if user == "root" then [RootUser]
    else []
  }

  /** The check behind each error fails on `a`. */
  predicate Fails(a: Ansible, e: ConfigError) {
    match e
    case EmptyPlaybook => a.playbook == ""
    case EmptyInventory => a.inventory == ""
    case EmptyUser => a.user == ""
    case RootUser => a.user == "root"
    case EmptyPassword => a.password == ""
    case VerbosityOutOfRange => a.verbosity < 0 || a.verbosity > 4
  }

  /** The errors the field validators report together, in the order the
      fields are declared: each error is reported exactly when its check
      fails, and none when every field is valid. */
  function ValidationErrors(a: Ansible): (r: seq<ConfigError>)
    ensures forall e :: e in r <==> Fails(a, e)
    ensures r == [] <==>
              a.playbook != "" && a.inventory != "" && a.user != "" && a.user != "root" &&
              a.password != "" && 0 <= a.verbosity <= 4
  {
    FieldError(a.playbook == "", EmptyPlaybook)
    + FieldError(a.inventory == "", EmptyInventory)
    + UserErrors(a.user)
    + FieldError(a.password == "", EmptyPassword)
    + FieldError(a.verbosity < 0 || a.verbosity > 4, VerbosityOutOfRange)
  }

  /** The error of one field, if its check fails. */
  function FieldError(fails: bool, e: ConfigError): (r: seq<ConfigError>)
    ensures forall x :: x in r <==> fails && x == e
  {
    if fails then [e] else []
  }

  // ---------------------------------------------------------------------
  // String helpers
  // ---------------------------------------------------------------------

  /** Python's `s * n`: `n` copies of `s`, nothing when `n <= 0`. */
  function Repeat(s: string, n: int): (r: string)
    ensures n <= 0 ==> r == ""
    ensures forall i :: 0 <= i < |r| ==> r[i] in s
    decreases n
  {
    if n <= 0 then "" else Repeat(s, n - 1) + s
  }

  /** `s * n` holds `n` copies' worth of characters. */
  lemma {:induction false} RepeatLength(s: string, n: int)
    ensures |Repeat(s, n)| == if n <= 0 then 0 else |s| * n
    decreases n
  {
    if n > 0 {
      RepeatLength(s, n - 1);
      assert |s| * (n - 1) + |s| == |s| * n;
    }
  }

  /** Copy `i` of `s * n` sits at offset `|s| * i`, so the result is the
      copies of `s` one after another. */
  lemma {:induction false} RepeatCopies(s: string, n: int, i: int)
    requires 0 <= i < n
    ensures |s| * i + |s| <= |Repeat(s, n)|
    ensures Repeat(s, n)[|s| * i..|s| * i + |s|] == s
    decreases n
  {
    var prev := Repeat(s, n - 1);
    assert Repeat(s, n) == prev + s;
    if i < n - 1 {
      RepeatCopies(s, n - 1, i);
      PrefixSlice(prev, s, |s| * i, |s| * i + |s|);
    } else {
      RepeatLength(s, n - 1);
      assert |s| * i == |prev|;
      assert (prev + s)[|prev|..|prev| + |s|] == s;
    }
  }

  /** A slice that ends within the first part of a concatenation. */
  lemma PrefixSlice(a: string, b: string, lo: int, hi: int)
    requires 0 <= lo <= hi <= |a|
    ensures (a + b)[lo..hi] == a[lo..hi]
  {
  }

  /** Python's `sep.join(parts)`. */
  function Join(parts: seq<string>, sep: char): string {
    if parts == [] then ""
    else if |parts| == 1 then parts[0]
    else parts[0] + [sep] + Join(parts[1..], sep)
  }

  /** Python's `s.split(sep)`: the pieces between the separators. */
  function Split(s: string, sep: char): (r: seq<string>)
    ensures |r| >= 1
    decreases |s|
  {
    if sep !in s then [s]
    else
      var i := FirstIndex(s, sep);
      [s[..i]] + Split(s[i + 1..], sep)
  }

  /** The position of the first `c` in `s`. */
  function FirstIndex(s: string, c: char): (i: nat)
    requires c in s
    ensures i < |s| && s[i] == c && c !in s[..i]
  {
    if s[0] == c then 0 else FirstIndex(s[1..], c) + 1
  }

  /** The `--tags` value can be split back into the tags whenever no tag
      holds a comma. */
  lemma {:induction false} SplitJoin(parts: seq<string>, sep: char)
    requires parts != []
    requires forall i :: 0 <= i < |parts| ==> sep !in parts[i]
    ensures Split(Join(parts, sep), sep) == parts
    decreases |parts|
  {
    if |parts| > 1 {
      var head, tail := parts[0], parts[1..];
      var rest := Join(tail, sep);
      var s := head + [sep] + rest;
      assert Join(parts, sep) == s;
      assert s[|head|] == sep && s[..|head|] == head && s[|head| + 1..] == rest;
      assert FirstIndex(s, sep) == |head| by {
        FirstIndexAt(s, sep, |head|);
      }
      assert Split(s, sep) == [head] + Split(rest, sep);
      assert forall i :: 0 <= i < |tail| ==> sep !in tail[i] by {
        forall i | 0 <= i < |tail| ensures sep !in tail[i] {
          assert tail[i] == parts[i + 1];
        }
      }
      SplitJoin(tail, sep);
      assert [head] + tail == parts;
    } else {
      assert Join(parts, sep) == parts[0];
    }
  }

  /** The first `c` is the one with no `c` before it. */
  lemma FirstIndexAt(s: string, c: char, k: nat)
    requires k < |s| && s[k] == c && c !in s[..k]
    ensures FirstIndex(s, c) == k
  {
    var i := FirstIndex(s, c);
    assert forall j :: 0 <= j < k ==> s[..k][j] == s[j];
    assert forall j :: 0 <= j < i ==> s[..i][j] == s[j];
  }

  // ---------------------------------------------------------------------
  // The commands
  // ---------------------------------------------------------------------

  /** The password is passed to Ansible as this extra variable. */
  function SshPass(password: string): string {
    "ansible_ssh_pass=" + password
  }

  /** `f"{key}={value}"`. */
  function Assignment(kv: (string, string)): string {
    kv.0 + "=" + kv.1
  }

  /** The nine entries every playbook command starts with. */
  function Head(a: Ansible): seq<string> {
    ["ansible-playbook", a.playbook, "-i", a.inventory, "-u", a.user,
     "-e", SshPass(a.password), Repeat("-v", a.verbosity)]
  }

  /** `--tags` with the comma-joined tags, or nothing for no tags. */
  function TagArgs(tags: seq<string>): seq<string> {
    if tags == [] then [] else ["--tags", Join(tags, ',')]
  }

  /** An `-e key=value` pair per extra variable, in order. */
  function ExtraVarArgs(vars: seq<(string, string)>): seq<string> {
    if vars == [] then []
    else ExtraVarArgs(vars[..|vars| - 1]) + ["-e", Assignment(vars[|vars| - 1])]
  }

  /** The command `get_command` returns. */
  function PlaybookCommand(a: Ansible): seq<string> {
    Head(a) + TagArgs(a.tags) + ExtraVarArgs(a.extraVars)
  }

  /** `get_command`: the fixed head, then the tags, then one `-e` pair per
      extra variable. */
  method GetCommand(a: Ansible) returns (command: seq<string>)
    ensures command == PlaybookCommand(a)
  {
    command := [
      "ansible-playbook",
      a.playbook,
      "-i",
      a.inventory,
      "-u",
      a.user,
      "-e",
      "ansible_ssh_pass=" + a.password,
      Repeat("-v", a.verbosity)
    ];
    if a.tags != [] {
      command := command + ["--tags"];
      command := command + [Join(a.tags, ',')];
    }
    var i := 0;
    while i < |a.extraVars|
      invariant 0 <= i <= |a.extraVars|
      invariant command == Head(a) + TagArgs(a.tags) + ExtraVarArgs(a.extraVars[..i])
    {
      var (key, value) := a.extraVars[i];
      command := command + ["-e"];
      command := command + [key + "=" + value];
      assert a.extraVars[..i + 1][..i] == a.extraVars[..i];
      i := i + 1;
    }
    assert a.extraVars[..i] == a.extraVars;
  }

  /** Each extra variable contributes exactly its own two entries. */
  lemma {:induction false} ExtraVarArgsShape(vars: seq<(string, string)>)
    ensures |ExtraVarArgs(vars)| == 2 * |vars|
    ensures forall k :: 0 <= k < |vars| ==>
              ExtraVarArgs(vars)[2 * k] == "-e" && ExtraVarArgs(vars)[2 * k + 1] == Assignment(vars[k])
  {
    if vars != [] {
      var init := vars[..|vars| - 1];
      ExtraVarArgsShape(init);
      forall k | 0 <= k < |init| ensures init[k] == vars[k] {
      }
    }
  }

  /** The shape of the playbook command: the nine fixed entries, `--tags`
      exactly when there are tags, then the extra variables. */
  lemma PlaybookCommandShape(a: Ansible)
    ensures var cmd := PlaybookCommand(a);
            && |cmd| == 9 + (if a.tags == [] then 0 else 2) + 2 * |a.extraVars|
            && cmd[0] == "ansible-playbook" && cmd[1] == a.playbook
            && cmd[2] == "-i" && cmd[3] == a.inventory
            && cmd[4] == "-u" && cmd[5] == a.user
            && cmd[6] == "-e" && cmd[7] == "ansible_ssh_pass=" + a.password
            && cmd[8] == Repeat("-v", a.verbosity)
            && (|cmd| > 9 && cmd[9] == "--tags" <==> a.tags != [])
            && (a.tags != [] ==> cmd[10] == Join(a.tags, ','))
            && (var off := if a.tags == [] then 9 else 11;
                forall k :: 0 <= k < |a.extraVars| ==>
                  cmd[off + 2 * k] == "-e" && cmd[off + 2 * k + 1] == Assignment(a.extraVars[k]))
  {
    ExtraVarArgsShape(a.extraVars);
    var cmd := PlaybookCommand(a);
    var off := if a.tags == [] then 9 else 11;
    assert cmd == (Head(a) + TagArgs(a.tags)) + ExtraVarArgs(a.extraVars);
    assert |Head(a) + TagArgs(a.tags)| == off;
    forall k | 0 <= k < |a.extraVars|
      ensures cmd[off + 2 * k] == "-e" && cmd[off + 2 * k + 1] == Assignment(a.extraVars[k])
    {
      assert cmd[off + 2 * k] == ExtraVarArgs(a.extraVars)[2 * k];
      assert cmd[off + 2 * k + 1] == ExtraVarArgs(a.extraVars)[2 * k + 1];
    }
    if a.tags == [] && a.extraVars != [] {
      assert cmd[9 + 2 * 0] == "-e";
    }
  }

  /** The verbosity entry is there even at verbosity 0, as "". */
  lemma QuietCommandKeepsEmptyFlag(a: Ansible)
    requires a.verbosity == 0
    ensures PlaybookCommand(a)[8] == ""
  {
  }

  /** `get_ping_command`. */
  function PingCommand(a: Ansible): (r: seq<string>)
    ensures |r| == 11
    ensures r[0] == "ansible" && r[8..] == ["all", "-m", "ping"]
  {
    ["ansible", "-i", a.inventory, "-u", a.user, "-e", SshPass(a.password),
     Repeat("-v", a.verbosity), "all", "-m", "ping"]
  }

  /** The ping reaches the hosts exactly as the playbook run would: same
      inventory, user, password and verbosity entries. */
  lemma PingSharesConnection(a: Ansible)
    ensures PingCommand(a)[1..8] == PlaybookCommand(a)[2..9]
  {
    PlaybookCommandShape(a);
  }

  /** The ping does not depend on the playbook, tags or extra variables. */
  lemma PingIgnoresRunOptions(a: Ansible, playbook: string, tags: seq<string>, vars: seq<(string, string)>)
    ensures PingCommand(a) == PingCommand(a.(playbook := playbook, tags := tags, extraVars := vars))
  {
  }
}
