# toolbox_webapp core, modelled in Dafny

toolbox_webapp is a web front end that installs software on remote hosts by
running Ansible playbooks, and that lets the operator edit the playbooks'
inventory and custom roles in the browser. This project models four parts
of its Python backend and proves properties of each:

- **The workspace editor** (`core/file.py`):
  - `File`, `Folder` and `AnsibleRootFolder` handles, with the pydantic path validators that run when a handle is made;
  - the custom-roles check that every mutation runs first;
  - reading, writing, creating, renaming, deleting and force-deleting;
  - the filtered recursive listing of the ansible root.
- **The Ansible command builder** (`core/ansible.py`): the field validators, `get_command` and `get_ping_command`.
- **The tag validator and the `Tags` objects** (`core/tags.py`).
- **The tag scraper** (`helpers/read_tags.py`): it builds the mapping from software title to tags out of the roles' task lists.

## Files

| file | module | contents |
|---|---|---|
| `wrappers.dfy` | `Wrappers` | `Option`, `Result`, `Outcome` |
| `path_policy.dfy` | `PathPolicy` | path resolution, the scope validators, the custom-roles check, and the two findings |
| `file_system.dfy` | `FileSystem` | the file system as a map from resolved paths to files and directories; the `Disk` class with the system calls `file.py` makes |
| `workspace.dfy` | `Workspace` | the `File`, `Folder` and `AnsibleRootFolder` classes |
| `ansible_command.dfy` | `AnsibleCommand` | the validators and both command builders |
| `tag_scraper.dfy` | `TagScraper` | `read_tags_helper` and the dictionary it builds |
| `software_tags.dfy` | `SoftwareTags` | `validate_tags` and the `Tags` class |

## How the model is built

- **Paths.**
  - A resolved path is the sequence of its segment names.
  - A path as a caller supplies it is a `RawPath`: an absolute flag and the segments, which may still hold `..`.
  - `resolve()` is lexical normalisation against the working directory: `..` climbs, `.` and empty segments vanish, and nothing climbs above `/`.
- **Handles.**
  - A handle keeps a `RawPath` and reaches entries through a shared `Disk` object, whose `entries` map the methods reassign.
  - After a delete, the handle's path becomes `Path("")`, as in the source.
  - A constructor that can raise `ValueError` becomes a static `Open` method that returns a `Result`.
- **Listings.**
  - `iterdir()` order is chosen by the file system.
  - The listing methods therefore pick each next child nondeterministically.
  - They are specified by what every order has in common: each child appears exactly once.
- **Tag scraping.**
  - The roles directory and the parsed `tasks/main.yml` files arrive as records (`RoleDir`, `Task`), in `iterdir()` order.
  - Python dictionaries are association lists in insertion order: `d[k] = v` keeps an existing key in its place.
- **Details of the code that the model keeps as they are written.**
  - `get_command` passes the password once, as `ansible_ssh_pass`, and the inventory unchanged (no trailing comma). The `-v` entry is present even at verbosity 0, as `""`. There is no `extra_args`.
  - The listing of the root is a flat list of entries, not a single node wrapping them.
  - Containment is not relative to one configured root: any directory named `ansible` qualifies.
  - Files directly in the ansible root are refused (see Findings).
  - The unit tests under `python/tests` exercise a newer API (`CustomFiles`, `verify_auth`, tags as lists of dictionaries). The model follows the code under `python/src`.

## Model

| member | source | states |
|---|---|---|
| PathPolicy.Normalize | python/src/toolbox/core/file.py:24 | `resolve()` yields a path with no `.`, `..` or empty segment, and never more segments than it was given |
| PathPolicy.Resolve | python/src/toolbox/core/file.py:21-24 | a relative path resolves from the working directory, and the result is always a resolved path |
| PathPolicy.Lexical | python/src/toolbox/core/file.py:14-19 | turning a string into a `Path` drops exactly the empty and `.` segments and keeps every other segment |
| PathPolicy.LexicalAppend | python/src/toolbox/core/file.py:14-19 | parsing keeps the kept segments in their order: the parts of a concatenation are the parts of each half, one after the other |
| PathPolicy.LexicalOne | python/src/toolbox/core/file.py:14-19 | a single segment is dropped exactly when it is empty or `.` |
| PathPolicy.LexicalClean | python/src/toolbox/core/file.py:14-19 | parsing a resolved path gives back the same parts |
| PathPolicy.NormalizeAppend | python/src/toolbox/core/file.py:24 | resolving a prefix and then walking the rest from there is resolving the whole path |
| PathPolicy.NormalizeLexical | python/src/toolbox/core/file.py:14-24 | that parsing step does not change where the path resolves to, even below a prefix |
| PathPolicy.NormalizeClean | python/src/toolbox/core/file.py:73-76 | resolving an already resolved path changes nothing, so the second `resolve()` in each subclass constructor is a no-op |
| PathPolicy.LastIndex | python/src/toolbox/core/file.py:59-62 | the scan finds -1 exactly when there is no `ansible` segment; otherwise it finds one with no later `ansible` segment |
| PathPolicy.FolderScope | python/src/toolbox/core/file.py:146-166 | the folder validators pass exactly when the segment after the last `ansible` is `inventory` or `roles`. They raise "not from the ansible folder" exactly when no segment is `ansible`, and `IndexError` exactly when the path ends in `ansible` |
| PathPolicy.FileScope | python/src/toolbox/core/file.py:49-71 | the file validators give the same verdict as the folder validators on every path, because the root-level clause never holds |
| PathPolicy.RootScope | python/src/toolbox/core/file.py:248-253 | the root validator passes exactly when the last segment is `ansible` |
| PathPolicy.CustomRolesCheck | python/src/toolbox/core/file.py:83-95 | passes exactly when some segment after the last `ansible` exists and, if it is `roles`, the next one is `custom`. It fails with "not in the ansible folder" exactly when no segment is `ansible`, and a refusal under roles names a segment other than `custom` |
| PathPolicy.AnyAnsibleDirQualifies | python/src/toolbox/core/file.py:153-163 | `.../ansible/inventory/...` and `.../ansible/roles/...` pass whatever precedes them: any directory named `ansible` qualifies |
| PathPolicy.SubstringDoesNotQualify | python/src/toolbox/core/file.py:147-151 | a segment that merely contains `ansible` (`my-ansible`) does not count |
| PathPolicy.LastAnsibleDecides | python/src/toolbox/core/file.py:156-166 | a later `ansible` segment decides afresh, so `ansible/inventory/ansible/x` is refused |
| PathPolicy.CustomRolesOnlyCustom | python/src/toolbox/core/file.py:178-190 | under `ansible/roles/<role>/...` the custom-roles check passes exactly when `<role>` is `custom` |
| PathPolicy.ValidationPrecedesResolution | python/src/toolbox/core/file.py:21-24 | the raw path `/srv/ansible/inventory/../../etc/passwd` passes the file validator, but the handle stores `/srv/etc/passwd`, which has no `ansible` segment |
| PathPolicy.TraversalAdmitted | python/src/toolbox/core/file.py:49-66 | that raw path passes the file validator |
| PathPolicy.TraversalResolved | python/src/toolbox/core/file.py:24 | that raw path resolves to `/srv/etc/passwd` |
| PathPolicy.RootLevelFileRefused | python/src/toolbox/core/file.py:65-71 | `/srv/ansible/site.yml`, a file directly in the ansible root, is refused |
| PathPolicy.AdmitFile | python/src/toolbox/core/file.py:21-24 | corrected admission (resolve first, then validate): an admitted path is the resolved path, and it lies in the ansible directory it names, either directly or under inventory/roles |
| PathPolicy.IntendedFileScope | python/src/toolbox/core/file.py:56-71 | corrected file validator: passes exactly when the segment after the last `ansible` is `inventory` or `roles`, or is the file's own name |
| PathPolicy.IntendedAdmitsRootFiles | python/src/toolbox/core/file.py:65-68 | the corrected validator admits every file directly in an ansible root |
| PathPolicy.AdmitFileNeverEscapes | python/src/toolbox/core/file.py:21-24 | no raw path that the corrected admission accepts resolves outside an ansible directory |
| FileSystem.Disk.WriteText | python/src/toolbox/core/file.py:108-109 | `open(p, "w").write(c)` makes `p` a file holding `c`. It fails on a directory or when the parent is not a directory, and then leaves the tree unchanged; the tree stays well formed |
| FileSystem.Disk.Touch | python/src/toolbox/core/file.py:119 | `touch()` makes an empty file where nothing exists, leaves any existing entry alone, and fails when the parent is missing |
| FileSystem.Disk.Mkdir | python/src/toolbox/core/file.py:204 | `mkdir()` adds a directory; it fails on any existing entry or a missing parent and leaves the tree unchanged |
| FileSystem.Disk.Unlink | python/src/toolbox/core/file.py:134 | `unlink()` removes a file and nothing else, and refuses a directory |
| FileSystem.Disk.Rmdir | python/src/toolbox/core/file.py:222 | `rmdir()` removes only an empty directory; otherwise it fails and changes nothing |
| FileSystem.Disk.Rename | python/src/toolbox/core/file.py:126 | `rename()` succeeds exactly as POSIX rename decides, then moves the subtree to the destination; on failure nothing changes |
| FileSystem.MovedWellFormed | python/src/toolbox/core/file.py:126 | a permitted rename leaves a well-formed tree: resolved keys, and every entry inside a directory |
| FileSystem.MovedKeeps | python/src/toolbox/core/file.py:126 | a rename leaves every entry outside its source and destination as it was |
| FileSystem.MovedTarget | python/src/toolbox/core/file.py:126-127 | after a rename, the destination holds what the source held |
| FileSystem.MovedRemovesSource | python/src/toolbox/core/file.py:126 | after a rename, nothing is left at or below the source that is not below the destination |
| FileSystem.AncestorTargetRefused | python/src/toolbox/core/file.py:125-126 | renaming onto an ancestor of the entry is refused, because the ancestor is a non-empty directory |
| FileSystem.RemoveLeafWellFormed | python/src/toolbox/core/file.py:134 | removing a file or an empty directory removes exactly that entry and keeps the tree well formed |
| Workspace.ResolveLexical | python/src/toolbox/core/file.py:17-24 | the path the validators see resolves to the same entry as the path the handle keeps |
| Workspace.JoinResolves | python/src/toolbox/core/file.py:125 | `base / name` leads where an absolute `name` leads on its own; a relative `name`, `..` included, is walked from where `base` leads |
| Workspace.ParentOfResolved | python/src/toolbox/core/file.py:125 | `path.parent` of a resolved path leads to its parent directory |
| Workspace.RenameStaysInDirectory | python/src/toolbox/core/file.py:125-126 | renaming a handle with a resolved path to a plain name moves the entry within its own directory |
| Workspace.NameAfterRename | python/src/toolbox/core/file.py:127-140 | after a rename, `get_name` reports the last part of the new name as written |
| Workspace.ResolveChild | python/src/toolbox/core/file.py:196 | a listed child's path resolves to its parent's target with the child's name appended |
| Workspace.File.Open | python/src/toolbox/core/file.py:21-76 | `File(path)` fails exactly when the file validators refuse the path as supplied, with their error; on success the handle holds the resolved path |
| Workspace.File.OpenContained | python/src/toolbox/core/file.py:21-76 | corrected constructor: fails exactly when the corrected admission refuses the path; on success the handle's target is the resolved path, and the corrected validator accepts it |
| Workspace.File.ReadContent | python/src/toolbox/core/file.py:97-101 | succeeds exactly when the target is a regular file and returns its content; no custom-roles check |
| Workspace.File.WriteContent | python/src/toolbox/core/file.py:103-112 | never creates a file. Not a regular file means `NotAFile`; a refusal by the custom-roles check is returned; once both pass, the result is `True` (content replaced) when the OS accepts the write and `False` (nothing changed) when it does not |
| Workspace.File.WriteThenRead | python/src/toolbox/core/file.py:97-112 | a write that returns `True` is read back as written; any other outcome (`False` or an error) leaves the old content readable, or `NotAFile` when there was no file |
| Workspace.File.Create | python/src/toolbox/core/file.py:114-119 | an existing file means `AlreadyExists`, then the custom-roles check runs; otherwise an empty file appears where nothing was, and an existing directory is left alone |
| Workspace.File.Rename | python/src/toolbox/core/file.py:121-128 | after the file and custom-roles checks, the result is `parent / new_name` (unvalidated) exactly when POSIX rename permits the move to where it resolves, and otherwise that rename error. On success the file is moved there and the handle's path becomes that path; on failure nothing changes |
| Workspace.File.Delete | python/src/toolbox/core/file.py:130-135 | after the file and custom-roles checks, exactly that file is removed and the handle's path becomes `Path("")`; on failure nothing changes |
| Workspace.File.GetName | python/src/toolbox/core/file.py:137-140 | the last segment of the path, and only for a regular file |
| Workspace.ListChildren | python/src/toolbox/core/file.py:196 | `iterdir()` lists every child of the directory exactly once, each with its kind |
| Workspace.Folder.Open | python/src/toolbox/core/file.py:146-171 | `Folder(path)` fails exactly when the folder validators refuse the path as supplied, with their error; on success the handle holds the resolved path |
| Workspace.Folder.GetItems | python/src/toolbox/core/file.py:192-197 | succeeds exactly on a directory and lists each child once, as `{is_file, path}` |
| Workspace.Folder.Create | python/src/toolbox/core/file.py:199-204 | an existing directory means `AlreadyExists`, then the custom-roles check runs, then `mkdir`; exactly that directory is added |
| Workspace.Folder.Rename | python/src/toolbox/core/file.py:206-213 | after the folder and custom-roles checks, the result is `parent / new_name` (unvalidated) exactly when POSIX rename permits the move, and otherwise that rename error. On success the folder and its contents are moved there and the handle's path becomes that path; on failure nothing changes |
| Workspace.Folder.Delete | python/src/toolbox/core/file.py:215-223 | a folder with any child fails with `NotEmpty` and nothing changes; an empty folder that passes both checks is removed unless it is `/` (busy). On success exactly that folder is removed and the path becomes `Path("")` |
| Workspace.Folder.GetName | python/src/toolbox/core/file.py:240-242 | the last segment of the path, with no check on the entry |
| Workspace.Folder.ForceDelete | python/src/toolbox/core/file.py:225-238 | on success the folder and everything below it are gone, nothing else changed, and the path is `Path("")`. On an error only entries below the folder have gone and the path is kept. It succeeds whenever the folder is not `/`, it passes the custom-roles check, and every entry below it passes the folder validators and the custom-roles check |
| Workspace.RemoveChildren | python/src/toolbox/core/file.py:229-236 | the loop handles the children in listing order. On success the folder has no children left. At the first error it stops: the children before the failing one are gone entirely, those after it are untouched, and nothing outside the folder changed. It succeeds whenever every child and everything below it pass the checks its handles make |
| Workspace.RemoveChild | python/src/toolbox/core/file.py:230-236 | a file child goes through a validated `File` handle's delete, a folder child through a validated `Folder` handle's force delete. On success its whole subtree is gone, on failure only entries inside it; it succeeds whenever its path passes the validators and it and everything below it pass the custom-roles check |
| Workspace.AnsibleRootFolder.Open | python/src/toolbox/core/file.py:248-258 | fails exactly when the path as supplied does not end in `ansible`; on success the handle holds the resolved path |
| Workspace.AnsibleRootFolder.GetItems | python/src/toolbox/core/file.py:260-286 | lists each regular file of the root and a fully expanded node for `inventory` and `roles`, each once; nothing else. A missing root or a file fails as `iterdir()` does |
| Workspace.AnsibleRootFolder.ItemsRecursive | python/src/toolbox/core/file.py:288-312 | the recursive listing mirrors everything below the folder, each child once with its kind |
| Workspace.MirrorsSound | python/src/toolbox/core/file.py:288-312 | every path the recursive listing shows exists below the folder |
| Workspace.MirrorsComplete | python/src/toolbox/core/file.py:288-312 | every entry below the folder appears in the recursive listing |
| Workspace.RootViewConfined | python/src/toolbox/core/file.py:271-286 | the root listing shows nothing outside the root's own files and its inventory and roles subtrees |
| Workspace.RootViewComplete | python/src/toolbox/core/file.py:271-286 | the root listing shows every file of the root and everything in its inventory and roles subtrees |
| AnsibleCommand.UserErrors | python/src/toolbox/core/ansible.py:84-91 | the empty user and the user `root` are refused, and every other user is accepted |
| AnsibleCommand.ValidationErrors | python/src/toolbox/core/ansible.py:70-105 | each validator error is reported exactly when its check fails, and none exactly when playbook, inventory and password are non-empty, the user is neither empty nor `root`, and verbosity is in 0..4 |
| AnsibleCommand.Repeat | python/src/toolbox/core/ansible.py:118 | `"-v" * n` is empty for `n <= 0` and made only of the repeated text |
| AnsibleCommand.RepeatCopies | python/src/toolbox/core/ansible.py:118 | `s * n` is `n` copies of `s` one after another: copy `i` sits at offset `len(s) * i` |
| AnsibleCommand.RepeatLength | python/src/toolbox/core/ansible.py:118 | `s * n` has `n` copies' worth of characters |
| AnsibleCommand.SplitJoin | python/src/toolbox/core/ansible.py:122 | the `",".join(tags)` value of `--tags` splits back into the tags whenever no tag holds a comma, so the join loses nothing |
| AnsibleCommand.GetCommand | python/src/toolbox/core/ansible.py:107-126 | the loop builds exactly the head, the tags and the extra-variable pairs |
| AnsibleCommand.ExtraVarArgsShape | python/src/toolbox/core/ansible.py:123-125 | each extra variable adds exactly `-e` and `key=value`, in order |
| AnsibleCommand.PlaybookCommandShape | python/src/toolbox/core/ansible.py:109-126 | the command starts with the nine fixed entries, has `--tags` and the joined tags exactly when there are tags, then the pairs; its length is 9 + (2 if tags) + 2 per extra variable |
| AnsibleCommand.QuietCommandKeepsEmptyFlag | python/src/toolbox/core/ansible.py:118 | at verbosity 0 the ninth entry is there, as `""` |
| AnsibleCommand.PingCommand | python/src/toolbox/core/ansible.py:128-143 | the ping command has 11 entries, starts with `ansible` and ends with `all -m ping` |
| AnsibleCommand.PingSharesConnection | python/src/toolbox/core/ansible.py:128-143 | the ping passes inventory, user, password and verbosity exactly as the playbook command does |
| AnsibleCommand.PingIgnoresRunOptions | python/src/toolbox/core/ansible.py:128-143 | the ping does not depend on playbook, tags or extra variables |
| TagScraper.Find | python/src/toolbox/helpers/read_tags.py:41 | a non-negative result is a position where the separator occurs |
| TagScraper.FindFirst | python/src/toolbox/helpers/read_tags.py:41 | no occurrence comes before the one found, and -1 means none at all |
| TagScraper.SecondField | python/src/toolbox/helpers/read_tags.py:41 | `split(keyword)[1]` never contains the keyword |
| TagScraper.SecondFieldBetween | python/src/toolbox/helpers/read_tags.py:41 | `split(keyword)[1]` is the text right after the first keyword, up to the second keyword or the end |
| TagScraper.StripTrims | python/src/toolbox/helpers/read_tags.py:41 | `strip()` removes only whitespace, at both ends, and leaves no whitespace at either end |
| TagScraper.StripTrimmed | python/src/toolbox/helpers/read_tags.py:41 | a title with no whitespace at either end is left alone |
| TagScraper.ContributionWhen | python/src/toolbox/helpers/read_tags.py:32-41 | a task counts exactly when it has a name containing the keyword (case-sensitive) and a list of tags. Its title is a piece of the name after the first keyword, holds no further keyword, and has no whitespace at either end; its tags are kept unvalidated |
| TagScraper.TitleFromName | python/src/toolbox/helpers/read_tags.py:41 | `name.split(keyword)[1].strip()` holds no keyword, has no whitespace at either end, and stands in the name after the first keyword |
| TagScraper.FilteredTaskIgnored | python/src/toolbox/helpers/read_tags.py:32-40 | a task without a name, without the keyword in its name, or with tags that are not a list changes nothing, wherever it stands in a role's tasks |
| TagScraper.TaskContributionsAppend | python/src/toolbox/helpers/read_tags.py:32-41 | the tasks of a role contribute one after another |
| TagScraper.ReadTagsHelper | python/src/toolbox/helpers/read_tags.py:18-60 | fails exactly when the roles directory is missing; otherwise returns the dictionary built by assigning every contribution of every read role, in order |
| TagScraper.Put | python/src/toolbox/helpers/read_tags.py:41 | a dictionary assignment adds at most one entry |
| TagScraper.PutLookup | python/src/toolbox/helpers/read_tags.py:41 | after `d[k] = v`, `k` maps to `v` and every other key keeps its value |
| TagScraper.PutDistinct | python/src/toolbox/helpers/read_tags.py:41 | an assignment never duplicates a key |
| TagScraper.PutAllLookup | python/src/toolbox/helpers/read_tags.py:41 | after a run of assignments, each key holds the value of its last assignment |
| TagScraper.ContributionsFrom | python/src/toolbox/helpers/read_tags.py:25-41 | a pair is contributed exactly when some read role has a task that yields it |
| TagScraper.ScrapedLastWins | python/src/toolbox/helpers/read_tags.py:41 | when two tasks yield the same title, the later one's tags are kept |
| TagScraper.ScrapedFromTasks | python/src/toolbox/helpers/read_tags.py:24-41 | every entry of the result comes from a task of a read role, and every title some task yields is in the result |
| TagScraper.ScrapedDistinct | python/src/toolbox/helpers/read_tags.py:19-41 | no title appears twice |
| TagScraper.ContributionsAppend | python/src/toolbox/helpers/read_tags.py:25-32 | the roles contribute one after another |
| TagScraper.UnreadRoleIgnored | python/src/toolbox/helpers/read_tags.py:26-29 | an entry that is not a directory with `tasks/main.yml` does not change the result, wherever it appears |
| TagScraper.InstallTitle | python/src/toolbox/helpers/read_tags.py:41 | a task named `Install <title>` is filed under `<title>` |
| TagScraper.UninstallNeverInstalls | python/src/toolbox/helpers/read_tags.py:35 | a task named `Uninstall ...` never counts in install mode |
| TagScraper.RestFind | python/src/toolbox/helpers/read_tags.py:35 | a keyword absent from a title is absent from the title with a leading space |
| SoftwareTags.MatchBody | python/src/toolbox/core/tags.py:38 | the text `^...+$` must cover is the whole string or the string minus one final newline |
| SoftwareTags.TagsProblem | python/src/toolbox/core/tags.py:37-47 | there is no problem exactly when every tag passes; otherwise the problem is that of the first failing tag |
| SoftwareTags.FirstProblem | python/src/toolbox/core/tags.py:31-52 | there is no problem exactly when every entry passes; otherwise the problem is that of the first failing entry in dictionary order |
| SoftwareTags.ValidateTags | python/src/toolbox/core/tags.py:28-53 | returns the mapping unchanged exactly when every entry passes, and otherwise the first failing entry's error |
| SoftwareTags.TagAccepted | python/src/toolbox/core/tags.py:37-47 | a tag passes exactly when, up to one final newline, it is made of lowercase ASCII letters, digits and underscores and holds a letter |
| SoftwareTags.NoLetterTagRejected | python/src/toolbox/core/tags.py:43-47 | a tag of digits and underscores only fails the case check |
| SoftwareTags.TrailingNewlineIgnored | python/src/toolbox/core/tags.py:38-42 | one trailing newline does not change the verdict on a tag |
| SoftwareTags.ValueCheckedBeforeTitle | python/src/toolbox/core/tags.py:31-52 | whatever the later entries hold, an entry whose value is not a list is reported as such, then a failing tag, and only then a bad title; an entry that passes leaves the verdict to the entries after it |
| SoftwareTags.AsEntries | python/src/toolbox/core/tags.py:18-21 | the mapping of a `Tags` object, seen by the validator, has the same titles with their tag lists, in order |
| SoftwareTags.Tags.constructor | python/src/toolbox/core/tags.py:23-26 | a new object holds the empty mapping |
| SoftwareTags.Tags.GetTags | python/src/toolbox/core/tags.py:55-57 | returns the current mapping |
| SoftwareTags.Tags.ReadTagsFromPlaybooks | python/src/toolbox/core/tags.py:72-91 | replaces the mapping wholesale with the scrape in install mode (`InstallationTags`) or uninstall mode (`UninstallationTags`); a missing roles directory raises and keeps the mapping |
| SoftwareTags.ScrapedTagsNotValidated | python/src/toolbox/core/tags.py:72-74 | a playbook task `Install Web` with the tag `Web` puts into the object a mapping that `validate_tags` refuses |
| SoftwareTags.WebRoleScraped | python/src/toolbox/helpers/read_tags.py:24-41 | that role scrapes to the single entry `Web: [Web]` |
| SoftwareTags.WebEntryRefused | python/src/toolbox/core/tags.py:43-47 | `validate_tags` refuses that entry because the tag is not lowercase |

## Left out

- `Ansible.run_command` (subprocess execution), `core/rsakey.py`, the terminal and SSH helpers, `main.py`, the HTTP routes under `api/`, the server and the React front end: they are I/O, cryptography or glue, not logic of this core.
- `verify_auth`, `extra_args` and `CustomFiles` are referenced by the routes and the tests but defined nowhere in the code modelled, so they are not part of this model.
- `Ansible.__init__`: it calls `super().__init__()` without data and then indexes `data`. It is replaced by the plain record `AnsibleCommand.Ansible` and `AnsibleCommand.ValidationErrors`, which collects the validators' verdicts (pydantic reports all failing fields together).
- `FileBase.__str__`, `__repr__`, `__eq__` and `get_nth_parent`: presentation and comparison helpers that no modelled operation uses.
- Symbolic links, permissions, timestamps and entry kinds other than regular files and directories. `resolve()` is purely lexical.
- OS failures other than those the modelled calls report (missing entry, wrong kind, not empty, busy root, a move into itself). I/O errors are not modelled. The one failure `write_content` catches is a parameter, `osAccepts`.
- `Workspace.File.Rename`, `Workspace.Folder.Rename` and every `Target()`: a kept path that still holds `..` (such as `nope/../b.yml` after a rename to that name) is resolved lexically. The OS walks `..` physically and fails (`FileNotFoundError`, `NotADirectoryError`) when a segment before it is missing or is a file; those failures are not modelled.
- `TagScraper.ReadTagsHelper`: the roles directory is the flag `rolesDirExists`. When the roles path is a regular file, `exists()` is true and `iterdir()` then raises `NotADirectoryError`; the flag cannot express this case.
- `Workspace.File.WriteContent`: the `except Exception` clause also catches I/O errors that are not modelled. The model reduces them to the `osAccepts` flag, so it does not say which writes fail.
- YAML parsing and its failure modes: an empty or malformed `main.yml`, a `main.yml` that is a directory, tasks that are not mappings, and names that are not strings (the source's `str(...)` conversion). Tasks arrive already parsed, with a string name and a tags field that is a list, absent or something else.
- The order of `iterdir()` is the file system's. The scraper takes it as the order of its input. The listings pick an arbitrary order and are specified for every order.
- `TagScraper.ReadTagsHelper`: the source duplicates the loop for the two modes. The model runs one loop parametrised by the keyword (`Install` or `Uninstall`), so the two branches at `read_tags.py:24-41` and `:42-59` are the same member.
- `SoftwareTags.Tags.ReadTagsFromPlaybooks`: the base class `Tags` has no such method. The model requires an installation or uninstallation object instead of modelling the `AttributeError`.
- `str.islower()` and `str.isspace()` outside ASCII: the tag pattern lets only ASCII letters, digits, `_` and one final newline reach `islower()`, so ASCII suffices there. `strip()` uses the full Python whitespace set.
- Tags that are not strings inside a tag list (where `re.match` raises `TypeError`) are not modelled: tag lists hold strings.

## Findings

| source | as written | input that shows it | evidently intended | confidence | as-written member | corrected member |
|---|---|---|---|---|---|---|
| python/src/toolbox/core/file.py:21-24 | the containment validators run on the path as supplied, and `resolve()` only runs after them | `File("/srv/ansible/inventory/../../etc/passwd")` is accepted, and its path becomes `/srv/etc/passwd` | resolve first, then validate the resolved path, so no accepted handle lies outside an ansible directory | high, not executed | PathPolicy.ValidationPrecedesResolution | PathPolicy.AdmitFile |
| python/src/toolbox/core/file.py:67-68 | `v.parent == "ansible"` compares a `Path` with a `str`, which is always false, so files directly in the ansible root are refused | `File("/srv/ansible/site.yml")` raises "not from the ansible root, ansible/inventory or ansible/roles folders" | a file directly in the ansible root is accepted, as the error message and the docstring say | high, not executed | PathPolicy.RootLevelFileRefused | PathPolicy.IntendedFileScope |
