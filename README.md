# Docker-workspace launcher extension, modelled in Dafny

The extension has three parts, and this project models each of them:

- **Directory search.** `find_matching_dirs` walks the user's home directory top-down. It drops hidden (`.`-prefixed) sub-directories before it tests or enters them. It collects every child directory whose lower-cased name contains the lower-cased query, and it returns as soon as five paths are held. An exception raised during the walk ends the search, and the paths collected so far are returned.
- **Keyword query.** The keyword-query handler turns the typed text into result rows:
  - a placeholder row when nothing has been typed;
  - otherwise a "create and use" row, followed by one "use" row per directory found.
- **Item enter.** The item-enter handler resolves the selected payload to a workspace path:
  - a `create` payload is joined onto home and the directory is made, and a failed `mkdir` stops the handler;
  - a `use` payload is taken as it is.
  
  The handler then substitutes the path for every `$WORKSPACE_BASE` in the command template and builds the `kitty -- bash -c "...; read -p ..."` argument vector.

## Modules

- `options.dfy`, module `Options`: the `Option` datatype.
- `text.dfy`, module `Text`:
  - `Lower`, an ASCII `str.lower()`;
  - `Contains`, Python's `in` on strings, with its characterisation by occurrence index;
  - `ReplaceAll`, `str.replace`: every leftmost, non-overlapping occurrence is replaced.
- `filetree.dfy`, module `FileTree`: the home directory as a finite tree.
  - `Dir = Listed(name, children) | Unlisted(name)`. `Unlisted` is an entry the walk lists but never enters: a directory whose listing fails, or a symbolic link, which `os.walk` does not follow.
  - Paths are component sequences; `Render` is `str(path)`.
  - `Reaches(d, rel)` holds when `rel` leads from `d` down to a descendant through entered, non-hidden directories.
- `matcher.dfy`, module `Matcher`: the walk, in two forms.
  - The specification: `Walk` gives the directories `os.walk` enters, in the order it enters them. `Matches` gives the paths the inner loop appends while processing them. `MatchingDirs` is the first `Limit` (5) of those matches, over the directories entered before the walk raises. `TreeMatches` is an independent recursive enumeration, and `WalkMatches` proves the two agree.
  - The method: `FindMatchingDirs` mirrors the source with an explicit work stack, the same one `os.walk` keeps: pop a directory, yield it, push its filtered children in reverse. It keeps a `matches` accumulator that is checked after each append, and it is proved equal to `MatchingDirs`.
  - The failure point of the walk is a parameter `abortAfter`. `Some(k)` means the walk raises when it is about to enter its (k+1)-th directory, and `None` means it runs to the end.
- `results.dfy`, module `Results`: result rows and payloads as datatypes, and the keyword-query handler.
- `launch.dfy`, module `Launch`: workspace resolution, placeholder substitution and the argument vector.
- `scenarios.dfy`, module `Scenarios`: worked examples.
  - A sample home with `projects/app1`, `projects/app2`, `.hidden/app3` and `work/App4`, searched for `app`.
  - A docker template.
  - Creating a new directory.

## Model

| member | source | states |
|---|---|---|
| Text.Lower | main.py:27 | the lower-cased string has the same length; each ASCII capital becomes its lower-case letter, every other character is kept, and no capital remains |
| Text.LowerIdempotent | main.py:27 | lower-casing an already lower-cased string changes nothing |
| Text.Contains | main.py:37 | `needle in hay` holds exactly when `needle` occurs in `hay` at some index |
| Text.ReplaceAbsent | main.py:108 | `Text.ReplaceAll` (`str.replace`) leaves a template without the placeholder unchanged |
| Text.ReplaceLeftmost | main.py:108 | in `Text.ReplaceAll` the leftmost occurrence is replaced, and the rest of the string is processed after the occurrence, so occurrences never overlap |
| FileTree.HiddenStartsWith | main.py:34 | a name is hidden exactly when it starts with `.` |
| FileTree.Visible | main.py:34 | the kept children are exactly the listed children whose names do not start with `.` |
| FileTree.VisibleAppend | main.py:34 | filtering a concatenation filters each part and keeps them in order |
| FileTree.VisibleOne | main.py:34 | a single child is dropped when its name is hidden and kept otherwise, so order and multiplicity are preserved |
| FileTree.VisibleKeepsAll | main.py:34 | a listing without hidden names is kept whole and in order |
| FileTree.VisibleDistinct | main.py:34 | filtering keeps sibling names distinct |
| FileTree.Render | main.py:82 | `str(path)` is absolute: it is non-empty and starts with `/` |
| FileTree.RenderJoin | main.py:38 | `str(root / name)` is the rendering of `root` followed by `/name`, also when `root` is `/` |
| FileTree.ReachesNotHidden | main.py:33-34 | no component of a path reached by the walk is hidden |
| Matcher.IsMatchIgnoresCase | main.py:37 | testing a name against the lower-cased query gives the same answer whether or not the name is lower-cased first |
| Matcher.Take | main.py:41-43 | the capped result is a prefix of the match sequence, of length at most the cap, exactly the cap when that many matches exist, and all of the sequence when it is shorter than the cap |
| Matcher.Entered | main.py:30-47 | the directories entered before the walk raises are a prefix of the full walk: all of it without an exception, otherwise as many as were entered before the failure point |
| Matcher.MatchingDirs | main.py:24-47 | the returned sequence never holds more than 5 paths |
| Matcher.MatchesAppend | main.py:31-39 | the matches of two consecutive stretches of the walk are the matches of the first stretch followed by those of the second |
| Matcher.WalkMatches | main.py:31-39 | the matches collected in `os.walk` order are exactly those of a direct pre-order recursion over the tree that skips hidden children |
| Matcher.DirMatchesIff | main.py:36-39 | a path is appended for a directory exactly when it is `root / n` for a kept child name `n` that contains the query |
| Matcher.TreeMatchesIff | main.py:31-39 | a path is found below a directory exactly when it extends that directory's path by a reachable, non-hidden route whose last name contains the query |
| Matcher.ForestMatchesIff | main.py:31-39 | the same characterisation for the walks of a list of sibling directories |
| Matcher.AllMatchesIff | main.py:31-39 | with neither cap nor exception, a path is a match exactly when it lies strictly below home, is reachable without passing through a hidden directory, and its last name contains the query ignoring case |
| Matcher.TreeMatchesDistinct | main.py:31-39 | in a tree whose sibling names are distinct, the walk finds no path twice |
| Matcher.MatchingDirsPrefix | main.py:41-47 | the result, capped or cut short by an exception, is a prefix of the full match sequence in walk order |
| Matcher.MatchingDirsSound | main.py:33-39 | every returned path lies strictly below home (home itself is never returned), is reached through entered directories only, has no hidden component below home, and its name contains the query ignoring case |
| Matcher.MatchingDirsDistinct | main.py:31-43 | in a well-formed tree no returned path appears twice |
| Matcher.MatchingDirsComplete | main.py:41-43 | with no exception, 5 matches in the tree give exactly 5 results; fewer than 5 results contain every matching directory |
| Matcher.EmptyQueryMatchesAll | main.py:36-37 | the empty query matches every reachable non-hidden directory below home |
| Matcher.PushChildrenWalk | main.py:31 | pushing the kept children in reverse gives the walk of the children in listing order after the rest of the stack |
| Matcher.ScanChildren | main.py:36-43 | the inner loop appends the matching children in order and reports the early return exactly when 5 paths then exist; the result is the first 5 of the appended sequence |
| Matcher.EnterDirectory | main.py:34-43 | one yielded directory: its kept children are examined in order, the early return is reported exactly when 5 paths then exist, the result is the first 5 of the appended sequence, and otherwise the kept children are pushed for the walk to enter |
| Matcher.FindMatchingDirs | main.py:24-47 | the stack-driven walk with its accumulator, early return at 5 and return-on-exception produces exactly `MatchingDirs` |
| Results.QueryText | main.py:51 | the text is empty exactly when the argument is missing or empty, and otherwise it is the argument itself |
| Results.CreateItem | main.py:68-76 | the create row is named `Create and use: ` followed by the query, and its payload is `create` with the query as path |
| Results.UseItem | main.py:79-88 | a found row is named by the rendered path, and its payload is `use` with that same rendered path |
| Results.OnKeywordQuery | main.py:50-90 | an empty or missing query gives only the placeholder row; otherwise the create row for the query comes first, then one use row per path found, in matcher order; between 1 and 6 rows |
| Launch.TerminalArgv | main.py:112 | the argument vector is `kitty -- bash -c` followed by the command and the "Press Enter to close" prompt |
| Launch.Workspace | main.py:94-104 | `use` keeps the payload path; `create` yields home joined with the path when `mkdir` succeeds, and nothing when it fails |
| Launch.OnItemEnter | main.py:93-116 | nothing is launched exactly when a `create` fails to make its directory; otherwise the five-element kitty argument vector is built |
| Launch.TemplateWithoutToken | main.py:107-112 | a template without the placeholder is launched exactly as written |
| Launch.FoundItemLaunch | main.py:79-112 | selecting the row of a found directory launches the template with that directory's rendered path substituted; the path lies below home, in no hidden directory, and its name matches |
| Launch.CreateItemLaunch | main.py:68-112 | selecting the create row launches the template with `home / query` substituted when `mkdir` succeeds, and launches nothing when it fails |
| Scenarios.AppQuery | main.py:24-47 | searching the sample home for `app` returns `projects/app1`, `projects/app2` and `work/App4` in that order; `.hidden/app3` is never returned |
| Scenarios.DockerReplaced | main.py:108 | the placeholder in a docker template is replaced by the selected path and the rest is kept |
| Scenarios.DockerTemplate | main.py:107-112 | the full argument vector for that template and path |
| Scenarios.CreateNewProject | main.py:100-104 | creating `newproj` under `/home/u` gives the workspace `/home/u/newproj` when `mkdir` succeeds, and none when it fails |

## Left out

- The host API is not modelled: `Extension`, `subscribe`, the listener classes, `ExtensionResultItem`, the action classes, the icon and `run()`. Result rows and actions are plain datatypes instead.
- The real filesystem is not modelled. `Path.home()` and the tree below it are parameters.
- `os.walk`'s directory listing is not modelled. An entry whose listing fails, and a symbolic link to a directory that the walk does not follow, are both `Unlisted` children: they are listed and can match, but they are never entered.
- Which exception is raised, and where in the walk, is not modelled. It is the parameter `abortAfter`, and the logging in the handler is left out.
- The ordering within a directory listing is taken as given: it is the order of the `children` sequence.
- `mkdir(parents=True, exist_ok=True)` is a boolean outcome `mkdirOk`, and the directories it would create are not modelled.
- `subprocess.Popen` and the terminal it starts are not modelled, and neither is the logging of a launch failure. Only the argument vector is produced: a launch failure changes nothing the handler returns.
- Every logging call is left out. Logging has no effect on results.
- Text.Lower: folds ASCII letters only. Unicode `str.lower()` also folds other letters and can change the string's length.
- Launch.Workspace: the join is modelled for a relative, single-component payload path. pathlib's other rules are not modelled: a right operand that is absolute discards home, and a right operand with several components or `..` is split and normalised.
- The `Path(...)` normalisation of a `use` payload path is not modelled: the string is taken as it is.
- The preferences lookup of the command template is not modelled. The template is a parameter.
- Text.ReplaceAll: carries no `ensures` of its own; it is characterised by `ReplaceAbsent` and `ReplaceLeftmost`, which together fix its result on every input. It requires a non-empty pattern. `str.replace` with an empty pattern behaves differently, but the source always passes the fixed, non-empty placeholder.
- An `action` value other than `create` is treated as a `use` (`Action = Create | Use`). The source takes that same path for every value other than `create`.
- Idempotence of the search needs no lemma. `MatchingDirs` is a function of the tree, the query and the failure point.
- The order of results is fixed to the order the source's top-down `os.walk` produces: a directory, then each kept child in listing order, each one's own sub-tree walked before the next sibling.
- The query handler never calls the matcher for an empty query: `OnKeywordQuery` shows only the placeholder. `EmptyQueryMatchesAll` states what the matcher itself would return for that query.
