# Shell emulator and requirement normaliser, modelled in Dafny

This project models two Python modules.

- **`emulator.py`** is a small UNIX-like shell over a zip archive. The
  archive is a flat list of entry names such as `home/user/a.txt`. Directories
  exist only as shared prefixes of those names.
  - `get_files` computes the *view* of the current directory: its hierarchy
    level, the longest name, and the set of names one level below it.
  - `ls` prints that set in sorted cells.
  - `get_path` walks a relative path one segment at a time, all or nothing.
  - `cd` understands `..`, `~/`, `/`, `.` and relative arguments.
  - `cat` decides, through `cd`, whether each argument names an entry.
  - `shell` dispatches a command line and threads the current path through a
    session.
- **`package_dependencies.py`**: `erase_version` reduces each PyPI requirement
  string to a lower-case package name.

The model works on `string` (`seq<char>`). The archive is the sequence of its
entry names. Everything the shell writes is returned as data.

Modules:

- `PyStr`: the Python `str` operations used, with their Python edge cases.
  - `"".split("/") == [""]`.
  - `in` is a substring test.
  - `find` returns -1 when the character is missing.
  - `" " * n` is empty for negative `n`.
  - Strings are ordered code point by code point.
- `Archive`: `get_files`, and the `Option` type the model uses.
- `Listing`: `ls`.
- `Navigation`: `get_path` and `cd`.
- `Shell`: `cat`, `pwd`, `shell` and a session of command lines.
- `Requirements`: `erase_version`.

The source computes `per_line = 80 / (length + 4)` as a float. It is only ever
compared with an integer count, as `c >= per_line`. For a positive width `w`,
`c >= 80 / w` holds exactly when `c * w >= 80`. The model uses that integer
test (`LineFull`) and `PerLine = ceil(80 / w)`.

Each operation is connected to an independent description of its result.

- **`get_files`**: the set of names is characterised by a quantified
  membership condition (`ViewEntities`).
- **`ls`**: the output equals a row-by-row reference layout (`Rows`) for any
  strictly sorted sequence of the view's names (`LsIsRows`). Such a sequence
  is unique (`SortedUnique`).
- **`get_path`**: the result is characterised by a quantified reachability
  predicate (`Reachable`).
- **`cd`**: there is one lemma per kind of argument. A round trip into a
  listed directory and back (`CdIntoAndBack`) is proved.
- **`erase_version`**: the version specifier after the first operator
  character is ignored, what a normalised name can no longer contain, when
  normalising changes only the case, and when a second pass changes nothing.

Behaviour of the code that its own comments and docstrings do not suggest,
which the model keeps:

- A failed walk returns the path it started from (the `get_path` docstring,
  emulator.py:54-55). For `cd /p` and `cd ~/p` that path is root (`''` at
  emulator.py:82), so a failed absolute `cd` from a subdirectory lands at
  root (`Navigation.CdAbsolute`).
- `cat` takes "the path changed" to mean "found" (the comment at
  emulator.py:98, "the filepath wasn't set to default"). For `/p` the
  default is `''`, not the current path, so `cat /missing` from a
  subdirectory goes on to open the entry named by the empty string
  (`Shell.CatAbsoluteMissing`).
- A directory name reaches a new path through `cd`, so `cat` counts it as
  found (`Shell.CatListedName`).
- One leading `.` of a relative argument is dropped before the walk, so a
  name starting with a dot cannot be reached by its bare name: `cd .env` and
  `cat .env` look up `env` (`Navigation.CdFromHere`).
- When the longest name is 3 characters long the cells are 7 wide. `c >= 80 / 7`
  first holds at `c = 12`, so a full line has 12 cells, not ⌊80/7⌋ = 11
  (`Listing.PerLine`: 11 * 7 = 77 < 80 <= 84 = 12 * 7).

## Model

| member | source | states |
|---|---|---|
| PyStr.Strip | emulator.py:16 | `s.strip(cs)`: the result is a contiguous slice of `s`; every character removed before and after it is in `cs`; its ends are not |
| PyStr.Split | emulator.py:23 | `s.split(sep)`: one more piece than there are separators, no piece holds the separator, and joining the pieces gives `s` back |
| PyStr.SplitJoin | emulator.py:76-77 | splitting a separator-join of separator-free pieces gives the same pieces back |
| PyStr.Find | package_dependencies.py:24 | `s.find(c)` is -1 exactly when `c` is absent; otherwise `s` holds `c` at that index, which is its first occurrence |
| PyStr.Remove | package_dependencies.py:23 | `s.replace(c, "")` keeps every other character and drops exactly the occurrences of `c` |
| PyStr.RemoveAppend | package_dependencies.py:23 | `replace(c, "")` works piece by piece: on a concatenation it is the concatenation of the results, so order and repeats of the other characters are kept |
| PyStr.RemoveOne | package_dependencies.py:23 | on a single character, `replace(c, "")` gives the empty string when it is `c` and the character itself otherwise |
| PyStr.RemoveAbsent | package_dependencies.py:23 | replacing a character that does not occur leaves the string unchanged |
| PyStr.Lower | package_dependencies.py:31 | `lower()` keeps the length and maps each character through ASCII lower-casing |
| PyStr.LessTransitive | emulator.py:44 | the order `sorted` uses on strings is transitive |
| PyStr.LessTotal | emulator.py:44 | of two different strings, one sorts before the other |
| PyStr.LessIrreflexive | emulator.py:44 | no string sorts before itself |
| Archive.Segments | emulator.py:23 | an entry name, stripped of slashes and split, has at least one segment, and no segment holds a slash |
| Archive.Level | emulator.py:16-18 | the hierarchy level is 0 exactly when the stripped current path is empty; otherwise it is the number of slashes in the stripped path plus one |
| Archive.Scan | emulator.py:20-30 | the loop's set holds exactly the names the entries contribute; the running maximum starts at 1, bounds every name, and is 1 or the length of some name |
| Archive.GetFiles | emulator.py:8-36 | the view's level is the current path's level; `length` is at least 1, bounds every name, and is attained by some name unless it is 1 |
| Archive.ViewEntities | emulator.py:20-30 | a name is in the view exactly when some entry contains the stripped current path as a substring and has that name as its segment at the current level; entries with too few segments are skipped |
| Archive.EntitiesHaveNoSlash | emulator.py:23 | no name in a view contains a slash |
| Archive.RootEntities | emulator.py:16-25 | at root the view is exactly the set of first segments of all entries |
| Archive.LevelCanonical | emulator.py:16-18 | a path of the shape `cd` builds (`/a/b`) has as many levels as segments and splits back into those segments |
| Listing.Insert | emulator.py:44 | inserting into a strictly sorted sequence keeps it strictly sorted and adds exactly the new name |
| Listing.SortedNames | emulator.py:44 | the collected names are strictly sorted and hold exactly the names contributed |
| Listing.SortedEntities | emulator.py:44 | `sorted(entities)`: strictly sorted, with exactly the view's names |
| Listing.SortedUnique | emulator.py:44 | two strictly sorted sequences with the same names are equal, so the listing order is fixed by the set |
| Listing.Spaces | emulator.py:46 | `" " * n` is `n` spaces, and empty for `n <= 0` |
| Listing.Cell | emulator.py:46 | a cell starts with the name, is padded only with spaces, and is exactly `length + 4` wide when the name fits |
| Listing.CellsFit | emulator.py:46 | every name of the view fills a cell of exactly `length + 4` characters |
| Listing.PerLine | emulator.py:32 | the cells per line is the least count `c` with `c * (length + 4) >= 80`, and is at least 1 |
| Listing.LineFullIff | emulator.py:47 | the test `c >= per_line` holds exactly when `c` is at least `PerLine` |
| Listing.Layout | emulator.py:43-50 | the loop's output always ends with a line break |
| Listing.LayoutRows | emulator.py:43-50 | the loop, started `c` cells into a line, lays the names out in full lines of `PerLine` cells, each followed by a line break, then the rest and a final line break |
| Listing.LastCellOfLine | emulator.py:45-49 | the cell that makes the count reach `per_line` is followed by a line break, and the count starts again from 0 |
| Listing.NextCellOfLine | emulator.py:45-47 | a cell that leaves the count below `per_line` is followed directly by the rest of its line |
| Listing.LayoutFromStart | emulator.py:43-50 | the loop, started on an empty line, produces exactly the reference layout `Rows` |
| Listing.Ls | emulator.py:39-50 | the output of `ls` ends with a line break |
| Listing.LsIsRows | emulator.py:39-50 | `ls` writes the view's names in sorted order, `PerLine` cells to a line, as the reference layout `Rows` does |
| Listing.LsEmpty | emulator.py:44-50 | an empty directory lists as a single line break |
| Navigation.Descend | emulator.py:58-60 | the path built by appending `"/" + segment` extends the starting path |
| Navigation.ReachableStep | emulator.py:58-64 | a path is reachable exactly when its first segment is in the current view and the rest is reachable from the view one level down |
| Navigation.Walk | emulator.py:57-66 | the loop reaches the path with every segment appended exactly when each segment is in the view at its step, and otherwise breaks |
| Navigation.GetPath | emulator.py:53-66 | `get_path` is all or nothing: the current path with all segments appended when every one is found, else the current path unchanged |
| Navigation.GetPathFirstMissing | emulator.py:58-64 | a path whose first segment is not in the view leaves the current path unchanged |
| Navigation.GetPathEmpty | emulator.py:58-59 | the empty path is the one segment `""`; without an empty name in the view it goes nowhere |
| Navigation.GetPathOne | emulator.py:58-61 | a single listed name without slashes is one step down |
| Navigation.CdRelative | emulator.py:84-90 | `cd` with a relative argument descends through every segment or leaves the path unchanged |
| Navigation.CdFromHere | emulator.py:84-90 | an argument that starts with none of `..`, `~/` and `/` is resolved from the current path, after one leading `.` and then one `/` are dropped |
| Navigation.CdAbsolute | emulator.py:79-82 | `cd /p` and `cd ~/p` agree wherever they start, and resolve `p` from root with root as the fallback |
| Navigation.CdHere | emulator.py:84-90 | `cd`, `cd .` and `cd ./` stay put when the view has no empty name |
| Navigation.CdEmpty | emulator.py:84-90 | `cd ""` stays put when the view has no empty name |
| Navigation.CdDot | emulator.py:85-90 | `cd .` stays put when the view has no empty name |
| Navigation.CdDotSlash | emulator.py:85-90 | `cd ./` stays put when the view has no empty name |
| Navigation.ParentCanonical | emulator.py:76-77 | the parent of `/a/.../b` is `/a/...`, and the parent of root is root |
| Navigation.CdParent | emulator.py:72-77 | `cd ..rest` moves to the parent and resolves `rest`, less one leading slash, from there, all or nothing, when that remainder is itself relative (it does not start with `..`, `~/` or `/`) |
| Navigation.CdDotDot | emulator.py:72-77 | `cd ..rest`, for any `rest`, is `cd` from the parent with `rest` less one leading slash |
| Navigation.CdUpThen | emulator.py:72-77 | `cd ../rest` from a canonical path is `cd rest` from its parent |
| Navigation.CdUps | emulator.py:72-77 | `cd ../..` and so on, `m` times, from a canonical path `/s1/.../sn` lands at the path of its first `n - m` segments, or at root when `m >= n`, when the view there has no empty name |
| Navigation.CdUp | emulator.py:72-77 | a bare `cd ..` resolves the empty remainder from the parent |
| Navigation.CanonicalSnoc | emulator.py:60 | appending `"/" + n` to a canonical path gives the canonical path with one more segment |
| Navigation.CdOneStep | emulator.py:84-90 | `cd n`, for a listed non-empty name `n` not starting with a dot, appends `/n` to the current path |
| Navigation.CdInto | emulator.py:84-90 | from a canonical path, `cd` into such a name gives a canonical path one segment deeper |
| Navigation.CdIntoAndBack | emulator.py:69-90 | `cd n` followed by `cd ..` returns to the canonical starting path, when the view there has no empty name |
| Shell.CatAll | emulator.py:96-106 | the loop over the arguments decides one outcome per argument |
| Shell.CatAllAt | emulator.py:96-106 | the outcome of argument `i` is decided on its own from the same current path: "not found" exactly when `cd` to it leaves the current path unchanged; otherwise the entry opened is the reached path stripped of slashes |
| Shell.CatUnmoved | emulator.py:96-106 | `cat name` reports "not found" exactly when `cd name` stays at the current path |
| Shell.Cat | emulator.py:93-98 | `cat` ignores the command word: one outcome per remaining argument |
| Shell.CatMissing | emulator.py:96-106 | a relative name that `cd` cannot reach is reported as not found |
| Shell.CatListedName | emulator.py:96-99 | a listed name that is not empty and does not start with a dot, a directory as much as a file, counts as found and opens the entry at `cwd/name` |
| Shell.CatText | emulator.py:98-106 | when nothing is found, the text is as long as one "File not found." line per argument |
| Shell.CatTextAppend | emulator.py:96-106 | the text for a list of outcomes is the text for each outcome, in order |
| Shell.CatTextMissing | emulator.py:105-106 | a name not found writes exactly the "File not found." line |
| Shell.CatTextOpened | emulator.py:99-104 | a found entry writes its decoded contents followed by one line break |
| Shell.CatAbsoluteMissing | emulator.py:79-99 | `cat /p` from below root, with `p` unreachable, opens the entry named by the empty string instead of reporting not found |
| Shell.ArchiveStem | emulator.py:146 | the archive's stem contains neither a slash nor a dot |
| Shell.ArchiveStemOf | emulator.py:146 | the stem starts the last slash-separated piece of the archive's name and runs up to that piece's first dot, or to its end when it has none |
| Shell.Pwd | emulator.py:146 | `pwd` starts with the archive's stem, a slash and the user name, ends with the current path and a line break, and holds nothing else in between |
| Shell.Shell | emulator.py:142-154 | only `cd` changes the current path; `cd` without an argument means `cd .`; an unknown command produces no output |
| Shell.RunWithoutCd | emulator.py:136-138 | a session without a `cd` command ends at the path it started from |
| Shell.ShellBareCd | emulator.py:149-150 | a bare `cd` keeps the current path when the view has no empty name |
| Requirements.Unbracket | package_dependencies.py:23 | the four `replace` calls keep exactly the non-bracket characters, and the result holds no bracket |
| Requirements.UnbracketAppend | package_dependencies.py:23 | the four `replace` calls work piece by piece: on a concatenation they give the concatenation of the results |
| Requirements.UnbracketOne | package_dependencies.py:23 | on a single character the four `replace` calls give the empty string for a bracket and the character itself otherwise |
| Requirements.UnbracketClean | package_dependencies.py:23 | a string without brackets is unchanged by the four `replace` calls |
| Requirements.IndexOr | package_dependencies.py:24-29 | each list entry is the first position of its character, or the length of the string when the character is absent |
| Requirements.FirstOf | package_dependencies.py:24-31 | `min(indexes)` never exceeds the length of the string |
| Requirements.FirstOfFirst | package_dependencies.py:24-31 | `min(indexes)` is the first position holding one of the characters, or the length of the string when there is none |
| Requirements.Cut | package_dependencies.py:24-31 | the cut lies within the string, so the slice `dependency[:min(indexes)]` is a prefix |
| Requirements.CutFirst | package_dependencies.py:24-31 | the name is cut at the first of `>`, `<`, `;`, `!`, `=`, `~`: none occurs before the cut, and one occurs at it unless the cut is the end |
| Requirements.NormalizeShape | package_dependencies.py:23-31 | a normalised name has no bracket, operator character or upper-case letter, and no double quote at either end |
| Requirements.NormalizeCut | package_dependencies.py:23-31 | everything from the first operator character on is ignored: `a + op + b`, with `a` free of `>`, `<`, `;`, `!`, `=`, `~` and `op` one of them, normalises as `a` alone |
| Requirements.NormalizeClean | package_dependencies.py:23-31 | a requirement with no operator character and nothing to strip at its ends normalises to its bracket-free form, lower-cased |
| Requirements.NormalizeFixed | package_dependencies.py:23-31 | a name with no bracket, operator character or upper-case letter, and no whitespace or double quote at its ends, is its own normal form |
| Requirements.NormalizeIdempotent | package_dependencies.py:23-31 | normalising a normalised name changes nothing, provided the name has no whitespace at its ends |
| Requirements.NameEach | package_dependencies.py:21-32 | the loop appends one result per requirement, in order, each the step applied to that requirement |
| Requirements.EraseVersion | package_dependencies.py:20-32 | one name per requirement, in order, each the normalised form of its requirement |

## Left out

- `get_filesystem`, and the reading of entry bytes in `cat`, are left out because they are I/O. Opening, reading and decoding an entry is the parameter `read` of `Shell.CatText`. An argument that names a directory is found and passed to `zipfile.open`, and what that call then does is not modelled.
- `execute_console`, `execute_script` and `main` are left out because they do console, file and argument I/O. `Shell.Run` models only how they feed split command lines to `shell` and thread the current path.
- `getuser()` and `gethostname()` are left out because they query the operating system. The user name is a parameter of `Shell.Pwd`. The host name appears only in prompts, which are not modelled.
- `get_dependencies`, `make_graph`, and the module's breadth-first `__main__` loop with its thread are left out. They are network access (PyPI over HTTP), graph rendering and concurrency.
- `per_line` is a float in the source, and the model does not represent it as one. It appears only in `c >= per_line`, which `Listing.LineFull` decides exactly over the integers.
- `str.lower()` and the argument-free `str.strip()` are modelled on ASCII only. Python also lowers non-ASCII letters and strips non-ASCII whitespace.
- `Navigation.Cd` has no contract of its own. Its behaviour is stated by the `Cd*` lemmas, one per kind of argument.
- `Navigation.CdIntoAndBack` requires a non-empty name that does not start with a dot. It also requires a view without an empty name. Otherwise `cd` reads the name as `..`, `.` or `./`, and the empty remainder after `..` resolves to the empty name.
- `Shell.Shell` requires at least one word. The drivers build the word list with `split(' ')`, which never returns an empty list.
- `Shell.CatText` states in its own contract only the length of the text when no argument is found. The text itself is `Shell.CatTextAppend` with `Shell.CatTextMissing` and `Shell.CatTextOpened`.
- `Shell.CatAll` and `Shell.Cat` state only the number of outcomes in their own contracts. What each outcome is follows from `Shell.CatAllAt`.
- `Requirements.FirstOf` and `Requirements.Cut` state only that the cut lies within the string. Where it falls is `Requirements.FirstOfFirst` and `Requirements.CutFirst`.
- `Requirements.Normalize` has no contract of its own. What it produces is stated by `Requirements.NormalizeCut` (everything from the first operator character on is ignored), `Requirements.NormalizeClean` (what is left before it is stripped and lowered), `Requirements.NormalizeShape` and `Requirements.NormalizeFixed`.
- `Listing.Layout` and `Listing.Ls` state only the final line break in their own contracts. Their full layout is `Listing.LayoutRows` and `Listing.LsIsRows`.
- `Requirements.NormalizeIdempotent` requires the normalised name to have no whitespace at either end. A quoted name with blanks inside the quotes, `'" a"'`, first normalises to `' a'` and then to `'a'`.
- The model follows the code for `cat` on a directory. The code resolves the argument with `cd`, so a directory name counts as found rather than "File not found." (`Shell.CatListedName`).
- `Navigation.CdParent` requires the remainder after `..` and one slash to be relative. Chains of `..` are `Navigation.CdUps`. A remainder that starts with another slash, as in `cd ..//x`, is resolved from root and is not stated.
- `Shell.CatListedName` requires a name that is not empty and does not start with a dot. The code drops one leading dot, so `cat .env` looks up `env`, and an empty name is read as `cd ""`.
