# Teams assignment downloader: a verified model of the collector

`TeamsAssignmentDownloader.py` copies students' submissions from a synced
Microsoft Teams "Turned in" folder into one flat output folder. Each copy is
renamed after its student and keeps its extension. This project models the core of that
script in Dafny and proves what it promises:

- `sanitize_filename` turns a folder name into a safe file name:
  - Windows-invalid characters and underscores become spaces;
  - the double-space loop collapses runs of spaces;
  - `strip()` and `rstrip(".")` trim the ends;
  - an empty result becomes `"unnamed"`.
- `choose_unique_filename` returns the first of `base.ext`, `base (2).ext`,
  `base (3).ext`, ... that is not already in the output folder.
- Inside `copy_from_local_folder`:
  - the base name joins prefix, student name and suffix;
  - the extension comes from `os.path.splitext`;
  - the `.docx` test decides whether the header stamper is called.
- `copy_from_local_folder` walks every student folder, or the selected
  assignment subfolder within it. Every file found is copied under a fresh
  name, and the counts are returned.
- `collect_assignment_subfolders` gathers the names of the subfolders one
  level inside the student folders. It returns them sorted.

The file system is a value:

- The source folder is a tree of `SourceTree.Node`s. Each directory carries its
  listing in listing order, and a flag saying whether it can be listed.
- The output folder is the set of names it holds. A copy adds its
  destination name to the set.
- `Collector.CopyFromLocalFolder` also returns the sequence of copies it
  made (`Collector.CopyOp`); `copy_from_local_folder` itself returns only
  the two counts. Each copy records:
  - the source file name;
  - the destination name;
  - the label passed to the header stamper, or `None` when the stamper was
    not called.

What a correct run is:

- `Collector.Jobs` lists, student folder by student folder, the files to
  copy. Each file comes with the base name it is copied under.
- `Collector.ValidRun` says the copies follow the jobs one to one. Each copy
  gets the least free candidate name in the folder as the earlier copies
  left it. Each copy is stamped exactly when stamping is on and its
  extension is `.docx` in any letter case.

`sanitize_filename` is not idempotent, and its result can end in a space:
`strip()` runs before `rstrip(".")`, so `"a ."` sanitizes to `"a "`, and
`"a "` sanitizes again to `"a"`. `Sanitize.SanitizedNotIdempotent` proves
this for every name in sanitized form. `Sanitize.SanitizedFixpoints`
characterises exactly the names the sanitizer leaves unchanged.

Files:

| file | module | contents |
|---|---|---|
| wrappers.dfy | Wrappers | `Option`, `Result` |
| text.dfy | Text | `str.replace`, `strip`/`rstrip`, `str.isspace`, decimal printing, Python's order on `str` |
| paths.dfy | Paths | the extension part of `os.path.splitext`, the `.docx` test |
| sanitize.dfy | Sanitize | `sanitize_filename` as a specification function and with the script's own loop |
| unique_name.dfy | UniqueName | `choose_unique_filename` |
| source_tree.dfy | SourceTree | the source folder, `os.walk`, `os.path.isdir` of a child |
| collector.dfy | Collector | base names, jobs, `copy_from_local_folder` |
| discovery.dfy | Discovery | `collect_assignment_subfolders`, `sorted` |

## Model

| member | source | states |
|---|---|---|
| Text.Replace | TeamsAssignmentDownloader.py:28 | `str.replace` scanning left to right without overlaps: every character of the result comes from the input or the replacement, and a replacement no longer than the pattern never lengthens the string |
| Text.ReplaceChar | TeamsAssignmentDownloader.py:28 | replacing `"_"` by `" "` changes exactly the underscores, position by position |
| Text.IsWhitespace | TeamsAssignmentDownloader.py:32 | the characters `str.isspace` accepts, which `strip()` without arguments removes: the ASCII controls 9-13 and 28-31, the space, and the Unicode space, line and paragraph separators |
| Text.LStrip | TeamsAssignmentDownloader.py:32 | `lstrip` keeps a suffix of the string, every dropped character is one it drops, and the result does not start with one |
| Text.RStrip | TeamsAssignmentDownloader.py:32 | `rstrip` (for whitespace, or for `"."`) keeps a prefix of the string, every dropped character is one it drops, and the result does not end with one |
| Text.Strip | TeamsAssignmentDownloader.py:127-128 | `strip()` is `lstrip` followed by `rstrip` of whitespace |
| Text.StripSpec | TeamsAssignmentDownloader.py:127-128 | `s.strip()` is empty exactly when every character of `s` is whitespace, which is when `prefix.strip()` is falsy; otherwise it neither starts nor ends with whitespace |
| Text.NatToDecimal | TeamsAssignmentDownloader.py:43 | `f"{i}"` is a non-empty string of decimal digits |
| Text.NatToDecimalValue | TeamsAssignmentDownloader.py:43 | `f"{i}"` reads back as `i` under an independent left-to-right decimal reader, so its digits are those of `i`, most significant first |
| Text.NatToDecimalNoLeadingZero | TeamsAssignmentDownloader.py:43 | `f"{i}"` has no leading zero unless `i` is 0 |
| Text.NatToDecimalInjective | TeamsAssignmentDownloader.py:43 | different numbers print differently |
| Sanitize.ReplaceInvalid | TeamsAssignmentDownloader.py:25-26 | the `join` over `name` keeps its length, turns each Windows-invalid character into a space and keeps every other character in place, so no invalid character is left |
| Text.ReplaceShortens | TeamsAssignmentDownloader.py:30-31 | when `"  "` occurs, `replace("  ", " ")` makes the string strictly shorter, so the loop ends |
| Sanitize.Sanitized | TeamsAssignmentDownloader.py:24-33 | the sanitized name is never empty, holds no Windows-invalid character, no underscore and no double space, does not start with whitespace and does not end with a dot |
| Sanitize.SanitizeFilename | TeamsAssignmentDownloader.py:24-33 | the loop as written, `while "  " in s: s = s.replace("  ", " ")` included, computes `Sanitized` |
| Sanitize.SqueezeReplace | TeamsAssignmentDownloader.py:30-31 | one round of `replace("  ", " ")` does not change the fully collapsed form, which is what the loop converges to |
| Sanitize.DoubleSpaceOccurs | TeamsAssignmentDownloader.py:30 | the loop test `"  " in s` holds exactly when the string has two adjacent spaces |
| Sanitize.SanitizedFixpoints | TeamsAssignmentDownloader.py:24-33 | a name is left unchanged by the sanitizer if and only if it is in sanitized form (clean, no double space, no whitespace at either end, no trailing dot) |
| Sanitize.TrailingWhitespaceChanges | TeamsAssignmentDownloader.py:32 | a name ending in whitespace is always changed by the sanitizer |
| Sanitize.SanitizedIdempotentUnlessTrailingWhitespace | TeamsAssignmentDownloader.py:24-33 | sanitizing twice equals sanitizing once whenever the first result does not end in whitespace |
| Sanitize.SanitizedNotIdempotent | TeamsAssignmentDownloader.py:32 | `strip()` before `rstrip(".")` lets a trailing space through: `w + " ."` sanitizes to `w + " "`, which sanitizes to `w` |
| Paths.ExtSpec | TeamsAssignmentDownloader.py:156 | the `ext` of `os.path.splitext(fname)`: root + ext is the name; a non-empty ext starts with its only dot and follows a root that is not all dots; an empty ext means every dot has only dots before it |
| Paths.IsDocx | TeamsAssignmentDownloader.py:162 | `ext.lower() == '.docx'`, with letters lower-cased in ASCII |
| Paths.IsDocxLetters | TeamsAssignmentDownloader.py:162 | the test holds exactly for `.docx` with each of its four letters in either case |
| UniqueName.ChooseUniqueFilename | TeamsAssignmentDownloader.py:36-47 | the name returned is not in the folder; it is `base + ext` when that is free, else `base (k) + ext` for the least k >= 2 whose name is free, with k at most the folder's size + 1 |
| UniqueName.Candidate | TeamsAssignmentDownloader.py:37-43 | the i-th name tried: `f"{base_name}{ext}"` for the first, `f"{base_name} ({i}){ext}"` for i >= 2 |
| UniqueName.CandidateShape | TeamsAssignmentDownloader.py:37-43 | every name tried starts with the base name and ends with the extension, and only the first is the plain `base + ext` |
| UniqueName.CandidateInjective | TeamsAssignmentDownloader.py:37-43 | different attempts try different names |
| UniqueName.LeastFreeUnique | TeamsAssignmentDownloader.py:36-47 | at most one name is the least free candidate, so the result is determined by the folder |
| UniqueName.RepeatedClaims | TeamsAssignmentDownloader.py:152-159 | calling the resolver and then creating its answer, repeatedly, from a folder holding none of the candidates yields `base.ext`, `base (2).ext`, `base (3).ext`, ... in order |
| Collector.SafeAffix | TeamsAssignmentDownloader.py:127-128 | a prefix or suffix contributes a non-empty part exactly when it is given and not blank, and that part has no whitespace at either end |
| Collector.BaseName | TeamsAssignmentDownloader.py:130-138 | the four-way `if`/`elif` equals `" ".join` of prefix, student name and suffix, with absent or blank affixes left out |
| Collector.BaseNameWithoutAffixes | TeamsAssignmentDownloader.py:137-138 | with no usable prefix or suffix the base name is the sanitized student name |
| Collector.StudentBaseName | TeamsAssignmentDownloader.py:123-138 | the statements that build `base_name` compute `BaseName` of the sanitized student name |
| Collector.HasSelector | TeamsAssignmentDownloader.py:142 | `if assignment_subfolder:` holds for a given, non-empty selector only |
| SourceTree.ChildDir | TeamsAssignmentDownloader.py:143-144 | `os.path.isdir(os.path.join(student_dir, sub))`: for `sub == "."` it holds exactly when the student folder can be listed, and names that folder; for a plain entry name it holds exactly when the student folder can be listed and holds a subdirectory of that name, which is returned |
| Collector.DotSelectorWalksStudent | TeamsAssignmentDownloader.py:142-153 | the selector `"."` walks the whole student folder, the same files as no selector |
| SourceTree.WalkReaches | TeamsAssignmentDownloader.py:153-154 | the files `os.walk` visits are exactly those reachable through folders that can be listed |
| Collector.StudentWalkRoot | TeamsAssignmentDownloader.py:140-150 | the folder walked for a student is the selected subfolder, or the student folder when no selector is given; the student is skipped exactly when the selected subfolder is missing |
| Collector.EntryFiles | TeamsAssignmentDownloader.py:120-154 | the files copied for one entry of the root: none for a file or for a student lacking the selected subfolder, else the `os.walk` of the selected subfolder or, without a selector, of the student folder |
| Collector.Jobs | TeamsAssignmentDownloader.py:120-154 | all files copied, entry by entry in `os.scandir` order, each paired with its student's base name |
| Collector.JobsStep | TeamsAssignmentDownloader.py:120-154 | the jobs of the first e + 1 entries are the jobs of the first e followed by those of entry e |
| Collector.ValidRun | TeamsAssignmentDownloader.py:152-165 | the specification of a run: one copy per job in order, each named by the least free candidate in the folder as the earlier copies left it, and stamped with the base name exactly when stamping is on and the extension is `.docx` |
| Collector.SkippedEntry | TeamsAssignmentDownloader.py:121-148 | a file at the top level, or a student lacking the selected subfolder, adds no job |
| Collector.CopyWalkedFiles | TeamsAssignmentDownloader.py:152-165 | the copies of one student's walked files form a valid run from the current folder; the folder gains their names; found and copied each grow by the number of files |
| Collector.CopyStudent | TeamsAssignmentDownloader.py:121-165 | one student folder's turn is a valid run of that student's jobs |
| Collector.CopyFromLocalFolder | TeamsAssignmentDownloader.py:115-166 | fails when the root is not a directory (the `RuntimeError`) or cannot be listed, with no copy made; otherwise the copies are a valid run of all jobs, the folder gains exactly their names, and found == copied == the number of jobs |
| Collector.ValidRunConcat | TeamsAssignmentDownloader.py:120-166 | a run over one list of jobs, followed by a run from the folder it left, is a run over both lists |
| Collector.RunAddsFreshNames | TeamsAssignmentDownloader.py:157-159 | no copy overwrites a name that was in the folder or an earlier copy: the folder grows by exactly as many names as copies were made |
| Collector.ValidRunDeterministic | TeamsAssignmentDownloader.py:115-166 | the copies and their names are determined by the jobs and the starting folder |
| Discovery.CollectAssignmentSubfolders | TeamsAssignmentDownloader.py:169-184 | a root that is not a directory gives `[]`; a root that cannot be listed raises; otherwise the result is the sorted list of the gathered names |
| Discovery.AllSubfoldersMembers | TeamsAssignmentDownloader.py:174-182 | a name is gathered exactly when a student folder that can be listed has a subdirectory of that name |
| Discovery.SortedNames | TeamsAssignmentDownloader.py:184 | `sorted(names)` has the same elements as the set, each once, in strictly ascending order |
| Discovery.SortedUnique | TeamsAssignmentDownloader.py:184 | two strictly ascending lists with the same elements are equal, so `sorted` has exactly one correct answer |
| Text.LexLessTotal | TeamsAssignmentDownloader.py:184 | Python's order on `str` (code point by code point, a proper prefix first) is total |
| Text.LexLessTransitive | TeamsAssignmentDownloader.py:184 | that order is transitive |
| Text.LeastExists | TeamsAssignmentDownloader.py:184 | every finite non-empty set of names has a least element |

## Left out

- `add_filename_to_docx_header` (lines 50-86) is not modelled. This covers
  python-docx, the `DOCX_AVAILABLE` flag, and the header it writes. The model
  records only that the stamper was called, and with which label. The
  collector ignores the stamper's result.
- `main` is not modelled: console prompts, `print`, argument handling.
- `ensure_dir` is not modelled.
- The bytes and metadata that `shutil.copy2` copies are not modelled. The
  model records only the file name and the destination name.
- ChooseUniqueFilename returns the name inside the folder, not the joined
  path `os.path.join(folder, candidate)`.
- Errors raised in the middle of a run are not modelled (a failing
  `copy2`, a file vanishing). The only errors modelled are at the root.
- Concurrent changes to either folder are not modelled.
- The output folder is assumed to lie outside the source folder. Listings
  are fixed values, so the copies never show up in a walk.
- A missing root path and a root that is a file are both a `File` node.
  Both are "not a directory".
- Symbolic links are not modelled, because the tree has none. `is_dir()`
  follows links and `os.walk` does not.
- A directory's "readable" flag merges read and search permission.
- SourceTree.ChildDir resolves `"."` and single entry names only; a
  selector that is `..` or holds a path separator is not modelled
  (`isdir` resolves it as a path, outside or across the student folder).
- Name comparison is exact, so file systems that compare or store names
  differently are not modelled:
  - on Windows, `os.path.exists` ignores letter case;
  - Windows drops trailing spaces and dots from a file name, so a file with
    no extension whose base name ends in a space (the sanitizer turns
    `"a ."` into `"a "`) is stored as `"a"`, not under its destination name;
  - a Python `str` can hold lone surrogates, which is how undecodable
    names arrive on POSIX; a Dafny `string` cannot hold them.
- `ext.lower()` is modelled by lower-casing ASCII letters only. No
  non-ASCII character lower-cases to one of `.docx`, so the test gives the
  same answer.
- `sorted` is modelled by a selection of least elements, not by
  Python's own algorithm. `Discovery.SortedUnique` shows that the result
  is the same.
