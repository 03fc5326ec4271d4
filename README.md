# Cursor rules manager, modelled in Dafny

`src/manage_cursor_rules.py` installs a *rule set*, a directory of Markdown rule files shipped with the tool, into a target repository. It has five commands:

- `list-rules` prints the rule sets that exist.
- `install` lays out three places in the target:
  - `project_rules/` holds numbered `.mdc` copies of the rule set.
  - `memory/` holds the memory-starter files. Existing entries are never overwritten.
  - `.cursor/rules/` is generated from `project_rules/`.
- `sync` regenerates `.cursor/rules/` from `project_rules/`.
- `clean-rules` removes `project_rules/` and `.cursor/rules/`.
- `clean-all` asks for confirmation and then also removes `memory/`.

Every command first cleans up its target-path argument: it strips blanks and quotes, then cuts the path before the first `" --"`.

The model has these modules:

- `FileTree` (`filetree.dfy`): a directory is a map from entry names to files and subdirectories.
- `Text` (`text.dfy`): Python's `str` ordering, `find`, `rfind`, and the `{i:02d}` format.
- `Sorting` (`sorting.dfy`): `sorted`/`list.sort`, as a stable insertion sort.
- `Arguments` (`arguments.dfy`): the path clean-up and the reading of the confirmation answer.
- `Numbering` (`numbering.dfy`): `copy_and_number_files`. It has three parts:
  - the walk, a recursive method whose loop takes directory entries in any order;
  - the sort;
  - the writing loop.

  Each part is proved against a specification: the set of `.md` files below the source, and the directory the numbered copies produce.
- `MemoryStarters` (`memory.dfy`): `copy_memory_starters` as a loop over the starter entries. It is proved equal to a merge in which the target's entries win.
- `Manager` (`manager.dfy`): the five commands, as methods of the class `RuleManager`.
  - The class holds the tool's own `rule_sets` and `memory_starters` directories, and a map from target paths to repository trees.
  - Each command is proved against a function of the old repository: `Installed`, `Synced`, `RulesCleaned` or `AllCleaned`. `Installed` and `Synced` are ghost functions.
  - The lemmas beside those functions state what the commands promise.

The code's comments call the last step of `install` "generate Cursor rules" (line 152) and the last step of `sync` "clean and regenerate Cursor rules" (line 192). Both steps number `project_rules/` into `.cursor/rules/` (lines 158 and 197). In `install` this produces nothing. The second `copy_and_number_files` call (line 158) reads `project_rules/`, which by then holds only `.mdc` files, while its filter keeps only names ending in `.md` (line 64). So after `install`, `.cursor/rules/` exists and is empty (`Manager.InstalledLayout`, `Numbering.MdcCopiesNotCollected`). For the same reason, `sync` fills `.cursor/rules/` only with `.md` files placed in `project_rules/` by hand.

## Model

| member | source | states |
|---|---|---|
| Text.LessEqTotalOrder | src/manage_cursor_rules.py:68 | Python's ordering of `str` values is total, antisymmetric and transitive, which is what sorting the collected paths relies on |
| Text.Less | src/manage_cursor_rules.py:46 | Python's `<` on `str`: the first differing character decides by code point, and a proper prefix is smaller; the order of `sorted(rule_sets)` and of `md_files.sort()` at line 68 |
| Text.LessCommonPrefix | src/manage_cursor_rules.py:62-68 | paths that share the walked directory as a prefix compare as their remainders do, so sorting full paths orders the relative paths the same way |
| Text.Find | src/manage_cursor_rules.py:120-121 | `str.find`: -1 exactly when the pattern does not occur; otherwise an occurrence with none before it |
| Text.Contains | src/manage_cursor_rules.py:120 | `pat in s` for strings: the pattern occurs at some index |
| Text.EndsWith | src/manage_cursor_rules.py:64 | `str.endswith`: the suffix is no longer than the string and equals its last characters |
| Text.RFindIsLast | src/manage_cursor_rules.py:73 | `str.rfind` of a character finds its last occurrence |
| Text.RFind | src/manage_cursor_rules.py:73 | `str.rfind` of one character: -1 or an index holding the character |
| Text.Decimal | src/manage_cursor_rules.py:76 | `str(n)`: only digits, no leading zero, one digit exactly below 10, two digits from 10 to 99 |
| Text.ZeroPad2 | src/manage_cursor_rules.py:76 | `{i:02d}`: at least two digits, exactly two below 100, and the plain numeral from 10 on |
| Text.ParseZeroPad2 | src/manage_cursor_rules.py:76 | round trip: the padded numeral reads back as its number |
| Text.ZeroPad2Injective | src/manage_cursor_rules.py:76 | different numbers give different padded numerals |
| Sorting.SortBy | src/manage_cursor_rules.py:68 | the sorted list is ascending by key and a permutation of the input |
| Sorting.SortedUnique | src/manage_cursor_rules.py:62-68 | two ascending arrangements of the same elements are equal when keys tell elements apart, so the walk's listing order does not affect the sorted list |
| Sorting.SortedStrictly | src/manage_cursor_rules.py:68 | with distinct keys and no repeated element, the sorted list is strictly ascending |
| Arguments.StripBounds | src/manage_cursor_rules.py:118 | `str.strip(chars)`: everything cut off is in `chars`, and the kept text neither begins nor ends with such a character |
| Arguments.IsSpace | src/manage_cursor_rules.py:118 | the characters `str.isspace()` accepts, which `str.strip()` without an argument removes (also at line 250) |
| Arguments.Strip | src/manage_cursor_rules.py:118 | `str.strip(chars)`: the text between the leading and the trailing run of characters in `chars` |
| Arguments.Unquoted | src/manage_cursor_rules.py:118 | the argument with blanks, then double quotes, then single quotes stripped from both ends, in that order |
| Arguments.Sanitise | src/manage_cursor_rules.py:118-121 | the unquoted argument, cut before its first `" --"` when it holds one and kept whole otherwise |
| Arguments.SanitiseDropsFlags | src/manage_cursor_rules.py:118-121 | the sanitised path never contains `" --"` |
| Arguments.SanitiseKeepsUnflagged | src/manage_cursor_rules.py:118-121 | the sanitised path begins the unquoted argument, and equals it exactly when the argument has no `" --"` |
| Arguments.SanitiseIsSlice | src/manage_cursor_rules.py:118-121 | the sanitised path is a contiguous piece of the raw argument |
| Arguments.UnquotedIsSlice | src/manage_cursor_rules.py:118 | the three strips leave a contiguous piece of the raw argument |
| Arguments.SanitiseCutsAtMarker | src/manage_cursor_rules.py:120-121 | `'a  --x'` is cut to `'a '` |
| Arguments.SanitiseNotIdempotent | src/manage_cursor_rules.py:118-121 | sanitising twice can differ from sanitising once: the cut can leave a trailing blank that a second pass strips |
| Arguments.Lower | src/manage_cursor_rules.py:250 | `str.lower` keeps the length and lower-cases each character |
| Arguments.LowerChar | src/manage_cursor_rules.py:250 | `str.lower` on one character: ASCII capitals become their small letters, every other character is kept |
| Arguments.Confirmed | src/manage_cursor_rules.py:250-251 | the answer, blanks stripped and lower-cased, is exactly `y` |
| Arguments.ConfirmedIff | src/manage_cursor_rules.py:250-251 | the answer confirms exactly when, blanks stripped, it is `y` or `Y` |
| Numbering.SplitExt | src/manage_cursor_rules.py:73 | `os.path.splitext`: the extension runs from the last dot after the last `/` to the end, unless only dots precede that dot in the last component; otherwise the extension is empty |
| Numbering.SplitExtParts | src/manage_cursor_rules.py:73 | `os.path.splitext`: stem and extension put together give back the name, and a non-empty extension starts with a dot |
| Numbering.StemOfMarkdownName | src/manage_cursor_rules.py:73 | the stem of a collected `.md` name is the name without `.md`, unless only dots precede it |
| Numbering.DotMdKeepsWholeName | src/manage_cursor_rules.py:73 | a file called `.md` keeps its whole name as the stem |
| Numbering.NumberedName | src/manage_cursor_rules.py:72-78 | the output name of the `i`-th file: `i` padded to two digits, `-`, the stem, then `.mdc` or `.md` as the mode says |
| Numbering.NumberedNameRoundTrip | src/manage_cursor_rules.py:71-78 | the digits before the first `-` of an output name read back as its 1-based sequence number |
| Numbering.NumberedNamesDistinct | src/manage_cursor_rules.py:71-78 | output names with different sequence numbers differ, whatever the files are called |
| Numbering.NumberedNameShape | src/manage_cursor_rules.py:72-80 | an output name is a valid entry name that starts with `NN-` and ends in `.mdc` or `.md` as the mode says |
| Numbering.FoundShape | src/manage_cursor_rules.py:62-65 | every collected file lies below the entry it was found under, and its name ends in `.md` |
| Numbering.FoundUniquePaths | src/manage_cursor_rules.py:62-65 | within one walk, a path identifies the collected file |
| Numbering.MdFilesUniquePaths | src/manage_cursor_rules.py:61-65 | no two collected files of a source share a path |
| Numbering.FoundAmongAdd | src/manage_cursor_rules.py:62-65 | visiting one more directory entry adds exactly that entry's files, none of them found before |
| Numbering.MdFiles | src/manage_cursor_rules.py:61-65 | the set of files at any depth below the source whose name ends in `.md`, each with its path relative to the source; a plain file as the source has none |
| Numbering.Listing | src/manage_cursor_rules.py:61-68 | the collected files in ascending path order |
| Numbering.ListingSpec | src/manage_cursor_rules.py:61-68 | the sorted list holds each `.md` file of the source exactly once, in strictly ascending path order |
| Numbering.WriteAllStep | src/manage_cursor_rules.py:80-88 | one more write extends the directory written so far by that file |
| Numbering.WriteAllKeys | src/manage_cursor_rules.py:80-88 | the written directory's names are the old names plus the names written |
| Numbering.WriteAllAt | src/manage_cursor_rules.py:80-88 | with distinct names, every file written keeps its contents |
| Numbering.WriteAllKeeps | src/manage_cursor_rules.py:80-88 | entries that no write names keep their old value |
| Numbering.WriteAllCount | src/manage_cursor_rules.py:80-88 | with distinct names, a fresh directory gets exactly one entry per write |
| Numbering.NumberedNamesAt | src/manage_cursor_rules.py:71-78 | the `j`-th collected file is written under the name with number `j + 1` |
| Numbering.NumberedNamesAreDistinct | src/manage_cursor_rules.py:71-78 | the names one call writes are pairwise different |
| Numbering.NumberedNamesShape | src/manage_cursor_rules.py:72-80 | every name one call writes is valid and carries the mode's extension |
| Numbering.WriteAllFresh | src/manage_cursor_rules.py:80-88 | distinct valid names written into a fresh directory give one entry per write, each with its contents, and nothing else |
| Numbering.WrittenFresh | src/manage_cursor_rules.py:71-88 | numbering a list into a fresh directory gives one entry per file, under its numbered name, with its contents, and nothing else |
| Numbering.Written | src/manage_cursor_rules.py:71-88 | the directory after the writing loop: the `j`-th file of the list written under its numbered name with number `j + 1`, in order |
| Numbering.Numbered | src/manage_cursor_rules.py:52-90 | without a source the target is as it was; otherwise the target, empty when absent, with the numbered copies of the listing written into it |
| Numbering.NumberedDirectory | src/manage_cursor_rules.py:52-90 | numbering a source into a fresh directory gives one entry per `.md` file below it, the `j`-th in path order under number `j + 1` |
| Numbering.MdcCopiesNotCollected | src/manage_cursor_rules.py:64 | a directory of `add_mdc` copies contains no `.md` file, so numbering it collects nothing |
| Numbering.CollectMarkdown | src/manage_cursor_rules.py:61-65 | the walk collects exactly the `.md` files below the directory, each once, in whatever order the entries are listed |
| Numbering.WriteNumbered | src/manage_cursor_rules.py:71-88 | the writing loop produces the numbered directory of the sorted list |
| Numbering.CopyAndNumberFiles | src/manage_cursor_rules.py:52-90 | a missing source changes nothing; otherwise the target, created when absent, gains the numbered copies in path order |
| MemoryStarters.MergedSpec | src/manage_cursor_rules.py:101-113 | nothing already in the target is overwritten, every starter name ends up present, and each added entry is the starter's |
| MemoryStarters.MergedIdempotent | src/manage_cursor_rules.py:101-113 | copying the same starters again changes nothing |
| MemoryStarters.MergedValid | src/manage_cursor_rules.py:101-113 | well-formed directories merge into a well-formed directory |
| MemoryStarters.Merged | src/manage_cursor_rules.py:102-113 | every name of the target or of the starters, holding the target's entry where the target has one and the starter's otherwise |
| MemoryStarters.MemoryAfterCopy | src/manage_cursor_rules.py:92-113 | no source leaves the target as it was, even absent; otherwise the target holds every starter name and keeps its own entries |
| MemoryStarters.CopyMemoryStarters | src/manage_cursor_rules.py:92-113 | the copying loop produces the merge whatever order the starters are listed in |
| MemoryStarters.CopyIdempotent | src/manage_cursor_rules.py:92-113 | copying the starters twice leaves what copying once leaves |
| Manager.WithCursorRules | src/manage_cursor_rules.py:154-158 | regenerating `.cursor/rules` replaces only that directory, creating `.cursor` when absent; every other top-level entry and every other entry of `.cursor` (`CursorOthers`) keeps its value |
| Manager.WithoutCursorRules | src/manage_cursor_rules.py:222-224 | removing `.cursor/rules` leaves every other top-level entry, every other entry of `.cursor`, and `.cursor` itself: a directory stays a directory and a plain file is kept as it is |
| Manager.HasCursorRules | src/manage_cursor_rules.py:155 | `os.path.exists(cursor_rules_dir)` (lines 155, 193, 222, 262): `.cursor` is a directory holding an entry `rules` |
| Manager.RuleSetSource | src/manage_cursor_rules.py:127-128 | a rule set exists exactly when the rule-sets directory does and the name is empty or one of its entries |
| Manager.RuleSetListingSpec | src/manage_cursor_rules.py:39-47 | `list-rules` names every rule-set directory once, in strictly ascending order |
| Manager.RuleSetListing | src/manage_cursor_rules.py:39-46 | the names of the rule-set directories in ascending order; none without a rule-sets directory |
| Manager.RuleSetNames | src/manage_cursor_rules.py:39-40 | the entries of the rule-sets directory that are directories |
| Manager.RenumberedSpec | src/manage_cursor_rules.py:146 | the numbered copies of a rule set number one per `.md` file, under valid names |
| Manager.Renumbered | src/manage_cursor_rules.py:146 | the numbered `.mdc` copies of the `.md` files below a directory, written into a fresh directory, as at lines 146, 158 and 197 |
| Manager.RenumberedMdcIsEmpty | src/manage_cursor_rules.py:158 | numbering `project_rules` right after it was filled collects nothing |
| Manager.Installed | src/manage_cursor_rules.py:133-158 | `project_rules` set to the numbered copies of the rule set, `memory` set to the memory after the starters are copied, and `.cursor/rules` set to the numbering of the new `project_rules` |
| Manager.Synced | src/manage_cursor_rules.py:187-197 | no result without `project_rules`; otherwise `.cursor/rules` set to the numbering of `project_rules` |
| Manager.RulesCleaned | src/manage_cursor_rules.py:215-225 | the repository without `project_rules` and `.cursor/rules`, and whether either existed |
| Manager.AllCleaned | src/manage_cursor_rules.py:250-270 | any answer but `y` leaves the repository and reports nothing removed; otherwise the repository without `project_rules`, `.cursor/rules` and `memory`, and whether any existed |
| Manager.ManagedRemoved | src/manage_cursor_rules.py:255-270 | the repository without `project_rules`, `memory` and `.cursor/rules`, and whether any of them existed |
| Manager.LaidSpec | src/manage_cursor_rules.py:133-158 | laying out a repository sets `project_rules`, `.cursor/rules`, and `memory` when a memory piece is given; the key set is the old one plus exactly those places, and every other top-level entry (`memory` too when no piece is given) and every other entry of `.cursor` keeps its value |
| Manager.LaidValid | src/manage_cursor_rules.py:133-158 | laying out well-formed pieces keeps the repository well formed |
| Manager.WithCursorRulesValid | src/manage_cursor_rules.py:154-158 | regenerating `.cursor/rules` keeps the repository well formed |
| Manager.InstalledLayout | src/manage_cursor_rules.py:133-158 | after `install`: `project_rules` holds one copy per `.md` file of the rule set, `.cursor/rules` is empty, and `memory` is what copying the starters leaves; no other top-level entry is added, `memory` is neither created nor changed when there are no starters, and every other top-level entry and every other entry of `.cursor` is unchanged |
| Manager.InstalledValid | src/manage_cursor_rules.py:115-170 | `install` keeps the repository well formed |
| Manager.LaidTwice | src/manage_cursor_rules.py:133-158 | laying out the same pieces twice equals laying them out once |
| Manager.InstallIdempotent | src/manage_cursor_rules.py:115-170 | installing the same rule set twice leaves what installing once leaves |
| Manager.SyncNeedsProjectRules | src/manage_cursor_rules.py:187-190 | `sync` fails exactly when `project_rules` is missing |
| Manager.SyncedLayout | src/manage_cursor_rules.py:192-197 | `sync` replaces `.cursor/rules` by the numbering of `project_rules`, changes nothing outside `.cursor`, and keeps the other entries of `.cursor` |
| Manager.WithCursorRulesTwice | src/manage_cursor_rules.py:193-197 | regenerating `.cursor/rules` twice keeps only the second result |
| Manager.SyncIdempotent | src/manage_cursor_rules.py:172-200 | two syncs in a row leave what one leaves |
| Manager.SyncAfterInstall | src/manage_cursor_rules.py:172-200 | `sync` right after `install` changes nothing |
| Manager.RulesCleanedLayout | src/manage_cursor_rules.py:215-232 | `clean-rules` removes `project_rules` and `.cursor/rules` only: `memory`, `.cursor` (a directory or a plain file, as it was) and the other entries of `.cursor` are kept; it reports a removal exactly when one of the two existed |
| Manager.CleanRulesIdempotent | src/manage_cursor_rules.py:215-232 | a second `clean-rules` finds nothing to remove and changes nothing |
| Manager.CleanAfterInstallKeepsMemory | src/manage_cursor_rules.py:227-230 | `clean-rules` after `install` keeps the memory that `install` set up |
| Manager.CleanAllDeclined | src/manage_cursor_rules.py:250-253 | any answer but `y` leaves the repository untouched |
| Manager.AllCleanedLayout | src/manage_cursor_rules.py:255-277 | a confirmed `clean-all` removes `project_rules`, `memory` and `.cursor/rules` only: `.cursor` (a directory or a plain file, as it was) and its other entries are kept; it reports a removal exactly when one of the three existed |
| Manager.ManagedRemovedInSteps | src/manage_cursor_rules.py:257-270 | `clean-all` removes what `clean-rules` removes and then `memory` |
| Manager.CleanedValid | src/manage_cursor_rules.py:202-277 | both clean commands keep the repository well formed |
| Manager.UpdatedValid | src/manage_cursor_rules.py:115-277 | changing one repository to a well-formed one keeps all well formed |
| Manager.SyncedValid | src/manage_cursor_rules.py:172-200 | `sync` keeps the repository well formed |
| Manager.RemoveRuleDirs | src/manage_cursor_rules.py:215-225 | the two removals give the `clean-rules` result and report |
| Manager.RemoveManaged | src/manage_cursor_rules.py:255-270 | the three removals give the `clean-all` result and report |
| Manager.RuleManager.constructor | src/manage_cursor_rules.py:15-22 | the tool starts from its own rule-set and starter directories and the given repositories |
| Manager.RuleManager.ListAvailableRules | src/manage_cursor_rules.py:30-50 | returns the sorted rule-set names, and 1 exactly when there are none or no rule-sets directory |
| Manager.RuleManager.Install | src/manage_cursor_rules.py:115-170 | a missing rule set returns 1 and changes nothing; otherwise the repository at the sanitised path becomes `Installed` and 0 is returned |
| Manager.RuleManager.Sync | src/manage_cursor_rules.py:172-200 | returns 1 and changes nothing without `project_rules`; otherwise the repository becomes `Synced` and 0 is returned |
| Manager.RuleManager.CleanRules | src/manage_cursor_rules.py:202-232 | returns 0; the repository becomes `RulesCleaned`; an absent path stays absent |
| Manager.RuleManager.CleanAll | src/manage_cursor_rules.py:234-277 | returns 0; a declined answer changes nothing; otherwise the repository becomes `AllCleaned`; an absent path stays absent |

## Left out

- Printing, the banner, `argparse`, `main`'s dispatch and the exit status are not modelled. The commands return their results instead.
- `input()` is not modelled. `clean-all` takes the answer as a parameter.
- `os.path.abspath` is not modelled. Repositories are keyed by the sanitised path string, so `a`, `./a` and `/cwd/a` are different repositories in the model.
- The tool's own directories are given to the model, not derived from `__file__`.
- Each target repository is treated as a separate tree. A rule set or the starters lying inside a target, or one target nested in another, is not modelled.
- File contents are opaque text and are copied unchanged. The source reads and writes in UTF-8 text mode. That fails on invalid UTF-8 and turns `\r\n` and a lone `\r` into `\n`. `shutil.copy2` also copies metadata, and `copytree` handles symbolic links. None of this is modelled.
- I/O errors and the exceptions they raise are not modelled, such as missing permissions or a path that exists as a file.
- Manager.RuleManager.Install: requires `Valid()`, under which `project_rules`, `memory`, `.cursor` and `.cursor/rules` are directories wherever they exist. The same holds for `Sync`, `CleanRules` and `CleanAll`. Runs with a plain file at one of those places are left out, whether the source raises there or completes. It raises in most of them, at `shutil.rmtree`, `os.makedirs` or the copy into a file. Some complete:
  - `sync` with a file at `project_rules` walks nothing and leaves `.cursor/rules` empty;
  - `clean-rules` with a file at `memory` or `.cursor` removes what it would otherwise remove;
  - `clean-all` declined, or confirmed with a file at `.cursor`;
  - `install` with a file at `memory` when there are no starters to copy.
- Manager.RuleManager.Install: rule-set names containing `/`, or equal to `.` or `..`, are not modelled (`PlainName`). The model looks a name up one level down in the rule-sets directory. `os.path.join` would instead follow such a name: `heavy-spec/` names the same rule set, `a/b` a nested directory, `..` or an absolute path a directory outside. The empty name is modelled: it names the rule-sets directory itself.
- Manager.RuleManager.Install: the command line's default rule set, `light-spec`, is not modelled. The caller always passes the name.
- Manager.RuleManager.ListAvailableRules: the rule-sets directory is either absent or a directory. A plain file there makes `os.listdir` raise, which is not modelled. The same holds for the memory-starters directory in `MemoryStarters.CopyMemoryStarters`.
- Numbering.CollectMarkdown: `os.walk` visits entries in the order the file system lists them. The model lets that order be arbitrary, which is as general as the source. It does not follow symbolic links to directories, which `os.walk` does not follow either. Special files are not modelled.
- Arguments.LowerChar: lower-cases ASCII letters only. The confirmation is still exact, because `Y` is the only character whose lower case is `y`.
- The sort key is the path relative to the walked directory, while the source sorts full paths. `Text.LessCommonPrefix` shows that the two orders agree.
