# maki, modelled in Dafny

maki lists the targets of the Makefiles in a directory and lets the user
pick one to run with `make`. This project models the core of it:

- **Line classifier and target extractor** (`src/makefile.rs`, modules `Makefile`, `TargetList`):
  - the two assignment tests;
  - the rule-head pattern `^([A-Za-z0-9._/\-%]+)\s*:`;
  - the line loop of `parse_makefile_content`, with its pattern, private and duplicate filters;
  - the description search of `extract_description`;
  - the first-file-wins merge and name sort of `parse_all_makefiles`.
- **Parse cache** (`src/cache.rs`, module `ParseCache`): a class holding a version and a map from canonical path to entry (content hash, modification time, targets). It has `new`, the version check of `load`, `get`, `is_entry_valid`, `set`, `invalidate`, `clear`, `prune` and `stats`.
- **Target-list driver** (`src/main.rs`, module `Driver`): `get_targets` and `get_targets_for_file`. For each file the driver either skips the cache, takes a valid cached entry, or parses the file and stores the result. It then merges the targets, decides whether to save, and sorts.
- **Target record** (`src/target.rs`, module `Targets`).
- **Command line of `execute_target`** (`src/executor.rs`, module `Executor`).
- **Picker helpers** (`src/fuzzy.rs`, module `Fuzzy`): the recipe range and numbered rows of the preview, the snippet window, and the two selectors.

Shared pieces:

- `Text` models the string operations the source uses: `trim`, `find`, `split`, `join`, `split_whitespace` and ordering by `cmp`.
- `Files` models the file system as a value. It maps a path to its content, given as a sequence of lines, and records:
  - `canonicalize` as a partial map;
  - modification times;
  - which paths exist.
- `compute_hash` (SHA-256) is a function parameter `hash`.

Where the source mutates state, the model is imperative:

- The line loops, the description walk, the merge loops and the recipe scan are methods with loop invariants. Each is proved equal to a specification function.
- The cache is a class whose methods modify its `entries`.
- The properties the source promises are lemmas about those specification functions.

## Model

| member | source | states |
|---|---|---|
| Targets.New | src/target.rs:32-40 | copies name, description, file and line, and leaves the required variables empty, so `has_required_vars` is false |
| Targets.WithRequiredVars | src/target.rs:43-57 | stores the given required variables unchanged; `has_required_vars` holds iff they are non-empty |
| Targets.HasRequiredVars | src/target.rs:60-62 | definition: the required-variable list is non-empty; `WithRequiredVars` and `New` state its value for built targets |
| Targets.DisplayName | src/target.rs:65-67 | the picker text is the target's name |
| Targets.IsPrivateName | src/target.rs:71-73 | definition: the name starts with `_`; the same test drives the private filter of the parser |
| Targets.IsPrivate | src/target.rs:71-73 | definition: the target's name is private; `IsPrivateExample` states the unit test's cases |
| Targets.Display | src/target.rs:76-83 | the bare name without a description; otherwise the name, then " - ", then the description, with exact lengths |
| Targets.DisplayStartsWithName | src/target.rs:76-83 | the display text starts with the name and is longer than it exactly when a description is present |
| Targets.NewExample | src/target.rs:89-103 | the unit test's target has the given fields and no required variables |
| Targets.IsPrivateExample | src/target.rs:128-136 | `_internal` is private and `build` is not |
| Text.Trim | src/makefile.rs:148 | the trimmed text is empty iff the line is all whitespace, and otherwise neither starts nor ends with whitespace |
| Text.TrimStart | src/makefile.rs:110 | drops exactly the leading whitespace: the result is a suffix, and everything dropped is whitespace |
| Text.TrimEnd | src/makefile.rs:148 | drops exactly the trailing whitespace: the result is a prefix, and everything dropped is whitespace |
| Text.IndexOf | src/makefile.rs:60 | `find` returns the first index at which the pattern occurs, and None iff it occurs nowhere |
| Text.IndexOfCharSpec | src/makefile.rs:108 | `find(':')` is None iff the line has no colon; otherwise it is the first colon |
| Text.SkipSpace | src/makefile.rs:121 | the first non-whitespace position at or after an index |
| Text.SplitJoin | src/fuzzy.rs:279 | splitting a newline-joined list of lines without newlines gives the lines back |
| Text.JoinLength | src/executor.rs:50-52 | a join's length is the sum of the parts plus one separator between each pair |
| Text.JoinTrimmed | src/makefile.rs:239 | joining non-empty trimmed fragments with a space gives a non-empty trimmed text |
| Text.FirstWord | src/fuzzy.rs:171-174 | `split_whitespace().next()` is None iff the text is all whitespace; otherwise a non-empty word without whitespace |
| Text.FirstWordOfWord | src/fuzzy.rs:171-174 | a non-empty name without whitespace is its own first word |
| Text.Reversed | src/makefile.rs:238 | reversal keeps the length and mirrors each position |
| Text.ReversedSnoc | src/makefile.rs:238 | reversing a list with one more fragment puts that fragment first |
| Text.LexLeTotal | src/makefile.rs:269 | any two names are comparable by `cmp` |
| Text.LexLeTransitive | src/makefile.rs:269 | the name order is transitive |
| Text.LexLeAntisymmetric | src/makefile.rs:269 | two names each ordered before the other are equal |
| Text.NatToString | src/fuzzy.rs:275 | a line number prints as decimal digits that denote exactly that number, with no leading zero |
| Text.PadLeft | src/fuzzy.rs:275 | the four-column number field right-aligns: width `max(4, len)`, the text at the end, spaces before it |
| Makefile.IsVariableAssignment | src/makefile.rs:55-100 | definition of `is_variable_assignment`; `SimpleAssignmentRecognised`, `RuleColonNotAssignment`, `AssignmentHasEqualsBeforeColon` and `NoEqualsNoAssignment` state what it accepts and rejects |
| Makefile.AssignmentHasEqualsBeforeColon | src/makefile.rs:55-100 | every line `is_variable_assignment` accepts has an `=` after position 0 with no `:` before the operator |
| Makefile.RuleColonNotAssignment | src/makefile.rs:516-527 | a line with a colon and no `=` up to the character after it is never a plain assignment (`build:`, `build: dep1 dep2`, `target: VAR := value`) |
| Makefile.NoEqualsNoAssignment | src/makefile.rs:55-131 | a line without `=` passes neither assignment test |
| Makefile.SimpleAssignmentRecognised | src/makefile.rs:516-527 | `NAME ws op value` is an assignment for each of `:=`, `?=`, `+=`, and `=` when not followed by `=` (`CC := gcc`, `FOO = bar`) |
| Makefile.AssignOpEquals | src/makefile.rs:122-123 | each of the four operators has an `=` at or right after its start |
| Makefile.DelimiterFrom | src/makefile.rs:115 | the first whitespace, `:`, `?`, `+` or `=` at or after a position, or None if there is none |
| Makefile.IsTargetSpecificVariable | src/makefile.rs:103-131 | definition of `is_target_specific_variable`; `ScopedAssignmentRecognised`, `ScopedAnatomy`, `TargetSpecificHasColonThenEquals` and `NoNameAfterColon` state what it accepts and rejects |
| Makefile.ScopedAnatomy | src/makefile.rs:103-131 | an accepted target-specific line has a colon and, after it, an assignment operator |
| Makefile.TargetSpecificHasColonThenEquals | src/makefile.rs:103-131 | an accepted target-specific line has a `:` before an `=` |
| Makefile.ScopedAssignmentRecognised | src/makefile.rs:529-540 | `target: VAR op value` is accepted for each operator, with optional whitespace around the variable |
| Makefile.NoNameAfterColon | src/makefile.rs:115-119 | a delimiter right after the colon leaves an empty variable name, which is rejected |
| Makefile.NameEnd | src/makefile.rs:138 | the end of the run of `[A-Za-z0-9._/\-%]` characters from a position |
| Makefile.MatchTarget | src/makefile.rs:138 | a match is a non-empty prefix of name characters |
| Makefile.MatchTargetRecognised | src/makefile.rs:138 | `name ws : rest` matches with exactly that name |
| Makefile.MatchTargetShape | src/makefile.rs:138 | every match is the name, then whitespace, then `:` |
| Makefile.Classify | src/makefile.rs:148-162 | definition: the loop's checks in order (blank, comment, either assignment test, the target pattern); `RuleHeadRecognised` and `AssignmentLineYieldsNothing` state its outcomes |
| Makefile.Admitted | src/makefile.rs:164-172 | definition: a `%` name needs `include_patterns` and a `_` name needs `include_private` |
| Makefile.Candidate | src/makefile.rs:147-172 | definition: the rule-head name of a line when the filters admit it; `ParseContentProvenance` and `ParseContentComplete` tie it to the result |
| Makefile.RuleHeadRecognised | src/makefile.rs:147-162 | a rule head without `=` classifies as a rule head with its name |
| Makefile.NoEqualsInRuleHead | src/makefile.rs:138 | a rule head built from name characters and `=`-free prerequisites holds no `=` |
| Makefile.ScopedLineYieldsNoTarget | src/makefile.rs:494-514 | `target: VAR op value` yields no target under any options, because the assignment tests come first |
| Makefile.AssignmentLineYieldsNothing | src/makefile.rs:150-158 | a blank line, a comment line, or a line either assignment test accepts is not a rule head and yields no target, under any options |
| Makefile.SkippedLineDeclaresNothing | src/makefile.rs:150-158 | no target of a file carries the line number of a blank, comment or assignment line |
| Makefile.InlineDescription | src/makefile.rs:199-205 | an inline `##` description is non-empty and trimmed |
| Makefile.SkipHashes | src/makefile.rs:217 | the end of a run of `#` from a position |
| Makefile.StripHashes | src/makefile.rs:217 | `trim_start_matches('#')` drops exactly the leading `#`s |
| Makefile.Fragments | src/makefile.rs:207-233 | definition: the upward walk over comment lines (and blank lines bridging two comments), collecting non-empty comment texts in source order |
| Makefile.Description | src/makefile.rs:196-241 | definition: the inline `##` text if any, else the collected fragments joined by spaces, else None; `ExtractDescription` proves the loop equal to it |
| Makefile.ExtractDescription | src/makefile.rs:196-241 | the loop with its reversal and join equals the description function: the inline text if any, otherwise the block's fragments in source order joined by spaces, or None |
| Makefile.LineTarget | src/makefile.rs:147-172 | the per-line checks of the loop, in order, give the line's candidate name |
| Makefile.ParseLine | src/makefile.rs:147-189 | one iteration adds a new target for a fresh admitted name and keeps `seen_names` equal to the names so far |
| Makefile.ParseContent | src/makefile.rs:134-193 | definition: the targets of the first admitted declaration of each name, in line order; the `ParseContent*` and `Collect*` lemmas state its properties |
| Makefile.ParseMakefileContent | src/makefile.rs:134-193 | the loop over the lines equals the parse specification |
| Makefile.CollectAt | src/makefile.rs:174-188 | each collected target comes from a line declaring its name, with its 1-based line and that line's description |
| Makefile.CollectOrdered | src/makefile.rs:174-188 | collected names are distinct, and lines lie in range and strictly increase |
| Makefile.CollectComplete | src/makefile.rs:174-188 | every declared name is collected |
| Makefile.CollectFirstWins | src/makefile.rs:174-177 | no earlier line declares a collected name |
| Makefile.ParseContentOrdered | src/makefile.rs:398-451 | names are pairwise distinct, targets are in increasing line order, and each carries the given file |
| Makefile.ParseContentTarget | src/makefile.rs:180-188 | each target is `Target::new` of an admitted rule-head name on its line, with that line's description |
| Makefile.ParseContentProvenance | src/makefile.rs:161-172 | each target's line is a rule head declaring its name and admitted by the pattern and private filters |
| Makefile.ParseContentDescribed | src/makefile.rs:180-188 | each target carries the description of its line and no required variables |
| Makefile.ParseContentComplete | src/makefile.rs:147-189 | every admitted rule-head name of the file appears in the result |
| Makefile.CollectFirstWinsAt | src/makefile.rs:174-177 | for one target: no earlier line declares its name |
| Makefile.ParseContentFirstWins | src/makefile.rs:174-177 | the target for a name is its first admitted declaration |
| Makefile.ParseFile | src/makefile.rs:47-52 | `parse_makefile` succeeds iff the file can be read, with the targets of its content; otherwise it fails naming the file |
| Makefile.ParseMakefile | src/makefile.rs:47-52 | the method reads the file and runs the line loop, as `ParseFile` states |
| Makefile.ParseEach | src/makefile.rs:258-259 | the `?` loop over the files: on success it holds one target list per file |
| Makefile.ParseEachErrorSticks | src/makefile.rs:258-259 | once a file fails, later files do not change the outcome |
| Makefile.ParseAll | src/makefile.rs:244-272 | definition: the empty-list error, the first parse error, or the sorted first-wins merge; `ParseAllSpec` and `ParseAllOutcome` state its properties |
| Makefile.MergeFiles | src/makefile.rs:255-266 | the loop fails exactly when parsing some file fails, with the first such error, and otherwise yields the first-wins merge of the files' targets in file order |
| Makefile.ParseAllMakefiles | src/makefile.rs:244-272 | the empty-list error, then the merge loop and the final sort, equal the specification `ParseAll` |
| Makefile.FirstFailure | src/makefile.rs:258-259 | the index of the first file that fails to parse: all files before it parse, and it fails |
| Makefile.FirstUnreadable | src/makefile.rs:258-259 | the index of the first unreadable file |
| Makefile.FirstFailureSnoc | src/makefile.rs:258-259 | appending a file moves the first failure only if no earlier file failed |
| Makefile.FirstFailureUnique | src/makefile.rs:258-259 | the first failure is the only index with all earlier files parsing and itself failing |
| Makefile.FirstFailureUnreadable | src/makefile.rs:47-52 | a parse fails exactly where a read fails |
| Makefile.ParseEachOutcome | src/makefile.rs:258-259 | the `?` loop succeeds iff no file fails, and otherwise returns the first failing file's error |
| Makefile.ParseEachValues | src/makefile.rs:258-259 | on success the loop holds each file's targets, in file order |
| Makefile.ParseAllOutcome | src/makefile.rs:249-259 | no files fails with "no Makefile"; otherwise success iff every file is readable, and failure names the first unreadable one |
| Makefile.ParseAllSpec | src/makefile.rs:255-271 | the result is sorted by name and has distinct names; a name appears iff some file declares it; each target comes from the first file declaring its name |
| Makefile.ParseAllNames | src/makefile.rs:255-266 | a name is in the result iff some file declares it |
| Makefile.ParseAllFirstFileWins | src/makefile.rs:258-266 | each merged target comes from the earliest file declaring its name and carries that file's path |
| Makefile.ParseAllLists | src/makefile.rs:255-271 | on success the result is the sorted merge of each file's targets |
| Makefile.ParseAllOrigin | src/makefile.rs:258-266 | a merged target lies in its file's targets, and no earlier file declares its name |
| TargetList.NamesSnoc | src/makefile.rs:262-263 | pushing a target adds its name to the seen set |
| TargetList.FirstIndex | src/fuzzy.rs:177 | the first position holding a name; it equals the length iff the name is absent |
| TargetList.MergeInto | src/makefile.rs:260-265 | definition: push each target whose name is not yet present; `MergeIntoSpec` states its meaning |
| TargetList.MergeAll | src/makefile.rs:258-266 | definition: merge the files' lists in order; `MergeAllSpec`, `MergeAllNames` and `MergeAllOrigin` state its meaning |
| TargetList.MergeIntoSpec | src/makefile.rs:260-265 | merging keeps the prefix, keeps names distinct, unions the names, and takes each new target from its first occurrence |
| TargetList.MergeIntoAppend | src/makefile.rs:258-266 | merging two lists in turn is merging their concatenation |
| TargetList.MergeAllFlatten | src/makefile.rs:258-266 | the per-file merge equals one merge of all targets in file order |
| TargetList.MergeAllSpec | src/makefile.rs:258-266 | merged names are distinct and equal to all names; each merged target is the first with its name |
| TargetList.MergeAllOrigin | src/makefile.rs:258-266 | each merged target lies in some file's list, and no earlier list has its name |
| TargetList.MergeAllNames | src/makefile.rs:258-266 | a name is merged iff some list has it |
| TargetList.Insert | src/makefile.rs:269 | insertion into a sorted list keeps it sorted, adds exactly the target, and keeps names distinct for a new name |
| TargetList.SortByName | src/makefile.rs:269 | `sort_by` on names is a sorted permutation with the same names, distinct if the input's were |
| TargetList.SortedPermutationUnique | src/makefile.rs:269 | two sorted permutations of a list with distinct names are equal, so the sort's result is determined |
| TargetList.AppendNew | src/makefile.rs:260-265 | the inner loop appends each target whose name is unseen and keeps `seen_names` equal to the names appended |
| ParseCache.Lookup | src/cache.rs:98-122 | `get` hits exactly when the path canonicalises, its key has an entry, the file reads and its hash equals the entry's, and then returns the stored targets; each other case misses |
| ParseCache.ModifiedTime | src/cache.rs:134-139 | the file's modification time, or 0 when metadata is unavailable |
| ParseCache.Upsert | src/cache.rs:125-149 | `set` succeeds iff the path canonicalises and reads; otherwise it fails with the matching error |
| ParseCache.UpsertFrame | src/cache.rs:141-148 | a successful `set` adds or overwrites exactly the canonical key, with the current hash, time and targets, and changes no other entry |
| ParseCache.SetThenGet | src/cache.rs:233-255 | `set` then `get` on unchanged content returns the stored targets |
| ParseCache.ChangedContentMisses | src/cache.rs:258-283 | after the content changes to one with a different hash, `get` misses |
| ParseCache.LookupLocal | src/cache.rs:99-111 | `get` depends only on the entry at the path's canonical key |
| ParseCache.UpsertLeavesOthers | src/cache.rs:125-149 | `set` does not change `get` for a path with another canonical key |
| ParseCache.Remove | src/cache.rs:153-157 | `invalidate` removes only the canonical key, and is a no-op when canonicalisation fails |
| ParseCache.InvalidateThenGet | src/cache.rs:153-157 | after `invalidate`, `get` misses for that path and is unchanged for paths with other keys |
| ParseCache.Pruned | src/cache.rs:167-169 | `prune` keeps exactly the entries whose path exists, unchanged |
| ParseCache.PruneIdempotent | src/cache.rs:167-169 | pruning twice is pruning once |
| ParseCache.SumTargetsPick | src/cache.rs:176 | the target total is one entry's count plus the total of the others |
| ParseCache.SumTargetsUpdate | src/cache.rs:176 | overwriting an entry changes the total by the difference of the counts |
| ParseCache.LoadedState | src/cache.rs:54-75 | `load` fails with no cache directory or an unreadable or malformed file; a missing file or another version gives a fresh cache; a decoded cache of the current version keeps its entries |
| ParseCache.Cache.constructor | src/cache.rs:36-41 | a new cache has version 1 and no entries |
| ParseCache.Cache.Load | src/cache.rs:54-75 | the loaded object holds the state `LoadedState` describes, or the same error |
| ParseCache.Cache.Get | src/cache.rs:99-111 | returns `Lookup` of the current entries |
| ParseCache.Cache.IsEntryValid | src/cache.rs:114-122 | valid iff the file reads and its hash equals the entry's |
| ParseCache.Cache.Set | src/cache.rs:125-149 | on success the entries become the upsert; on failure they are unchanged and the error is returned |
| ParseCache.Cache.Invalidate | src/cache.rs:153-157 | the entries lose exactly the path's canonical key |
| ParseCache.Cache.Clear | src/cache.rs:161-163 | the entries become empty and the version is kept |
| ParseCache.Cache.Prune | src/cache.rs:167-169 | the entries keep exactly the existing paths |
| ParseCache.Cache.Stats | src/cache.rs:173-178 | the entry count and the sum of the entries' target counts, computed by a loop over the entries |
| Driver.InitialEntries | src/main.rs:96-100 | `--no-cache` and a failed load both start from an empty cache |
| Driver.Fetch | src/main.rs:107-119 | with `--no-cache` the direct parse or its error; with the cache on, a hit returns the cached targets and changes nothing; a miss parses, a parse error becomes `ParseFailed`, a `set` error becomes `CacheSetFailed`, and otherwise the parse is returned with the updated entries; on success `stored` holds iff the cache is on and the file missed |
| Driver.Walk | src/main.rs:106-126 | the loop of `get_targets` as a value: it stops at the first failing file and, on success, holds one target list per file |
| Driver.EmptySound | src/main.rs:96-98 | an empty cache hands out nothing, so it agrees with parsing |
| Driver.UpsertKeepsSound | src/main.rs:115-116 | storing a file's parse keeps every hit equal to a direct parse |
| Driver.FetchMatchesParse | src/main.rs:107-119 | one file's targets through the cache equal a direct parse, and its errors are the parse's |
| Driver.WalkMatchesParse | src/main.rs:106-127 | the per-file results of the loop equal the direct parses of the files, in order |
| Driver.WalkNoCache | src/main.rs:107-109 | with `--no-cache` the loop never touches the cache and never marks it modified |
| Driver.WalkModified | src/main.rs:107-119 | with the cache on, a successful walk marks the cache modified exactly when some file missed the cache at its turn |
| Driver.WalkErrorSticks | src/main.rs:109-116 | once a file fails, later files do not change the outcome |
| Driver.GetTargetsMatchesParseAll | src/main.rs:89-137 | `get_targets` over discovered files returns exactly what `parse_all_makefiles` returns, fails on an empty list, and saves only with the cache on |
| Driver.GetTargetsSaveDecision | src/main.rs:128-131 | over discovered files, a save is attempted iff the run succeeds, the cache is on, and some file missed the cache |
| Driver.ForFileSaveDecision | src/main.rs:146-160 | for one file, a save is attempted iff the run succeeds with the cache on after a miss, and then the result is the fresh parse |
| Driver.ForFile | src/main.rs:141-161 | definition of `get_targets_for_file`; `ForFileMatchesParse` and `ForFileSaveDecision` state its meaning |
| Driver.GetTargetsAnswer | src/main.rs:76-138 | definition of `get_targets`; `GetTargetsMatchesParseAll`, `GetTargetsSaveDecision`, `NoCacheNeverSaves` and `ForFileMatchesParse` state its meaning |
| Driver.NoCacheNeverSaves | src/main.rs:129-132 | `--no-cache` never attempts a save |
| Driver.ForFileMatchesParse | src/main.rs:81-87 | with `--file`, a missing path fails naming it; otherwise the result equals a direct parse of that file, unsorted |
| Driver.OpenCache | src/main.rs:96-100 | the cache the run starts with holds `InitialEntries` |
| Driver.FetchInto | src/main.rs:107-119 | the method's result, cache update and stored flag are those of `Fetch` |
| Driver.GetTargetsForFile | src/main.rs:141-161 | the method returns what `ForFile` describes |
| Driver.FetchAll | src/main.rs:102-126 | on an open cache, the loop fails exactly when `Walk` fails (with the first file's error) and otherwise yields the first-wins merge of the per-file lists and whether any file was stored |
| Driver.GetTargets | src/main.rs:76-138 | `--file` dispatch, the empty-discovery error, the cache opening, the loop and the final sort together return `GetTargetsAnswer` |
| Executor.CommandLine | src/executor.rs:37-47 | the vector starts with `make` and ends with the target, and holds `-f <makefile>` in between exactly when a makefile is given |
| Executor.BuildCommand | src/executor.rs:37-47 | the pushed arguments are exactly `CommandLine` of the target and the optional makefile |
| Executor.FormatCommand | src/executor.rs:50-52 | the joined command is as long as the arguments plus one space between each pair |
| Executor.FormatCommandSplits | src/executor.rs:194-204 | the displayed command splits on spaces back into the arguments when none holds a space |
| Executor.FormatSimpleCommand | src/executor.rs:194-204 | the command for a target without a makefile displays as `make <target>` |
| Executor.ExecuteTarget | src/executor.rs:20-34 | a dry run only shows the command and never spawns; otherwise `make` is spawned, and the command is announced iff `print_cmd` is set |
| Fuzzy.SaturatingSub | src/fuzzy.rs:40 | `saturating_sub` is the difference, or 0 |
| Fuzzy.StopsRecipe | src/fuzzy.rs:46-55 | definition: a non-empty, non-indented line that is a comment or holds `:` |
| Fuzzy.ScanEnd | src/fuzzy.rs:43-58 | the first line from a position that is non-empty, non-indented and a comment or holds `:` |
| Fuzzy.DropBlankTail | src/fuzzy.rs:61-63 | the end after dropping trailing whitespace-only lines, never below the bound |
| Fuzzy.RecipeEnd | src/fuzzy.rs:40-63 | the recipe end lies after the target line and within the file; `RecipeEndSpec` characterises it |
| Fuzzy.RecipeEndSpec | src/fuzzy.rs:40-63 | the recipe ends after the target line, before any stopping line, on a non-blank line unless it is the target line alone, and only blank lines are dropped |
| Fuzzy.ScanRecipe | src/fuzzy.rs:43-58 | the forward loop ends at `ScanEnd`: the first line from the position that stops the recipe, or the end of the file |
| Fuzzy.TrimBlankTail | src/fuzzy.rs:61-63 | the backward loop ends at `DropBlankTail`: trailing whitespace-only lines dropped, never below the bound |
| Fuzzy.PreviewRange | src/fuzzy.rs:40-65 | the start is the 0-based target line, saturating at 0, and the end is `RecipeEnd`, whose meaning `RecipeEndSpec` states |
| Fuzzy.Marker | src/fuzzy.rs:88-92 | `>` exactly on the target's line number, a space elsewhere |
| Fuzzy.NumberRows | src/fuzzy.rs:86-92 | row `i` shows number `start + i + 1`, the line's text, and the marker of that number |
| Fuzzy.NumberRowsMarksTarget | src/fuzzy.rs:86-92 | when the target line is shown, exactly its row is marked |
| Fuzzy.NumberRowsNoMark | src/fuzzy.rs:86-92 | when the target line is outside the rows, none is marked |
| Fuzzy.ShownLines | src/fuzzy.rs:67-86 | joining and re-splitting with line endings gives the lines back, minus a final empty one |
| Fuzzy.HighlightedPreview | src/fuzzy.rs:33-92 | an unreadable file shows the read error; otherwise the description and the numbered rows of the recipe range |
| Fuzzy.PreviewMarksTargetLine | src/fuzzy.rs:86-92 | the preview's first row is the marked target line and no other row is marked |
| Fuzzy.Render | src/fuzzy.rs:275 | definition of the row format: marker, space, number right-aligned in four columns, ` | `, the line; `RenderNoNewline` and `Text.NatToString` state its properties |
| Fuzzy.RenderNoNewline | src/fuzzy.rs:275 | a rendered snippet row holds no line break |
| Fuzzy.SnippetLines | src/fuzzy.rs:262-279 | the snippet has `end - start` lines |
| Fuzzy.TargetSnippet | src/fuzzy.rs:262-279 | the snippet fails iff the file cannot be read; otherwise it is the window's rendered rows joined by newlines, whose count, numbering and marker `SnippetWindow` and `SnippetLineCount` state |
| Fuzzy.SnippetWindow | src/fuzzy.rs:266-276 | the window spans at most `2*ctx+1` lines, numbers them from `start + 1`, and marks exactly the target line |
| Fuzzy.SnippetLineCount | src/fuzzy.rs:266-279 | the joined snippet splits back into its `end - start` rendered lines |
| Fuzzy.FindByName | src/fuzzy.rs:177 | `find` by name returns the first target with the name, or None iff no target has it |
| Fuzzy.SelectionKey | src/fuzzy.rs:171-174 | the first word of the selection, or the whole text when it is all whitespace |
| Fuzzy.SelectTarget | src/fuzzy.rs:129-185 | None for an empty list or no pick; when the selection's first word names a target, the first target with that name; None when no target has that name |
| Fuzzy.NameMap | src/fuzzy.rs:194-195 | the map's keys are exactly the targets' names |
| Fuzzy.NameMapHolds | src/fuzzy.rs:194-195 | each entry of the map is a target of the list under its own name |
| Fuzzy.NameMapLastWins | src/fuzzy.rs:194-195 | `collect` into the map keeps the last target with each name: a target no later target shares its name with is the map's value for that name |
| Fuzzy.NameMapDistinct | src/fuzzy.rs:194-195 | with distinct names the map sends each name to its target |
| Fuzzy.SelectWithPreview | src/fuzzy.rs:188-258 | None for an empty list or no pick; otherwise a target is returned iff the selected text is a name of the list, and it is the map's target under that name |
| Fuzzy.SelectorsAgree | src/fuzzy.rs:129-258 | with distinct names, picking a name without whitespace gives the same target from both selectors |

## Left out

- `find_makefiles` is not modelled: the discovered Makefiles are an input list. Neither is the directory walk.
- File reads, `canonicalize`, `Path::exists` and file metadata are fields of the `FileSystem` value; nothing touches a real disk.
- Rust's `str::lines` is not modelled: a file's content is already its list of lines.
- `compute_hash` (SHA-256) is the parameter `hash`. `ParseCache.ChangedContentMisses` needs the two contents' hashes to differ, which the model cannot derive from a content change.
- The hash is taken over a file's content as a list of lines, while `compute_hash` (src/cache.rs:190-194) hashes the raw text. So a change only to line endings or to the trailing newline makes the source miss, reparse, `set` and save, while in the model the entry stays valid and nothing is saved.
- `Cache::save`, `cache_dir`, `cache_file_path`, `clear_cache` and the JSON encoding are not modelled; `load` becomes the version check over an already-read `Stored` outcome.
- Whitespace means ASCII whitespace, and lines are taken to be ASCII. That makes the byte offsets of `find` and the character positions of `chars().nth` agree.
- The regex crate is not modelled: the rule-head pattern and the `%` test are written out as character predicates.
- `parse_makefile_content` can fail only when a constant regex fails to compile, so it is modelled as total.
- Makefile.ParseFile: a read failure is the only error; the message text is not modelled.
- Driver.GetTargetsMatchesParseAll: the result equals a direct parse only when every cache hit agrees with parsing the file under the current options. That is the predicate `Sound`, which is a precondition rather than a proof. The cache key is the canonical path alone, without the parse options or the cached targets' own file path. The lemma also needs distinct paths to canonicalise to distinct keys.
- Driver.GetTargetsMatchesParseAll: with the cache on, every file must canonicalise. Otherwise `get` misses, the parse succeeds, `set` fails, and `get_targets` returns that error even though the file was readable. `Driver.Fetch` models this failure, and the lemma excludes it.
- Driver.ForFileMatchesParse: with `--file`, the single file's targets come back in file order, unsorted, as the code does (no merge or sort).
- main.rs reads a `no_cache` flag and sets a `variables` field that the cli.rs and executor.rs files do not declare; the flag is a parameter and the variables are not modelled.
- The skim picker, syntect highlighting, ANSI colour codes, screen clearing and the `│` box character of the preview are not modelled; a preview is a description plus numbered rows.
- Fuzzy.HighlightedPreview: requires the target's line to lie within the file, where the source would panic on the slice.
- Fuzzy.TargetSnippet: requires `start <= len`, where the source would panic on the slice.
- Fuzzy.SelectTarget and Fuzzy.SelectWithPreview: the user's choice is a parameter (`None` for an abort); the interactive session is not modelled.
- `run_make_command`, `check_make_available`, `get_make_version` and `execute_target_capture` spawn processes and are not modelled. `Executor.ExecuteTarget` ends where `make` would be spawned.
- `handle_list`, `handle_pick`, `handle_run`, the prompts of prompt.rs and the clap definitions of cli.rs are UI or printing and are not modelled.
- Required-variable inference is not implemented by the parser (it always builds targets with `Target::new`), so it is not modelled.
