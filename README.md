# repren, modelled in Dafny

`develop/repren.py` is a vendored copy of *repren*, a multi-pattern search
and replace tool that rewrites file contents and renames files. The rest of
the repository is a NetBox plugin built on Django and is not modelled. This
project models repren's engine:

- **Pattern rules.** `parse_patterns` reads the pattern file. Each line is a
  comment, or a search/replacement pair separated by a tab. With case
  preservation, each pair also yields its four case variants. The rules of
  each line are sorted and deduplicated. The result is modelled in `Patterns`.
- **Simultaneous replacement.** `multi_replace` collects the matches of every
  rule, rule by rule. `_sort_drop_overlaps` keeps a list of accepted matches
  sorted by start, using `bisect`, and drops a match that overlaps its left
  or right neighbour. `_apply_replacements` then splices the replacements
  into the input. These are modelled in `Replace`, `Matches` and `Apply`.
  `MultiReplace` and the file operations built on it use this resolver as
  written. Zero-width matches defeat it (first finding), so a corrected
  resolver sits beside it, together with `MultiReplaceFixed`, which uses it.
  The two agree whenever no search text is empty (`Replace.ReplacedAgree`).
- **Case transcoding.** `_split_name` splits an identifier on `_` or at
  camel-case boundaries. The four renderers and `_transform_expr` rebuild
  names in lower/upper camel and lower/upper underscore style. Modelled in
  `Casing`.
- **File rewriting.** The model covers `move_file` and its collision-avoiding
  `.N` suffixes, `transform_stream`, and `transform_file`. For
  `transform_file` this means the temp file, the backup, the commit-or-discard
  decision and the run tally. The file system is a map from existing paths to
  their contents. Modelled in `Paths`, `Files` and `Counters`.
  `TransformStream`, `RewriteContents` and `TransformFile` behave as written.
  In whole-file mode they return zero counts, and the temp file is not
  truncated. `TransformStreamFixed`, `RewriteContentsFixed` and
  `TransformFileFixed` carry the corrections of the findings.

Strings are byte strings (`seq` of bytes in 0..255). Search patterns are
literal: a rule matches its search bytes exactly, as with `re.escape`.
Replacements are literal byte strings.

The operations that work step by step are methods with loops, proved equal to
a specification function. This covers `_sort_drop_overlaps`,
`_apply_replacements`, `finditer`, the `multi_replace` pooling loop, the
per-line loop of `transform_stream`, the `move_file` collision loop and the
`parse_patterns` loop. The tally and match-count objects are classes whose
methods update their fields. The file system is a class with a `files` map.
The expression-only parts are functions: `_overlap`, `_split_name` and the
renderers.

## Model

| member | source | states |
|---|---|---|
| Matches.InsertPos | develop/repren.py:61 | the insertion index: every accepted match before it sorts before the candidate, and the match at the index does not |
| Matches.BisectLeft | develop/repren.py:61 | `bisect_left` on a sorted list: every entry before the result is smaller than the key, and every entry from it on is at least the key |
| Matches.SortDropOverlaps | develop/repren.py:56-76 | the loop as written, with `starts` kept beside the accepted list, returns the as-written resolver's result; that result is sorted by start and a sub-multiset of the pool |
| Matches.BisectLeftKeys | develop/repren.py:61 | `bisect_left` on the sorted (start, end) keys of the corrected resolver |
| Matches.SortDropOverlapsFixed | develop/repren.py:56-76 | the corrected loop, which bisects on (start, end), returns the corrected resolver's result |
| Matches.InsertPosUnique | develop/repren.py:61 | the index `bisect_left` finds in `starts` is the insertion index of the specification |
| Matches.StepSorted | develop/repren.py:61-75 | one insertion keeps the accepted list sorted by start |
| Matches.DropOverlapsSorted | develop/repren.py:56-76 | the result of `_sort_drop_overlaps` is sorted by start offset, for any pool |
| Matches.DropOverlapsFromPool | develop/repren.py:56-76 | every accepted match comes from the pool, as a sub-multiset, so there are never more accepted matches than candidates |
| Matches.AcceptedStay | develop/repren.py:60-75 | a match, once accepted, is never displaced: what a prefix of the pool accepts is kept in the final result |
| Matches.NeighbourBounds | develop/repren.py:62-73 | a candidate that passes both neighbour checks ends before the right neighbour starts and starts after the left neighbour ends |
| Matches.AcceptsIffNoOverlap | develop/repren.py:52-75 | the two neighbour checks accept a candidate if and only if it overlaps no accepted match under `_overlap`, when no candidate is zero-width or under the corrected ordering |
| Matches.AcceptedClear | develop/repren.py:60-75 | a candidate that passes the two neighbour checks overlaps no accepted match at all, near or far, when no candidate is zero-width or under the corrected ordering |
| Matches.StepSeparated | develop/repren.py:60-75 | one step keeps every accepted match ending before the next one starts |
| Matches.ResolveSeparated | develop/repren.py:56-76 | every accepted match ends before the next one starts: always for the corrected resolver, and for the code as written when no candidate is zero-width |
| Matches.SeparatedDisjoint | develop/repren.py:52-53 | a separated list is pairwise non-overlapping under `_overlap` |
| Matches.DropOverlapsDisjoint | develop/repren.py:52-76 | as written, with no zero-width candidate: the result is sorted by start and pairwise non-overlapping |
| Matches.DropOverlapsFixedDisjoint | develop/repren.py:52-76 | corrected: for every pool of well-formed spans, the result is sorted by start, separated and pairwise non-overlapping |
| Matches.DropOverlapsAgree | develop/repren.py:56-76 | when no candidate is zero-width, the corrected resolver returns exactly what the code as written returns |
| Matches.EarlierWins | develop/repren.py:60-75 | when an accepted match overlaps a later candidate, the earlier one stays in the result and the later one is dropped |
| Matches.ZeroWidthBreaksDisjointness | develop/repren.py:61-75 | as written, the pool (3,3), (4,4), (3,5) yields (3,5), (3,3), (4,4), whose first and last overlap; the corrected resolver yields (3,3), (4,4) |
| Apply.ApplyReplacements | develop/repren.py:79-87 | the loop returns the specification `Applied(input, matches)` |
| Apply.AppliedNoMatches | develop/repren.py:79-87 | with no matches the input comes back unchanged |
| Apply.AppliedIdentity | develop/repren.py:79-87 | sorted, disjoint matches whose replacements equal the text they cover leave the input unchanged |
| Apply.AppliedLength | develop/repren.py:79-87 | the output length is the input length, minus the matched lengths, plus the replacement lengths |
| Apply.AppliedEnds | develop/repren.py:79-87 | the bytes before the first match start the output and the bytes after the last match end it, both verbatim |
| Apply.AppliedOne | develop/repren.py:79-87 | one match: prefix, replacement, suffix |
| Apply.ZeroWidthDuplicatesBytes | develop/repren.py:79-87 | the out-of-order result of the as-written resolver makes `xxxab` come out as `xxxabab`; the corrected order returns `xxxab` |
| Replace.FindIter | develop/repren.py:109 | `finditer` for a literal rule returns the scan specification: leftmost occurrences, resuming after each one |
| Replace.ScanGenuine | develop/repren.py:109 | every match found is an occurrence of the rule's search bytes, tagged with its rule index and replacement |
| Replace.ScanSeparated | develop/repren.py:109 | the matches of one rule are increasing and non-overlapping |
| Replace.ScanCovers | develop/repren.py:109 | every offset where a non-empty search text occurs lies inside some match found, so no occurrence is skipped unless an earlier match covers it |
| Replace.PoolMatches | develop/repren.py:107-110 | the pooling loop returns all rules' matches, rule by rule |
| Replace.PoolIsGenuine | develop/repren.py:107-110 | every pooled match is a real occurrence of its own rule's search text |
| Replace.PoolIsOrdered | develop/repren.py:107-110 | the pool is ordered by rule index, and within one rule each match ends before the next starts; every rule index is in range |
| Replace.PoolWellFormed | develop/repren.py:107-110 | every pooled span has start <= end, as the overlap resolver needs |
| Replace.MultiReplace | develop/repren.py:100-120 | the result is the matches accepted by `_sort_drop_overlaps` as written, spliced into the input. `found` is the pool size and `valid` the number accepted. The tally's chars, matches and valid matches grow by the input length, `found` and `valid`, and only when the input is not a path. The per-file counters are untouched |
| Replace.MultiReplaceFixed | develop/repren.py:100-120 | the same driver with the corrected resolver: the result is the corrected resolver's matches spliced into the input, with the same counts and tally updates |
| Replace.ValidAtMostFound | develop/repren.py:111-120 | `valid <= found`, with either resolver |
| Replace.PoolNonEmpty | develop/repren.py:107-110 | when no search text is empty, every pooled match has width |
| Replace.ReplacedAgree | develop/repren.py:100-112 | when no search text is empty, the resolver as written and the corrected one accept the same matches, so `multi_replace` returns the same bytes either way |
| Replace.ResolvedSeparated | develop/repren.py:111-112 | the matches handed to `_apply_replacements` lie within the input, sorted and pairwise disjoint. This holds always for the corrected resolver, and for the resolver as written when no search text is empty |
| Replace.ReplacedIdentity | develop/repren.py:100-112 | rules whose replacement equals their search text leave every input unchanged. This holds always for the corrected resolver, and for the resolver as written when no search text is empty |
| Replace.ReplacedNoOccurrence | develop/repren.py:100-112 | when no rule occurs in the input, nothing is found and the input comes back unchanged, with either resolver |
| Replace.SwapExample | develop/repren.py:101-105 | as written, `{xxx -> yyy, yyy -> xxx}` turns `xxx yyy` into `yyy xxx`: replacements apply simultaneously |
| Replace.EmptySearchExample | develop/repren.py:100-112 | as written, the rules `"" -> ""` and `ab -> ab` turn `ab` into `abab`. The first rule stands for a regex that matches the empty string, such as `x*` on text without `x`, with an empty replacement. A pattern line gives an empty search only with a non-empty replacement, as `\tz` does. The resolver orders such matches the same way, since it looks only at their spans, although every match is replaced by itself. The corrected resolver returns `ab` |
| Counters.Tally.constructor | develop/repren.py:36-44 | a fresh tally has all seven counters at zero |
| Counters.Tally.AddScanned | develop/repren.py:114-118 | chars, matches and valid matches grow by the given amounts, and nothing else changes |
| Counters.Tally.CountFile | develop/repren.py:253-268 | `files` grows for a transformed or renamed file, `files_rewritten` for a rewrite, `renames` for a rename, `files_changed` for either of the last two, and the match counters stay put |
| Counters.MatchCounts.constructor | develop/repren.py:91-93 | the counts hold the given found and valid values |
| Counters.MatchCounts.Add | develop/repren.py:95-97 | found and valid grow by the other counts' found and valid, and `valid <= found` is kept |
| Casing.SplitNameUnderscore | develop/repren.py:136-137 | a name with `_` splits into exactly `name.split("_")`, with empty words kept. No word contains `_`, and joining the words with `_` rebuilds the name |
| Casing.SplitNameCamel | develop/repren.py:138-141 | a name without `_` or tab has an empty separator, its words concatenate back to the name, and no word holds a tab |
| Casing.Pass1Rises | develop/repren.py:128-139 | the first substitution puts a tab at every boundary from a non-capital to a capital |
| Casing.Pass2AcronymEnds | develop/repren.py:129-140 | the second substitution puts a tab before the last capital of a run of capitals followed by a non-capital |
| Casing.SplitNameCamelWords | develop/repren.py:126-141 | a name written as camel-case words splits back into exactly those words |
| Casing.SplitNameAcronyms | develop/repren.py:126-141 | `XMLFooHTTPBar` splits into `XML`, `Foo`, `HTTP`, `Bar` |
| Casing.SplitNameUnderscores | develop/repren.py:134-137 | `foo_bar` splits into `foo`, `bar`, and `foo__bar` keeps the empty word between them |
| Casing.CapitalizeAllFails | develop/repren.py:144-156 | capitalising a word list fails exactly when some word is empty; otherwise it is the concatenation of the capitalised words |
| Casing.ToUpperCamelFails | develop/repren.py:154-156 | `to_upper_camel` raises exactly when some word of the name is empty |
| Casing.ToLowerCamelFails | develop/repren.py:149-151 | `to_lower_camel` raises exactly when some word after the first is empty |
| Casing.JoinLowerEach | develop/repren.py:159-161 | lowering each word and joining with `_` equals lowering the joined name |
| Casing.JoinUpperEach | develop/repren.py:164-166 | raising each word and joining with `_` equals raising the joined name |
| Casing.UnderscoreStyles | develop/repren.py:159-166 | for a name containing `_`, the underscore renderers lower-case or upper-case the whole name |
| Casing.CapitalizeSnake | develop/repren.py:144-146 | capitalising a lower-case word gives a capitalised word that lowers back to the original |
| Casing.SplitNameSnake | develop/repren.py:134-137 | a snake-case name splits back into its words, when every word is `SnakeWord`: at least two bytes, a lower-case letter first, and no capital, `_` or tab after it |
| Casing.UpperCamelRoundTrip | develop/repren.py:149-161 | for a snake-case name whose words are all `SnakeWord` (two or more bytes, lower-case first letter), `to_upper_camel` concatenates the capitalised words, and `to_lower_underscore` maps that back to the name |
| Casing.LowerCamelWords | develop/repren.py:134-151 | the lower-camel form of a snake-case name splits into its first word followed by the capitalised rest |
| Casing.LowerCamelRoundTrip | develop/repren.py:149-161 | for a snake-case name whose words are all `SnakeWord` (two or more bytes, lower-case first letter), `to_lower_camel` keeps the first word and capitalises the rest, and `to_lower_underscore` maps that back to the name |
| Casing.SingleLetterRoundTripFails | develop/repren.py:129-161 | outside `SnakeWord` the round trip fails: `to_upper_camel(a_b)` is `AB`, which `_split_name` keeps as one word, so `to_lower_underscore` gives `ab` |
| Casing.WordRun | develop/repren.py:131 | the length of the `\w+` run at the front: all word bytes, followed by a non-word byte or the end |
| Casing.TransformExprAppend | develop/repren.py:169-170 | `_transform_expr` distributes over concatenation at a boundary that no word run crosses, failing if either part fails |
| Casing.TransformExprNoWords | develop/repren.py:169-170 | text without word bytes is returned unchanged |
| Casing.TransformExprWord | develop/repren.py:169-170 | a single word is rendered by the chosen renderer |
| Casing.TransformExprUnderscore | develop/repren.py:159-170 | the two underscore styles never fail |
| Casing.AllCaseVariantsOrder | develop/repren.py:173-177 | `all_case_variants` succeeds exactly when both camel renderings succeed. It then returns exactly four results, in the fixed order lower camel, upper camel, lower underscore, upper underscore |
| Paths.NatToString | develop/repren.py:198 | `"%s" % i` is a non-empty run of decimal digits |
| Paths.DecimalRoundTrip | develop/repren.py:198 | the digits written for `i` read back as `i` |
| Paths.LastDot | develop/repren.py:192 | the position of the last `.`, or none when there is no `.` |
| Paths.StripNumbered | develop/repren.py:192-197 | stripping a name that ends in `.N` removes exactly `.N` |
| Paths.AttemptStem | develop/repren.py:192-198 | the i-th retry is the stripped destination followed by `.i` |
| Paths.AttemptsDistinct | develop/repren.py:193-199 | retries never repeat a name |
| Paths.RetryBound | develop/repren.py:193-199 | if the first n+1 names tried are all taken then n is at most the number of taken paths, so the loop ends |
| Paths.FirstFreeUnique | develop/repren.py:193-199 | the number of collisions, and so the chosen name, is determined by the set of taken paths |
| Paths.CollisionRaises | develop/repren.py:192-195 | moving `a` onto an existing `a`: as written the `str` pattern meets a `bytes` path and raises, while the intended loop settles on `a.1` |
| Files.FreeName | develop/repren.py:191-199 | the loop ends on a name that is not taken. It keeps the destination when that is free, and in general returns the first free retry |
| Files.Moved | develop/repren.py:200 | `shutil.move`: the target holds the source's contents, the source is gone, and every other path is unchanged |
| Files.FileSystem.MoveFile | develop/repren.py:190-200 | with clobber, the source moves onto the destination; without clobber, it moves onto the first free retry (the intended loop, see Left out) |
| Files.FileSystem.Remove | develop/repren.py:248-251 | `os.remove` deletes exactly that path |
| Files.LineEnd | develop/repren.py:206 | one line of a binary stream ends at the first newline, or at the end of the input |
| Files.LinesConcat | develop/repren.py:206 | the lines of a stream concatenate back to its contents |
| Files.LinesShape | develop/repren.py:206 | each line is non-empty, holds no newline before its last byte, and every line but the last ends in a newline |
| Files.ReplaceEachLine | develop/repren.py:205-212 | the output is every line replaced on its own and concatenated, with `multi_replace` as written or with the corrected resolver. The counts sum the per-line counts, and the tally grows by each line's length and counts |
| Files.TransformStream | develop/repren.py:203-217 | as written, with `multi_replace` as written: the output is the replaced stream. The counts are the per-line sums in by-line mode and zero in whole-file mode, while the tally still receives the whole-file counts |
| Files.TransformStreamFixed | develop/repren.py:203-217 | corrected: the stream replaced with the corrected resolver, with counts equal to what was found and accepted in either mode |
| Files.ValidInAtMostFound | develop/repren.py:205-209 | over the lines, valid matches never exceed found ones |
| Files.ScannedValidAtMostFound | develop/repren.py:203-217 | over a stream in either mode, valid matches never exceed found ones |
| Files.NoMatchUnchanged | develop/repren.py:100-112 | with no matches found, `multi_replace` returns its input, with either resolver |
| Files.ReplacedLinesUnchanged | develop/repren.py:205-212 | with no match on any line, the by-line output is the input, with either resolver |
| Files.FoundNothingUnchanged | develop/repren.py:203-217 | when nothing is found, the stream output equals the input, so discarding it on line 251 loses nothing |
| Files.WholeFileEditsDropped | develop/repren.py:213-244 | as written, a whole-file rewrite in place that changes the contents returns zero counts, so the output is discarded; with the counts kept it is committed |
| Files.WholeFileExample | develop/repren.py:213-244 | a file `foo` with the rule `foo -> bar`: the output is `bar` and one match is found, but the counts are zero and nothing is committed |
| Files.WrittenOver | develop/repren.py:239 | writing through `os.open` with `O_WRONLY` and `O_CREAT` but no `O_TRUNC` leaves the output as a prefix of the file |
| Files.StaleTempTail | develop/repren.py:239 | a stale temp file longer than the output keeps its tail after the output |
| Files.SuffixesDiffer | develop/repren.py:232-233 | the backup path of a source and the temp path of any destination are never the same |
| Files.CommittedFacts | develop/repren.py:244-248 | after a commit the destination name holds the output and the temp file is gone. The backup holds the original unless `clean`. A renamed source is gone, and every other file is unchanged |
| Files.InPlaceKeepsName | develop/repren.py:244-246 | in an in-place rewrite the output returns to the source's own name, because the source has just moved to its backup |
| Files.FileSystem.Commit | develop/repren.py:245-248 | the source moves to its backup with clobber, the temp file moves to the first free retry of the destination (the intended loop, see Left out), and the backup is removed when `clean` |
| Files.FileSystem.RewriteContents | develop/repren.py:231-259 | with a transform, as written: the counts are what `transform_stream` returns, so zero in whole-file mode, while the tally receives what the scan finds and accepts. The temp file holds the output written over any stale temp file. It is committed exactly when not dry-run and (renamed or something found), and removed otherwise. The tally moves as `transform_file` moves it |
| Files.FileSystem.RewriteContentsFixed | develop/repren.py:231-259 | corrected: the counts are what the scan finds and accepts in either mode. The temp file holds exactly the output of the corrected resolver. The commit decision and the tally are as written |
| Files.FileSystem.RenameOnly | develop/repren.py:260-268 | without a transform, a differing destination is a rename to the first free retry unless dry-run. It counts as a handled, renamed and changed file |
| Files.FileSystem.TransformFile | develop/repren.py:220-270 | as written: with a transform, the temp file gets the output over any stale contents and is committed exactly when not dry-run and (renamed or something found); otherwise it is removed. The counts are zero in whole-file mode. Without a transform, a rename moves the file unless dry-run. `files` counts every handled file, `files_rewritten` iff found > 0, `renames` iff renamed, `files_changed` iff either |
| Files.FileSystem.TransformFileFixed | develop/repren.py:220-270 | corrected: the same decisions and tally, with the whole-file counts kept, the corrected resolver and a temp file holding exactly the output |
| Patterns.BreakAt | develop/repren.py:321 | the first line break (`\n` or `\r`), or the end of the text |
| Patterns.SplitLinesNoBreaks | develop/repren.py:321 | no line `splitlines` returns holds a line break |
| Patterns.SplitLinesUnix | develop/repren.py:321 | for text with `\n` line ends only, `splitlines` of newline-terminated text is a split on `\n` |
| Patterns.SplitLinesUnterminated | develop/repren.py:321 | the same for text whose last line has no newline |
| Patterns.SplitLinesJoin | develop/repren.py:321 | joining the lines with `\n` gives the text back |
| Patterns.ClassifyPair | develop/repren.py:324-328 | a pair line is its search text, a tab and its replacement, neither holding a tab |
| Patterns.PairLine | develop/repren.py:324-328 | conversely, a tab-free search and replacement, not blank and not a comment once stripped, form a pair line |
| Patterns.BytesLessIrreflexive | develop/repren.py:336 | byte-string order, as `sorted` compares `bytes`, is irreflexive |
| Patterns.BytesLessTransitive | develop/repren.py:336 | byte-string order is transitive |
| Patterns.BytesLessTotal | develop/repren.py:336 | any two distinct byte strings are ordered |
| Patterns.RuleLessIrreflexive | develop/repren.py:336 | pair order (search, then replacement) is irreflexive |
| Patterns.RuleLessTransitive | develop/repren.py:336 | pair order is transitive |
| Patterns.RuleLessTotal | develop/repren.py:336 | any two distinct pairs are ordered |
| Patterns.Insert | develop/repren.py:336 | inserting a pair adds exactly that element |
| Patterns.InsertSorted | develop/repren.py:336 | inserting into a strictly sorted list keeps it strictly sorted |
| Patterns.SortedSet | develop/repren.py:336 | `sorted(set(pairs))` is strictly increasing, so free of duplicates, and holds exactly the elements of `pairs` |
| Patterns.SortedUnique | develop/repren.py:336 | two strictly sorted lists with the same elements are equal, so `sorted(set(...))` depends only on the set |
| Patterns.Zip | develop/repren.py:333 | `zip` has the shorter length and pairs the k-th elements |
| Patterns.LineRulesPlain | develop/repren.py:331-336 | without case preservation a pair line yields exactly its own rule |
| Patterns.ZipListing | develop/repren.py:333-336 | the sorted set of zipped pairs plus one more holds that one and every zipped pair, and nothing else |
| Patterns.LineRulesDefined | develop/repren.py:332-333 | with case preservation a pair line parses exactly when both camel renderings of both fields succeed |
| Patterns.LineRulesVariants | develop/repren.py:331-336 | with case preservation, a pair line's rules are strictly sorted. They contain the line's own rule and the rule of each of the four styles, and nothing else |
| Patterns.FailureStays | develop/repren.py:341-344 | once a line fails, the parse result is that failure, because `fail` exits |
| Patterns.ParsePatterns | develop/repren.py:318-345 | the loop returns the parse specification of `splitlines(text)`: the first failing line stops it, and otherwise each pair line's rules are appended in order |
| Patterns.ParsedFailsIff | develop/repren.py:321-345 | the parse fails if and only if some line fails, and then it reports the first failing line |
| Patterns.ParsedPlain | develop/repren.py:321-340 | without case preservation the rules are the pair lines' own rules, in file order |
| Patterns.ParsedKeepsPairs | develop/repren.py:321-340 | every pair line's own rule appears in a successful parse |
| Patterns.BlankLineFails | develop/repren.py:325-342 | a blank line is neither a comment nor a pair, so it fails the parse |

## Left out

- Regular expressions are not modelled. A rule's search text is matched literally, as in `re.escape` mode, and replacements are literal bytes. General regexes, `IGNORECASE`, `DOTALL`, the `\b` wrapping of word-break mode, `re.compile` errors and `match.expand` back-references are left out.
- `re.escape` itself is not modelled: the escaped pattern matches exactly the original bytes, and the model uses those bytes.
- Case handling is ASCII only: `_capitalize` decodes to text and uses Unicode case mapping, which the model does not follow for non-ASCII bytes.
- The real file system is not modelled: directories, `make_parent_dirs` (including the directory it creates in dry-run mode), permission bits from `os.stat`, and I/O errors. Files are a map from path to contents.
- `log` and `fail` output, `rewrite_file`, `rewrite_files`, `walk_files` and the `__main__` driver are I/O and orchestration and are not part of this model. `multi_replace` with `is_path` covers how `rewrite_file` computes the renamed path.
- The skipped-overlap messages of `_sort_drop_overlaps` are not modelled.
- `transform_stream`'s branches for a missing transform are left out: `transform_file` only calls it with a transform.
- The global `_tally` is a `Tally` object passed to the operations that update it.
- Python integers are unbounded, like Dafny's, so no width is modelled.
- Files.FileSystem.TransformFile: requires the source to exist, because `os.stat` raises otherwise. It also requires the source not to be the destination's temp path, a case where opening the temp file would clobber the source.
- Files.FileSystem.MoveFile: requires the source to exist; `shutil.move` raises otherwise. Without clobber, it moves to the first free retry name (Files.FreeName), the loop's evident intent. Under Python 3 the code as written raises `TypeError` at the first collision (fourth finding), and the model does not raise.
- Files.FileSystem.Commit: the temp file moves to the first free retry of the destination. As written, the move raises `TypeError` when the destination exists (fourth finding). The same holds for Files.FileSystem.RewriteContents, Files.FileSystem.RenameOnly and Files.FileSystem.TransformFile, which move through it.
- Files.FileSystem.TransformFileFixed: has the same requirements as Files.FileSystem.TransformFile.
- Files.FileSystem.RenameOnly: requires the source to exist when it is moved; `shutil.move` raises otherwise.
- Files.FileSystem.Remove: requires the path to exist; `os.remove` raises otherwise.
- Matches.SortDropOverlapsFixed: requires every candidate to satisfy start <= end. Every `finditer` match does (Replace.PoolWellFormed), but an arbitrary candidate list might not.
- Matches.DropOverlapsDisjoint: proves disjointness for the code as written only without zero-width candidates; with them it fails (first finding).
- Files.FreeName: models the loop `move_file` evidently intends, with byte-string paths. Under Python 3 the code as written raises on the first collision (fourth finding; Paths.CollisionRaises).
- Two behaviours of the code differ from repren's documented behaviour, and the model follows the code. First, blank pattern lines are fatal (`line.strip()` is empty, so the line is neither a comment nor a pair) rather than skipped. Second, the backup move uses `clobber=True` (`develop/repren.py:245`), so a second rewrite overwrites `name.orig` rather than creating `name.orig.1`.
- The whole-file default loses its edits (second finding), so the documented example of `foo foo baz` with `foo -> bar` leaves the file unchanged when run in place as written. Files.WholeFileExample shows this on `foo`.

## Findings

| source | as written | input that shows it | evidently intended | confidence | as-written member | corrected member |
|---|---|---|---|---|---|---|
| develop/repren.py:61-75 | the insertion point is `bisect_left` on start offsets only, and only the two neighbours are checked | candidates (3,3), (4,4), (3,5), e.g. zero-width matches of a regex like `x*` or of an empty search field, then a match of `ab` in `xxxab`: the result is (3,5), (3,3), (4,4), whose ends overlap, and `xxxab` becomes `xxxabab`. In the driver, the rules `"" -> ""` and `ab -> ab` turn `ab` into `abab` (Replace.EmptySearchExample) | accepted matches pairwise disjoint and in text order; bisecting on (start, end) does this | not executed | Matches.ZeroWidthBreaksDisjointness | Matches.SortDropOverlapsFixed |
| develop/repren.py:213-217 | whole-file mode never adds `new_counts` to `counts`, so it returns zero found | a file `foo`, the rule `foo -> bar`, in-place rewrite in the default whole-file mode: zero found, so the output is discarded | counts returned in both modes, so the rewrite is committed | not executed | Files.WholeFileEditsDropped | Files.TransformStreamFixed |
| develop/repren.py:239 | the temp file is opened without `O_TRUNC` | a stale `dest.repren.tmp` longer than the new output, left by an interrupted run: its tail survives after the output | the temp file holds exactly the output | not executed | Files.StaleTempTail | Files.FileSystem.TransformFileFixed |
| develop/repren.py:192-195 | a `str` pattern is matched against a `bytes` path | renaming onto an existing path, e.g. `a` onto `a`, with `clobber=False`: `TypeError` under Python 3 | the numbered retries `a.1`, `a.2`, … | not executed | Paths.CollisionRaises | Files.FreeName |
