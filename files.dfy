/**
 * File handling: `move_file`, `transform_stream` and `transform_file` over a
 * file system reduced to a map from existing paths to their contents.
 * Directories, permission bits and the parent-directory creation of
 * `make_parent_dirs` are not part of this model.
 */
module Files {
  import opened ByteStrings
  import opened Wrappers
  import opened Paths
  import opened Matches
  import opened Apply
  import opened Counters
  import opened Replace

  /** `BACKUP_SUFFIX`: `.orig` */
  const BACKUP_SUFFIX: Bytes := [46, 111, 114, 105, 103]

  /** `TEMP_SUFFIX`: `.repren.tmp` */
  const TEMP_SUFFIX: Bytes := [46, 114, 101, 112, 114, 101, 110, 46, 116, 109, 112]

  /** `shutil.move(source, target)`: the contents now live at `target`, replacing what was there. */
  function Moved(files: map<Path, Bytes>, source: Path, target: Path): (r: map<Path, Bytes>)
    requires source in files
    ensures target in r && r[target] == files[source]
    ensures source != target ==> source !in r
    ensures forall p :: p != source && p != target ==> (p in r <==> p in files)
    ensures forall p :: p != source && p != target && p in files ==> r[p] == files[p]
  {
    (files - {source})[target := files[source]]
  }

  // ---------------------------------------------------------------------------
  // Streams.

  /** Length of the first line of `s`: up to and including the first `\n`, or all of `s`. */
  function LineEnd(s: Bytes): (n: nat)
    requires s != []
    ensures 1 <= n <= |s|
    ensures forall i :: 0 <= i < n - 1 ==> s[i] != NEWLINE
    ensures n < |s| ==> s[n - 1] == NEWLINE
  {
    if s[0] == NEWLINE || |s| == 1 then 1 else 1 + LineEnd(s[1..])
  }

  /** The lines `for line in stream_in` yields from a file opened in binary mode. */
  function Lines(s: Bytes): seq<Bytes>
    decreases |s|
  {
    if s == [] then [] else [s[..LineEnd(s)]] + Lines(s[LineEnd(s)..])
  }

  /** The lines put back together are the file. */
  lemma {:induction false} LinesConcat(s: Bytes)
    ensures Concat(Lines(s)) == s
    decreases |s|
  {
    if s != [] {
      var n := LineEnd(s);
      assert Lines(s) == [s[..n]] + Lines(s[n..]);
      LinesConcat(s[n..]);
      ConcatSplice(s, n, Lines(s[n..]));
    }
  }

  lemma ConcatSplice(s: Bytes, n: nat, rest: seq<Bytes>)
    requires n <= |s| && Concat(rest) == s[n..]
    ensures Concat([s[..n]] + rest) == s
  {
  }

  /** Every line is non-empty, has no `\n` before its last byte, and all but the last end with one. */
  lemma {:induction false} LinesShape(s: Bytes)
    ensures forall k :: 0 <= k < |Lines(s)| ==> Lines(s)[k] != []
    ensures forall k, i :: 0 <= k < |Lines(s)| && 0 <= i < |Lines(s)[k]| - 1 ==> Lines(s)[k][i] != NEWLINE
    ensures forall k :: 0 <= k < |Lines(s)| - 1 ==> Lines(s)[k][|Lines(s)[k]| - 1] == NEWLINE
    decreases |s|
  {
    if s != [] {
      var n := LineEnd(s);
      var rest := Lines(s[n..]);
      LinesShape(s[n..]);
      var ls := Lines(s);
      assert ls == [s[..n]] + rest;
      assert |rest| > 0 ==> n < |s|;
    }
  }

  /** The output of the by-line loop: each line replaced on its own, with the resolver `byEnd` selects. */
  function ReplacedLines(lines: seq<Bytes>, rules: seq<Rule>, byEnd: bool): Bytes
  {
    if lines == [] then []
    else ReplacedLines(lines[..|lines| - 1], rules, byEnd) + Replaced(lines[|lines| - 1], rules, byEnd)
  }

  /** Matches found over the lines, each line scanned on its own. */
  function FoundIn(lines: seq<Bytes>, rules: seq<Rule>): nat
  {
    if lines == [] then 0
    else FoundIn(lines[..|lines| - 1], rules) + |Pool(lines[|lines| - 1], rules)|
  }

  /** Matches accepted over the lines. */
  function ValidIn(lines: seq<Bytes>, rules: seq<Rule>, byEnd: bool): nat
  {
    if lines == [] then 0
    else ValidIn(lines[..|lines| - 1], rules, byEnd) + |Resolve(Pool(lines[|lines| - 1], rules), byEnd)|
  }

  /** What `transform_stream` writes. */
  function StreamOutput(input: Bytes, rules: seq<Rule>, byLine: bool, byEnd: bool): Bytes
  {
    if byLine then ReplacedLines(Lines(input), rules, byEnd) else Replaced(input, rules, byEnd)
  }

  /** The matches `multi_replace` finds and accepts over the stream: what the run tally receives. */
  function ScannedFound(input: Bytes, rules: seq<Rule>, byLine: bool): nat
  {
    if byLine then FoundIn(Lines(input), rules) else |Pool(input, rules)|
  }

  function ScannedValid(input: Bytes, rules: seq<Rule>, byLine: bool, byEnd: bool): nat
  {
    if byLine then ValidIn(Lines(input), rules, byEnd) else |Resolve(Pool(input, rules), byEnd)|
  }

  /** The counts `transform_stream` returns as written: nothing is added to them in whole-file mode. */
  function StreamFound(input: Bytes, rules: seq<Rule>, byLine: bool): nat
  {
    if byLine then FoundIn(Lines(input), rules) else 0
  }

  function StreamValid(input: Bytes, rules: seq<Rule>, byLine: bool): nat
  {
    if byLine then ValidIn(Lines(input), rules, false) else 0
  }

  lemma ReplacedLinesSnoc(lines: seq<Bytes>, rules: seq<Rule>, byEnd: bool, k: nat)
    requires k < |lines|
    ensures ReplacedLines(lines[..k + 1], rules, byEnd) == ReplacedLines(lines[..k], rules, byEnd) + Replaced(lines[k], rules, byEnd)
    ensures FoundIn(lines[..k + 1], rules) == FoundIn(lines[..k], rules) + |Pool(lines[k], rules)|
    ensures ValidIn(lines[..k + 1], rules, byEnd) == ValidIn(lines[..k], rules, byEnd) + |Resolve(Pool(lines[k], rules), byEnd)|
    ensures Concat(lines[..k + 1]) == Concat(lines[..k]) + lines[k]
  {
    assert lines[..k + 1][..k] == lines[..k];
    assert lines[..k + 1] == lines[..k] + [lines[k]];
    ConcatLast(lines[..k], lines[k]);
  }

  /**
   * The by-line loop of `transform_stream`: `multi_replace` on each line,
   * counts added up; `byEnd` selects `MultiReplace` as written or `MultiReplaceFixed`.
   */
  method ReplaceEachLine(rules: seq<Rule>, lines: seq<Bytes>, byEnd: bool, tally: Tally)
    returns (output: Bytes, counts: MatchCounts)
    modifies tally
    ensures fresh(counts)
    ensures output == ReplacedLines(lines, rules, byEnd)
    ensures counts.found == FoundIn(lines, rules) && counts.valid == ValidIn(lines, rules, byEnd)
    ensures tally.chars == old(tally.chars) + |Concat(lines)|
    ensures tally.matches == old(tally.matches) + FoundIn(lines, rules)
    ensures tally.validMatches == old(tally.validMatches) + ValidIn(lines, rules, byEnd)
    ensures tally.files == old(tally.files) && tally.filesChanged == old(tally.filesChanged)
      && tally.filesRewritten == old(tally.filesRewritten) && tally.renames == old(tally.renames)
  {
    counts := new MatchCounts(0, 0);
    output := [];
    var k := 0;
    while k < |lines|
      invariant 0 <= k <= |lines|
      invariant fresh(counts)
      invariant output == ReplacedLines(lines[..k], rules, byEnd)
      invariant counts.found == FoundIn(lines[..k], rules) && counts.valid == ValidIn(lines[..k], rules, byEnd)
      invariant tally.chars == old(tally.chars) + |Concat(lines[..k])|
      invariant tally.matches == old(tally.matches) + FoundIn(lines[..k], rules)
      invariant tally.validMatches == old(tally.validMatches) + ValidIn(lines[..k], rules, byEnd)
      invariant tally.files == old(tally.files) && tally.filesChanged == old(tally.filesChanged)
      invariant tally.filesRewritten == old(tally.filesRewritten) && tally.renames == old(tally.renames)
    {
      var newLine, newCounts;
      if byEnd {
        newLine, newCounts := MultiReplaceFixed(lines[k], rules, false, tally);
      } else {
        newLine, newCounts := MultiReplace(lines[k], rules, false, tally);
      }
      counts.Add(newCounts);
      ReplacedLinesSnoc(lines, rules, byEnd, k);
      output := output + newLine;
      k := k + 1;
    }
    assert lines[..k] == lines;
  }

  /** `transform_stream` as written, with `multi_replace` as written for the transform. */
  method TransformStream(rules: seq<Rule>, input: Bytes, byLine: bool, tally: Tally)
    returns (output: Bytes, counts: MatchCounts)
    modifies tally
    ensures fresh(counts)
    ensures output == StreamOutput(input, rules, byLine, false)
    ensures counts.found == StreamFound(input, rules, byLine)
    ensures counts.valid == StreamValid(input, rules, byLine)
    ensures tally.chars == old(tally.chars) + |input|
    ensures tally.matches == old(tally.matches) + ScannedFound(input, rules, byLine)
    ensures tally.validMatches == old(tally.validMatches) + ScannedValid(input, rules, byLine, false)
    ensures tally.files == old(tally.files) && tally.filesChanged == old(tally.filesChanged)
      && tally.filesRewritten == old(tally.filesRewritten) && tally.renames == old(tally.renames)
  {
    if byLine {
      LinesConcat(input);
      output, counts := ReplaceEachLine(rules, Lines(input), false, tally);
    } else {
      var newCounts;
      output, newCounts := MultiReplace(input, rules, false, tally);
      counts := new MatchCounts(0, 0);
    }
  }

  /**
   * `transform_stream` corrected: the whole-file counts are kept, as the
   * commit decision of `transform_file` needs and the by-line branch already
   * does, and the transform is `MultiReplaceFixed`.
   */
  method TransformStreamFixed(rules: seq<Rule>, input: Bytes, byLine: bool, tally: Tally)
    returns (output: Bytes, counts: MatchCounts)
    modifies tally
    ensures fresh(counts)
    ensures output == StreamOutput(input, rules, byLine, true)
    ensures counts.found == ScannedFound(input, rules, byLine)
    ensures counts.valid == ScannedValid(input, rules, byLine, true)
    ensures tally.chars == old(tally.chars) + |input|
    ensures tally.matches == old(tally.matches) + counts.found
    ensures tally.validMatches == old(tally.validMatches) + counts.valid
    ensures tally.files == old(tally.files) && tally.filesChanged == old(tally.filesChanged)
      && tally.filesRewritten == old(tally.filesRewritten) && tally.renames == old(tally.renames)
  {
    if byLine {
      LinesConcat(input);
      output, counts := ReplaceEachLine(rules, Lines(input), true, tally);
    } else {
      output, counts := MultiReplaceFixed(input, rules, false, tally);
    }
  }

  lemma {:induction false} ValidInAtMostFound(lines: seq<Bytes>, rules: seq<Rule>, byEnd: bool)
    ensures ValidIn(lines, rules, byEnd) <= FoundIn(lines, rules)
  {
    if lines != [] {
      ValidInAtMostFound(lines[..|lines| - 1], rules, byEnd);
      ValidAtMostFound(lines[|lines| - 1], rules, byEnd);
    }
  }

  /** Over a whole stream, accepted matches never exceed found ones, and neither do the counts returned as written. */
  lemma ScannedValidAtMostFound(input: Bytes, rules: seq<Rule>, byLine: bool, byEnd: bool)
    ensures ScannedValid(input, rules, byLine, byEnd) <= ScannedFound(input, rules, byLine)
    ensures StreamValid(input, rules, byLine) <= StreamFound(input, rules, byLine)
  {
    ValidInAtMostFound(Lines(input), rules, byEnd);
    ValidInAtMostFound(Lines(input), rules, false);
    ValidAtMostFound(input, rules, byEnd);
  }

  lemma NoMatchUnchanged(input: Bytes, rules: seq<Rule>, byEnd: bool)
    requires Pool(input, rules) == []
    ensures Replaced(input, rules, byEnd) == input
  {
    assert Resolve([], byEnd) == [];
    AppliedNoMatches(input);
  }

  lemma {:induction false} ReplacedLinesUnchanged(lines: seq<Bytes>, rules: seq<Rule>, byEnd: bool)
    requires FoundIn(lines, rules) == 0
    ensures ReplacedLines(lines, rules, byEnd) == Concat(lines)
  {
    if lines != [] {
      var n := |lines| - 1;
      ReplacedLinesUnchanged(lines[..n], rules, byEnd);
      NoMatchUnchanged(lines[n], rules, byEnd);
      ConcatLast(lines[..n], lines[n]);
      assert lines[..n] + [lines[n]] == lines;
    }
  }

  /**
   * A stream in which no match is found comes out unchanged, which is why
   * `transform_file` may drop the output of such a file.
   */
  lemma FoundNothingUnchanged(input: Bytes, rules: seq<Rule>, byLine: bool, byEnd: bool)
    requires ScannedFound(input, rules, byLine) == 0
    ensures StreamOutput(input, rules, byLine, byEnd) == input
  {
    if byLine {
      ReplacedLinesUnchanged(Lines(input), rules, byEnd);
      LinesConcat(input);
    } else {
      NoMatchUnchanged(input, rules, byEnd);
    }
  }

  // ---------------------------------------------------------------------------
  // `transform_file`.

  /** The condition under which `transform_file` moves its output into place. */
  predicate Commits(dryRun: bool, source: Path, dest: Path, found: nat)
  {
    !dryRun && (dest != source || found > 0)
  }

  /**
   * Whole-file mode as written loses the edits of a file that is not renamed:
   * the counts come back zero, so `transform_file` drops an output that
   * differs from the input. With the counts kept, the same output is committed.
   */
  lemma WholeFileEditsDropped(input: Bytes, rules: seq<Rule>, byEnd: bool, path: Path)
    requires Replaced(input, rules, byEnd) != input
    ensures StreamOutput(input, rules, false, byEnd) != input
    ensures !Commits(false, path, path, StreamFound(input, rules, false))
    ensures Commits(false, path, path, ScannedFound(input, rules, false))
  {
    if Pool(input, rules) == [] {
      NoMatchUnchanged(input, rules, byEnd);
    }
  }

  /**
   * A file holding `foo`, rewritten in place with the rule `foo -> bar` in
   * whole-file mode: the output is `bar` and one match is found, but the
   * counts come back zero and the output is discarded.
   */
  lemma WholeFileExample(path: Path)
    ensures var input: Bytes := [102, 111, 111];
      var rules := [Rule([102, 111, 111], [98, 97, 114])];
      && StreamOutput(input, rules, false, false) == [98, 97, 114]
      && ScannedFound(input, rules, false) == 1
      && StreamFound(input, rules, false) == 0
      && !Commits(false, path, path, StreamFound(input, rules, false))
  {
    var input: Bytes := [102, 111, 111];
    var c := Candidate(0, 3, 0, [98, 97, 114]);
    FooPool();
    FooResolved();
    FooApplied();
    assert Replaced(input, [Rule([102, 111, 111], [98, 97, 114])], false) == Applied(input, [c]);
  }

  lemma FooPool()
    ensures Pool([102, 111, 111], [Rule([102, 111, 111], [98, 97, 114])]) == [Candidate(0, 3, 0, [98, 97, 114])]
  {
    var input: Bytes := [102, 111, 111];
    var r := Rule([102, 111, 111], [98, 97, 114]);
    assert ScanFrom(input, r, 0, 3) == [];
    assert ScanFrom(input, r, 0, 2) == [];
    assert ScanFrom(input, r, 0, 1) == [];
    assert input[0..3] == r.search;
    assert [r][..0] == [];
    assert Pool(input, [r]) == Pool(input, []) + Scan(input, r, 0);
  }

  lemma FooResolved()
    ensures DropOverlaps([Candidate(0, 3, 0, [98, 97, 114])]) == [Candidate(0, 3, 0, [98, 97, 114])]
  {
    var c := Candidate(0, 3, 0, [98, 97, 114]);
    assert InsertPos([], c, false) == 0 && Accepts([], c, false);
    assert Insert([], c, 0) == [c];
    assert [c][..0] == [];
    assert Resolve([c], false) == Step(Resolve([], false), c, false);
  }

  lemma FooApplied()
    ensures Applied([102, 111, 111], [Candidate(0, 3, 0, [98, 97, 114])]) == [98, 97, 114]
  {
    var input: Bytes := [102, 111, 111];
    var c := Candidate(0, 3, 0, [98, 97, 114]);
    assert [c][1..] == [];
    assert ApplyFrom(input, [], 3) == Slice(input, 3, 3) == [];
    assert Slice(input, 0, 0) == [];
    assert Applied(input, [c]) == [] + [98, 97, 114] + [];
  }

  /** Writing `output` through `os.open(path, O_WRONLY | O_CREAT)`: a longer old file keeps its tail. */
  function WrittenOver(existing: Option<Bytes>, output: Bytes): (r: Bytes)
    ensures |r| >= |output| && r[..|output|] == output
  {
    match existing
    case None => output
    case Some(prior) => output + (if |prior| > |output| then prior[|output|..] else [])
  }

  /** The contents at `p`, if a file is there. */
  function Existing(files: map<Path, Bytes>, p: Path): Option<Bytes>
  {
    if p in files then Some(files[p]) else None
  }

  /** A stale temp file longer than the new output leaves its tail behind the output. */
  lemma StaleTempTail(stale: Bytes, output: Bytes)
    requires |stale| > |output|
    ensures WrittenOver(Some(stale), output) != output
    ensures WrittenOver(Some(stale), output) == output + stale[|output|..]
  {
  }

  /** The files after the temp file is written and the source is moved to its backup. */
  function Staged(files: map<Path, Bytes>, source: Path, dest: Path, output: Bytes): map<Path, Bytes>
    requires source in files && dest + TEMP_SUFFIX != source
  {
    Moved(files[dest + TEMP_SUFFIX := output], source, source + BACKUP_SUFFIX)
  }

  /** The files after a commit that moved the output to `target`. */
  function Committed(files: map<Path, Bytes>, source: Path, dest: Path, output: Bytes, clean: bool, target: Path)
    : map<Path, Bytes>
    requires source in files && dest + TEMP_SUFFIX != source
  {
    var placed := Moved(Staged(files, source, dest, output), dest + TEMP_SUFFIX, target);
    if clean then placed - {source + BACKUP_SUFFIX} else placed
  }

  lemma SuffixesDiffer(source: Path, dest: Path)
    ensures source + BACKUP_SUFFIX != dest + TEMP_SUFFIX
  {
    var a, b := source + BACKUP_SUFFIX, dest + TEMP_SUFFIX;
    assert a[|a| - 1] == 103 && b[|b| - 1] == 112;
  }

  /**
   * What a commit leaves behind: the output at a name that was free, the
   * original contents in the backup unless it is cleaned away, no temp file,
   * and every other file as it was.
   */
  lemma CommittedFacts(files: map<Path, Bytes>, source: Path, dest: Path, output: Bytes, clean: bool, target: Path)
    requires source in files && dest + TEMP_SUFFIX != source
    requires target !in Staged(files, source, dest, output)
    ensures var r := Committed(files, source, dest, output, clean, target);
      && target in r && r[target] == output
      && dest + TEMP_SUFFIX !in r
      && (!clean ==> source + BACKUP_SUFFIX in r && r[source + BACKUP_SUFFIX] == files[source])
      && (clean ==> source + BACKUP_SUFFIX !in r)
      && (source != target ==> source !in r)
      && forall p :: p in files && p != source && p != target && p != source + BACKUP_SUFFIX && p != dest + TEMP_SUFFIX
           ==> p in r && r[p] == files[p]
  {
    SuffixesDiffer(source, dest);
  }

  /**
   * Source and destination may be the same path: the source has moved to its
   * backup when the temp file is moved, so the output takes the source's own
   * name, never a numbered retry.
   */
  lemma InPlaceKeepsName(files: map<Path, Bytes>, source: Path, output: Bytes, k: nat)
    requires source in files && source + TEMP_SUFFIX != source
    requires FirstFreeAt(Staged(files, source, source, output).Keys, source, k)
    ensures k == 0 && Attempt(source, k) == source
  {
    SuffixesDiffer(source, source);
    assert source + BACKUP_SUFFIX != source by {
      assert |source + BACKUP_SUFFIX| > |source|;
    }
    assert FirstFreeAt(Staged(files, source, source, output).Keys, source, 0);
    FirstFreeUnique(Staged(files, source, source, output).Keys, source, k, 0);
  }

  /** `after` is `before` with `source` moved to the first free retry name from `dest`. */
  ghost predicate MovedToFree(before: map<Path, Bytes>, after: map<Path, Bytes>, source: Path, dest: Path)
    requires source in before
  {
    exists k :: FirstFreeAt(before.Keys, dest, k) && after == Moved(before, source, Attempt(dest, k))
  }

  /** `after` is what a commit of `output` from `source` to `dest` leaves of `before`. */
  ghost predicate CommittedFrom(before: map<Path, Bytes>, after: map<Path, Bytes>, source: Path, dest: Path,
                                output: Bytes, clean: bool)
    requires source in before && dest + TEMP_SUFFIX != source
  {
    exists k :: FirstFreeAt(Staged(before, source, dest, output).Keys, dest, k)
      && after == Committed(before, source, dest, output, clean, Attempt(dest, k))
  }

  /** The collision loop of `move_file`: strip a trailing `.N`, append `.i`, until the name is free. */
  method FreeName(taken: set<Path>, dest: Path) returns (free: Path)
    ensures free !in taken
    ensures dest !in taken ==> free == dest
    ensures exists k :: FirstFreeAt(taken, dest, k) && free == Attempt(dest, k)
  {
    free := dest;
    var i := 1;
    while free in taken
      invariant 1 <= i <= |taken| + 2 && free == Attempt(dest, i - 1)
      invariant TakenUpTo(taken, dest, i - 1)
      invariant dest !in taken ==> i == 1
      decreases |taken| + 2 - i
    {
      RetryBound(taken, dest, i - 1);
      free := Retry(free, i);
      i := i + 1;
    }
    assert FirstFreeAt(taken, dest, i - 1);
  }

  /** A file system reduced to the existing paths and their contents. */
  class FileSystem {
    var files: map<Path, Bytes>

    constructor (files: map<Path, Bytes>)
      ensures this.files == files
    {
      this.files := files;
    }

    /** `move_file`: with `clobber` the destination is replaced, otherwise the first free retry is used. */
    method MoveFile(source: Path, dest: Path, clobber: bool)
      requires source in files
      modifies this
      ensures clobber ==> files == Moved(old(files), source, dest)
      ensures !clobber ==> MovedToFree(old(files), files, source, dest)
    {
      var target := dest;
      if !clobber {
        target := FreeName(files.Keys, dest);
      }
      files := Moved(files, source, target);
    }

    /**
     * `transform_file` as written: write the transformed contents over
     * whatever is at `dest` plus the temp suffix, then either move the source
     * to its backup and the temp file to `dest` (at the first free retry
     * name), or discard the temp file; and count the file in the run tally.
     * With no transform, a differing `dest` is a plain rename.
     */
    method TransformFile(rules: Option<seq<Rule>>, source: Path, dest: Path, byLine: bool, dryRun: bool, clean: bool,
                         tally: Tally)
      returns (counts: MatchCounts)
      requires rules.Some? ==> source in files && dest + TEMP_SUFFIX != source
      requires rules.None? && dest != source && !dryRun ==> source in files
      modifies this, tally
      ensures fresh(counts)
      ensures old(tally.Consistent()) ==> tally.Consistent()
      ensures tally.files == old(tally.files) + (if rules.Some? || dest != source then 1 else 0)
      ensures tally.renames == old(tally.renames) + (if dest != source then 1 else 0)
      ensures tally.filesRewritten == old(tally.filesRewritten) + (if counts.found > 0 then 1 else 0)
      ensures tally.filesChanged == old(tally.filesChanged) + (if counts.found > 0 || dest != source then 1 else 0)
      ensures rules.Some? ==>
        && counts.found == StreamFound(old(files[source]), rules.value, byLine)
        && counts.valid == StreamValid(old(files[source]), rules.value, byLine)
        && tally.chars == old(tally.chars) + |old(files[source])|
        && tally.matches == old(tally.matches) + ScannedFound(old(files[source]), rules.value, byLine)
        && tally.validMatches == old(tally.validMatches) + ScannedValid(old(files[source]), rules.value, byLine, false)
      ensures rules.Some? && Commits(dryRun, source, dest, counts.found) ==>
        CommittedFrom(old(files) - {dest + TEMP_SUFFIX}, files, source, dest,
                      WrittenOver(Existing(old(files), dest + TEMP_SUFFIX),
                                  StreamOutput(old(files[source]), rules.value, byLine, false)), clean)
      ensures rules.Some? && !Commits(dryRun, source, dest, counts.found) ==>
        files == old(files) - {dest + TEMP_SUFFIX}
      ensures rules.None? ==>
        && counts.found == 0 && counts.valid == 0
        && tally.chars == old(tally.chars) && tally.matches == old(tally.matches)
        && tally.validMatches == old(tally.validMatches)
      ensures rules.None? && (dest == source || dryRun) ==> files == old(files)
      ensures rules.None? && dest != source && !dryRun ==> MovedToFree(old(files), files, source, dest)
    {
      if rules.Some? {
        counts := RewriteContents(rules.value, source, dest, byLine, dryRun, clean, tally);
      } else {
        counts := new MatchCounts(0, 0);
        RenameOnly(source, dest, dryRun, tally);
      }
    }

    /**
     * `transform_file` with the corrections of the findings: the stream
     * counts are kept in whole-file mode, overlaps are resolved by the
     * corrected resolver, and the temp file holds exactly the output.
     */
    method TransformFileFixed(rules: Option<seq<Rule>>, source: Path, dest: Path, byLine: bool, dryRun: bool,
                              clean: bool, tally: Tally)
      returns (counts: MatchCounts)
      requires rules.Some? ==> source in files && dest + TEMP_SUFFIX != source
      requires rules.None? && dest != source && !dryRun ==> source in files
      modifies this, tally
      ensures fresh(counts)
      ensures old(tally.Consistent()) ==> tally.Consistent()
      ensures tally.files == old(tally.files) + (if rules.Some? || dest != source then 1 else 0)
      ensures tally.renames == old(tally.renames) + (if dest != source then 1 else 0)
      ensures tally.filesRewritten == old(tally.filesRewritten) + (if counts.found > 0 then 1 else 0)
      ensures tally.filesChanged == old(tally.filesChanged) + (if counts.found > 0 || dest != source then 1 else 0)
      ensures tally.matches == old(tally.matches) + counts.found
      ensures tally.validMatches == old(tally.validMatches) + counts.valid
      ensures rules.Some? ==>
        && counts.found == ScannedFound(old(files[source]), rules.value, byLine)
        && counts.valid == ScannedValid(old(files[source]), rules.value, byLine, true)
        && tally.chars == old(tally.chars) + |old(files[source])|
      ensures rules.Some? && Commits(dryRun, source, dest, counts.found) ==>
        CommittedFrom(old(files) - {dest + TEMP_SUFFIX}, files, source, dest,
                      StreamOutput(old(files[source]), rules.value, byLine, true), clean)
      ensures rules.Some? && !Commits(dryRun, source, dest, counts.found) ==>
        files == old(files) - {dest + TEMP_SUFFIX}
      ensures rules.None? ==> counts.found == 0 && counts.valid == 0 && tally.chars == old(tally.chars)
      ensures rules.None? && (dest == source || dryRun) ==> files == old(files)
      ensures rules.None? && dest != source && !dryRun ==> MovedToFree(old(files), files, source, dest)
    {
      if rules.Some? {
        counts := RewriteContentsFixed(rules.value, source, dest, byLine, dryRun, clean, tally);
      } else {
        counts := new MatchCounts(0, 0);
        RenameOnly(source, dest, dryRun, tally);
      }
    }

    /** The branch of `transform_file` without a transform: a differing `dest` is a rename, counted as one. */
    method RenameOnly(source: Path, dest: Path, dryRun: bool, tally: Tally)
      requires dest != source && !dryRun ==> source in files
      modifies this, tally
      ensures old(tally.Consistent()) ==> tally.Consistent()
      ensures tally.files == old(tally.files) + (if dest != source then 1 else 0)
      ensures tally.renames == old(tally.renames) + (if dest != source then 1 else 0)
      ensures tally.filesChanged == old(tally.filesChanged) + (if dest != source then 1 else 0)
      ensures tally.filesRewritten == old(tally.filesRewritten)
      ensures tally.chars == old(tally.chars) && tally.matches == old(tally.matches)
        && tally.validMatches == old(tally.validMatches)
      ensures dest == source || dryRun ==> files == old(files)
      ensures dest != source && !dryRun ==> MovedToFree(old(files), files, source, dest)
    {
      if dest != source {
        if !dryRun {
          MoveFile(source, dest, false);
        }
        tally.CountFile(false, false, true);
      }
    }

    /**
     * The branch of `transform_file` with a transform, as written: the
     * output goes over any stale temp file, which `os.open` does not
     * truncate, and whole-file mode returns zero counts, so an in-place
     * whole-file rewrite is never committed (`WholeFileEditsDropped`).
     */
    method RewriteContents(rules: seq<Rule>, source: Path, dest: Path, byLine: bool, dryRun: bool, clean: bool,
                           tally: Tally)
      returns (counts: MatchCounts)
      requires source in files && dest + TEMP_SUFFIX != source
      modifies this, tally
      ensures fresh(counts)
      ensures old(tally.Consistent()) ==> tally.Consistent()
      ensures tally.files == old(tally.files) + 1
      ensures tally.renames == old(tally.renames) + (if dest != source then 1 else 0)
      ensures tally.filesRewritten == old(tally.filesRewritten) + (if counts.found > 0 then 1 else 0)
      ensures tally.filesChanged == old(tally.filesChanged) + (if counts.found > 0 || dest != source then 1 else 0)
      ensures counts.found == StreamFound(old(files[source]), rules, byLine)
      ensures counts.valid == StreamValid(old(files[source]), rules, byLine)
      ensures tally.chars == old(tally.chars) + |old(files[source])|
      ensures tally.matches == old(tally.matches) + ScannedFound(old(files[source]), rules, byLine)
      ensures tally.validMatches == old(tally.validMatches) + ScannedValid(old(files[source]), rules, byLine, false)
      ensures Commits(dryRun, source, dest, counts.found) ==>
        CommittedFrom(old(files) - {dest + TEMP_SUFFIX}, files, source, dest,
                      WrittenOver(Existing(old(files), dest + TEMP_SUFFIX),
                                  StreamOutput(old(files[source]), rules, byLine, false)), clean)
      ensures !Commits(dryRun, source, dest, counts.found) ==> files == old(files) - {dest + TEMP_SUFFIX}
    {
      var temp := dest + TEMP_SUFFIX;
      var input := files[source];
      var output;
      output, counts := TransformStream(rules, input, byLine, tally);
      ScannedValidAtMostFound(input, rules, byLine, false);
      var written := WrittenOver(Existing(files, temp), output);
      files := files[temp := written];
      assert files - {temp} == old(files) - {temp};
      if !dryRun && (dest != source || counts.found > 0) {
        Commit(source, dest, written, clean);
      } else {
        Remove(temp);
      }
      tally.CountFile(true, counts.found > 0, dest != source);
    }

    /** The branch of `transform_file` with a transform, corrected: counts kept, temp file holding exactly the output. */
    method RewriteContentsFixed(rules: seq<Rule>, source: Path, dest: Path, byLine: bool, dryRun: bool, clean: bool,
                                tally: Tally)
      returns (counts: MatchCounts)
      requires source in files && dest + TEMP_SUFFIX != source
      modifies this, tally
      ensures fresh(counts)
      ensures old(tally.Consistent()) ==> tally.Consistent()
      ensures tally.files == old(tally.files) + 1
      ensures tally.renames == old(tally.renames) + (if dest != source then 1 else 0)
      ensures tally.filesRewritten == old(tally.filesRewritten) + (if counts.found > 0 then 1 else 0)
      ensures tally.filesChanged == old(tally.filesChanged) + (if counts.found > 0 || dest != source then 1 else 0)
      ensures tally.matches == old(tally.matches) + counts.found
      ensures tally.validMatches == old(tally.validMatches) + counts.valid
      ensures counts.found == ScannedFound(old(files[source]), rules, byLine)
      ensures counts.valid == ScannedValid(old(files[source]), rules, byLine, true)
      ensures tally.chars == old(tally.chars) + |old(files[source])|
      ensures Commits(dryRun, source, dest, counts.found) ==>
        CommittedFrom(old(files) - {dest + TEMP_SUFFIX}, files, source, dest,
                      StreamOutput(old(files[source]), rules, byLine, true), clean)
      ensures !Commits(dryRun, source, dest, counts.found) ==> files == old(files) - {dest + TEMP_SUFFIX}
    {
      var temp := dest + TEMP_SUFFIX;
      var input := files[source];
      var output;
      output, counts := TransformStreamFixed(rules, input, byLine, tally);
      ScannedValidAtMostFound(input, rules, byLine, true);
      files := files[temp := output];
      assert files - {temp} == old(files) - {temp};
      if !dryRun && (dest != source || counts.found > 0) {
        Commit(source, dest, output, clean);
      } else {
        Remove(temp);
      }
      tally.CountFile(true, counts.found > 0, dest != source);
    }

    /**
     * The commit step of `transform_file`, once `output` sits in the temp
     * file: the source goes to its backup, replacing any older one, the temp
     * file goes to the first free name from `dest`, and the backup is removed
     * when `clean` asks for it.
     */
    method Commit(source: Path, dest: Path, output: Bytes, clean: bool)
      requires source in files && dest + TEMP_SUFFIX != source
      requires dest + TEMP_SUFFIX in files && files[dest + TEMP_SUFFIX] == output
      modifies this
      ensures CommittedFrom(old(files) - {dest + TEMP_SUFFIX}, files, source, dest, output, clean)
    {
      ghost var before := old(files) - {dest + TEMP_SUFFIX};
      var orig, temp := source + BACKUP_SUFFIX, dest + TEMP_SUFFIX;
      assert files == before[temp := output];
      SuffixesDiffer(source, dest);
      MoveFile(source, orig, true);
      ghost var staged := files;
      assert staged == Staged(before, source, dest, output);
      MoveFile(temp, dest, false);
      ghost var k :| FirstFreeAt(staged.Keys, dest, k) && files == Moved(staged, temp, Attempt(dest, k));
      if clean {
        Remove(orig);
      }
      assert files == Committed(before, source, dest, output, clean, Attempt(dest, k));
    }

    /** `os.remove` */
    method Remove(path: Path)
      requires path in files
      modifies this
      ensures files == old(files) - {path}
    {
      files := files - {path};
    }
  }
}
