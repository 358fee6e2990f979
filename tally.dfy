/**
 * The two counter records: `_Tally`, the run statistics every file operation
 * adds to, and `_MatchCounts`, the found/valid pair one transform returns.
 */
module Counters {

  /** `_Tally` */
  class Tally {
    var files: nat
    var chars: nat
    var matches: nat
    var validMatches: nat
    var filesChanged: nat
    var filesRewritten: nat
    var renames: nat

    constructor ()
      ensures files == 0 && chars == 0 && matches == 0 && validMatches == 0
      ensures filesChanged == 0 && filesRewritten == 0 && renames == 0
    {
      files, chars, matches, validMatches := 0, 0, 0, 0;
      filesChanged, filesRewritten, renames := 0, 0, 0;
    }

    /** The accounting `multi_replace` does for one scanned content string. */
    method AddScanned(length: nat, found: nat, valid: nat)
      modifies this
      ensures chars == old(chars) + length && matches == old(matches) + found
      ensures validMatches == old(validMatches) + valid
      ensures files == old(files) && filesChanged == old(filesChanged)
      ensures filesRewritten == old(filesRewritten) && renames == old(renames)
    {
      chars := chars + length;
      matches := matches + found;
      validMatches := validMatches + valid;
    }

    /**
     * The per-file accounting of `transform_file`: a transformed file is
     * counted as visited, and a file is counted as changed when it was
     * rewritten or renamed.
     */
    method CountFile(transformed: bool, rewritten: bool, renamed: bool)
      modifies this
      ensures files == old(files) + (if transformed || renamed then 1 else 0)
      ensures filesRewritten == old(filesRewritten) + (if rewritten then 1 else 0)
      ensures renames == old(renames) + (if renamed then 1 else 0)
      ensures filesChanged == old(filesChanged) + (if rewritten || renamed then 1 else 0)
      ensures chars == old(chars) && matches == old(matches) && validMatches == old(validMatches)
      ensures transformed || !rewritten ==> old(Consistent()) ==> Consistent()
    {
      var changed := false;
      if transformed || renamed {
        files := files + 1;
      }
      if rewritten {
        filesRewritten := filesRewritten + 1;
        changed := true;
      }
      if renamed {
        renames := renames + 1;
        changed := true;
      }
      if changed {
        filesChanged := filesChanged + 1;
      }
    }

    /** What the summary promises: accepted matches never exceed found ones, changed files never exceed visited ones. */
    ghost predicate Consistent()
      reads this
    {
      validMatches <= matches && filesChanged <= files
      && filesRewritten <= filesChanged && renames <= filesChanged
    }
  }

  /** `_MatchCounts` */
  class MatchCounts {
    var found: nat
    var valid: nat

    constructor (found: nat, valid: nat)
      ensures this.found == found && this.valid == valid
    {
      this.found := found;
      this.valid := valid;
    }

    ghost predicate Consistent()
      reads this
    {
      valid <= found
    }

    /** `_MatchCounts.add` */
    method Add(o: MatchCounts)
      modifies this
      ensures found == old(found) + old(o.found) && valid == old(valid) + old(o.valid)
      ensures old(Consistent()) && old(o.Consistent()) ==> Consistent()
    {
      var f, v := o.found, o.valid;
      found := found + f;
      valid := valid + v;
    }
  }
}
