/**
 * `get_filepaths` as the step-by-step procedure of lemonade20k/funcs.py:
 * a loop over the groups that updates the folder accumulator, and inside it
 * a loop over the phrases that collects the matching columns and a loop over
 * the matrix rows that adds the folders of the selected images. Each method
 * is proved against the specification functions of Selection and Resolver.
 */
module Funcs {
  import opened Synonyms
  import opened Tables
  import opened Query
  import opened Selection
  import opened Resolver

  /**
   * The columns matched by a phrase group: for each phrase in turn, every
   * column whose synonyms include the phrase is added.
   */
  method MatchColumns(columns: seq<string>, phraseGroup: seq<string>) returns (matched: seq<bool>)
    ensures matched == MatchMask(columns, phraseGroup)
  {
    matched := seq(|columns|, _ => false);
    for k := 0 to |phraseGroup|
      invariant |matched| == |columns|
      invariant forall j :: 0 <= j < |columns| ==> (matched[j] <==> AnyMatches(phraseGroup[..k], columns[j]))
    {
      var p := phraseGroup[k];
      var before := matched;
      matched := seq(|columns|, j requires 0 <= j < |columns| => before[j] || p in Split(columns[j]));
      forall j | 0 <= j < |columns|
        ensures matched[j] <==> AnyMatches(phraseGroup[..k + 1], columns[j])
      {
        assert phraseGroup[..k + 1] == phraseGroup[..k] + [p];
        if AnyMatches(phraseGroup[..k + 1], columns[j]) {
          var q :| q in phraseGroup[..k + 1] && Matches(q, columns[j]);
          assert q in phraseGroup[..k] || q == p;
        }
        if Matches(p, columns[j]) {
          assert p in phraseGroup[..k + 1];
        }
        if before[j] {
          var q :| q in phraseGroup[..k] && Matches(q, columns[j]);
          assert q in phraseGroup[..k + 1];
        }
      }
    }
    assert phraseGroup[..|phraseGroup|] == phraseGroup;
  }

  /**
   * The folders of the images whose total over the matched columns reaches
   * `groupFreq`: each matrix row is visited once, and the folder the image
   * index records for a selected row is added to the set.
   */
  method SelectFolders(idx: AdeIndex, matched: seq<bool>, groupFreq: int) returns (paths: set<string>)
    requires WellFormed(idx) && |matched| == |idx.columns|
    ensures paths == GroupFolders(idx, matched, groupFreq)
  {
    paths := {};
    for i := 0 to |idx.rows|
      invariant paths == SelectedFolders(idx, matched, groupFreq, i)
    {
      var row := idx.rows[i];
      if Total(row.counts, matched) >= groupFreq {
        paths := paths + {idx.folderOf[row.filename]};
      }
      assert SelectedFolders(idx, matched, groupFreq, i + 1) ==
        SelectedFolders(idx, matched, groupFreq, i) +
        (if Total(row.counts, matched) >= groupFreq then {FolderOfRow(idx, i)} else {});
    }
  }

  /**
   * Resolves a query to the set of folders that every usable group selects.
   * Each group may be met by a different image of the same folder. A bare pair is treated as a one-element list, a pair whose
   * minimum count is not an int is skipped, and a plain-string phrase group
   * is treated as a one-element list.
   */
  method GetFilepaths(idx: AdeIndex, phrases: QueryExpr) returns (folderPaths: set<string>)
    requires WellFormed(idx)
    ensures folderPaths == Resolve(idx, phrases)
  {
    var groups := match phrases
      case Bare(g) => [g]
      case Many(gs) => gs;
    var acc := NoGroupYet;
    for k := 0 to |groups|
      invariant acc == Accumulate(idx, groups[..k])
    {
      var g := groups[k];
      assert groups[..k + 1][..k] == groups[..k];
      if !g.freq.IntT? {
        continue;
      }
      var phraseGroup := match g.phraseGroup
        case Str(s) => [s]
        case List(ps) => ps;
      var matched := MatchColumns(idx.columns, phraseGroup);
      var pathsForGroup := SelectFolders(idx, matched, g.freq.n);
      match acc
      case NoGroupYet =>
        acc := Current(pathsForGroup);
      case Current(s) =>
        // each further usable group narrows the running set
        acc := Current(s * pathsForGroup);
    }
    assert groups[..|groups|] == groups;
    folderPaths := match acc
      case NoGroupYet => {}
      case Current(s) => s;
  }
}
