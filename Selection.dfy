/**
 * Per-group selection: which catalog columns a phrase group matches, the
 * per-image total over those columns, and the set of folders of the images
 * whose total reaches the group's minimum count.
 */
module Selection {
  import opened Synonyms
  import opened Tables

  /** Some phrase of the group is one of the synonyms in `name`. */
  predicate AnyMatches(phrases: seq<string>, name: string)
  {
    exists p :: p in phrases && Matches(p, name)
  }

  /** Per catalog column: is it matched by some phrase of the group? */
  function MatchMask(columns: seq<string>, phrases: seq<string>): (mask: seq<bool>)
    ensures |mask| == |columns|
  {
    seq(|columns|, j requires 0 <= j < |columns| => AnyMatches(phrases, columns[j]))
  }

  /** The sum of the counts in the columns the mask selects. */
  function Total(counts: seq<nat>, mask: seq<bool>): nat
    requires |counts| == |mask|
    decreases |counts|
  {
    if |counts| == 0 then 0
    else
      var last := |counts| - 1;
      Total(counts[..last], mask[..last]) + (if mask[last] then counts[last] else 0)
  }

  /** The folders of the first `n` matrix rows whose total reaches `minCount`. */
  function SelectedFolders(idx: AdeIndex, mask: seq<bool>, minCount: int, n: nat): (r: set<string>)
    requires WellFormed(idx) && |mask| == |idx.columns| && n <= |idx.rows|
    ensures r <= Folders(idx)
  {
    set i | 0 <= i < n && Total(idx.rows[i].counts, mask) >= minCount :: FolderOfRow(idx, i)
  }

  /** The folders of all images selected by one group. */
  function GroupFolders(idx: AdeIndex, mask: seq<bool>, minCount: int): (r: set<string>)
    requires WellFormed(idx) && |mask| == |idx.columns|
    ensures r <= Folders(idx)
  {
    SelectedFolders(idx, mask, minCount, |idx.rows|)
  }

  /**
   * A group whose phrases match no catalog column selects nothing once its
   * minimum count is positive: unmatched phrases contribute no occurrences.
   */
  lemma UnmatchedGroupSelectsNothing(idx: AdeIndex, mask: seq<bool>, minCount: int)
    requires WellFormed(idx) && |mask| == |idx.columns| && minCount > 0
    requires forall j :: 0 <= j < |mask| ==> !mask[j]
    ensures GroupFolders(idx, mask, minCount) == {}
  {
    forall i | 0 <= i < |idx.rows|
      ensures Total(idx.rows[i].counts, mask) == 0
    {
      TotalZero(idx.rows[i].counts, mask);
    }
  }

  /** A minimum count of zero or less selects the folder of every image. */
  lemma NonPositiveMinimumSelectsAll(idx: AdeIndex, mask: seq<bool>, minCount: int)
    requires WellFormed(idx) && |mask| == |idx.columns| && minCount <= 0
    ensures GroupFolders(idx, mask, minCount) == Folders(idx)
  {
  }

  /** Every matched column contributes its whole count to the total. */
  lemma {:induction false} TotalCoversMatched(counts: seq<nat>, mask: seq<bool>, j: nat)
    requires |counts| == |mask| && j < |counts| && mask[j]
    ensures Total(counts, mask) >= counts[j]
    decreases |counts|
  {
    var last := |counts| - 1;
    if j < last {
      TotalCoversMatched(counts[..last], mask[..last], j);
    }
  }

  /**
   * Two distinct matched columns contribute both their counts: two objects
   * of one group can together reach a minimum that neither reaches alone.
   */
  lemma {:induction false} TotalCoversPair(counts: seq<nat>, mask: seq<bool>, a: nat, b: nat)
    requires |counts| == |mask| && a < b < |counts| && mask[a] && mask[b]
    ensures Total(counts, mask) >= counts[a] + counts[b]
    decreases |counts|
  {
    var last := |counts| - 1;
    if b < last {
      TotalCoversPair(counts[..last], mask[..last], a, b);
    } else {
      TotalCoversMatched(counts[..last], mask[..last], a);
    }
  }

  /** The total is zero iff every matched column has count zero. */
  lemma {:induction false} TotalZero(counts: seq<nat>, mask: seq<bool>)
    requires |counts| == |mask|
    ensures Total(counts, mask) == 0 <==> forall j :: 0 <= j < |counts| && mask[j] ==> counts[j] == 0
    decreases |counts|
  {
    if |counts| > 0 {
      var last := |counts| - 1;
      TotalZero(counts[..last], mask[..last]);
      assert forall j :: 0 <= j < last ==> counts[..last][j] == counts[j] && mask[..last][j] == mask[j];
    }
  }

  /** Matching more columns never lowers the total. */
  lemma {:induction false} TotalMonotone(counts: seq<nat>, m1: seq<bool>, m2: seq<bool>)
    requires |counts| == |m1| == |m2|
    requires forall j :: 0 <= j < |counts| && m1[j] ==> m2[j]
    ensures Total(counts, m1) <= Total(counts, m2)
    decreases |counts|
  {
    if |counts| > 0 {
      var last := |counts| - 1;
      TotalMonotone(counts[..last], m1[..last], m2[..last]);
    }
  }

  /** Raising a group's minimum count never adds to its selected folders. */
  lemma ThresholdMonotone(idx: AdeIndex, mask: seq<bool>, lower: int, higher: int)
    requires WellFormed(idx) && |mask| == |idx.columns| && lower <= higher
    ensures GroupFolders(idx, mask, higher) <= GroupFolders(idx, mask, lower)
  {
  }

  /** Adding phrases to a group (OR within the group) never removes a folder. */
  lemma MorePhrasesNeverRemove(idx: AdeIndex, ps: seq<string>, qs: seq<string>, minCount: int)
    requires WellFormed(idx)
    ensures GroupFolders(idx, MatchMask(idx.columns, ps), minCount)
         <= GroupFolders(idx, MatchMask(idx.columns, ps + qs), minCount)
  {
    var m1, m2 := MatchMask(idx.columns, ps), MatchMask(idx.columns, ps + qs);
    forall j | 0 <= j < |idx.columns| && m1[j]
      ensures m2[j]
    {
      var p :| p in ps && Matches(p, idx.columns[j]);
      assert p in ps + qs;
    }
    forall i | 0 <= i < |idx.rows|
      ensures Total(idx.rows[i].counts, m1) <= Total(idx.rows[i].counts, m2)
    {
      TotalMonotone(idx.rows[i].counts, m1, m2);
    }
  }

  /**
   * Two objects reach a group's minimum count together: an image with two of
   * the first object and one of the second is selected for a minimum of 3,
   * though neither object alone reaches 3.
   */
  lemma JointThresholdExample(idx: AdeIndex, a: string, b: string, image: string, folder: string)
    requires a != b && !HasSeparator(a) && !HasSeparator(b)
    requires idx == AdeIndex([a, b], [MatrixRow(image, [2, 1])], map[image := folder])
    ensures folder in GroupFolders(idx, MatchMask(idx.columns, [a, b]), 3)
    ensures folder !in GroupFolders(idx, MatchMask(idx.columns, [a]), 3)
    ensures folder !in GroupFolders(idx, MatchMask(idx.columns, [b]), 3)
  {
    SplitSinglePiece(a);
    SplitSinglePiece(b);
    var both, onlyA, onlyB := MatchMask(idx.columns, [a, b]), MatchMask(idx.columns, [a]), MatchMask(idx.columns, [b]);
    assert Matches(a, a) && Matches(b, b) && !Matches(a, b) && !Matches(b, a);
    assert both == [true, true];
    assert onlyA == [true, false];
    assert onlyB == [false, true];
    assert Total([2, 1], both) == 3;
    assert Total([2, 1], onlyA) == 2;
    assert Total([2, 1], onlyB) == 1;
    assert FolderOfRow(idx, 0) == folder;
  }
}
