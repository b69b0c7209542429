/**
 * The meaning of a query: the set of folders selected by `get_filepaths`.
 *
 * Groups are processed left to right. A group whose minimum count is not an
 * int is skipped. Each remaining group selects a set of folders, and the
 * sets are intersected (AND across groups). The running result is either
 * "no group processed yet" or the current set, so that an empty
 * intersection stays empty and a query without any usable group selects
 * nothing rather than everything.
 */
module Resolver {
  import opened Tables
  import opened Query
  import opened Selection
  import Synonyms

  /** The running result across groups. */
  datatype Accumulator = NoGroupYet | Current(folders: set<string>)

  /** The folders selected by one usable group. */
  function GroupSet(idx: AdeIndex, g: Group): (r: set<string>)
    requires WellFormed(idx) && g.Active()
    ensures r <= Folders(idx)
  {
    GroupFolders(idx, MatchMask(idx.columns, Phrases(g.phraseGroup)), g.freq.n)
  }

  /** Processing one more group: skip it, start with its set, or intersect. */
  function Step(idx: AdeIndex, acc: Accumulator, g: Group): (r: Accumulator)
    requires WellFormed(idx)
    ensures r.NoGroupYet? <==> acc.NoGroupYet? && !g.Active()
    ensures acc.Current? ==> r.folders <= acc.folders
    ensures r.Current? && g.Active() ==> r.folders <= GroupSet(idx, g)
  {
    if !g.Active() then acc
    else
      match acc
      case NoGroupYet => Current(GroupSet(idx, g))
      case Current(s) => Current(s * GroupSet(idx, g))
  }

  /** The running result after processing the groups `gs` in order. */
  function Accumulate(idx: AdeIndex, gs: seq<Group>): (r: Accumulator)
    requires WellFormed(idx)
    ensures r.Current? ==> r.folders <= Folders(idx)
    decreases |gs|
  {
    if |gs| == 0 then NoGroupYet
    else Step(idx, Accumulate(idx, gs[..|gs| - 1]), gs[|gs| - 1])
  }

  /** The folders a query selects. */
  function Resolve(idx: AdeIndex, q: QueryExpr): (r: set<string>)
    requires WellFormed(idx)
    ensures r <= Folders(idx)
  {
    match Accumulate(idx, Groups(q))
    case NoGroupYet => {}
    case Current(s) => s
  }

  /** Some group of `gs` is usable. */
  predicate HasActive(gs: seq<Group>)
  {
    exists g :: g in gs && g.Active()
  }

  /** Folder `f` is selected by every usable group of `gs`. */
  predicate InEveryActive(idx: AdeIndex, gs: seq<Group>, f: string)
    requires WellFormed(idx)
  {
    forall g :: g in gs && g.Active() ==> f in GroupSet(idx, g)
  }

  /**
   * The fold computes the intersection of the usable groups' sets: it has
   * started iff some group is usable, and then holds exactly the folders
   * selected by every usable group.
   */
  lemma {:induction false} AccumulateMeaning(idx: AdeIndex, gs: seq<Group>)
    requires WellFormed(idx)
    ensures Accumulate(idx, gs).NoGroupYet? <==> !HasActive(gs)
    ensures Accumulate(idx, gs).Current? ==>
      forall f :: f in Accumulate(idx, gs).folders <==> InEveryActive(idx, gs, f)
    decreases |gs|
  {
    if |gs| > 0 {
      var init, last := gs[..|gs| - 1], gs[|gs| - 1];
      assert gs == init + [last];
      assert forall g :: g in gs <==> g in init || g == last;
      AccumulateMeaning(idx, init);
    }
  }

  /**
   * Reference meaning of a query: a folder is in the result iff the query
   * has a usable group and every usable group selects the folder.
   */
  lemma ResolveMeaning(idx: AdeIndex, q: QueryExpr, f: string)
    requires WellFormed(idx)
    ensures f in Resolve(idx, q) <==> HasActive(Groups(q)) && InEveryActive(idx, Groups(q), f)
  {
    AccumulateMeaning(idx, Groups(q));
  }

  /** A bare pair resolves like the same pair wrapped in a one-element list. */
  lemma BareIsWrapped(idx: AdeIndex, g: Group)
    requires WellFormed(idx)
    ensures Resolve(idx, Bare(g)) == Resolve(idx, Many([g]))
  {
  }

  /** A query with no groups, or whose groups are all skipped, selects nothing. */
  lemma NoUsableGroupSelectsNothing(idx: AdeIndex, q: QueryExpr)
    requires WellFormed(idx)
    requires forall g :: g in Groups(q) ==> !g.Active()
    ensures Resolve(idx, q) == {}
  {
    AccumulateMeaning(idx, Groups(q));
  }

  /** The result lies within the set of every usable group (AND across groups). */
  lemma ResolveWithinEachGroup(idx: AdeIndex, q: QueryExpr, g: Group)
    requires WellFormed(idx) && g in Groups(q) && g.Active()
    ensures Resolve(idx, q) <= GroupSet(idx, g)
  {
    forall f | f in Resolve(idx, q)
      ensures f in GroupSet(idx, g)
    {
      ResolveMeaning(idx, q, f);
    }
  }

  /**
   * A folder selected by every group of a query with a usable group is in
   * the result: together with ResolveWithinEachGroup, the result is the
   * intersection of the usable groups' sets.
   */
  lemma ResolveContainsCommon(idx: AdeIndex, q: QueryExpr, f: string)
    requires WellFormed(idx) && HasActive(Groups(q)) && InEveryActive(idx, Groups(q), f)
    ensures f in Resolve(idx, q)
  {
    ResolveMeaning(idx, q, f);
  }

  /**
   * The result does not depend on the order of the groups, nor on repeated
   * groups: two lists holding the same groups resolve alike.
   */
  lemma OrderIrrelevant(idx: AdeIndex, gs1: seq<Group>, gs2: seq<Group>)
    requires WellFormed(idx)
    requires forall g :: g in gs1 <==> g in gs2
    ensures Resolve(idx, Many(gs1)) == Resolve(idx, Many(gs2))
  {
    forall f
      ensures f in Resolve(idx, Many(gs1)) <==> f in Resolve(idx, Many(gs2))
    {
      ResolveMeaning(idx, Many(gs1), f);
      ResolveMeaning(idx, Many(gs2), f);
    }
  }

  /** A skipped group contributes nothing: removing it leaves the result unchanged. */
  lemma SkippedGroupIrrelevant(idx: AdeIndex, front: seq<Group>, g: Group, back: seq<Group>)
    requires WellFormed(idx) && !g.Active()
    ensures Resolve(idx, Many(front + [g] + back)) == Resolve(idx, Many(front + back))
  {
    var with, without := front + [g] + back, front + back;
    assert forall h :: h in with <==> h in front || h == g || h in back;
    assert forall h :: h in without <==> h in front || h in back;
    forall f
      ensures f in Resolve(idx, Many(with)) <==> f in Resolve(idx, Many(without))
    {
      ResolveMeaning(idx, Many(with), f);
      ResolveMeaning(idx, Many(without), f);
    }
  }

  /** Two groups are interchangeable: both skipped, or both usable with the same set. */
  predicate Interchangeable(idx: AdeIndex, g1: Group, g2: Group)
    requires WellFormed(idx)
  {
    g1.Active() == g2.Active() && (g1.Active() ==> GroupSet(idx, g1) == GroupSet(idx, g2))
  }

  /** The fold only sees each group through whether it is usable and what it selects. */
  lemma {:induction false} AccumulateCongruent(idx: AdeIndex, gs1: seq<Group>, gs2: seq<Group>)
    requires WellFormed(idx) && |gs1| == |gs2|
    requires forall i :: 0 <= i < |gs1| ==> Interchangeable(idx, gs1[i], gs2[i])
    ensures Accumulate(idx, gs1) == Accumulate(idx, gs2)
    decreases |gs1|
  {
    if |gs1| > 0 {
      AccumulateCongruent(idx, gs1[..|gs1| - 1], gs2[..|gs2| - 1]);
    }
  }

  /** A phrase group given as a plain string resolves like the one-element list of it. */
  lemma PlainStringIsSingleton(idx: AdeIndex, front: seq<Group>, s: string, t: Threshold, back: seq<Group>)
    requires WellFormed(idx)
    ensures Resolve(idx, Many(front + [Group(Str(s), t)] + back))
         == Resolve(idx, Many(front + [Group(List([s]), t)] + back))
  {
    var withStr, withList := front + [Group(Str(s), t)] + back, front + [Group(List([s]), t)] + back;
    assert Interchangeable(idx, Group(Str(s), t), Group(List([s]), t));
    forall i | 0 <= i < |withStr|
      ensures Interchangeable(idx, withStr[i], withList[i])
    {
      if i != |front| {
        assert withStr[i] == withList[i];
      }
    }
    AccumulateCongruent(idx, withStr, withList);
  }

  /** Raising one group's minimum count never adds a folder to the result. */
  lemma RaisingThresholdNeverAdds(idx: AdeIndex, front: seq<Group>, pg: PhraseGroup,
                                  lower: int, higher: int, back: seq<Group>)
    requires WellFormed(idx) && lower <= higher
    ensures Resolve(idx, Many(front + [Group(pg, IntT(higher))] + back))
         <= Resolve(idx, Many(front + [Group(pg, IntT(lower))] + back))
  {
    var gHigh, gLow := Group(pg, IntT(higher)), Group(pg, IntT(lower));
    var withHigh, withLow := front + [gHigh] + back, front + [gLow] + back;
    assert forall h :: h in withHigh <==> h in front || h == gHigh || h in back;
    assert forall h :: h in withLow <==> h in front || h == gLow || h in back;
    ThresholdMonotone(idx, MatchMask(idx.columns, Phrases(pg)), lower, higher);
    forall f | f in Resolve(idx, Many(withHigh))
      ensures f in Resolve(idx, Many(withLow))
    {
      ResolveMeaning(idx, Many(withHigh), f);
      assert gHigh in withHigh && gLow in withLow;
      assert f in GroupSet(idx, gLow);
      ResolveMeaning(idx, Many(withLow), f);
    }
  }

  /**
   * Three images in three distinct folders over two objects, queried with
   * (object a, at least 1) AND (object b, at least 11): only the folder of
   * the image with both is selected, although each group alone selects two.
   */
  lemma AndAcrossGroupsExample(idx: AdeIndex, a: string, b: string, fx: string, fy: string, fz: string)
    requires a != b && !Synonyms.HasSeparator(a) && !Synonyms.HasSeparator(b)
    requires fx != fy && fx != fz && fy != fz
    requires idx == AdeIndex([a, b],
                             [MatrixRow("x.jpg", [1, 11]), MatrixRow("y.jpg", [1, 0]), MatrixRow("z.jpg", [0, 12])],
                             map["x.jpg" := fx, "y.jpg" := fy, "z.jpg" := fz])
    ensures GroupSet(idx, Group(List([a]), IntT(1))) == {fx, fy}
    ensures GroupSet(idx, Group(List([b]), IntT(11))) == {fx, fz}
    ensures Resolve(idx, Many([Group(List([a]), IntT(1)), Group(List([b]), IntT(11))])) == {fx}
  {
    Synonyms.SplitSinglePiece(a);
    Synonyms.SplitSinglePiece(b);
    var maskA, maskB := MatchMask(idx.columns, [a]), MatchMask(idx.columns, [b]);
    assert Synonyms.Matches(a, a) && Synonyms.Matches(b, b);
    assert !Synonyms.Matches(a, b) && !Synonyms.Matches(b, a);
    assert maskA == [true, false];
    assert maskB == [false, true];
    assert Total([1, 11], maskA) == 1 && Total([1, 0], maskA) == 1 && Total([0, 12], maskA) == 0;
    assert Total([1, 11], maskB) == 11 && Total([1, 0], maskB) == 0 && Total([0, 12], maskB) == 12;
    assert FolderOfRow(idx, 0) == fx && FolderOfRow(idx, 1) == fy && FolderOfRow(idx, 2) == fz;
    var gs := [Group(List([a]), IntT(1)), Group(List([b]), IntT(11))];
    assert gs[..1] == [gs[0]] && gs[..1][..0] == [];
    assert Accumulate(idx, gs[..1]) == Current({fx, fy});
    assert Accumulate(idx, gs) == Current({fx, fy} * {fx, fz});
    assert {fx, fy} * {fx, fz} == {fx};
  }

  /** Image row `i` reaches the minimum count of every usable group of `gs`. */
  predicate ImageMeetsEvery(idx: AdeIndex, gs: seq<Group>, i: nat)
    requires WellFormed(idx) && i < |idx.rows|
  {
    forall g :: g in gs && g.Active() ==>
      Total(idx.rows[i].counts, MatchMask(idx.columns, Phrases(g.phraseGroup))) >= g.freq.n
  }

  /**
   * The per-image reading of AND across groups in the doc comment: the
   * folders of the images that on their own satisfy every usable group.
   */
  function ImageLevelFolders(idx: AdeIndex, q: QueryExpr): (r: set<string>)
    requires WellFormed(idx)
    ensures r <= Folders(idx)
    ensures !HasActive(Groups(q)) ==> r == {}
  {
    set i | 0 <= i < |idx.rows| && HasActive(Groups(q)) && ImageMeetsEvery(idx, Groups(q), i) :: FolderOfRow(idx, i)
  }

  /**
   * The folder of every image that satisfies all usable groups is in the
   * result: the folder-level intersection never misses such an image.
   */
  lemma ImageLevelWithinResolve(idx: AdeIndex, q: QueryExpr)
    requires WellFormed(idx)
    ensures ImageLevelFolders(idx, q) <= Resolve(idx, q)
  {
    forall f | f in ImageLevelFolders(idx, q)
      ensures f in Resolve(idx, q)
    {
      var i :| 0 <= i < |idx.rows| && HasActive(Groups(q)) && ImageMeetsEvery(idx, Groups(q), i) && FolderOfRow(idx, i) == f;
      ResolveMeaning(idx, q, f);
    }
  }

  /**
   * When no two images share a folder, the folder-level intersection is the
   * per-image AND of the doc comment.
   */
  lemma DistinctFoldersImageLevel(idx: AdeIndex, q: QueryExpr)
    requires WellFormed(idx)
    requires forall i, j :: 0 <= i < j < |idx.rows| ==> FolderOfRow(idx, i) != FolderOfRow(idx, j)
    ensures Resolve(idx, q) == ImageLevelFolders(idx, q)
  {
    ImageLevelWithinResolve(idx, q);
    var gs := Groups(q);
    forall f | f in Resolve(idx, q)
      ensures f in ImageLevelFolders(idx, q)
    {
      ResolveMeaning(idx, q, f);
      var g0 :| g0 in gs && g0.Active();
      var i0 :| 0 <= i0 < |idx.rows| && FolderOfRow(idx, i0) == f &&
        Total(idx.rows[i0].counts, MatchMask(idx.columns, Phrases(g0.phraseGroup))) >= g0.freq.n;
      forall g | g in gs && g.Active()
        ensures Total(idx.rows[i0].counts, MatchMask(idx.columns, Phrases(g.phraseGroup))) >= g.freq.n
      {
        var i :| 0 <= i < |idx.rows| && FolderOfRow(idx, i) == f &&
          Total(idx.rows[i].counts, MatchMask(idx.columns, Phrases(g.phraseGroup))) >= g.freq.n;
        assert i == i0;
      }
      assert ImageMeetsEvery(idx, gs, i0);
    }
  }

  /**
   * Groups are ANDed per folder, not per image: two images in one folder,
   * one meeting each group, put the folder in the result although no image
   * meets both groups.
   */
  lemma SharedFolderExample(idx: AdeIndex, a: string, b: string, folder: string)
    requires a != b && !Synonyms.HasSeparator(a) && !Synonyms.HasSeparator(b)
    requires idx == AdeIndex([a, b],
                             [MatrixRow("x.jpg", [1, 0]), MatrixRow("y.jpg", [0, 11])],
                             map["x.jpg" := folder, "y.jpg" := folder])
    ensures Resolve(idx, Many([Group(List([a]), IntT(1)), Group(List([b]), IntT(11))])) == {folder}
    ensures ImageLevelFolders(idx, Many([Group(List([a]), IntT(1)), Group(List([b]), IntT(11))])) == {}
  {
    Synonyms.SplitSinglePiece(a);
    Synonyms.SplitSinglePiece(b);
    var maskA, maskB := MatchMask(idx.columns, [a]), MatchMask(idx.columns, [b]);
    assert Synonyms.Matches(a, a) && Synonyms.Matches(b, b);
    assert !Synonyms.Matches(a, b) && !Synonyms.Matches(b, a);
    assert maskA == [true, false];
    assert maskB == [false, true];
    assert Total([1, 0], maskA) == 1 && Total([0, 11], maskA) == 0;
    assert Total([1, 0], maskB) == 0 && Total([0, 11], maskB) == 11;
    assert FolderOfRow(idx, 0) == folder && FolderOfRow(idx, 1) == folder;
    var gA, gB := Group(List([a]), IntT(1)), Group(List([b]), IntT(11));
    var gs := [gA, gB];
    assert GroupSet(idx, gA) == {folder};
    assert GroupSet(idx, gB) == {folder};
    assert gs[..1] == [gs[0]] && gs[..1][..0] == [];
    assert Accumulate(idx, gs[..1]) == Current({folder});
    assert Accumulate(idx, gs) == Current({folder} * {folder});
    assert !ImageMeetsEvery(idx, gs, 0) by { assert gB in gs; }
    assert !ImageMeetsEvery(idx, gs, 1) by { assert gA in gs; }
  }
}
