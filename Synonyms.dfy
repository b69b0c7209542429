/**
 * Object-catalog column names and phrase matching.
 *
 * A column of the occurrence matrix is named by the synonyms of one object
 * joined with ", " (for example "sofa, couch, lounge"). A phrase matches a
 * column when it is exactly one of those synonyms, as Python's
 * `name.split(", ")` produces them; no substring matching takes place.
 */
module Synonyms {

  /** The delimiter between the synonyms of one object. */
  const Separator: string := ", "

  /** True when `t` contains the delimiter somewhere. */
  predicate HasSeparator(t: string)
    decreases |t|
  {
    |t| >= 2 && (t[..2] == Separator || HasSeparator(t[1..]))
  }

  /**
   * Python's `s.split(", ")`: the pieces between the occurrences of the
   * delimiter, found left to right. There is always at least one piece, and
   * the first piece is a prefix of `s`.
   */
  function Split(s: string): (pieces: seq<string>)
    ensures |pieces| >= 1
    ensures pieces[0] <= s
    decreases |s|
  {
    if |s| < 2 then [s]
    else if s[..2] == Separator then [""] + Split(s[2..])
    else
      var rest := Split(s[1..]);
      [[s[0]] + rest[0]] + rest[1..]
  }

  /** Python's `", ".join(pieces)`, for a non-empty list of pieces. */
  function Join(pieces: seq<string>): string
    requires |pieces| >= 1
    decreases |pieces|
  {
    if |pieces| == 1 then pieces[0] else pieces[0] + Separator + Join(pieces[1..])
  }

  /** A phrase matches a column name iff it is one of the name's synonyms. */
  predicate Matches(phrase: string, name: string)
  {
    phrase in Split(name)
  }

  /** Splitting loses nothing: joining the pieces back gives the name. */
  lemma {:induction false} JoinSplit(s: string)
    ensures Join(Split(s)) == s
    decreases |s|
  {
    if |s| < 2 {
    } else if s[..2] == Separator {
      JoinSplit(s[2..]);
      assert s == s[..2] + s[2..];
    } else {
      var rest := Split(s[1..]);
      JoinSplit(s[1..]);
      assert s == [s[0]] + s[1..];
      if |rest| > 1 {
        assert Join(rest) == rest[0] + Separator + Join(rest[1..]);
        assert ([[s[0]] + rest[0]] + rest[1..])[1..] == rest[1..];
      }
    }
  }

  /** No piece of a split contains the delimiter. */
  lemma {:induction false} SplitPiecesHaveNoSeparator(s: string)
    ensures forall k :: 0 <= k < |Split(s)| ==> !HasSeparator(Split(s)[k])
    decreases |s|
  {
    if |s| < 2 {
      assert Split(s) == [s];
    } else if s[..2] == Separator {
      SplitPiecesHaveNoSeparator(s[2..]);
      assert Split(s) == [""] + Split(s[2..]);
    } else {
      var rest := Split(s[1..]);
      SplitPiecesHaveNoSeparator(s[1..]);
      var head := [s[0]] + rest[0];
      assert Split(s) == [head] + rest[1..];
      assert head[1..] == rest[0];
      if |head| >= 2 {
        assert head[..2] != Separator by {
          assert rest[0] <= s[1..];
          assert head[..2] == s[..2];
        }
      }
    }
  }

  /**
   * A delimiter directly after a piece without delimiter ends that piece:
   * splitting `a + ", " + b` gives `a` followed by the pieces of `b`.
   */
  lemma {:induction false} SplitAfterPiece(a: string, b: string)
    requires !HasSeparator(a)
    ensures Split(a + Separator + b) == [a] + Split(b)
    decreases |a|
  {
    var s := a + Separator + b;
    if |a| == 0 {
      assert s[..2] == Separator;
      assert s[2..] == b;
    } else {
      assert s[1..] == a[1..] + Separator + b;
      assert !HasSeparator(a[1..]);
      SplitAfterPiece(a[1..], b);
      assert s[..2] != Separator by {
        if |a| == 1 {
          assert s[..2] == [a[0], ','];
        } else {
          assert s[..2] == a[..2];
        }
      }
      assert a == [a[0]] + a[1..];
    }
  }

  /** A name without delimiter splits into itself alone. */
  lemma {:induction false} SplitSinglePiece(a: string)
    requires !HasSeparator(a)
    ensures Split(a) == [a]
    decreases |a|
  {
    if |a| >= 2 {
      assert !HasSeparator(a[1..]);
      SplitSinglePiece(a[1..]);
      assert a == [a[0]] + a[1..];
    }
  }

  /** Joining pieces that hold no delimiter and splitting again gives the pieces back. */
  lemma {:induction false} SplitJoin(pieces: seq<string>)
    requires |pieces| >= 1
    requires forall k :: 0 <= k < |pieces| ==> !HasSeparator(pieces[k])
    ensures Split(Join(pieces)) == pieces
    decreases |pieces|
  {
    if |pieces| == 1 {
      SplitSinglePiece(pieces[0]);
    } else {
      SplitJoin(pieces[1..]);
      SplitAfterPiece(pieces[0], Join(pieces[1..]));
      assert pieces == [pieces[0]] + pieces[1..];
    }
  }

  /**
   * Exact matching on a catalog name built from synonyms: a phrase matches
   * the joined name iff it is one of the synonyms.
   */
  lemma MatchesJoinedName(phrase: string, synonyms: seq<string>)
    requires |synonyms| >= 1
    requires forall k :: 0 <= k < |synonyms| ==> !HasSeparator(synonyms[k])
    ensures Matches(phrase, Join(synonyms)) <==> phrase in synonyms
  {
    SplitJoin(synonyms);
  }

  /** A synonym without a comma holds no delimiter. */
  lemma {:induction false} NoCommaNoSeparator(t: string)
    requires ',' !in t
    ensures !HasSeparator(t)
    decreases |t|
  {
    if |t| >= 2 {
      assert t[0] in t;
      assert forall c :: c in t[1..] ==> c in t;
      NoCommaNoSeparator(t[1..]);
    }
  }

  /** The catalog name "carport, carpet" splits back into its two synonyms. */
  lemma SplitCarportCarpet()
    ensures Split(Join(["carport", "carpet"])) == ["carport", "carpet"]
  {
    NoCommaNoSeparator("carport");
    NoCommaNoSeparator("carpet");
    SplitJoin(["carport", "carpet"]);
  }

  /**
   * "car" does not match the column "carport, carpet" (the synonyms carport
   * and carpet joined), while "carpet" does.
   */
  lemma NoSubstringMatch()
    ensures !Matches("car", Join(["carport", "carpet"]))
    ensures Matches("carpet", Join(["carport", "carpet"]))
  {
    SplitCarportCarpet();
  }
}
