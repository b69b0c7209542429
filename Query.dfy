/**
 * The loosely typed query that the resolver accepts, as tagged values.
 *
 * A query is a bare `(phrase_group, min_count)` pair or a list of such pairs.
 * A phrase group is one string or a list of strings. A min_count that is not
 * a Python `int` is kept as `Other`, so that the resolver can skip its group.
 */
module Query {

  /** The first element of a pair: one phrase, or a list of phrases. */
  datatype PhraseGroup = Str(phrase: string) | List(phrases: seq<string>)

  /** The second element of a pair: an `int`, or any value of another type. */
  datatype Threshold = IntT(n: int) | Other

  /** One `(phrase_group, min_count)` pair. */
  datatype Group = Group(phraseGroup: PhraseGroup, freq: Threshold)
  {
    /** The pair is used; a pair whose min_count is not an int is skipped. */
    predicate Active()
    {
      freq.IntT?
    }
  }

  /** A bare pair, or a list of pairs. */
  datatype QueryExpr = Bare(group: Group) | Many(groups: seq<Group>)

  /** The list of pairs: a bare pair is wrapped into a one-element list. */
  function Groups(q: QueryExpr): seq<Group>
  {
    match q
    case Bare(g) => [g]
    case Many(gs) => gs
  }

  /** The phrases of a group: a plain string becomes a one-element list. */
  function Phrases(pg: PhraseGroup): seq<string>
  {
    match pg
    case Str(s) => [s]
    case List(ps) => ps
  }
}
