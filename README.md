# lemonade20k query resolver, modelled in Dafny

This project models `get_filepaths` of the lemonade20k library for the
ADE20K image-segmentation dataset. `get_filepaths` turns a query into the
set of dataset folders that hold matching images. A query is a list of
`(phrase_group, min_count)` pairs. A bare pair, not in a list, is also
accepted.

- A phrase group is one object name or a list of object names. An image
  satisfies the group when its occurrence counts, summed over every
  catalog object that one of the names denotes, reach `min_count`. This
  is OR within a group, and two objects can reach the count together.
- An object-catalog column is named by the object's synonyms joined with
  `", "`. A name denotes a column only if it equals one of those synonyms
  exactly, so `"car"` does not denote `"carport, carpet"`.
- A pair whose `min_count` is not an `int` is skipped.
- The folder sets of the remaining pairs are intersected. This is AND
  across groups.

The metadata tables are given as a value (`Tables.AdeIndex`): the
occurrence matrix's column names, its rows (image filename and one count
per column), and the image index's `folder` column keyed by filename.

Files:

- `Synonyms.dfy`: Python's `str.split(", ")` on column names, its inverse
  `", ".join`, and exact phrase matching.
- `Tables.dfy`: the occurrence matrix and folder column, and their
  well-formedness: the matrix is rectangular and every image in it has a
  folder.
- `Query.dfy`: the loosely typed query as tagged values: `Bare | Many`,
  `Str | List`, `IntT | Other`.
- `Selection.dfy`: per-group column matching, per-image totals and the
  group's folder set, with their properties.
- `Resolver.dfy`: the meaning of a whole query, as a left-to-right fold
  with a "no group yet" start state. It is proved equal to the
  intersection of the usable groups' sets. The query-level properties are
  here.
- `Funcs.dfy`: `get_filepaths` as loops. The loop over groups updates the
  accumulator. Inside it, one loop over phrases collects matched columns
  and one loop over rows adds selected folders. Each method is proved
  equal to its specification function.

The draft has four defects, and the model follows the evident intent at
each:

- `lemonade20k/funcs.py:199-203` ends `get_filepaths` with an `else:`
  whose body is only a comment, and `get_images` does the same at
  `:131-135`. Python rejects both with an `IndentationError`, so the file
  cannot be imported and no line of `get_filepaths` runs as written.
- `:182` calls `.sum(axis=1)` on a Python list.
- `:186` calls `iterrow`, which does not exist.
- `:191-195` mixes a list and a set in the accumulator.

The model takes the `whitelist is None` return at `:197-198` as the
result. It sums each row over the matched columns. It visits every
selected row. It keeps the accumulator as `NoGroupYet | Current(set)`.

Within a group, a column that several phrases match is counted once. This
follows the doc comment at `lemonade20k/funcs.py:71-73`: "at least 2
instances of a beach OR a house". The intersection is over folder values,
as the code does at `:187` and `:195`, not over image filenames. This is
weaker than the per-image AND that the doc comment at `:75-77` describes;
see "## Left out".

Any Python `int` is accepted as a minimum count, negative ones included,
and a count of zero or less selects every image. The code checks only
`isinstance(group_freq, int)`. A Python `bool` is an `int` there; a caller
encodes `True`/`False` as `IntT(1)`/`IntT(0)`.

## Model

| member | source | states |
|---|---|---|
| `Query.Groups` | lemonade20k/funcs.py:158-160 | the list of pairs of a query: a bare pair becomes a one-element list (its meaning is stated by `Resolver.BareIsWrapped`) |
| `Query.Group.Active` | lemonade20k/funcs.py:164-168 | a pair is used iff its minimum count is an `int`; a skipped pair changes nothing (its meaning is stated by `Resolver.SkippedGroupIrrelevant`) |
| `Query.Phrases` | lemonade20k/funcs.py:170-172 | the phrases of a group: a plain string becomes a one-element list (its meaning is stated by `Resolver.PlainStringIsSingleton`) |
| `Synonyms.Matches` | lemonade20k/funcs.py:180 | a phrase matches a column name iff it is one of the pieces of `name.split(", ")` (its meaning is stated by `Synonyms.MatchesJoinedName`) |
| `Synonyms.Split` | lemonade20k/funcs.py:179-180 | `name.split(", ")` yields at least one piece, and the first piece is a prefix of the name |
| `Synonyms.JoinSplit` | lemonade20k/funcs.py:179-180 | splitting a column name loses nothing: joining the pieces with `", "` gives the name back |
| `Synonyms.SplitPiecesHaveNoSeparator` | lemonade20k/funcs.py:180 | no synonym produced by the split contains the delimiter `", "` |
| `Synonyms.SplitAfterPiece` | lemonade20k/funcs.py:180 | the first delimiter after a delimiter-free synonym ends that synonym |
| `Synonyms.SplitSinglePiece` | lemonade20k/funcs.py:180 | a name without delimiter is its only synonym, so only the identical phrase matches it |
| `Synonyms.SplitJoin` | lemonade20k/funcs.py:179-180 | joining delimiter-free synonyms and splitting again gives the same synonyms: split and join are inverse |
| `Synonyms.MatchesJoinedName` | lemonade20k/funcs.py:175-180 | a phrase matches a column named by synonyms iff it equals one of them (exact, not substring) |
| `Synonyms.NoCommaNoSeparator` | lemonade20k/funcs.py:180 | a synonym without a comma contains no delimiter |
| `Synonyms.SplitCarportCarpet` | lemonade20k/funcs.py:180 | the name "carport, carpet" splits into exactly "carport" and "carpet" |
| `Synonyms.NoSubstringMatch` | lemonade20k/funcs.py:175-180 | "car" does not match "carport, carpet", while "carpet" does |
| `Selection.SelectedFolders` | lemonade20k/funcs.py:182-188 | the folders of the first rows whose total reaches the minimum count, all of them folders of indexed images |
| `Selection.GroupFolders` | lemonade20k/funcs.py:182-188 | one group's folder set, over all rows, within the folders of indexed images (what it holds is stated by the lemmas below and by `Funcs.SelectFolders`) |
| `Selection.UnmatchedGroupSelectsNothing` | lemonade20k/funcs.py:175-184 | a group whose phrases match no column selects no folder once its minimum count is positive |
| `Selection.NonPositiveMinimumSelectsAll` | lemonade20k/funcs.py:184-188 | a group whose minimum count is zero or less selects the folder of every image |
| `Tables.FolderOfRow` | lemonade20k/funcs.py:187 | the folder the image index records for a matrix row's filename (its use is stated by `Funcs.SelectFolders`) |
| `Selection.AnyMatches` | lemonade20k/funcs.py:175-180 | some phrase of the group is one of a column's synonyms (its meaning is stated by `Selection.MatchMask` and `Synonyms.MatchesJoinedName`) |
| `Selection.MatchMask` | lemonade20k/funcs.py:174-180 | one flag per catalog column, set iff some phrase of the group matches the column |
| `Selection.Total` | lemonade20k/funcs.py:182 | an image's group total: the sum of its counts in the matched columns (its meaning is stated by the `Total*` lemmas) |
| `Selection.TotalCoversMatched` | lemonade20k/funcs.py:177-182 | each matched column adds its whole count to an image's group total |
| `Selection.TotalCoversPair` | lemonade20k/funcs.py:71-73 | two distinct matched columns add both counts, so two objects can reach a minimum together that neither reaches alone |
| `Selection.TotalZero` | lemonade20k/funcs.py:182 | a group total is zero iff every matched column has count zero in that image |
| `Selection.TotalMonotone` | lemonade20k/funcs.py:182 | matching more columns never lowers an image's group total |
| `Selection.ThresholdMonotone` | lemonade20k/funcs.py:184 | raising a group's minimum count never adds to the group's folder set |
| `Selection.MorePhrasesNeverRemove` | lemonade20k/funcs.py:175-184 | adding phrases to a group (OR within the group) never removes a folder from its set |
| `Selection.JointThresholdExample` | lemonade20k/funcs.py:71-73 | with counts 2 and 1, the group of both objects at minimum 3 selects the image, and neither object alone does |
| `Resolver.GroupSet` | lemonade20k/funcs.py:170-188 | the folder set of one usable group, built from its phrases and minimum count, within the folders of indexed images |
| `Resolver.Step` | lemonade20k/funcs.py:163-195 | the body skips, starts or intersects; the ensures state that the running result has not started iff it had not and the group is skipped, that the set only narrows, and that it lies within the group's set |
| `Resolver.Accumulate` | lemonade20k/funcs.py:163-195 | the running result after the groups so far holds only folders of indexed images |
| `Resolver.Resolve` | lemonade20k/funcs.py:155-198 | the folders a query selects, all of them folders of indexed images; empty when no group has been used |
| `Resolver.AccumulateMeaning` | lemonade20k/funcs.py:190-195 | the fold over groups has started iff some group is usable, and then holds exactly the folders every usable group selects |
| `Resolver.AccumulateCongruent` | lemonade20k/funcs.py:163-195 | the loop over groups sees each group only through whether it is skipped and which folders it selects |
| `Resolver.ResolveMeaning` | lemonade20k/funcs.py:155-195 | a folder is in the result iff the query has a usable group and every usable group selects it |
| `Resolver.BareIsWrapped` | lemonade20k/funcs.py:158-160 | a bare pair resolves like the same pair in a one-element list |
| `Resolver.NoUsableGroupSelectsNothing` | lemonade20k/funcs.py:156-168 | an empty query, or one whose groups are all skipped, selects the empty set, not everything |
| `Resolver.ResolveWithinEachGroup` | lemonade20k/funcs.py:190-195 | the result is a subset of every usable group's folder set |
| `Resolver.ResolveContainsCommon` | lemonade20k/funcs.py:194-195 | a folder that every usable group selects is in the result, so the result is exactly the intersection |
| `Resolver.OrderIrrelevant` | lemonade20k/funcs.py:194-195 | two lists that hold the same groups, in any order and with any repetition, resolve alike |
| `Resolver.SkippedGroupIrrelevant` | lemonade20k/funcs.py:163-168 | inserting a group whose minimum count is not an int anywhere in the list leaves the result unchanged |
| `Resolver.PlainStringIsSingleton` | lemonade20k/funcs.py:170-172 | a group given as a plain string resolves like the one-element list of that string |
| `Resolver.RaisingThresholdNeverAdds` | lemonade20k/funcs.py:184 | raising one group's minimum count never adds a folder to the query's result |
| `Resolver.AndAcrossGroupsExample` | lemonade20k/funcs.py:75-77 | on three images in distinct folders, two groups select two folders each, and the query selects only their common folder |
| `Resolver.ImageLevelFolders` | lemonade20k/funcs.py:75-77 | the per-image reading of the doc comment: the folders of images that alone meet every usable group; empty when no group is usable, and within the folders of indexed images |
| `Resolver.ImageLevelWithinResolve` | lemonade20k/funcs.py:75-77 | the folder of every image that by itself meets all usable groups (the doc comment's per-image AND) is in the result |
| `Resolver.DistinctFoldersImageLevel` | lemonade20k/funcs.py:75-77 | when no two images share a folder, the result is exactly the folders of the images that meet all usable groups |
| `Resolver.SharedFolderExample` | lemonade20k/funcs.py:187-195 | two images in one folder, each meeting one of two groups, put that folder in the result although no image meets both groups |
| `Funcs.MatchColumns` | lemonade20k/funcs.py:174-180 | the phrase loop marks exactly the columns whose synonyms include one of the group's phrases |
| `Funcs.SelectFolders` | lemonade20k/funcs.py:182-188 | the row loop collects exactly the folders of the images whose total reaches the minimum count |
| `Funcs.GetFilepaths` | lemonade20k/funcs.py:155-198 | the group loop returns exactly the intersection of the usable groups' folder sets, and the empty set when no group is usable |

## Left out

- The whitelist ("knockout") branch of `get_filepaths` and the whole of
  `get_images` (`lemonade20k/funcs.py:114-135`, `:197-203`). Both are
  TODOs in the source, and `get_images` relies on an image loader the
  library does not define. The image-path and segmentation-map-path
  results, which the source returns as `None`, are left out as well.
  `GetFilepaths` returns only the folder set.
- Loading and caching the tables (`lemonADE20K/ADEIndex.py`). This is
  MATLAB and CSV file I/O, so the tables are a parameter. The module-level
  global `index` and `refresh_csv_tables` (`lemonade20k/funcs.py:6-12`)
  are replaced by that parameter.
- The console message printed for a skipped group (`:165-167`). It is I/O;
  the skip itself is modelled.
- The pandas column getters (`:20-49`). They are one-line table accessors.
- `Resolver.ResolveMeaning`: the result is an AND of folders, not of
  images. A folder is selected when each usable group is met by some
  image in it, even if a different image meets each group. The doc comment
  at `lemonade20k/funcs.py:75-77` describes a per-image AND, where one
  image must satisfy every group at once. The model follows
  the code at `:187` and `:195`, which collects folders per group and
  intersects them. `Resolver.SharedFolderExample` shows the difference.
  `Resolver.ImageLevelWithinResolve` proves the result contains the
  per-image answer. `Resolver.DistinctFoldersImageLevel` proves they are
  equal when no two images share a folder.
- Malformed query shapes are not represented by the query datatype. An
  example is a pair that is not two elements long, or a phrase group that
  is neither a string nor iterable; the source raises Python errors for
  these. A non-string element of a phrase list raises no error. The test
  `p in string.split(", ")` at `:180` is then false for every column, so
  the element matches nothing. That is the same as leaving it out of the
  list, which is how a caller expresses it here.
- `Tables.WellFormed` asks more than the source does. It requires a
  folder entry for every matrix row. The source looks up a folder at
  `:187` only for rows that a group selects, and raises `KeyError` only
  when such a row has none. Both tables are built from the same list of
  image filenames: the `filename` field of the same index file
  (`lemonADE20K/ADEIndex.py:62-84` and `:117-119`). So every matrix row
  has a folder entry in a loaded index.
