/**
 * The metadata tables that a query is resolved against, taken as given
 * values: the object-image occurrence matrix (rows keyed by image filename,
 * one column per catalog object) and the image index's `folder` column.
 */
module Tables {

  /** One row of the occurrence matrix: an image and its count per catalog column. */
  datatype MatrixRow = MatrixRow(filename: string, counts: seq<nat>)

  /**
   * The loaded dataset index.
   * `columns`  - the matrix's column names, one per catalog object, each the
   *              object's synonyms joined with ", ";
   * `rows`     - the matrix's rows, in table order;
   * `folderOf` - the image index's `folder` column, keyed by filename.
   */
  datatype AdeIndex = AdeIndex(columns: seq<string>, rows: seq<MatrixRow>, folderOf: map<string, string>)

  /**
   * The tables fit together: the matrix is rectangular, and every image
   * with a matrix row also has an entry in the image index.
   */
  predicate WellFormed(idx: AdeIndex)
  {
    forall i :: 0 <= i < |idx.rows| ==>
      |idx.rows[i].counts| == |idx.columns| && idx.rows[i].filename in idx.folderOf
  }

  /** The folder that the image index records for row `i` of the matrix. */
  function FolderOfRow(idx: AdeIndex, i: nat): string
    requires WellFormed(idx) && i < |idx.rows|
  {
    idx.folderOf[idx.rows[i].filename]
  }

  /** The folders of all images in the matrix. */
  function Folders(idx: AdeIndex): set<string>
    requires WellFormed(idx)
  {
    set i | 0 <= i < |idx.rows| :: FolderOfRow(idx, i)
  }
}
