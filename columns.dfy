/** Column headers of the CSV tables the scripts pass between each other. */
module Columns {
  /** A table as read from or written to CSV: its header and its rows. */
  datatype Table<R> = Table(columns: seq<string>, rows: seq<R>)

  /** DataFrame.rename(columns=names): every listed column takes its new name,
      the other columns keep theirs, in the same positions. */
  function Rename(header: seq<string>, names: map<string, string>): (r: seq<string>)
    ensures |r| == |header|
  {
    seq(|header|, i requires 0 <= i < |header| => if header[i] in names then names[header[i]] else header[i])
  }

  /** Every one of names is a column of header (selecting them raises no KeyError). */
  predicate HasAll(header: seq<string>, names: seq<string>)
  {
    forall n :: n in names ==> n in header
  }

  /** A one-entry rename puts the new name where the old one was and leaves
      every other column as it was. */
  lemma RenameOne(header: seq<string>, from: string, to: string, i: nat)
    requires i < |header|
    ensures header[i] == from ==> Rename(header, map[from := to])[i] == to
    ensures header[i] != from ==> Rename(header, map[from := to])[i] == header[i]
  {
  }
}
