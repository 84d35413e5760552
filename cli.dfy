/** What the command line of both readers selects and what a run produces.

    Both tools take the same options: `-l` lists the table, `-s <id>` extracts
    one entry by index and `-x` extracts them all; when several are given the
    first of list, single, all wins. */
module Cli {
  import opened Bytes

  /** The parsed options; `extractId` is -1 when `-s` was not given. */
  datatype Command = Command(listOnly: bool, extractAll: bool, extractId: int)

  /** The usage check: at least one mode is selected. */
  predicate Selected(cmd: Command)
  {
    cmd.listOnly || cmd.extractAll || cmd.extractId >= 0
  }

  /** The observable result of a run over a table of entries of type `E`. */
  datatype Outcome<E> =
    | Rejected                      // bad main magic: nothing else happens
    | Listed(table: seq<E>)         // the table as listed, entry by entry
    | Extracted(files: seq<Write>)  // the files written, in order
    | IdOutOfRange                  // single extraction of a missing entry: nothing written
}
