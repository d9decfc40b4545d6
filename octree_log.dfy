/** The debug log as a sequence of abstract records instead of formatted
    text. */
module OctreeLog {

  datatype Option<T> = None | Some(value: T)

  /** One write to the log. */
  datatype Entry =
    | Header                                              // "NodePool contents:"
    | Node(addr: Option<nat>, flagged: bool, next: nat)   // one node, address optional
    | BrickSep                                            // the gap after a brick
    | LineBreak                                           // a bare newline
    | PoolEntry(index: nat, flagged: bool, next: nat)     // one line of the flat dump

  /** The record for one node, tagged with its address only when asked to. */
  function PrintNode(address: nat, flagged: bool, next: nat, useAddress: bool): Entry
  {
    Node(if useAddress then Some(address) else None, flagged, next)
  }

  /** The log that all debug output is appended to. */
  class Log {
    var entries: seq<Entry>

    constructor ()
      ensures entries == []
    {
      entries := [];
    }

    method Write(e: Entry)
      modifies this
      ensures entries == old(entries) + [e]
    {
      entries := entries + [e];
    }
  }
}
