/** The parts of the directory tree the reader's core relies on. The tree itself (insertion,
    lookup, children lists) lives in code this model does not include, so it appears here only
    as the log of insertions the record parser makes and as the answers a lookup gives. */
module Directory {
  import opened Bytes

  /** The folder-or-file discriminator value stored in every variable entry. */
  const ENTRY_KIND_FILE: nat := 1

  /** A variable (a "file" of the directory): where its bytes live and how to read them. */
  datatype FileEntry = FileEntry(
    kind: nat,       // folder-or-file discriminator
    name: string,
    varType: nat,    // element type tag, truncated to 8 bits
    size: nat,       // payload length in bytes
    fileIndex: nat,  // index of the physical file at parse time, truncated to 8 bits
    filePos: nat)    // offset of the payload inside that file

  /** One insertion into the directory tree, in the order the parser makes them. */
  datatype DirEvent =
    | InsertFolder(path: seq<string>)
    | InsertFile(folder: seq<string>, entry: FileEntry)

  /** The answer of a children lookup: no such path, the sub-folders of a folder, or the
      variables of a folder that holds variables. Names are in insertion order. */
  datatype Children =
    | NoSuchPath
    | FolderChildren(names: seq<string>)
    | FileChildren(names: seq<string>)

  /** The `num_children` a lookup reports; a missing path reports `~0`. */
  function ChildCount(c: Children): (r: nat)
    ensures c.NoSuchPath? ==> r == SIZE_MAX
    ensures !c.NoSuchPath? ==> r == |c.names|
    ensures r < SIZE_MAX ==> !c.NoSuchPath?
  {
    match c
    case NoSuchPath => SIZE_MAX
    case FolderChildren(names) => |names|
    case FileChildren(names) => |names|
  }
}
