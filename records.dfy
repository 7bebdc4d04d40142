/**
 * The records of an EXT2 report as the checker holds them in memory:
 * the input rows after line-type dispatch, the inode, directory-entry and
 * indirect-block records, and the inconsistencies the audits report.
 */
module Records {
  import opened Wrappers

  /** Block pointers of a non-symlink inode: the direct slots and the three indirect levels. */
  datatype BlockPointers = BlockPointers(
    direct: seq<int>,
    indirect: int,
    doubleIndirect: int,
    tripleIndirect: int)

  /** An inode record; a symlink (file type "s") carries no block pointers. */
  datatype Inode = Inode(fileType: string, linkCount: int, blocks: Option<BlockPointers>)

  /** A directory entry: the directory it belongs to, its offset, the inode it names and its name. */
  datatype Dirent = Dirent(parentInode: int, logicalOffset: int, fileInode: int, name: string)

  /** One reference found inside an indirect block owned by `parentInode`. */
  datatype IndirectBlock = IndirectBlock(
    parentInode: int,
    depth: int,
    logicalOffset: int,
    blockNum: int,
    referencedBlockNum: int)

  /**
   * One already-split input row, by its line type. Numeric fields are
   * already integers. `blockFields` of an INODE row holds the fields from
   * index 11 (after the line type) on. `OtherRow` stands for a row whose
   * line type is none of the six the checker knows; `EmptyRow` for a line
   * with no fields at all.
   */
  datatype Row =
    | BFreeRow(block: int)
    | IFreeRow(inode: int)
    | SuperblockRow(numBlocks: int, numInodes: int, blockSize: int, inodeSize: int)
    | InodeRow(inodeNum: int, fileType: string, linkCount: int, blockFields: seq<int>)
    | DirentRow(parentInode: int, logicalOffset: int, fileInode: int, name: string)
    | IndirectRow(parentInode: int, depth: int, logicalOffset: int, blockNum: int, referencedBlockNum: int)
    | OtherRow(lineType: string)
    | EmptyRow

  /** Why ingestion stops: the row cannot be unpacked. */
  datatype IngestError =
    | NoLineType
    | MissingBlockFields(inodeNum: int)

  /** One reported inconsistency; each variant is one line of the checker's report. */
  datatype Finding =
    | AllocatedInodeOnFreelist(inode: int)
    | UnallocatedInodeNotOnFreelist(inode: int)
    | LinkCountMismatch(inode: int, links: nat, linkCount: int)
    | InvalidEntryInode(directory: int, name: string, inode: int)
    | UnallocatedEntryInode(directory: int, name: string, inode: int)
    | DotLinkMismatch(directory: int, inode: int)
    | RootDotDotMismatch(inode: int)

  /** No value occurs twice in `s`. */
  predicate Distinct(s: seq<int>)
  {
    forall i, j :: 0 <= i < j < |s| ==> s[i] != s[j]
  }
}
