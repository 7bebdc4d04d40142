/**
 * Building the in-memory filesystem from the report's rows: the row loop
 * of `process_ext2_report`. The pure functions `Step` and `FoldRows` give
 * the meaning of one row and of a whole report; the class `Filesystem`
 * holds the fields the loop updates in place and is proved against them.
 */
module Ingest {
  import opened Wrappers
  import opened Records

  /**
   * The value of a `Filesystem` object. A Python dict is a key order
   * (`inodeOrder`, `dirOrder`, `indirectOrder`: insertion order, which
   * iteration follows) together with a map.
   */
  datatype FilesystemState = FilesystemState(
    numBlocks: Option<int>,
    numInodes: Option<int>,
    blockSize: Option<int>,
    inodeSize: Option<int>,
    freeBlocks: seq<int>,
    freeInodes: seq<int>,
    inodeOrder: seq<int>,
    inodes: map<int, Inode>,
    dirOrder: seq<int>,
    directories: map<int, seq<Dirent>>,
    indirectOrder: seq<int>,
    indirectBlocks: map<int, seq<IndirectBlock>>)

  /** The freshly constructed filesystem: no superblock values, every list and dict empty. */
  function Initial(): FilesystemState
  {
    FilesystemState(None, None, None, None, [], [], [], map[], [], map[], [], map[])
  }

  /** A dict's key order after storing under `k`: a new key goes last, a known key keeps its place. */
  function Touch(order: seq<int>, k: int): (r: seq<int>)
    ensures forall x :: x in r <==> x in order || x == k
    ensures Distinct(order) ==> Distinct(r)
    ensures |order| <= |r| <= |order| + 1 && r[..|order|] == order
  {
    if k in order then order else order + [k]
  }

  /** The entries listed so far under directory `p` (none when `p` has no list yet). */
  function Entries(s: FilesystemState, p: int): seq<Dirent>
  {
    if p in s.directories then s.directories[p] else []
  }

  /** The indirect-block records listed so far under inode `p`. */
  function Indirects(s: FilesystemState, p: int): seq<IndirectBlock>
  {
    if p in s.indirectBlocks then s.indirectBlocks[p] else []
  }

  /** The inode table: keys listed once each, and a symlink is exactly an inode without block pointers. */
  ghost predicate InodeTableOk(order: seq<int>, inodes: map<int, Inode>)
  {
    && Distinct(order)
    && (forall k :: k in inodes <==> k in order)
    && (forall k :: k in inodes ==> (inodes[k].blocks.None? <==> inodes[k].fileType == "s"))
  }

  /** The directory lists: keys listed once each, every list non-empty and holding its own directory's entries. */
  ghost predicate DirectoryTableOk(order: seq<int>, directories: map<int, seq<Dirent>>)
  {
    && Distinct(order)
    && (forall p :: p in directories <==> p in order)
    && (forall p :: p in directories ==>
          |directories[p]| > 0 && forall e :: e in directories[p] ==> e.parentInode == p)
  }

  /** The indirect-block lists: keys listed once each, every list non-empty and holding its own inode's records. */
  ghost predicate IndirectTableOk(order: seq<int>, indirectBlocks: map<int, seq<IndirectBlock>>)
  {
    && Distinct(order)
    && (forall p :: p in indirectBlocks <==> p in order)
    && (forall p :: p in indirectBlocks ==>
          |indirectBlocks[p]| > 0 && forall b :: b in indirectBlocks[p] ==> b.parentInode == p)
  }

  /** The invariant every reachable state keeps. */
  ghost predicate WellFormed(s: FilesystemState)
  {
    && InodeTableOk(s.inodeOrder, s.inodes)
    && DirectoryTableOk(s.dirOrder, s.directories)
    && IndirectTableOk(s.indirectOrder, s.indirectBlocks)
  }

  /**
   * The inode record an INODE row stores. A symlink keeps no block fields;
   * any other type splits the fields from index 11 on into the direct
   * blocks and the last three (indirect, double, triple), and fails when
   * there are fewer than three of them.
   */
  function BuildInode(inodeNum: int, fileType: string, linkCount: int, fields: seq<int>): (r: Result<Inode, IngestError>)
    ensures r.Err? <==> fileType != "s" && |fields| < 3
    ensures r.Err? ==> r.error == MissingBlockFields(inodeNum)
    ensures r.Ok? ==> r.value.fileType == fileType && r.value.linkCount == linkCount
    ensures r.Ok? ==> (r.value.blocks.None? <==> fileType == "s")
    ensures r.Ok? && r.value.blocks.Some? ==>
      var b := r.value.blocks.value;
      b.direct + [b.indirect, b.doubleIndirect, b.tripleIndirect] == fields
  {
    if fileType == "s" then
      Ok(Inode(fileType, linkCount, None))
    else if |fields| < 3 then
      Err(MissingBlockFields(inodeNum))
    else
      var m := |fields| - 3;
      Ok(Inode(fileType, linkCount, Some(BlockPointers(fields[..m], fields[m], fields[m + 1], fields[m + 2]))))
  }

  /** The effect of one row; it fails exactly on a row that cannot be unpacked. */
  function Step(s: FilesystemState, row: Row): (r: Result<FilesystemState, IngestError>)
    ensures r.Err? <==> Malformed(row)
  {
    match row
    case EmptyRow => Err(NoLineType)
    case BFreeRow(b) => Ok(s.(freeBlocks := s.freeBlocks + [b]))
    case IFreeRow(i) => Ok(s.(freeInodes := s.freeInodes + [i]))
    case SuperblockRow(nb, ni, bs, isz) =>
      Ok(s.(numBlocks := Some(nb), numInodes := Some(ni), blockSize := Some(bs), inodeSize := Some(isz)))
    case InodeRow(k, ft, lc, fields) =>
      (match BuildInode(k, ft, lc, fields)
       case Err(e) => Err(e)
       case Ok(ino) => Ok(s.(inodeOrder := Touch(s.inodeOrder, k), inodes := s.inodes[k := ino])))
    case DirentRow(p, off, fi, name) =>
      Ok(s.(dirOrder := Touch(s.dirOrder, p),
            directories := s.directories[p := Entries(s, p) + [Dirent(p, off, fi, name)]]))
    case IndirectRow(p, d, off, b, rb) =>
      Ok(s.(indirectOrder := Touch(s.indirectOrder, p),
            indirectBlocks := s.indirectBlocks[p := Indirects(s, p) + [IndirectBlock(p, d, off, b, rb)]]))
    case OtherRow(_) => Ok(s)
  }

  /**
   * The effect of a whole report, row by row; the first row that cannot be
   * unpacked stops it. The key orders of the dicts only grow at the end, so
   * they list keys in order of first appearance.
   */
  function FoldRows(s: FilesystemState, rows: seq<Row>): (r: Result<FilesystemState, IngestError>)
    ensures r.Ok? ==> s.inodeOrder <= r.value.inodeOrder && s.dirOrder <= r.value.dirOrder
                      && s.indirectOrder <= r.value.indirectOrder
    decreases |rows|
  {
    if rows == [] then Ok(s)
    else
      StepKeepsKeyOrders(s, rows[0]);
      match Step(s, rows[0])
      case Err(e) => Err(e)
      case Ok(t) => FoldRows(t, rows[1..])
  }

  /** A dict key, once placed, keeps its position: one row only extends the key orders. */
  lemma StepKeepsKeyOrders(s: FilesystemState, row: Row)
    ensures Step(s, row).Ok? ==>
      && s.inodeOrder <= Step(s, row).value.inodeOrder
      && s.dirOrder <= Step(s, row).value.dirOrder
      && s.indirectOrder <= Step(s, row).value.indirectOrder
  {
  }

  // ---------------------------------------------------------------------
  // Reference definitions the fold is compared with

  /** A row that stops ingestion. */
  predicate Malformed(row: Row)
  {
    row.EmptyRow? || (row.InodeRow? && row.fileType != "s" && |row.blockFields| < 3)
  }

  /** The BFREE block numbers of `rows`, in order. */
  function FreeBlocksOf(rows: seq<Row>): seq<int>
  {
    if rows == [] then []
    else (if rows[0].BFreeRow? then [rows[0].block] else []) + FreeBlocksOf(rows[1..])
  }

  /** The IFREE inode numbers of `rows`, in order. */
  function FreeInodesOf(rows: seq<Row>): seq<int>
  {
    if rows == [] then []
    else (if rows[0].IFreeRow? then [rows[0].inode] else []) + FreeInodesOf(rows[1..])
  }

  /** The entries one row adds under `p`. */
  function RowDirents(row: Row, p: int): seq<Dirent>
  {
    if row.DirentRow? && row.parentInode == p
    then [Dirent(p, row.logicalOffset, row.fileInode, row.name)] else []
  }

  /** The indirect-block records one row adds under `p`. */
  function RowIndirects(row: Row, p: int): seq<IndirectBlock>
  {
    if row.IndirectRow? && row.parentInode == p
    then [IndirectBlock(p, row.depth, row.logicalOffset, row.blockNum, row.referencedBlockNum)] else []
  }

  /** The entries the DIRENT rows of `rows` give directory `p`, in order. */
  function DirentsUnder(rows: seq<Row>, p: int): seq<Dirent>
  {
    if rows == [] then [] else RowDirents(rows[0], p) + DirentsUnder(rows[1..], p)
  }

  /** The records the INDIRECT rows of `rows` give inode `p`, in order. */
  function IndirectsUnder(rows: seq<Row>, p: int): seq<IndirectBlock>
  {
    if rows == [] then [] else RowIndirects(rows[0], p) + IndirectsUnder(rows[1..], p)
  }

  /** The last SUPERBLOCK row of `rows`, if any. */
  function LastSuperblock(rows: seq<Row>): (r: Option<Row>)
    ensures r.Some? ==> r.value in rows && r.value.SuperblockRow?
  {
    if rows == [] then None
    else
      match LastSuperblock(rows[1..])
      case Some(x) => Some(x)
      case None => if rows[0].SuperblockRow? then Some(rows[0]) else None
  }

  /** The last INODE row of `rows` numbered `k`, if any. */
  function LastInodeRow(rows: seq<Row>, k: int): (r: Option<Row>)
    ensures r.Some? ==> r.value in rows && r.value.InodeRow? && r.value.inodeNum == k
  {
    if rows == [] then None
    else
      match LastInodeRow(rows[1..], k)
      case Some(x) => Some(x)
      case None => if rows[0].InodeRow? && rows[0].inodeNum == k then Some(rows[0]) else None
  }

  /** `rows` without the rows of unknown line type. */
  function KnownRows(rows: seq<Row>): (r: seq<Row>)
    ensures forall x :: x in r ==> x in rows && !x.OtherRow?
  {
    if rows == [] then []
    else (if rows[0].OtherRow? then [] else [rows[0]]) + KnownRows(rows[1..])
  }

  // ---------------------------------------------------------------------
  // Properties of the fold

  lemma InodeStoreKeepsTable(order: seq<int>, inodes: map<int, Inode>, k: int, ino: Inode)
    requires InodeTableOk(order, inodes)
    requires ino.blocks.None? <==> ino.fileType == "s"
    ensures InodeTableOk(Touch(order, k), inodes[k := ino])
  {
  }

  lemma DirentAppendKeepsTable(order: seq<int>, directories: map<int, seq<Dirent>>, e: Dirent)
    requires DirectoryTableOk(order, directories)
    ensures var p := e.parentInode;
      DirectoryTableOk(Touch(order, p),
                       directories[p := (if p in directories then directories[p] else []) + [e]])
  {
  }

  lemma IndirectAppendKeepsTable(order: seq<int>, indirectBlocks: map<int, seq<IndirectBlock>>, b: IndirectBlock)
    requires IndirectTableOk(order, indirectBlocks)
    ensures var p := b.parentInode;
      IndirectTableOk(Touch(order, p),
                      indirectBlocks[p := (if p in indirectBlocks then indirectBlocks[p] else []) + [b]])
  {
  }

  lemma StepKeepsWellFormed(s: FilesystemState, row: Row)
    requires WellFormed(s)
    requires Step(s, row).Ok?
    ensures WellFormed(Step(s, row).value)
  {
    match row
    case InodeRow(k, ft, lc, fields) =>
      var ino := BuildInode(k, ft, lc, fields).value;
      var t := s.(inodeOrder := Touch(s.inodeOrder, k), inodes := s.inodes[k := ino]);
      assert Step(s, row).value == t;
      InodeStoreKeepsTable(s.inodeOrder, s.inodes, k, ino);
    case DirentRow(p, off, fi, name) =>
      var t := s.(dirOrder := Touch(s.dirOrder, p),
                  directories := s.directories[p := Entries(s, p) + [Dirent(p, off, fi, name)]]);
      assert Step(s, row).value == t;
      DirentAppendKeepsTable(s.dirOrder, s.directories, Dirent(p, off, fi, name));
    case IndirectRow(p, d, off, b, rb) =>
      var t := s.(indirectOrder := Touch(s.indirectOrder, p),
                  indirectBlocks := s.indirectBlocks[p := Indirects(s, p) + [IndirectBlock(p, d, off, b, rb)]]);
      assert Step(s, row).value == t;
      IndirectAppendKeepsTable(s.indirectOrder, s.indirectBlocks, IndirectBlock(p, d, off, b, rb));
    case _ =>
  }

  /** Every state the fold reaches from a well-formed one is well formed (symlinks carry no blocks, entries sit under their parent). */
  lemma {:induction false} FoldKeepsWellFormed(s: FilesystemState, rows: seq<Row>)
    requires WellFormed(s)
    requires FoldRows(s, rows).Ok?
    ensures WellFormed(FoldRows(s, rows).value)
    decreases |rows|
  {
    if rows != [] {
      StepKeepsWellFormed(s, rows[0]);
      FoldKeepsWellFormed(Step(s, rows[0]).value, rows[1..]);
    }
  }

  /** Ingestion fails exactly when some row is malformed. */
  lemma {:induction false} FoldFailsIff(s: FilesystemState, rows: seq<Row>)
    ensures FoldRows(s, rows).Err? <==> exists j :: 0 <= j < |rows| && Malformed(rows[j])
    decreases |rows|
  {
    if rows != [] {
      if Step(s, rows[0]).Ok? {
        FoldFailsIff(Step(s, rows[0]).value, rows[1..]);
        if exists j :: 0 <= j < |rows| && Malformed(rows[j]) {
          var j :| 0 <= j < |rows| && Malformed(rows[j]);
          assert j != 0;
          assert Malformed(rows[1..][j - 1]);
        }
        if exists j :: 0 <= j < |rows[1..]| && Malformed(rows[1..][j]) {
          var j :| 0 <= j < |rows[1..]| && Malformed(rows[1..][j]);
          assert Malformed(rows[j + 1]);
        }
      } else {
        assert Malformed(rows[0]);
      }
    }
  }

  lemma StepAppendsFree(s: FilesystemState, row: Row)
    requires Step(s, row).Ok?
    ensures Step(s, row).value.freeBlocks == s.freeBlocks + (if row.BFreeRow? then [row.block] else [])
    ensures Step(s, row).value.freeInodes == s.freeInodes + (if row.IFreeRow? then [row.inode] else [])
  {
  }

  lemma {:induction false} FoldAppendsFreeBlocks(s: FilesystemState, rows: seq<Row>)
    requires FoldRows(s, rows).Ok?
    ensures FoldRows(s, rows).value.freeBlocks == s.freeBlocks + FreeBlocksOf(rows)
    decreases |rows|
  {
    if rows != [] {
      var t := Step(s, rows[0]).value;
      assert FoldRows(s, rows) == FoldRows(t, rows[1..]);
      StepAppendsFree(s, rows[0]);
      assert FreeBlocksOf(rows) == (if rows[0].BFreeRow? then [rows[0].block] else []) + FreeBlocksOf(rows[1..]);
      FoldAppendsFreeBlocks(t, rows[1..]);
    }
  }

  lemma {:induction false} FoldAppendsFreeInodes(s: FilesystemState, rows: seq<Row>)
    requires FoldRows(s, rows).Ok?
    ensures FoldRows(s, rows).value.freeInodes == s.freeInodes + FreeInodesOf(rows)
    decreases |rows|
  {
    if rows != [] {
      var t := Step(s, rows[0]).value;
      assert FoldRows(s, rows) == FoldRows(t, rows[1..]);
      StepAppendsFree(s, rows[0]);
      assert FreeInodesOf(rows) == (if rows[0].IFreeRow? then [rows[0].inode] else []) + FreeInodesOf(rows[1..]);
      FoldAppendsFreeInodes(t, rows[1..]);
    }
  }

  /** BFREE and IFREE numbers are appended to the free lists in input order. */
  lemma FoldAppendsFreeLists(s: FilesystemState, rows: seq<Row>)
    requires FoldRows(s, rows).Ok?
    ensures FoldRows(s, rows).value.freeBlocks == s.freeBlocks + FreeBlocksOf(rows)
    ensures FoldRows(s, rows).value.freeInodes == s.freeInodes + FreeInodesOf(rows)
  {
    FoldAppendsFreeBlocks(s, rows);
    FoldAppendsFreeInodes(s, rows);
  }

  lemma StepAppends(s: FilesystemState, row: Row, p: int)
    requires Step(s, row).Ok?
    ensures Entries(Step(s, row).value, p) == Entries(s, p) + RowDirents(row, p)
    ensures Indirects(Step(s, row).value, p) == Indirects(s, p) + RowIndirects(row, p)
  {
  }

  /** DIRENT rows are appended to their directory's list in input order. */
  lemma {:induction false} FoldAppendsDirents(s: FilesystemState, rows: seq<Row>, p: int)
    requires FoldRows(s, rows).Ok?
    ensures Entries(FoldRows(s, rows).value, p) == Entries(s, p) + DirentsUnder(rows, p)
    decreases |rows|
  {
    if rows != [] {
      var t := Step(s, rows[0]).value;
      assert FoldRows(s, rows) == FoldRows(t, rows[1..]);
      StepAppends(s, rows[0], p);
      assert DirentsUnder(rows, p) == RowDirents(rows[0], p) + DirentsUnder(rows[1..], p);
      FoldAppendsDirents(t, rows[1..], p);
    }
  }

  /** INDIRECT rows are appended to their inode's list in input order. */
  lemma {:induction false} FoldAppendsIndirects(s: FilesystemState, rows: seq<Row>, p: int)
    requires FoldRows(s, rows).Ok?
    ensures Indirects(FoldRows(s, rows).value, p) == Indirects(s, p) + IndirectsUnder(rows, p)
    decreases |rows|
  {
    if rows != [] {
      var t := Step(s, rows[0]).value;
      assert FoldRows(s, rows) == FoldRows(t, rows[1..]);
      StepAppends(s, rows[0], p);
      assert IndirectsUnder(rows, p) == RowIndirects(rows[0], p) + IndirectsUnder(rows[1..], p);
      FoldAppendsIndirects(t, rows[1..], p);
    }
  }

  /** The superblock values are those of the last SUPERBLOCK row; without one they are unchanged. */
  lemma {:induction false} FoldLastSuperblockWins(s: FilesystemState, rows: seq<Row>)
    requires FoldRows(s, rows).Ok?
    ensures var t := FoldRows(s, rows).value;
      match LastSuperblock(rows)
      case None =>
        t.numBlocks == s.numBlocks && t.numInodes == s.numInodes
        && t.blockSize == s.blockSize && t.inodeSize == s.inodeSize
      case Some(r) =>
        t.numBlocks == Some(r.numBlocks) && t.numInodes == Some(r.numInodes)
        && t.blockSize == Some(r.blockSize) && t.inodeSize == Some(r.inodeSize)
    decreases |rows|
  {
    if rows != [] {
      FoldLastSuperblockWins(Step(s, rows[0]).value, rows[1..]);
    }
  }

  /**
   * A later INODE row with the same number replaces the earlier record:
   * the stored record is the one built from the last such row; an inode
   * no row names keeps its place in the table (or its absence).
   */
  lemma {:induction false} FoldLastInodeWins(s: FilesystemState, rows: seq<Row>, k: int)
    requires FoldRows(s, rows).Ok?
    ensures var t := FoldRows(s, rows).value;
      match LastInodeRow(rows, k)
      case None =>
        (k in t.inodes <==> k in s.inodes) && (k in s.inodes ==> t.inodes[k] == s.inodes[k])
      case Some(r) =>
        BuildInode(k, r.fileType, r.linkCount, r.blockFields).Ok?
        && k in t.inodes
        && t.inodes[k] == BuildInode(k, r.fileType, r.linkCount, r.blockFields).value
    decreases |rows|
  {
    if rows != [] {
      FoldLastInodeWins(Step(s, rows[0]).value, rows[1..], k);
    }
  }

  /** Rows of unknown line type change nothing. */
  lemma {:induction false} FoldIgnoresUnknownRows(s: FilesystemState, rows: seq<Row>)
    ensures FoldRows(s, rows) == FoldRows(s, KnownRows(rows))
    decreases |rows|
  {
    if rows != [] {
      var rest := KnownRows(rows[1..]);
      if rows[0].OtherRow? {
        assert KnownRows(rows) == rest;
        FoldIgnoresUnknownRows(s, rows[1..]);
      } else {
        assert KnownRows(rows) == [rows[0]] + rest;
        assert KnownRows(rows)[1..] == rest;
        if Step(s, rows[0]).Ok? {
          FoldIgnoresUnknownRows(Step(s, rows[0]).value, rows[1..]);
        }
      }
    }
  }

  // ---------------------------------------------------------------------
  // The object the row loop fills in place

  class Filesystem {
    var numBlocks: Option<int>
    var numInodes: Option<int>
    var blockSize: Option<int>
    var inodeSize: Option<int>
    var freeBlocks: seq<int>
    var freeInodes: seq<int>
    var inodeOrder: seq<int>
    var inodes: map<int, Inode>
    var dirOrder: seq<int>
    var directories: map<int, seq<Dirent>>
    var indirectOrder: seq<int>
    var indirectBlocks: map<int, seq<IndirectBlock>>

    ghost function State(): FilesystemState
      reads this
    {
      FilesystemState(numBlocks, numInodes, blockSize, inodeSize, freeBlocks, freeInodes,
                      inodeOrder, inodes, dirOrder, directories, indirectOrder, indirectBlocks)
    }

    ghost predicate Valid()
      reads this
    {
      WellFormed(State())
    }

    constructor ()
      ensures Valid() && State() == Initial()
    {
      numBlocks, numInodes, blockSize, inodeSize := None, None, None, None;
      freeBlocks, freeInodes := [], [];
      inodeOrder, inodes := [], map[];
      dirOrder, directories := [], map[];
      indirectOrder, indirectBlocks := [], map[];
    }

    /** A BFREE row: the block number goes to the end of the free-block list. */
    method AddFreeBlock(b: int)
      requires Valid()
      modifies this
      ensures Valid() && State() == old(State()).(freeBlocks := old(freeBlocks) + [b])
    {
      freeBlocks := freeBlocks + [b];
    }

    /** An IFREE row: the inode number goes to the end of the free-inode list. */
    method AddFreeInode(i: int)
      requires Valid()
      modifies this
      ensures Valid() && State() == old(State()).(freeInodes := old(freeInodes) + [i])
    {
      freeInodes := freeInodes + [i];
    }

    /** A SUPERBLOCK row: its four values overwrite the counts and sizes. */
    method SetSuperblock(nb: int, ni: int, bs: int, isz: int)
      requires Valid()
      modifies this
      ensures Valid()
      ensures State() == old(State()).(numBlocks := Some(nb), numInodes := Some(ni),
                                       blockSize := Some(bs), inodeSize := Some(isz))
    {
      numBlocks, numInodes, blockSize, inodeSize := Some(nb), Some(ni), Some(bs), Some(isz);
    }

    /** An INODE row: the record is stored under its number, replacing any earlier one. */
    method PutInode(k: int, ino: Inode)
      requires Valid()
      requires ino.blocks.None? <==> ino.fileType == "s"
      modifies this
      ensures Valid()
      ensures State() == old(State()).(inodeOrder := Touch(old(inodeOrder), k), inodes := old(inodes)[k := ino])
    {
      InodeStoreKeepsTable(inodeOrder, inodes, k, ino);
      inodeOrder := Touch(inodeOrder, k);
      inodes := inodes[k := ino];
    }

    /** A DIRENT row: the entry goes to the end of its directory's list, which is created if absent. */
    method AddDirent(e: Dirent)
      requires Valid()
      modifies this
      ensures Valid()
      ensures State() == old(State()).(dirOrder := Touch(old(dirOrder), e.parentInode),
                                       directories := old(directories)[e.parentInode := Entries(old(State()), e.parentInode) + [e]])
    {
      DirentAppendKeepsTable(dirOrder, directories, e);
      var list := if e.parentInode in directories then directories[e.parentInode] else [];
      dirOrder := Touch(dirOrder, e.parentInode);
      directories := directories[e.parentInode := list + [e]];
    }

    /** An INDIRECT row: the record goes to the end of its inode's list, which is created if absent. */
    method AddIndirect(b: IndirectBlock)
      requires Valid()
      modifies this
      ensures Valid()
      ensures State() == old(State()).(indirectOrder := Touch(old(indirectOrder), b.parentInode),
                                       indirectBlocks := old(indirectBlocks)[b.parentInode := Indirects(old(State()), b.parentInode) + [b]])
    {
      IndirectAppendKeepsTable(indirectOrder, indirectBlocks, b);
      var list := if b.parentInode in indirectBlocks then indirectBlocks[b.parentInode] else [];
      indirectOrder := Touch(indirectOrder, b.parentInode);
      indirectBlocks := indirectBlocks[b.parentInode := list + [b]];
    }

    /** Folds one row into the object; on a row that cannot be unpacked nothing changes. */
    method AddRow(row: Row) returns (err: Option<IngestError>)
      requires Valid()
      modifies this
      ensures Valid()
      ensures Step(old(State()), row) == if err.None? then Ok(State()) else Err(err.value)
      ensures err.Some? ==> State() == old(State())
    {
      err := None;
      match row {
      case EmptyRow =>
        err := Some(NoLineType);
      case BFreeRow(b) =>
        AddFreeBlock(b);
      case IFreeRow(i) =>
        AddFreeInode(i);
      case SuperblockRow(nb, ni, bs, isz) =>
        SetSuperblock(nb, ni, bs, isz);
      case InodeRow(k, ft, lc, fields) =>
        var built := BuildInode(k, ft, lc, fields);
        if built.Err? {
          err := Some(built.error);
        } else {
          PutInode(k, built.value);
        }
      case DirentRow(p, off, fi, name) =>
        AddDirent(Dirent(p, off, fi, name));
      case IndirectRow(p, d, off, b, rb) =>
        AddIndirect(IndirectBlock(p, d, off, b, rb));
      case OtherRow(_) =>
      }
    }

    /** The row loop: folds the rows in order and stops at the first that cannot be unpacked. */
    method AddRows(rows: seq<Row>) returns (err: Option<IngestError>)
      requires Valid()
      modifies this
      ensures Valid()
      ensures FoldRows(old(State()), rows) == if err.None? then Ok(State()) else Err(err.value)
    {
      err := None;
      var i := 0;
      while i < |rows|
        invariant 0 <= i <= |rows|
        invariant Valid() && err.None?
        invariant FoldRows(old(State()), rows) == FoldRows(State(), rows[i..])
      {
        assert rows[i..][0] == rows[i] && rows[i..][1..] == rows[i + 1..];
        ghost var before := State();
        err := AddRow(rows[i]);
        if err.Some? {
          assert FoldRows(before, rows[i..]) == Err(err.value);
          return;
        }
        i := i + 1;
      }
      assert rows[i..] == [];
    }
  }
}
