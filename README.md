# EXT2 metadata consistency checker, modelled in Dafny

This project models the core of `lab3b.py`, a checker for a CSV summary of an
EXT2 file system. The checker does three things:

- It folds the report's rows (`SUPERBLOCK`, `BFREE`, `IFREE`, `INODE`,
  `DIRENT`, `INDIRECT`) into a filesystem object.
- It runs the **inode allocation audit**. This audit reports table inodes
  that are also on the free list, and unreserved inodes that are neither free
  nor in the table.
- It runs the **directory consistency audit**. This audit compares link
  counts with directory references, checks the inode each entry names
  (INVALID, UNALLOCATED, a `.` entry that does not name its own directory),
  and checks the first `..` entry of the root directory.

Modules and files:

- `wrappers.dfy` (`Wrappers`): Option and Result.
- `records.dfy` (`Records`): the inode, directory-entry and indirect-block
  records, the typed input rows, and the findings, one variant per report line.
- `ingest.dfy` (`Ingest`): the `Filesystem` class, whose fields the row loop
  updates in place. Its methods are proved against the pure functions `Step`
  and `FoldRows`. Lemmas about `FoldRows` state how rows are folded.
- `inode_audit.dfy` (`InodeAllocation`): the audit over an array of
  `numInodes + 1` flags, proved against `InodeAllocationReport`, and the
  "reported iff" lemmas.
- `directory_audit.dfy` (`DirectoryConsistency`): the audit's loops, proved
  against `DirectoryReport`, and the "reported iff" lemmas.
- `checker.dfy` (`Checker`): one run. It ingests the rows, then runs both
  audits in the source's order.

How the model represents the source:

- A Python dict is a key sequence in insertion order plus a `map`. Storing
  under a known key keeps that key's position. So the findings come out in
  the order the source prints them.
- A printed line is a `Finding` value. Each audit returns its findings as a
  sequence.
- Inode numbers are `int`. The source keys `inodes`, `directories` and its
  reference counts by the decimal text of the number, and compares these keys
  with numbers passed through `int()`. The model assumes each number has one
  canonical decimal spelling, so that text equality and number equality agree.
- Python list indexing is modelled exactly. A negative index `i` in
  `-(n+1)..-1` selects flag `i + n + 1` (`InodeAllocation.Slot`).

What `lab3b.py` does not do, and so the model does not either:

- It has no block audit, reserved-region or logical-offset arithmetic,
  duplicate-block tracking or parent map.
- It checks no `..` entry except the first `..` entry of the root
  directory (lab3b.py:172-173 leave the generic case empty).
- It keeps the free blocks and free inodes as lists, duplicates included.
- It never sets an exit status for inconsistencies; every audit only prints.

## Model

| member | source | states |
|---|---|---|
| Ingest.Touch | lab3b.py:90-92 | storing under a key keeps the old key order as a prefix and adds at most one key, the new one, at the end; the order holds exactly the old keys plus the new one and stays free of repeats |
| Ingest.Step | lab3b.py:66-97 | the effect of one row on the filesystem value; it fails exactly on a row that cannot be unpacked. `Filesystem.AddRow` is proved equal to it |
| Ingest.StepKeepsKeyOrders | lab3b.py:83-97 | after one row, the old key order of the inode, directory and indirect-block dicts is a prefix of the new one |
| Ingest.FoldRows | lab3b.py:65-97 | the effect of the whole row loop, stopping at the first row that cannot be unpacked; on success every dict's old key order is a prefix of the new one, so keys are listed in order of first appearance. `Filesystem.AddRows` is proved equal to it |
| Ingest.BuildInode | lab3b.py:79-87 | an INODE row fails exactly when it is not a symlink and has fewer than three fields from index 11 on; a symlink stores no block fields; otherwise the direct blocks followed by the indirect, double and triple pointers are exactly those fields |
| Ingest.FoldFailsIff | lab3b.py:65-97 | ingestion fails exactly when some row has no line type or is a non-symlink INODE row without three block fields |
| Ingest.FoldKeepsWellFormed | lab3b.py:79-97 | after any report, every table key is listed once, an inode has no block fields exactly when it is a symlink, and every directory or indirect list is non-empty and holds only records of its own parent |
| Ingest.FoldAppendsFreeLists | lab3b.py:67-72 | the free-block and free-inode lists are the old lists followed by the BFREE and IFREE numbers, in input order |
| Ingest.FoldAppendsDirents | lab3b.py:88-92 | each directory's entry list is the old list followed by the entries of the DIRENT rows naming it as parent, in input order |
| Ingest.FoldAppendsIndirects | lab3b.py:93-97 | each inode's indirect-block list is the old list followed by the INDIRECT rows naming it, in input order |
| Ingest.FoldLastSuperblockWins | lab3b.py:73-78 | the four superblock values are those of the last SUPERBLOCK row, or unchanged when there is none |
| Ingest.FoldLastInodeWins | lab3b.py:79-87 | the stored record of inode k is the one built from the last INODE row numbered k; with no such row, k's presence and record are unchanged |
| Ingest.FoldIgnoresUnknownRows | lab3b.py:65-97 | folding a report gives the same result as folding it with the unknown rows removed |
| Ingest.Filesystem.constructor | lab3b.py:14-24 | a new filesystem has no superblock values and empty lists and dicts |
| Ingest.Filesystem.AddFreeBlock | lab3b.py:67-69 | a BFREE row appends its number to the free-block list and changes nothing else |
| Ingest.Filesystem.AddFreeInode | lab3b.py:70-72 | an IFREE row appends its number to the free-inode list and changes nothing else |
| Ingest.Filesystem.SetSuperblock | lab3b.py:73-78 | a SUPERBLOCK row overwrites the block count, inode count, block size and inode size |
| Ingest.Filesystem.PutInode | lab3b.py:83-87 | an INODE row stores its record under its number, replacing an earlier one and keeping that key's position |
| Ingest.Filesystem.AddDirent | lab3b.py:88-92 | a DIRENT row appends its entry to its parent's list, creating the list at the end of the key order if absent |
| Ingest.Filesystem.AddIndirect | lab3b.py:93-97 | an INDIRECT row appends its record to its inode's list, creating the list if absent |
| Ingest.Filesystem.AddRow | lab3b.py:66-97 | one row changes the object as `Step` says; a row that cannot be unpacked leaves it unchanged |
| Ingest.Filesystem.AddRows | lab3b.py:65-97 | the row loop leaves the object as `FoldRows` says, or stops with the error of the first malformed row |
| InodeAllocation.Slot | lab3b.py:111-122 | the flag Python's list indexing selects: an index the list of n+1 flags accepts lands in 0..n, a nonnegative index is itself, and -1 is the last flag n |
| InodeAllocation.InodeAllocationReport | lab3b.py:102-126 | the whole inode audit as a value: only ALLOCATED findings about table numbers and UNALLOCATED findings for 1..numInodes, with every ALLOCATED finding before every UNALLOCATED one. `InodeAllocationAudit` is proved equal to it |
| InodeAllocation.OnFreelistReport | lab3b.py:113-118 | the table pass yields only ALLOCATED INODE findings, at most one per table entry, each naming a table number |
| InodeAllocation.NotOnFreelistReport | lab3b.py:124-126 | the final scan up to m yields only UNALLOCATED INODE findings, for numbers in 1..m |
| InodeAllocation.MarkFree | lab3b.py:110-111 | after the first loop, a flag is set exactly when some free number indexes it |
| InodeAllocation.MarkTable | lab3b.py:113-118 | the table loop reports a number whose flag is already set, sets the others, and leaves a flag set exactly when a free or table number indexes it |
| InodeAllocation.MarkReserved | lab3b.py:120-122 | after the reserved loop, the flags of 1 and 3..10 are set and no other flag changes |
| InodeAllocation.ReportUnmarked | lab3b.py:124-126 | the last loop reports the numbers 1..n whose flag is clear, in ascending order |
| InodeAllocation.InodeAllocationAudit | lab3b.py:102-126 | the audit's findings are the ALLOCATED ones in table order, then the UNALLOCATED ones in ascending order |
| InodeAllocation.OnFreelistReportIsFreeTableEntries | lab3b.py:107-118 | with no negative numbers, ALLOCATED INODE is reported for exactly the table numbers that are also free, once per table entry, in table order |
| InodeAllocation.AllocatedInodeReported | lab3b.py:107-118 | with no negative numbers, ALLOCATED INODE k is reported iff k is in the inode table and on the free list |
| InodeAllocation.NotOnFreelistIff | lab3b.py:120-126 | UNALLOCATED INODE i is in the scan up to m iff 1 <= i <= m, i is not reserved and no free or table number indexes i |
| InodeAllocation.NotOnFreelistAscending | lab3b.py:124-126 | UNALLOCATED INODE findings come in strictly ascending inode order |
| InodeAllocation.UnallocatedInodeReported | lab3b.py:107-126 | UNALLOCATED INODE i is reported iff 1 <= i <= numInodes, i is not one of 1,3..10, and no free or table number indexes flag i; with no negative numbers, iff i is neither free nor in the inode table; so a reserved inode is never reported |
| DirectoryConsistency.TallyDirectory | lab3b.py:136-140 | counting one directory's entries adds, for each inode, the number of its entries naming that inode |
| DirectoryConsistency.CountReferences | lab3b.py:134-140 | the reference map holds exactly the inodes that some entry in some directory names, each with its number of naming entries (`.` and `..` included) |
| DirectoryConsistency.ReferencesAppend | lab3b.py:134-140 | a reference count over two entry lists is the sum of the counts over each |
| DirectoryConsistency.ReferencesZeroIff | lab3b.py:144-147 | an inode's reference count is 0 iff no entry names it |
| DirectoryConsistency.LinkCountReport | lab3b.py:142-150 | the link-count pass yields only LINKCOUNT findings about table inodes |
| DirectoryConsistency.CheckLinkCounts | lab3b.py:142-150 | the link-count loop reports, in table order, each table inode whose stored link count differs from its reference count (0 when unnamed) |
| DirectoryConsistency.LinkCountReportIff | lab3b.py:142-150 | LINKCOUNT (k, c, l) is in the pass iff k is a table number, c is k's reference count, l is its stored link count and c != l |
| DirectoryConsistency.LinkCountReported | lab3b.py:134-150 | in the whole audit, LINKCOUNT (k, c, l) is reported iff k is in the inode table, l is its link count, c is the number of entries naming k across all directories, and c != l |
| DirectoryConsistency.UnallocatedSet | lab3b.py:152-157 | the unallocated set holds exactly the numbers on the free list that are not inode-table keys. `UnallocatedInodes` is proved equal to it |
| DirectoryConsistency.UnallocatedInodes | lab3b.py:152-157 | the unallocated set is the free inodes minus the inode table's numbers |
| DirectoryConsistency.EntryFindings | lab3b.py:161-173 | one entry's findings, at most three, all about that entry: INVALID iff its inode is below 1 or above numInodes + 1, UNALLOCATED iff its inode is in the unallocated set, a `.` mismatch iff it is named `.` and does not name its own directory. `CheckEntry` is proved equal to it |
| DirectoryConsistency.EntriesReport | lab3b.py:159-173 | the per-entry pass yields only INVALID, UNALLOCATED and `.` findings |
| DirectoryConsistency.CheckEntry | lab3b.py:161-173 | one entry gets the INVALID, UNALLOCATED and `.` checks, each independent of the others: each finding is produced exactly under its own condition |
| DirectoryConsistency.CheckDirectory | lab3b.py:160-173 | a directory's entries are checked in list order |
| DirectoryConsistency.CheckEntries | lab3b.py:159-173 | every entry of every directory is checked, in directory order and then list order |
| DirectoryConsistency.EntriesReportAppend | lab3b.py:159-173 | the per-entry findings of two entry lists together are those of the first list followed by those of the second |
| DirectoryConsistency.EntriesReportMember | lab3b.py:159-173 | a finding is in the per-entry pass iff the checks of one entry produce it |
| DirectoryConsistency.AllListingsIff | lab3b.py:159-160 | the pass visits (d, e) iff d is a listed directory and e is one of its entries |
| DirectoryConsistency.EntryFindingIn | lab3b.py:159-173 | in a well-formed state, a per-entry finding is reported iff some entry e of some directory d produces it |
| DirectoryConsistency.InvalidEntryReported | lab3b.py:161-164 | INVALID (d, name, i) is reported iff directory d has an entry with that name naming i, and i < 1 or i > numInodes + 1 |
| DirectoryConsistency.UnallocatedEntryReported | lab3b.py:152-167 | UNALLOCATED (d, name, i) is reported iff directory d has such an entry and i is on the free list but not in the inode table, regardless of the INVALID check |
| DirectoryConsistency.DotLinkReported | lab3b.py:168-173 | a `.` link mismatch (d, i) is reported iff directory d has a `.` entry naming i and i != d; `..` entries never give this finding |
| DirectoryConsistency.RootDotDotReport | lab3b.py:175-180 | the root check yields at most one finding, and only one naming an inode other than 2 |
| DirectoryConsistency.CheckRootParent | lab3b.py:175-180 | the root loop stops at the first `..` entry of directory 2 and reports it iff it does not name inode 2 |
| DirectoryConsistency.RootDotDotFirstOnly | lab3b.py:175-180 | if the root's first `..` entry is at position j, the result depends only on that entry: a report iff it does not name 2; with no `..` entry there is no report |
| DirectoryConsistency.DirectoryReport | lab3b.py:129-180 | the whole directory audit as a value: only LINKCOUNT findings about table inodes, per-entry findings, and a root `..` finding not naming 2, with every LINKCOUNT finding first. `DirectoryConsistencyAudit` is proved equal to it |
| DirectoryConsistency.DirectoryConsistencyAudit | lab3b.py:129-180 | the audit's findings are the link-count ones, then the per-entry ones, then the root check's |
| Checker.ProcessReport | lab3b.py:61-100 | a malformed row stops the run with its error; otherwise the report is the inode audit's findings followed by the directory audit's, over the folded filesystem |

## Left out

- Opening the file and splitting lines with `csv.reader` (lab3b.py:63-64) is I/O. The input is a sequence of rows that are already split and typed.
- A row's fields arrive as integers or strings. So the model cannot show errors from `int()` on non-numeric text, or from a wrong field count in `SUPERBLOCK`, `DIRENT` or `INDIRECT` rows (`ValueError` on unpacking), or from an `INODE` row with fewer than six fields. Two unpacking errors remain possible in typed rows, and both are modelled: an empty row, and a non-symlink `INODE` row with fewer than three fields from index 11 on.
- `DIRENT` rows keep only the fields the source keeps. The entry length and name length are dropped, as the source drops them.
- Argument handling and the usage message (lab3b.py:50-59, 182-184) are command-line plumbing.
- `print` is replaced by returned `Finding` values. The exact text of each line is formatting and is not modelled.
- `Exit_Code` (lab3b.py:9-12) is never set by any audit, so the model has no inconsistency flag.
- Block sizes, block counts, inode sizes, block pointers and indirect-block records are stored. No audit reads them, as in the source.
- Crashes inside the audits are `requires` clauses, not modelled errors. These are: a missing `SUPERBLOCK` (`int(None)`), fewer than ten inodes, a free or table number the flag list cannot index (`IndexError`), and no directory 2 (`KeyError`). So the model does not show the findings printed before such a crash.
- Checker.ProcessReport: requires that the folded filesystem meets both audits' preconditions. The source prints partial output and then crashes when they fail.
- InodeAllocation.OnFreelistReportIsFreeTableEntries: stated only for inputs without negative numbers. A negative number shares a flag with a positive one through Python's negative indexing. `OnFreelistReport` models that exactly, but no lemma characterises it in terms of free-list membership.
- InodeAllocation.AllocatedInodeReported: stated only for inputs without negative numbers, for the same reason.
- Inode numbers are compared as numbers. The source compares dict keys as decimal text, which agrees only when each number has one spelling.
