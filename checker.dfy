/**
 * The checker's run over one report (`process_ext2_report`): the rows are
 * folded into a filesystem object, then the inode allocation audit and the
 * directory consistency audit run in that order, and their findings form
 * the report.
 */
module Checker {
  import opened Wrappers
  import opened Records
  import opened Ingest
  import opened InodeAllocation
  import opened DirectoryConsistency

  /** What the two audits need of the filesystem the rows build. */
  ghost predicate AuditReady(s: FilesystemState)
  {
    InodeAuditReady(s) && DirectoryAuditReady(s)
  }

  /**
   * Reads the rows, then audits. A row that cannot be unpacked stops the
   * run before any audit; otherwise the findings are the inode audit's
   * followed by the directory audit's.
   */
  method ProcessReport(rows: seq<Row>) returns (result: Result<seq<Finding>, IngestError>)
    requires FoldRows(Initial(), rows).Ok? ==> AuditReady(FoldRows(Initial(), rows).value)
    ensures FoldRows(Initial(), rows).Err? ==> result == Err(FoldRows(Initial(), rows).error)
    ensures FoldRows(Initial(), rows).Ok? ==>
      var s := FoldRows(Initial(), rows).value;
      result == Ok(InodeAllocationReport(s) + DirectoryReport(s))
  {
    var fs := new Filesystem();
    var err := fs.AddRows(rows);
    if err.Some? {
      return Err(err.value);
    }
    var inodeFindings := InodeAllocationAudit(fs);
    var directoryFindings := DirectoryConsistencyAudit(fs);
    result := Ok(inodeFindings + directoryFindings);
  }
}
