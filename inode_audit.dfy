/**
 * The inode allocation audit (`process_inode_allocation_audit`): a table of
 * `numInodes + 1` flags is marked from the free list and the inode table,
 * then the reserved inodes are forced on, and every inode number left
 * unmarked is reported.
 */
module InodeAllocation {
  import opened Records
  import opened Ingest

  /** Inode numbers the filesystem reserves; inode 2 (the root) is not among them. */
  const ReservedInodes: seq<int> := [1, 3, 4, 5, 6, 7, 8, 9, 10]

  /** The slot a list of `n + 1` flags uses for index `i`: a negative index counts from the end. */
  function Slot(i: int, n: nat): (r: int)
    ensures -(n + 1) <= i <= n ==> 0 <= r <= n
    ensures i >= 0 ==> r == i
    ensures i == -1 ==> r == n
  {
    if i < 0 then i + n + 1 else i
  }

  /** Every number in `s` is an index a list of `n + 1` flags accepts. */
  predicate Indexable(s: seq<int>, n: int)
  {
    forall x :: x in s ==> -(n + 1) <= x <= n
  }

  /** Some number of `s` marks slot `k`. */
  predicate Marked(s: seq<int>, n: nat, k: int)
  {
    |s| > 0 && (Marked(s[..|s| - 1], n, k) || Slot(s[|s| - 1], n) == k)
  }

  lemma MarkedSnoc(s: seq<int>, x: int, n: nat, k: int)
    ensures Marked(s + [x], n, k) <==> Marked(s, n, k) || Slot(x, n) == k
  {
    assert (s + [x])[..|s|] == s;
  }

  /** `Marked` holds exactly when some number of `s` lands on slot `k`. */
  lemma {:induction false} MarkedIff(s: seq<int>, n: nat, k: int)
    ensures Marked(s, n, k) <==> exists x :: x in s && Slot(x, n) == k
  {
    if s != [] {
      var pre := s[..|s| - 1];
      assert s == pre + [s[|s| - 1]];
      MarkedIff(pre, n, k);
      if exists x :: x in s && Slot(x, n) == k {
        var x :| x in s && Slot(x, n) == k;
        assert x in pre || x == s[|s| - 1];
      }
    }
  }

  /**
   * The ALLOCATED INODE findings for the table numbers `keys`, in table
   * order: a number is reported when its slot was already marked by the
   * free list or by an earlier table number.
   */
  function OnFreelistReport(free: seq<int>, keys: seq<int>, n: nat): (r: seq<Finding>)
    ensures forall f :: f in r ==> f.AllocatedInodeOnFreelist? && f.inode in keys
    ensures |r| <= |keys|
  {
    if keys == [] then []
    else
      var pre := keys[..|keys| - 1];
      var k := keys[|keys| - 1];
      OnFreelistReport(free, pre, n)
      + (if Marked(free + pre, n, Slot(k, n)) then [AllocatedInodeOnFreelist(k)] else [])
  }

  /** The UNALLOCATED INODE findings for the numbers 1..m, in ascending order. */
  function NotOnFreelistReport(marked: seq<int>, n: nat, m: int): (r: seq<Finding>)
    ensures forall f :: f in r ==> f.UnallocatedInodeNotOnFreelist? && 1 <= f.inode <= m
    decreases m
  {
    if m < 1 then []
    else
      NotOnFreelistReport(marked, n, m - 1)
      + (if Marked(marked, n, m) || m in ReservedInodes then [] else [UnallocatedInodeNotOnFreelist(m)])
  }

  /**
   * What the audit needs of the filesystem: a superblock giving at least
   * ten inodes (the reserved numbers must be indices of the table), and
   * free and table numbers the table accepts as indices.
   */
  predicate InodeAuditReady(s: FilesystemState)
  {
    && s.numInodes.Some?
    && s.numInodes.value >= 10
    && Indexable(s.freeInodes, s.numInodes.value)
    && Indexable(s.inodeOrder, s.numInodes.value)
  }

  /** The audit's findings: the ALLOCATED ones in table order, then the UNALLOCATED ones ascending. */
  function InodeAllocationReport(s: FilesystemState): (r: seq<Finding>)
    requires InodeAuditReady(s)
    ensures forall f :: f in r ==>
      || (f.AllocatedInodeOnFreelist? && f.inode in s.inodeOrder)
      || (f.UnallocatedInodeNotOnFreelist? && 1 <= f.inode <= s.numInodes.value)
    ensures forall i, j :: 0 <= i < j < |r| && r[j].AllocatedInodeOnFreelist? ==> r[i].AllocatedInodeOnFreelist?
  {
    var n := s.numInodes.value;
    OnFreelistReport(s.freeInodes, s.inodeOrder, n) + NotOnFreelistReport(s.freeInodes + s.inodeOrder, n, n)
  }

  /** Sets the flag of every number in `free` (the first loop). */
  method MarkFree(marks: array<bool>, free: seq<int>, n: nat)
    requires marks.Length == n + 1 && Indexable(free, n)
    requires forall k :: 0 <= k <= n ==> !marks[k]
    modifies marks
    ensures forall k :: 0 <= k <= n ==> marks[k] == Marked(free, n, k)
  {
    var i := 0;
    while i < |free|
      invariant 0 <= i <= |free|
      invariant forall k :: 0 <= k <= n ==> marks[k] == Marked(free[..i], n, k)
    {
      assert free[i] in free;
      marks[Slot(free[i], n)] := true;
      assert free[..i + 1] == free[..i] + [free[i]];
      forall k | 0 <= k <= n
        ensures marks[k] == Marked(free[..i + 1], n, k)
      {
        MarkedSnoc(free[..i], free[i], n, k);
      }
      i := i + 1;
    }
    assert free[..i] == free;
  }

  /**
   * Walks the inode table (the second loop): a number whose flag is already
   * set is reported, any other has its flag set.
   */
  method MarkTable(marks: array<bool>, free: seq<int>, keys: seq<int>, n: nat) returns (findings: seq<Finding>)
    requires marks.Length == n + 1 && Indexable(keys, n)
    requires forall k :: 0 <= k <= n ==> marks[k] == Marked(free, n, k)
    modifies marks
    ensures forall k :: 0 <= k <= n ==> marks[k] == Marked(free + keys, n, k)
    ensures findings == OnFreelistReport(free, keys, n)
  {
    findings := [];
    var j := 0;
    assert free + keys[..0] == free;
    while j < |keys|
      invariant 0 <= j <= |keys|
      invariant forall k :: 0 <= k <= n ==> marks[k] == Marked(free + keys[..j], n, k)
      invariant findings == OnFreelistReport(free, keys[..j], n)
    {
      var key := keys[j];
      assert key in keys;
      var slot := Slot(key, n);
      assert keys[..j + 1][..j] == keys[..j];
      if marks[slot] {
        findings := findings + [AllocatedInodeOnFreelist(key)];
      } else {
        marks[slot] := true;
      }
      assert free + keys[..j + 1] == (free + keys[..j]) + [key];
      forall k | 0 <= k <= n
        ensures marks[k] == Marked(free + keys[..j + 1], n, k)
      {
        MarkedSnoc(free + keys[..j], key, n, k);
      }
      j := j + 1;
    }
    assert keys[..j] == keys;
  }

  /** Sets the flag of every reserved inode (the third loop). */
  method MarkReserved(marks: array<bool>, ghost marked: seq<int>, n: nat)
    requires marks.Length == n + 1 && n >= 10
    requires forall k :: 0 <= k <= n ==> marks[k] == Marked(marked, n, k)
    modifies marks
    ensures forall k :: 0 <= k <= n ==> marks[k] == (Marked(marked, n, k) || k in ReservedInodes)
  {
    var r := 0;
    while r < |ReservedInodes|
      invariant 0 <= r <= |ReservedInodes|
      invariant forall k :: 0 <= k <= n ==> marks[k] == (Marked(marked, n, k) || k in ReservedInodes[..r])
    {
      marks[ReservedInodes[r]] := true;
      assert ReservedInodes[..r + 1] == ReservedInodes[..r] + [ReservedInodes[r]];
      r := r + 1;
    }
    assert ReservedInodes[..r] == ReservedInodes;
  }

  /** Reports every number from 1 to `n` whose flag is clear, in ascending order (the last loop). */
  method ReportUnmarked(marks: array<bool>, ghost marked: seq<int>, n: nat) returns (findings: seq<Finding>)
    requires marks.Length == n + 1
    requires forall k :: 0 <= k <= n ==> marks[k] == (Marked(marked, n, k) || k in ReservedInodes)
    ensures findings == NotOnFreelistReport(marked, n, n)
  {
    findings := [];
    var m := 1;
    while m <= n
      invariant 1 <= m <= n + 1
      invariant findings == NotOnFreelistReport(marked, n, m - 1)
    {
      if !marks[m] {
        findings := findings + [UnallocatedInodeNotOnFreelist(m)];
      }
      m := m + 1;
    }
  }

  /** The audit: the three marking loops over one table of flags, then the report of unmarked numbers. */
  method InodeAllocationAudit(fs: Filesystem) returns (findings: seq<Finding>)
    requires InodeAuditReady(fs.State())
    ensures findings == InodeAllocationReport(fs.State())
  {
    var n := fs.numInodes.value;
    var free, keys := fs.freeInodes, fs.inodeOrder;
    var marks := new bool[n + 1](_ => false);
    MarkFree(marks, free, n);
    var onFreelist := MarkTable(marks, free, keys, n);
    MarkReserved(marks, free + keys, n);
    var unallocated := ReportUnmarked(marks, free + keys, n);
    findings := onFreelist + unallocated;
  }

  // ---------------------------------------------------------------------
  // What the report means

  /** The table numbers that are also on the free list, once per table entry, in table order. */
  function FreeTableEntries(free: seq<int>, keys: seq<int>): seq<Finding>
  {
    if keys == [] then []
    else
      FreeTableEntries(free, keys[..|keys| - 1])
      + (if keys[|keys| - 1] in free then [AllocatedInodeOnFreelist(keys[|keys| - 1])] else [])
  }

  /**
   * With no negative numbers and a table without repeats, ALLOCATED INODE
   * is reported exactly for the table numbers that are also free, once per
   * table entry, in table order.
   */
  lemma {:induction false} OnFreelistReportIsFreeTableEntries(free: seq<int>, keys: seq<int>, n: nat)
    requires forall x :: x in free ==> x >= 0
    requires forall x :: x in keys ==> x >= 0
    requires Distinct(keys)
    ensures OnFreelistReport(free, keys, n) == FreeTableEntries(free, keys)
  {
    if keys != [] {
      var pre := keys[..|keys| - 1];
      var k := keys[|keys| - 1];
      assert forall x :: x in pre ==> x in keys;
      assert Distinct(pre);
      OnFreelistReportIsFreeTableEntries(free, pre, n);
      MarkedIff(free + pre, n, Slot(k, n));
      if exists x :: x in free + pre && Slot(x, n) == Slot(k, n) {
        var x :| x in free + pre && Slot(x, n) == Slot(k, n);
        assert x in free || x in pre;
        assert k in keys;
        assert x == k;
        assert x !in pre;
      }
      assert k in free ==> k in free + pre && Slot(k, n) == Slot(k, n);
    }
  }

  /** UNALLOCATED INODE i is reported exactly for the unreserved i in 1..m that nothing marked. */
  lemma {:induction false} NotOnFreelistIff(marked: seq<int>, n: nat, m: int, i: int)
    ensures UnallocatedInodeNotOnFreelist(i) in NotOnFreelistReport(marked, n, m)
        <==> 1 <= i <= m && i !in ReservedInodes && !Marked(marked, n, i)
    decreases m
  {
    if m >= 1 {
      NotOnFreelistIff(marked, n, m - 1, i);
    }
  }

  /** The findings of `r` name strictly ascending inode numbers. */
  predicate Ascending(r: seq<Finding>)
  {
    forall p, q :: 0 <= p < q < |r| ==> r[p].inode < r[q].inode
  }

  /** The UNALLOCATED INODE findings come in strictly ascending inode order. */
  lemma {:induction false} NotOnFreelistAscending(marked: seq<int>, n: nat, m: int)
    ensures Ascending(NotOnFreelistReport(marked, n, m))
    decreases m
  {
    if m >= 1 {
      NotOnFreelistAscending(marked, n, m - 1);
      var prev := NotOnFreelistReport(marked, n, m - 1);
      assert Ascending(prev);
      var r := NotOnFreelistReport(marked, n, m);
      var last := if Marked(marked, n, m) || m in ReservedInodes then [] else [UnallocatedInodeNotOnFreelist(m)];
      assert r == prev + last;
      forall p, q | 0 <= p < q < |r|
        ensures r[p].inode < r[q].inode
      {
        if q >= |prev| {
          assert |last| == 1 && q == |prev|;
          assert r[q] == UnallocatedInodeNotOnFreelist(m);
          assert r[p] == prev[p] && prev[p] in prev;
          assert prev[p].inode <= m - 1;
        } else {
          assert r[p] == prev[p] && r[q] == prev[q];
          assert prev[p].inode < prev[q].inode;
        }
      }
    }
  }

  /**
   * UNALLOCATED INODE i is reported exactly when i is in 1..numInodes, is
   * not reserved, and no free or table number lands on its slot; with no
   * negative numbers: when i is neither free nor in the inode table. So a
   * reserved inode is never reported.
   */
  lemma UnallocatedInodeReported(s: FilesystemState, i: int)
    requires WellFormed(s) && InodeAuditReady(s)
    ensures var n := s.numInodes.value;
      UnallocatedInodeNotOnFreelist(i) in InodeAllocationReport(s)
      <==> 1 <= i <= n && i !in ReservedInodes
           && forall x :: x in s.freeInodes + s.inodeOrder ==> Slot(x, n) != i
    ensures (forall x :: x in s.freeInodes ==> x >= 0) && (forall x :: x in s.inodeOrder ==> x >= 0) ==>
      (UnallocatedInodeNotOnFreelist(i) in InodeAllocationReport(s)
       <==> 1 <= i <= s.numInodes.value && i !in ReservedInodes && i !in s.freeInodes && i !in s.inodes)
  {
    var n := s.numInodes.value;
    NotOnFreelistIff(s.freeInodes + s.inodeOrder, n, n, i);
    MarkedIff(s.freeInodes + s.inodeOrder, n, i);
    if (forall x :: x in s.freeInodes ==> x >= 0) && (forall x :: x in s.inodeOrder ==> x >= 0) {
      if i in s.freeInodes {
        assert i in s.freeInodes + s.inodeOrder;
      }
      if i in s.inodes {
        assert i in s.freeInodes + s.inodeOrder;
      }
    }
  }

  /**
   * With no negative numbers, ALLOCATED INODE k is reported exactly when k
   * is in the inode table and on the free list.
   */
  lemma AllocatedInodeReported(s: FilesystemState, k: int)
    requires WellFormed(s) && InodeAuditReady(s)
    requires forall x :: x in s.freeInodes ==> x >= 0
    requires forall x :: x in s.inodeOrder ==> x >= 0
    ensures AllocatedInodeOnFreelist(k) in InodeAllocationReport(s) <==> k in s.inodes && k in s.freeInodes
  {
    var n := s.numInodes.value;
    OnFreelistReportIsFreeTableEntries(s.freeInodes, s.inodeOrder, n);
    FreeTableEntriesIff(s.freeInodes, s.inodeOrder, k);
  }

  lemma {:induction false} FreeTableEntriesIff(free: seq<int>, keys: seq<int>, k: int)
    ensures AllocatedInodeOnFreelist(k) in FreeTableEntries(free, keys) <==> k in keys && k in free
  {
    if keys != [] {
      var pre := keys[..|keys| - 1];
      assert keys == pre + [keys[|keys| - 1]];
      FreeTableEntriesIff(free, pre, k);
    }
  }
}
