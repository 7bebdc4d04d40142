/**
 * The directory consistency audit (`process_directory_consistency_audit`):
 * link counts against the entries naming each inode, per-entry checks of
 * the named inode, and the `..` entry of the root directory.
 */
module DirectoryConsistency {
  import opened Records
  import opened Ingest

  /** A directory entry together with the key of the directory list it sits in. */
  datatype Listing = Listing(directory: int, entry: Dirent)

  /** The entries `es` of directory `d`, each paired with `d`. */
  function ListingOf(d: int, es: seq<Dirent>): (r: seq<Listing>)
    ensures |r| == |es| && forall k :: 0 <= k < |es| ==> r[k] == Listing(d, es[k])
  {
    seq(|es|, k requires 0 <= k < |es| => Listing(d, es[k]))
  }

  /** Every directory key in `order` has a list. */
  predicate Listed(order: seq<int>, dirs: map<int, seq<Dirent>>)
  {
    forall d :: d in order ==> d in dirs
  }

  /** All entries of the directories in `order`, directory by directory, each list in its own order. */
  function AllListings(order: seq<int>, dirs: map<int, seq<Dirent>>): seq<Listing>
    requires Listed(order, dirs)
  {
    if order == [] then []
    else
      var d := order[|order| - 1];
      AllListings(order[..|order| - 1], dirs) + ListingOf(d, dirs[d])
  }

  /** The number of entries in `ls` that name inode `x` (`.` and `..` entries included). */
  function References(ls: seq<Listing>, x: int): nat
  {
    if ls == [] then 0
    else References(ls[..|ls| - 1], x) + (if ls[|ls| - 1].entry.fileInode == x then 1 else 0)
  }

  /** `refs` holds, for every inode some entry of `ls` names, the number of such entries, and nothing else. */
  ghost predicate Tallies(refs: map<int, nat>, ls: seq<Listing>)
  {
    forall x :: (x in refs <==> References(ls, x) > 0) && (x in refs ==> refs[x] == References(ls, x))
  }

  /** The LINKCOUNT findings for the inode table `keys`, in table order. */
  function LinkCountReport(keys: seq<int>, inodes: map<int, Inode>, ls: seq<Listing>): (r: seq<Finding>)
    requires forall k :: k in keys ==> k in inodes
    ensures forall f :: f in r ==> f.LinkCountMismatch? && f.inode in keys
  {
    if keys == [] then []
    else
      var k := keys[|keys| - 1];
      LinkCountReport(keys[..|keys| - 1], inodes, ls)
      + (if inodes[k].linkCount != References(ls, k)
         then [LinkCountMismatch(k, References(ls, k), inodes[k].linkCount)] else [])
  }

  /** The free inodes that are not in the inode table. */
  function UnallocatedSet(free: seq<int>, keys: seq<int>): (r: set<int>)
    ensures forall x :: x in r <==> x in free && x !in keys
  {
    (set x | x in free) - (set k | k in keys)
  }

  /** The findings for one entry: three independent checks, in this order. */
  function EntryFindings(n: int, unallocated: set<int>, l: Listing): (r: seq<Finding>)
    ensures var d, e := l.directory, l.entry;
      && (InvalidEntryInode(d, e.name, e.fileInode) in r <==> e.fileInode < 1 || e.fileInode > n + 1)
      && (UnallocatedEntryInode(d, e.name, e.fileInode) in r <==> e.fileInode in unallocated)
      && (DotLinkMismatch(d, e.fileInode) in r <==> e.name == "." && d != e.fileInode)
    ensures |r| <= 3
    ensures forall f :: f in r ==>
      (f.InvalidEntryInode? || f.UnallocatedEntryInode? || f.DotLinkMismatch?)
      && f.directory == l.directory && f.inode == l.entry.fileInode
  {
    var i := l.entry.fileInode;
    var name := l.entry.name;
    (if i < 1 || i > n + 1 then [InvalidEntryInode(l.directory, name, i)] else [])
    + (if i in unallocated then [UnallocatedEntryInode(l.directory, name, i)] else [])
    + (if name == "." && l.directory != i then [DotLinkMismatch(l.directory, i)] else [])
  }

  /** The per-entry findings for `ls`, entry by entry. */
  function EntriesReport(n: int, unallocated: set<int>, ls: seq<Listing>): (r: seq<Finding>)
    ensures forall f :: f in r ==> f.InvalidEntryInode? || f.UnallocatedEntryInode? || f.DotLinkMismatch?
  {
    if ls == [] then []
    else EntriesReport(n, unallocated, ls[..|ls| - 1]) + EntryFindings(n, unallocated, ls[|ls| - 1])
  }

  /** The root check: only the first `..` entry of the root is looked at, and it must name inode 2. */
  function RootDotDotReport(entries: seq<Dirent>): (r: seq<Finding>)
    ensures |r| <= 1
    ensures forall f :: f in r ==> f.RootDotDotMismatch? && f.inode != 2
  {
    if entries == [] then []
    else if entries[0].name == ".." then
      (if entries[0].fileInode != 2 then [RootDotDotMismatch(entries[0].fileInode)] else [])
    else RootDotDotReport(entries[1..])
  }

  /** What the audit needs: a superblock, a well-formed state and a root directory list. */
  ghost predicate DirectoryAuditReady(s: FilesystemState)
  {
    WellFormed(s) && s.numInodes.Some? && 2 in s.directories
  }

  /** All entries of the state, in the order the audit visits them. */
  function Listings(s: FilesystemState): seq<Listing>
    requires Listed(s.dirOrder, s.directories)
  {
    AllListings(s.dirOrder, s.directories)
  }

  /** The audit's findings: link counts, then the per-entry checks, then the root check. */
  ghost function DirectoryReport(s: FilesystemState): (r: seq<Finding>)
    requires DirectoryAuditReady(s)
    ensures forall f :: f in r ==>
      || (f.LinkCountMismatch? && f.inode in s.inodes)
      || f.InvalidEntryInode? || f.UnallocatedEntryInode? || f.DotLinkMismatch?
      || (f.RootDotDotMismatch? && f.inode != 2)
    ensures forall i, j :: 0 <= i < j < |r| && r[j].LinkCountMismatch? ==> r[i].LinkCountMismatch?
  {
    var ls := Listings(s);
    var links := LinkCountReport(s.inodeOrder, s.inodes, ls);
    var rest := EntriesReport(s.numInodes.value, UnallocatedSet(s.freeInodes, s.inodeOrder), ls)
                + RootDotDotReport(s.directories[2]);
    LinksFirst(links, rest);
    links + rest
  }

  lemma LinksFirst(links: seq<Finding>, rest: seq<Finding>)
    requires forall f :: f in links ==> f.LinkCountMismatch?
    requires forall f :: f in rest ==> !f.LinkCountMismatch?
    ensures forall i, j :: 0 <= i < j < |links + rest| && (links + rest)[j].LinkCountMismatch?
              ==> (links + rest)[i].LinkCountMismatch?
  {
    forall i, j | 0 <= i < j < |links + rest| && (links + rest)[j].LinkCountMismatch?
      ensures (links + rest)[i].LinkCountMismatch?
    {
      if j >= |links| {
        assert false;
      }
      assert (links + rest)[i] in links;
    }
  }

  // ---------------------------------------------------------------------
  // The audit's loops

  lemma ReferencesSnoc(ls: seq<Listing>, l: Listing, x: int)
    ensures References(ls + [l], x) == References(ls, x) + (if l.entry.fileInode == x then 1 else 0)
  {
    assert (ls + [l])[..|ls|] == ls;
  }

  lemma ListingsSnoc(order: seq<int>, dirs: map<int, seq<Dirent>>, i: int)
    requires Listed(order, dirs) && 0 <= i < |order|
    ensures Listed(order[..i], dirs) && Listed(order[..i + 1], dirs)
    ensures AllListings(order[..i + 1], dirs) == AllListings(order[..i], dirs) + ListingOf(order[i], dirs[order[i]])
  {
    assert order[..i + 1][..i] == order[..i];
  }

  lemma ListingOfSnoc(d: int, es: seq<Dirent>, j: int)
    requires 0 <= j < |es|
    ensures ListingOf(d, es[..j + 1]) == ListingOf(d, es[..j]) + [Listing(d, es[j])]
  {
  }

  /** The number of references is additive over concatenation. */
  lemma {:induction false} ReferencesAppend(a: seq<Listing>, b: seq<Listing>, x: int)
    ensures References(a + b, x) == References(a, x) + References(b, x)
    decreases |b|
  {
    if b != [] {
      var pre := b[..|b| - 1];
      assert a + b == (a + pre) + [b[|b| - 1]];
      assert (a + b)[..|a + b| - 1] == a + pre;
      assert (a + b)[|a + b| - 1] == b[|b| - 1];
      var bit := if b[|b| - 1].entry.fileInode == x then 1 else 0;
      assert References(b, x) == References(pre, x) + bit;
      assert References(a + b, x) == References(a + pre, x) + bit;
      ReferencesAppend(a, pre, x);
    } else {
      assert a + b == a;
    }
  }

  /** Adds to `refs` one count per entry of directory `d` (the inner loop of the first loop). */
  method TallyDirectory(refs: map<int, nat>, d: int, es: seq<Dirent>, ghost before: seq<Listing>)
    returns (tallied: map<int, nat>)
    requires Tallies(refs, before)
    ensures Tallies(tallied, before + ListingOf(d, es))
  {
    tallied := refs;
    var j := 0;
    assert before + ListingOf(d, es[..0]) == before;
    while j < |es|
      invariant 0 <= j <= |es|
      invariant Tallies(tallied, before + ListingOf(d, es[..j]))
    {
      var x := es[j].fileInode;
      ListingOfSnoc(d, es, j);
      ghost var done := before + ListingOf(d, es[..j]);
      assert before + ListingOf(d, es[..j + 1]) == done + [Listing(d, es[j])];
      forall y {
        ReferencesSnoc(done, Listing(d, es[j]), y);
      }
      tallied := tallied[x := (if x in tallied then tallied[x] else 0) + 1];
      j := j + 1;
    }
    assert es[..j] == es;
  }

  /** Counts, for every inode, the entries naming it across all directories (the first loop). */
  method CountReferences(fs: Filesystem) returns (refs: map<int, nat>)
    requires Listed(fs.dirOrder, fs.directories)
    ensures Tallies(refs, Listings(fs.State()))
  {
    var order, dirs := fs.dirOrder, fs.directories;
    refs := map[];
    var i := 0;
    while i < |order|
      invariant 0 <= i <= |order|
      invariant Listed(order[..i], dirs)
      invariant Tallies(refs, AllListings(order[..i], dirs))
    {
      ListingsSnoc(order, dirs, i);
      refs := TallyDirectory(refs, order[i], dirs[order[i]], AllListings(order[..i], dirs));
      i := i + 1;
    }
    assert order[..i] == order;
  }

  /** Compares every table inode's link count with its number of references (the second loop). */
  method CheckLinkCounts(fs: Filesystem, refs: map<int, nat>) returns (findings: seq<Finding>)
    requires forall k :: k in fs.inodeOrder ==> k in fs.inodes
    requires Listed(fs.dirOrder, fs.directories)
    requires Tallies(refs, Listings(fs.State()))
    ensures findings == LinkCountReport(fs.inodeOrder, fs.inodes, Listings(fs.State()))
  {
    var keys, inodes := fs.inodeOrder, fs.inodes;
    ghost var ls := Listings(fs.State());
    findings := [];
    var j := 0;
    while j < |keys|
      invariant 0 <= j <= |keys|
      invariant forall k :: k in keys[..j] ==> k in inodes
      invariant findings == LinkCountReport(keys[..j], inodes, ls)
    {
      var k := keys[j];
      assert keys[..j + 1][..j] == keys[..j];
      assert k in keys;
      var count := if k in refs then refs[k] else 0;
      assert count == References(ls, k);
      if inodes[k].linkCount != count {
        findings := findings + [LinkCountMismatch(k, count, inodes[k].linkCount)];
      }
      j := j + 1;
    }
    assert keys[..j] == keys;
  }

  /** The free inodes minus the inode table's numbers (the third and fourth loops). */
  method UnallocatedInodes(fs: Filesystem) returns (unallocated: set<int>)
    ensures unallocated == UnallocatedSet(fs.freeInodes, fs.inodeOrder)
  {
    var free, keys := fs.freeInodes, fs.inodeOrder;
    unallocated := {};
    var i := 0;
    while i < |free|
      invariant 0 <= i <= |free|
      invariant unallocated == set x | x in free[..i]
    {
      assert free[..i + 1] == free[..i] + [free[i]];
      unallocated := unallocated + {free[i]};
      i := i + 1;
    }
    assert free[..i] == free;
    var j := 0;
    while j < |keys|
      invariant 0 <= j <= |keys|
      invariant unallocated == UnallocatedSet(free, keys[..j])
    {
      assert keys[..j + 1] == keys[..j] + [keys[j]];
      if keys[j] in unallocated {
        unallocated := unallocated - {keys[j]};
      }
      j := j + 1;
    }
    assert keys[..j] == keys;
  }

  /** The per-entry findings of a concatenation are those of its parts, in order. */
  lemma {:induction false} EntriesReportAppend(n: int, unallocated: set<int>, a: seq<Listing>, b: seq<Listing>)
    ensures EntriesReport(n, unallocated, a + b) == EntriesReport(n, unallocated, a) + EntriesReport(n, unallocated, b)
    decreases |b|
  {
    if b != [] {
      var pre := b[..|b| - 1];
      assert a + b == (a + pre) + [b[|b| - 1]];
      assert (a + b)[..|a + b| - 1] == a + pre;
      assert (a + b)[|a + b| - 1] == b[|b| - 1];
      assert EntriesReport(n, unallocated, b)
          == EntriesReport(n, unallocated, pre) + EntryFindings(n, unallocated, b[|b| - 1]);
      EntriesReportAppend(n, unallocated, a, pre);
    } else {
      assert a + b == a;
    }
  }

  /** The three independent checks on one entry of directory `d`. */
  method CheckEntry(d: int, e: Dirent, n: int, unallocated: set<int>) returns (found: seq<Finding>)
    ensures found == EntryFindings(n, unallocated, Listing(d, e))
    ensures InvalidEntryInode(d, e.name, e.fileInode) in found <==> e.fileInode < 1 || e.fileInode > n + 1
    ensures UnallocatedEntryInode(d, e.name, e.fileInode) in found <==> e.fileInode in unallocated
    ensures DotLinkMismatch(d, e.fileInode) in found <==> e.name == "." && d != e.fileInode
  {
    found := [];
    var i := e.fileInode;
    if i < 1 || i > n + 1 {
      found := found + [InvalidEntryInode(d, e.name, i)];
    }
    if i in unallocated {
      found := found + [UnallocatedEntryInode(d, e.name, i)];
    }
    if e.name == "." {
      if d != i {
        found := found + [DotLinkMismatch(d, i)];
      }
    } else if e.name == ".." {
      // `..` entries are not checked here
    }
  }

  /** Checks each entry of directory `d` in list order (the inner loop of the fifth loop). */
  method CheckDirectory(d: int, es: seq<Dirent>, n: int, unallocated: set<int>) returns (findings: seq<Finding>)
    ensures findings == EntriesReport(n, unallocated, ListingOf(d, es))
  {
    findings := [];
    var j := 0;
    assert ListingOf(d, es[..0]) == [];
    while j < |es|
      invariant 0 <= j <= |es|
      invariant findings == EntriesReport(n, unallocated, ListingOf(d, es[..j]))
    {
      ListingOfSnoc(d, es, j);
      assert ListingOf(d, es[..j + 1])[..j] == ListingOf(d, es[..j]);
      var found := CheckEntry(d, es[j], n, unallocated);
      findings := findings + found;
      j := j + 1;
    }
    assert es[..j] == es;
  }

  /** The per-entry checks over every directory, in directory order (the fifth loop). */
  method CheckEntries(fs: Filesystem, n: int, unallocated: set<int>) returns (findings: seq<Finding>)
    requires Listed(fs.dirOrder, fs.directories)
    ensures findings == EntriesReport(n, unallocated, Listings(fs.State()))
  {
    var order, dirs := fs.dirOrder, fs.directories;
    findings := [];
    var i := 0;
    while i < |order|
      invariant 0 <= i <= |order|
      invariant Listed(order[..i], dirs)
      invariant findings == EntriesReport(n, unallocated, AllListings(order[..i], dirs))
    {
      ListingsSnoc(order, dirs, i);
      var found := CheckDirectory(order[i], dirs[order[i]], n, unallocated);
      EntriesReportAppend(n, unallocated, AllListings(order[..i], dirs), ListingOf(order[i], dirs[order[i]]));
      findings := findings + found;
      i := i + 1;
    }
    assert order[..i] == order;
  }

  /** Looks at the root's entries up to its first `..` entry (the last loop). */
  method CheckRootParent(fs: Filesystem) returns (findings: seq<Finding>)
    requires 2 in fs.directories
    ensures findings == RootDotDotReport(fs.directories[2])
  {
    var es := fs.directories[2];
    findings := [];
    var j := 0;
    while j < |es|
      invariant 0 <= j <= |es|
      invariant RootDotDotReport(es) == RootDotDotReport(es[j..])
    {
      assert es[j..][1..] == es[j + 1..];
      if es[j].name == ".." {
        if es[j].fileInode != 2 {
          findings := [RootDotDotMismatch(es[j].fileInode)];
        }
        break;
      }
      j := j + 1;
    }
  }

  /** The audit: the loops in the source's order, their findings concatenated. */
  method DirectoryConsistencyAudit(fs: Filesystem) returns (findings: seq<Finding>)
    requires fs.Valid() && DirectoryAuditReady(fs.State())
    ensures findings == DirectoryReport(fs.State())
  {
    var refs := CountReferences(fs);
    var links := CheckLinkCounts(fs, refs);
    var unallocated := UnallocatedInodes(fs);
    var entries := CheckEntries(fs, fs.numInodes.value, unallocated);
    var root := CheckRootParent(fs);
    findings := links + entries + root;
  }

  // ---------------------------------------------------------------------
  // What the report means

  /** An inode's reference count is zero exactly when no entry names it. */
  lemma {:induction false} ReferencesZeroIff(ls: seq<Listing>, x: int)
    ensures References(ls, x) == 0 <==> forall j :: 0 <= j < |ls| ==> ls[j].entry.fileInode != x
  {
    if ls != [] {
      var pre := ls[..|ls| - 1];
      ReferencesZeroIff(pre, x);
      assert forall j :: 0 <= j < |pre| ==> pre[j] == ls[j];
    }
  }

  /** The listing holds exactly the entries of the listed directories. */
  lemma {:induction false} AllListingsIff(order: seq<int>, dirs: map<int, seq<Dirent>>, d: int, e: Dirent)
    requires Listed(order, dirs)
    ensures Listing(d, e) in AllListings(order, dirs) <==> d in order && e in dirs[d]
  {
    if order != [] {
      var pre := order[..|order| - 1];
      var last := order[|order| - 1];
      assert order == pre + [last];
      AllListingsIff(pre, dirs, d, e);
      var l := ListingOf(last, dirs[last]);
      if Listing(d, e) in l {
        var k :| 0 <= k < |l| && l[k] == Listing(d, e);
        assert dirs[last][k] == e;
      }
      if d == last && e in dirs[d] {
        var k :| 0 <= k < |dirs[d]| && dirs[d][k] == e;
        assert l[k] == Listing(d, e);
      }
    }
  }

  /** A finding is among the per-entry findings exactly when one entry's checks produce it. */
  lemma {:induction false} EntriesReportMember(n: int, unallocated: set<int>, ls: seq<Listing>, f: Finding)
    ensures f in EntriesReport(n, unallocated, ls) <==> exists l :: l in ls && f in EntryFindings(n, unallocated, l)
  {
    if ls != [] {
      var pre := ls[..|ls| - 1];
      assert ls == pre + [ls[|ls| - 1]];
      EntriesReportMember(n, unallocated, pre, f);
    }
  }

  /** LINKCOUNT is reported for a table inode exactly when its stored count differs from its references. */
  lemma {:induction false} LinkCountReportIff(keys: seq<int>, inodes: map<int, Inode>, ls: seq<Listing>,
                                               k: int, c: nat, l: int)
    requires forall x :: x in keys ==> x in inodes
    ensures LinkCountMismatch(k, c, l) in LinkCountReport(keys, inodes, ls)
        <==> k in keys && c == References(ls, k) && l == inodes[k].linkCount && c != l
  {
    if keys != [] {
      var pre := keys[..|keys| - 1];
      assert keys == pre + [keys[|keys| - 1]];
      LinkCountReportIff(pre, inodes, ls, k, c, l);
    }
  }

  /** The per-entry findings of a well-formed state, by directory and entry. */
  lemma EntryFindingIn(s: FilesystemState, f: Finding)
    requires WellFormed(s)
    requires s.numInodes.Some?
    ensures f in EntriesReport(s.numInodes.value, UnallocatedSet(s.freeInodes, s.inodeOrder), Listings(s))
        <==> exists d, e :: d in s.directories && e in s.directories[d]
               && f in EntryFindings(s.numInodes.value, UnallocatedSet(s.freeInodes, s.inodeOrder), Listing(d, e))
  {
    var n, u := s.numInodes.value, UnallocatedSet(s.freeInodes, s.inodeOrder);
    EntriesReportMember(n, u, Listings(s), f);
    if exists l :: l in Listings(s) && f in EntryFindings(n, u, l) {
      var l :| l in Listings(s) && f in EntryFindings(n, u, l);
      AllListingsIff(s.dirOrder, s.directories, l.directory, l.entry);
    }
    if exists d, e :: d in s.directories && e in s.directories[d] && f in EntryFindings(n, u, Listing(d, e)) {
      var d, e :| d in s.directories && e in s.directories[d] && f in EntryFindings(n, u, Listing(d, e));
      AllListingsIff(s.dirOrder, s.directories, d, e);
    }
  }

  /**
   * LINKCOUNT is reported for inode k exactly when k is in the table and
   * its stored link count differs from the number of entries naming it.
   */
  lemma LinkCountReported(s: FilesystemState, k: int, c: nat, l: int)
    requires DirectoryAuditReady(s)
    ensures LinkCountMismatch(k, c, l) in DirectoryReport(s)
        <==> k in s.inodes && l == s.inodes[k].linkCount && c == References(Listings(s), k) && c != l
  {
    LinkCountReportIff(s.inodeOrder, s.inodes, Listings(s), k, c, l);
  }

  /** INVALID is reported for an entry exactly when its inode number is below 1 or above numInodes + 1. */
  lemma InvalidEntryReported(s: FilesystemState, d: int, name: string, i: int)
    requires DirectoryAuditReady(s)
    ensures InvalidEntryInode(d, name, i) in DirectoryReport(s)
        <==> d in s.directories
             && (exists e :: e in s.directories[d] && e.name == name && e.fileInode == i)
             && (i < 1 || i > s.numInodes.value + 1)
  {
    EntryFindingIn(s, InvalidEntryInode(d, name, i));
  }

  /**
   * UNALLOCATED is reported for an entry exactly when the inode it names
   * is on the free list and not in the inode table, whatever the INVALID
   * check says about the same entry.
   */
  lemma UnallocatedEntryReported(s: FilesystemState, d: int, name: string, i: int)
    requires DirectoryAuditReady(s)
    ensures UnallocatedEntryInode(d, name, i) in DirectoryReport(s)
        <==> d in s.directories
             && (exists e :: e in s.directories[d] && e.name == name && e.fileInode == i)
             && i in s.freeInodes && i !in s.inodes
  {
    EntryFindingIn(s, UnallocatedEntryInode(d, name, i));
  }

  /** A `.` entry is reported exactly when it does not name its own directory; no other entry is. */
  lemma DotLinkReported(s: FilesystemState, d: int, i: int)
    requires DirectoryAuditReady(s)
    ensures DotLinkMismatch(d, i) in DirectoryReport(s)
        <==> d in s.directories
             && (exists e :: e in s.directories[d] && e.name == "." && e.fileInode == i)
             && i != d
  {
    EntryFindingIn(s, DotLinkMismatch(d, i));
  }

  /**
   * Only the first `..` entry of the root is examined: it is reported
   * exactly when it does not name inode 2, and a root without `..` entry
   * yields nothing.
   */
  lemma {:induction false} RootDotDotFirstOnly(es: seq<Dirent>)
    ensures forall j :: 0 <= j < |es| && es[j].name == ".." && (forall k :: 0 <= k < j ==> es[k].name != "..") ==>
      RootDotDotReport(es) == if es[j].fileInode != 2 then [RootDotDotMismatch(es[j].fileInode)] else []
    ensures (forall j :: 0 <= j < |es| ==> es[j].name != "..") ==> RootDotDotReport(es) == []
  {
    if es != [] {
      RootDotDotFirstOnly(es[1..]);
      forall j | 0 <= j < |es| && es[j].name == ".." && (forall k :: 0 <= k < j ==> es[k].name != "..")
        ensures RootDotDotReport(es) == if es[j].fileInode != 2 then [RootDotDotMismatch(es[j].fileInode)] else []
      {
        if j > 0 {
          assert es[1..][j - 1] == es[j];
          assert forall k :: 0 <= k < j - 1 ==> es[1..][k] == es[k + 1];
        }
      }
      if forall j :: 0 <= j < |es| ==> es[j].name != ".." {
        assert es[0].name != "..";
        assert forall j :: 0 <= j < |es[1..]| ==> es[1..][j] == es[j + 1];
      }
    }
  }
}
