/**
 * The tree builder: `ProcTree#gen_tree` and `ProcTree#tree_sort`
 * (procthing.rb). The table is a Ruby Hash from pid to ProcNode; a node's
 * children are the pids of the nodes appended to it.
 */
module Builder {
  import opened Wrappers
  import opened OrderedHash
  import opened Procs

  type Table = Hash<ProcNode>

  /** The kernel-thread supervisor, left unattached unless kernel threads are shown. */
  const KTHREADD := 2

  /** tree_sort attaches every entry except pid 0, and pid 2 only with the kernel option. */
  predicate Attachable(pid: int, kernelThreads: bool) {
    pid != 0 && (pid != KTHREADD || kernelThreads)
  }

  // ---------------------------------------------------------------------------
  // gen_tree: the table
  // ---------------------------------------------------------------------------

  /** gen_tree's fill: each record, in snapshot order, stored as a childless node under its pid. */
  function Fill(procs: seq<ProcRecord>): (t: Table)
    ensures t.Valid()
  {
    if procs == [] then Empty()
    else
      var last := procs[|procs| - 1];
      Fill(procs[..|procs| - 1]).Store(last.pid, ProcNode(last, []))
  }

  /** The table before tree_sort: the snapshot's nodes, then `tree[0] = ProcNode.new(kproc)`. */
  function InitialTable(procs: seq<ProcRecord>, kernel: ProcRecord): (t: Table)
    ensures t.Valid()
  {
    Fill(procs).Store(0, ProcNode(kernel, []))
  }

  /** One more record is one more `h[prc.pid] = ProcNode.new(prc)`. */
  lemma FillSnoc(procs: seq<ProcRecord>, r: ProcRecord)
    ensures Fill(procs + [r]) == Fill(procs).Store(r.pid, ProcNode(r, []))
  {
    assert (procs + [r])[..|procs|] == procs;
  }

  ghost function Pids(procs: seq<ProcRecord>): set<int> {
    set r | r in procs :: r.pid
  }

  /** procs[i] is the last record of the snapshot with its pid. */
  ghost predicate Latest(procs: seq<ProcRecord>, i: int) {
    0 <= i < |procs| && forall j :: i < j < |procs| ==> procs[j].pid != procs[i].pid
  }

  /** A record with pid x comes before every record with pid y. */
  ghost predicate OccursBefore(procs: seq<ProcRecord>, x: int, y: int) {
    exists i :: 0 <= i < |procs| && procs[i].pid == x && forall j :: 0 <= j <= i ==> procs[j].pid != y
  }

  /** Every entry of a table still waiting for tree_sort has no children. */
  ghost predicate Unsorted(t: Table) {
    t.Valid() && forall p :: p in t.values ==> t.values[p].children == []
  }

  /** Filling the hash gives one childless entry per distinct pid of the snapshot. */
  lemma {:induction false} FillKeys(procs: seq<ProcRecord>)
    ensures Unsorted(Fill(procs))
    ensures Fill(procs).values.Keys == Pids(procs)
  {
    if procs != [] {
      var n := |procs| - 1;
      assert procs == procs[..n] + [procs[n]];
      FillKeys(procs[..n]);
    }
  }

  /** For a repeated pid the later record wins. */
  lemma {:induction false} FillLatest(procs: seq<ProcRecord>)
    ensures forall i :: Latest(procs, i) ==>
              procs[i].pid in Fill(procs).values && Fill(procs).values[procs[i].pid] == ProcNode(procs[i], [])
  {
    if procs != [] {
      var n := |procs| - 1;
      FillLatest(procs[..n]);
      forall i | Latest(procs, i)
        ensures procs[i].pid in Fill(procs).values && Fill(procs).values[procs[i].pid] == ProcNode(procs[i], [])
      {
        if i < n {
          assert Latest(procs[..n], i);
        }
      }
    }
  }

  /** Keys are in order of first appearance in the snapshot. */
  lemma {:induction false} FillOrder(procs: seq<ProcRecord>)
    ensures forall a, b :: 0 <= a < b < |Fill(procs).keys| ==>
              OccursBefore(procs, Fill(procs).keys[a], Fill(procs).keys[b])
  {
    if procs != [] {
      var n := |procs| - 1;
      var pre := procs[..n];
      FillOrder(pre);
      FillKeys(pre);
      var t0 := Fill(pre);
      var k := procs[n].pid;
      var t := t0.Store(k, ProcNode(procs[n], []));
      assert Fill(procs) == t;
      forall a, b | 0 <= a < b < |t.keys|
        ensures OccursBefore(procs, t.keys[a], t.keys[b])
      {
        if b < |t0.keys| {
          OccursBeforeExtend(pre, procs, t0.keys[a], t0.keys[b]);
        } else {
          NewKeyOccursLast(pre, procs, t.keys[a], k);
        }
      }
    }
  }

  lemma OccursBeforeExtend(pre: seq<ProcRecord>, procs: seq<ProcRecord>, x: int, y: int)
    requires pre <= procs && OccursBefore(pre, x, y)
    ensures OccursBefore(procs, x, y)
  {
    var i :| 0 <= i < |pre| && pre[i].pid == x && forall j :: 0 <= j <= i ==> pre[j].pid != y;
    assert procs[i].pid == x && forall j :: 0 <= j <= i ==> procs[j].pid != y;
  }

  lemma NewKeyOccursLast(pre: seq<ProcRecord>, procs: seq<ProcRecord>, x: int, y: int)
    requires pre <= procs && x in Pids(pre) && y !in Pids(pre)
    ensures OccursBefore(procs, x, y)
  {
    var r :| r in pre && r.pid == x;
    var i :| 0 <= i < |pre| && pre[i] == r;
    forall j | 0 <= j <= i
      ensures procs[j].pid != y
    {
      assert pre[j] in pre;
    }
    assert procs[i].pid == x;
  }

  /** Since kproc has pid 0, installing it is one more step of the fill. */
  lemma InitialTableIsFill(procs: seq<ProcRecord>, kernel: ProcRecord)
    requires kernel.pid == 0
    ensures InitialTable(procs, kernel) == Fill(procs + [kernel])
  {
    assert (procs + [kernel])[..|procs|] == procs;
  }

  /**
   * The table gen_tree builds has exactly one entry per distinct pid of the
   * snapshot plus key 0; entry 0 is the kernel node even when the snapshot had
   * a pid-0 record; for a repeated pid the later record wins; keys are in
   * order of first appearance (0 last unless the snapshot had it).
   */
  lemma InitialTableEntries(procs: seq<ProcRecord>, kernel: ProcRecord)
    requires kernel.pid == 0
    ensures var t := InitialTable(procs, kernel);
      && Unsorted(t)
      && t.values.Keys == Pids(procs) + {0}
      && t.values[0] == ProcNode(kernel, [])
      && (forall i :: Latest(procs, i) && procs[i].pid != 0 ==> t.values[procs[i].pid] == ProcNode(procs[i], []))
      && (forall a, b :: 0 <= a < b < |t.keys| ==> OccursBefore(procs + [kernel], t.keys[a], t.keys[b]))
  {
    var all := procs + [kernel];
    InitialTableIsFill(procs, kernel);
    FillKeys(all);
    FillLatest(all);
    FillOrder(all);
    assert Pids(all) == Pids(procs) + {0} by {
      assert forall r :: r in all <==> r in procs || r == kernel;
    }
    assert Latest(all, |procs|);
    forall i | Latest(procs, i) && procs[i].pid != 0
      ensures Latest(all, i)
    {
    }
  }

  // ---------------------------------------------------------------------------
  // tree_sort: attaching every node to its parent
  // ---------------------------------------------------------------------------

  /** The entry tree_sort would attach but whose parent has no entry. */
  ghost predicate Orphan(t: Table, pid: int, kernelThreads: bool) {
    pid in t.values && Attachable(pid, kernelThreads) && t.values[pid].proc.ppid !in t.values
  }

  ghost predicate NoOrphans(t: Table, kernelThreads: bool) {
    forall k :: k in t.values ==> !Orphan(t, k, kernelThreads)
  }

  /** e names the first orphan in table order, the entry at which tree_sort raises. */
  ghost predicate ReportsFirstOrphan(t: Table, kernelThreads: bool, e: Error) {
    exists i ::
      && 0 <= i < |t.keys|
      && Orphan(t, t.keys[i], kernelThreads)
      && (forall j :: 0 <= j < i ==> !Orphan(t, t.keys[j], kernelThreads))
      && e == MissingParent(t.keys[i], t.values[t.keys[i]].proc.ppid)
  }

  /** The keys among ks, in ks's order, that tree_sort appends to parent's children. */
  function Attached(t: Table, ks: seq<int>, parent: int, kernelThreads: bool): seq<int> {
    if ks == [] then []
    else
      var k := ks[|ks| - 1];
      Attached(t, ks[..|ks| - 1], parent, kernelThreads)
        + (if k in t.values && Attachable(k, kernelThreads) && t.values[k].proc.ppid == parent then [k] else [])
  }

  /** Visiting one more key appends it when it attaches to the parent. */
  lemma AttachedSnoc(t: Table, ks: seq<int>, k: int, parent: int, kernelThreads: bool)
    ensures Attached(t, ks + [k], parent, kernelThreads) ==
      Attached(t, ks, parent, kernelThreads) + if AttachesTo(t, k, parent, kernelThreads) then [k] else []
  {
    assert (ks + [k])[..|ks|] == ks;
  }

  /** The table after tree_sort: each node's children extended by the entries naming it as parent. */
  function Sorted(t: Table, kernelThreads: bool): (tree: Table)
    ensures tree.keys == t.keys && tree.values.Keys == t.values.Keys
  {
    Hash(t.keys, map p | p in t.values ::
                   ProcNode(t.values[p].proc, t.values[p].children + Attached(t, t.keys, p, kernelThreads)))
  }

  /** The table after tree_sort has visited the first i keys. */
  function SortedUpTo(t: Table, i: nat, kernelThreads: bool): Table
    requires i <= |t.keys|
  {
    Hash(t.keys, map p | p in t.values ::
                   ProcNode(t.values[p].proc, t.values[p].children + Attached(t, t.keys[..i], p, kernelThreads)))
  }

  /** Visiting key i appends it to its parent's children, or does nothing when it is skipped. */
  lemma SortedUpToStep(t: Table, i: nat, kernelThreads: bool)
    requires t.Valid() && i < |t.keys|
    ensures var pid := t.keys[i];
      var ppid := t.values[pid].proc.ppid;
      var cur := SortedUpTo(t, i, kernelThreads);
      && cur.Valid()
      && cur.values[pid].proc == t.values[pid].proc
      && (!Attachable(pid, kernelThreads) ==> SortedUpTo(t, i + 1, kernelThreads) == cur)
      && (Attachable(pid, kernelThreads) && ppid in t.values ==>
            SortedUpTo(t, i + 1, kernelThreads)
            == cur.Store(ppid, ProcNode(cur.values[ppid].proc, cur.values[ppid].children + [pid])))
  {
    assert t.keys[i] in t.keys;
    var cur := SortedUpTo(t, i, kernelThreads);
    assert cur.keys == t.keys && cur.values.Keys == t.values.Keys;
    if !Attachable(t.keys[i], kernelThreads) {
      SortedUpToSkip(t, i, kernelThreads);
    } else if t.values[t.keys[i]].proc.ppid in t.values {
      SortedUpToAppend(t, i, kernelThreads);
    }
  }

  lemma SortedUpToSkip(t: Table, i: nat, kernelThreads: bool)
    requires t.Valid() && i < |t.keys| && !Attachable(t.keys[i], kernelThreads)
    ensures SortedUpTo(t, i + 1, kernelThreads) == SortedUpTo(t, i, kernelThreads)
  {
    var cur, next := SortedUpTo(t, i, kernelThreads), SortedUpTo(t, i + 1, kernelThreads);
    forall p | p in t.values
      ensures next.values[p] == cur.values[p]
    {
      SortedUpToEntry(t, i, kernelThreads, p);
    }
    assert next.values == cur.values;
  }

  lemma SortedUpToAppend(t: Table, i: nat, kernelThreads: bool)
    requires t.Valid() && i < |t.keys| && Attachable(t.keys[i], kernelThreads)
    requires t.keys[i] in t.values && t.values[t.keys[i]].proc.ppid in t.values
    ensures var pid := t.keys[i];
      var ppid := t.values[pid].proc.ppid;
      var cur := SortedUpTo(t, i, kernelThreads);
      SortedUpTo(t, i + 1, kernelThreads)
      == cur.Store(ppid, ProcNode(cur.values[ppid].proc, cur.values[ppid].children + [pid]))
  {
    var pid := t.keys[i];
    var ppid := t.values[pid].proc.ppid;
    var cur, next := SortedUpTo(t, i, kernelThreads), SortedUpTo(t, i + 1, kernelThreads);
    var stored := cur.Store(ppid, ProcNode(cur.values[ppid].proc, cur.values[ppid].children + [pid]));
    assert ppid in cur.keys;
    forall p | p in t.values
      ensures next.values[p] == stored.values[p]
    {
      SortedUpToEntry(t, i, kernelThreads, p);
    }
    assert next.values == stored.values;
  }

  /** Visiting key i changes one entry's children at most: its parent's, by appending it. */
  lemma SortedUpToEntry(t: Table, i: nat, kernelThreads: bool, p: int)
    requires i < |t.keys| && p in t.values
    ensures var pid := t.keys[i];
      SortedUpTo(t, i + 1, kernelThreads).values[p]
      == ProcNode(t.values[p].proc, SortedUpTo(t, i, kernelThreads).values[p].children
                                    + if AttachesTo(t, pid, p, kernelThreads) then [pid] else [])
  {
    var ks := t.keys;
    var before := Attached(t, ks[..i], p, kernelThreads);
    var step: seq<int> := if AttachesTo(t, ks[i], p, kernelThreads) then [ks[i]] else [];
    AttachedSnoc(t, ks[..i], ks[i], p, kernelThreads);
    assert ks[..i + 1] == ks[..i] + [ks[i]];
    assert t.values[p].children + before + step == t.values[p].children + (before + step);
  }

  /** Before the first key nothing is attached: the table is unchanged. */
  lemma SortedUpToStart(t: Table, kernelThreads: bool)
    ensures SortedUpTo(t, 0, kernelThreads) == t
  {
    assert t.keys[..0] == [];
    forall p | p in t.values
      ensures SortedUpTo(t, 0, kernelThreads).values[p] == t.values[p]
    {
      assert t.values[p].children + [] == t.values[p].children;
    }
  }

  lemma SortedUpToEnd(t: Table, kernelThreads: bool)
    ensures SortedUpTo(t, |t.keys|, kernelThreads) == Sorted(t, kernelThreads)
  {
    assert t.keys[..|t.keys|] == t.keys;
  }

  lemma FirstOrphanAt(t: Table, i: nat, kernelThreads: bool)
    requires i < |t.keys| && Orphan(t, t.keys[i], kernelThreads)
    requires forall j :: 0 <= j < i ==> !Orphan(t, t.keys[j], kernelThreads)
    ensures ReportsFirstOrphan(t, kernelThreads, MissingParent(t.keys[i], t.values[t.keys[i]].proc.ppid))
    ensures !NoOrphans(t, kernelThreads)
  {
  }

  /** After the last key without an orphan, tree_sort has built Sorted(t). */
  lemma SortedAllKeys(t: Table, tree: Table, kernelThreads: bool)
    requires t.Valid() && tree == SortedUpTo(t, |t.keys|, kernelThreads)
    requires forall j :: 0 <= j < |t.keys| ==> !Orphan(t, t.keys[j], kernelThreads)
    ensures NoOrphans(t, kernelThreads) && tree == Sorted(t, kernelThreads)
  {
    SortedUpToEnd(t, kernelThreads);
    NoOrphansFromKeys(t, kernelThreads);
  }

  lemma NoOrphansFromKeys(t: Table, kernelThreads: bool)
    requires t.Valid()
    requires forall j :: 0 <= j < |t.keys| ==> !Orphan(t, t.keys[j], kernelThreads)
    ensures NoOrphans(t, kernelThreads)
  {
    forall k | k in t.values
      ensures !Orphan(t, k, kernelThreads)
    {
      var j :| 0 <= j < |t.keys| && t.keys[j] == k;
    }
  }

  /**
   * One pass of tree_sort's loop, on the entry under key i: skip it when it
   * is 0 (or 2 without -k), raise when its parent has no entry, and
   * otherwise append it to its parent's children.
   */
  method SortEntry(t: Table, i: nat, tree: Table, kernelThreads: bool) returns (r: Result<Table, Error>)
    requires t.Valid() && i < |t.keys| && tree == SortedUpTo(t, i, kernelThreads)
    ensures r.Failure? <==> Orphan(t, t.keys[i], kernelThreads)
    ensures r.Failure? ==> r.error == MissingParent(t.keys[i], t.values[t.keys[i]].proc.ppid)
    ensures r.Success? ==> r.value == SortedUpTo(t, i + 1, kernelThreads)
  {
    var pid := tree.keys[i];
    var prtr := tree.values[pid];
    SortedUpToStep(t, i, kernelThreads);
    if pid == 0 {
      return Success(tree);
    } else if pid == 2 && !kernelThreads {
      return Success(tree);
    }
    if prtr.proc.ppid !in tree.values {
      return Failure(MissingParent(pid, prtr.proc.ppid));
    }
    var parent := tree.values[prtr.proc.ppid];
    return Success(tree.Store(prtr.proc.ppid, ProcNode(parent.proc, parent.children + [pid])));
  }

  /** tree_sort has visited the first i keys without meeting an orphan, and holds SortedUpTo(t, i). */
  ghost predicate SortedPrefix(t: Table, i: nat, tree: Table, kernelThreads: bool) {
    && i <= |t.keys|
    && tree == SortedUpTo(t, i, kernelThreads)
    && forall j :: 0 <= j < i ==> !Orphan(t, t.keys[j], kernelThreads)
  }

  /** tree_sort: visit the entries in hash order and append each attachable one to its parent's children. */
  method TreeSort(t: Table, kernelThreads: bool) returns (r: Result<Table, Error>)
    requires t.Valid()
    ensures r.Success? <==> NoOrphans(t, kernelThreads)
    ensures r.Success? ==> r.value == Sorted(t, kernelThreads)
    ensures r.Failure? ==> ReportsFirstOrphan(t, kernelThreads, r.error)
  {
    var tree := t;
    var i := 0;
    SortedUpToStart(t, kernelThreads);
    while i < |t.keys|
      invariant SortedPrefix(t, i, tree, kernelThreads)
    {
      var step := SortEntry(t, i, tree, kernelThreads);
      if step.Failure? {
        FirstOrphanAt(t, i, kernelThreads);
        return step;
      }
      tree := step.value;
      i := i + 1;
    }
    SortedAllKeys(t, tree, kernelThreads);
    return Success(tree);
  }

  /** `gen_tree`: fill the hash, install the kernel node, attach children. */
  method GenTree(procs: seq<ProcRecord>, os: string, procCmdline: string, kernelThreads: bool)
    returns (r: Result<Table, Error>)
    ensures var t := InitialTable(procs, KernelRecord(os, procCmdline));
      && (r.Success? <==> NoOrphans(t, kernelThreads))
      && (r.Success? ==> r.value == Sorted(t, kernelThreads))
      && (r.Failure? ==> ReportsFirstOrphan(t, kernelThreads, r.error))
  {
    var tree: Table := Empty();
    var i := 0;
    while i < |procs|
      invariant 0 <= i <= |procs|
      invariant tree == Fill(procs[..i])
    {
      assert procs[..i + 1][..i] == procs[..i];
      tree := tree.Store(procs[i].pid, ProcNode(procs[i], []));
      i := i + 1;
    }
    assert procs[..i] == procs;
    tree := tree.Store(0, ProcNode(KernelRecord(os, procCmdline), []));
    r := TreeSort(tree, kernelThreads);
  }

  // ---------------------------------------------------------------------------
  // What tree_sort promises about the children lists
  // ---------------------------------------------------------------------------

  /** tree_sort appends k to parent's children exactly when k names parent and is attachable. */
  ghost predicate AttachesTo(t: Table, k: int, parent: int, kernelThreads: bool) {
    k in t.values && Attachable(k, kernelThreads) && t.values[k].proc.ppid == parent
  }

  lemma {:induction false} AttachedMembers(t: Table, ks: seq<int>, parent: int, kernelThreads: bool)
    ensures forall c :: c in Attached(t, ks, parent, kernelThreads) <==> c in ks && AttachesTo(t, c, parent, kernelThreads)
  {
    if ks != [] {
      var n := |ks| - 1;
      AttachedMembers(t, ks[..n], parent, kernelThreads);
      assert ks == ks[..n] + [ks[n]];
    }
  }

  /** Over distinct keys, each key that names parent is attached once, and no other key is. */
  lemma {:induction false} AttachedCount(t: Table, ks: seq<int>, parent: int, kernelThreads: bool)
    requires forall i, j :: 0 <= i < j < |ks| ==> ks[i] != ks[j]
    ensures forall c :: multiset(Attached(t, ks, parent, kernelThreads))[c]
                        == if c in ks && AttachesTo(t, c, parent, kernelThreads) then 1 else 0
  {
    if ks != [] {
      var n := |ks| - 1;
      AttachedCount(t, ks[..n], parent, kernelThreads);
      assert ks == ks[..n] + [ks[n]];
      assert ks[n] !in ks[..n];
    }
  }

  /** u stands before v in ks. */
  ghost predicate Precedes(ks: seq<int>, u: int, v: int) {
    exists x, y :: 0 <= x < y < |ks| && ks[x] == u && ks[y] == v
  }

  lemma PrecedesExtend(pre: seq<int>, ks: seq<int>, u: int, v: int)
    requires pre <= ks && Precedes(pre, u, v)
    ensures Precedes(ks, u, v)
  {
    var x, y :| 0 <= x < y < |pre| && pre[x] == u && pre[y] == v;
    assert ks[x] == u && ks[y] == v;
  }

  /** Attached keeps the order of ks. */
  lemma {:induction false} AttachedInOrder(t: Table, ks: seq<int>, parent: int, kernelThreads: bool)
    ensures forall i, j :: 0 <= i < j < |Attached(t, ks, parent, kernelThreads)| ==>
              Precedes(ks, Attached(t, ks, parent, kernelThreads)[i], Attached(t, ks, parent, kernelThreads)[j])
  {
    if ks != [] {
      var n := |ks| - 1;
      var pre := ks[..n];
      AttachedInOrder(t, pre, parent, kernelThreads);
      AttachedMembers(t, pre, parent, kernelThreads);
      var a0, a := Attached(t, pre, parent, kernelThreads), Attached(t, ks, parent, kernelThreads);
      forall i, j | 0 <= i < j < |a|
        ensures Precedes(ks, a[i], a[j])
      {
        assert a[i] == a0[i];
        if j < |a0| {
          assert a[j] == a0[j];
          assert Precedes(pre, a0[i], a0[j]);
          PrecedesExtend(pre, ks, a[i], a[j]);
        } else {
          assert a0[i] in a0;
          var x :| 0 <= x < |pre| && pre[x] == a[i];
          assert ks[x] == a[i] && ks[n] == a[j];
        }
      }
    }
  }

  /** After tree_sort on a fresh table, each node's children are exactly the keys attached to it. */
  lemma SortedShape(t: Table, kernelThreads: bool)
    requires Unsorted(t)
    ensures var s := Sorted(t, kernelThreads);
      && s.Valid()
      && s.values.Keys == t.values.Keys
      && (forall p :: p in s.values ==>
            s.values[p] == ProcNode(t.values[p].proc, Attached(t, t.keys, p, kernelThreads)))
  {
    var s := Sorted(t, kernelThreads);
    forall p | p in s.values
      ensures s.values[p].children == Attached(t, t.keys, p, kernelThreads)
    {
      assert t.values[p].children == [];
    }
  }

  /**
   * After tree_sort on a fresh table, every attachable entry sits exactly once
   * in the children of the entry its record names as parent, and in no other
   * children list; so pid 0, and pid 2 without the kernel option, are nobody's child.
   */
  lemma SortedAttachesOnce(t: Table, kernelThreads: bool)
    requires Unsorted(t)
    ensures var s := Sorted(t, kernelThreads);
      && (forall p, c :: p in s.values ==>
            multiset(s.values[p].children)[c] == if AttachesTo(t, c, p, kernelThreads) then 1 else 0)
      && (forall p :: p in s.values ==> 0 !in s.values[p].children)
      && (forall p :: p in s.values && !kernelThreads ==> KTHREADD !in s.values[p].children)
  {
    var s := Sorted(t, kernelThreads);
    SortedShape(t, kernelThreads);
    forall p | p in s.values
      ensures forall c :: multiset(s.values[p].children)[c] == if AttachesTo(t, c, p, kernelThreads) then 1 else 0
    {
      AttachedCount(t, t.keys, p, kernelThreads);
      forall c
        ensures multiset(Attached(t, t.keys, p, kernelThreads))[c] == if AttachesTo(t, c, p, kernelThreads) then 1 else 0
      {
        if c in t.values {
          assert c in t.keys;
        }
      }
    }
    forall p | p in s.values
      ensures 0 !in s.values[p].children
      ensures !kernelThreads ==> KTHREADD !in s.values[p].children
    {
      assert multiset(s.values[p].children)[0] == 0;
      assert multiset(s.values[p].children)[KTHREADD] == 0 || kernelThreads;
    }
  }

  /** After tree_sort, each children list keeps the table's iteration order. */
  lemma SortedKeepsTableOrder(t: Table, kernelThreads: bool)
    requires Unsorted(t)
    ensures var s := Sorted(t, kernelThreads);
      forall p, i, j :: p in s.values && 0 <= i < j < |s.values[p].children| ==>
        Precedes(t.keys, s.values[p].children[i], s.values[p].children[j])
  {
    var s := Sorted(t, kernelThreads);
    forall p | p in s.values
      ensures forall i, j :: 0 <= i < j < |s.values[p].children| ==>
                Precedes(t.keys, s.values[p].children[i], s.values[p].children[j])
    {
      SortedEntryInOrder(t, kernelThreads, p);
    }
  }

  /** One children list of the sorted table follows the table's iteration order. */
  lemma SortedEntryInOrder(t: Table, kernelThreads: bool, p: int)
    requires Unsorted(t) && p in Sorted(t, kernelThreads).values
    ensures var kids := Sorted(t, kernelThreads).values[p].children;
      forall i, j :: 0 <= i < j < |kids| ==> Precedes(t.keys, kids[i], kids[j])
  {
    assert t.values[p].children == [];
    assert Sorted(t, kernelThreads).values[p].children == Attached(t, t.keys, p, kernelThreads);
    AttachedInOrder(t, t.keys, p, kernelThreads);
  }

  lemma OccursBeforeDropKernel(procs: seq<ProcRecord>, kernel: ProcRecord, x: int, y: int)
    requires kernel.pid == 0 && x != 0 && OccursBefore(procs + [kernel], x, y)
    ensures OccursBefore(procs, x, y)
  {
    var all := procs + [kernel];
    var w :| 0 <= w < |all| && all[w].pid == x && forall m :: 0 <= m <= w ==> all[m].pid != y;
    assert w < |procs|;
    forall m | 0 <= m <= w
      ensures procs[m].pid != y
    {
      assert all[m] == procs[m];
    }
    assert procs[w].pid == x;
  }

  /**
   * End to end: in the tree gen_tree builds, children appear in the order in
   * which their pids first appear in the snapshot.
   */
  lemma ChildrenFollowSnapshot(procs: seq<ProcRecord>, kernel: ProcRecord, kernelThreads: bool)
    requires kernel.pid == 0
    ensures var s := Sorted(InitialTable(procs, kernel), kernelThreads);
      forall p, i, j :: p in s.values && 0 <= i < j < |s.values[p].children| ==>
        OccursBefore(procs, s.values[p].children[i], s.values[p].children[j])
  {
    var t := InitialTable(procs, kernel);
    var s := Sorted(t, kernelThreads);
    InitialTableEntries(procs, kernel);
    SortedKeepsTableOrder(t, kernelThreads);
    SortedAttachesOnce(t, kernelThreads);
    forall p, i, j | p in s.values && 0 <= i < j < |s.values[p].children|
      ensures OccursBefore(procs, s.values[p].children[i], s.values[p].children[j])
    {
      var kids := s.values[p].children;
      assert Precedes(t.keys, kids[i], kids[j]);
      var x, y :| 0 <= x < y < |t.keys| && t.keys[x] == kids[i] && t.keys[y] == kids[j];
      assert OccursBefore(procs + [kernel], t.keys[x], t.keys[y]);
      assert kids[i] in kids;
      OccursBeforeDropKernel(procs, kernel, kids[i], kids[j]);
    }
  }

  // ---------------------------------------------------------------------------
  // Acyclicity, which the recursive renderer needs to terminate
  // ---------------------------------------------------------------------------

  /** Every child ranks strictly below its parent: following children always ends. */
  ghost predicate Ranked(t: Table, rank: map<int, nat>) {
    forall p :: p in t.values ==>
      p in rank && forall c :: c in t.values[p].children ==> c in t.values && c in rank && rank[c] < rank[p]
  }

  /** The parent links tree_sort follows are acyclic: each attachable entry ranks below its parent. */
  ghost predicate AcyclicParents(t: Table, rank: map<int, nat>, kernelThreads: bool) {
    forall c :: c in t.values ==>
      && c in rank
      && (Attachable(c, kernelThreads) && t.values[c].proc.ppid in t.values ==>
            t.values[c].proc.ppid in rank && rank[c] < rank[t.values[c].proc.ppid])
  }

  /** Every children list is free of repeats. */
  ghost predicate DistinctChildren(t: Table) {
    forall p, i, j :: p in t.values && 0 <= i < j < |t.values[p].children| ==>
      t.values[p].children[i] != t.values[p].children[j]
  }

  /** No entry is in two children lists, or twice in one. */
  ghost predicate SingleParent(t: Table) {
    && DistinctChildren(t)
    && forall p, q, c :: p in t.values && q in t.values && c in t.values[p].children && c in t.values[q].children ==> p == q
  }

  /** A sequence in which nothing occurs twice has no repeated element. */
  lemma {:induction false} SingleCountsDistinct(s: seq<int>)
    requires forall c :: multiset(s)[c] <= 1
    ensures forall i, j :: 0 <= i < j < |s| ==> s[i] != s[j]
  {
    if s != [] {
      var n := |s| - 1;
      var pre := s[..n];
      assert s == pre + [s[n]];
      assert multiset(s) == multiset(pre) + multiset{s[n]};
      forall c
        ensures multiset(pre)[c] <= 1
      {
        assert multiset(pre)[c] <= multiset(s)[c];
      }
      SingleCountsDistinct(pre);
      assert multiset(s)[s[n]] == multiset(pre)[s[n]] + 1;
      assert multiset(s)[s[n]] <= 1;
      assert s[n] !in pre;
      forall i, j | 0 <= i < j < |s|
        ensures s[i] != s[j]
      {
        if j == n {
          assert s[i] in pre;
        } else {
          assert s[i] == pre[i] && s[j] == pre[j];
        }
      }
    }
  }

  /** A child in the sorted table is an attachable entry naming that parent. */
  lemma SortedChildIsAttached(t: Table, kernelThreads: bool, p: int, c: int)
    requires Unsorted(t)
    requires p in Sorted(t, kernelThreads).values && c in Sorted(t, kernelThreads).values[p].children
    ensures AttachesTo(t, c, p, kernelThreads)
  {
    SortedShape(t, kernelThreads);
    AttachedMembers(t, t.keys, p, kernelThreads);
  }

  /** Acyclic parent links make the sorted table ranked, so the renderer's recursion ends. */
  lemma SortedIsRanked(t: Table, rank: map<int, nat>, kernelThreads: bool)
    requires Unsorted(t) && AcyclicParents(t, rank, kernelThreads)
    ensures Ranked(Sorted(t, kernelThreads), rank)
  {
    var s := Sorted(t, kernelThreads);
    forall p | p in s.values
      ensures p in rank && forall c :: c in s.values[p].children ==> c in s.values && c in rank && rank[c] < rank[p]
    {
      SortedEntryRanked(t, rank, kernelThreads, p);
    }
  }

  /** One entry of the sorted table ranks above each of its children. */
  lemma SortedEntryRanked(t: Table, rank: map<int, nat>, kernelThreads: bool, p: int)
    requires Unsorted(t) && AcyclicParents(t, rank, kernelThreads)
    requires p in Sorted(t, kernelThreads).values
    ensures var s := Sorted(t, kernelThreads);
      p in rank && forall c :: c in s.values[p].children ==> c in s.values && c in rank && rank[c] < rank[p]
  {
    var s := Sorted(t, kernelThreads);
    assert p in t.values;
    forall c | c in s.values[p].children
      ensures c in s.values && c in rank && rank[c] < rank[p]
    {
      SortedChildIsAttached(t, kernelThreads, p, c);
    }
  }

  /** In the sorted table no entry is in two children lists, or twice in one. */
  lemma SortedHasSingleParents(t: Table, kernelThreads: bool)
    requires Unsorted(t)
    ensures SingleParent(Sorted(t, kernelThreads))
  {
    var s := Sorted(t, kernelThreads);
    forall p, q, c | p in s.values && q in s.values && c in s.values[p].children && c in s.values[q].children
      ensures p == q
    {
      SortedChildIsAttached(t, kernelThreads, p, c);
      SortedChildIsAttached(t, kernelThreads, q, c);
    }
    forall p | p in s.values
      ensures forall i, j :: 0 <= i < j < |s.values[p].children| ==> s.values[p].children[i] != s.values[p].children[j]
    {
      SortedEntryDistinct(t, kernelThreads, p);
    }
  }

  /** One children list of the sorted table has no repeats. */
  lemma SortedEntryDistinct(t: Table, kernelThreads: bool, p: int)
    requires Unsorted(t) && p in Sorted(t, kernelThreads).values
    ensures var kids := Sorted(t, kernelThreads).values[p].children;
      forall i, j :: 0 <= i < j < |kids| ==> kids[i] != kids[j]
  {
    var kids := Sorted(t, kernelThreads).values[p].children;
    SortedAttachesOnce(t, kernelThreads);
    forall c
      ensures multiset(kids)[c] <= 1
    {
      assert multiset(kids)[c] == if AttachesTo(t, c, p, kernelThreads) then 1 else 0;
    }
    SingleCountsDistinct(kids);
  }
}
