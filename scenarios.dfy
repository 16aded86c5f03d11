/**
 * Worked examples: small snapshots built and printed by the model, with
 * the tables and lines the program produces for them.
 */
module Scenarios {
  import opened Wrappers
  import opened OrderedHash
  import opened Procs
  import opened Builder
  import opened Glyphs
  import opened Prefix
  import opened Renderer

  function Rec(pid: int, ppid: int, name: string): ProcRecord {
    ProcRecord(pid, ppid, name, "", "")
  }

  function Leaf(r: ProcRecord): ProcNode {
    ProcNode(r, [])
  }

  /** A glyph with colour disabled. */
  function Plain(glyph: char): Piece {
    Piece(None, glyph)
  }

  const BLANK := Piece(None, ' ')

  /** No -i, -c, -m or -p; -n and -k given. */
  const PLAIN := Options(false, false, false, true, true, None)

  // ---------------------------------------------------------------------------
  // Rendering steps
  // ---------------------------------------------------------------------------

  /** Without -p, print_tree prints the kernel's line and then its children, one level down, not last. */
  lemma PrintFromKernel(t: Table, opts: Options, rank: map<int, nat>)
    requires Ranked(t, rank) && 0 in t.values && opts.topPid == None
    ensures PrintTree(t, opts, rank) ==
      Success([NodeLine(t, opts, 0, 0, false, [])] + PrintChildren(t, opts, rank, 0, 0, 1, [true]))
  {
    assert [] + [!false] == [true];
  }

  /** A leaf prints its own line only. */
  lemma PrintLeaf(t: Table, opts: Options, rank: map<int, nat>, pid: int, depth: nat, last: bool, depthMap: seq<bool>)
    requires Ranked(t, rank) && pid in t.values && t.values[pid].children == []
    ensures PrintNode(t, opts, rank, pid, depth, last, depthMap) == [NodeLine(t, opts, pid, depth, last, depthMap)]
  {
    assert PrintChildren(t, opts, rank, pid, 0, depth + 1, depthMap + [!last]) == [];
  }

  /** An only child is printed as the last one. */
  lemma PrintOnlyChild(t: Table, opts: Options, rank: map<int, nat>, parent: int, c: int, depth: nat, childMap: seq<bool>)
    requires Ranked(t, rank) && parent in t.values && t.values[parent].children == [c]
    ensures PrintChildren(t, opts, rank, parent, 0, depth, childMap) == PrintNode(t, opts, rank, c, depth, true, childMap)
  {
    assert PrintChildren(t, opts, rank, parent, 1, depth, childMap) == [];
  }

  /** Of two distinct children, the first is printed as not last and the second as last. */
  lemma PrintTwoChildren(t: Table, opts: Options, rank: map<int, nat>, parent: int, a: int, b: int, depth: nat, childMap: seq<bool>)
    requires Ranked(t, rank) && parent in t.values && t.values[parent].children == [a, b] && a != b
    ensures PrintChildren(t, opts, rank, parent, 0, depth, childMap) ==
      PrintNode(t, opts, rank, a, depth, false, childMap) + PrintNode(t, opts, rank, b, depth, true, childMap)
  {
    assert PrintChildren(t, opts, rank, parent, 2, depth, childMap) == [];
    assert PrintChildren(t, opts, rank, parent, 1, depth, childMap) == PrintNode(t, opts, rank, b, depth, true, childMap);
  }

  /** Without -i, -c and -m, and with -n, a line is the uncoloured prefix and the bare name. */
  lemma PlainLine(t: Table, opts: Options, pid: int, depth: nat, last: bool, depthMap: seq<bool>)
    requires pid in t.values && !opts.showPid && !opts.showComm && !opts.showCmd && opts.noColor
    ensures NodeLine(t, opts, pid, depth, last, depthMap) ==
      Line(Pipes(depth, depthMap, |t.values[pid].children| == 0, last, false), t.values[pid].proc.name)
  {
    var name := t.values[pid].proc.name;
    assert "" + name + "" + "" == name;
  }

  /** The start line of an uncoloured tree: `┌` over children. */
  lemma RootPipes()
    ensures Pipes(0, [], false, false, false) == [Plain(HORIZONTAL_FIRST)]
  {
    PipesShape(0, [], false, false, false);
  }

  /** The uncoloured prefix of the root's last child: `└`, then `┬` or `─`. */
  lemma LastChildPipes(noChildren: bool)
    ensures Pipes(1, [true], noChildren, true, false) ==
      [Plain(CONNECTOR_LAST), Plain(if noChildren then HORIZONTAL else HORIZONTAL_CHILDREN)]
  {
    PipesShape(1, [true], noChildren, true, false);
  }

  /** The uncoloured prefix of a leaf grandchild under a last child: a blank column, then `├─` or `└─`. */
  lemma GrandchildPipes(last: bool)
    ensures Pipes(2, [true, false], true, last, false) ==
      [BLANK, Plain(if last then CONNECTOR_LAST else CONNECTOR), Plain(HORIZONTAL)]
  {
    PipesShape(2, [true, false], true, last, false);
  }

  // ---------------------------------------------------------------------------
  // init with two workers
  // ---------------------------------------------------------------------------

  /** init with two workers; pid 2 is an ordinary process here. */
  function WorkersSnapshot(): seq<ProcRecord> {
    [Rec(1, 0, "init"), Rec(2, 1, "worker"), Rec(3, 1, "worker2")]
  }

  /** The table gen_tree fills for the two-worker snapshot, before tree_sort. */
  function WorkersTable(kernel: ProcRecord): Table {
    Hash([1, 2, 3, 0], map[1 := Leaf(Rec(1, 0, "init")), 2 := Leaf(Rec(2, 1, "worker")),
                           3 := Leaf(Rec(3, 1, "worker2")), 0 := Leaf(kernel)])
  }

  lemma WorkersFill1()
    ensures Fill([Rec(1, 0, "init")]) == Hash([1], map[1 := Leaf(Rec(1, 0, "init"))])
  {
    FillSnoc([], Rec(1, 0, "init"));
    assert [] + [Rec(1, 0, "init")] == [Rec(1, 0, "init")];
  }

  lemma WorkersFill2()
    ensures Fill([Rec(1, 0, "init"), Rec(2, 1, "worker")]) ==
      Hash([1, 2], map[1 := Leaf(Rec(1, 0, "init")), 2 := Leaf(Rec(2, 1, "worker"))])
  {
    WorkersFill1();
    FillSnoc([Rec(1, 0, "init")], Rec(2, 1, "worker"));
    assert [Rec(1, 0, "init")] + [Rec(2, 1, "worker")] == [Rec(1, 0, "init"), Rec(2, 1, "worker")];
  }

  lemma WorkersFill3()
    ensures Fill(WorkersSnapshot()) ==
      Hash([1, 2, 3], map[1 := Leaf(Rec(1, 0, "init")), 2 := Leaf(Rec(2, 1, "worker")), 3 := Leaf(Rec(3, 1, "worker2"))])
  {
    WorkersFill2();
    FillSnoc([Rec(1, 0, "init"), Rec(2, 1, "worker")], Rec(3, 1, "worker2"));
    assert [Rec(1, 0, "init"), Rec(2, 1, "worker")] + [Rec(3, 1, "worker2")] == WorkersSnapshot();
  }

  /** gen_tree's table for the two-worker snapshot: the three records in order, then the kernel under key 0. */
  lemma WorkersTableBuilt(kernel: ProcRecord)
    ensures InitialTable(WorkersSnapshot(), kernel) == WorkersTable(kernel)
  {
    WorkersFill3();
    assert [1, 2, 3] + [0] == [1, 2, 3, 0];
  }

  lemma WorkersAttached1(kernel: ProcRecord, p: int, kernelThreads: bool)
    ensures Attached(WorkersTable(kernel), [1], p, kernelThreads) == if p == 0 then [1] else []
  {
    AttachedSnoc(WorkersTable(kernel), [], 1, p, kernelThreads);
    assert [] + [1] == [1];
  }

  lemma WorkersAttached2(kernel: ProcRecord, p: int, kernelThreads: bool)
    ensures Attached(WorkersTable(kernel), [1, 2], p, kernelThreads) ==
      if p == 0 then [1] else if p == 1 && kernelThreads then [2] else []
  {
    WorkersAttached1(kernel, p, kernelThreads);
    AttachedSnoc(WorkersTable(kernel), [1], 2, p, kernelThreads);
    assert AttachesTo(WorkersTable(kernel), 2, p, kernelThreads) <==> p == 1 && kernelThreads;
    assert [1] + [2] == [1, 2];
  }

  lemma WorkersAttached3(kernel: ProcRecord, p: int, kernelThreads: bool)
    ensures Attached(WorkersTable(kernel), [1, 2, 3], p, kernelThreads) ==
      if p == 0 then [1] else if p == 1 then (if kernelThreads then [2, 3] else [3]) else []
  {
    WorkersAttached2(kernel, p, kernelThreads);
    AttachedSnoc(WorkersTable(kernel), [1, 2], 3, p, kernelThreads);
    assert AttachesTo(WorkersTable(kernel), 3, p, kernelThreads) <==> p == 1;
    assert [1, 2] + [3] == [1, 2, 3];
  }

  /** The entries tree_sort appends to p's children in the two-worker table, with or without -k. */
  lemma WorkersAttached(kernel: ProcRecord, p: int, kernelThreads: bool)
    ensures Attached(WorkersTable(kernel), [1, 2, 3, 0], p, kernelThreads) ==
      if p == 0 then [1]
      else if p == 1 then (if kernelThreads then [2, 3] else [3])
      else []
  {
    WorkersAttached3(kernel, p, kernelThreads);
    AttachedSnoc(WorkersTable(kernel), [1, 2, 3], 0, p, kernelThreads);
    assert [1, 2, 3] + [0] == [1, 2, 3, 0];
  }

  /** The tree tree_sort builds from the two-worker table with -k. */
  function WorkersTree(kernel: ProcRecord): Table {
    Hash([1, 2, 3, 0], map[1 := ProcNode(Rec(1, 0, "init"), [2, 3]), 2 := Leaf(Rec(2, 1, "worker")),
                           3 := Leaf(Rec(3, 1, "worker2")), 0 := ProcNode(kernel, [1])])
  }

  lemma WorkersSorted(kernel: ProcRecord)
    ensures Sorted(WorkersTable(kernel), true) == WorkersTree(kernel)
  {
    var t := WorkersTable(kernel);
    var s := Sorted(t, true);
    var u := WorkersTree(kernel);
    assert s.values.Keys == u.values.Keys;
    forall p | p in s.values
      ensures s.values[p] == u.values[p]
    {
      WorkersAttached(kernel, p, true);
      assert s.values[p] == ProcNode(t.values[p].proc, [] + Attached(t, t.keys, p, true));
    }
  }

  /** Built with -k, init hangs under the kernel and both workers under init, in snapshot order. */
  lemma WorkersTreeBuilt(kernel: ProcRecord)
    ensures Sorted(InitialTable(WorkersSnapshot(), kernel), true) == WorkersTree(kernel)
  {
    WorkersTableBuilt(kernel);
    WorkersSorted(kernel);
  }

  /** Without -k, pid 2 is skipped whatever its name: the first worker is never attached. */
  lemma WorkersWithoutKernelThreads(kernel: ProcRecord)
    ensures var t := Sorted(InitialTable(WorkersSnapshot(), kernel), false);
      1 in t.values && t.values[1].children == [3]
  {
    WorkersTableBuilt(kernel);
    WorkersAttached(kernel, 1, false);
    var t := WorkersTable(kernel);
    assert t.values[1].children == [];
    var s := Sorted(t, false);
    assert s.values[1] == ProcNode(t.values[1].proc, [] + Attached(t, t.keys, 1, false));
  }

  function WorkersRank(): map<int, nat> {
    map[0 := 2, 1 := 1, 2 := 0, 3 := 0]
  }

  lemma WorkersRanked(kernel: ProcRecord)
    ensures Ranked(WorkersTree(kernel), WorkersRank())
  {
    var t := WorkersTree(kernel);
    assert t.values[0].children == [1] && t.values[1].children == [2, 3];
  }

  /** A worker: `├─` or `└─` under a blank column, since init is the kernel's last child. */
  lemma WorkerLine(kernel: ProcRecord, pid: int, last: bool)
    requires pid == 2 || pid == 3
    ensures Ranked(WorkersTree(kernel), WorkersRank()) && pid in WorkersTree(kernel).values
    ensures PrintNode(WorkersTree(kernel), PLAIN, WorkersRank(), pid, 2, last, [true, false]) ==
      [Line([BLANK, Plain(if last then CONNECTOR_LAST else CONNECTOR), Plain(HORIZONTAL)], WorkersTree(kernel).values[pid].proc.name)]
  {
    var t := WorkersTree(kernel);
    WorkersRanked(kernel);
    assert t.values[pid].children == [];
    PrintLeaf(t, PLAIN, WorkersRank(), pid, 2, last, [true, false]);
    PlainLine(t, PLAIN, pid, 2, last, [true, false]);
    GrandchildPipes(last);
  }

  /** init: the kernel's only, hence last, child, with children: `└┬`, then the workers. */
  lemma InitLines(kernel: ProcRecord)
    ensures Ranked(WorkersTree(kernel), WorkersRank()) && PrintNode(WorkersTree(kernel), PLAIN, WorkersRank(), 1, 1, true, [true]) ==
      [Line([Plain(CONNECTOR_LAST), Plain(HORIZONTAL_CHILDREN)], "init"),
       Line([BLANK, Plain(CONNECTOR), Plain(HORIZONTAL)], "worker"),
       Line([BLANK, Plain(CONNECTOR_LAST), Plain(HORIZONTAL)], "worker2")]
  {
    var t := WorkersTree(kernel);
    WorkersRanked(kernel);
    assert t.values[1] == ProcNode(Rec(1, 0, "init"), [2, 3]);
    assert PrintNode(t, PLAIN, WorkersRank(), 1, 1, true, [true]) ==
      [NodeLine(t, PLAIN, 1, 1, true, [true])] + PrintChildren(t, PLAIN, WorkersRank(), 1, 0, 2, [true, false])
    by {
      assert [true] + [!true] == [true, false];
    }
    PlainLine(t, PLAIN, 1, 1, true, [true]);
    LastChildPipes(false);
    PrintTwoChildren(t, PLAIN, WorkersRank(), 1, 2, 3, 2, [true, false]);
    WorkerLine(kernel, 2, false);
    WorkerLine(kernel, 3, true);
  }

  /** The kernel's line in the two-worker tree: `┌`, since it has children. */
  lemma WorkersKernelLine(os: string, procCmdline: string)
    ensures var kernel := KernelRecord(os, procCmdline);
      NodeLine(WorkersTree(kernel), PLAIN, 0, 0, false, []) == Line([Plain(HORIZONTAL_FIRST)], "Kernel")
  {
    var kernel := KernelRecord(os, procCmdline);
    var t := WorkersTree(kernel);
    assert t.values[0] == ProcNode(kernel, [1]);
    PlainLine(t, PLAIN, 0, 0, false, []);
    RootPipes();
  }

  /** Below the kernel in the two-worker tree: init's subtree, as its last child. */
  lemma WorkersKernelChildren(kernel: ProcRecord)
    ensures Ranked(WorkersTree(kernel), WorkersRank()) && PrintChildren(WorkersTree(kernel), PLAIN, WorkersRank(), 0, 0, 1, [true]) ==
      [Line([Plain(CONNECTOR_LAST), Plain(HORIZONTAL_CHILDREN)], "init"),
       Line([BLANK, Plain(CONNECTOR), Plain(HORIZONTAL)], "worker"),
       Line([BLANK, Plain(CONNECTOR_LAST), Plain(HORIZONTAL)], "worker2")]
  {
    WorkersRanked(kernel);
    assert WorkersTree(kernel).values[0].children == [1];
    PrintOnlyChild(WorkersTree(kernel), PLAIN, WorkersRank(), 0, 1, 1, [true]);
    InitLines(kernel);
  }

  /**
   * print_tree on the two-worker tree: the kernel opens with `┌`, init is its last child
   * (`└┬`), and the workers follow under a blank column, `├─` then `└─`.
   */
  lemma WorkersLines(os: string, procCmdline: string)
    ensures var kernel := KernelRecord(os, procCmdline);
      Ranked(WorkersTree(kernel), WorkersRank()) && PrintTree(WorkersTree(kernel), PLAIN, WorkersRank()) == Success([
      Line([Plain(HORIZONTAL_FIRST)], "Kernel"),
      Line([Plain(CONNECTOR_LAST), Plain(HORIZONTAL_CHILDREN)], "init"),
      Line([BLANK, Plain(CONNECTOR), Plain(HORIZONTAL)], "worker"),
      Line([BLANK, Plain(CONNECTOR_LAST), Plain(HORIZONTAL)], "worker2")])
  {
    var kernel := KernelRecord(os, procCmdline);
    WorkersKernelChildren(kernel);
    WorkersKernelLine(os, procCmdline);
    PrintFromKernel(WorkersTree(kernel), PLAIN, WorkersRank());
    var below := PrintChildren(WorkersTree(kernel), PLAIN, WorkersRank(), 0, 0, 1, [true]);
    assert [Line([Plain(HORIZONTAL_FIRST)], "Kernel")] + below == [
      Line([Plain(HORIZONTAL_FIRST)], "Kernel"),
      Line([Plain(CONNECTOR_LAST), Plain(HORIZONTAL_CHILDREN)], "init"),
      Line([BLANK, Plain(CONNECTOR), Plain(HORIZONTAL)], "worker"),
      Line([BLANK, Plain(CONNECTOR_LAST), Plain(HORIZONTAL)], "worker2")];
  }

  /** With -p 99 and no process 99, print_tree prints nothing and fails. */
  lemma MissingTopPid(kernel: ProcRecord)
    ensures var opts := PLAIN.(topPid := Some(99));
      Ranked(WorkersTree(kernel), WorkersRank()) && PrintTree(WorkersTree(kernel), opts, WorkersRank()) == Failure(NotFound(99))
  {
    WorkersRanked(kernel);
  }

  // ---------------------------------------------------------------------------
  // kthreadd and a kernel worker
  // ---------------------------------------------------------------------------

  /** init, kthreadd (pid 2, child of the kernel) and one of its workers. */
  function KthreaddSnapshot(): seq<ProcRecord> {
    [Rec(1, 0, "init"), Rec(2, 0, "kthreadd"), Rec(3, 2, "kworker")]
  }

  function KthreaddTable(kernel: ProcRecord): Table {
    Hash([1, 2, 3, 0], map[1 := Leaf(Rec(1, 0, "init")), 2 := Leaf(Rec(2, 0, "kthreadd")),
                           3 := Leaf(Rec(3, 2, "kworker")), 0 := Leaf(kernel)])
  }

  lemma KthreaddFill2()
    ensures Fill([Rec(1, 0, "init"), Rec(2, 0, "kthreadd")]) ==
      Hash([1, 2], map[1 := Leaf(Rec(1, 0, "init")), 2 := Leaf(Rec(2, 0, "kthreadd"))])
  {
    WorkersFill1();
    FillSnoc([Rec(1, 0, "init")], Rec(2, 0, "kthreadd"));
    assert [Rec(1, 0, "init")] + [Rec(2, 0, "kthreadd")] == [Rec(1, 0, "init"), Rec(2, 0, "kthreadd")];
  }

  lemma KthreaddTableBuilt(kernel: ProcRecord)
    ensures InitialTable(KthreaddSnapshot(), kernel) == KthreaddTable(kernel)
  {
    KthreaddFill2();
    FillSnoc([Rec(1, 0, "init"), Rec(2, 0, "kthreadd")], Rec(3, 2, "kworker"));
    assert [Rec(1, 0, "init"), Rec(2, 0, "kthreadd")] + [Rec(3, 2, "kworker")] == KthreaddSnapshot();
    assert [1, 2] + [3] + [0] == [1, 2, 3, 0];
  }

  lemma KthreaddAttached2(kernel: ProcRecord, p: int, kernelThreads: bool)
    ensures Attached(KthreaddTable(kernel), [1, 2], p, kernelThreads) ==
      if p == 0 then (if kernelThreads then [1, 2] else [1]) else []
  {
    AttachedSnoc(KthreaddTable(kernel), [], 1, p, kernelThreads);
    AttachedSnoc(KthreaddTable(kernel), [1], 2, p, kernelThreads);
    assert [] + [1] == [1] && [1] + [2] == [1, 2];
  }

  lemma KthreaddAttached3(kernel: ProcRecord, p: int, kernelThreads: bool)
    ensures Attached(KthreaddTable(kernel), [1, 2, 3], p, kernelThreads) ==
      if p == 0 then (if kernelThreads then [1, 2] else [1])
      else if p == 2 then [3]
      else []
  {
    KthreaddAttached2(kernel, p, kernelThreads);
    AttachedSnoc(KthreaddTable(kernel), [1, 2], 3, p, kernelThreads);
    assert [1, 2] + [3] == [1, 2, 3];
  }

  lemma KthreaddAttached(kernel: ProcRecord, p: int, kernelThreads: bool)
    ensures Attached(KthreaddTable(kernel), [1, 2, 3, 0], p, kernelThreads) ==
      if p == 0 then (if kernelThreads then [1, 2] else [1])
      else if p == 2 then [3]
      else []
  {
    KthreaddAttached3(kernel, p, kernelThreads);
    AttachedSnoc(KthreaddTable(kernel), [1, 2, 3], 0, p, kernelThreads);
    assert [1, 2, 3] + [0] == [1, 2, 3, 0];
  }

  /** The tree tree_sort builds from the kthreadd table. */
  function KthreaddTree(kernel: ProcRecord, kernelThreads: bool): Table {
    Hash([1, 2, 3, 0], map[1 := Leaf(Rec(1, 0, "init")), 2 := ProcNode(Rec(2, 0, "kthreadd"), [3]),
                           3 := Leaf(Rec(3, 2, "kworker")),
                           0 := ProcNode(kernel, if kernelThreads then [1, 2] else [1])])
  }

  lemma KthreaddSorted(kernel: ProcRecord, kernelThreads: bool)
    ensures Sorted(KthreaddTable(kernel), kernelThreads) == KthreaddTree(kernel, kernelThreads)
  {
    var t := KthreaddTable(kernel);
    var s := Sorted(t, kernelThreads);
    var u := KthreaddTree(kernel, kernelThreads);
    assert s.values.Keys == u.values.Keys;
    forall p | p in s.values
      ensures s.values[p] == u.values[p]
    {
      KthreaddAttached(kernel, p, kernelThreads);
      assert s.values[p] == ProcNode(t.values[p].proc, [] + Attached(t, t.keys, p, kernelThreads));
    }
  }

  /**
   * Without -k, kthreadd is left out of the kernel's children, so neither it
   * nor its worker is printed (the worker still hangs under kthreadd); with
   * -k it is the kernel's second child.
   */
  lemma KthreaddTreeBuilt(kernel: ProcRecord, kernelThreads: bool)
    ensures Sorted(InitialTable(KthreaddSnapshot(), kernel), kernelThreads) == KthreaddTree(kernel, kernelThreads)
  {
    KthreaddTableBuilt(kernel);
    KthreaddSorted(kernel, kernelThreads);
  }

  function KthreaddRank(): map<int, nat> {
    map[0 := 1, 1 := 0, 2 := 1, 3 := 0]
  }

  lemma KthreaddRanked(kernel: ProcRecord)
    ensures Ranked(KthreaddTree(kernel, false), KthreaddRank())
  {
    var t := KthreaddTree(kernel, false);
    assert t.values[0].children == [1] && t.values[2].children == [3];
  }

  /** Without -k, print_tree on the kthreadd snapshot draws only the kernel and init. */
  lemma KthreaddLines(os: string, procCmdline: string)
    ensures var kernel := KernelRecord(os, procCmdline);
      Ranked(KthreaddTree(kernel, false), KthreaddRank()) && PrintTree(KthreaddTree(kernel, false), PLAIN.(kernelThreads := false), KthreaddRank()) ==
      Success([Line([Plain(HORIZONTAL_FIRST)], "Kernel"), Line([Plain(CONNECTOR_LAST), Plain(HORIZONTAL)], "init")])
  {
    var kernel := KernelRecord(os, procCmdline);
    var t := KthreaddTree(kernel, false);
    var opts := PLAIN.(kernelThreads := false);
    KthreaddKernelChildren(kernel, opts);
    KthreaddKernelLine(os, procCmdline, opts);
    PrintFromKernel(t, opts, KthreaddRank());
    var below := PrintChildren(t, opts, KthreaddRank(), 0, 0, 1, [true]);
    assert [Line([Plain(HORIZONTAL_FIRST)], "Kernel")] + below ==
      [Line([Plain(HORIZONTAL_FIRST)], "Kernel"), Line([Plain(CONNECTOR_LAST), Plain(HORIZONTAL)], "init")];
  }

  /** The kernel's line in the kthreadd tree: `┌`, since it has children. */
  lemma KthreaddKernelLine(os: string, procCmdline: string, opts: Options)
    requires !opts.showPid && !opts.showComm && !opts.showCmd && opts.noColor
    ensures var kernel := KernelRecord(os, procCmdline);
      NodeLine(KthreaddTree(kernel, false), opts, 0, 0, false, []) == Line([Plain(HORIZONTAL_FIRST)], "Kernel")
  {
    var kernel := KernelRecord(os, procCmdline);
    var t := KthreaddTree(kernel, false);
    assert t.values[0] == ProcNode(kernel, [1]);
    PlainLine(t, opts, 0, 0, false, []);
    RootPipes();
  }

  /** Below the kernel in the kthreadd tree without -k: init alone, a last leaf `└─`. */
  lemma KthreaddKernelChildren(kernel: ProcRecord, opts: Options)
    requires !opts.showPid && !opts.showComm && !opts.showCmd && opts.noColor
    ensures Ranked(KthreaddTree(kernel, false), KthreaddRank()) && PrintChildren(KthreaddTree(kernel, false), opts, KthreaddRank(), 0, 0, 1, [true]) ==
      [Line([Plain(CONNECTOR_LAST), Plain(HORIZONTAL)], "init")]
  {
    var t := KthreaddTree(kernel, false);
    KthreaddRanked(kernel);
    assert t.values[0] == ProcNode(kernel, [1]) && t.values[1] == Leaf(Rec(1, 0, "init"));
    PrintLeaf(t, opts, KthreaddRank(), 1, 1, true, [true]);
    PlainLine(t, opts, 1, 1, true, [true]);
    LastChildPipes(true);
    PrintOnlyChild(t, opts, KthreaddRank(), 0, 1, 1, [true]);
  }

  /** gen_tree's table for a lone pid 2 whose parent pid 99 has no entry. */
  function StrayKthreaddTable(kernel: ProcRecord): Table {
    Hash([2, 0], map[2 := Leaf(Rec(2, 99, "kthreadd")), 0 := Leaf(kernel)])
  }

  lemma StrayKthreaddTableBuilt(kernel: ProcRecord)
    ensures InitialTable([Rec(2, 99, "kthreadd")], kernel) == StrayKthreaddTable(kernel)
  {
    FillSnoc([], Rec(2, 99, "kthreadd"));
    assert [] + [Rec(2, 99, "kthreadd")] == [Rec(2, 99, "kthreadd")];
  }

  /**
   * A pid 2 whose parent has no entry: without -k tree_sort skips it before
   * looking up its parent, so nothing is an orphan and the Kernel gets no
   * children; with -k it is attached, and so it is an orphan.
   */
  lemma SkippedKthreaddOrphan(kernel: ProcRecord)
    ensures var t := InitialTable([Rec(2, 99, "kthreadd")], kernel);
      && NoOrphans(t, false)
      && Sorted(t, false).values[0].children == []
      && Orphan(t, 2, true)
  {
    StrayKthreaddTableBuilt(kernel);
    var t := StrayKthreaddTable(kernel);
    AttachedSnoc(t, [], 2, 0, false);
    AttachedSnoc(t, [2], 0, 0, false);
    assert [2] + [0] == t.keys;
  }

  // ---------------------------------------------------------------------------
  // Labels with options, and the empty snapshot
  // ---------------------------------------------------------------------------

  /** -i and -c on a leaf: `[5] sh (bash)`, drawn as the kernel's last child `└─`. */
  lemma PidAndCommLabel()
    ensures var opts := Options(true, true, false, false, false, None);
      var node := ProcNode(ProcRecord(5, 0, "sh", "bash", ""), []);
      && Label(opts, node.proc) == "[5] sh (bash)"
      && NodeLine(Hash([5], map[5 := node]), opts, 5, 1, true, [true]) ==
           Line([Style(DepthColor(0), CONNECTOR_LAST, true), Style(DepthColor(1), HORIZONTAL, true)], "[5] sh (bash)")
  {
    assert Decimal(5) == "5";
    PipesShape(1, [true], true, true, true);
  }

  /**
   * An empty snapshot is not rejected: the table holds only the kernel, and
   * print_tree draws it alone, as a childless root `─`.
   */
  lemma EmptySnapshot(os: string, procCmdline: string, opts: Options)
    requires opts.topPid == None
    ensures var t := Sorted(InitialTable([], KernelRecord(os, procCmdline)), opts.kernelThreads);
      && t.keys == [0]
      && t.values == map[0 := ProcNode(KernelRecord(os, procCmdline), [])]
      && Ranked(t, map[0 := 0])
      && PrintTree(t, opts, map[0 := 0]) ==
           Success([Line([Style(DepthColor(0), HORIZONTAL, !opts.noColor)], Label(opts, KernelRecord(os, procCmdline)))])
  {
    var k := KernelRecord(os, procCmdline);
    var t0 := InitialTable([], k);
    assert t0 == Hash([0], map[0 := ProcNode(k, [])]);
    AttachedSnoc(t0, [], 0, 0, opts.kernelThreads);
    assert [] + [0] == [0];
    var t := Sorted(t0, opts.kernelThreads);
    assert t.values[0] == ProcNode(k, []);
    assert t.values == map[0 := ProcNode(k, [])];
    assert Ranked(t, map[0 := 0]);
    PrintLeaf(t, opts, map[0 := 0], 0, 0, false, []);
    PipesShape(0, [], true, false, !opts.noColor);
    assert Pipes(0, [], true, false, !opts.noColor) == [Style(DepthColor(0), HORIZONTAL, !opts.noColor)];
    assert PrintTree(t, opts, map[0 := 0]) == Success([NodeLine(t, opts, 0, 0, false, [])]);
  }
}
