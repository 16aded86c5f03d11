/**
 * One run of procthing: `ProcTree.new(options).print_tree` on a snapshot.
 * The snapshot, the OS name and the text of /proc/cmdline are inputs.
 */
module ProcThing {
  import opened Wrappers
  import opened Procs
  import opened Builder
  import opened Renderer
  import opened Traversal

  /**
   * Build the tree (which fails on the first entry whose parent is missing),
   * then print it from the start node (which fails when -p names no entry).
   * The rank witnesses that the snapshot's parent links are acyclic.
   */
  method Run(procs: seq<ProcRecord>, os: string, procCmdline: string, opts: Options, ghost rank: map<int, nat>)
    returns (r: Result<seq<Line>, Error>)
    requires AcyclicParents(InitialTable(procs, KernelRecord(os, procCmdline)), rank, opts.kernelThreads)
    ensures var t := InitialTable(procs, KernelRecord(os, procCmdline));
      && (!NoOrphans(t, opts.kernelThreads) ==> r.Failure? && ReportsFirstOrphan(t, opts.kernelThreads, r.error))
      && (NoOrphans(t, opts.kernelThreads) ==>
            var tree := Sorted(t, opts.kernelThreads);
            && Ranked(tree, rank) && SingleParent(tree) && 0 in tree.values
            && r == PrintTree(tree, opts, rank))
  {
    var t := InitialTable(procs, KernelRecord(os, procCmdline));
    var built := GenTree(procs, os, procCmdline, opts.kernelThreads);
    if built.Failure? {
      return Failure(built.error);
    }
    InitialTableEntries(procs, KernelRecord(os, procCmdline));
    SortedShape(t, opts.kernelThreads);
    SortedIsRanked(t, rank, opts.kernelThreads);
    SortedHasSingleParents(t, opts.kernelThreads);
    r := PrintTree(built.value, opts, rank);
  }

  /**
   * Without -p, a run that finds no orphan prints one line per entry whose
   * parent links reach the kernel, and no entry twice. With -k those are the
   * kernel and every process of the snapshot; without -k, pid 2 and every
   * process whose ancestry meets it are left out.
   */
  lemma RunPrints(procs: seq<ProcRecord>, os: string, procCmdline: string, opts: Options, rank: map<int, nat>)
    requires opts.topPid == None
    requires NoOrphans(InitialTable(procs, KernelRecord(os, procCmdline)), opts.kernelThreads)
    requires AcyclicParents(InitialTable(procs, KernelRecord(os, procCmdline)), rank, opts.kernelThreads)
    ensures var t := InitialTable(procs, KernelRecord(os, procCmdline));
      var tree := Sorted(t, opts.kernelThreads);
      && Ranked(tree, rank) && 0 in tree.values
      && PrintTree(tree, opts, rank).Success?
      && (var w := TreeWalk(tree, opts, rank);
          && |PrintTree(tree, opts, rank).value| == |w|
          && DistinctPids(w)
          && (forall x :: x in VisitedPids(w) <==> LinksToKernel(t, x, opts.kernelThreads))
          && VisitedPids(w) <= Pids(procs) + {0}
          && (opts.kernelThreads ==> VisitedPids(w) == Pids(procs) + {0})
          && (!opts.kernelThreads ==> KTHREADD !in VisitedPids(w)))
  {
    InitialTableEntries(procs, KernelRecord(os, procCmdline));
    SortedPrintsLinked(InitialTable(procs, KernelRecord(os, procCmdline)), opts, rank);
  }
}
