/**
 * The process records of a snapshot and the ProcNode objects built from
 * them (procthing.rb, class ProcNode).
 */
module Procs {

  /** One row of the process table: the fields the renderer uses. */
  datatype ProcRecord = ProcRecord(pid: int, ppid: int, name: string, comm: string, cmdline: string)

  /**
   * A ProcNode: the record and the pids of its children, in the order they
   * were appended. A pid stands for the node object stored under that pid.
   */
  datatype ProcNode = ProcNode(proc: ProcRecord, children: seq<int>)

  /** Why a run stops without output. */
  datatype Error =
      /**
       * tree_sort met an entry it attaches (not 0, and not 2 without -k) whose
       * parent pid has no entry: the parent lookup is nil and appending to its children raises
       */
    | MissingParent(pid: int, ppid: int)
      /** print_tree was asked to start at a pid that has no entry: "PID ... does not exist" */
    | NotFound(pid: int)

  /** Ruby's String#chomp with no argument: drops one trailing "\r\n", "\n" or "\r". */
  function Chomp(s: string): (r: string)
    ensures r <= s
    ensures s == r || s == r + "\n" || s == r + "\r" || s == r + "\r\n"
    ensures |s| > 0 && s[|s| - 1] != '\n' && s[|s| - 1] != '\r' ==> r == s
    ensures |s| > 0 && (s[|s| - 1] == '\n' || s[|s| - 1] == '\r') ==> r != s
    ensures |s| >= 2 && s[|s| - 2..] == "\r\n" ==> |r| == |s| - 2
    ensures |s| >= 1 && s[|s| - 1] == '\r' ==> |r| == |s| - 1
  {
    if |s| >= 2 && s[|s| - 2..] == "\r\n" then s[..|s| - 2]
    else if |s| >= 1 && (s[|s| - 1] == '\n' || s[|s| - 1] == '\r') then s[..|s| - 1]
    else s
  }

  /**
   * Chomp removes exactly the line end appended to a line: "\r\n" and "\r"
   * always, "\n" when the line does not itself end in "\r".
   */
  lemma ChompRemovesLineEnd(line: string)
    ensures Chomp(line + "\r\n") == line
    ensures Chomp(line + "\r") == line
    ensures (line == [] || line[|line| - 1] != '\r') ==> Chomp(line + "\n") == line
  {
    assert (line + "\r\n")[..|line|] == line;
    assert (line + "\r")[..|line|] == line;
    assert (line + "\n")[..|line|] == line;
  }

  /**
   * The synthetic root record (`kproc`): pid 0, named "Kernel", whose command
   * name is the platform's OS name and whose command line is the content of
   * /proc/cmdline on Linux and empty (Ruby's nil) elsewhere. Its parent pid is
   * never read; it is 0 here.
   */
  function KernelRecord(os: string, procCmdline: string): (r: ProcRecord)
    ensures r.pid == 0 && r.name == "Kernel" && r.comm == os
    ensures os != "linux" ==> r.cmdline == ""
    ensures os == "linux" ==> r.cmdline == Chomp(procCmdline)
  {
    ProcRecord(0, 0, "Kernel", os, if os == "linux" then Chomp(procCmdline) else "")
  }
}
