/**
 * The tree renderer: `ProcTree#print_node` and `ProcTree#print_tree`. Each
 * call of print_node prints one line and recurses into the node's children;
 * the printed lines are returned here instead.
 */
module Renderer {
  import opened Wrappers
  import opened Procs
  import opened Builder
  import opened Glyphs
  import opened Prefix

  /** The command-line options: -i, -c, -m, -n, -k and -p PID. */
  datatype Options = Options(
    showPid: bool,
    showComm: bool,
    showCmd: bool,
    noColor: bool,
    kernelThreads: bool,
    topPid: Option<int>)

  /** One printed line: the prefix pieces, then the text. */
  datatype Line = Line(pipes: seq<Piece>, text: string)

  // ---------------------------------------------------------------------------
  // The text of a line
  // ---------------------------------------------------------------------------

  function DigitChar(d: nat): (c: char)
    requires d < 10
    ensures '0' <= c <= '9' && c as int - '0' as int == d
  {
    ('0' as int + d) as char
  }

  /** The decimal digits of n, most significant first. */
  function Digits(n: nat): (s: string)
    ensures |s| >= 1
    ensures forall i :: 0 <= i < |s| ==> '0' <= s[i] <= '9'
    ensures n == 0 ==> s == "0"
    ensures n > 0 ==> s[0] != '0'
  {
    if n < 10 then [DigitChar(n)] else Digits(n / 10) + [DigitChar(n % 10)]
  }

  /** The number a string of decimal digits denotes. */
  function DigitsValue(s: string): nat
    requires forall i :: 0 <= i < |s| ==> '0' <= s[i] <= '9'
  {
    if s == [] then 0 else DigitsValue(s[..|s| - 1]) * 10 + (s[|s| - 1] as int - '0' as int)
  }

  /** Reading the digits back gives the number. */
  lemma {:induction false} DigitsRoundTrip(n: nat)
    ensures DigitsValue(Digits(n)) == n
  {
    if n >= 10 {
      DigitsRoundTrip(n / 10);
      var s := Digits(n);
      assert s[..|s| - 1] == Digits(n / 10);
    }
  }

  /** Integer#to_s, as string interpolation uses it: a minus sign for negatives, then the digits. */
  function Decimal(n: int): (s: string)
    ensures |s| >= 1
    ensures s[0] == '-' <==> n < 0
    ensures n < 0 ==> s[1..] == Digits(-n)
    ensures n >= 0 ==> s == Digits(n)
  {
    if n < 0 then "-" + Digits(-n) else Digits(n)
  }

  /** Reads back what Decimal prints. */
  function DecimalValue(s: string): int
    requires |s| >= 1
    requires forall i :: 0 < i < |s| ==> '0' <= s[i] <= '9'
    requires s[0] != '-' ==> '0' <= s[0] <= '9'
  {
    if s[0] == '-' then -(DigitsValue(s[1..]) as int) else DigitsValue(s)
  }

  /** Every integer is printed as a text that reads back as that integer. */
  lemma DecimalRoundTrip(n: int)
    ensures DecimalValue(Decimal(n)) == n
  {
    if n < 0 {
      DigitsRoundTrip(-n);
      assert Decimal(n)[1..] == Digits(-n);
    } else {
      DigitsRoundTrip(n);
    }
  }

  /** How many characters the `[pid] ` prefix takes: none without -i. */
  function PidWidth(opts: Options, r: ProcRecord): nat {
    if opts.showPid then |Decimal(r.pid)| + 3 else 0
  }

  /**
   * The text of a line: with -i the pid in brackets and a space, then the
   * name, then with -c the command name in parentheses, then with -m the
   * command line in brackets. A field that is nil in Ruby prints as empty text.
   */
  function Label(opts: Options, r: ProcRecord): (s: string)
    ensures |s| == PidWidth(opts, r) + |r.name| + (if opts.showComm then |r.comm| + 3 else 0)
                                                + (if opts.showCmd then |r.cmdline| + 3 else 0)
    ensures opts.showPid ==> s[..PidWidth(opts, r)] == "[" + Decimal(r.pid) + "] "
    ensures s[PidWidth(opts, r)..PidWidth(opts, r) + |r.name|] == r.name
    ensures opts.showCmd ==> s[|s| - |r.cmdline| - 3..] == " [" + r.cmdline + "]"
    ensures opts.showComm && !opts.showCmd ==> s[|s| - |r.comm| - 3..] == " (" + r.comm + ")"
    ensures opts.showComm ==>
      s[PidWidth(opts, r) + |r.name|..PidWidth(opts, r) + |r.name| + |r.comm| + 3] == " (" + r.comm + ")"
  {
    var pid := if opts.showPid then "[" + Decimal(r.pid) + "] " else "";
    var comm := if opts.showComm then " (" + r.comm + ")" else "";
    var cmd := if opts.showCmd then " [" + r.cmdline + "]" else "";
    Concat4(pid, r.name, comm, cmd);
    assert |pid| == PidWidth(opts, r);
    pid + r.name + comm + cmd
  }

  /** Where each of four concatenated parts sits. */
  lemma Concat4(a: string, b: string, c: string, d: string)
    ensures var s := a + b + c + d;
      && |s| == |a| + |b| + |c| + |d|
      && s[..|a|] == a
      && s[|a|..|a| + |b|] == b
      && s[|a| + |b|..|a| + |b| + |c|] == c
      && s[|s| - |d|..] == d
      && s[|s| - |c| - |d|..] == c + d
  {
    var s := a + b + c + d;
    assert s == a + (b + (c + d));
    assert s == (a + b) + (c + d);
  }

  /** The line print_node prints for one node: its prefix, then its label. */
  function NodeLine(t: Table, opts: Options, pid: int, depth: nat, last: bool, depthMap: seq<bool>): (l: Line)
    requires pid in t.values
    ensures |l.pipes| == if depth == 0 then 1 else depth + 1
  {
    var node := t.values[pid];
    Line(Pipes(depth, depthMap, |node.children| == 0, last, !opts.noColor), Label(opts, node.proc))
  }

  // ---------------------------------------------------------------------------
  // print_node and print_tree
  // ---------------------------------------------------------------------------

  /**
   * `print_node(prc, depth, last, depth_map)`: this node's line, then every
   * child's lines, each child one level deeper with `depth_map + [!last]`
   * and told it is last when it is `prc.children.last`. The rank only serves
   * to show that the recursion ends.
   */
  function PrintNode(t: Table, opts: Options, ghost rank: map<int, nat>,
                     pid: int, depth: nat, last: bool, depthMap: seq<bool>): (lines: seq<Line>)
    requires Ranked(t, rank) && pid in t.values
    ensures |lines| >= 1 + |t.values[pid].children|
    decreases rank[pid], 1
  {
    [NodeLine(t, opts, pid, depth, last, depthMap)]
      + PrintChildren(t, opts, rank, pid, 0, depth + 1, depthMap + [!last])
  }

  /** print_node's loop over the children, from the i-th child on. */
  function PrintChildren(t: Table, opts: Options, ghost rank: map<int, nat>,
                         parent: int, i: nat, depth: nat, childMap: seq<bool>): (lines: seq<Line>)
    requires Ranked(t, rank) && parent in t.values && i <= |t.values[parent].children|
    ensures |lines| >= |t.values[parent].children| - i
    decreases rank[parent], 0, |t.values[parent].children| - i
  {
    var kids := t.values[parent].children;
    if i == |kids| then []
    else
      PrintNode(t, opts, rank, kids[i], depth, kids[i] == kids[|kids| - 1], childMap)
        + PrintChildren(t, opts, rank, parent, i + 1, depth, childMap)
  }

  /** Where print_tree starts: `tree[0]`, or `tree[toppid]` when -p was given. */
  function TopPid(opts: Options): (pid: int)
    ensures opts.topPid == None ==> pid == 0
    ensures opts.topPid.Some? ==> pid == opts.topPid.value
  {
    if opts.topPid.Some? then opts.topPid.value else 0
  }

  /**
   * `print_tree`: the lines from the start node at depth 0, not last, with an
   * empty depth map; a -p PID that has no entry aborts before any line.
   */
  function PrintTree(t: Table, opts: Options, ghost rank: map<int, nat>): (r: Result<seq<Line>, Error>)
    requires Ranked(t, rank) && 0 in t.values
    ensures r.Failure? <==> opts.topPid.Some? && opts.topPid.value !in t.values
    ensures r.Failure? ==> r.error == NotFound(opts.topPid.value)
    ensures r.Success? ==> |r.value| >= 1 && r.value[0].text == Label(opts, t.values[TopPid(opts)].proc)
  {
    var top := TopPid(opts);
    if top !in t.values then Failure(NotFound(top))
    else Success(PrintNode(t, opts, rank, top, 0, false, []))
  }
}
