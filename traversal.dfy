/**
 * The walk print_node performs: one visit per call, in the order of the
 * calls, and what it implies for the printed lines.
 */
module Traversal {
  import opened Wrappers
  import opened Builder
  import opened Glyphs
  import opened Prefix
  import opened Renderer

  /** One call of print_node: the node, its depth, its "last" flag and the depth map it received. */
  datatype Visit = Visit(pid: int, depth: nat, last: bool, depthMap: seq<bool>)

  /**
   * The pre-order walk from pid: the node itself, then the walk of each child
   * in children order, one level deeper, with the parent's depth map extended
   * by "the parent is not last"; the final child is the last one.
   */
  function Walk(t: Table, ghost rank: map<int, nat>, pid: int, depth: nat, last: bool, depthMap: seq<bool>): seq<Visit>
    requires Ranked(t, rank) && pid in t.values
    decreases rank[pid], 1
  {
    [Visit(pid, depth, last, depthMap)] + WalkChildren(t, rank, pid, 0, depth + 1, depthMap + [!last])
  }

  function WalkChildren(t: Table, ghost rank: map<int, nat>, parent: int, i: nat, depth: nat, childMap: seq<bool>): seq<Visit>
    requires Ranked(t, rank) && parent in t.values && i <= |t.values[parent].children|
    decreases rank[parent], 0, |t.values[parent].children| - i
  {
    var kids := t.values[parent].children;
    if i == |kids| then []
    else Walk(t, rank, kids[i], depth, i == |kids| - 1, childMap) + WalkChildren(t, rank, parent, i + 1, depth, childMap)
  }

  /** The line printed for a visit. */
  function LineOf(t: Table, opts: Options, v: Visit): Line
    requires v.pid in t.values
  {
    NodeLine(t, opts, v.pid, v.depth, v.last, v.depthMap)
  }

  // ---------------------------------------------------------------------------
  // Shape of a walk
  // ---------------------------------------------------------------------------

  /**
   * A walk starts at its node; every later visit is deeper and received the
   * start's depth map extended by "the start is not last"; depth grows by at
   * most one from a visit to the next; and when the depth map is as long as
   * the depth, so is every visit's.
   */
  lemma {:induction false} WalkShape(t: Table, rank: map<int, nat>, pid: int, depth: nat, last: bool, depthMap: seq<bool>)
    requires Ranked(t, rank) && pid in t.values
    ensures var w := Walk(t, rank, pid, depth, last, depthMap);
      && w[0] == Visit(pid, depth, last, depthMap)
      && (forall k :: 0 <= k < |w| ==> w[k].pid in t.values)
      && (forall k :: 1 <= k < |w| ==>
            w[k].depth > depth && |w[k].depthMap| > |depthMap| && w[k].depthMap[..|depthMap| + 1] == depthMap + [!last])
      && (forall k :: 0 <= k < |w| - 1 ==> w[k + 1].depth <= w[k].depth + 1)
      && (|depthMap| == depth ==> forall k :: 0 <= k < |w| ==> |w[k].depthMap| == w[k].depth)
    decreases rank[pid], 1
  {
    var childMap := depthMap + [!last];
    WalkChildrenShape(t, rank, pid, 0, depth + 1, childMap);
  }

  lemma {:induction false} WalkChildrenShape(t: Table, rank: map<int, nat>, parent: int, i: nat, depth: nat, childMap: seq<bool>)
    requires Ranked(t, rank) && parent in t.values && i <= |t.values[parent].children|
    ensures var kids := t.values[parent].children;
      var w := WalkChildren(t, rank, parent, i, depth, childMap);
      && (|w| == 0 <==> i == |kids|)
      && (i < |kids| ==> w[0].pid == kids[i] && w[0].depth == depth)
      && (forall k :: 0 <= k < |w| ==>
            && w[k].pid in t.values && w[k].depth >= depth
            && |w[k].depthMap| >= |childMap| && w[k].depthMap[..|childMap|] == childMap)
      && (forall k :: 0 <= k < |w| - 1 ==> w[k + 1].depth <= w[k].depth + 1)
      && (|childMap| == depth ==> forall k :: 0 <= k < |w| ==> |w[k].depthMap| == w[k].depth)
    decreases rank[parent], 0, |t.values[parent].children| - i
  {
    var kids := t.values[parent].children;
    if i < |kids| {
      var a := Walk(t, rank, kids[i], depth, i == |kids| - 1, childMap);
      var b := WalkChildren(t, rank, parent, i + 1, depth, childMap);
      WalkShape(t, rank, kids[i], depth, i == |kids| - 1, childMap);
      WalkChildrenShape(t, rank, parent, i + 1, depth, childMap);
      forall k | 1 <= k < |a|
        ensures a[k].depthMap[..|childMap|] == childMap
      {
        assert a[k].depthMap[..|childMap| + 1][..|childMap|] == a[k].depthMap[..|childMap|];
      }
    }
  }

  // ---------------------------------------------------------------------------
  // print_node prints the walk
  // ---------------------------------------------------------------------------

  /**
   * On a table whose children lists have no repeats (what tree_sort builds),
   * print_node prints exactly one line per visit of the walk, in walk order:
   * Ruby's `chld == prc.children.last` is then "chld is the final entry".
   */
  lemma {:induction false} PrintNodeFollowsWalk(t: Table, opts: Options, rank: map<int, nat>,
                                                pid: int, depth: nat, last: bool, depthMap: seq<bool>)
    requires Ranked(t, rank) && pid in t.values && DistinctChildren(t)
    ensures var w := Walk(t, rank, pid, depth, last, depthMap);
      var lines := PrintNode(t, opts, rank, pid, depth, last, depthMap);
      && |lines| == |w|
      && forall k :: 0 <= k < |w| ==> w[k].pid in t.values && lines[k] == LineOf(t, opts, w[k])
    decreases rank[pid], 1
  {
    PrintChildrenFollowsWalk(t, opts, rank, pid, 0, depth + 1, depthMap + [!last]);
    var v := Visit(pid, depth, last, depthMap);
    LinesFollowJoin(t, opts, [v], WalkChildren(t, rank, pid, 0, depth + 1, depthMap + [!last]),
                    [LineOf(t, opts, v)], PrintChildren(t, opts, rank, pid, 0, depth + 1, depthMap + [!last]));
  }

  lemma {:induction false} PrintChildrenFollowsWalk(t: Table, opts: Options, rank: map<int, nat>,
                                                    parent: int, i: nat, depth: nat, childMap: seq<bool>)
    requires Ranked(t, rank) && parent in t.values && i <= |t.values[parent].children| && DistinctChildren(t)
    ensures var w := WalkChildren(t, rank, parent, i, depth, childMap);
      var lines := PrintChildren(t, opts, rank, parent, i, depth, childMap);
      && |lines| == |w|
      && forall k :: 0 <= k < |w| ==> w[k].pid in t.values && lines[k] == LineOf(t, opts, w[k])
    decreases rank[parent], 0, |t.values[parent].children| - i
  {
    var kids := t.values[parent].children;
    if i < |kids| {
      assert (kids[i] == kids[|kids| - 1]) == (i == |kids| - 1);
      PrintNodeFollowsWalk(t, opts, rank, kids[i], depth, i == |kids| - 1, childMap);
      PrintChildrenFollowsWalk(t, opts, rank, parent, i + 1, depth, childMap);
      LinesFollowJoin(t, opts, Walk(t, rank, kids[i], depth, i == |kids| - 1, childMap),
                      WalkChildren(t, rank, parent, i + 1, depth, childMap),
                      PrintNode(t, opts, rank, kids[i], depth, i == |kids| - 1, childMap),
                      PrintChildren(t, opts, rank, parent, i + 1, depth, childMap));
    }
  }

  /** Lines that render two runs of visits, one for one, render the joined run. */
  lemma LinesFollowJoin(t: Table, opts: Options, w1: seq<Visit>, w2: seq<Visit>, l1: seq<Line>, l2: seq<Line>)
    requires |l1| == |w1| && forall k :: 0 <= k < |w1| ==> w1[k].pid in t.values && l1[k] == LineOf(t, opts, w1[k])
    requires |l2| == |w2| && forall k :: 0 <= k < |w2| ==> w2[k].pid in t.values && l2[k] == LineOf(t, opts, w2[k])
    ensures var w, lines := w1 + w2, l1 + l2;
      |lines| == |w| && forall k :: 0 <= k < |w| ==> w[k].pid in t.values && lines[k] == LineOf(t, opts, w[k])
  {
    var w, lines := w1 + w2, l1 + l2;
    forall k | 0 <= k < |w|
      ensures w[k].pid in t.values && lines[k] == LineOf(t, opts, w[k])
    {
      if k < |w1| {
        assert w[k] == w1[k] && lines[k] == l1[k];
      } else {
        assert w[k] == w2[k - |w1|] && lines[k] == l2[k - |w1|];
      }
    }
  }

  // ---------------------------------------------------------------------------
  // Last children and ancestors' flags
  // ---------------------------------------------------------------------------

  /** Another visit at the same depth follows visit k before the walk climbs above it: a later sibling. */
  ghost predicate HasLaterSibling(w: seq<Visit>, k: int)
    requires 0 <= k < |w|
  {
    exists j :: k < j < |w| && w[j].depth == w[k].depth && forall m :: k < m < j ==> w[m].depth > w[k].depth
  }

  /** Visit a is visit k's ancestor at depth e: the nearest visit at depth e at or before k, with only deeper ones between. */
  ghost predicate AncestorAt(w: seq<Visit>, a: int, k: int, e: nat) {
    0 <= a <= k < |w| && w[a].depth == e && forall m :: a < m <= k ==> w[m].depth > e
  }

  lemma SiblingShift(a: seq<Visit>, b: seq<Visit>, k: nat)
    requires k < |b|
    ensures HasLaterSibling(a + b, |a| + k) <==> HasLaterSibling(b, k)
  {
    var w := a + b;
    if HasLaterSibling(b, k) {
      var j :| k < j < |b| && b[j].depth == b[k].depth && forall m :: k < m < j ==> b[m].depth > b[k].depth;
      assert w[|a| + j].depth == w[|a| + k].depth;
      forall m | |a| + k < m < |a| + j
        ensures w[m].depth > w[|a| + k].depth
      {
        assert w[m] == b[m - |a|];
      }
    }
    if HasLaterSibling(w, |a| + k) {
      var j :| |a| + k < j < |w| && w[j].depth == w[|a| + k].depth && forall m :: |a| + k < m < j ==> w[m].depth > w[|a| + k].depth;
      assert b[j - |a|].depth == b[k].depth;
      forall m | k < m < j - |a|
        ensures b[m].depth > b[k].depth
      {
        assert w[|a| + m] == b[m];
      }
    }
  }

  /** A later sibling inside a cannot hide behind b when b starts no deeper than d and visit k is deeper. */
  lemma SiblingWithinPrefix(a: seq<Visit>, b: seq<Visit>, k: nat, d: nat)
    requires k < |a| && a[k].depth > d
    requires |b| > 0 ==> b[0].depth <= d
    ensures HasLaterSibling(a + b, k) <==> HasLaterSibling(a, k)
  {
    var w := a + b;
    if HasLaterSibling(a, k) {
      var j :| k < j < |a| && a[j].depth == a[k].depth && forall m :: k < m < j ==> a[m].depth > a[k].depth;
      assert w[j].depth == w[k].depth;
    }
    forall j | |a| <= j < |w|
      ensures !(w[j].depth == w[k].depth && forall m :: k < m < j ==> w[m].depth > w[k].depth)
    {
      assert w[|a|] == b[0];
    }
    if HasLaterSibling(w, k) {
      var j :| k < j < |w| && w[j].depth == w[k].depth && forall m :: k < m < j ==> w[m].depth > w[k].depth;
      assert a[j].depth == a[k].depth;
      forall m | k < m < j
        ensures a[m].depth > a[k].depth
      {
        assert w[m] == a[m];
      }
    }
  }

  lemma StartHasNoSibling(w: seq<Visit>)
    requires |w| > 0 && forall k :: 1 <= k < |w| ==> w[k].depth > w[0].depth
    ensures !HasLaterSibling(w, 0)
  {
  }

  ghost predicate LastMeansNoLaterSibling(w: seq<Visit>, from: nat) {
    forall k :: from <= k < |w| ==> (w[k].last <==> !HasLaterSibling(w, k))
  }

  /**
   * Within a walk, a visit below the start is marked last exactly when no
   * later sibling follows it; the start itself has no later sibling inside
   * its own walk.
   */
  lemma {:induction false} WalkLastSibling(t: Table, rank: map<int, nat>, pid: int, depth: nat, last: bool, depthMap: seq<bool>)
    requires Ranked(t, rank) && pid in t.values
    ensures var w := Walk(t, rank, pid, depth, last, depthMap);
      LastMeansNoLaterSibling(w, 1) && !HasLaterSibling(w, 0)
    decreases rank[pid], 1
  {
    var v := Visit(pid, depth, last, depthMap);
    var c := WalkChildren(t, rank, pid, 0, depth + 1, depthMap + [!last]);
    var w := [v] + c;
    WalkChildrenShape(t, rank, pid, 0, depth + 1, depthMap + [!last]);
    StartHasNoSibling(w);
    WalkChildrenLastSibling(t, rank, pid, 0, depth + 1, depthMap + [!last]);
    LastFlagsShift(v, c);
  }

  /** Putting one visit in front keeps the last flags of the visits after it right. */
  lemma LastFlagsShift(v: Visit, c: seq<Visit>)
    requires LastMeansNoLaterSibling(c, 0)
    ensures LastMeansNoLaterSibling([v] + c, 1)
  {
    var w := [v] + c;
    forall k | 1 <= k < |w|
      ensures w[k].last <==> !HasLaterSibling(w, k)
    {
      LastFlagShiftAt(v, c, k - 1);
    }
  }

  lemma LastFlagShiftAt(v: Visit, c: seq<Visit>, k: nat)
    requires k < |c| && (c[k].last <==> !HasLaterSibling(c, k))
    ensures ([v] + c)[k + 1].last <==> !HasLaterSibling([v] + c, k + 1)
  {
    SiblingShift([v], c, k);
    assert ([v] + c)[k + 1] == c[k];
  }

  lemma {:induction false} WalkChildrenLastSibling(t: Table, rank: map<int, nat>, parent: int, i: nat, depth: nat, childMap: seq<bool>)
    requires Ranked(t, rank) && parent in t.values && i <= |t.values[parent].children|
    ensures LastMeansNoLaterSibling(WalkChildren(t, rank, parent, i, depth, childMap), 0)
    decreases rank[parent], 0, |t.values[parent].children| - i
  {
    var kids := t.values[parent].children;
    if i < |kids| {
      var lastKid := i == |kids| - 1;
      var a := Walk(t, rank, kids[i], depth, lastKid, childMap);
      var b := WalkChildren(t, rank, parent, i + 1, depth, childMap);
      var w := a + b;
      WalkShape(t, rank, kids[i], depth, lastKid, childMap);
      WalkChildrenShape(t, rank, parent, i + 1, depth, childMap);
      WalkLastSibling(t, rank, kids[i], depth, lastKid, childMap);
      WalkChildrenLastSibling(t, rank, parent, i + 1, depth, childMap);
      forall k | 0 <= k < |w|
        ensures w[k].last <==> !HasLaterSibling(w, k)
      {
        if k == 0 {
          FirstVisitSibling(a, b, depth);
        } else if k < |a| {
          SiblingWithinPrefix(a, b, k, depth);
        } else {
          SiblingShift(a, b, k - |a|);
        }
      }
    }
  }

  /** The start of one child's walk has a later sibling exactly when more children follow it. */
  lemma FirstVisitSibling(a: seq<Visit>, b: seq<Visit>, depth: nat)
    requires |a| >= 1 && a[0].depth == depth
    requires forall m :: 1 <= m < |a| ==> a[m].depth > depth
    requires b != [] ==> b[0].depth == depth
    ensures HasLaterSibling(a + b, 0) <==> b != []
  {
    var w := a + b;
    if b != [] {
      assert w[|a|] == b[0];
      assert forall m :: 0 < m < |a| ==> w[m] == a[m];
    } else {
      assert w == a;
    }
  }

  ghost predicate FlagsRecordAncestors(w: seq<Visit>, from: nat) {
    forall a, k, e: nat :: AncestorAt(w, a, k, e) && from <= e && a < k ==>
      e < |w[k].depthMap| && w[k].depthMap[e] == !w[a].last
  }

  lemma AncestorShift(a: seq<Visit>, b: seq<Visit>, x: nat, k: nat, e: nat)
    requires AncestorAt(a + b, |a| + x, |a| + k, e)
    ensures AncestorAt(b, x, k, e)
  {
    forall m | x < m <= k
      ensures b[m].depth > e
    {
      assert (a + b)[|a| + m] == b[m];
    }
  }

  /**
   * Entry e of a visit's depth map (e at least the start's depth) is "not
   * last" of its ancestor at depth e: the flag each parent appends to a copy
   * of its own map for its children reaches every descendant unchanged.
   */
  lemma {:induction false} WalkAncestorFlags(t: Table, rank: map<int, nat>, pid: int, depth: nat, last: bool, depthMap: seq<bool>)
    requires Ranked(t, rank) && pid in t.values && |depthMap| == depth
    ensures FlagsRecordAncestors(Walk(t, rank, pid, depth, last, depthMap), depth)
    decreases rank[pid], 1
  {
    var w := Walk(t, rank, pid, depth, last, depthMap);
    var c := WalkChildren(t, rank, pid, 0, depth + 1, depthMap + [!last]);
    assert w == [w[0]] + c;
    WalkShape(t, rank, pid, depth, last, depthMap);
    WalkChildrenAncestorFlags(t, rank, pid, 0, depth + 1, depthMap + [!last]);
    forall a, k, e: nat | AncestorAt(w, a, k, e) && depth <= e && a < k
      ensures e < |w[k].depthMap| && w[k].depthMap[e] == !w[a].last
    {
      if a == 0 {
        assert w[k].depthMap[..|depthMap| + 1] == depthMap + [!last];
        assert w[k].depthMap[depth] == (depthMap + [!last])[depth];
      } else {
        AncestorShift([w[0]], c, a - 1, k - 1, e);
      }
    }
  }

  lemma {:induction false} WalkChildrenAncestorFlags(t: Table, rank: map<int, nat>, parent: int, i: nat, depth: nat, childMap: seq<bool>)
    requires Ranked(t, rank) && parent in t.values && i <= |t.values[parent].children| && |childMap| == depth
    ensures FlagsRecordAncestors(WalkChildren(t, rank, parent, i, depth, childMap), depth)
    decreases rank[parent], 0, |t.values[parent].children| - i
  {
    var kids := t.values[parent].children;
    if i < |kids| {
      var lastKid := i == |kids| - 1;
      var a := Walk(t, rank, kids[i], depth, lastKid, childMap);
      var b := WalkChildren(t, rank, parent, i + 1, depth, childMap);
      var w := a + b;
      WalkShape(t, rank, kids[i], depth, lastKid, childMap);
      WalkChildrenShape(t, rank, parent, i + 1, depth, childMap);
      WalkAncestorFlags(t, rank, kids[i], depth, lastKid, childMap);
      WalkChildrenAncestorFlags(t, rank, parent, i + 1, depth, childMap);
      forall x, k, e: nat | AncestorAt(w, x, k, e) && depth <= e && x < k
        ensures e < |w[k].depthMap| && w[k].depthMap[e] == !w[x].last
      {
        if k < |a| {
          forall m | x < m <= k
            ensures a[m].depth > e
          {
            assert w[m] == a[m];
          }
          assert AncestorAt(a, x, k, e);
        } else {
          assert w[|a|] == b[0];
          assert x >= |a|;
          AncestorShift(a, b, x - |a|, k - |a|, e);
        }
      }
    }
  }

  /** Some visit at or before k is k's ancestor at depth e. */
  ghost predicate HasAncestor(w: seq<Visit>, k: int, e: nat)
  {
    exists a :: AncestorAt(w, a, k, e)
  }

  /** In a walk whose depth rises by at most one per step, every level between the start and a visit has its ancestor. */
  lemma {:induction false} AncestorExists(w: seq<Visit>, k: nat, e: nat)
    requires k < |w| && w[0].depth <= e <= w[k].depth
    requires forall m :: 0 <= m < |w| - 1 ==> w[m + 1].depth <= w[m].depth + 1
    ensures HasAncestor(w, k, e)
  {
    if w[k].depth == e {
      assert AncestorAt(w, k, k, e);
    } else {
      assert w[k - 1].depth + 1 >= w[k].depth;
      AncestorExists(w, k - 1, e);
      var a :| AncestorAt(w, a, k - 1, e);
      assert AncestorAt(w, a, k, e);
    }
  }

  // ---------------------------------------------------------------------------
  // The rendered tree
  // ---------------------------------------------------------------------------

  /** The walk print_tree follows: from the start node at depth 0. */
  function TreeWalk(t: Table, opts: Options, ghost rank: map<int, nat>): (w: seq<Visit>)
    requires Ranked(t, rank) && 0 in t.values && TopPid(opts) in t.values
    ensures |w| >= 1 && w[0].pid == TopPid(opts) && w[0].depth == 0
  {
    WalkShape(t, rank, TopPid(opts), 0, false, []);
    Walk(t, rank, TopPid(opts), 0, false, [])
  }

  /** The start line: one piece, `─` for a childless start and `┌` otherwise, in the colour of depth 0. */
  ghost predicate RootLine(t: Table, opts: Options, w: seq<Visit>, lines: seq<Line>)
    requires |w| == |lines| > 0 && w[0].pid in t.values
  {
    lines[0].pipes == [Style(DepthColor(0), if |t.values[w[0].pid].children| == 0 then HORIZONTAL else HORIZONTAL_FIRST, !opts.noColor)]
  }

  /**
   * Line k below the start: depth + 1 pieces, ending in `└` when no sibling
   * follows the node and `├` when one does (colour of depth - 1), then `─`
   * for a leaf and `┬` otherwise (colour of its depth).
   */
  ghost predicate JunctionLine(t: Table, opts: Options, w: seq<Visit>, lines: seq<Line>, k: int)
    requires |w| == |lines| && 0 <= k < |w| && w[k].pid in t.values
  {
    var d := w[k].depth;
    && d > 0
    && |lines[k].pipes| == d + 1
    && lines[k].pipes[d - 1] == Style(DepthColor(d - 1), if HasLaterSibling(w, k) then CONNECTOR else CONNECTOR_LAST, !opts.noColor)
    && lines[k].pipes[d] == Style(DepthColor(d), if |t.values[w[k].pid].children| == 0 then HORIZONTAL else HORIZONTAL_CHILDREN, !opts.noColor)
  }

  /**
   * Column e - 1 of line k, under its ancestor a at depth e: a bar in the
   * colour of depth e - 1 when a sibling of a is still to come, a plain
   * space otherwise.
   */
  ghost predicate ColumnLine(opts: Options, w: seq<Visit>, lines: seq<Line>, a: int, k: int, e: nat)
    requires |w| == |lines| && AncestorAt(w, a, k, e) && 0 < e <= |lines[k].pipes|
  {
    lines[k].pipes[e - 1] == if HasLaterSibling(w, a) then Style(DepthColor(e - 1), VERTICAL, !opts.noColor) else Piece(None, ' ')
  }

  /** print_tree prints the walk's lines: one per visit, each with its node's text and the start line's single piece. */
  lemma RenderedLines(t: Table, opts: Options, rank: map<int, nat>)
    requires Ranked(t, rank) && 0 in t.values && DistinctChildren(t)
    requires PrintTree(t, opts, rank).Success?
    ensures TopPid(opts) in t.values
    ensures var lines := PrintTree(t, opts, rank).value;
      var w := TreeWalk(t, opts, rank);
      && |lines| == |w|
      && (forall k :: 0 <= k < |w| ==> w[k].pid in t.values && lines[k] == LineOf(t, opts, w[k]))
      && (forall k :: 0 <= k < |w| ==> lines[k].text == Label(opts, t.values[w[k].pid].proc))
      && RootLine(t, opts, w, lines)
  {
    var top := TopPid(opts);
    PrintNodeFollowsWalk(t, opts, rank, top, 0, false, []);
    WalkShape(t, rank, top, 0, false, []);
    PipesShape(0, [], |t.values[top].children| == 0, false, !opts.noColor);
  }

  /** Every line below the start ends in a connector that tells whether a sibling follows. */
  lemma RenderedJunctions(t: Table, opts: Options, rank: map<int, nat>)
    requires Ranked(t, rank) && 0 in t.values && DistinctChildren(t)
    requires PrintTree(t, opts, rank).Success?
    ensures TopPid(opts) in t.values
    ensures var lines := PrintTree(t, opts, rank).value;
      var w := TreeWalk(t, opts, rank);
      && |lines| == |w|
      && (forall k :: 1 <= k < |w| ==> w[k].pid in t.values && JunctionLine(t, opts, w, lines, k))
  {
    var top := TopPid(opts);
    RenderedLines(t, opts, rank);
    var lines := PrintTree(t, opts, rank).value;
    var w := TreeWalk(t, opts, rank);
    WalkShape(t, rank, top, 0, false, []);
    WalkLastSibling(t, rank, top, 0, false, []);
    forall k | 1 <= k < |w|
      ensures JunctionLine(t, opts, w, lines, k)
    {
      var v := w[k];
      assert lines[k] == LineOf(t, opts, v);
      PipesShape(v.depth, v.depthMap, |t.values[v.pid].children| == 0, v.last, !opts.noColor);
    }
  }

  /**
   * Every column of a line sits under an ancestor of that line's node, and
   * holds a bar exactly when that ancestor still has a sibling to come.
   */
  lemma RenderedColumns(t: Table, opts: Options, rank: map<int, nat>)
    requires Ranked(t, rank) && 0 in t.values && DistinctChildren(t)
    requires PrintTree(t, opts, rank).Success?
    ensures TopPid(opts) in t.values
    ensures var lines := PrintTree(t, opts, rank).value;
      var w := TreeWalk(t, opts, rank);
      && |lines| == |w|
      && (forall k, e: nat :: 0 <= k < |w| && 0 < e < w[k].depth ==> HasAncestor(w, k, e))
      && (forall a, k, e: nat :: AncestorAt(w, a, k, e) && 0 < e < w[k].depth ==>
            e <= |lines[k].pipes| && ColumnLine(opts, w, lines, a, k, e))
  {
    var top := TopPid(opts);
    RenderedLines(t, opts, rank);
    var lines := PrintTree(t, opts, rank).value;
    var w := TreeWalk(t, opts, rank);
    WalkShape(t, rank, top, 0, false, []);
    WalkAncestorFlags(t, rank, top, 0, false, []);
    WalkLastSibling(t, rank, top, 0, false, []);
    AllAncestorsExist(w);
    ColumnsFromFlags(t, opts, w, lines);
  }

  /** In a walk from depth 0 that descends one level at a time, every visit has an ancestor at each level above it. */
  lemma AllAncestorsExist(w: seq<Visit>)
    requires |w| > 0 && w[0].depth == 0
    requires forall m :: 0 <= m < |w| - 1 ==> w[m + 1].depth <= w[m].depth + 1
    ensures forall k, e: nat :: 0 <= k < |w| && 0 < e < w[k].depth ==> HasAncestor(w, k, e)
  {
    forall k, e: nat | 0 <= k < |w| && 0 < e < w[k].depth
      ensures HasAncestor(w, k, e)
    {
      AncestorExists(w, k, e);
    }
  }

  /** Lines rendered from a walk whose flags record its ancestors show each ancestor's column. */
  lemma ColumnsFromFlags(t: Table, opts: Options, w: seq<Visit>, lines: seq<Line>)
    requires |lines| == |w| && |w| > 0 && w[0].depth == 0
    requires forall k :: 0 <= k < |w| ==> w[k].pid in t.values && lines[k] == LineOf(t, opts, w[k])
    requires FlagsRecordAncestors(w, 0) && LastMeansNoLaterSibling(w, 1)
    ensures forall a, k, e: nat :: AncestorAt(w, a, k, e) && 0 < e < w[k].depth ==>
      e <= |lines[k].pipes| && ColumnLine(opts, w, lines, a, k, e)
  {
    forall a, k, e: nat | AncestorAt(w, a, k, e) && 0 < e < w[k].depth
      ensures e <= |lines[k].pipes| && ColumnLine(opts, w, lines, a, k, e)
    {
      RenderedColumn(t, opts, w, lines, a, k, e);
    }
  }

  /** One column: its piece comes from the depth map entry that recorded whether the ancestor was last. */
  lemma RenderedColumn(t: Table, opts: Options, w: seq<Visit>, lines: seq<Line>, a: nat, k: nat, e: nat)
    requires |lines| == |w| && AncestorAt(w, a, k, e) && 0 < e < w[k].depth && w[0].depth == 0
    requires w[k].pid in t.values && lines[k] == LineOf(t, opts, w[k])
    requires FlagsRecordAncestors(w, 0) && LastMeansNoLaterSibling(w, 1)
    ensures e <= |lines[k].pipes| && ColumnLine(opts, w, lines, a, k, e)
  {
    var v := w[k];
    PipesShape(v.depth, v.depthMap, |t.values[v.pid].children| == 0, v.last, !opts.noColor);
    assert 0 < a < k;
    assert w[a].last <==> !HasLaterSibling(w, a);
    assert v.depthMap[e] == !w[a].last;
  }

  // ---------------------------------------------------------------------------
  // Which nodes the walk visits, and how often
  // ---------------------------------------------------------------------------

  /** path follows children links from its first entry to its last. */
  ghost predicate IsPath(t: Table, path: seq<int>) {
    && |path| >= 1
    && (forall i :: 0 <= i < |path| ==> path[i] in t.values)
    && (forall i :: 0 <= i < |path| - 1 ==> path[i + 1] in t.values[path[i]].children)
  }

  /** x can be reached from a by following children links. */
  ghost predicate Reachable(t: Table, a: int, x: int) {
    exists path :: IsPath(t, path) && path[0] == a && path[|path| - 1] == x
  }

  ghost function VisitedPids(w: seq<Visit>): set<int> {
    set k | 0 <= k < |w| :: w[k].pid
  }

  lemma VisitedPidsAppend(a: seq<Visit>, b: seq<Visit>)
    ensures VisitedPids(a + b) == VisitedPids(a) + VisitedPids(b)
  {
    var w := a + b;
    forall x | x in VisitedPids(a)
      ensures x in VisitedPids(w)
    {
      var k :| 0 <= k < |a| && a[k].pid == x;
      assert w[k].pid == x;
    }
    forall x | x in VisitedPids(b)
      ensures x in VisitedPids(w)
    {
      var k :| 0 <= k < |b| && b[k].pid == x;
      assert w[|a| + k].pid == x;
    }
    forall x | x in VisitedPids(w)
      ensures x in VisitedPids(a) + VisitedPids(b)
    {
      var k :| 0 <= k < |w| && w[k].pid == x;
      if k >= |a| {
        assert b[k - |a|].pid == x;
      }
    }
  }

  /** The walk from a node visits exactly the nodes reachable from it. */
  lemma {:induction false} WalkVisitsReachable(t: Table, rank: map<int, nat>, pid: int, depth: nat, last: bool, depthMap: seq<bool>)
    requires Ranked(t, rank) && pid in t.values
    ensures forall x :: x in VisitedPids(Walk(t, rank, pid, depth, last, depthMap)) <==> Reachable(t, pid, x)
    decreases rank[pid], 1
  {
    var v := Visit(pid, depth, last, depthMap);
    var c := WalkChildren(t, rank, pid, 0, depth + 1, depthMap + [!last]);
    var kids := t.values[pid].children;
    WalkChildrenVisitReachable(t, rank, pid, 0, depth + 1, depthMap + [!last]);
    VisitedPidsAppend([v], c);
    assert VisitedPids([v]) == {pid};
    assert IsPath(t, [pid]);
    forall x
      ensures x in VisitedPids(c) ==> Reachable(t, pid, x)
      ensures x != pid && Reachable(t, pid, x) ==> x in VisitedPids(c)
    {
      if x in VisitedPids(c) {
        assert ReachableFromChild(t, pid, 0, x);
        var j :| 0 <= j < |kids| && Reachable(t, kids[j], x);
        var path :| IsPath(t, path) && path[0] == kids[j] && path[|path| - 1] == x;
        assert IsPath(t, [pid] + path);
      }
      if x != pid && Reachable(t, pid, x) {
        var path :| IsPath(t, path) && path[0] == pid && path[|path| - 1] == x;
        var j :| 0 <= j < |kids| && kids[j] == path[1];
        assert IsPath(t, path[1..]);
        assert ReachableFromChild(t, pid, 0, x);
      }
    }
  }

  /** x is reachable from the i-th child of parent or a later one. */
  ghost predicate ReachableFromChild(t: Table, parent: int, i: nat, x: int)
    requires parent in t.values
  {
    var kids := t.values[parent].children;
    exists j :: i <= j < |kids| && Reachable(t, kids[j], x)
  }

  lemma ReachableFromChildStep(t: Table, parent: int, i: nat, x: int)
    requires parent in t.values && i < |t.values[parent].children|
    ensures ReachableFromChild(t, parent, i, x) <==>
      Reachable(t, t.values[parent].children[i], x) || ReachableFromChild(t, parent, i + 1, x)
  {
    var kids := t.values[parent].children;
    if ReachableFromChild(t, parent, i, x) {
      var j :| i <= j < |kids| && Reachable(t, kids[j], x);
      if j > i {
        assert i + 1 <= j < |kids| && Reachable(t, kids[j], x);
      }
    }
  }

  lemma {:induction false} WalkChildrenVisitReachable(t: Table, rank: map<int, nat>, parent: int, i: nat, depth: nat, childMap: seq<bool>)
    requires Ranked(t, rank) && parent in t.values && i <= |t.values[parent].children|
    ensures forall x :: x in VisitedPids(WalkChildren(t, rank, parent, i, depth, childMap)) <==> ReachableFromChild(t, parent, i, x)
    decreases rank[parent], 0, |t.values[parent].children| - i
  {
    var kids := t.values[parent].children;
    if i < |kids| {
      var first := Walk(t, rank, kids[i], depth, i == |kids| - 1, childMap);
      var rest := WalkChildren(t, rank, parent, i + 1, depth, childMap);
      WalkVisitsReachable(t, rank, kids[i], depth, i == |kids| - 1, childMap);
      WalkChildrenVisitReachable(t, rank, parent, i + 1, depth, childMap);
      VisitedPidsAppend(first, rest);
      assert WalkChildren(t, rank, parent, i, depth, childMap) == first + rest;
      forall x
        ensures ReachableFromChild(t, parent, i, x) <==> x in VisitedPids(first) || x in VisitedPids(rest)
      {
        ReachableFromChildStep(t, parent, i, x);
      }
    }
  }

  lemma RankedEntry(t: Table, rank: map<int, nat>, p: int)
    requires Ranked(t, rank) && p in t.values
    ensures p in rank
  {
  }

  lemma RankedChild(t: Table, rank: map<int, nat>, p: int, c: int)
    requires Ranked(t, rank) && p in t.values && c in t.values[p].children
    ensures p in rank && c in rank && rank[c] < rank[p]
  {
  }

  /** Along a path, ranks fall strictly at every step. */
  lemma {:induction false} PathRankFalls(t: Table, rank: map<int, nat>, path: seq<int>)
    requires Ranked(t, rank) && IsPath(t, path)
    ensures path[0] in rank && path[|path| - 1] in rank
    ensures |path| >= 2 ==> rank[path[|path| - 1]] < rank[path[0]]
  {
    assert path[0] in t.values && path[|path| - 1] in t.values;
    RankedEntry(t, rank, path[0]);
    RankedEntry(t, rank, path[|path| - 1]);
    if |path| >= 2 {
      var rest := path[1..];
      assert IsPath(t, rest);
      PathRankFalls(t, rank, rest);
      RankedChild(t, rank, path[0], path[1]);
      assert rest[0] == path[1] && rest[|rest| - 1] == path[|path| - 1];
    }
  }

  /** Two paths that end at the same node, where every node has one parent: one start reaches the other. */
  lemma {:induction false} CommonDescendant(t: Table, pa: seq<int>, pb: seq<int>)
    requires SingleParent(t) && IsPath(t, pa) && IsPath(t, pb) && pa[|pa| - 1] == pb[|pb| - 1]
    ensures Reachable(t, pa[0], pb[0]) || Reachable(t, pb[0], pa[0])
    decreases |pa| + |pb|
  {
    if |pa| == 1 {
      assert Reachable(t, pb[0], pa[0]);
    } else if |pb| == 1 {
      assert Reachable(t, pa[0], pb[0]);
    } else {
      var x := pa[|pa| - 1];
      assert x in t.values[pa[|pa| - 2]].children && x in t.values[pb[|pb| - 2]].children;
      var qa := pa[..|pa| - 1];
      var qb := pb[..|pb| - 1];
      assert IsPath(t, qa) && IsPath(t, qb);
      CommonDescendant(t, qa, qb);
      if Reachable(t, qa[0], qb[0]) {
        assert Reachable(t, pa[0], pb[0]);
      } else {
        assert Reachable(t, pb[0], pa[0]);
      }
    }
  }

  /** A node that reaches another child of its parent reaches the parent. */
  lemma ReachesParent(t: Table, p: int, a: int, b: int)
    requires SingleParent(t) && p in t.values && a in t.values[p].children && b in t.values[p].children && a != b
    requires Reachable(t, a, b)
    ensures exists path :: IsPath(t, path) && path[0] == a && path[|path| - 1] == p && |path| >= 1
  {
    var path :| IsPath(t, path) && path[0] == a && path[|path| - 1] == b;
    var n := |path|;
    assert b in t.values[path[n - 2]].children;
    assert IsPath(t, path[..n - 1]);
  }

  /** In a ranked tree where every node has one parent, the subtrees of two distinct siblings share no node. */
  lemma SiblingSubtreesDisjoint(t: Table, rank: map<int, nat>, p: int, a: int, b: int, x: int)
    requires Ranked(t, rank) && SingleParent(t) && p in t.values
    requires a in t.values[p].children && b in t.values[p].children && a != b
    ensures !(Reachable(t, a, x) && Reachable(t, b, x))
  {
    if Reachable(t, a, x) && Reachable(t, b, x) {
      var pa :| IsPath(t, pa) && pa[0] == a && pa[|pa| - 1] == x;
      var pb :| IsPath(t, pb) && pb[0] == b && pb[|pb| - 1] == x;
      CommonDescendant(t, pa, pb);
      var from := if Reachable(t, a, b) then a else b;
      ReachesParent(t, p, from, if from == a then b else a);
      var up :| IsPath(t, up) && up[0] == from && up[|up| - 1] == p && |up| >= 1;
      PathRankFalls(t, rank, up + [from]);
      assert false;
    }
  }

  /** No node is visited twice. */
  ghost predicate DistinctPids(w: seq<Visit>) {
    forall i, j :: 0 <= i < j < |w| ==> w[i].pid != w[j].pid
  }

  /** With one parent per node, the walk visits no node twice. */
  lemma {:induction false} WalkVisitsOnce(t: Table, rank: map<int, nat>, pid: int, depth: nat, last: bool, depthMap: seq<bool>)
    requires Ranked(t, rank) && SingleParent(t) && pid in t.values
    ensures DistinctPids(Walk(t, rank, pid, depth, last, depthMap))
    decreases rank[pid], 1
  {
    var kids := t.values[pid].children;
    var v := Visit(pid, depth, last, depthMap);
    var c := WalkChildren(t, rank, pid, 0, depth + 1, depthMap + [!last]);
    var w := [v] + c;
    assert Walk(t, rank, pid, depth, last, depthMap) == w;
    WalkChildrenVisitOnce(t, rank, pid, 0, depth + 1, depthMap + [!last]);
    WalkChildrenVisitReachable(t, rank, pid, 0, depth + 1, depthMap + [!last]);
    forall i, j | 0 <= i < j < |w|
      ensures w[i].pid != w[j].pid
    {
      if i == 0 {
        var x := w[j].pid;
        assert x == c[j - 1].pid && x in VisitedPids(c);
        assert ReachableFromChild(t, pid, 0, x);
        var k :| 0 <= k < |kids| && Reachable(t, kids[k], x);
        var path :| IsPath(t, path) && path[0] == kids[k] && path[|path| - 1] == x;
        var up := [pid] + path;
        assert IsPath(t, up);
        PathRankFalls(t, rank, up);
        assert up[0] == pid && up[|up| - 1] == x && |up| >= 2;
        assert rank[x] < rank[pid];
        assert w[i].pid == pid;
      } else {
        assert w[i] == c[i - 1] && w[j] == c[j - 1];
      }
    }
  }

  lemma {:induction false} WalkChildrenVisitOnce(t: Table, rank: map<int, nat>, parent: int, i: nat, depth: nat, childMap: seq<bool>)
    requires Ranked(t, rank) && SingleParent(t) && parent in t.values && i <= |t.values[parent].children|
    ensures DistinctPids(WalkChildren(t, rank, parent, i, depth, childMap))
    decreases rank[parent], 0, |t.values[parent].children| - i
  {
    var kids := t.values[parent].children;
    if i < |kids| {
      var first := Walk(t, rank, kids[i], depth, i == |kids| - 1, childMap);
      var rest := WalkChildren(t, rank, parent, i + 1, depth, childMap);
      var c := first + rest;
      assert WalkChildren(t, rank, parent, i, depth, childMap) == c;
      WalkVisitsOnce(t, rank, kids[i], depth, i == |kids| - 1, childMap);
      WalkChildrenVisitOnce(t, rank, parent, i + 1, depth, childMap);
      WalkVisitsReachable(t, rank, kids[i], depth, i == |kids| - 1, childMap);
      WalkChildrenVisitReachable(t, rank, parent, i + 1, depth, childMap);
      assert DistinctPids(first) && DistinctPids(rest);
      forall a, b | 0 <= a < b < |c|
        ensures c[a].pid != c[b].pid
      {
        if b < |first| {
          assert c[a] == first[a] && c[b] == first[b];
          assert first[a].pid != first[b].pid;
        } else if a >= |first| {
          assert c[a] == rest[a - |first|] && c[b] == rest[b - |first|];
          assert rest[a - |first|].pid != rest[b - |first|].pid;
        } else {
          var x, y := first[a].pid, rest[b - |first|].pid;
          assert c[a].pid == x && c[b].pid == y;
          assert x in VisitedPids(first) && y in VisitedPids(rest);
          assert ReachableFromChild(t, parent, i + 1, y);
          var j :| i + 1 <= j < |kids| && Reachable(t, kids[j], y);
          assert kids[i] != kids[j];
          assert kids[i] in t.values[parent].children && kids[j] in t.values[parent].children;
          SiblingSubtreesDisjoint(t, rank, parent, kids[i], kids[j], y);
          assert !Reachable(t, kids[i], y);
          assert y !in VisitedPids(first);
          assert x != y;
        }
      }
    }
  }

  /**
   * print_tree prints one line per node reachable from the start node, and
   * no node twice, when every node has one parent (as after tree_sort).
   */
  lemma RenderedNodes(t: Table, opts: Options, rank: map<int, nat>)
    requires Ranked(t, rank) && 0 in t.values && SingleParent(t)
    requires PrintTree(t, opts, rank).Success?
    ensures TopPid(opts) in t.values
    ensures var lines := PrintTree(t, opts, rank).value;
      var w := TreeWalk(t, opts, rank);
      && |lines| == |w|
      && (forall x :: x in VisitedPids(w) <==> Reachable(t, TopPid(opts), x))
      && DistinctPids(w)
  {
    RenderedLines(t, opts, rank);
    var w := Walk(t, rank, TopPid(opts), 0, false, []);
    assert TreeWalk(t, opts, rank) == w;
    WalkVisitsReachable(t, rank, TopPid(opts), 0, false, []);
    WalkVisitsOnce(t, rank, TopPid(opts), 0, false, []);
  }

  /**
   * `chain` follows parent pids from its first entry to the kernel entry 0,
   * and tree_sort attaches every entry it leaves on the way: none is 0, and
   * without -k none is pid 2 (kthreadd).
   */
  ghost predicate ParentChain(t: Table, chain: seq<int>, kernelThreads: bool) {
    && |chain| >= 1
    && chain[|chain| - 1] == 0
    && (forall i :: 0 <= i < |chain| ==> chain[i] in t.values)
    && (forall i :: 0 <= i < |chain| - 1 ==> AttachesTo(t, chain[i], chain[i + 1], kernelThreads))
  }

  /** The parent links from `k` reach the kernel without meeting a skipped entry. */
  ghost predicate LinksToKernel(t: Table, k: int, kernelThreads: bool) {
    exists chain :: ParentChain(t, chain, kernelThreads) && chain[0] == k
  }

  /** After tree_sort, `c` is a child of `p` exactly when tree_sort attaches `c` to `p`. */
  lemma SortedChildIff(t: Table, kernelThreads: bool, p: int, c: int)
    requires Unsorted(t) && p in t.values
    ensures p in Sorted(t, kernelThreads).values
    ensures c in Sorted(t, kernelThreads).values[p].children <==> AttachesTo(t, c, p, kernelThreads)
  {
    SortedShape(t, kernelThreads);
    AttachedMembers(t, t.keys, p, kernelThreads);
  }

  ghost function Reversed(s: seq<int>): (r: seq<int>)
    ensures |r| == |s| && forall i :: 0 <= i < |s| ==> r[i] == s[|s| - 1 - i]
  {
    seq(|s|, i requires 0 <= i < |s| => s[|s| - 1 - i])
  }

  /** Read backwards, a path from 0 in the sorted tree is a parent chain. */
  lemma ChainFromPath(t: Table, kernelThreads: bool, path: seq<int>)
    requires Unsorted(t) && IsPath(Sorted(t, kernelThreads), path) && path[0] == 0
    ensures ParentChain(t, Reversed(path), kernelThreads)
  {
    var s := Sorted(t, kernelThreads);
    var chain := Reversed(path);
    var n := |path|;
    forall i | 0 <= i < n - 1
      ensures AttachesTo(t, chain[i], chain[i + 1], kernelThreads)
    {
      assert path[n - 2 - i + 1] in s.values[path[n - 2 - i]].children;
      SortedChildIff(t, kernelThreads, path[n - 2 - i], path[n - 1 - i]);
    }
  }

  /** Read backwards, a parent chain is a path from 0 in the sorted tree. */
  lemma PathFromChain(t: Table, kernelThreads: bool, chain: seq<int>)
    requires Unsorted(t) && ParentChain(t, chain, kernelThreads)
    ensures IsPath(Sorted(t, kernelThreads), Reversed(chain))
  {
    var s := Sorted(t, kernelThreads);
    var path := Reversed(chain);
    var n := |chain|;
    forall i | 0 <= i < n - 1
      ensures path[i + 1] in s.values[path[i]].children
    {
      assert AttachesTo(t, chain[n - 2 - i], chain[n - 2 - i + 1], kernelThreads);
      SortedChildIff(t, kernelThreads, chain[n - 1 - i], chain[n - 2 - i]);
    }
  }

  /**
   * After tree_sort, an entry hangs below the kernel exactly when its parent
   * links reach the kernel through entries that tree_sort attaches; without
   * -k, that leaves out pid 2 and every process whose ancestry meets it.
   */
  lemma SortedReachable(t: Table, kernelThreads: bool, k: int)
    requires Unsorted(t)
    ensures Reachable(Sorted(t, kernelThreads), 0, k) <==> LinksToKernel(t, k, kernelThreads)
  {
    if Reachable(Sorted(t, kernelThreads), 0, k) {
      var path :| IsPath(Sorted(t, kernelThreads), path) && path[0] == 0 && path[|path| - 1] == k;
      ChainFromPath(t, kernelThreads, path);
      assert Reversed(path)[0] == k;
    }
    if LinksToKernel(t, k, kernelThreads) {
      var chain :| ParentChain(t, chain, kernelThreads) && chain[0] == k;
      PathFromChain(t, kernelThreads, chain);
      assert Reversed(chain)[|chain| - 1] == k;
    }
  }

  /**
   * With -k and no orphan, the acyclic parent links of every entry reach the
   * kernel, so the sorted tree holds every entry below 0.
   */
  lemma {:induction false} EveryEntryLinks(t: Table, rank: map<int, nat>, k: int)
    requires NoOrphans(t, true) && AcyclicParents(t, rank, true) && k in t.values
    ensures LinksToKernel(t, k, true)
    decreases set x | x in t.values && x in rank && rank[x] > rank[k]
  {
    if k == 0 {
      assert ParentChain(t, [0], true);
    } else {
      var p := t.values[k].proc.ppid;
      assert !Orphan(t, k, true);
      assert rank[k] < rank[p];
      var above := set x | x in t.values && x in rank && rank[x] > rank[p];
      assert p !in above && p in set x | x in t.values && x in rank && rank[x] > rank[k];
      EveryEntryLinks(t, rank, p);
      var chain :| ParentChain(t, chain, true) && chain[0] == p;
      ChainExtend(t, true, k, chain);
    }
  }

  /** A parent chain grows by one entry that tree_sort attaches to its head. */
  lemma ChainExtend(t: Table, kernelThreads: bool, k: int, chain: seq<int>)
    requires ParentChain(t, chain, kernelThreads) && AttachesTo(t, k, chain[0], kernelThreads)
    ensures ParentChain(t, [k] + chain, kernelThreads)
  {
  }

  /** With -k and no orphan, every entry links to the kernel. */
  lemma EveryEntryLinked(t: Table, rank: map<int, nat>)
    requires NoOrphans(t, true) && AcyclicParents(t, rank, true)
    ensures forall x :: x in t.values ==> LinksToKernel(t, x, true)
  {
    forall x | x in t.values
      ensures LinksToKernel(t, x, true)
    {
      EveryEntryLinks(t, rank, x);
    }
  }

  /** With -k and no orphan, every entry is reachable from 0 after tree_sort. */
  lemma SortedReachesAll(t: Table, rank: map<int, nat>, k: int)
    requires Unsorted(t) && NoOrphans(t, true) && AcyclicParents(t, rank, true) && k in t.values
    ensures Reachable(Sorted(t, true), 0, k)
  {
    EveryEntryLinks(t, rank, k);
    SortedReachable(t, true, k);
  }

  /**
   * Printed from the kernel, the sorted tree shows each entry whose parent
   * links reach the kernel, one line each and no entry twice: with -k every
   * entry of the table, without it neither pid 2 nor anything below it.
   */
  lemma SortedPrintsLinked(t: Table, opts: Options, rank: map<int, nat>)
    requires Unsorted(t) && 0 in t.values && opts.topPid == None
    requires NoOrphans(t, opts.kernelThreads) && AcyclicParents(t, rank, opts.kernelThreads)
    ensures var tree := Sorted(t, opts.kernelThreads);
      && Ranked(tree, rank) && 0 in tree.values
      && PrintTree(tree, opts, rank).Success?
      && (var w := TreeWalk(tree, opts, rank);
          && |PrintTree(tree, opts, rank).value| == |w|
          && DistinctPids(w)
          && (forall x :: x in VisitedPids(w) <==> LinksToKernel(t, x, opts.kernelThreads))
          && VisitedPids(w) <= t.values.Keys
          && (opts.kernelThreads ==> VisitedPids(w) == t.values.Keys)
          && (!opts.kernelThreads ==> KTHREADD !in VisitedPids(w)))
  {
    var kt := opts.kernelThreads;
    SortedShape(t, kt);
    SortedIsRanked(t, rank, kt);
    SortedHasSingleParents(t, kt);
    var tree := Sorted(t, kt);
    RenderedNodes(tree, opts, rank);
    var w := TreeWalk(tree, opts, rank);
    forall x
      ensures x in VisitedPids(w) <==> LinksToKernel(t, x, kt)
    {
      SortedReachable(t, kt, x);
    }
    LinkedEntries(t, rank, kt, VisitedPids(w));
  }

  /**
   * The entries that link to the kernel, gathered in `linked`: only entries of
   * the table; with -k and no orphan, all of them; without -k, never pid 2,
   * whose chain would have to leave it while tree_sort skips it.
   */
  lemma LinkedEntries(t: Table, rank: map<int, nat>, kernelThreads: bool, linked: set<int>)
    requires forall x :: x in linked <==> LinksToKernel(t, x, kernelThreads)
    ensures linked <= t.values.Keys
    ensures kernelThreads && NoOrphans(t, true) && AcyclicParents(t, rank, true) ==> linked == t.values.Keys
    ensures !kernelThreads ==> KTHREADD !in linked
  {
    forall x | x in linked
      ensures x in t.values
    {
      var chain :| ParentChain(t, chain, kernelThreads) && chain[0] == x;
    }
    if kernelThreads && NoOrphans(t, true) && AcyclicParents(t, rank, true) {
      EveryEntryLinked(t, rank);
      forall x | x in t.values
        ensures x in linked
      {
        assert LinksToKernel(t, x, kernelThreads);
      }
    }
    if !kernelThreads {
      forall chain | ParentChain(t, chain, false)
        ensures chain[0] != KTHREADD
      {
        if |chain| > 1 {
          assert AttachesTo(t, chain[0], chain[1], false);
        }
      }
    }
  }
}
