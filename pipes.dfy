/**
 * `ProcTree#gen_pipes`: the coloured prefix of one line, built from the
 * node's depth, the "not last" flags of its ancestors (`depth_map`), whether
 * it has children and whether it is its parent's last child.
 */
module Prefix {
  import opened Wrappers
  import opened Glyphs

  /** `depth_map[k]` used as a condition: nil past the end reads as false. */
  function At(depthMap: seq<bool>, k: nat): bool {
    k < |depthMap| && depthMap[k]
  }

  /** Column i: a bar in the colour of depth i when `depth_map[i + 1]` holds, else a plain space. */
  function Column(i: nat, depthMap: seq<bool>, enabled: bool): (c: Piece)
    ensures c.glyph == if At(depthMap, i + 1) then VERTICAL else ' '
    ensures c.color.Some? <==> enabled && At(depthMap, i + 1)
    ensures c.color.Some? ==> c.color.value == DepthColor(i)
  {
    if At(depthMap, i + 1) then Style(DepthColor(i), VERTICAL, enabled) else Piece(None, ' ')
  }

  /** The first n columns, in order. */
  function Columns(n: nat, depthMap: seq<bool>, enabled: bool): (cols: seq<Piece>)
    ensures |cols| == n
    ensures forall i :: 0 <= i < n ==> cols[i] == Column(i, depthMap, enabled)
  {
    if n == 0 then [] else Columns(n - 1, depthMap, enabled) + [Column(n - 1, depthMap, enabled)]
  }

  /** The node's own pieces after the columns. */
  function Junction(depth: nat, noChildren: bool, last: bool, enabled: bool): (j: seq<Piece>)
    ensures |j| == if depth == 0 then 1 else 2
    ensures j[|j| - 1].glyph == if noChildren then HORIZONTAL else if depth == 0 then HORIZONTAL_FIRST else HORIZONTAL_CHILDREN
    ensures depth > 0 ==> j[0].glyph == if last then CONNECTOR_LAST else CONNECTOR
    ensures forall k :: 0 <= k < |j| ==> (j[k].color.Some? <==> enabled)
  {
    if depth == 0 && noChildren then [Style(DepthColor(depth), HORIZONTAL, enabled)]
    else if depth == 0 then [Style(DepthColor(depth), HORIZONTAL_FIRST, enabled)]
    else
      [ Style(DepthColor(depth - 1), if last then CONNECTOR_LAST else CONNECTOR, enabled),
        Style(DepthColor(depth), if noChildren then HORIZONTAL else HORIZONTAL_CHILDREN, enabled) ]
  }

  /** What gen_pipes returns: depth - 1 columns (none at depth 0), then the junction. */
  function Pipes(depth: nat, depthMap: seq<bool>, noChildren: bool, last: bool, enabled: bool): (p: seq<Piece>)
    ensures |p| == if depth == 0 then 1 else depth + 1
  {
    Columns(if depth == 0 then 0 else depth - 1, depthMap, enabled) + Junction(depth, noChildren, last, enabled)
  }

  /**
   * The prefix has one piece at depth 0 and depth + 1 pieces below; column i
   * (i < depth - 1) is a bar coloured for depth i exactly when `depth_map[i + 1]`
   * holds and a plain space otherwise; the root gets `─` when childless and `┌`
   * otherwise, in the colour of depth 0; a deeper node ends with `└` (last) or
   * `├` in the colour of depth - 1, then `─` (leaf) or `┬` in the colour of its depth.
   */
  lemma PipesShape(depth: nat, depthMap: seq<bool>, noChildren: bool, last: bool, enabled: bool)
    ensures var p := Pipes(depth, depthMap, noChildren, last, enabled);
      && |p| == (if depth == 0 then 1 else depth + 1)
      && (forall i :: 0 <= i < depth - 1 ==>
            p[i] == if At(depthMap, i + 1) then Style(DepthColor(i), VERTICAL, enabled) else Piece(None, ' '))
      && (depth == 0 ==> p[0] == Style(DepthColor(0), if noChildren then HORIZONTAL else HORIZONTAL_FIRST, enabled))
      && (depth > 0 ==>
            && p[depth - 1] == Style(DepthColor(depth - 1), if last then CONNECTOR_LAST else CONNECTOR, enabled)
            && p[depth] == Style(DepthColor(depth), if noChildren then HORIZONTAL else HORIZONTAL_CHILDREN, enabled))
  {
  }

  /** `gen_pipes(depth, depth_map, no_children, last)` */
  method GenPipes(depth: nat, depthMap: seq<bool>, noChildren: bool, last: bool, enabled: bool)
    returns (pipes: seq<Piece>)
    ensures pipes == Pipes(depth, depthMap, noChildren, last, enabled)
  {
    pipes := [];
    var i := 0;
    while i < depth - 1
      invariant 0 <= i && (depth == 0 ==> i == 0) && (depth > 0 ==> i <= depth - 1)
      invariant pipes == Columns(i, depthMap, enabled)
    {
      if At(depthMap, i + 1) {
        var color := DepthColor(i);
        pipes := pipes + [Style(color, VERTICAL, enabled)];
      } else {
        pipes := pipes + [Piece(None, ' ')];
      }
      i := i + 1;
    }
    if depth == 0 && noChildren {
      pipes := pipes + [Style(DepthColor(depth), HORIZONTAL, enabled)];
    } else if depth == 0 {
      pipes := pipes + [Style(DepthColor(depth), HORIZONTAL_FIRST, enabled)];
    } else {
      pipes := pipes + [Style(DepthColor(depth - 1), if last then CONNECTOR_LAST else CONNECTOR, enabled)];
      pipes := pipes + [Style(DepthColor(depth), if noChildren then HORIZONTAL else HORIZONTAL_CHILDREN, enabled)];
    }
  }
}
