/**
 * Search nodes, the closed-node arena their parent references point into,
 * and the two path representations rebuilt after a successful search:
 * the waypoint path (`hppath`) and the rasterised cell path (`lppath`).
 */
module Nodes {
  import opened Wrappers
  import opened Bresenham

  /**
   * A search node: cell (i, j), cost so far g, heuristic H, score F and the
   * index of its parent in the closed-node arena (None for the start node).
   */
  datatype Node = Node(i: int, j: int, g: real, H: real, F: real, parent: Option<nat>)

  function CellOf(n: Node): Cell { (n.i, n.j) }

  /** The g tie-break policy: prefer the larger g (CN_SP_BT_GMAX) or the smaller g (CN_SP_BT_GMIN). */
  datatype TieBreak = GMax | GMin

  /** The parts of EnvironmentOptions the engine reads. */
  datatype Options = Options(allowDiagonal: bool, cutCorners: bool)

  /** Every closed node's parent was closed before it. */
  predicate ParentsEarlier(arena: seq<Node>)
  {
    forall k :: 0 <= k < |arena| && arena[k].parent.Some? ==> arena[k].parent.value < k
  }

  /** The parent chain of arena[k], from its root (a node without parent) to arena[k]. */
  function Chain(arena: seq<Node>, k: nat): seq<Node>
    requires ParentsEarlier(arena) && k < |arena|
    decreases k
  {
    if arena[k].parent.None? then [arena[k]]
    else Chain(arena, arena[k].parent.value) + [arena[k]]
  }

  /**
   * The waypoint path: its first node has no parent, its last is arena[k],
   * and each node is the arena entry its successor names as parent.
   */
  lemma {:induction false} ChainShape(arena: seq<Node>, k: nat)
    requires ParentsEarlier(arena) && k < |arena|
    ensures |Chain(arena, k)| >= 1 && Chain(arena, k)[0].parent.None?
    ensures Chain(arena, k)[|Chain(arena, k)| - 1] == arena[k]
    ensures forall t :: 0 <= t < |Chain(arena, k)| ==> Chain(arena, k)[t] in arena
    ensures forall t :: 1 <= t < |Chain(arena, k)| ==>
              Chain(arena, k)[t].parent.Some? && Chain(arena, k)[t].parent.value < |arena|
              && arena[Chain(arena, k)[t].parent.value] == Chain(arena, k)[t - 1]
    decreases k
  {
    if arena[k].parent.Some? {
      ChainShape(arena, arena[k].parent.value);
    }
  }

  /** The parent chain of a node whose parent (if any) is in the arena, ending with that node. */
  function ChainFrom(arena: seq<Node>, n: Node): seq<Node>
    requires ParentsEarlier(arena) && (n.parent.Some? ==> n.parent.value < |arena|)
  {
    if n.parent.None? then [n] else Chain(arena, n.parent.value) + [n]
  }

  /**
   * When only nodes on the start cell lack a parent, the chain of arena[k]
   * and its rasterised cell path both begin on the start cell and end on
   * arena[k]'s cell, and the cell path is 8-connected.
   */
  lemma ChainEndpoints(arena: seq<Node>, k: nat, start: Cell)
    requires ParentsEarlier(arena) && k < |arena|
    requires forall t :: 0 <= t < |arena| && arena[t].parent.None? ==> CellOf(arena[t]) == start
    ensures CellOf(Chain(arena, k)[0]) == start
    ensures Chain(arena, k)[|Chain(arena, k)| - 1] == arena[k]
    ensures CellOf(CellPath(Chain(arena, k))[0]) == start
    ensures CellOf(CellPath(Chain(arena, k))[|CellPath(Chain(arena, k))| - 1]) == CellOf(arena[k])
    ensures Connected(CellPath(Chain(arena, k)))
  {
    ChainShape(arena, k);
    CellPathShape(Chain(arena, k));
  }

  /** The node `makeSecondaryPath` appends for a rasterised cell: zero costs, no parent. */
  function InPath(c: Cell): Node { Node(c.0, c.1, 0.0, 0.0, 0.0, None) }

  /** The nodes appended for the leg from waypoint a to waypoint b; nothing when they coincide. */
  function Leg(a: Node, b: Node): seq<Node>
  {
    if a.i == b.i && a.j == b.j then []
    else
      var s := Segment(a.i, a.j, b.i, b.j);
      seq(|s|, t requires 0 <= t < |s| => InPath(s[t]))
  }

  /** The cells appended after the first waypoint, leg by leg. */
  function Legs(hp: seq<Node>): seq<Node>
    decreases |hp|
  {
    if |hp| <= 1 then [] else Legs(hp[..|hp| - 1]) + Leg(hp[|hp| - 2], hp[|hp| - 1])
  }

  /** The cell path: empty for no waypoints, otherwise the first waypoint followed by every leg. */
  function CellPath(hp: seq<Node>): seq<Node>
  {
    if hp == [] then [] else [hp[0]] + Legs(hp)
  }

  /** The first k nodes of the leg from (i1, j1) toward (i2, j2). */
  function LegPrefix(i1: int, j1: int, i2: int, j2: int, k: nat): seq<Node>
  {
    seq(k, t requires 0 <= t < k => InPath(CellAt(i1, j1, i2, j2, t + 1)))
  }

  lemma LegPrefixSnoc(i1: int, j1: int, i2: int, j2: int, k: nat)
    ensures LegPrefix(i1, j1, i2, j2, k + 1) == LegPrefix(i1, j1, i2, j2, k) + [InPath(CellAt(i1, j1, i2, j2, k + 1))]
  {
  }

  lemma LegPrefixFull(a: Node, b: Node)
    requires CellOf(a) != CellOf(b)
    ensures LegPrefix(a.i, a.j, b.i, b.j, Major(a.i, a.j, b.i, b.j)) == Leg(a, b)
  {
  }

  /** The cell path of one more waypoint appends the leg to it. */
  lemma CellPathSnoc(hp: seq<Node>, n: nat)
    requires 1 <= n < |hp|
    ensures CellPath(hp[..n + 1]) == CellPath(hp[..n]) + Leg(hp[n - 1], hp[n])
  {
    LegsSnoc(hp, n);
    assert hp[..n + 1][0] == hp[..n][0];
  }

  lemma LegsSnoc(hp: seq<Node>, n: nat)
    requires 1 <= n < |hp|
    ensures Legs(hp[..n + 1]) == Legs(hp[..n]) + Leg(hp[n - 1], hp[n])
  {
    var p := hp[..n + 1];
    assert p[..|p| - 1] == hp[..n];
    assert p[|p| - 2] == hp[n - 1] && p[|p| - 1] == hp[n];
  }

  /** Each cell of p is 8-adjacent to the one before it. */
  predicate Connected(p: seq<Node>)
  {
    forall t :: 0 <= t < |p| - 1 ==> Adjacent(CellOf(p[t]), CellOf(p[t + 1]))
  }

  lemma ConnectedConcat(q: seq<Node>, l: seq<Node>)
    requires q != [] && Connected(q) && Connected(l)
    requires l != [] ==> Adjacent(CellOf(q[|q| - 1]), CellOf(l[0]))
    ensures Connected(q + l)
  {
    var p := q + l;
    forall t | 0 <= t < |p| - 1
      ensures Adjacent(CellOf(p[t]), CellOf(p[t + 1]))
    {
      if t < |q| - 1 {
        assert p[t] == q[t] && p[t + 1] == q[t + 1];
      } else if t == |q| - 1 {
        assert p[t] == q[t] && p[t + 1] == l[0];
      } else {
        assert p[t] == l[t - |q|] && p[t + 1] == l[t - |q| + 1];
      }
    }
  }

  /** A leg is 8-connected: it starts next to a, ends on b, and has max(|di|,|dj|) cells. */
  lemma LegShape(a: Node, b: Node)
    ensures CellOf(a) == CellOf(b) ==> Leg(a, b) == []
    ensures CellOf(a) != CellOf(b) ==>
              |Leg(a, b)| == Major(a.i, a.j, b.i, b.j) && |Leg(a, b)| > 0
              && Adjacent(CellOf(a), CellOf(Leg(a, b)[0]))
              && CellOf(Leg(a, b)[|Leg(a, b)| - 1]) == CellOf(b)
    ensures Connected(Leg(a, b))
  {
    if CellOf(a) != CellOf(b) {
      SegmentShape(a.i, a.j, b.i, b.j);
    }
  }

  /** Sum of the leg lengths max(|di|,|dj|) over consecutive waypoints. */
  function LegLengths(hp: seq<Node>): nat
    decreases |hp|
  {
    if |hp| <= 1 then 0
    else LegLengths(hp[..|hp| - 1]) + Major(hp[|hp| - 2].i, hp[|hp| - 2].j, hp[|hp| - 1].i, hp[|hp| - 1].j)
  }

  /**
   * The cell path starts with the first waypoint, ends on the cell of the
   * last one, has 1 + sum of max(|di|,|dj|) entries and every entry is
   * 8-adjacent to the previous one.
   */
  lemma {:induction false} CellPathShape(hp: seq<Node>)
    requires hp != []
    ensures |CellPath(hp)| == 1 + LegLengths(hp) && CellPath(hp)[0] == hp[0]
    ensures CellOf(CellPath(hp)[|CellPath(hp)| - 1]) == CellOf(hp[|hp| - 1])
    ensures Connected(CellPath(hp))
    decreases |hp|
  {
    if |hp| > 1 {
      var front := hp[..|hp| - 1];
      CellPathShape(front);
      var a, b := hp[|hp| - 2], hp[|hp| - 1];
      CellPathSnoc(hp, |hp| - 1);
      assert hp[..|hp|] == hp;
      LegShape(a, b);
      ConnectedConcat(CellPath(front), Leg(a, b));
    }
  }
}
