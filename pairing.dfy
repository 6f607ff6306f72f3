/**
  Pairing BAG nodes with OSM nodes so that existing OSM nodes are reused and moved as
  little as possible. The exact path fills an N x N cost matrix (None plays the role of
  the Double.MAX_VALUE sentinel) and reads the assignment solver's answer `sol`; the
  solver itself is external, so `sol` is an input and what is verified is how its answer
  is turned into a pairing. The current revision also has a greedy nearest-node fallback.
 */
module Pairing {
  import opened OsmData

  /** Exact pairing is used below this node count (current revision). */
  const MaxSlowPairingNodeCount := 25
  /** Exact pairing is used below this node count (the two older revisions). */
  const LegacyMaxSlowPairingNodeCount := 20
  /** Ceiling (cm) for moving a tagged or shared OSM node; also the greedy ceiling. */
  const MaxNodeMoveTagged := 1
  /** Ceiling (cm) for moving an untagged node that only this way uses. */
  const MaxNodeMoveUntagged := 500
  /** The older revisions' single ceiling on LatLon.distance (degrees). */
  const LegacyMaxDistance := 1

  const SolverNullError := "NullPointerException in findNearestNode"

  /**
    The pairing state: BAG node -> OSM node, and the BAG and OSM nodes not paired yet
    (bagNodesLeft, osmNodesLeft).
   */
  datatype Correspondence = Correspondence(pairs: map<NodeId, NodeId>, bagLeft: set<NodeId>, osmLeft: set<NodeId>)

  ghost predicate Injective(m: map<NodeId, NodeId>) {
    forall a, b :: a in m && b in m && a != b ==> m[a] != m[b]
  }

  /**
    A partial injective pairing of the BAG way's nodes with the OSM way's nodes, with the
    left-over sets holding exactly the nodes not paired.
   */
  ghost predicate IsCorrespondence(bag: seq<NodeId>, osm: seq<NodeId>, c: Correspondence) {
    && c.pairs.Keys <= Elems(bag)
    && c.pairs.Values <= Elems(osm)
    && c.bagLeft == Elems(bag) - c.pairs.Keys
    && c.osmLeft == Elems(osm) - c.pairs.Values
    && Injective(c.pairs)
  }

  /** Nothing paired yet: both left-over sets hold every node of their way. */
  function Initial(bag: seq<NodeId>, osm: seq<NodeId>): (c: Correspondence)
    ensures IsCorrespondence(bag, osm, c)
    ensures c.bagLeft == Elems(bag) && c.osmLeft == Elems(osm) && c.pairs == map[]
  {
    Correspondence(map[], Elems(bag), Elems(osm))
  }

  /** Pair b with o and take both out of their left-over sets. */
  function AddPair(c: Correspondence, b: NodeId, o: NodeId): Correspondence {
    Correspondence(c.pairs[b := o], c.bagLeft - {b}, c.osmLeft - {o})
  }

  lemma AddPairKeeps(bag: seq<NodeId>, osm: seq<NodeId>, c: Correspondence, b: NodeId, o: NodeId)
    requires IsCorrespondence(bag, osm, c)
    requires b in c.bagLeft && o in c.osmLeft
    ensures IsCorrespondence(bag, osm, AddPair(c, b, o))
    ensures AddPair(c, b, o).pairs.Keys == c.pairs.Keys + {b}
    ensures AddPair(c, b, o).pairs.Values == c.pairs.Values + {o}
  {
    var p := c.pairs[b := o];
    forall v | v in p.Values ensures v in c.pairs.Values + {o} {
      var k :| k in p && p[k] == v;
      if k != b {
        assert c.pairs[k] == v;
      }
    }
    forall v | v in c.pairs.Values + {o} ensures v in p.Values {
      if v != o {
        var k :| k in c.pairs && c.pairs[k] == v;
        assert p[k] == v;
      } else {
        assert p[b] == o;
      }
    }
  }

  /** An injective map has as many distinct values as keys. */
  lemma {:induction false} InjectiveCard(m: map<NodeId, NodeId>)
    requires Injective(m)
    ensures |m.Values| == |m.Keys|
    decreases |m.Keys|
  {
    if m.Keys != {} {
      var k :| k in m.Keys;
      var m' := m - {k};
      assert m'.Keys == m.Keys - {k};
      InjectiveCard(m');
      forall v | v in m.Values ensures v in m'.Values + {m[k]} {
        var j :| j in m && m[j] == v;
        if j != k {
          assert m'[j] == v;
        }
      }
      forall v | v in m'.Values + {m[k]} ensures v in m.Values {
        if v != m[k] {
          var j :| j in m' && m'[j] == v;
          assert m[j] == v;
        }
      }
      assert m[k] !in m'.Values;
      assert m.Values == m'.Values + {m[k]};
    }
  }

  /**
    Once every OSM node is paired while some BAG node is not, the BAG way has more
    distinct nodes than the OSM way.
   */
  lemma ExhaustedOsm(bag: seq<NodeId>, osm: seq<NodeId>, c: Correspondence, b: NodeId)
    requires IsCorrespondence(bag, osm, c)
    requires c.osmLeft == {} && b in c.bagLeft
    ensures |Elems(osm)| < |Elems(bag)|
  {
    InjectiveCard(c.pairs);
    assert c.pairs.Values == Elems(osm) by {
      forall v | v in Elems(osm) ensures v in c.pairs.Values {
        assert v !in c.osmLeft;
      }
    }
    assert Elems(bag) == c.pairs.Keys + c.bagLeft;
    assert c.pairs.Keys * c.bagLeft == {};
    assert |c.bagLeft| >= 1 by { assert b in c.bagLeft; }
  }

  // ---- The ceilings ----

  /** Longer maximum distance when the node has no tags and no other parent ways. */
  function MaxMove(n: Node): (d: nat)
    ensures d == MaxNodeMoveTagged <==> IsTagged(n) || InOtherWay(n)
  {
    if IsTagged(n) || InOtherWay(n) then MaxNodeMoveTagged else MaxNodeMoveUntagged
  }

  /** A pair the current revision's exact path may keep: strictly below the OSM node's ceiling. */
  predicate WithinCeiling(arena: Arena, m: Metric, b: NodeId, o: NodeId) {
    b < |arena| && o < |arena| && m.greatCircle(arena[b].coor, arena[o].coor) < MaxMove(arena[o])
  }

  /** A pair the greedy fallback may keep: the same node, or closer than the tagged ceiling. */
  predicate GreedyAdmissible(arena: Arena, m: Metric, b: NodeId, o: NodeId) {
    b == o || (b < |arena| && o < |arena| && m.greatCircle(arena[b].coor, arena[o].coor) < MaxNodeMoveTagged)
  }

  /** A pair the older revisions may keep: LatLon.distance at most 1. */
  predicate LegacyAdmissible(arena: Arena, m: Metric, b: NodeId, o: NodeId) {
    b < |arena| && o < |arena| && m.planar(arena[b].coor, arena[o].coor) <= LegacyMaxDistance
  }

  /** The exact path's admissibility test of the current revision, as a function value. */
  function CeilingTest(arena: Arena, m: Metric): (NodeId, NodeId) -> bool {
    (b: NodeId, o: NodeId) => WithinCeiling(arena, m, b, o)
  }

  /** The exact path's admissibility test of the older revisions, as a function value. */
  function LegacyTest(arena: Arena, m: Metric): (NodeId, NodeId) -> bool {
    (b: NodeId, o: NodeId) => LegacyAdmissible(arena, m, b, o)
  }

  /** The greedy ceiling is the tighter one: a greedy pair of two nodes is within the exact path's ceiling. */
  lemma GreedyWithinCeiling(arena: Arena, m: Metric, b: NodeId, o: NodeId)
    requires GreedyAdmissible(arena, m, b, o) && b != o
    ensures WithinCeiling(arena, m, b, o)
  {
  }

  /** Cost cell (i, j) of the current revision; None is the sentinel. */
  function CurrentCell(arena: Arena, m: Metric, bag: seq<NodeId>, osm: seq<NodeId>, i: nat, j: nat): (r: Option<nat>)
    ensures r.Some? <==> i < |bag| && j < |osm| && WithinCeiling(arena, m, bag[i], osm[j])
  {
    if i < |bag| && j < |osm| && bag[i] < |arena| && osm[j] < |arena| then
      var d := m.greatCircle(arena[bag[i]].coor, arena[osm[j]].coor);
      if d >= MaxMove(arena[osm[j]]) then None else Some(d)
    else None
  }

  /** Cost cell (i, j) of the older revisions: rejected iff the distance exceeds 1. */
  function LegacyCell(arena: Arena, m: Metric, bag: seq<NodeId>, osm: seq<NodeId>, i: nat, j: nat): (r: Option<nat>)
    ensures r.Some? <==> i < |bag| && j < |osm| && LegacyAdmissible(arena, m, bag[i], osm[j])
  {
    if i < |bag| && j < |osm| && bag[i] < |arena| && osm[j] < |arena| then
      var d := m.planar(arena[bag[i]].coor, arena[osm[j]].coor);
      if d > LegacyMaxDistance then None else Some(d)
    else None
  }

  // ---- The exact path ----

  /**
    The cost matrix: every cell starts as the sentinel, then the cells of real
    (BAG row, OSM column) pairs are filled in.
   */
  method FillCostMatrix(n: nat, rows: nat, cols: nat, cell: (nat, nat) -> Option<nat>)
    returns (cost: array2<Option<nat>>)
    requires rows <= n && cols <= n
    ensures fresh(cost) && cost.Length0 == n && cost.Length1 == n
    ensures forall i, j :: 0 <= i < n && 0 <= j < n ==>
              cost[i, j] == (if i < rows && j < cols then cell(i, j) else None)
  {
    cost := new Option<nat>[n, n];
    for i := 0 to n
      invariant forall a, b :: 0 <= a < i && 0 <= b < n ==> cost[a, b] == None
    {
      for j := 0 to n
        invariant forall a, b :: 0 <= a < i && 0 <= b < n ==> cost[a, b] == None
        invariant forall b :: 0 <= b < j ==> cost[i, b] == None
      {
        cost[i, j] := None;
      }
    }
    for i := 0 to rows
      invariant forall a, b :: 0 <= a < n && 0 <= b < n ==>
                  cost[a, b] == (if a < i && b < cols then cell(a, b) else None)
    {
      for j := 0 to cols
        invariant forall a, b :: 0 <= a < n && 0 <= b < n ==>
                    cost[a, b] == (if (a < i && b < cols) || (a == i && b < j) then cell(a, b) else None)
      {
        cost[i, j] := cell(i, j);
      }
    }
  }

  /** Row i of the solver's answer assigns a real BAG node to a real OSM node, and that cell is not the sentinel. */
  predicate AssignedRow(bag: seq<NodeId>, osm: seq<NodeId>, sol: seq<nat>, admissible: (NodeId, NodeId) -> bool, i: nat) {
    i < |sol| && i < |bag| && sol[i] < |osm| && admissible(bag[i], osm[sol[i]])
  }

  /** Every pair in `pairs` was proposed by one of the first n rows of the solver's answer. */
  ghost predicate ProposedBefore(bag: seq<NodeId>, osm: seq<NodeId>, sol: seq<nat>, admissible: (NodeId, NodeId) -> bool,
                                 pairs: map<NodeId, NodeId>, n: nat) {
    forall b :: b in pairs ==>
      exists i: nat :: i < n && AssignedRow(bag, osm, sol, admissible, i) && bag[i] == b && osm[sol[i]] == pairs[b]
  }

  /** Row i is assigned, and its BAG node is paired with its OSM node in `pairs`. */
  predicate RowTaken(bag: seq<NodeId>, osm: seq<NodeId>, sol: seq<nat>, admissible: (NodeId, NodeId) -> bool,
                     pairs: map<NodeId, NodeId>, i: nat) {
    AssignedRow(bag, osm, sol, admissible, i) && bag[i] in pairs && pairs[bag[i]] == osm[sol[i]]
  }

  /** Rows k and i of the answer name the same BAG node or the same OSM node. */
  predicate SharesNode(bag: seq<NodeId>, osm: seq<NodeId>, sol: seq<nat>, k: nat, i: nat) {
    && k < |sol| && i < |sol| && k < |bag| && i < |bag| && sol[k] < |osm| && sol[i] < |osm|
    && (bag[k] == bag[i] || osm[sol[k]] == osm[sol[i]])
  }

  /** Row i itself, or a row before it, is in `pairs` and names one of row i's two nodes. */
  ghost predicate Claimed(bag: seq<NodeId>, osm: seq<NodeId>, sol: seq<nat>, admissible: (NodeId, NodeId) -> bool,
                          pairs: map<NodeId, NodeId>, i: nat) {
    exists k: nat :: k <= i && RowTaken(bag, osm, sol, admissible, pairs, k) && SharesNode(bag, osm, sol, k, i)
  }

  /**
    First row wins: each assigned non-sentinel row among the first n is in `pairs` itself,
    or an earlier row that is in `pairs` already took its BAG or its OSM node.
   */
  ghost predicate FirstRowsWin(bag: seq<NodeId>, osm: seq<NodeId>, sol: seq<nat>, admissible: (NodeId, NodeId) -> bool,
                               pairs: map<NodeId, NodeId>, n: nat) {
    forall i: nat :: i < n ==> RowSettled(bag, osm, sol, admissible, pairs, i)
  }

  /** Row i is not an assigned non-sentinel row, or it is claimed. */
  ghost predicate RowSettled(bag: seq<NodeId>, osm: seq<NodeId>, sol: seq<nat>, admissible: (NodeId, NodeId) -> bool,
                             pairs: map<NodeId, NodeId>, i: nat) {
    AssignedRow(bag, osm, sol, admissible, i) ==> Claimed(bag, osm, sol, admissible, pairs, i)
  }

  /**
    The exact path's reading of the solver's answer: a one-to-one pairing in which every
    pair is an assigned non-sentinel cell, and every assigned non-sentinel cell is a pair
    unless a row before it that is a pair took its BAG or its OSM node.
    FromSolutionUnique shows that this fixes the pairing.
   */
  ghost predicate FromSolution(bag: seq<NodeId>, osm: seq<NodeId>, sol: seq<nat>, admissible: (NodeId, NodeId) -> bool,
                               c: Correspondence) {
    && IsCorrespondence(bag, osm, c)
    && ProposedBefore(bag, osm, sol, admissible, c.pairs, |sol|)
    && FirstRowsWin(bag, osm, sol, admissible, c.pairs, |sol|)
  }

  /** A pair read from the solver's answer passes the cost matrix's ceiling. */
  lemma SolutionPairsAdmissible(bag: seq<NodeId>, osm: seq<NodeId>, sol: seq<nat>, admissible: (NodeId, NodeId) -> bool,
                                c: Correspondence)
    requires FromSolution(bag, osm, sol, admissible, c)
    ensures forall b :: b in c.pairs ==> admissible(b, c.pairs[b])
  {
    forall b | b in c.pairs ensures admissible(b, c.pairs[b]) {
      var i: nat :| i < |sol| && AssignedRow(bag, osm, sol, admissible, i) && bag[i] == b && osm[sol[i]] == c.pairs[b];
    }
  }

  /**
    Reads the solver's answer row by row: a row whose assigned cell is not the sentinel
    pairs its BAG node with the OSM node of that column, unless either is already paired
    (the first and last entries of a closed way are the same node).
   */
  method PairFromAssignment(bag: seq<NodeId>, osm: seq<NodeId>, cost: array2<Option<nat>>, sol: seq<nat>,
                            admissible: (NodeId, NodeId) -> bool)
    returns (c: Correspondence)
    requires |sol| == Max(|bag|, |osm|) && cost.Length0 == |sol| && cost.Length1 == |sol|
    requires forall i :: 0 <= i < |sol| ==> sol[i] < |sol|
    requires forall i, j :: 0 <= i < |sol| && 0 <= j < |sol| ==>
               (cost[i, j].Some? <==> i < |bag| && j < |osm| && admissible(bag[i], osm[j]))
    ensures FromSolution(bag, osm, sol, admissible, c)
    ensures forall b :: b in c.pairs ==> admissible(b, c.pairs[b])
  {
    c := Initial(bag, osm);
    for i := 0 to |sol|
      invariant IsCorrespondence(bag, osm, c)
      invariant ProposedBefore(bag, osm, sol, admissible, c.pairs, i)
      invariant FirstRowsWin(bag, osm, sol, admissible, c.pairs, i)
    {
      var j := sol[i];
      if cost[i, j].Some? {
        var osmNode := osm[j];
        var bagNode := bag[i];
        if osmNode !in c.osmLeft {
          RowBlocked(bag, osm, sol, admissible, c, i);
          continue;
        }
        if bagNode !in c.bagLeft {
          RowBlocked(bag, osm, sol, admissible, c, i);
          continue;
        }
        AddPairKeeps(bag, osm, c, bagNode, osmNode);
        ProposedStep(bag, osm, sol, admissible, c.pairs, i);
        RowTakenStep(bag, osm, sol, admissible, c.pairs, i);
        c := AddPair(c, bagNode, osmNode);
      }
    }
    SolutionPairsAdmissible(bag, osm, sol, admissible, c);
  }

  /** Pairing the BAG and OSM node of row i keeps every pair proposed by the rows read so far. */
  lemma ProposedStep(bag: seq<NodeId>, osm: seq<NodeId>, sol: seq<nat>, admissible: (NodeId, NodeId) -> bool,
                     pairs: map<NodeId, NodeId>, i: nat)
    requires ProposedBefore(bag, osm, sol, admissible, pairs, i)
    requires AssignedRow(bag, osm, sol, admissible, i)
    ensures ProposedBefore(bag, osm, sol, admissible, pairs[bag[i] := osm[sol[i]]], i + 1)
  {
    var p := pairs[bag[i] := osm[sol[i]]];
    forall b | b in p
      ensures exists k: nat :: k < i + 1 && AssignedRow(bag, osm, sol, admissible, k) && bag[k] == b && osm[sol[k]] == p[b]
    {
      if b != bag[i] {
        var k: nat :| k < i && AssignedRow(bag, osm, sol, admissible, k) && bag[k] == b && osm[sol[k]] == pairs[b];
        assert p[b] == pairs[b];
      } else {
        assert p[b] == osm[sol[i]];
      }
    }
  }

  /**
    A row whose BAG or OSM node is already paired is blocked by an earlier row that is a
    pair and shares that node.
   */
  lemma RowBlocked(bag: seq<NodeId>, osm: seq<NodeId>, sol: seq<nat>, admissible: (NodeId, NodeId) -> bool,
                   c: Correspondence, i: nat)
    requires IsCorrespondence(bag, osm, c)
    requires ProposedBefore(bag, osm, sol, admissible, c.pairs, i)
    requires FirstRowsWin(bag, osm, sol, admissible, c.pairs, i)
    requires AssignedRow(bag, osm, sol, admissible, i)
    requires bag[i] !in c.bagLeft || osm[sol[i]] !in c.osmLeft
    ensures FirstRowsWin(bag, osm, sol, admissible, c.pairs, i + 1)
  {
    assert bag[i] in Elems(bag) && osm[sol[i]] in Elems(osm);
    var b := if bag[i] !in c.bagLeft then bag[i] else var b' :| b' in c.pairs && c.pairs[b'] == osm[sol[i]]; b';
    var k: nat :| k < i && AssignedRow(bag, osm, sol, admissible, k) && bag[k] == b && osm[sol[k]] == c.pairs[b];
    assert RowTaken(bag, osm, sol, admissible, c.pairs, k) && SharesNode(bag, osm, sol, k, i);
  }

  /** Pairing the two nodes of row i, neither paired yet, makes row i a pair and keeps the earlier rows' pairs. */
  lemma RowTakenStep(bag: seq<NodeId>, osm: seq<NodeId>, sol: seq<nat>, admissible: (NodeId, NodeId) -> bool,
                     pairs: map<NodeId, NodeId>, i: nat)
    requires FirstRowsWin(bag, osm, sol, admissible, pairs, i)
    requires AssignedRow(bag, osm, sol, admissible, i) && bag[i] !in pairs
    ensures FirstRowsWin(bag, osm, sol, admissible, pairs[bag[i] := osm[sol[i]]], i + 1)
  {
    var p := pairs[bag[i] := osm[sol[i]]];
    forall r: nat | r < i + 1 && AssignedRow(bag, osm, sol, admissible, r)
      ensures Claimed(bag, osm, sol, admissible, p, r)
    {
      if r == i {
        assert RowTaken(bag, osm, sol, admissible, p, i) && SharesNode(bag, osm, sol, i, i);
      } else {
        assert RowSettled(bag, osm, sol, admissible, pairs, r);
        var k: nat :| k <= r && RowTaken(bag, osm, sol, admissible, pairs, k) && SharesNode(bag, osm, sol, k, r);
        assert RowTaken(bag, osm, sol, admissible, p, k);
      }
    }
  }

  /**
    If every row before i that is a pair under q is one under p, then a row that is a
    pair under p is one under q too: the row that blocks or takes it under q cannot be a
    different, earlier pair, since p is one-to-one.
   */
  lemma RowTakenTransfer(bag: seq<NodeId>, osm: seq<NodeId>, sol: seq<nat>, admissible: (NodeId, NodeId) -> bool,
                         p: map<NodeId, NodeId>, q: map<NodeId, NodeId>, i: nat)
    requires Injective(p)
    requires FirstRowsWin(bag, osm, sol, admissible, q, |sol|)
    requires forall k: nat :: k < i && RowTaken(bag, osm, sol, admissible, q, k) ==> RowTaken(bag, osm, sol, admissible, p, k)
    requires RowTaken(bag, osm, sol, admissible, p, i)
    ensures RowTaken(bag, osm, sol, admissible, q, i)
  {
    assert RowSettled(bag, osm, sol, admissible, q, i);
    var k: nat :| k <= i && RowTaken(bag, osm, sol, admissible, q, k) && SharesNode(bag, osm, sol, k, i);
    if k < i {
      assert RowTaken(bag, osm, sol, admissible, p, k);
      assert bag[k] == bag[i] && osm[sol[k]] == osm[sol[i]];
    }
  }

  /** Two readings of the same answer agree on every row. */
  lemma {:induction false} RowsAgree(bag: seq<NodeId>, osm: seq<NodeId>, sol: seq<nat>, admissible: (NodeId, NodeId) -> bool,
                                     p: map<NodeId, NodeId>, q: map<NodeId, NodeId>, i: nat)
    requires Injective(p) && Injective(q)
    requires FirstRowsWin(bag, osm, sol, admissible, p, |sol|)
    requires FirstRowsWin(bag, osm, sol, admissible, q, |sol|)
    ensures RowTaken(bag, osm, sol, admissible, p, i) <==> RowTaken(bag, osm, sol, admissible, q, i)
    decreases i
  {
    forall k: nat | k < i
      ensures RowTaken(bag, osm, sol, admissible, p, k) <==> RowTaken(bag, osm, sol, admissible, q, k)
    {
      RowsAgree(bag, osm, sol, admissible, p, q, k);
    }
    if RowTaken(bag, osm, sol, admissible, p, i) {
      RowTakenTransfer(bag, osm, sol, admissible, p, q, i);
    }
    if RowTaken(bag, osm, sol, admissible, q, i) {
      RowTakenTransfer(bag, osm, sol, admissible, q, p, i);
    }
  }

  /** The solver's answer fixes the pairing: FromSolution admits exactly one correspondence. */
  lemma FromSolutionUnique(bag: seq<NodeId>, osm: seq<NodeId>, sol: seq<nat>, admissible: (NodeId, NodeId) -> bool,
                           c1: Correspondence, c2: Correspondence)
    requires FromSolution(bag, osm, sol, admissible, c1)
    requires FromSolution(bag, osm, sol, admissible, c2)
    ensures c1 == c2
  {
    forall b | b in c1.pairs ensures b in c2.pairs && c2.pairs[b] == c1.pairs[b] {
      var i: nat :| i < |sol| && AssignedRow(bag, osm, sol, admissible, i) && bag[i] == b && osm[sol[i]] == c1.pairs[b];
      RowsAgree(bag, osm, sol, admissible, c1.pairs, c2.pairs, i);
    }
    forall b | b in c2.pairs ensures b in c1.pairs {
      var i: nat :| i < |sol| && AssignedRow(bag, osm, sol, admissible, i) && bag[i] == b && osm[sol[i]] == c2.pairs[b];
      RowsAgree(bag, osm, sol, admissible, c1.pairs, c2.pairs, i);
    }
    assert c1.pairs == c2.pairs;
  }

  // ---- The greedy fallback ----

  /** n ranks first among the options by the cheap squared distance to the target. */
  predicate IsNearest(arena: Arena, m: Metric, target: NodeId, n: NodeId, options: set<NodeId>)
    requires target < |arena| && ValidIdSet(arena, options)
  {
    n in options &&
    forall o :: o in options ==>
      m.distanceSq(arena[n].coor, arena[target].coor) <= m.distanceSq(arena[o].coor, arena[target].coor)
  }

  /**
    findNearestNode: the target itself when it is an option; otherwise the option nearest
    by squared distance, kept only when its great-circle distance is below the tagged
    ceiling. With no options at all the source dereferences null.
   */
  method FindNearestNode(arena: Arena, m: Metric, target: NodeId, options: set<NodeId>)
    returns (r: Result<Option<NodeId>>)
    requires target < |arena| && ValidIdSet(arena, options)
    ensures target in options ==> r == Ok(Some(target))
    ensures r.Err? <==> options == {}
    ensures target !in options && r.Ok? && r.value.Some? ==>
              IsNearest(arena, m, target, r.value.value, options)
              && m.greatCircle(arena[target].coor, arena[r.value.value].coor) < MaxNodeMoveTagged
    ensures r == Ok(None) ==>
              exists n: NodeId :: IsNearest(arena, m, target, n, options)
                          && m.greatCircle(arena[target].coor, arena[n].coor) >= MaxNodeMoveTagged
  {
    if target in options {
      return Ok(Some(target));
    }
    var nearest: Option<NodeId> := None;
    var nearestDistance := 0;
    var remaining := options;
    while remaining != {}
      invariant remaining <= options
      invariant nearest.None? <==> remaining == options
      invariant nearest.Some? ==> IsNearest(arena, m, target, nearest.value, options - remaining)
      invariant nearest.Some? ==> nearestDistance == m.distanceSq(arena[nearest.value].coor, arena[target].coor)
      decreases |remaining|
    {
      var o :| o in remaining;
      var d := m.distanceSq(arena[o].coor, arena[target].coor);
      if nearest.None? || d < nearestDistance {
        nearestDistance := d;
        nearest := Some(o);
      }
      remaining := remaining - {o};
    }
    if nearest.None? {
      return Err(SolverNullError);
    }
    assert options - remaining == options;
    if m.greatCircle(arena[target].coor, arena[nearest.value].coor) >= MaxNodeMoveTagged {
      return Ok(None);
    }
    return Ok(nearest);
  }

  /** No node of `left` is nearer to b, by squared distance, than n. */
  predicate AtLeastAsNear(arena: Arena, m: Metric, b: NodeId, n: NodeId, left: set<NodeId>) {
    && b < |arena| && n < |arena|
    && forall o :: o in left && o < |arena| ==>
         m.distanceSq(arena[n].coor, arena[b].coor) <= m.distanceSq(arena[o].coor, arena[b].coor)
  }

  /**
    One visit of the greedy pass to BAG node b, taking the state c to c': nothing when b
    is already paired; b with itself when b is still left on the OSM side; otherwise a
    node of the OSM nodes still left that none of them beats by squared distance, paired
    with b when it is closer than the tagged ceiling and left alone when it is not. When
    several nodes tie, any of them may be the one.
   */
  ghost predicate GreedyVisit(arena: Arena, m: Metric, b: NodeId, c: Correspondence, c': Correspondence) {
    if b !in c.bagLeft then c' == c
    else if b in c.osmLeft then c' == AddPair(c, b, b)
    else exists n :: n in c.osmLeft && AtLeastAsNear(arena, m, b, n, c.osmLeft) &&
           c' == (if m.greatCircle(arena[b].coor, arena[n].coor) < MaxNodeMoveTagged then AddPair(c, b, n) else c)
  }

  /** trace[k] is the state before the visit to bag[k], and the first n visits follow GreedyVisit. */
  ghost predicate GreedyTrace(arena: Arena, m: Metric, bag: seq<NodeId>, trace: seq<Correspondence>, n: nat) {
    n < |trace| && n <= |bag| &&
    forall k :: 0 <= k < n ==> GreedyVisit(arena, m, bag[k], trace[k], trace[k + 1])
  }

  /** Summary facts of the pass: the correspondence holds, the pairs of c0 stay, and the new pairs are greedy-admissible. */
  ghost predicate GreedyKeeps(arena: Arena, m: Metric, bag: seq<NodeId>, osm: seq<NodeId>,
                              c0: Correspondence, c: Correspondence) {
    && IsCorrespondence(bag, osm, c0)
    && IsCorrespondence(bag, osm, c)
    && (forall b :: b in c0.pairs ==> b in c.pairs && c.pairs[b] == c0.pairs[b])
    && (forall b :: b in c.pairs && b !in c0.pairs ==> GreedyAdmissible(arena, m, b, c.pairs[b]))
  }

  /**
    The greedy pass over the whole BAG way, from c0 to c: the BAG nodes are visited in
    order, each against the OSM nodes left at that moment.
   */
  ghost predicate GreedyOutcome(arena: Arena, m: Metric, bag: seq<NodeId>, osm: seq<NodeId>,
                                c0: Correspondence, c: Correspondence) {
    && GreedyKeeps(arena, m, bag, osm, c0, c)
    && exists trace: seq<Correspondence> ::
         && GreedyTrace(arena, m, bag, trace, |bag|)
         && |trace| == |bag| + 1 && trace[0] == c0 && trace[|bag|] == c
  }

  /** The left-over sets only shrink along the pass. */
  lemma {:induction false} TraceShrinks(arena: Arena, m: Metric, bag: seq<NodeId>, trace: seq<Correspondence>, k: nat, j: nat)
    requires GreedyTrace(arena, m, bag, trace, |bag|)
    requires k <= j <= |bag|
    ensures trace[j].bagLeft <= trace[k].bagLeft && trace[j].osmLeft <= trace[k].osmLeft
    decreases j - k
  {
    if k < j {
      TraceShrinks(arena, m, bag, trace, k + 1, j);
      assert GreedyVisit(arena, m, bag[k], trace[k], trace[k + 1]);
      if bag[k] in trace[k].bagLeft && bag[k] !in trace[k].osmLeft {
        var n :| n in trace[k].osmLeft && AtLeastAsNear(arena, m, bag[k], n, trace[k].osmLeft) &&
                 trace[k + 1] == (if m.greatCircle(arena[bag[k]].coor, arena[n].coor) < MaxNodeMoveTagged
                                  then AddPair(trace[k], bag[k], n) else trace[k]);
      }
    }
  }

  /**
    A BAG node the greedy pass leaves unpaired is not an OSM node still left, and some OSM
    node that none of the nodes still left beats by squared distance is 1 cm or more away.
   */
  lemma GreedyLeftOver(arena: Arena, m: Metric, bag: seq<NodeId>, osm: seq<NodeId>,
                       c0: Correspondence, c: Correspondence, b: NodeId)
    requires GreedyOutcome(arena, m, bag, osm, c0, c)
    requires b in c.bagLeft
    ensures b !in c.osmLeft
    ensures exists n :: n in Elems(osm) && AtLeastAsNear(arena, m, b, n, c.osmLeft)
                        && m.greatCircle(arena[b].coor, arena[n].coor) >= MaxNodeMoveTagged
  {
    var trace: seq<Correspondence> :| GreedyTrace(arena, m, bag, trace, |bag|) && |trace| == |bag| + 1 && trace[0] == c0 && trace[|bag|] == c;
    assert b in Elems(bag);
    var k :| 0 <= k < |bag| && bag[k] == b;
    TraceShrinks(arena, m, bag, trace, k, |bag|);
    TraceShrinks(arena, m, bag, trace, k + 1, |bag|);
    TraceShrinks(arena, m, bag, trace, 0, k);
    assert GreedyVisit(arena, m, b, trace[k], trace[k + 1]);
    assert b in trace[k + 1].bagLeft;
    var n :| n in trace[k].osmLeft && AtLeastAsNear(arena, m, b, n, trace[k].osmLeft) &&
             trace[k + 1] == (if m.greatCircle(arena[b].coor, arena[n].coor) < MaxNodeMoveTagged
                              then AddPair(trace[k], b, n) else trace[k]);
    assert n in Elems(osm);
  }

  /**
    The greedy pass from c0 crashes: some walk that follows GreedyVisit reaches a BAG node
    that is still unpaired when no OSM node is left, and findNearestNode dereferences null.
   */
  ghost predicate GreedyCrash(arena: Arena, m: Metric, bag: seq<NodeId>, c0: Correspondence) {
    exists k: nat, trace: seq<Correspondence> ::
      && GreedyTrace(arena, m, bag, trace, k)
      && k < |bag| && |trace| == k + 1 && trace[0] == c0
      && bag[k] in trace[k].bagLeft && trace[k].osmLeft == {}
  }

  /**
    The quick backup: walk the BAG nodes in order; each one still unpaired takes its
    nearest unpaired OSM node when that is close enough. Pairs made before are kept.
    The source dereferences null once every OSM node is taken while a BAG node is still
    unpaired; that can only happen when the BAG way has more distinct nodes.
   */
  method GreedyPairing(arena: Arena, m: Metric, bag: seq<NodeId>, osm: seq<NodeId>, c0: Correspondence)
    returns (r: Result<Correspondence>)
    requires ValidIds(arena, bag) && ValidIds(arena, osm)
    requires IsCorrespondence(bag, osm, c0)
    ensures r.Ok? ==> GreedyOutcome(arena, m, bag, osm, c0, r.value)
    ensures r.Err? ==> GreedyCrash(arena, m, bag, c0)
    ensures r.Err? ==> |Elems(osm)| < |Elems(bag)|
  {
    var c := c0;
    ghost var trace := [c0];
    for i := 0 to |bag|
      invariant GreedyKeeps(arena, m, bag, osm, c0, c)
      invariant |trace| == i + 1 && trace[0] == c0 && trace[i] == c
      invariant GreedyTrace(arena, m, bag, trace, i)
    {
      var bagNode := bag[i];
      var next := c;
      // Skip when already done (the first and last node of a closed way are the same one)
      if bagNode in c.bagLeft {
        assert ValidIdSet(arena, c.osmLeft);
        var nearest := FindNearestNode(arena, m, bagNode, c.osmLeft);
        if nearest.Err? {
          ExhaustedOsm(bag, osm, c, bagNode);
          assert GreedyTrace(arena, m, bag, trace, i) && bag[i] in trace[i].bagLeft && trace[i].osmLeft == {};
          return Err(nearest.error);
        }
        if nearest.value.Some? {
          var osmNode := nearest.value.value;
          AddPairKeeps(bag, osm, c, bagNode, osmNode);
          next := AddPair(c, bagNode, osmNode);
          if bagNode !in c.osmLeft {
            assert osmNode in c.osmLeft && AtLeastAsNear(arena, m, bagNode, osmNode, c.osmLeft);
          }
        } else {
          ghost var n: NodeId :| IsNearest(arena, m, bagNode, n, c.osmLeft)
                                 && m.greatCircle(arena[bagNode].coor, arena[n].coor) >= MaxNodeMoveTagged;
          assert n in c.osmLeft && AtLeastAsNear(arena, m, bagNode, n, c.osmLeft);
        }
      }
      assert GreedyVisit(arena, m, bagNode, c, next);
      GreedyVisitKeeps(arena, m, bag, osm, c0, c, bagNode, next);
      TraceExtend(arena, m, bag, trace, i, next);
      trace := trace + [next];
      c := next;
    }
    return Ok(c);
  }

  /** One visit keeps the summary facts of the pass. */
  lemma GreedyVisitKeeps(arena: Arena, m: Metric, bag: seq<NodeId>, osm: seq<NodeId>,
                         c0: Correspondence, c: Correspondence, b: NodeId, c': Correspondence)
    requires GreedyKeeps(arena, m, bag, osm, c0, c)
    requires GreedyVisit(arena, m, b, c, c')
    ensures GreedyKeeps(arena, m, bag, osm, c0, c')
  {
    if b in c.bagLeft {
      assert b !in c0.pairs by {
        assert c0.pairs.Keys <= c.pairs.Keys;
      }
      if b in c.osmLeft {
        AddPairKeeps(bag, osm, c, b, b);
      } else {
        var n :| n in c.osmLeft && AtLeastAsNear(arena, m, b, n, c.osmLeft) &&
                 c' == (if m.greatCircle(arena[b].coor, arena[n].coor) < MaxNodeMoveTagged then AddPair(c, b, n) else c);
        if m.greatCircle(arena[b].coor, arena[n].coor) < MaxNodeMoveTagged {
          AddPairKeeps(bag, osm, c, b, n);
        }
      }
    }
  }

  /** Appending the state after visit i extends the trace by one visit. */
  lemma TraceExtend(arena: Arena, m: Metric, bag: seq<NodeId>, trace: seq<Correspondence>, i: nat, next: Correspondence)
    requires GreedyTrace(arena, m, bag, trace, i) && |trace| == i + 1 && i < |bag|
    requires GreedyVisit(arena, m, bag[i], trace[i], next)
    ensures GreedyTrace(arena, m, bag, trace + [next], i + 1)
  {
    var t := trace + [next];
    forall k | 0 <= k < i + 1 ensures GreedyVisit(arena, m, bag[k], t[k], t[k + 1]) {
      assert t[k] == trace[k];
      if k < i {
        assert t[k + 1] == trace[k + 1];
      }
    }
  }

  // ---- The pairing step of each revision ----

  predicate UseSlow(bagCount: nat, osmCount: nat) {
    bagCount < MaxSlowPairingNodeCount && osmCount < MaxSlowPairingNodeCount
  }

  predicate LegacyUseSlow(bagCount: nat, osmCount: nat) {
    bagCount < LegacyMaxSlowPairingNodeCount && osmCount < LegacyMaxSlowPairingNodeCount
  }

  /** The solver's answer: `sol` for each row, or None when the solver gave up (threw). */
  predicate ValidSolution(sol: Option<seq<nat>>, n: nat) {
    sol.Some? ==> |sol.value| == n && forall i :: 0 <= i < n ==> sol.value[i] < n
  }

  /**
    The current revision's pairing, as a relation: below 25 nodes with an answer from the
    solver, the reading of that answer under the current ceilings; otherwise the greedy
    pass from nothing paired (when the solver gave up, the map is emptied and the
    left-over sets are still those of the start).
   */
  ghost predicate CurrentPairingOutcome(arena: Arena, m: Metric, bag: seq<NodeId>, osm: seq<NodeId>,
                                        sol: Option<seq<nat>>, c: Correspondence) {
    if UseSlow(|bag|, |osm|) && sol.Some? then FromSolution(bag, osm, sol.value, CeilingTest(arena, m), c)
    else GreedyOutcome(arena, m, bag, osm, Initial(bag, osm), c)
  }

  /**
    The older revisions' pairing, as a relation: below 20 nodes with an answer from the
    solver, the reading of that answer under the single planar ceiling; otherwise nothing
    is paired.
   */
  ghost predicate LegacyPairingOutcome(arena: Arena, m: Metric, bag: seq<NodeId>, osm: seq<NodeId>,
                                       sol: Option<seq<nat>>, c: Correspondence) {
    if LegacyUseSlow(|bag|, |osm|) && sol.Some? then FromSolution(bag, osm, sol.value, LegacyTest(arena, m), c)
    else c == Initial(bag, osm)
  }

  /** Every pair of the current revision is within the ceiling of the path that made it. */
  lemma CurrentPairsAdmissible(arena: Arena, m: Metric, bag: seq<NodeId>, osm: seq<NodeId>,
                               sol: Option<seq<nat>>, c: Correspondence)
    requires CurrentPairingOutcome(arena, m, bag, osm, sol, c)
    ensures IsCorrespondence(bag, osm, c)
    ensures forall b :: b in c.pairs ==>
              (if UseSlow(|bag|, |osm|) && sol.Some? then WithinCeiling(arena, m, b, c.pairs[b])
               else GreedyAdmissible(arena, m, b, c.pairs[b]))
  {
    if UseSlow(|bag|, |osm|) && sol.Some? {
      SolutionPairsAdmissible(bag, osm, sol.value, CeilingTest(arena, m), c);
    }
  }

  /** Every pair of the older revisions is within the planar ceiling. */
  lemma LegacyPairsAdmissible(arena: Arena, m: Metric, bag: seq<NodeId>, osm: seq<NodeId>,
                              sol: Option<seq<nat>>, c: Correspondence)
    requires LegacyPairingOutcome(arena, m, bag, osm, sol, c)
    ensures IsCorrespondence(bag, osm, c)
    ensures forall b :: b in c.pairs ==> LegacyAdmissible(arena, m, b, c.pairs[b])
  {
    if LegacyUseSlow(|bag|, |osm|) && sol.Some? {
      SolutionPairsAdmissible(bag, osm, sol.value, LegacyTest(arena, m), c);
    }
  }

  /**
    The current revision's pairing: the exact path for small ways, the greedy path for
    large ones or when the solver gave up. `fellBack` reports that the solver gave up.
   */
  method CurrentPairing(arena: Arena, m: Metric, bag: seq<NodeId>, osm: seq<NodeId>, sol: Option<seq<nat>>)
    returns (r: Result<Correspondence>, fellBack: bool)
    requires ValidIds(arena, bag) && ValidIds(arena, osm)
    requires ValidSolution(sol, Max(|bag|, |osm|))
    ensures fellBack <==> UseSlow(|bag|, |osm|) && sol.None?
    ensures r.Ok? ==> CurrentPairingOutcome(arena, m, bag, osm, sol, r.value)
    ensures UseSlow(|bag|, |osm|) && sol.Some? ==> r.Ok?
    ensures r.Err? ==> GreedyCrash(arena, m, bag, Initial(bag, osm))
    ensures r.Err? ==> |Elems(osm)| < |Elems(bag)|
  {
    var useSlow := UseSlow(|bag|, |osm|);
    var c := Initial(bag, osm);
    fellBack := false;
    if useSlow {
      var n := Max(|bag|, |osm|);
      var cost := FillCostMatrix(n, |bag|, |osm|, (i: nat, j: nat) => CurrentCell(arena, m, bag, osm, i, j));
      if sol.None? {
        useSlow := false;
        fellBack := true;
      } else {
        c := PairFromAssignment(bag, osm, cost, sol.value, CeilingTest(arena, m));
      }
    }
    if !useSlow {
      r := GreedyPairing(arena, m, bag, osm, c);
    } else {
      r := Ok(c);
    }
  }

  /**
    The older revisions' pairing: the exact path only, below 20 nodes; with more nodes,
    or when the solver gave up, nothing is paired.
   */
  method LegacyPairing(arena: Arena, m: Metric, bag: seq<NodeId>, osm: seq<NodeId>, sol: Option<seq<nat>>)
    returns (c: Correspondence, gaveUp: bool)
    requires ValidIds(arena, bag) && ValidIds(arena, osm)
    requires ValidSolution(sol, Max(|bag|, |osm|))
    ensures gaveUp <==> LegacyUseSlow(|bag|, |osm|) && sol.None?
    ensures LegacyPairingOutcome(arena, m, bag, osm, sol, c)
  {
    c := Initial(bag, osm);
    gaveUp := false;
    if LegacyUseSlow(|bag|, |osm|) {
      var n := Max(|bag|, |osm|);
      var cost := FillCostMatrix(n, |bag|, |osm|, (i: nat, j: nat) => LegacyCell(arena, m, bag, osm, i, j));
      if sol.None? {
        gaveUp := true;
      } else {
        c := PairFromAssignment(bag, osm, cost, sol.value, LegacyTest(arena, m));
      }
    }
  }
}
