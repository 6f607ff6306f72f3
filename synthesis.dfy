/**
  Turning a pairing into edits: the new ordered node list of the OSM way, the nodes that
  have to be created for it, the moves of paired OSM nodes and the deletion of OSM nodes
  that are no longer used. The HashMap and HashSet loops of the source visit their
  elements in hash order; here they pick an arbitrary remaining element, and the
  contracts do not depend on the order.
 */
module Synthesis {
  import opened OsmData
  import opened Pairing

  /**
    The current revision's result nodes: one entry per BAG node, in order. A paired BAG
    node contributes its OSM node; unpaired BAG nodes at the same coordinate share one
    new node (nodesToAdd is keyed by coordinate), so a closed BAG way gives a closed
    result. New nodes get handles from |arena| upwards.
   */
  method BuildResultNodes(arena: Arena, bag: seq<NodeId>, pairs: map<NodeId, NodeId>)
    returns (result: seq<NodeId>, nodesToAdd: map<Coord, NodeId>)
    requires ValidIds(arena, bag)
    requires forall b :: b in pairs ==> pairs[b] < |arena|
    ensures |result| == |bag|
    ensures forall i :: 0 <= i < |bag| && bag[i] in pairs ==> result[i] == pairs[bag[i]]
    ensures forall i :: 0 <= i < |bag| && bag[i] !in pairs ==>
              arena[bag[i]].coor in nodesToAdd && result[i] == nodesToAdd[arena[bag[i]].coor]
    ensures forall c :: c in nodesToAdd ==> nodesToAdd[c] >= |arena| && nodesToAdd[c] in result
    ensures forall c, d :: c in nodesToAdd && d in nodesToAdd && c != d ==> nodesToAdd[c] != nodesToAdd[d]
    ensures forall i, j :: 0 <= i < |bag| && 0 <= j < |bag| && bag[i] !in pairs && bag[j] !in pairs ==>
              (result[i] == result[j] <==> arena[bag[i]].coor == arena[bag[j]].coor)
    ensures |bag| >= 1 && bag[0] == bag[|bag| - 1] ==> result[0] == result[|result| - 1]
  {
    result, nodesToAdd := ResultLoop(arena, bag, pairs);
    ResultNodesFacts(arena, bag, pairs, result, nodesToAdd);
  }

  /** The loop of BuildResultNodes, over the BAG nodes in order. */
  method ResultLoop(arena: Arena, bag: seq<NodeId>, pairs: map<NodeId, NodeId>)
    returns (result: seq<NodeId>, nodesToAdd: map<Coord, NodeId>)
    requires ValidIds(arena, bag)
    ensures |result| == |bag|
    ensures ResultPrefix(arena, bag, pairs, result, nodesToAdd)
  {
    result := [];
    nodesToAdd := map[];
    for i := 0 to |bag|
      invariant |result| == i
      invariant ResultPrefix(arena, bag, pairs, result, nodesToAdd)
    {
      var bagNode := bag[i];
      var bagLatLon := arena[bagNode].coor;
      if bagNode in pairs || bagLatLon in nodesToAdd {
        var resultNode := if bagNode in pairs then pairs[bagNode] else nodesToAdd[bagLatLon];
        ResultStep(arena, bag, pairs, result, nodesToAdd, resultNode);
        result := result + [resultNode];
      } else {
        var resultNode := |arena| + |nodesToAdd|;
        ResultFreshStep(arena, bag, pairs, result, nodesToAdd, bagLatLon, resultNode);
        nodesToAdd := nodesToAdd[bagLatLon := resultNode];
        result := result + [resultNode];
      }
    }
  }

  /** What the result-node loop has established for the first |result| BAG nodes. */
  ghost predicate ResultPrefix(arena: Arena, bag: seq<NodeId>, pairs: map<NodeId, NodeId>,
                               result: seq<NodeId>, nodesToAdd: map<Coord, NodeId>)
    requires ValidIds(arena, bag)
  {
    && |result| <= |bag|
    && (forall p :: 0 <= p < |result| && bag[p] in pairs ==> result[p] == pairs[bag[p]])
    && (forall p :: 0 <= p < |result| && bag[p] !in pairs ==>
          arena[bag[p]].coor in nodesToAdd && result[p] == nodesToAdd[arena[bag[p]].coor])
    && (forall c :: c in nodesToAdd ==> |arena| <= nodesToAdd[c] < |arena| + |nodesToAdd|)
    && (forall c :: c in nodesToAdd ==> nodesToAdd[c] in result)
    && (forall c, d :: c in nodesToAdd && d in nodesToAdd && c != d ==> nodesToAdd[c] != nodesToAdd[d])
  }

  /** A BAG node that is paired, or whose coordinate already has a new node. */
  lemma ResultStep(arena: Arena, bag: seq<NodeId>, pairs: map<NodeId, NodeId>,
                   result: seq<NodeId>, nodesToAdd: map<Coord, NodeId>, r: NodeId)
    requires ValidIds(arena, bag) && ResultPrefix(arena, bag, pairs, result, nodesToAdd)
    requires |result| < |bag|
    requires bag[|result|] in pairs || arena[bag[|result|]].coor in nodesToAdd
    requires r == if bag[|result|] in pairs then pairs[bag[|result|]] else nodesToAdd[arena[bag[|result|]].coor]
    ensures ResultPrefix(arena, bag, pairs, result + [r], nodesToAdd)
  {
    var next := result + [r];
    forall p | 0 <= p < |next| && bag[p] in pairs ensures next[p] == pairs[bag[p]] {
      if p < |result| {
        assert next[p] == result[p];
      }
    }
    forall p | 0 <= p < |next| && bag[p] !in pairs
      ensures arena[bag[p]].coor in nodesToAdd && next[p] == nodesToAdd[arena[bag[p]].coor]
    {
      if p < |result| {
        assert next[p] == result[p];
      }
    }
    forall c | c in nodesToAdd ensures nodesToAdd[c] in result + [r] {
      var k :| 0 <= k < |result| && result[k] == nodesToAdd[c];
      assert (result + [r])[k] == nodesToAdd[c];
    }
  }

  /** An unpaired BAG node at a coordinate seen for the first time gets the next new handle. */
  lemma ResultFreshStep(arena: Arena, bag: seq<NodeId>, pairs: map<NodeId, NodeId>,
                        result: seq<NodeId>, nodesToAdd: map<Coord, NodeId>, c0: Coord, v: NodeId)
    requires ValidIds(arena, bag) && ResultPrefix(arena, bag, pairs, result, nodesToAdd)
    requires |result| < |bag|
    requires bag[|result|] !in pairs && arena[bag[|result|]].coor == c0 && c0 !in nodesToAdd
    requires v == |arena| + |nodesToAdd|
    ensures ResultPrefix(arena, bag, pairs, result + [v], nodesToAdd[c0 := v])
  {
    FreshKeepsPositions(arena, bag, pairs, result, nodesToAdd, c0, v);
    FreshKeepsHandles(arena, result, nodesToAdd, c0, v, nodesToAdd[c0 := v]);
  }

  lemma FreshKeepsPositions(arena: Arena, bag: seq<NodeId>, pairs: map<NodeId, NodeId>,
                            result: seq<NodeId>, nodesToAdd: map<Coord, NodeId>, c0: Coord, v: NodeId)
    requires ValidIds(arena, bag) && |result| < |bag|
    requires forall p :: 0 <= p < |result| && bag[p] in pairs ==> result[p] == pairs[bag[p]]
    requires forall p :: 0 <= p < |result| && bag[p] !in pairs ==>
               arena[bag[p]].coor in nodesToAdd && result[p] == nodesToAdd[arena[bag[p]].coor]
    requires bag[|result|] !in pairs && arena[bag[|result|]].coor == c0 && c0 !in nodesToAdd
    ensures forall p :: 0 <= p < |result| + 1 && bag[p] in pairs ==> (result + [v])[p] == pairs[bag[p]]
    ensures forall p :: 0 <= p < |result| + 1 && bag[p] !in pairs ==>
              arena[bag[p]].coor in nodesToAdd[c0 := v] && (result + [v])[p] == nodesToAdd[c0 := v][arena[bag[p]].coor]
  {
  }

  lemma FreshKeepsHandles(arena: Arena, result: seq<NodeId>, nodesToAdd: map<Coord, NodeId>,
                          c0: Coord, v: NodeId, m: map<Coord, NodeId>)
    requires forall c :: c in nodesToAdd ==> |arena| <= nodesToAdd[c] < |arena| + |nodesToAdd|
    requires forall c :: c in nodesToAdd ==> nodesToAdd[c] in result
    requires forall c, d :: c in nodesToAdd && d in nodesToAdd && c != d ==> nodesToAdd[c] != nodesToAdd[d]
    requires c0 !in nodesToAdd && v == |arena| + |nodesToAdd| && m == nodesToAdd[c0 := v]
    ensures forall c :: c in m ==> |arena| <= m[c] < |arena| + |m|
    ensures forall c :: c in m ==> m[c] in result + [v]
    ensures forall c, d :: c in m && d in m && c != d ==> m[c] != m[d]
  {
    assert |m| == |nodesToAdd| + 1;
    forall c | c in m ensures m[c] in result + [v] {
      if c != c0 {
        var k :| 0 <= k < |result| && result[k] == nodesToAdd[c];
        assert (result + [v])[k] == m[c];
      } else {
        assert (result + [v])[|result|] == v;
      }
    }
  }

  /** The result-node loop's facts about the whole BAG way. */
  lemma ResultNodesFacts(arena: Arena, bag: seq<NodeId>, pairs: map<NodeId, NodeId>,
                         result: seq<NodeId>, nodesToAdd: map<Coord, NodeId>)
    requires ValidIds(arena, bag) && ResultPrefix(arena, bag, pairs, result, nodesToAdd)
    requires |result| == |bag|
    requires forall b :: b in pairs ==> pairs[b] < |arena|
    ensures forall i :: 0 <= i < |bag| && bag[i] in pairs ==> result[i] == pairs[bag[i]]
    ensures forall i :: 0 <= i < |bag| && bag[i] !in pairs ==>
              arena[bag[i]].coor in nodesToAdd && result[i] == nodesToAdd[arena[bag[i]].coor]
    ensures forall c :: c in nodesToAdd ==> nodesToAdd[c] >= |arena| && nodesToAdd[c] in result
    ensures forall c, d :: c in nodesToAdd && d in nodesToAdd && c != d ==> nodesToAdd[c] != nodesToAdd[d]
    ensures forall i, j :: 0 <= i < |bag| && 0 <= j < |bag| && bag[i] !in pairs && bag[j] !in pairs ==>
              (result[i] == result[j] <==> arena[bag[i]].coor == arena[bag[j]].coor)
    ensures |bag| >= 1 && bag[0] == bag[|bag| - 1] ==> result[0] == result[|result| - 1]
  {
  }

  /** The AddCommand of every node in nodesToAdd (visited in hash order). */
  method CreateNodeCommands(nodesToAdd: map<Coord, NodeId>) returns (cmds: seq<Command>)
    ensures |cmds| == |nodesToAdd.Keys|
    ensures forall c :: c in nodesToAdd ==> AddNode(nodesToAdd[c], c) in cmds
    ensures forall x :: x in cmds ==> x.AddNode? && x.coor in nodesToAdd && nodesToAdd[x.coor] == x.id
    ensures forall i, j :: 0 <= i < j < |cmds| ==> cmds[i].AddNode? && cmds[j].AddNode? && cmds[i].coor != cmds[j].coor
  {
    cmds := [];
    var remaining := nodesToAdd.Keys;
    ghost var done: set<Coord> := {};
    while remaining != {}
      invariant done + remaining == nodesToAdd.Keys && done * remaining == {}
      invariant CreatePlan(nodesToAdd, done, cmds)
      decreases |remaining|
    {
      var c :| c in remaining;
      CreateStep(nodesToAdd, done, cmds, c);
      cmds := cmds + [AddNode(nodesToAdd[c], c)];
      remaining := remaining - {c};
      done := done + {c};
    }
    assert done == nodesToAdd.Keys;
    CreateDone(nodesToAdd, cmds);
  }

  /** The creations issued once the coordinates in `done` have been visited, one each. */
  ghost predicate CreatePlan(nodesToAdd: map<Coord, NodeId>, done: set<Coord>, cmds: seq<Command>) {
    && done <= nodesToAdd.Keys
    && |cmds| == |done|
    && (forall c :: c in done ==> AddNode(nodesToAdd[c], c) in cmds)
    && (forall i :: 0 <= i < |cmds| ==> cmds[i].AddNode? && cmds[i].coor in done && nodesToAdd[cmds[i].coor] == cmds[i].id)
    && (forall i, j :: 0 <= i < j < |cmds| ==> cmds[i].AddNode? && cmds[j].AddNode? && cmds[i].coor != cmds[j].coor)
  }

  lemma CreateStep(nodesToAdd: map<Coord, NodeId>, done: set<Coord>, cmds: seq<Command>, c: Coord)
    requires CreatePlan(nodesToAdd, done, cmds)
    requires c in nodesToAdd && c !in done
    ensures CreatePlan(nodesToAdd, done + {c}, cmds + [AddNode(nodesToAdd[c], c)])
  {
    var cmds' := cmds + [AddNode(nodesToAdd[c], c)];
    assert |done + {c}| == |done| + 1;
    forall d | d in done + {c} ensures AddNode(nodesToAdd[d], d) in cmds' {
      if d != c {
        assert AddNode(nodesToAdd[d], d) in cmds;
      } else {
        assert cmds'[|cmds|] == AddNode(nodesToAdd[c], c);
      }
    }
  }

  lemma CreateDone(nodesToAdd: map<Coord, NodeId>, cmds: seq<Command>)
    requires CreatePlan(nodesToAdd, nodesToAdd.Keys, cmds)
    ensures forall x :: x in cmds ==> x.AddNode? && x.coor in nodesToAdd && nodesToAdd[x.coor] == x.id
  {
    forall x | x in cmds ensures x.AddNode? && x.coor in nodesToAdd && nodesToAdd[x.coor] == x.id {
      var i :| 0 <= i < |cmds| && cmds[i] == x;
    }
  }

  /**
    The older revisions' result nodes: every unpaired BAG position gets a node of its
    own (handle |arena| + k for the k-th), with no sharing by coordinate. When the
    closing BAG node is unpaired, the first and last result entries are two different
    new nodes on the same spot, so the way is no longer closed.
   */
  method LegacyResultNodes(arena: Arena, bag: seq<NodeId>, pairs: map<NodeId, NodeId>)
    returns (result: seq<NodeId>, added: seq<Coord>)
    requires ValidIds(arena, bag)
    requires forall b :: b in pairs ==> pairs[b] < |arena|
    ensures |result| == |bag|
    ensures forall i :: 0 <= i < |bag| && bag[i] in pairs ==> result[i] == pairs[bag[i]]
    ensures forall i :: 0 <= i < |bag| && bag[i] !in pairs ==>
              |arena| <= result[i] < |arena| + |added| && added[result[i] - |arena|] == arena[bag[i]].coor
    ensures forall i, j :: 0 <= i < j < |bag| && bag[i] !in pairs && bag[j] !in pairs ==> result[i] != result[j]
    ensures forall id :: |arena| <= id < |arena| + |added| ==> id in result
    ensures |bag| >= 2 && bag[0] == bag[|bag| - 1] && bag[0] !in pairs ==> result[0] != result[|result| - 1]
  {
    result := [];
    added := [];
    ghost var origin: seq<nat> := [];
    for i := 0 to |bag|
      invariant |result| == i
      invariant LegacyPrefix(arena, bag, pairs, result, added, origin)
    {
      var bagNode := bag[i];
      if bagNode in pairs {
        LegacyPairedStep(arena, bag, pairs, result, added, origin);
        result := result + [pairs[bagNode]];
      } else {
        LegacyFreshStep(arena, bag, pairs, result, added, origin);
        result := result + [|arena| + |added|];
        added := added + [arena[bagNode].coor];
        origin := origin + [i];
      }
    }
    forall id | |arena| <= id < |arena| + |added| ensures id in result {
      assert result[origin[id - |arena|]] == id;
    }
  }

  /**
    What the older result-node loop has established for the first |result| BAG nodes;
    origin[k] is the position whose node is the k-th new one.
   */
  ghost predicate LegacyPrefix(arena: Arena, bag: seq<NodeId>, pairs: map<NodeId, NodeId>,
                               result: seq<NodeId>, added: seq<Coord>, origin: seq<nat>)
    requires ValidIds(arena, bag)
  {
    && |result| <= |bag| && |origin| == |added|
    && (forall p :: 0 <= p < |result| && bag[p] in pairs ==> result[p] == pairs[bag[p]])
    && (forall p :: 0 <= p < |result| && bag[p] !in pairs ==>
          |arena| <= result[p] < |arena| + |added| && added[result[p] - |arena|] == arena[bag[p]].coor)
    && (forall p, q :: 0 <= p < q < |result| && bag[p] !in pairs && bag[q] !in pairs ==> result[p] != result[q])
    && (forall k :: 0 <= k < |origin| ==> origin[k] < |result| && result[origin[k]] == |arena| + k)
  }

  lemma LegacyPairedStep(arena: Arena, bag: seq<NodeId>, pairs: map<NodeId, NodeId>,
                         result: seq<NodeId>, added: seq<Coord>, origin: seq<nat>)
    requires ValidIds(arena, bag) && LegacyPrefix(arena, bag, pairs, result, added, origin)
    requires |result| < |bag| && bag[|result|] in pairs
    ensures LegacyPrefix(arena, bag, pairs, result + [pairs[bag[|result|]]], added, origin)
  {
    var r := result + [pairs[bag[|result|]]];
    forall k | 0 <= k < |origin| ensures origin[k] < |r| && r[origin[k]] == |arena| + k {
      assert r[origin[k]] == result[origin[k]];
    }
  }

  lemma LegacyFreshStep(arena: Arena, bag: seq<NodeId>, pairs: map<NodeId, NodeId>,
                        result: seq<NodeId>, added: seq<Coord>, origin: seq<nat>)
    requires ValidIds(arena, bag) && LegacyPrefix(arena, bag, pairs, result, added, origin)
    requires |result| < |bag| && bag[|result|] !in pairs
    ensures LegacyPrefix(arena, bag, pairs, result + [|arena| + |added|],
                         added + [arena[bag[|result|]].coor], origin + [|result|])
  {
    var r := result + [|arena| + |added|];
    var a := added + [arena[bag[|result|]].coor];
    var o := origin + [|result|];
    forall p | 0 <= p < |r| && bag[p] !in pairs
      ensures |arena| <= r[p] < |arena| + |a| && a[r[p] - |arena|] == arena[bag[p]].coor
    {
      if p < |result| {
        assert a[result[p] - |arena|] == added[result[p] - |arena|];
      }
    }
    forall k | 0 <= k < |o| ensures o[k] < |r| && r[o[k]] == |arena| + k {
      if k < |origin| {
        assert r[origin[k]] == result[origin[k]];
      }
    }
  }

  // ---- Moves ----

  /**
    The move loop over the pairs: a pair whose nodes already agree (by the revision's own
    test) counts as up to date; any other pair moves its OSM node onto the BAG
    coordinate. Every pair is counted exactly once.
   */
  method PlanMoves(arena: Arena, pairs: map<NodeId, NodeId>, upToDate: (NodeId, NodeId) -> bool)
    returns (moves: seq<Command>, upToDateCount: nat, movedCount: nat)
    requires forall b :: b in pairs ==> b < |arena|
    ensures upToDateCount + movedCount == |pairs.Keys|
    ensures upToDateCount == |Settled(pairs, upToDate, pairs.Keys)|
    ensures movedCount == |Stale(pairs, upToDate, pairs.Keys)|
    ensures movedCount == |moves|
    ensures forall b :: b in pairs && !upToDate(b, pairs[b]) ==> Move(pairs[b], arena[b].coor) in moves
    ensures forall c :: c in moves ==>
              exists b :: b in pairs && !upToDate(b, pairs[b]) && c == Move(pairs[b], arena[b].coor)
    ensures Injective(pairs) ==> forall i, j :: 0 <= i < j < |moves| ==> moves[i] != moves[j]
  {
    moves := [];
    upToDateCount, movedCount := 0, 0;
    ghost var movedKeys: seq<NodeId> := [];
    ghost var done: set<NodeId> := {};
    var remaining := pairs.Keys;
    while remaining != {}
      invariant done + remaining == pairs.Keys && done * remaining == {}
      invariant MovePlan(arena, pairs, upToDate, done, moves, movedKeys, upToDateCount, movedCount)
      decreases |remaining|
    {
      var bagNode :| bagNode in remaining;
      var osmNode := pairs[bagNode];
      remaining := remaining - {bagNode};
      if upToDate(bagNode, osmNode) {
        UpToDateStep(arena, pairs, upToDate, done, moves, movedKeys, upToDateCount, movedCount, bagNode);
        upToDateCount := upToDateCount + 1;
      } else {
        MoveStep(arena, pairs, upToDate, done, moves, movedKeys, upToDateCount, movedCount, bagNode);
        movedCount := movedCount + 1;
        moves := moves + [Move(osmNode, arena[bagNode].coor)];
        movedKeys := movedKeys + [bagNode];
      }
      done := done + {bagNode};
    }
    assert done == pairs.Keys;
    MovePlanComplete(arena, pairs, upToDate, moves, movedKeys, upToDateCount, movedCount);
  }

  /** The BAG nodes among `seen` whose pair is already up to date. */
  function Settled(pairs: map<NodeId, NodeId>, upToDate: (NodeId, NodeId) -> bool, seen: set<NodeId>): set<NodeId> {
    set b | b in seen && b in pairs && upToDate(b, pairs[b])
  }

  /** The BAG nodes among `seen` whose paired OSM node has to move. */
  function Stale(pairs: map<NodeId, NodeId>, upToDate: (NodeId, NodeId) -> bool, seen: set<NodeId>): set<NodeId> {
    set b | b in seen && b in pairs && !upToDate(b, pairs[b])
  }

  /** What the move loop has established once it has visited the BAG nodes in `seen`. */
  ghost predicate MovePlan(arena: Arena, pairs: map<NodeId, NodeId>, upToDate: (NodeId, NodeId) -> bool,
                           seen: set<NodeId>, moves: seq<Command>, movedKeys: seq<NodeId>,
                           upToDateCount: nat, movedCount: nat)
    requires forall b :: b in pairs ==> b < |arena|
  {
    && seen <= pairs.Keys
    && upToDateCount + movedCount == |seen|
    && upToDateCount == |Settled(pairs, upToDate, seen)|
    && movedCount == |Stale(pairs, upToDate, seen)|
    && movedCount == |moves| == |movedKeys|
    && (forall i :: 0 <= i < |movedKeys| ==> movedKeys[i] in seen)
    && (forall i :: 0 <= i < |movedKeys| ==> !upToDate(movedKeys[i], pairs[movedKeys[i]]))
    && (forall i :: 0 <= i < |movedKeys| ==> moves[i] == Move(pairs[movedKeys[i]], arena[movedKeys[i]].coor))
    && (forall b :: b in seen && !upToDate(b, pairs[b]) ==> b in movedKeys)
    && (forall i, j :: 0 <= i < j < |movedKeys| ==> movedKeys[i] != movedKeys[j])
  }

  /** A visited pair that is already up to date only raises its count. */
  lemma UpToDateStep(arena: Arena, pairs: map<NodeId, NodeId>, upToDate: (NodeId, NodeId) -> bool,
                     seen: set<NodeId>, moves: seq<Command>, movedKeys: seq<NodeId>,
                     upToDateCount: nat, movedCount: nat, b: NodeId)
    requires forall b :: b in pairs ==> b < |arena|
    requires MovePlan(arena, pairs, upToDate, seen, moves, movedKeys, upToDateCount, movedCount)
    requires b in pairs && b !in seen && upToDate(b, pairs[b])
    ensures MovePlan(arena, pairs, upToDate, seen + {b}, moves, movedKeys, upToDateCount + 1, movedCount)
  {
    assert |seen + {b}| == |seen| + 1;
    assert Settled(pairs, upToDate, seen + {b}) == Settled(pairs, upToDate, seen) + {b};
    assert Stale(pairs, upToDate, seen + {b}) == Stale(pairs, upToDate, seen);
  }

  /** A visited pair that is not up to date gets its move. */
  lemma MoveStep(arena: Arena, pairs: map<NodeId, NodeId>, upToDate: (NodeId, NodeId) -> bool,
                 seen: set<NodeId>, moves: seq<Command>, movedKeys: seq<NodeId>,
                 upToDateCount: nat, movedCount: nat, b: NodeId)
    requires forall b :: b in pairs ==> b < |arena|
    requires MovePlan(arena, pairs, upToDate, seen, moves, movedKeys, upToDateCount, movedCount)
    requires b in pairs && b !in seen && !upToDate(b, pairs[b])
    ensures MovePlan(arena, pairs, upToDate, seen + {b}, moves + [Move(pairs[b], arena[b].coor)],
                     movedKeys + [b], upToDateCount, movedCount + 1)
  {
    assert |seen + {b}| == |seen| + 1;
    assert Settled(pairs, upToDate, seen + {b}) == Settled(pairs, upToDate, seen);
    assert Stale(pairs, upToDate, seen + {b}) == Stale(pairs, upToDate, seen) + {b};
  }

  /** Once every pair has been visited, the move plan says what PlanMoves promises. */
  lemma MovePlanComplete(arena: Arena, pairs: map<NodeId, NodeId>, upToDate: (NodeId, NodeId) -> bool,
                         moves: seq<Command>, movedKeys: seq<NodeId>, upToDateCount: nat, movedCount: nat)
    requires forall b :: b in pairs ==> b < |arena|
    requires MovePlan(arena, pairs, upToDate, pairs.Keys, moves, movedKeys, upToDateCount, movedCount)
    ensures upToDateCount + movedCount == |pairs.Keys|
    ensures movedCount == |moves|
    ensures forall b :: b in pairs && !upToDate(b, pairs[b]) ==> Move(pairs[b], arena[b].coor) in moves
    ensures forall c :: c in moves ==>
              exists b :: b in pairs && !upToDate(b, pairs[b]) && c == Move(pairs[b], arena[b].coor)
    ensures Injective(pairs) ==> forall i, j :: 0 <= i < j < |moves| ==> moves[i] != moves[j]
  {
    MovesFromKeys(arena, pairs, upToDate, moves, movedKeys);
  }

  /** The facts the move loop leaves, read back in terms of the pairs. */
  lemma MovesFromKeys(arena: Arena, pairs: map<NodeId, NodeId>, upToDate: (NodeId, NodeId) -> bool,
                      moves: seq<Command>, movedKeys: seq<NodeId>)
    requires forall b :: b in pairs ==> b < |arena|
    requires |moves| == |movedKeys|
    requires forall i :: 0 <= i < |movedKeys| ==> movedKeys[i] in pairs
    requires forall i :: 0 <= i < |movedKeys| ==> !upToDate(movedKeys[i], pairs[movedKeys[i]])
    requires forall i :: 0 <= i < |movedKeys| ==> moves[i] == Move(pairs[movedKeys[i]], arena[movedKeys[i]].coor)
    requires forall b :: b in pairs && !upToDate(b, pairs[b]) ==> b in movedKeys
    requires forall i, j :: 0 <= i < j < |movedKeys| ==> movedKeys[i] != movedKeys[j]
    ensures forall b :: b in pairs && !upToDate(b, pairs[b]) ==> Move(pairs[b], arena[b].coor) in moves
    ensures forall c :: c in moves ==>
              exists b :: b in pairs && !upToDate(b, pairs[b]) && c == Move(pairs[b], arena[b].coor)
    ensures Injective(pairs) ==> forall i, j :: 0 <= i < j < |moves| ==> moves[i] != moves[j]
  {
    forall b | b in pairs && !upToDate(b, pairs[b]) ensures Move(pairs[b], arena[b].coor) in moves {
      var i :| 0 <= i < |movedKeys| && movedKeys[i] == b;
      assert moves[i] == Move(pairs[b], arena[b].coor);
    }
    forall c | c in moves
      ensures exists b :: b in pairs && !upToDate(b, pairs[b]) && c == Move(pairs[b], arena[b].coor)
    {
      var i :| 0 <= i < |moves| && moves[i] == c;
      assert movedKeys[i] in pairs;
    }
    if Injective(pairs) {
      forall i, j | 0 <= i < j < |moves| ensures moves[i] != moves[j] {
        assert pairs[movedKeys[i]] != pairs[movedKeys[j]];
      }
    }
  }

  /**
    With an injective pairing, an OSM node is moved exactly when its pair is not up to
    date: the move of another pair cannot coincide with it.
   */
  lemma MovedExactly(arena: Arena, pairs: map<NodeId, NodeId>, upToDate: (NodeId, NodeId) -> bool,
                     moves: seq<Command>)
    requires forall b :: b in pairs ==> b < |arena|
    requires Injective(pairs)
    requires forall b :: b in pairs && !upToDate(b, pairs[b]) ==> Move(pairs[b], arena[b].coor) in moves
    requires forall c :: c in moves ==>
               exists b :: b in pairs && !upToDate(b, pairs[b]) && c == Move(pairs[b], arena[b].coor)
    ensures forall b :: b in pairs ==> (Move(pairs[b], arena[b].coor) in moves <==> !upToDate(b, pairs[b]))
  {
    forall b | b in pairs && Move(pairs[b], arena[b].coor) in moves ensures !upToDate(b, pairs[b]) {
      var b' :| b' in pairs && !upToDate(b', pairs[b']) && Move(pairs[b], arena[b].coor) == Move(pairs[b'], arena[b'].coor);
      assert pairs[b'] == pairs[b];
    }
  }

  // ---- Deletions ----

  /** Leftover OSM nodes kept because another way uses them. */
  function KeptInOtherWays(arena: Arena, left: set<NodeId>): set<NodeId>
    requires ValidIdSet(arena, left)
  {
    set o | o in left && InOtherWay(arena[o])
  }

  /** Leftover OSM nodes kept because they carry tags (and no other way uses them). */
  function KeptTagged(arena: Arena, left: set<NodeId>): set<NodeId>
    requires ValidIdSet(arena, left)
  {
    set o | o in left && !InOtherWay(arena[o]) && IsTagged(arena[o])
  }

  lemma KeptAdd(arena: Arena, left: set<NodeId>, o: NodeId)
    requires ValidIdSet(arena, left) && o < |arena| && o !in left
    ensures KeptInOtherWays(arena, left + {o})
         == KeptInOtherWays(arena, left) + (if InOtherWay(arena[o]) then {o} else {})
    ensures KeptTagged(arena, left + {o})
         == KeptTagged(arena, left) + (if !InOtherWay(arena[o]) && IsTagged(arena[o]) then {o} else {})
    ensures o !in KeptInOtherWays(arena, left) && o !in KeptTagged(arena, left)
  {
  }

  /**
    What the removal loop has established once it has visited the nodes in `seen`: the
    counts partition `seen`, and exactly the deletable ones are deleted, each once.
   */
  ghost predicate DeletionPlan(arena: Arena, seen: set<NodeId>, deletes: seq<Command>,
                               inOtherWays: nat, tagged: nat, removed: nat)
    requires ValidIdSet(arena, seen)
  {
    && inOtherWays + tagged + removed == |seen|
    && inOtherWays == |KeptInOtherWays(arena, seen)|
    && tagged == |KeptTagged(arena, seen)|
    && removed == |deletes|
    && (forall o :: o in seen ==> (Delete(o) in deletes <==> Deletable(arena[o])))
    && (forall c :: c in deletes ==> c.Delete? && c.id in seen && Deletable(arena[c.id]))
    && (forall i, j :: 0 <= i < j < |deletes| ==> deletes[i] != deletes[j])
  }

  lemma KeepStep(arena: Arena, seen: set<NodeId>, deletes: seq<Command>,
                 inOtherWays: nat, tagged: nat, removed: nat, o: NodeId)
    requires ValidIdSet(arena, seen) && o < |arena| && o !in seen && !Deletable(arena[o])
    requires DeletionPlan(arena, seen, deletes, inOtherWays, tagged, removed)
    ensures InOtherWay(arena[o]) ==>
              DeletionPlan(arena, seen + {o}, deletes, inOtherWays + 1, tagged, removed)
    ensures !InOtherWay(arena[o]) ==>
              DeletionPlan(arena, seen + {o}, deletes, inOtherWays, tagged + 1, removed)
  {
    KeptAdd(arena, seen, o);
    assert |seen + {o}| == |seen| + 1;
  }

  lemma DeleteStep(arena: Arena, seen: set<NodeId>, deletes: seq<Command>,
                   inOtherWays: nat, tagged: nat, removed: nat, o: NodeId)
    requires ValidIdSet(arena, seen) && o < |arena| && o !in seen && Deletable(arena[o])
    requires DeletionPlan(arena, seen, deletes, inOtherWays, tagged, removed)
    ensures DeletionPlan(arena, seen + {o}, deletes + [Delete(o)], inOtherWays, tagged, removed + 1)
  {
    KeptAdd(arena, seen, o);
    assert |seen + {o}| == |seen| + 1;
    var deletes' := deletes + [Delete(o)];
    forall c | c in deletes' ensures c.Delete? && c.id in seen + {o} && Deletable(arena[c.id]) {
      if c != Delete(o) {
        assert c in deletes;
      }
    }
  }

  /**
    The removal loop over the leftover OSM nodes: a node another way uses is kept, a
    tagged node is kept, any other one is deleted. The three counts partition the
    leftovers.
   */
  method PlanDeletions(arena: Arena, left: set<NodeId>)
    returns (deletes: seq<Command>, inOtherWays: nat, tagged: nat, removed: nat)
    requires ValidIdSet(arena, left)
    ensures inOtherWays + tagged + removed == |left|
    ensures inOtherWays == |KeptInOtherWays(arena, left)|
    ensures tagged == |KeptTagged(arena, left)|
    ensures removed == |deletes|
    ensures forall o :: o in left ==> (Delete(o) in deletes <==> Deletable(arena[o]))
    ensures forall c :: c in deletes ==> c.Delete? && c.id in left && Deletable(arena[c.id])
    ensures forall i, j :: 0 <= i < j < |deletes| ==> deletes[i] != deletes[j]
  {
    deletes := [];
    inOtherWays, tagged, removed := 0, 0, 0;
    var remaining := left;
    ghost var done: set<NodeId> := {};
    while remaining != {}
      invariant done + remaining == left && done * remaining == {}
      invariant DeletionPlan(arena, done, deletes, inOtherWays, tagged, removed)
      decreases |remaining|
    {
      var osmNodeLeft :| osmNodeLeft in remaining;
      ghost var seen := done;
      remaining := remaining - {osmNodeLeft};
      done := done + {osmNodeLeft};
      if InOtherWay(arena[osmNodeLeft]) {
        KeepStep(arena, seen, deletes, inOtherWays, tagged, removed, osmNodeLeft);
        inOtherWays := inOtherWays + 1;
        continue;
      }
      if IsTagged(arena[osmNodeLeft]) {
        KeepStep(arena, seen, deletes, inOtherWays, tagged, removed, osmNodeLeft);
        tagged := tagged + 1;
        continue;
      }
      DeleteStep(arena, seen, deletes, inOtherWays, tagged, removed, osmNodeLeft);
      removed := removed + 1;
      deletes := deletes + [Delete(osmNodeLeft)];
    }
    assert done == left;
  }
}
