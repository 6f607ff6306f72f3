/**
  The older revision of the BAG update tool (src/me/.../BuildingUpdate.java). It has the
  same find-then-update-or-create flow as the current one, with these differences: every
  message is shown at once as its own notification; the robust pairing has no fallback;
  the node list is always replaced; a node counts as up to date under equalsEpsilon; only
  start_date is synchronised; and a created way repeats no node.
 */
module LegacyUpdate {
  import opened OsmData
  import opened Pairing
  import opened Synthesis
  import opened Tags
  import opened Resolver
  import opened Summary
  import opened Update

  /** Every notification of this revision starts with the plugin name. */
  const Banner := "<strong>Bag Quick</strong><br />"
  const ImportHeader := "New BAG building imported:<br />"

  function MultipleMatchMessage(names: seq<string>): string {
    "Found multiple BAG ways: " + Join(names, ", ")
  }

  /** The closing notification of an update. */
  function UpdatedMessage(bagRef: string, upToDate: nat, moved: nat, created: nat, removed: nat): string {
    "Updated BAG building " + bagRef + ":<br />"
    + NatToString(upToDate) + " already up-to-date<br />"
    + NatToString(moved) + " nodes moved<br />"
    + NatToString(created) + " nodes created<br />"
    + NatToString(removed) + " nodes removed"
  }

  /** A paired node is up to date when its coordinate equals the BAG one within JOSM's epsilon. */
  predicate IsUpToDateLegacy(arena: Arena, m: Metric, b: NodeId, o: NodeId) {
    b < |arena| && o < |arena| && m.equalsEpsilon(arena[b].coor, arena[o].coor)
  }

  function EpsilonTest(arena: Arena, m: Metric): (NodeId, NodeId) -> bool {
    (b: NodeId, o: NodeId) => IsUpToDateLegacy(arena, m, b, o)
  }

  datatype LegacyEdits = LegacyEdits(
    pairing: Correspondence,
    resultNodes: seq<NodeId>,
    createCommands: seq<Command>,
    commands: seq<Command>,
    upToDate: nat, moved: nat,
    inOtherWays: nat, tagged: nat, removed: nat)

  // ---- What an update of this revision promises ----

  /**
    The node list: one entry per BAG node, the paired OSM node or else a node of its own,
    created at the BAG coordinate; no two unpaired positions share a node.
   */
  ghost predicate LegacyNodeListSpec(arena: Arena, bag: seq<NodeId>, pairs: map<NodeId, NodeId>,
                                     resultNodes: seq<NodeId>, createCommands: seq<Command>)
    requires ValidIds(arena, bag)
  {
    && |resultNodes| == |bag|
    && (forall i :: 0 <= i < |bag| && bag[i] in pairs ==> resultNodes[i] == pairs[bag[i]])
    && (forall i :: 0 <= i < |bag| && bag[i] !in pairs ==>
          resultNodes[i] >= |arena| && AddNode(resultNodes[i], arena[bag[i]].coor) in createCommands)
    && (forall i, j :: 0 <= i < j < |bag| && bag[i] !in pairs && bag[j] !in pairs ==> resultNodes[i] != resultNodes[j])
    && (forall x :: x in createCommands ==> x.AddNode? && x.id >= |arena| && x.id in resultNodes)
  }

  /** Tags: start_date alone is synchronised. */
  ghost predicate StartDateSpec(bagTags: TagMap, osmTags: TagMap, commands: seq<Command>) {
    && (forall k, v :: SetTag(k, v) in commands <==> StartDateUpdate(bagTags, osmTags) == Some(SetTag(k, v)))
    && (forall x :: x in commands ==> x.ChangeNodes? || x.Move? || x.Delete? || x.SetTag?)
  }

  ghost predicate LegacySpec(arena: Arena, m: Metric, bag: Way, osm: Way, sol: Option<seq<nat>>, e: LegacyEdits)
    requires ValidIds(arena, bag.nodes)
  {
    && LegacyPairingOutcome(arena, m, bag.nodes, osm.nodes, sol, e.pairing)
    && IsCorrespondence(bag.nodes, osm.nodes, e.pairing)
    && (forall b :: b in e.pairing.pairs ==> LegacyAdmissible(arena, m, b, e.pairing.pairs[b]))
    && (!LegacyUseSlow(|bag.nodes|, |osm.nodes|) || sol.None? ==> e.pairing.pairs == map[])
    && LegacyNodeListSpec(arena, bag.nodes, e.pairing.pairs, e.resultNodes, e.createCommands)
    && |e.commands| > 0 && e.commands[0] == ChangeNodes(e.resultNodes)
    && (forall x :: x in e.commands && x.ChangeNodes? ==> x.nodes == e.resultNodes)
    && MoveSpec(arena, e.pairing.pairs, EpsilonTest(arena, m), e.commands, e.upToDate, e.moved)
    && DeleteSpec(arena, e.pairing.osmLeft, e.commands, e.inOtherWays, e.tagged, e.removed)
    && StartDateSpec(bag.tags, osm.tags, e.commands)
    && KeepsUsedNodes(e.resultNodes, e.commands)
  }

  // ---- Computing the edits ----

  /** The AddNode commands of the nodes to add, in the order they were added. */
  method AddCommands(base: nat, added: seq<Coord>) returns (cmds: seq<Command>)
    ensures |cmds| == |added|
    ensures forall i :: 0 <= i < |added| ==> cmds[i] == AddNode(base + i, added[i])
  {
    cmds := [];
    for i := 0 to |added|
      invariant |cmds| == i
      invariant forall j :: 0 <= j < i ==> cmds[j] == AddNode(base + j, added[j])
    {
      cmds := cmds + [AddNode(base + i, added[i])];
    }
  }

  /**
    updateExistingBuilding of this revision without its side effects. gaveUp is the
    solver having thrown, after which nothing is paired.
   */
  method PlanLegacyUpdate(arena: Arena, m: Metric, bag: Way, osm: Way, sol: Option<seq<nat>>)
    returns (e: LegacyEdits, gaveUp: bool)
    requires ValidIds(arena, bag.nodes) && ValidIds(arena, osm.nodes)
    requires ValidSolution(sol, Max(|bag.nodes|, |osm.nodes|))
    ensures gaveUp <==> LegacyUseSlow(|bag.nodes|, |osm.nodes|) && sol.None?
    ensures LegacySpec(arena, m, bag, osm, sol, e)
  {
    var c;
    c, gaveUp := LegacyPairing(arena, m, bag.nodes, osm.nodes, sol);
    LegacyPairsAdmissible(arena, m, bag.nodes, osm.nodes, sol, c);
    PairsInArena(arena, bag.nodes, osm.nodes, c);
    var resultNodes, added := LegacyResultNodes(arena, bag.nodes, c.pairs);
    var createCommands := AddCommands(|arena|, added);
    LegacyNodesHold(arena, bag.nodes, c.pairs, resultNodes, added, createCommands);
    var commands, upToDate, moved, inOtherWays, tagged, removed :=
      PlanLegacyCommands(arena, m, bag.tags, osm.tags, c.pairs, c.osmLeft, resultNodes);
    DeletedNotUsedLegacy(arena, bag.nodes, osm.nodes, c, resultNodes, createCommands, commands);
    e := LegacyEdits(c, resultNodes, createCommands, commands, upToDate, moved, inOtherWays, tagged, removed);
  }

  lemma LegacyNodesHold(arena: Arena, bag: seq<NodeId>, pairs: map<NodeId, NodeId>, resultNodes: seq<NodeId>,
                        added: seq<Coord>, createCommands: seq<Command>)
    requires ValidIds(arena, bag)
    requires |resultNodes| == |bag|
    requires forall i :: 0 <= i < |bag| && bag[i] in pairs ==> resultNodes[i] == pairs[bag[i]]
    requires forall i :: 0 <= i < |bag| && bag[i] !in pairs ==>
               |arena| <= resultNodes[i] < |arena| + |added| && added[resultNodes[i] - |arena|] == arena[bag[i]].coor
    requires forall i, j :: 0 <= i < j < |bag| && bag[i] !in pairs && bag[j] !in pairs ==> resultNodes[i] != resultNodes[j]
    requires forall id :: |arena| <= id < |arena| + |added| ==> id in resultNodes
    requires |createCommands| == |added|
    requires forall i :: 0 <= i < |added| ==> createCommands[i] == AddNode(|arena| + i, added[i])
    ensures LegacyNodeListSpec(arena, bag, pairs, resultNodes, createCommands)
  {
    forall i | 0 <= i < |bag| && bag[i] !in pairs
      ensures AddNode(resultNodes[i], arena[bag[i]].coor) in createCommands
    {
      assert createCommands[resultNodes[i] - |arena|] == AddNode(resultNodes[i], arena[bag[i]].coor);
    }
    forall x | x in createCommands ensures x.AddNode? && x.id >= |arena| && x.id in resultNodes {
      var k :| 0 <= k < |createCommands| && createCommands[k] == x;
      assert x.id == |arena| + k;
    }
  }

  /**
    The commands in their order: ChangeNodes always, then the moves, the deletions and the
    start_date edit.
   */
  method PlanLegacyCommands(arena: Arena, m: Metric, bagTags: TagMap, osmTags: TagMap,
                            pairs: map<NodeId, NodeId>, osmLeft: set<NodeId>, resultNodes: seq<NodeId>)
    returns (commands: seq<Command>, upToDate: nat, moved: nat, inOtherWays: nat, tagged: nat, removed: nat)
    requires forall b :: b in pairs ==> b < |arena|
    requires Injective(pairs)
    requires ValidIdSet(arena, osmLeft)
    ensures |commands| > 0 && commands[0] == ChangeNodes(resultNodes)
    ensures forall x :: x in commands && x.ChangeNodes? ==> x.nodes == resultNodes
    ensures MoveSpec(arena, pairs, EpsilonTest(arena, m), commands, upToDate, moved)
    ensures DeleteSpec(arena, osmLeft, commands, inOtherWays, tagged, removed)
    ensures StartDateSpec(bagTags, osmTags, commands)
  {
    var change := [ChangeNodes(resultNodes)];
    var isUpToDate := EpsilonTest(arena, m);
    var moves;
    moves, upToDate, moved := PlanMoves(arena, pairs, isUpToDate);
    MovedExactly(arena, pairs, isUpToDate, moves);
    var deletes;
    deletes, inOtherWays, tagged, removed := PlanDeletions(arena, osmLeft);
    var startDate: seq<Command> := [];
    var update := StartDateUpdate(bagTags, osmTags);
    if update.Some? {
      startDate := [update.value];
    }
    commands := change + moves + deletes + startDate;
    MovesHold(arena, pairs, isUpToDate, change, moves, deletes, startDate, upToDate, moved);
    DeletesHold(arena, osmLeft, change, moves, deletes, startDate, inOtherWays, tagged, removed);
    StartDateHolds(bagTags, osmTags, change, moves, deletes, startDate);
  }

  lemma StartDateHolds(bagTags: TagMap, osmTags: TagMap, change: seq<Command>, moves: seq<Command>,
                       deletes: seq<Command>, startDate: seq<Command>)
    requires startDate == (if StartDateUpdate(bagTags, osmTags).Some? then [StartDateUpdate(bagTags, osmTags).value] else [])
    requires forall x :: x in change ==> x.ChangeNodes?
    requires forall x :: x in moves ==> x.Move?
    requires forall x :: x in deletes ==> x.Delete?
    ensures StartDateSpec(bagTags, osmTags, change + moves + deletes + startDate)
  {
  }

  lemma DeletedNotUsedLegacy(arena: Arena, bag: seq<NodeId>, osm: seq<NodeId>, c: Correspondence,
                             resultNodes: seq<NodeId>, createCommands: seq<Command>, commands: seq<Command>)
    requires ValidIds(arena, bag) && ValidIds(arena, osm)
    requires IsCorrespondence(bag, osm, c)
    requires LegacyNodeListSpec(arena, bag, c.pairs, resultNodes, createCommands)
    requires forall x :: x in commands && x.Delete? ==> x.id in c.osmLeft
    ensures KeepsUsedNodes(resultNodes, commands)
  {
    PairsInArena(arena, bag, osm, c);
    forall x | x in commands && x.Delete? ensures x.id !in resultNodes {
      forall i | 0 <= i < |resultNodes| ensures resultNodes[i] != x.id {
        if bag[i] in c.pairs {
          assert resultNodes[i] in c.pairs.Values;
        }
      }
    }
  }

  /** This revision never reports "already up-to-date": its command list is never empty. */
  lemma NeverUpToDate(arena: Arena, m: Metric, bag: Way, osm: Way, sol: Option<seq<nat>>, e: LegacyEdits)
    requires ValidIds(arena, bag.nodes)
    requires LegacySpec(arena, m, bag, osm, sol, e)
    ensures e.commands != []
    ensures ChangeNodes(e.resultNodes) in e.commands
  {
    assert e.commands[0] == ChangeNodes(e.resultNodes);
  }

  // ---- Creating a new building ----

  /** The node list of a way created by this revision: n fresh nodes from base. */
  function LegacyWayNodes(base: nat, n: nat): seq<NodeId> {
    seq(n, i => base + i)
  }

  /** The way+nodes group of this revision's create: a new node per BAG node, then the way. */
  ghost predicate IsLegacyNewBuildingGroup(arena: Arena, bag: seq<NodeId>, g: seq<Command>)
    requires ValidIds(arena, bag)
  {
    && |g| == |bag| + 1
    && (forall i :: 0 <= i < |bag| ==> g[i] == AddNode(|arena| + i, arena[bag[i]].coor))
    && g[|bag|] == AddWay(LegacyWayNodes(|arena|, |bag|))
  }

  /**
    The way this revision creates from a closed BAG way is not closed: its last node is a
    second new node on top of the first.
   */
  lemma LegacyNewBuildingOpen(arena: Arena, bag: seq<NodeId>, g: seq<Command>)
    requires ValidIds(arena, bag) && IsClosed(bag)
    requires IsLegacyNewBuildingGroup(arena, bag, g)
    ensures g[|g| - 1].AddWay?
    ensures var ws := g[|g| - 1].nodes;
      |ws| == |bag| && ws[0] != ws[|ws| - 1]
      && g[0] == AddNode(ws[0], arena[bag[0]].coor) && g[|bag| - 1] == AddNode(ws[|ws| - 1], arena[bag[0]].coor)
  {
  }

  /** The way+nodes group of a create: the loop over the BAG nodes, then the way. */
  method LegacyNewBuilding(arena: Arena, bag: seq<NodeId>) returns (group: seq<Command>)
    requires ValidIds(arena, bag)
    ensures IsLegacyNewBuildingGroup(arena, bag, group)
  {
    var wayNodes: seq<NodeId> := [];
    group := [];
    for i := 0 to |bag|
      invariant wayNodes == LegacyWayNodes(|arena|, i)
      invariant |group| == i
      invariant forall j :: 0 <= j < i ==> group[j] == AddNode(|arena| + j, arena[bag[j]].coor)
    {
      wayNodes := wayNodes + [|arena| + i];
      group := group + [AddNode(|arena| + i, arena[bag[i]].coor)];
    }
    group := group + [AddWay(wayNodes)];
  }

  /** The lines of the import message for the keys in the given order. */
  function TagLines(tags: TagMap, keys: seq<string>): string
    requires forall i :: 0 <= i < |keys| ==> keys[i] in tags
  {
    if keys == [] then "" else TagLines(tags, keys[..|keys| - 1]) + "<br />" + keys[|keys| - 1] + "=" + tags[keys[|keys| - 1]]
  }

  /**
    The import message: one line per tag of the new way, in the tag map's iteration
    order, which `order` records (the map here has no order of its own).
   */
  method ImportMessage(tags: TagMap) returns (message: string, ghost order: seq<string>)
    ensures |order| == |tags.Keys|
    ensures forall k :: k in tags <==> k in order
    ensures forall i, j :: 0 <= i < j < |order| ==> order[i] != order[j]
    ensures forall i :: 0 <= i < |order| ==> order[i] in tags
    ensures message == ImportText(tags, order)
  {
    message := ImportHeader;
    order := [];
    var remaining := tags.Keys;
    while remaining != {}
      invariant remaining <= tags.Keys
      invariant forall k :: k in tags ==> (k in order <==> k !in remaining)
      invariant forall i :: 0 <= i < |order| ==> order[i] in tags
      invariant forall i, j :: 0 <= i < j < |order| ==> order[i] != order[j]
      invariant |order| + |remaining| == |tags.Keys|
      invariant message == ImportHeader + TagLines(tags, order)
      decreases |remaining|
    {
      var k :| k in remaining;
      message := message + "<br />" + k + "=" + tags[k];
      assert (order + [k])[..|order|] == order;
      order := order + [k];
      remaining := remaining - {k};
    }
    DistinctKeysCover(tags, order);
  }

  lemma DistinctKeysCover(tags: TagMap, order: seq<string>)
    requires forall k :: k in tags <==> k in order
    requires forall i, j :: 0 <= i < j < |order| ==> order[i] != order[j]
    ensures |order| == |tags.Keys|
  {
    var s := set i | 0 <= i < |order| :: order[i];
    assert s == tags.Keys;
    DistinctCard(order);
  }

  lemma {:induction false} DistinctCard(order: seq<string>)
    requires forall i, j :: 0 <= i < j < |order| ==> order[i] != order[j]
    ensures |set i | 0 <= i < |order| :: order[i]| == |order|
  {
    if order != [] {
      var init := order[..|order| - 1];
      DistinctCard(init);
      var last := order[|order| - 1];
      assert (set i | 0 <= i < |order| :: order[i]) == (set i | 0 <= i < |init| :: init[i]) + {last};
      assert last !in (set i | 0 <= i < |init| :: init[i]);
    }
  }

  /** The undo/redo groups of an update: the node creations when there are any, then the update. */
  function LegacyGroups(e: LegacyEdits): (groups: seq<seq<Command>>)
    ensures |groups| >= 1 && groups[|groups| - 1] == e.commands
  {
    (if e.createCommands != [] then [e.createCommands] else []) + [e.commands]
  }

  /** The notifications of an update: the fallback warning when the solver gave up, then the counts. */
  function LegacyNotices(gaveUp: bool, bagRef: string, e: LegacyEdits): (shown: seq<Notification>)
    ensures |shown| == if gaveUp then 2 else 1
  {
    (if gaveUp then [Notification(Banner + FallbackNote, Warning)] else [])
    + [Notification(Banner + UpdatedMessage(bagRef, e.upToDate, e.moved, |e.pairing.bagLeft|, e.removed), Information)]
  }

  /** The import message of a created way. */
  function ImportText(tags: TagMap, order: seq<string>): string
    requires forall i :: 0 <= i < |order| ==> order[i] in tags
  {
    ImportHeader + TagLines(tags, order)
  }

  /**
    What an import of this revision records: the way+nodes group and the tags group, then
    one import message listing the copied tags in some order.
   */
  ghost predicate LegacyCreated(arena: Arena, bagWay: Way, h0: seq<seq<Command>>, h: seq<seq<Command>>,
                                shown0: seq<Notification>, shown: seq<Notification>)
    requires ValidIds(arena, bagWay.nodes)
  {
    && |h| == |h0| + 2 && h[..|h0|] == h0
    && IsLegacyNewBuildingGroup(arena, bagWay.nodes, h[|h0|])
    && IsCopyTagGroup(bagWay.tags, h[|h0| + 1])
    && |shown| == |shown0| + 1 && shown[..|shown0|] == shown0
    && exists order :: |order| == |CopiedTags(bagWay.tags).Keys|
         && (forall k :: k in CopiedTags(bagWay.tags) <==> k in order)
         && (forall i :: 0 <= i < |order| ==> order[i] in CopiedTags(bagWay.tags))
         && shown[|shown0|] == Notification(Banner + ImportText(CopiedTags(bagWay.tags), order), Information)
  }

  /** What an update of this revision records: the groups and notifications of a plan meeting LegacySpec. */
  ghost predicate LegacyUpdated(arena: Arena, m: Metric, bagWay: Way, osmWay: Way, sol: Option<seq<nat>>,
                                h0: seq<seq<Command>>, h: seq<seq<Command>>,
                                shown0: seq<Notification>, shown: seq<Notification>)
    requires ValidIds(arena, bagWay.nodes) && RefKey in bagWay.tags
  {
    exists plan :: LegacySpec(arena, m, bagWay, osmWay, sol, plan)
      && h == h0 + LegacyGroups(plan)
      && shown == shown0 + LegacyNotices(LegacyUseSlow(|bagWay.nodes|, |osmWay.nodes|) && sol.None?,
                                         bagWay.tags[RefKey], plan)
  }

  // ---- The tool ----

  /** A run of this revision: the notifications it shows and the groups it adds to undo/redo. */
  class LegacyBuildingUpdate {
    var shown: seq<Notification>
    var history: seq<seq<Command>>

    constructor ()
      ensures shown == [] && history == []
    {
      shown := [];
      history := [];
    }

    /** notification(): shows the message at once, under the banner. */
    method Notify(message: string, kind: MessageType)
      modifies this
      ensures shown == old(shown) + [Notification(Banner + message, kind)]
      ensures history == old(history)
    {
      shown := shown + [Notification(Banner + message, kind)];
    }

    /**
      updateExistingBuilding of this revision: a warning when the solver gave up, the node
      creations group when there are new nodes, the update group, then the counts.
     */
    method UpdateExistingBuilding(arena: Arena, m: Metric, bagWay: Way, osmWay: Way, sol: Option<seq<nat>>)
      returns (ok: bool, ghost plan: LegacyEdits)
      requires ValidIds(arena, bagWay.nodes) && ValidIds(arena, osmWay.nodes)
      requires ValidSolution(sol, Max(|bagWay.nodes|, |osmWay.nodes|))
      requires RefKey in bagWay.tags
      modifies this
      ensures ok
      ensures LegacySpec(arena, m, bagWay, osmWay, sol, plan)
      ensures history == old(history) + LegacyGroups(plan)
      ensures shown == old(shown)
                + LegacyNotices(LegacyUseSlow(|bagWay.nodes|, |osmWay.nodes|) && sol.None?, bagWay.tags[RefKey], plan)
    {
      var e, gaveUp := PlanLegacyUpdate(arena, m, bagWay, osmWay, sol);
      plan := e;
      RecordLegacyUpdate(gaveUp, bagWay.tags[RefKey], e);
      ok := true;
    }

    method RecordLegacyUpdate(gaveUp: bool, bagRef: string, e: LegacyEdits)
      modifies this
      ensures history == old(history) + LegacyGroups(e)
      ensures shown == old(shown) + LegacyNotices(gaveUp, bagRef, e)
    {
      if gaveUp {
        Notify(FallbackNote, Warning);
      }
      if e.createCommands != [] {
        history := history + [e.createCommands];
      }
      history := history + [e.commands];
      Notify(UpdatedMessage(bagRef, e.upToDate, e.moved, |e.pairing.bagLeft|, e.removed), Information);
    }

    /**
      createNewBuilding of this revision: a new node for every BAG node and the way as one
      group, every tag but the "|ODS" ones as a second, then the import message listing
      the tags of the new way.
     */
    method CreateNewBuilding(arena: Arena, bagWay: Way) returns (ok: bool)
      requires ValidIds(arena, bagWay.nodes)
      modifies this
      ensures ok
      ensures LegacyCreated(arena, bagWay, old(history), history, old(shown), shown)
    {
      var group := LegacyNewBuilding(arena, bagWay.nodes);
      history := history + [group];
      var tagCommands, _ := CopyTags(bagWay.tags);
      history := history + [tagCommands];
      CopyTagsEffect(bagWay.tags, tagCommands);
      var message, order := ImportMessage(ApplyTags(map[], tagCommands));
      Notify(message, Information);
      assert shown[|old(shown)|] == Notification(Banner + ImportText(CopiedTags(bagWay.tags), order), Information);
      ok := true;
    }

    /**
      execute of this revision: the same search as the current one, with its failures shown
      as notifications (a missing building as a warning); multiple OSM matches are shown
      and the building is created anyway.
     */
    method Execute(bagLayer: bool, osmLayer: bool, bagCands: seq<Candidate>, osmCands: seq<Candidate>,
                   inside: seq<NodeId> -> bool, arena: Arena, m: Metric,
                   solve: (seq<NodeId>, seq<NodeId>) -> Option<seq<nat>>)
      returns (r: bool)
      requires forall c :: c in bagCands ==> ValidIds(arena, c.way.nodes)
      requires forall c :: c in osmCands ==> ValidIds(arena, c.way.nodes)
      requires forall b, o :: ValidSolution(solve(b, o), Max(|b|, |o|))
      modifies this
      ensures |shown| > |old(shown)|
      ensures !bagLayer ==> !r && history == old(history) && shown == old(shown) + [Notification(Banner + NoBagLayer, Information)]
      ensures bagLayer && !osmLayer ==>
                !r && history == old(history) && shown == old(shown) + [Notification(Banner + NoOsmLayer, Information)]
      ensures bagLayer && osmLayer && FindBagWay(bagCands, inside).Err? ==>
                var error := FindBagWay(bagCands, inside).error;
                !r && history == old(history)
                && shown == old(shown) + [Notification(Banner + error, if error == NoBagBuilding then Warning else Information)]
      ensures bagLayer && osmLayer && FindBagWay(bagCands, inside).Ok? ==>
                var bagWay := FindBagWay(bagCands, inside).value.way;
                var lookup := FindOsmWay(osmCands, RefOf(bagWay));
                && r
                && (lookup.NoMatch? ==> LegacyCreated(arena, bagWay, old(history), history, old(shown), shown))
                && (lookup.Multiple? ==>
                      LegacyCreated(arena, bagWay, old(history), history,
                                    old(shown) + [Notification(Banner + MultipleMatchMessage(lookup.names), Information)], shown))
                && (lookup.Match? ==>
                      LegacyUpdated(arena, m, bagWay, lookup.c.way, solve(bagWay.nodes, lookup.c.way.nodes),
                                    old(history), history, old(shown), shown))
    {
      if !bagLayer {
        Notify(NoBagLayer, Information);
        return false;
      }
      if !osmLayer {
        Notify(NoOsmLayer, Information);
        return false;
      }
      var found := FindBagWay(bagCands, inside);
      if found.Err? {
        Notify(found.error, if found.error == NoBagBuilding then Warning else Information);
        return false;
      }
      var bagWay := found.value.way;
      var lookup := FindOsmWay(osmCands, RefOf(bagWay));
      if lookup.Multiple? {
        Notify(MultipleMatchMessage(lookup.names), Information);
        r := CreateNewBuilding(arena, bagWay);
        return;
      }
      if lookup.NoMatch? {
        r := CreateNewBuilding(arena, bagWay);
        return;
      }
      var osmWay := lookup.c.way;
      ghost var plan;
      r, plan := UpdateExistingBuilding(arena, m, bagWay, osmWay, solve(bagWay.nodes, osmWay.nodes));
    }
  }
}
