/**
  The oldest revision of the BAG update tool (BagUpdateAction.doBagUpdate). Its flow is
  find-then-update-or-create like the later ones, with these differences: the BAG search
  has no polygon test and fails silently; the ref:bag check happens in doBagUpdate; every
  OSM search failure, including several matches, leads to a new building; and the
  leftover OSM nodes are all taken out of the way by one RemoveNodesCommand, without
  the tag and parent-way protection of the later revisions.
 */
module OldestUpdate {
  import opened OsmData
  import opened Pairing
  import opened Synthesis
  import opened Tags
  import opened Resolver
  import opened Summary
  import opened Update
  import opened LegacyUpdate

  const NoRefBagOldest := "Clicked Way in the BAG ODS layer has no ref:bag! Try another building"

  datatype OldestEdits = OldestEdits(
    pairing: Correspondence,
    resultNodes: seq<NodeId>,
    createCommands: seq<Command>,
    commands: seq<Command>,
    upToDate: nat, moved: nat)

  // ---- What an update of this revision promises ----

  /** Every leftover OSM node goes into one RemoveNodes command, whatever its tags or other ways. */
  ghost predicate RemoveSpec(osmLeft: set<NodeId>, commands: seq<Command>) {
    && (RemoveNodes(osmLeft) in commands <==> osmLeft != {})
    && (forall x :: x in commands && x.RemoveNodes? ==> x.ids == osmLeft)
    && (forall x :: x in commands ==> !x.Delete?)
  }

  /** start_date alone is synchronised, and only the four kinds of edit occur. */
  ghost predicate OldestTagSpec(bagTags: TagMap, osmTags: TagMap, commands: seq<Command>) {
    && (forall k, v :: SetTag(k, v) in commands <==> StartDateUpdate(bagTags, osmTags) == Some(SetTag(k, v)))
    && (forall x :: x in commands ==> x.ChangeNodes? || x.Move? || x.RemoveNodes? || x.SetTag?)
  }

  ghost predicate OldestSpec(arena: Arena, m: Metric, bag: Way, osm: Way, sol: Option<seq<nat>>, e: OldestEdits)
    requires ValidIds(arena, bag.nodes)
  {
    && LegacyPairingOutcome(arena, m, bag.nodes, osm.nodes, sol, e.pairing)
    && IsCorrespondence(bag.nodes, osm.nodes, e.pairing)
    && (forall b :: b in e.pairing.pairs ==> LegacyAdmissible(arena, m, b, e.pairing.pairs[b]))
    && (!LegacyUseSlow(|bag.nodes|, |osm.nodes|) || sol.None? ==> e.pairing.pairs == map[])
    && LegacyNodeListSpec(arena, bag.nodes, e.pairing.pairs, e.resultNodes, e.createCommands)
    && |e.commands| > 0 && e.commands[0] == ChangeNodes(e.resultNodes)
    && (forall x :: x in e.commands && x.ChangeNodes? ==> x.nodes == e.resultNodes)
    && MoveSpec(arena, e.pairing.pairs, EpsilonTest(arena, m), e.commands, e.upToDate, e.moved)
    && RemoveSpec(e.pairing.osmLeft, e.commands)
    && OldestTagSpec(bag.tags, osm.tags, e.commands)
  }

  // ---- Computing the edits ----

  /**
    updateExistingBuilding of this revision without its side effects. gaveUp is the solver
    having thrown; the fallback body is empty, so nothing is paired then.
   */
  method PlanOldestUpdate(arena: Arena, m: Metric, source: Way, target: Way, sol: Option<seq<nat>>)
    returns (e: OldestEdits, gaveUp: bool)
    requires ValidIds(arena, source.nodes) && ValidIds(arena, target.nodes)
    requires ValidSolution(sol, Max(|source.nodes|, |target.nodes|))
    ensures gaveUp <==> LegacyUseSlow(|source.nodes|, |target.nodes|) && sol.None?
    ensures OldestSpec(arena, m, source, target, sol, e)
  {
    var c;
    c, gaveUp := LegacyPairing(arena, m, source.nodes, target.nodes, sol);
    LegacyPairsAdmissible(arena, m, source.nodes, target.nodes, sol, c);
    PairsInArena(arena, source.nodes, target.nodes, c);
    var resultNodes, added := LegacyResultNodes(arena, source.nodes, c.pairs);
    var createCommands := AddCommands(|arena|, added);
    LegacyNodesHold(arena, source.nodes, c.pairs, resultNodes, added, createCommands);
    var commands, upToDate, moved := PlanOldestCommands(arena, m, source.tags, target.tags, c.pairs, c.osmLeft, resultNodes);
    e := OldestEdits(c, resultNodes, createCommands, commands, upToDate, moved);
  }

  /**
    The commands in their order: ChangeNodes always, the moves, one RemoveNodes for the
    leftovers when there are any, then the start_date edit.
   */
  method PlanOldestCommands(arena: Arena, m: Metric, bagTags: TagMap, osmTags: TagMap,
                            pairs: map<NodeId, NodeId>, osmLeft: set<NodeId>, resultNodes: seq<NodeId>)
    returns (commands: seq<Command>, upToDate: nat, moved: nat)
    requires forall b :: b in pairs ==> b < |arena|
    requires Injective(pairs)
    ensures |commands| > 0 && commands[0] == ChangeNodes(resultNodes)
    ensures forall x :: x in commands && x.ChangeNodes? ==> x.nodes == resultNodes
    ensures MoveSpec(arena, pairs, EpsilonTest(arena, m), commands, upToDate, moved)
    ensures RemoveSpec(osmLeft, commands)
    ensures OldestTagSpec(bagTags, osmTags, commands)
  {
    var change := [ChangeNodes(resultNodes)];
    var isUpToDate := EpsilonTest(arena, m);
    var moves;
    moves, upToDate, moved := PlanMoves(arena, pairs, isUpToDate);
    MovedExactly(arena, pairs, isUpToDate, moves);
    var remove: seq<Command> := [];
    if osmLeft != {} {
      remove := [RemoveNodes(osmLeft)];
    }
    var startDate: seq<Command> := [];
    var update := StartDateUpdate(bagTags, osmTags);
    if update.Some? {
      startDate := [update.value];
    }
    commands := change + moves + remove + startDate;
    OldestCommandsHold(arena, pairs, isUpToDate, osmLeft, change, moves, remove, startDate, bagTags, osmTags);
  }

  lemma OldestCommandsHold(arena: Arena, pairs: map<NodeId, NodeId>, isUpToDate: (NodeId, NodeId) -> bool,
                           osmLeft: set<NodeId>, change: seq<Command>, moves: seq<Command>,
                           remove: seq<Command>, startDate: seq<Command>, bagTags: TagMap, osmTags: TagMap)
    requires forall b :: b in pairs ==> b < |arena|
    requires forall b :: b in pairs ==> (Move(pairs[b], arena[b].coor) in moves <==> !isUpToDate(b, pairs[b]))
    requires forall x :: x in moves ==>
               exists b :: b in pairs && !isUpToDate(b, pairs[b]) && x == Move(pairs[b], arena[b].coor)
    requires forall x :: x in change ==> x.ChangeNodes?
    requires remove == (if osmLeft != {} then [RemoveNodes(osmLeft)] else [])
    requires startDate == (if StartDateUpdate(bagTags, osmTags).Some? then [StartDateUpdate(bagTags, osmTags).value] else [])
    ensures var commands := change + moves + remove + startDate;
      && (forall b :: b in pairs ==> (Move(pairs[b], arena[b].coor) in commands <==> !isUpToDate(b, pairs[b])))
      && (forall x :: x in commands && x.Move? ==> exists b :: b in pairs && x == Move(pairs[b], arena[b].coor))
      && RemoveSpec(osmLeft, commands)
      && OldestTagSpec(bagTags, osmTags, commands)
  {
    var commands := change + moves + remove + startDate;
    forall x | x in commands && x.Move? ensures exists b :: b in pairs && x == Move(pairs[b], arena[b].coor) {
      assert x in moves;
      var b :| b in pairs && !isUpToDate(b, pairs[b]) && x == Move(pairs[b], arena[b].coor);
    }
    forall x | x in moves ensures x.Move? {
      var b :| b in pairs && !isUpToDate(b, pairs[b]) && x == Move(pairs[b], arena[b].coor);
    }
  }

  /**
    The missing protection: every leftover OSM node, tagged or shared with another way
    included, is taken out of the way by the single RemoveNodes. The later revisions drop
    leftovers from the way too (through ChangeNodes) but never delete a tagged or shared
    one; this revision has no Delete at all, so it differs in what it reports.
   */
  lemma RemovesProtectedNodes(arena: Arena, m: Metric, bag: Way, osm: Way, sol: Option<seq<nat>>,
                              e: OldestEdits, o: NodeId)
    requires ValidIds(arena, bag.nodes)
    requires OldestSpec(arena, m, bag, osm, sol, e)
    requires o in e.pairing.osmLeft
    ensures exists x :: x in e.commands && x.RemoveNodes? && o in x.ids
  {
    assert RemoveNodes(e.pairing.osmLeft) in e.commands;
  }

  /** This revision never reports "already up-to-date": its command list is never empty. */
  lemma OldestNeverUpToDate(arena: Arena, m: Metric, bag: Way, osm: Way, sol: Option<seq<nat>>, e: OldestEdits)
    requires ValidIds(arena, bag.nodes)
    requires OldestSpec(arena, m, bag, osm, sol, e)
    ensures e.commands != [] && ChangeNodes(e.resultNodes) in e.commands
  {
    assert e.commands[0] == ChangeNodes(e.resultNodes);
  }

  /** The undo/redo groups of an update: the node creations when there are any, then the update. */
  function OldestGroups(e: OldestEdits): (groups: seq<seq<Command>>)
    ensures |groups| >= 1 && groups[|groups| - 1] == e.commands
    ensures |groups| == 2 <==> e.createCommands != []
  {
    (if e.createCommands != [] then [e.createCommands] else []) + [e.commands]
  }

  /**
    The notifications of an update: the fallback warning when the solver gave up, then the
    counts; the removed count is the number of leftover OSM nodes.
   */
  function OldestNotices(gaveUp: bool, bagRef: string, e: OldestEdits): (shown: seq<Notification>)
    ensures |shown| == if gaveUp then 2 else 1
    ensures shown[|shown| - 1].kind == Information
    ensures gaveUp ==> shown[0] == Notification(Banner + FallbackNote, Warning)
  {
    (if gaveUp then [Notification(Banner + FallbackNote, Warning)] else [])
    + [Notification(Banner + UpdatedMessage(bagRef, e.upToDate, e.moved, |e.pairing.bagLeft|, |e.pairing.osmLeft|),
                    Information)]
  }

  /** What an update of this revision records: the groups and notifications of a plan meeting OldestSpec. */
  ghost predicate OldestUpdated(arena: Arena, m: Metric, source: Way, target: Way, sol: Option<seq<nat>>,
                                h0: seq<seq<Command>>, h: seq<seq<Command>>,
                                shown0: seq<Notification>, shown: seq<Notification>)
    requires ValidIds(arena, source.nodes) && RefKey in source.tags
  {
    exists plan :: OldestSpec(arena, m, source, target, sol, plan)
      && h == h0 + OldestGroups(plan)
      && shown == shown0 + OldestNotices(LegacyUseSlow(|source.nodes|, |target.nodes|) && sol.None?,
                                         source.tags[RefKey], plan)
  }

  // ---- The action ----

  /** The map mode of the oldest revision: the notifications it shows and the groups it adds to undo/redo. */
  class BagUpdateAction {
    var shown: seq<Notification>
    var history: seq<seq<Command>>

    constructor ()
      ensures shown == [] && history == []
    {
      shown := [];
      history := [];
    }

    /** notification(): shows the message at once, under the banner. */
    method Notify(message: string, kind: MessageType)
      modifies this
      ensures shown == old(shown) + [Notification(Banner + message, kind)]
      ensures history == old(history)
    {
      shown := shown + [Notification(Banner + message, kind)];
    }

    /**
      updateExistingBuilding of this revision: a warning when the solver gave up, the node
      creations group when there are new nodes, the update group, then the counts.
     */
    method UpdateExistingBuilding(arena: Arena, m: Metric, source: Way, target: Way, sol: Option<seq<nat>>)
      returns (ghost plan: OldestEdits)
      requires ValidIds(arena, source.nodes) && ValidIds(arena, target.nodes)
      requires ValidSolution(sol, Max(|source.nodes|, |target.nodes|))
      requires RefKey in source.tags
      modifies this
      ensures OldestSpec(arena, m, source, target, sol, plan)
      ensures history == old(history) + OldestGroups(plan)
      ensures shown == old(shown)
                + OldestNotices(LegacyUseSlow(|source.nodes|, |target.nodes|) && sol.None?, source.tags[RefKey], plan)
    {
      var e, gaveUp := PlanOldestUpdate(arena, m, source, target, sol);
      plan := e;
      RecordOldestUpdate(gaveUp, source.tags[RefKey], e);
    }

    method RecordOldestUpdate(gaveUp: bool, bagRef: string, e: OldestEdits)
      modifies this
      ensures history == old(history) + OldestGroups(e)
      ensures shown == old(shown) + OldestNotices(gaveUp, bagRef, e)
    {
      if gaveUp {
        Notify(FallbackNote, Warning);
      }
      if e.createCommands != [] {
        history := history + [e.createCommands];
      }
      history := history + [e.commands];
      Notify(UpdatedMessage(bagRef, e.upToDate, e.moved, |e.pairing.bagLeft|, |e.pairing.osmLeft|), Information);
    }

    /**
      createNewBuilding of this revision: a new node for every source node and the way as
      one group, every tag but the "|ODS" ones as a second, then the import message
      listing the tags of the new way.
     */
    method CreateNewBuilding(arena: Arena, source: Way)
      requires ValidIds(arena, source.nodes)
      modifies this
      ensures LegacyCreated(arena, source, old(history), history, old(shown), shown)
    {
      var group := LegacyNewBuilding(arena, source.nodes);
      history := history + [group];
      var tagCommands, _ := CopyTags(source.tags);
      history := history + [tagCommands];
      CopyTagsEffect(source.tags, tagCommands);
      var message, order := ImportMessage(ApplyTags(map[], tagCommands));
      Notify(message, Information);
      assert shown[|old(shown)|] == Notification(Banner + ImportText(CopiedTags(source.tags), order), Information);
    }

    /**
      doBagUpdate: a missing layer is reported; a click that finds no single BAG building
      does nothing at all; a building without ref:bag is reported; then the OSM building
      with that ref:bag is updated, and when there is no single one a new building is
      created.
     */
    method DoBagUpdate(bagLayer: bool, osmLayer: bool, bagCands: seq<Candidate>, osmCands: seq<Candidate>,
                       arena: Arena, m: Metric, solve: (seq<NodeId>, seq<NodeId>) -> Option<seq<nat>>)
      requires forall c :: c in bagCands ==> ValidIds(arena, c.way.nodes)
      requires forall c :: c in osmCands ==> ValidIds(arena, c.way.nodes)
      requires forall b, o :: ValidSolution(solve(b, o), Max(|b|, |o|))
      modifies this
      ensures !bagLayer ==> history == old(history) && shown == old(shown) + [Notification(Banner + NoBagLayer, Information)]
      ensures bagLayer && !osmLayer ==>
                history == old(history) && shown == old(shown) + [Notification(Banner + NoOsmLayer, Information)]
      ensures bagLayer && osmLayer && FindBagWayOldest(bagCands).None? ==>
                history == old(history) && shown == old(shown)
      ensures bagLayer && osmLayer && FindBagWayOldest(bagCands).Some?
                && RefOf(FindBagWayOldest(bagCands).value.way).None? ==>
                history == old(history) && shown == old(shown) + [Notification(Banner + NoRefBagOldest, Information)]
      ensures bagLayer && osmLayer && FindBagWayOldest(bagCands).Some?
                && RefOf(FindBagWayOldest(bagCands).value.way).Some? ==>
                var source := FindBagWayOldest(bagCands).value.way;
                var lookup := FindOsmWayOldest(osmCands, RefOf(source));
                && (!lookup.Match? ==> LegacyCreated(arena, source, old(history), history, old(shown), shown))
                && (lookup.Match? ==>
                      OldestUpdated(arena, m, source, lookup.c.way, solve(source.nodes, lookup.c.way.nodes),
                                    old(history), history, old(shown), shown))
    {
      if !bagLayer {
        Notify(NoBagLayer, Information);
        return;
      }
      if !osmLayer {
        Notify(NoOsmLayer, Information);
        return;
      }
      var found := FindBagWayOldest(bagCands);
      if found.None? {
        return;
      }
      var source := found.value.way;
      var bagRef := RefOf(source);
      if bagRef.None? {
        Notify(NoRefBagOldest, Information);
        return;
      }
      var lookup := FindOsmWayOldest(osmCands, bagRef);
      if !lookup.Match? {
        CreateNewBuilding(arena, source);
        return;
      }
      var target := lookup.c.way;
      ghost var plan := UpdateExistingBuilding(arena, m, source, target, solve(source.nodes, target.nodes));
    }
  }
}
