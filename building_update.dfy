/**
  One click of the current revision's BAG update tool (BuildingUpdate): find the clicked
  BAG building and its OSM counterpart, then either reconcile the existing OSM building
  with the BAG geometry and tags, or import the BAG building as a new OSM way. Notes go
  to the run's ResultSummary; command groups go to the undo/redo stack, modelled as the
  `history` field.
 */
module Update {
  import opened OsmData
  import opened Pairing
  import opened Synthesis
  import opened Tags
  import opened Resolver
  import opened Summary

  /** A paired node closer than this many centimetres to its BAG position is up to date. */
  const DesiredPrecisionCm := 1

  const FallbackNote := "Exceeded iteration limit for robust method, using simpler method."
  const UpToDateNote := "Building is already up-to-date"
  const CanceledMessage := "Building update canceled because of notes"
  const NoBagLayer := "BAG ODS layer not found! Make sure to use ODS > Enable > BAG first"
  const NoOsmLayer := "BAG OSM layer not found! Make sure to use ODS > Enable > BAG first"
  /** The exception fixDuplicateNodes throws when the osmWay field is still null. */
  const NullOsmWay := "NullPointerException: osmWay"

  // The singular and plural forms of the count notes.
  const UpToDateOne := "node up-to-date"
  const UpToDateMany := "nodes up-to-date"
  const MovedOne := "node moved"
  const MovedMany := "nodes moved"
  const CreatedOne := "node created"
  const CreatedMany := "nodes created"
  const SharedOne := "node kept because it is part of another way"
  const SharedMany := "nodes kept because they are part of other ways"
  const TaggedOne := "node kept because it has important tags"
  const TaggedMany := "nodes kept because they have important tags"
  const RemovedOne := "node removed"
  const RemovedMany := "nodes removed"

  /** The BAG node b is where its paired OSM node o already is (to the centimetre). */
  predicate IsUpToDate(arena: Arena, m: Metric, b: NodeId, o: NodeId) {
    b < |arena| && o < |arena| && m.greatCircle(arena[b].coor, arena[o].coor) < DesiredPrecisionCm
  }

  /** The up-to-date test of the current revision, as a function value. */
  function UpToDateTest(arena: Arena, m: Metric): (NodeId, NodeId) -> bool {
    (b: NodeId, o: NodeId) => IsUpToDate(arena, m, b, o)
  }

  /** A closed way as JOSM's Way.isClosed() sees it; every area is one. */
  predicate IsClosed(nodes: seq<NodeId>) {
    |nodes| >= 3 && nodes[0] == nodes[|nodes| - 1]
  }

  /** Everything an update decides before anything is recorded. */
  datatype Edits = Edits(
    pairing: Correspondence,
    resultNodes: seq<NodeId>,
    createCommands: seq<Command>,
    commands: seq<Command>,
    upToDate: nat, moved: nat,
    inOtherWays: nat, tagged: nat, removed: nat,
    tagNotes: seq<string>)


  // ---- What an update promises ----

  /**
    The pairing: the solver's rows below the ceiling when the exact path ran, otherwise the
    greedy outcome; one-to-one either way, and each pair admissible on the path that
    produced it.
   */
  ghost predicate PairingSpec(arena: Arena, m: Metric, bag: seq<NodeId>, osm: seq<NodeId>,
                              sol: Option<seq<nat>>, c: Correspondence) {
    && CurrentPairingOutcome(arena, m, bag, osm, sol, c)
    && IsCorrespondence(bag, osm, c)
    && (forall b :: b in c.pairs ==>
          (if UseSlow(|bag|, |osm|) && sol.Some? then WithinCeiling(arena, m, b, c.pairs[b])
           else GreedyAdmissible(arena, m, b, c.pairs[b])))
  }

  /**
    The new node list: one entry per BAG node in order, the paired OSM node where there is
    one, otherwise a new node created at the BAG coordinate, shared by exactly the unpaired
    positions at that coordinate; every new node is created once, and a closed BAG way
    stays closed.
   */
  ghost predicate NodeListSpec(arena: Arena, bag: seq<NodeId>, pairs: map<NodeId, NodeId>,
                               resultNodes: seq<NodeId>, createCommands: seq<Command>)
    requires ValidIds(arena, bag)
  {
    && |resultNodes| == |bag|
    && (forall i :: 0 <= i < |bag| && bag[i] in pairs ==> resultNodes[i] == pairs[bag[i]])
    && (forall i :: 0 <= i < |bag| && bag[i] !in pairs ==>
          resultNodes[i] >= |arena| && AddNode(resultNodes[i], arena[bag[i]].coor) in createCommands)
    && (forall x :: x in createCommands ==> x.AddNode? && x.id >= |arena| && x.id in resultNodes)
    && (forall i, j :: 0 <= i < |bag| && 0 <= j < |bag| && bag[i] !in pairs && bag[j] !in pairs ==>
          (resultNodes[i] == resultNodes[j] <==> arena[bag[i]].coor == arena[bag[j]].coor))
    && (forall i, j :: 0 <= i < j < |createCommands| ==>
          createCommands[i].AddNode? && createCommands[j].AddNode? && createCommands[i].id != createCommands[j].id)
    && (|bag| >= 1 && bag[0] == bag[|bag| - 1] ==> resultNodes[0] == resultNodes[|bag| - 1])
  }

  /** The way's node list is replaced exactly when it changes. */
  ghost predicate ChangeSpec(osm: seq<NodeId>, resultNodes: seq<NodeId>, commands: seq<Command>) {
    && (ChangeNodes(resultNodes) in commands <==> resultNodes != osm)
    && (forall x :: x in commands && x.ChangeNodes? ==> x.nodes == resultNodes)
  }

  /**
    A paired OSM node is moved onto its BAG position exactly when the revision's test does
    not find it there already; the counts are the pairs found in place and the pairs moved.
   */
  ghost predicate MoveSpec(arena: Arena, pairs: map<NodeId, NodeId>, isUpToDate: (NodeId, NodeId) -> bool,
                           commands: seq<Command>, upToDate: nat, moved: nat) {
    && (forall b :: b in pairs ==> b < |arena|)
    && (forall b :: b in pairs ==>
          (Move(pairs[b], arena[b].coor) in commands <==> !isUpToDate(b, pairs[b])))
    && (forall x :: x in commands && x.Move? ==> exists b :: b in pairs && x == Move(pairs[b], arena[b].coor))
    && upToDate == |Settled(pairs, isUpToDate, pairs.Keys)|
    && moved == |Stale(pairs, isUpToDate, pairs.Keys)|
    && upToDate + moved == |pairs.Keys|
  }

  /** A left-over OSM node is deleted exactly when it is neither shared nor tagged. */
  ghost predicate DeleteSpec(arena: Arena, osmLeft: set<NodeId>, commands: seq<Command>,
                             inOtherWays: nat, tagged: nat, removed: nat) {
    && ValidIdSet(arena, osmLeft)
    && (forall o :: o in osmLeft ==> (Delete(o) in commands <==> Deletable(arena[o])))
    && (forall x :: x in commands && x.Delete? ==> x.id in osmLeft && Deletable(arena[x.id]))
    && inOtherWays == |KeptInOtherWays(arena, osmLeft)|
    && tagged == |KeptTagged(arena, osmLeft)|
    && inOtherWays + tagged + removed == |osmLeft|
  }

  /** Tags are set exactly by the tag rule, never removed, and nothing else is emitted. */
  ghost predicate TagSpec(bagTags: TagMap, osmTags: TagMap, commands: seq<Command>) {
    && (forall k, v :: SetTag(k, v) in commands <==> ShouldSetTag(bagTags, osmTags, k) && v == bagTags[k])
    && (forall x :: x in commands ==> x.ChangeNodes? || x.Move? || x.Delete? || x.SetTag?)
  }

  /** A deleted node is never one the new node list still uses. */
  ghost predicate KeepsUsedNodes(resultNodes: seq<NodeId>, commands: seq<Command>) {
    forall x :: x in commands && x.Delete? ==> x.id !in resultNodes
  }

  /** The tag notes announce the trailing SetTag commands, one each, in order. */
  ghost predicate TagNotesSpec(osmTags: TagMap, commands: seq<Command>, tagNotes: seq<string>) {
    && |tagNotes| <= |commands|
    && (forall i :: 0 <= i < |tagNotes| ==>
          commands[|commands| - |tagNotes| + i].SetTag? &&
          tagNotes[i] == TagNote(osmTags, commands[|commands| - |tagNotes| + i].key, commands[|commands| - |tagNotes| + i].value))
  }

  ghost predicate UpdateSpec(arena: Arena, m: Metric, bag: Way, osm: Way, sol: Option<seq<nat>>, e: Edits)
    requires ValidIds(arena, bag.nodes)
  {
    && PairingSpec(arena, m, bag.nodes, osm.nodes, sol, e.pairing)
    && NodeListSpec(arena, bag.nodes, e.pairing.pairs, e.resultNodes, e.createCommands)
    && ChangeSpec(osm.nodes, e.resultNodes, e.commands)
    && MoveSpec(arena, e.pairing.pairs, UpToDateTest(arena, m), e.commands, e.upToDate, e.moved)
    && DeleteSpec(arena, e.pairing.osmLeft, e.commands, e.inOtherWays, e.tagged, e.removed)
    && TagSpec(bag.tags, osm.tags, e.commands)
    && KeepsUsedNodes(e.resultNodes, e.commands)
    && TagNotesSpec(osm.tags, e.commands, e.tagNotes)
  }

  /**
    The notes of an update, in the order they are added: the fallback note, the counts of
    up-to-date, moved and created nodes, the kept-node warnings (addWarning appends to the
    notes as well), the removed count, the tag notes, and "already up-to-date" when no
    command is left.
   */
  function Report(fellBack: bool, e: Edits): (notes: seq<string>)
    ensures fellBack ==> |notes| > 0 && notes[0] == FallbackNote
    ensures e.commands == [] ==> |notes| > 0 && notes[|notes| - 1] == UpToDateNote
  {
    (if fellBack then [FallbackNote] else [])
    + Counts(e)
    + e.tagNotes
    + (if e.commands == [] then [UpToDateNote] else [])
  }

  /** The count notes of an update, in order; the kept-node counts are added as warnings. */
  function Counts(e: Edits): seq<string> {
    CountNote(e.upToDate, UpToDateOne, UpToDateMany)
    + CountNote(e.moved, MovedOne, MovedMany)
    + CountNote(|e.pairing.bagLeft|, CreatedOne, CreatedMany)
    + CountNote(e.inOtherWays, SharedOne, SharedMany)
    + CountNote(e.tagged, TaggedOne, TaggedMany)
    + CountNote(e.removed, RemovedOne, RemovedMany)
  }

  /** A count is reported only when it is not zero. */
  function CountNote(n: nat, singular: string, plural: string): seq<string> {
    if n > 0 then [CountMessage(n, singular, plural)] else []
  }

  /**
    An update emits no command exactly when the new node list is the current one, every
    pair is already in place, no leftover OSM node may be deleted and no tag needs
    setting; only then is "Building is already up-to-date" reported.
   */
  lemma NothingToDoExactly(arena: Arena, m: Metric, bag: Way, osm: Way, sol: Option<seq<nat>>, e: Edits)
    requires ValidIds(arena, bag.nodes)
    requires UpdateSpec(arena, m, bag, osm, sol, e)
    ensures e.commands == [] <==>
              && e.resultNodes == osm.nodes
              && (forall b :: b in e.pairing.pairs ==> IsUpToDate(arena, m, b, e.pairing.pairs[b]))
              && (forall o :: o in e.pairing.osmLeft ==> !Deletable(arena[o]))
              && (forall k :: !ShouldSetTag(bag.tags, osm.tags, k))
  {
    if e.commands == [] {
      NoCommandsFacts(arena, m, bag.tags, osm, e);
    } else {
      CommandReason(arena, m, bag.tags, osm, e, e.commands[0]);
    }
  }

  /** Without commands, nothing is left to change. */
  lemma NoCommandsFacts(arena: Arena, m: Metric, bagTags: TagMap, osm: Way, e: Edits)
    requires ChangeSpec(osm.nodes, e.resultNodes, e.commands)
    requires MoveSpec(arena, e.pairing.pairs, UpToDateTest(arena, m), e.commands, e.upToDate, e.moved)
    requires DeleteSpec(arena, e.pairing.osmLeft, e.commands, e.inOtherWays, e.tagged, e.removed)
    requires TagSpec(bagTags, osm.tags, e.commands)
    requires e.commands == []
    ensures e.resultNodes == osm.nodes
    ensures forall b :: b in e.pairing.pairs ==> IsUpToDate(arena, m, b, e.pairing.pairs[b])
    ensures forall o :: o in e.pairing.osmLeft ==> !Deletable(arena[o])
    ensures forall k :: !ShouldSetTag(bagTags, osm.tags, k)
  {
    var pairs := e.pairing.pairs;
    forall b | b in pairs ensures IsUpToDate(arena, m, b, pairs[b]) {
      assert Move(pairs[b], arena[b].coor) !in e.commands;
    }
    forall o | o in e.pairing.osmLeft ensures !Deletable(arena[o]) {
      assert Delete(o) !in e.commands;
    }
    forall k ensures !ShouldSetTag(bagTags, osm.tags, k) {
      if k in bagTags {
        assert SetTag(k, bagTags[k]) !in e.commands;
      }
    }
  }

  /** Every command of an update has its reason: a changed list, a misplaced pair, a deletable leftover or a tag to set. */
  lemma CommandReason(arena: Arena, m: Metric, bagTags: TagMap, osm: Way, e: Edits, x: Command)
    requires ChangeSpec(osm.nodes, e.resultNodes, e.commands)
    requires MoveSpec(arena, e.pairing.pairs, UpToDateTest(arena, m), e.commands, e.upToDate, e.moved)
    requires DeleteSpec(arena, e.pairing.osmLeft, e.commands, e.inOtherWays, e.tagged, e.removed)
    requires TagSpec(bagTags, osm.tags, e.commands)
    requires x in e.commands
    ensures x.ChangeNodes? ==> e.resultNodes != osm.nodes
    ensures x.Move? ==> exists b :: b in e.pairing.pairs && !IsUpToDate(arena, m, b, e.pairing.pairs[b])
                                    && x == Move(e.pairing.pairs[b], arena[b].coor)
    ensures x.Delete? ==> x.id in e.pairing.osmLeft && Deletable(arena[x.id])
    ensures x.SetTag? ==> ShouldSetTag(bagTags, osm.tags, x.key)
    ensures x.ChangeNodes? || x.Move? || x.Delete? || x.SetTag?
  {
    var pairs := e.pairing.pairs;
    if x.ChangeNodes? {
      assert ChangeNodes(e.resultNodes) in e.commands;
    }
    if x.Move? {
      var b :| b in pairs && x == Move(pairs[b], arena[b].coor);
      assert !UpToDateTest(arena, m)(b, pairs[b]);
      assert !IsUpToDate(arena, m, b, pairs[b]) && x == Move(pairs[b], arena[b].coor);
    }
    if x.SetTag? {
      assert SetTag(x.key, x.value) in e.commands;
    }
  }

  // ---- Computing the edits ----

  lemma PairsInArena(arena: Arena, bag: seq<NodeId>, osm: seq<NodeId>, c: Correspondence)
    requires ValidIds(arena, bag) && ValidIds(arena, osm) && IsCorrespondence(bag, osm, c)
    ensures forall b :: b in c.pairs ==> b < |arena| && c.pairs[b] < |arena|
    ensures ValidIdSet(arena, c.osmLeft)
  {
    forall b | b in c.pairs ensures b < |arena| && c.pairs[b] < |arena| {
      assert b in Elems(bag);
      var i :| 0 <= i < |bag| && bag[i] == b;
      assert c.pairs[b] in c.pairs.Values;
      assert c.pairs[b] in Elems(osm);
      var j :| 0 <= j < |osm| && osm[j] == c.pairs[b];
    }
    forall o | o in c.osmLeft ensures o < |arena| {
      var j :| 0 <= j < |osm| && osm[j] == o;
    }
  }

  /**
    updateExistingBuilding without its side effects: pair the nodes, build the new node
    list and the node creations, then the ChangeNodes, moves, deletions and tag edits in
    that order. Err is the crash of the greedy fallback on an exhausted OSM node set.
   */
  method PlanUpdate(arena: Arena, m: Metric, bag: Way, osm: Way, sol: Option<seq<nat>>)
    returns (r: Result<Edits>, fellBack: bool)
    requires ValidIds(arena, bag.nodes) && ValidIds(arena, osm.nodes)
    requires ValidSolution(sol, Max(|bag.nodes|, |osm.nodes|))
    ensures fellBack <==> UseSlow(|bag.nodes|, |osm.nodes|) && sol.None?
    ensures r.Err? ==> GreedyCrash(arena, m, bag.nodes, Initial(bag.nodes, osm.nodes))
    ensures r.Err? ==> |Elems(osm.nodes)| < |Elems(bag.nodes)|
    ensures UseSlow(|bag.nodes|, |osm.nodes|) && sol.Some? ==> r.Ok?
    ensures r.Ok? ==> UpdateSpec(arena, m, bag, osm, sol, r.value)
  {
    var pairing;
    pairing, fellBack := CurrentPairing(arena, m, bag.nodes, osm.nodes, sol);
    if pairing.Err? {
      return Err(pairing.error), fellBack;
    }
    var c := pairing.value;
    CurrentPairsAdmissible(arena, m, bag.nodes, osm.nodes, sol, c);
    PairsInArena(arena, bag.nodes, osm.nodes, c);
    var resultNodes, createCommands := PlanNodes(arena, bag.nodes, c.pairs);
    var commands, upToDate, moved, inOtherWays, tagged, removed, tagNotes :=
      PlanCommands(arena, m, osm.nodes, bag.tags, osm.tags, c.pairs, c.osmLeft, resultNodes);
    DeletedNotUsed(arena, bag.nodes, osm.nodes, c, resultNodes, createCommands, commands);
    r := Ok(Edits(c, resultNodes, createCommands, commands, upToDate, moved, inOtherWays, tagged, removed, tagNotes));
  }

  /** The new node list and the creation of its new nodes. */
  method PlanNodes(arena: Arena, bag: seq<NodeId>, pairs: map<NodeId, NodeId>)
    returns (resultNodes: seq<NodeId>, createCommands: seq<Command>)
    requires ValidIds(arena, bag)
    requires forall b :: b in pairs ==> pairs[b] < |arena|
    ensures NodeListSpec(arena, bag, pairs, resultNodes, createCommands)
  {
    var nodesToAdd;
    resultNodes, nodesToAdd := BuildResultNodes(arena, bag, pairs);
    createCommands := [];
    if nodesToAdd != map[] {
      createCommands := CreateNodeCommands(nodesToAdd);
    }
    forall i, j | 0 <= i < j < |createCommands| ensures createCommands[i].id != createCommands[j].id {
      assert createCommands[i] in createCommands && createCommands[j] in createCommands;
    }
  }

  /**
    The commands of an update in their order: ChangeNodes when the node list differs, the
    moves, the deletions, then the tag edits.
   */
  method PlanCommands(arena: Arena, m: Metric, osm: seq<NodeId>, bagTags: TagMap, osmTags: TagMap,
                      pairs: map<NodeId, NodeId>, osmLeft: set<NodeId>, resultNodes: seq<NodeId>)
    returns (commands: seq<Command>, upToDate: nat, moved: nat, inOtherWays: nat, tagged: nat, removed: nat,
             tagNotes: seq<string>)
    requires forall b :: b in pairs ==> b < |arena|
    requires Injective(pairs)
    requires ValidIdSet(arena, osmLeft)
    ensures ChangeSpec(osm, resultNodes, commands)
    ensures MoveSpec(arena, pairs, UpToDateTest(arena, m), commands, upToDate, moved)
    ensures DeleteSpec(arena, osmLeft, commands, inOtherWays, tagged, removed)
    ensures TagSpec(bagTags, osmTags, commands)
    ensures TagNotesSpec(osmTags, commands, tagNotes)
  {
    var change: seq<Command> := [];
    if osm != resultNodes {
      change := [ChangeNodes(resultNodes)];
    }
    var isUpToDate := UpToDateTest(arena, m);
    var moves;
    moves, upToDate, moved := PlanMoves(arena, pairs, isUpToDate);
    MovedExactly(arena, pairs, isUpToDate, moves);
    var deletes;
    deletes, inOtherWays, tagged, removed := PlanDeletions(arena, osmLeft);
    var tagCommands;
    tagCommands, tagNotes := TagUpdates(bagTags, osmTags);
    commands := change + moves + deletes + tagCommands;
    MovesHold(arena, pairs, isUpToDate, change, moves, deletes, tagCommands, upToDate, moved);
    ChangeHolds(osm, resultNodes, change, moves, deletes, tagCommands);
    DeletesHold(arena, osmLeft, change, moves, deletes, tagCommands, inOtherWays, tagged, removed);
    TagsHold(bagTags, osmTags, change, moves, deletes, tagCommands, tagNotes);
  }

  lemma MovesHold(arena: Arena, pairs: map<NodeId, NodeId>, isUpToDate: (NodeId, NodeId) -> bool,
                  change: seq<Command>, moves: seq<Command>, deletes: seq<Command>, tagCommands: seq<Command>,
                  upToDate: nat, moved: nat)
    requires forall b :: b in pairs ==> b < |arena|
    requires forall b :: b in pairs ==> (Move(pairs[b], arena[b].coor) in moves <==> !isUpToDate(b, pairs[b]))
    requires forall x :: x in moves ==>
               exists b :: b in pairs && !isUpToDate(b, pairs[b]) && x == Move(pairs[b], arena[b].coor)
    requires forall x :: x in change ==> x.ChangeNodes?
    requires forall x :: x in deletes ==> x.Delete?
    requires DistinctSetTags(tagCommands)
    requires upToDate == |Settled(pairs, isUpToDate, pairs.Keys)|
    requires moved == |Stale(pairs, isUpToDate, pairs.Keys)|
    requires upToDate + moved == |pairs.Keys|
    ensures MoveSpec(arena, pairs, isUpToDate, change + moves + deletes + tagCommands, upToDate, moved)
    ensures forall x :: x in moves ==> x.Move?
  {
    var commands := change + moves + deletes + tagCommands;
    forall x | x in commands && x.Move? ensures exists b :: b in pairs && x == Move(pairs[b], arena[b].coor) {
      assert x in moves;
      var b :| b in pairs && !isUpToDate(b, pairs[b]) && x == Move(pairs[b], arena[b].coor);
    }
  }

  lemma ChangeHolds(osm: seq<NodeId>, resultNodes: seq<NodeId>, change: seq<Command>, moves: seq<Command>,
                    deletes: seq<Command>, tagCommands: seq<Command>)
    requires change == (if osm != resultNodes then [ChangeNodes(resultNodes)] else [])
    requires forall x :: x in moves ==> x.Move?
    requires forall x :: x in deletes ==> x.Delete?
    requires DistinctSetTags(tagCommands)
    ensures ChangeSpec(osm, resultNodes, change + moves + deletes + tagCommands)
  {
  }

  lemma DeletesHold(arena: Arena, osmLeft: set<NodeId>, change: seq<Command>, moves: seq<Command>,
                    deletes: seq<Command>, tagCommands: seq<Command>, inOtherWays: nat, tagged: nat, removed: nat)
    requires ValidIdSet(arena, osmLeft)
    requires inOtherWays + tagged + removed == |osmLeft|
    requires inOtherWays == |KeptInOtherWays(arena, osmLeft)|
    requires tagged == |KeptTagged(arena, osmLeft)|
    requires forall o :: o in osmLeft ==> (Delete(o) in deletes <==> Deletable(arena[o]))
    requires forall x :: x in deletes ==> x.Delete? && x.id in osmLeft && Deletable(arena[x.id])
    requires forall x :: x in change ==> x.ChangeNodes?
    requires forall x :: x in moves ==> x.Move?
    requires DistinctSetTags(tagCommands)
    ensures DeleteSpec(arena, osmLeft, change + moves + deletes + tagCommands, inOtherWays, tagged, removed)
  {
  }

  lemma TagsHold(bagTags: TagMap, osmTags: TagMap, change: seq<Command>, moves: seq<Command>,
                 deletes: seq<Command>, tagCommands: seq<Command>, tagNotes: seq<string>)
    requires IsTagPlan(bagTags, osmTags, tagCommands)
    requires |tagNotes| == |tagCommands|
    requires forall i :: 0 <= i < |tagCommands| ==>
               tagNotes[i] == TagNote(osmTags, tagCommands[i].key, tagCommands[i].value)
    requires forall x :: x in change ==> x.ChangeNodes?
    requires forall x :: x in moves ==> x.Move?
    requires forall x :: x in deletes ==> x.Delete?
    ensures TagSpec(bagTags, osmTags, change + moves + deletes + tagCommands)
    ensures TagNotesSpec(osmTags, change + moves + deletes + tagCommands, tagNotes)
  {
    var commands := change + moves + deletes + tagCommands;
    var offset := |change + moves + deletes|;
    forall i | 0 <= i < |tagNotes|
      ensures commands[|commands| - |tagNotes| + i] == tagCommands[i]
    {
    }
  }

  lemma DeletedNotUsed(arena: Arena, bag: seq<NodeId>, osm: seq<NodeId>, c: Correspondence,
                       resultNodes: seq<NodeId>, createCommands: seq<Command>, commands: seq<Command>)
    requires ValidIds(arena, bag) && ValidIds(arena, osm)
    requires IsCorrespondence(bag, osm, c)
    requires NodeListSpec(arena, bag, c.pairs, resultNodes, createCommands)
    requires forall x :: x in commands && x.Delete? ==> x.id in c.osmLeft
    ensures KeepsUsedNodes(resultNodes, commands)
  {
    PairsInArena(arena, bag, osm, c);
    forall x | x in commands && x.Delete? ensures x.id !in resultNodes {
      forall i | 0 <= i < |resultNodes| ensures resultNodes[i] != x.id {
        if bag[i] in c.pairs {
          assert resultNodes[i] in c.pairs.Values;
        }
      }
    }
  }

  // ---- Creating a new building ----

  /** The note announcing an import; the count includes the repeated closing node. */
  function ImportedNote(n: nat): string {
    "New BAG building imported with " + NatToString(n) + " nodes"
  }

  function MultipleOsmMessage(names: seq<string>): string {
    "Found multiple OSM ways: " + Join(names, ", ")
  }

  /** The node list of a new way over n BAG nodes: n - 1 fresh nodes from base, then the first again. */
  function NewWayNodes(base: nat, n: nat): (ws: seq<NodeId>)
    requires n >= 2
  {
    seq(n - 1, i => base + i) + [base]
  }

  /**
    The way+nodes group of a create: a new node at the coordinate of each BAG node but the
    last, then the new way.
   */
  ghost predicate IsNewBuildingGroup(arena: Arena, bag: seq<NodeId>, g: seq<Command>)
    requires ValidIds(arena, bag) && |bag| >= 2
  {
    && |g| == |bag|
    && (forall i :: 0 <= i < |bag| - 1 ==> g[i] == AddNode(|arena| + i, arena[bag[i]].coor))
    && g[|bag| - 1] == AddWay(NewWayNodes(|arena|, |bag|))
  }

  /** The tags group of a create: every BAG tag except the "|ODS" ones, once each. */
  ghost predicate IsCopyTagGroup(bagTags: TagMap, g: seq<Command>) {
    && DistinctSetTags(g)
    && (forall k, v :: SetTag(k, v) in g <==> k in bagTags && !IsInformational(k) && v == bagTags[k])
  }

  /**
    A new building follows the closed BAG way: its way is closed, every position carries a
    node created at that BAG node's coordinate, and its nodes are fresh and distinct but for
    the closing repetition.
   */
  lemma {:induction false} NewBuildingShape(arena: Arena, bag: seq<NodeId>, g: seq<Command>)
    requires ValidIds(arena, bag) && IsClosed(bag)
    requires IsNewBuildingGroup(arena, bag, g)
    ensures g[|g| - 1].AddWay?
    ensures var ws := g[|g| - 1].nodes;
      && |ws| == |bag| && ws[0] == ws[|ws| - 1]
      && (forall i :: 0 <= i < |bag| ==> ws[i] >= |arena| && AddNode(ws[i], arena[bag[i]].coor) in g)
      && (forall i, j :: 0 <= i < j < |bag| - 1 ==> ws[i] != ws[j])
  {
    var ws := g[|g| - 1].nodes;
    assert ws == NewWayNodes(|arena|, |bag|);
    forall i | 0 <= i < |bag| ensures ws[i] >= |arena| && AddNode(ws[i], arena[bag[i]].coor) in g {
      if i < |bag| - 1 {
        assert g[i] == AddNode(ws[i], arena[bag[i]].coor);
      } else {
        assert g[0] == AddNode(ws[i], arena[bag[i]].coor);
      }
    }
  }

  /**
    What an import records: the way+nodes group and then the tags group on undo/redo, and
    the import note followed by one note per copied tag.
   */
  ghost predicate NewBuildingRecorded(arena: Arena, bagWay: Way, h0: seq<seq<Command>>, h: seq<seq<Command>>,
                                      n0: seq<string>, n: seq<string>)
    requires ValidIds(arena, bagWay.nodes) && IsClosed(bagWay.nodes)
  {
    && |h| == |h0| + 2 && h[..|h0|] == h0
    && IsNewBuildingGroup(arena, bagWay.nodes, h[|h0|])
    && IsCopyTagGroup(bagWay.tags, h[|h0| + 1])
    && var tags := h[|h0| + 1];
       && |n| == |n0| + 1 + |tags| && n[..|n0|] == n0
       && n[|n0|] == ImportedNote(|bagWay.nodes|)
       && (forall i :: 0 <= i < |tags| ==> n[|n0| + 1 + i] == AddedNote(tags[i].key, tags[i].value))
  }

  /**
    The outcome of a run once the clicked BAG building is known: without a single OSM match
    the import is recorded and the run crashes (several matches having failed the run
    first); with one, it becomes the osmWay field and a completed update has added the
    groups of a plan meeting UpdateSpec.
   */
  ghost predicate UpdatedOrCreated(arena: Arena, m: Metric, bagWay: Way, lookup: OsmLookup,
                                   solve: (seq<NodeId>, seq<NodeId>) -> Option<seq<nat>>, r: Result<bool>,
                                   h0: seq<seq<Command>>, h: seq<seq<Command>>, n0: seq<string>, n: seq<string>,
                                   shown0: seq<Notification>, shown: seq<Notification>, osmWay: Option<Way>)
    requires ValidIds(arena, bagWay.nodes) && IsClosed(bagWay.nodes)
  {
    && (!lookup.Match? ==>
          && r == Err(NullOsmWay) && osmWay.None?
          && NewBuildingRecorded(arena, bagWay, h0, h, n0, n))
    && (lookup.NoMatch? ==> shown == shown0)
    && (lookup.Multiple? ==> shown == shown0 + [Notification(MultipleOsmMessage(lookup.names), Error)])
    && (lookup.Match? ==> osmWay == Some(lookup.c.way))
    && (lookup.Match? && r.Err? ==> GreedyCrash(arena, m, bagWay.nodes, Initial(bagWay.nodes, lookup.c.way.nodes)))
    && (lookup.Match? && r == Ok(true) ==>
          exists e :: UpdateSpec(arena, m, bagWay, lookup.c.way, solve(bagWay.nodes, lookup.c.way.nodes), e)
                      && h == h0 + Groups(e))
  }

  // ---- The tool ----

  /**
    A run of the tool: its result summary, the OSM building its search found, and the
    command groups it adds to undo/redo.
   */
  class BuildingUpdate {
    const summary: ResultSummary
    /** The osmWay field: the single OSM match, None (null) until the search finds one. */
    var osmWay: Option<Way>
    var history: seq<seq<Command>>

    constructor ()
      ensures fresh(summary)
      ensures summary.style == Current && !summary.hasFailed
      ensures summary.notes == [] && summary.warnings == [] && summary.shown == []
      ensures osmWay == None && history == []
    {
      summary := new ResultSummary(Current);
      osmWay := None;
      history := [];
    }

    /** Adds the count note when the count is not zero. */
    method NoteCount(n: nat, singular: string, plural: string)
      modifies summary
      ensures summary.notes == old(summary.notes) + CountNote(n, singular, plural)
      ensures summary.hasFailed == old(summary.hasFailed) && summary.shown == old(summary.shown)
    {
      if n > 0 {
        summary.AddNote(CountMessage(n, singular, plural));
      }
    }

    /** Adds the count notes of an update. */
    method NoteCounts(e: Edits)
      modifies summary
      ensures summary.notes == old(summary.notes) + Counts(e)
      ensures summary.hasFailed == old(summary.hasFailed) && summary.shown == old(summary.shown)
    {
      ghost var reported: seq<string> := [];
      assert summary.notes == old(summary.notes) + reported;
      NoteCount(e.upToDate, UpToDateOne, UpToDateMany);
      reported := Noted(old(summary.notes), reported, CountNote(e.upToDate, UpToDateOne, UpToDateMany));
      NoteCount(e.moved, MovedOne, MovedMany);
      reported := Noted(old(summary.notes), reported, CountNote(e.moved, MovedOne, MovedMany));
      NoteCount(|e.pairing.bagLeft|, CreatedOne, CreatedMany);
      reported := Noted(old(summary.notes), reported, CountNote(|e.pairing.bagLeft|, CreatedOne, CreatedMany));
      NoteCount(e.inOtherWays, SharedOne, SharedMany);
      reported := Noted(old(summary.notes), reported,
        CountNote(e.inOtherWays, SharedOne, SharedMany));
      NoteCount(e.tagged, TaggedOne, TaggedMany);
      reported := Noted(old(summary.notes), reported,
        CountNote(e.tagged, TaggedOne, TaggedMany));
      NoteCount(e.removed, RemovedOne, RemovedMany);
      reported := Noted(old(summary.notes), reported, CountNote(e.removed, RemovedOne, RemovedMany));
      assert reported == Counts(e);
    }

    /** Adds the notes in order. */
    method AddNotes(notes: seq<string>)
      modifies summary
      ensures summary.notes == old(summary.notes) + notes
      ensures summary.hasFailed == old(summary.hasFailed) && summary.shown == old(summary.shown)
    {
      for i := 0 to |notes|
        invariant summary.notes == old(summary.notes) + notes[..i]
        invariant summary.hasFailed == old(summary.hasFailed) && summary.shown == old(summary.shown)
      {
        summary.AddNote(notes[i]);
        assert notes[..i + 1] == notes[..i] + [notes[i]];
      }
    }

    /**
      confirmBuildingNotes: a building with a non-empty note, note:bag or fixme is only
      updated when the user confirms the dialog (`confirm`); a cancel fails the run.
     */
    method ConfirmBuildingNotes(osmTags: TagMap, confirm: bool) returns (ok: bool)
      modifies summary
      ensures ok <==> NoteTags(osmTags) == map[] || confirm
      ensures ok ==> summary.shown == old(summary.shown) && summary.hasFailed == old(summary.hasFailed)
      ensures !ok ==> summary.hasFailed && summary.shown == old(summary.shown) + [Notification(CanceledMessage, Error)]
      ensures summary.notes == old(summary.notes)
    {
      if NoteTags(osmTags) == map[] {
        return true;
      }
      if !confirm {
        summary.Failed(CanceledMessage);
        return false;
      }
      return true;
    }

    /**
      updateExistingBuilding: after the notes are confirmed, plan the edits, add the node
      creations and then the update commands to undo/redo as two groups (an empty group is
      not added), and note what was done. Err is a crash of the fallback pairing, after
      which nothing is added. `target` is the way held by the osmWay field.
     */
    method UpdateExistingBuilding(arena: Arena, m: Metric, bagWay: Way, target: Way, sol: Option<seq<nat>>,
                                  confirm: bool)
      returns (r: Result<bool>, ghost fellBack: bool, ghost plan: Edits)
      requires ValidIds(arena, bagWay.nodes) && ValidIds(arena, target.nodes)
      requires ValidSolution(sol, Max(|bagWay.nodes|, |target.nodes|))
      modifies this, summary
      ensures NoteTags(target.tags) != map[] && !confirm ==>
                r == Ok(false) && history == old(history) && summary.notes == old(summary.notes)
                && summary.hasFailed && summary.shown == old(summary.shown) + [Notification(CanceledMessage, Error)]
      ensures NoteTags(target.tags) == map[] || confirm ==>
                && summary.hasFailed == old(summary.hasFailed) && summary.shown == old(summary.shown)
                && (fellBack <==> UseSlow(|bagWay.nodes|, |target.nodes|) && sol.None?)
                && r != Ok(false)
                && (r.Err? ==> GreedyCrash(arena, m, bagWay.nodes, Initial(bagWay.nodes, target.nodes))
                               && |Elems(target.nodes)| < |Elems(bagWay.nodes)| && history == old(history)
                               && summary.notes == old(summary.notes) + (if fellBack then [FallbackNote] else []))
                && (r.Ok? ==> UpdateSpec(arena, m, bagWay, target, sol, plan)
                              && history == old(history) + Groups(plan)
                              && summary.notes == old(summary.notes) + Report(fellBack, plan))
      ensures osmWay == old(osmWay)
    {
      fellBack, plan := false, Edits(Correspondence(map[], {}, {}), [], [], [], 0, 0, 0, 0, 0, []);
      var ok := ConfirmBuildingNotes(target.tags, confirm);
      if !ok {
        return Ok(false), fellBack, plan;
      }
      var planned, fb := PlanUpdate(arena, m, bagWay, target, sol);
      fellBack := fb;
      if planned.Err? {
        if fb {
          summary.AddNote(FallbackNote);
        }
        return Err(planned.error), fellBack, plan;
      }
      plan := planned.value;
      RecordUpdate(fb, planned.value);
      r := Ok(true);
    }

    /**
      The side effects of a planned update in their order: the fallback note, the node
      creations group, the count notes, the tag notes, then the update group, or the
      "already up-to-date" note when there is nothing to update.
     */
    method RecordUpdate(fellBack: bool, e: Edits)
      modifies this, summary
      ensures history == old(history) + Groups(e)
      ensures summary.notes == old(summary.notes) + Report(fellBack, e)
      ensures osmWay == old(osmWay)
      ensures summary.hasFailed == old(summary.hasFailed) && summary.shown == old(summary.shown)
    {
      if fellBack {
        summary.AddNote(FallbackNote);
      }
      ghost var reported := if fellBack then [FallbackNote] else [];
      assert summary.notes == old(summary.notes) + reported;
      ghost var groups: seq<seq<Command>> := [];
      if e.createCommands != [] {
        history := history + [e.createCommands];
        groups := [e.createCommands];
      }
      assert history == old(history) + groups;
      NoteCounts(e);
      reported := Noted(old(summary.notes), reported, Counts(e));
      AddNotes(e.tagNotes);
      reported := Noted(old(summary.notes), reported, e.tagNotes);
      if e.commands == [] {
        summary.AddNote(UpToDateNote);
        reported := Noted(old(summary.notes), reported, [UpToDateNote]);
      } else {
        history := history + [e.commands];
        groups := groups + [e.commands];
        assert history == old(history) + groups;
        reported := Noted(old(summary.notes), reported, []);
      }
      assert reported == Report(fellBack, e);
      assert groups == Groups(e);
    }

    /**
      fixDuplicateNodes: collects the node list of the osmWay field, which throws while the
      field is null. What JOSM's duplicate-node test then fixes is not modelled.
     */
    method FixDuplicateNodes() returns (r: Result<()>)
      ensures r.Err? <==> osmWay.None?
      ensures r.Err? ==> r.error == NullOsmWay
    {
      if osmWay.None? {
        return Err(NullOsmWay);
      }
      r := Ok(());
    }

    /**
      The recording part of createNewBuilding: add the new nodes and the closed way as one
      group, note the import, then add every BAG tag but the "|ODS" ones as a second group,
      noting each. `created` is the new way.
     */
    method RecordNewBuilding(arena: Arena, bagWay: Way) returns (created: Way)
      requires ValidIds(arena, bagWay.nodes) && IsClosed(bagWay.nodes)
      modifies this, summary
      ensures NewBuildingRecorded(arena, bagWay, old(history), history, old(summary.notes), summary.notes)
      ensures created == Way(NewWayNodes(|arena|, |bagWay.nodes|), CopiedTags(bagWay.tags))
      ensures history[|old(history)|][|bagWay.nodes| - 1] == AddWay(created.nodes)
      ensures ApplyTags(map[], history[|old(history)| + 1]) == created.tags
      ensures osmWay == old(osmWay)
      ensures summary.hasFailed == old(summary.hasFailed) && summary.shown == old(summary.shown)
    {
      var bag := bagWay.nodes;
      var wayNodes: seq<NodeId> := [];
      var group: seq<Command> := [];
      for i := 0 to |bag| - 1
        invariant wayNodes == seq(i, j => |arena| + j)
        invariant |group| == i
        invariant forall j :: 0 <= j < i ==> group[j] == AddNode(|arena| + j, arena[bag[j]].coor)
      {
        wayNodes := wayNodes + [|arena| + i];
        group := group + [AddNode(|arena| + i, arena[bag[i]].coor)];
      }
      wayNodes := wayNodes + [wayNodes[0]];
      history := history + [group + [AddWay(wayNodes)]];
      summary.AddNote(ImportedNote(|bag|));
      var tagCommands, tagNotes := CopyTags(bagWay.tags);
      AddNotes(tagNotes);
      history := history + [tagCommands];
      CopyTagsEffect(bagWay.tags, tagCommands);
      created := Way(wayNodes, CopiedTags(bagWay.tags));
    }

    /**
      createNewBuilding as written: record the import, then fix duplicate nodes. The new way
      lives only in a local variable, so on this path (no single OSM match) the osmWay field
      is still null and the fix throws after both groups and all notes were added.
     */
    method CreateNewBuilding(arena: Arena, bagWay: Way) returns (r: Result<bool>)
      requires ValidIds(arena, bagWay.nodes) && IsClosed(bagWay.nodes)
      modifies this, summary
      ensures NewBuildingRecorded(arena, bagWay, old(history), history, old(summary.notes), summary.notes)
      ensures r == (if osmWay.None? then Err(NullOsmWay) else Ok(true))
      ensures osmWay == old(osmWay)
      ensures summary.hasFailed == old(summary.hasFailed) && summary.shown == old(summary.shown)
    {
      var created := RecordNewBuilding(arena, bagWay);
      var fixed := FixDuplicateNodes();
      if fixed.Err? {
        return Err(fixed.error);
      }
      r := Ok(true);
    }

    /**
      createNewBuilding as evidently intended: the duplicate-node fix works on the way just
      created, so the import always completes and the run goes on to show its summary.
     */
    method CreateNewBuildingIntended(arena: Arena, bagWay: Way) returns (r: Result<bool>)
      requires ValidIds(arena, bagWay.nodes) && IsClosed(bagWay.nodes)
      modifies this, summary
      ensures NewBuildingRecorded(arena, bagWay, old(history), history, old(summary.notes), summary.notes)
      ensures r == Ok(true)
      ensures osmWay == Some(Way(NewWayNodes(|arena|, |bagWay.nodes|), CopiedTags(bagWay.tags)))
      ensures summary.hasFailed == old(summary.hasFailed) && summary.shown == old(summary.shown)
    {
      var created := RecordNewBuilding(arena, bagWay);
      osmWay := Some(created);
      var fixed := FixDuplicateNodes();
      assert fixed.Ok?;
      r := Ok(true);
    }

    /**
      executeInternal: check the layers, find the clicked BAG building and its OSM
      counterpart, then update it; without a single counterpart the building is imported
      anew (also after multiple counterparts failed the run), and that import crashes in
      fixDuplicateNodes. `solve` stands for the assignment solver on the cost matrix of a
      BAG and an OSM node list (None: it threw).
     */
    method ExecuteInternal(bagLayer: bool, osmLayer: bool, bagCands: seq<Candidate>, osmCands: seq<Candidate>,
                           inside: seq<NodeId> -> bool, arena: Arena, m: Metric,
                           solve: (seq<NodeId>, seq<NodeId>) -> Option<seq<nat>>, confirm: bool)
      returns (r: Result<bool>)
      requires forall c :: c in bagCands ==> ValidIds(arena, c.way.nodes) && (c.isArea ==> IsClosed(c.way.nodes))
      requires forall c :: c in osmCands ==> ValidIds(arena, c.way.nodes)
      requires forall b, o :: ValidSolution(solve(b, o), Max(|b|, |o|))
      requires !summary.hasFailed && osmWay.None?
      modifies this, summary
      ensures !bagLayer ==>
                r == Ok(false) && history == old(history) && summary.shown == old(summary.shown) + [Notification(NoBagLayer, Error)]
      ensures bagLayer && !osmLayer ==>
                r == Ok(false) && history == old(history) && summary.shown == old(summary.shown) + [Notification(NoOsmLayer, Error)]
      ensures bagLayer && osmLayer && FindBagWay(bagCands, inside).Err? ==>
                r == Ok(false) && history == old(history)
                && summary.shown == old(summary.shown) + [Notification(FindBagWay(bagCands, inside).error, Error)]
      ensures bagLayer && osmLayer && FindBagWay(bagCands, inside).Ok? ==>
                var bagWay := FindBagWay(bagCands, inside).value.way;
                var lookup := FindOsmWay(osmCands, RefOf(bagWay));
                UpdatedOrCreated(arena, m, bagWay, lookup, solve, r, old(history), history,
                                 old(summary.notes), summary.notes, old(summary.shown), summary.shown, osmWay)
      ensures !summary.hasFailed ==> summary.shown == old(summary.shown)
      ensures summary.hasFailed ==> |summary.shown| == |old(summary.shown)| + 1
    {
      if !bagLayer {
        summary.Failed(NoBagLayer);
        return Ok(false);
      }
      if !osmLayer {
        summary.Failed(NoOsmLayer);
        return Ok(false);
      }
      var found := FindBagWay(bagCands, inside);
      if found.Err? {
        summary.Failed(found.error);
        return Ok(false);
      }
      var bagWay := found.value.way;
      var lookup := FindOsmWay(osmCands, RefOf(bagWay));
      r := UpdateOrCreate(arena, m, bagWay, lookup, solve, confirm);
    }

    /**
      The second half of executeInternal, given the OSM search's outcome for the clicked BAG
      building: several matches fail the run, no single match imports the building, and a
      single match becomes the osmWay field and is updated.
     */
    method UpdateOrCreate(arena: Arena, m: Metric, bagWay: Way, lookup: OsmLookup,
                          solve: (seq<NodeId>, seq<NodeId>) -> Option<seq<nat>>, confirm: bool)
      returns (r: Result<bool>)
      requires ValidIds(arena, bagWay.nodes) && IsClosed(bagWay.nodes)
      requires lookup.Match? ==> ValidIds(arena, lookup.c.way.nodes)
      requires forall b, o :: ValidSolution(solve(b, o), Max(|b|, |o|))
      requires !summary.hasFailed && osmWay.None?
      modifies this, summary
      ensures UpdatedOrCreated(arena, m, bagWay, lookup, solve, r, old(history), history,
                               old(summary.notes), summary.notes, old(summary.shown), summary.shown, osmWay)
      ensures !summary.hasFailed ==> summary.shown == old(summary.shown)
      ensures summary.hasFailed ==> |summary.shown| == |old(summary.shown)| + 1
    {
      if lookup.Match? {
        osmWay := Some(lookup.c.way);
        var target := lookup.c.way;
        ghost var fellBack, plan;
        r, fellBack, plan := UpdateExistingBuilding(arena, m, bagWay, target, solve(bagWay.nodes, target.nodes), confirm);
        if r == Ok(true) {
          assert UpdateSpec(arena, m, bagWay, target, solve(bagWay.nodes, target.nodes), plan);
        }
        return;
      }
      if lookup.Multiple? {
        summary.Failed(MultipleOsmMessage(lookup.names));
      }
      r := CreateNewBuilding(arena, bagWay);
    }

    /**
      execute: run, then show the summary; a crash in the run propagates out of execute (the
      click handler only logs it), so the summary is not shown then.
     */
    method Execute(bagLayer: bool, osmLayer: bool, bagCands: seq<Candidate>, osmCands: seq<Candidate>,
                   inside: seq<NodeId> -> bool, arena: Arena, m: Metric,
                   solve: (seq<NodeId>, seq<NodeId>) -> Option<seq<nat>>, confirm: bool)
      returns (r: Result<bool>)
      requires forall c :: c in bagCands ==> ValidIds(arena, c.way.nodes) && (c.isArea ==> IsClosed(c.way.nodes))
      requires forall c :: c in osmCands ==> ValidIds(arena, c.way.nodes)
      requires forall b, o :: ValidSolution(solve(b, o), Max(|b|, |o|))
      requires !summary.hasFailed && osmWay.None?
      modifies this, summary
      ensures r.Err? && !summary.hasFailed ==> summary.shown == old(summary.shown)
      ensures r.Err? && summary.hasFailed ==> |summary.shown| == |old(summary.shown)| + 1
      ensures r.Ok? ==> |summary.shown| == |old(summary.shown)| + 1
      ensures r.Ok? && !summary.hasFailed ==>
                summary.shown == old(summary.shown) + [Compose(summary.style, summary.warnings, summary.notes)]
      ensures bagLayer && osmLayer && FindBagWay(bagCands, inside).Ok? &&
              FindOsmWay(osmCands, RefOf(FindBagWay(bagCands, inside).value.way)).NoMatch? ==>
                r == Err(NullOsmWay) && |history| == |old(history)| + 2 && summary.shown == old(summary.shown)
      ensures bagLayer && osmLayer && FindBagWay(bagCands, inside).Ok? ==>
                var bagWay := FindBagWay(bagCands, inside).value.way;
                var lookup := FindOsmWay(osmCands, RefOf(bagWay));
                lookup.Match? && r.Err? ==> GreedyCrash(arena, m, bagWay.nodes, Initial(bagWay.nodes, lookup.c.way.nodes))
    {
      r := ExecuteInternal(bagLayer, osmLayer, bagCands, osmCands, inside, arena, m, solve, confirm);
      if r.Ok? {
        summary.SendNotification();
      }
    }
  }

  /** Appending the notes `more` after `reported`, as seen from the notes `base` before the update. */
  ghost function Noted(base: seq<string>, reported: seq<string>, more: seq<string>): (r: seq<string>)
    ensures r == reported + more
    ensures base + r == base + reported + more
  {
    reported + more
  }

  /** The undo/redo groups of an update: the node creations, then the update, each only when not empty. */
  function Groups(e: Edits): (groups: seq<seq<Command>>)
    ensures forall g :: g in groups ==> g != []
    ensures |groups| <= 2
  {
    (if e.createCommands != [] then [e.createCommands] else [])
    + (if e.commands != [] then [e.commands] else [])
  }
}
