# BAG Quick building reconciliation, in Dafny

BAG Quick is a JOSM plugin. A user clicks a building on the Dutch BAG (Basisregistratie
Adressen en Gebouwen) layer, and the plugin then does one of two things:

- it brings the OSM building with the same `ref:bag` in line with the BAG geometry and
  tags;
- or, when there is no such OSM building, it imports the BAG building as a new OSM way.

This project models that reconciliation in three revisions of the source:

- the current `BuildingUpdate`;
- the older `BuildingUpdate`;
- the oldest `BagUpdateAction.doBagUpdate`.

It also models both revisions of `ResultSummary`, the object that collects the notes of a
run and composes its final notification.

The state of the data layers is an arena of nodes (`OsmData.Arena`), addressed by handle.
Each node has:

- a coordinate, as integers in OSM's fixed-point units;
- a tag map;
- the number of ways that list it.

A way is its node handles plus its tags. The edits that a run would hand to JOSM's
undo/redo stack are values of `OsmData.Command`. The classes keep the groups of commands
a run adds in a `history` field, and the notifications a run shows in a `shown` field.

The model is split into these modules:

| module | file | what it holds |
|---|---|---|
| `OsmData` | `osm_data.dfy` | Shared vocabulary. |
| `Pairing` | `pairing.dfy` | Node pairing: the cost matrix and the use of the assignment solver's answer, the greedy `findNearestNode` fallback, and each revision's ceilings. |
| `Synthesis` | `synthesis.dfy` | The new node list, node creation, moves and deletions. |
| `Tags` | `tags.dfy` | The tag rules: the current `computeTagUpdate` loop, the older `start_date` rule, and tag copying on create. |
| `Resolver` | `resolver.dfy` | The BAG and OSM way searches, and the note tags that need confirmation. |
| `Summary` | `result_summary.dfy` | `ResultSummary` and its rendering. |
| `Update` | `building_update.dfy` | The current revision's run. |
| `LegacyUpdate` | `legacy_update.dfy` | The older revision's run. |
| `OldestUpdate` | `oldest_update.dfy` | The oldest revision's run. |

Some parts of the source are not computed by the model. They are inputs instead:

- **The assignment solver.** Its answer `sol` is an input. `None` stands for the solver
  throwing.
- **Geodesy.** Distances come from `OsmData.Metric`, a record of input functions:
  - the great-circle distance, rounded down to whole centimetres;
  - the squared distance, which is used only for ranking;
  - `LatLon.distance`, rounded up to whole degrees;
  - `equalsEpsilon`.
- **The point-in-polygon test.** It is an input predicate.
- **The user's answer to the note confirmation dialog.** It is a boolean input.

Each update is built in two steps:

1. A method that changes nothing plans all of the update's edits. Its `ensures` states
   the revision's specification predicate (`UpdateSpec`, `LegacySpec` or `OldestSpec`).
2. A separate method records the plan's side effects on the class.

## Model

| member | source | states |
|---|---|---|
| OsmData.CountMessage | src/main/me/wiefferink/bagquick/BuildingUpdate.java:433 | A count note is the count's decimal rendering, then one space, then the chosen form. |
| OsmData.NatToStringRoundTrip | src/main/me/wiefferink/bagquick/BuildingUpdate.java:433 | The decimal rendering of a count reads back as that count. |
| OsmData.CountMessageRoundTrip | src/main/me/wiefferink/bagquick/BuildingUpdate.java:433 | A count note reads back as its count and the form trn chose for it, which is the singular one exactly when the count is one. |
| Pairing.Initial | src/main/me/wiefferink/bagquick/BuildingUpdate.java:281-291 | Before pairing, the map is empty and the left-over sets hold every node of their way. This is a correspondence. |
| Pairing.AddPairKeeps | src/main/me/wiefferink/bagquick/BuildingUpdate.java:331-340 | Pairing a BAG node and an OSM node that are both still left keeps the map injective. It removes exactly those two nodes from the left-over sets. |
| Pairing.InjectiveCard | src/main/me/wiefferink/bagquick/BuildingUpdate.java:338-340 | An injective pairing has as many distinct OSM nodes as BAG nodes. |
| Pairing.ExhaustedOsm | src/main/me/wiefferink/bagquick/BuildingUpdate.java:351-365 | The OSM nodes can run out while a BAG node is still unpaired only when the BAG way has more distinct nodes than the OSM way. |
| Pairing.MaxMove | src/main/me/wiefferink/bagquick/BuildingUpdate.java:312 | The ceiling is the tagged one (1 cm) exactly when the OSM node is tagged or belongs to another way. Otherwise it is 500 cm. |
| Pairing.GreedyWithinCeiling | src/main/me/wiefferink/bagquick/BuildingUpdate.java:541-543 | A pair the greedy fallback accepts is also within the exact path's ceiling. |
| Pairing.CurrentCell | src/main/me/wiefferink/bagquick/BuildingUpdate.java:298-321 | A cost cell is the sentinel exactly when it is a padding cell or its distance is not strictly below the OSM node's ceiling. |
| Pairing.LegacyCell | src/me/wiefferink/bagquick/BuildingUpdate.java:264-284 | An older cost cell is the sentinel exactly when it is a padding cell or its distance is greater than 1. |
| Pairing.FillCostMatrix | src/main/me/wiefferink/bagquick/BuildingUpdate.java:298-321 | The N×N matrix holds the cell function on the real rows and columns, and the sentinel everywhere else. |
| Pairing.PairFromAssignment | src/main/me/wiefferink/bagquick/BuildingUpdate.java:322-342 | The pairing read from the solver's answer is an injective correspondence. Every pair comes from an assigned row whose cell is not the sentinel. The first row wins: every such row is itself a pair, or a row before it that is a pair took its BAG or its OSM node (FromSolution). |
| Pairing.FromSolutionUnique | src/main/me/wiefferink/bagquick/BuildingUpdate.java:322-342 | The solver's answer fixes the pairing: two correspondences that both meet FromSolution are equal, so FromSolution admits exactly what the row-by-row loop forms. |
| Pairing.SolutionPairsAdmissible | src/main/me/wiefferink/bagquick/BuildingUpdate.java:322-342 | Every pair read from the solver's answer passes the admissibility test of the cost matrix it came from. |
| Pairing.FindNearestNode | src/main/me/wiefferink/bagquick/BuildingUpdate.java:519-546 | If the target is an option, the result is the target. Otherwise the result is the option nearest by squared distance when it is closer than 1 cm, and none when it is not. An empty option set is an error, and it is the only error. |
| Pairing.GreedyPairing | src/main/me/wiefferink/bagquick/BuildingUpdate.java:351-365 | The greedy loop keeps the earlier pairs and the correspondence, and every new pair is greedy-admissible. The result is reached by a trace of one visit per BAG position, in order. At each visit an already paired BAG node is skipped, and a BAG node still on the OSM side pairs with itself. Otherwise the node that no OSM node left at that moment beats by squared distance is paired when it is below 1 cm, and left alone when it is not. It crashes only when it reaches a BAG node still unpaired with no OSM node left (GreedyCrash), which implies that the BAG way has more distinct nodes. |
| Pairing.GreedyLeftOver | src/main/me/wiefferink/bagquick/BuildingUpdate.java:351-365 | After the greedy pass, a BAG node still left over is not itself an OSM node still left over. Some OSM node that no OSM node still left beats by squared distance is 1 cm or more away from it. |
| Pairing.CurrentPairing | src/main/me/wiefferink/bagquick/BuildingUpdate.java:293-365 | Below 25 nodes the pairing is the one read from the solver's answer with the ceiling test, first row winning. When the solver throws, or on larger ways, it is the greedy pass visit by visit, started from the untouched left-over sets. It falls back exactly when the solver throws. The exact path never crashes, and the greedy path crashes only as GreedyCrash says. |
| Pairing.CurrentPairsAdmissible | src/main/me/wiefferink/bagquick/BuildingUpdate.java:293-365 | Either path gives an injective correspondence whose pairs respect the ceiling of the path that made them. |
| Pairing.LegacyPairing | src/me/wiefferink/bagquick/BuildingUpdate.java:262-327 | Below 20 nodes the pairing is the one read from the solver's answer with the single 1-degree ceiling, first row winning. With more nodes, or when the solver throws, nothing is paired. The oldest revision (src/me/wiefferink/bagquick/BagUpdateAction.java:228-295) pairs the same way. |
| Pairing.LegacyPairsAdmissible | src/me/wiefferink/bagquick/BuildingUpdate.java:262-327 | The older pairing is an injective correspondence, and every pair is within the single ceiling. |
| Synthesis.BuildResultNodes | src/main/me/wiefferink/bagquick/BuildingUpdate.java:377-399 | There is one result node per BAG node, in order. Each is the paired OSM node, or else the one new node at that coordinate. Two unpaired positions share a node exactly when they share a coordinate. A closed BAG way gives a closed result. |
| Synthesis.CreateNodeCommands | src/main/me/wiefferink/bagquick/BuildingUpdate.java:402-409 | There is exactly one AddNode command for each new node, at its coordinate. |
| Synthesis.LegacyResultNodes | src/me/wiefferink/bagquick/BuildingUpdate.java:340-358 | There is one result node per BAG node. Each unpaired position gets its own new node, so no two unpaired positions share one. An unpaired closing node gives a result whose first and last nodes differ. The oldest revision (src/me/wiefferink/bagquick/BagUpdateAction.java:321-337) builds its result nodes the same way. |
| Synthesis.PlanMoves | src/main/me/wiefferink/bagquick/BuildingUpdate.java:420-440 | A pair is moved exactly when it is not up to date, each at most once. The up-to-date count is the number of pairs already in place, and the moved count is the number of pairs moved. |
| Synthesis.MovedExactly | src/main/me/wiefferink/bagquick/BuildingUpdate.java:420-431 | With an injective pairing, an OSM node's move is emitted if and only if its own pair is not up to date. |
| Synthesis.PlanDeletions | src/main/me/wiefferink/bagquick/BuildingUpdate.java:445-474 | A leftover node is deleted exactly when it is in no other way and untagged, each at most once. The kept-in-other-way, kept-tagged and removed counts partition the leftovers. |
| Tags.ComputeTagUpdate | src/main/me/wiefferink/bagquick/BuildingUpdate.java:743-768 | There is a change exactly when the BAG value is present, non-empty and different from the OSM value. The change sets the BAG value, and its note is "added" or "previously …". |
| Tags.TagUpdates | src/main/me/wiefferink/bagquick/BuildingUpdate.java:477-493 | The update emits one SetTag per key that the tag rule selects (not "\|ODS", no overwritten building, and a non-empty new value), and nothing else. Each SetTag comes with its note. |
| Tags.ApplyTagsEffect | src/main/me/wiefferink/bagquick/BuildingUpdate.java:489-492 | Running tag commands with distinct keys decides each key they set: an empty value removes the key, any other value sets it. Every other key is untouched. |
| Tags.TagPlanEffect | src/main/me/wiefferink/bagquick/BuildingUpdate.java:477-493 | After an update, the OSM tags are the old ones with the selected keys set to the BAG value. No tag is removed. |
| Tags.TagPlanConverges | src/main/me/wiefferink/bagquick/BuildingUpdate.java:477-493 | Running the tag rule again on the updated tags selects nothing. |
| Tags.BuildingKept | src/main/me/wiefferink/bagquick/BuildingUpdate.java:484-487 | An existing OSM building value survives an update unchanged. |
| Tags.StartDateUpdate | src/me/wiefferink/bagquick/BuildingUpdate.java:510-530 | There is a start_date edit exactly when the BAG start_date is present, non-empty and different from the OSM one. The edit sets the BAG value. The oldest revision's applyStartDate (src/me/wiefferink/bagquick/BagUpdateAction.java:458-479) decides the same way. |
| Tags.StartDateAgrees | src/me/wiefferink/bagquick/BuildingUpdate.java:510-530 | The older start_date rule is the current tag rule restricted to start_date. |
| Tags.CopiedTags | src/main/me/wiefferink/bagquick/BuildingUpdate.java:716-725 | A created way ends up with exactly the BAG tags outside "\|ODS" that have a non-empty value. |
| Tags.CopyTags | src/main/me/wiefferink/bagquick/BuildingUpdate.java:716-725 | A create emits one SetTag for every BAG tag outside "\|ODS", with distinct keys. Each comes with an "added" note. |
| Tags.CopyTagsEffect | src/me/wiefferink/bagquick/BuildingUpdate.java:481-491 | Running a create's tag commands on the new, untagged way gives exactly the copied tags. |
| Resolver.Filter | src/main/me/wiefferink/bagquick/BuildingUpdate.java:191-201 | A stream filter keeps exactly the candidates that pass it. |
| Resolver.FindBagWay | src/main/me/wiefferink/bagquick/BuildingUpdate.java:184-232 | Success means exactly one clicked building (area, building tag, bounding box, inside the polygon) that carries a non-empty ref:bag. Every other failure means several matches. The older search (src/me/wiefferink/bagquick/BuildingUpdate.java:157-205) has the same filters and the same three failures. |
| Resolver.FindBagWayOldest | src/me/wiefferink/bagquick/BagUpdateAction.java:496-531 | A way is found exactly when one area around the click carries building. There is no polygon test, and no message. |
| Resolver.ClassifyOsm | src/main/me/wiefferink/bagquick/BuildingUpdate.java:257-270 | No match, one match or several matches, with the names of the matches listed. |
| Resolver.FindOsmWay | src/main/me/wiefferink/bagquick/BuildingUpdate.java:239-271 | There is no match exactly when no candidate is an area around the click with the same known ref:bag. There is one match exactly when one candidate is, and it is that candidate. Otherwise the run fails with the names of all of them. Without a ref:bag nothing matches. |
| Resolver.FindOsmWayOldest | src/me/wiefferink/bagquick/BagUpdateAction.java:537-572 | The same three outcomes over the oldest filter, which compares ref:bag with bagRef or, when bagRef is null, keeps every area around the click. |
| Resolver.OsmSearchRevisionsAgree | src/me/wiefferink/bagquick/BagUpdateAction.java:551-571 | With a known ref:bag, the oldest OSM search and the later one give the same answer. |
| Resolver.OldestSearchWithoutRef | src/me/wiefferink/bagquick/BagUpdateAction.java:551-571 | Without a ref:bag, the oldest OSM search keeps every area around the click. |
| Resolver.NoteTags | src/main/me/wiefferink/bagquick/BuildingUpdate.java:628-657 | The tags that need confirmation are exactly the non-empty note, note:bag and fixme values. |
| Summary.Compose | src/main/me/wiefferink/bagquick/ResultSummary.java:46-86 | The message is a warning exactly when there are warnings. It is never an error. |
| Summary.BuildList | src/main/me/wiefferink/bagquick/ResultSummary.java:73-80 | The StringBuilder loop renders one `<ul>` holding one `<li>` per message. |
| Summary.ResultSummary.constructor | src/main/me/wiefferink/bagquick/ResultSummary.java:21-25 | A summary starts not failed, with no notes, no warnings and nothing shown. |
| Summary.ResultSummary.AddNote | src/main/me/wiefferink/bagquick/ResultSummary.java:27-29 | The note is appended, and nothing else changes. |
| Summary.ResultSummary.AddWarning | src/main/me/wiefferink/bagquick/ResultSummary.java:31-33 | The warning is appended to the notes. The warnings are unchanged. The older class (src/me/wiefferink/bagquick/ResultSummary.java:28-30) does the same. |
| Summary.ResultSummary.Failed | src/main/me/wiefferink/bagquick/ResultSummary.java:35-38 | The summary is marked failed, and its message is shown at once as an error. |
| Summary.ResultSummary.SendNotification | src/main/me/wiefferink/bagquick/ResultSummary.java:40-87 | A failed summary shows nothing more. Otherwise it shows exactly the composed notification once. The older rendering (src/me/wiefferink/bagquick/ResultSummary.java:37-86) is the same, except that it labels the note section ("Note: {0}", or "Notes:" and a list). |
| Summary.WarningsBeforeNotes | src/main/me/wiefferink/bagquick/ResultSummary.java:51-86 | The warning section comes before the note section, with one "<br />" between them. |
| Summary.NotesOnlyMessage | src/main/me/wiefferink/bagquick/ResultSummary.java:69-86 | Without warnings, the message is the note section alone and of kind information. One note is shown bare, or as "Note: …" in the older style. |
| Summary.HtmlListRoundTrip | src/main/me/wiefferink/bagquick/ResultSummary.java:73-80 | A list of markup-free messages reads back as exactly those messages, in order. |
| Update.Report | src/main/me/wiefferink/bagquick/BuildingUpdate.java:343-500 | The fallback note comes first when the solver threw. "Building is already up-to-date" comes last when there are no commands. |
| Update.NothingToDoExactly | src/main/me/wiefferink/bagquick/BuildingUpdate.java:415-500 | An update has no commands exactly when the node list is unchanged, every pair is up to date, no leftover is deletable and no tag needs setting. |
| Update.NoCommandsFacts | src/main/me/wiefferink/bagquick/BuildingUpdate.java:415-500 | With no commands the node list is unchanged, every pair is up to date, no leftover is deletable and no tag needs setting. |
| Update.CommandReason | src/main/me/wiefferink/bagquick/BuildingUpdate.java:415-500 | Every command has a reason: a changed node list, a move of a pair that is not up to date onto its BAG position, a deletable leftover or a tag to set. No other kind of command is issued. |
| Update.PlanUpdate | src/main/me/wiefferink/bagquick/BuildingUpdate.java:276-493 | The plan meets UpdateSpec. The pairing is the unique first-row-wins reading of the solver's answer, or the greedy pass visit by visit. Then come the node list, ChangeNodes, moves with exact counts, deletions and tags. A crash can only come from the greedy path running out of OSM nodes at an unpaired BAG node (GreedyCrash), which needs more BAG nodes than OSM nodes. |
| Update.PlanNodes | src/main/me/wiefferink/bagquick/BuildingUpdate.java:377-409 | The node list keeps the pairs and puts a new node at each unpaired BAG position's coordinate. Two unpaired positions share a node exactly when they share a coordinate. Each new node is created once, and a closed BAG way stays closed. |
| Update.PlanCommands | src/main/me/wiefferink/bagquick/BuildingUpdate.java:412-493 | ChangeNodes appears exactly when the list differs, moves exactly for pairs that are not up to date, deletions exactly for deletable leftovers, and tags by the rule. The up-to-date and moved counts count those pairs. Every tag note announces its SetTag. |
| Update.DeletedNotUsed | src/main/me/wiefferink/bagquick/BuildingUpdate.java:445-474 | A deleted node is never in the new node list. |
| Update.NewBuildingShape | src/main/me/wiefferink/bagquick/BuildingUpdate.java:684-700 | A created way from a closed BAG way is closed. Each position has a new node at its BAG coordinate, and the nodes are distinct apart from the closing one. |
| Update.Groups | src/main/me/wiefferink/bagquick/BuildingUpdate.java:402-509 | An update adds at most two undo groups, and never an empty one. |
| Update.BuildingUpdate.constructor | src/main/me/wiefferink/bagquick/BuildingUpdate.java:88-100 | A run starts with a fresh, empty current-style summary, no OSM way found and no history. |
| Update.BuildingUpdate.NoteCounts | src/main/me/wiefferink/bagquick/BuildingUpdate.java:432-474 | The non-zero counts are noted in order. |
| Update.BuildingUpdate.ConfirmBuildingNotes | src/main/me/wiefferink/bagquick/BuildingUpdate.java:628-657 | The update proceeds exactly when there are no note tags or the user confirms. A cancel fails the run with the cancel message. |
| Update.BuildingUpdate.UpdateExistingBuilding | src/main/me/wiefferink/bagquick/BuildingUpdate.java:276-511 | On cancel nothing is added. A crash happens only as GreedyCrash says, and then only the fallback note is added. Otherwise the plan meets UpdateSpec, its groups are added to history, and its Report is added to the notes. UpdateSpec fixes the pairing by the solver's answer (first row wins) or by the greedy pass visit by visit, and gives exact counts. |
| Update.BuildingUpdate.RecordUpdate | src/main/me/wiefferink/bagquick/BuildingUpdate.java:343-509 | The node creations and the update groups are added, and the notes follow Report. |
| Update.BuildingUpdate.CreateNewBuilding | src/main/me/wiefferink/bagquick/BuildingUpdate.java:678-737 | Two groups are added: the new nodes with the closing way, and the copied tags. The import note comes first, then one "added" note per tag. The run then crashes exactly when the osmWay field is null. |
| Update.BuildingUpdate.FixDuplicateNodes | src/main/me/wiefferink/bagquick/BuildingUpdate.java:552-570 | Reading the osmWay field's nodes throws exactly when the field is null. |
| Update.BuildingUpdate.RecordNewBuilding | src/main/me/wiefferink/bagquick/BuildingUpdate.java:678-729 | The import's groups and notes are recorded, and the created way has the fresh closed node list and the copied tags. |
| Update.BuildingUpdate.CreateNewBuildingIntended | src/main/me/wiefferink/bagquick/BuildingUpdate.java:678-737 | With the duplicate-node fix run on the newly created way, the import records the same groups and notes and completes. |
| Update.BuildingUpdate.ExecuteInternal | src/main/me/wiefferink/bagquick/BuildingUpdate.java:109-136 | Each layer or search failure fails the run with its message. Without a single OSM match the building's groups and notes are recorded and the run crashes, after showing the failure first when there are several matches. One match becomes the osmWay field and is updated. That update crashes only as GreedyCrash says. |
| Update.BuildingUpdate.UpdateOrCreate | src/main/me/wiefferink/bagquick/BuildingUpdate.java:125-136 | Several OSM matches fail the run, and no single match imports the building and crashes. One match is stored in the osmWay field and updated by a plan meeting UpdateSpec. That update crashes only when the greedy pass runs out of OSM nodes at an unpaired BAG node (GreedyCrash). |
| Update.BuildingUpdate.Execute | src/main/me/wiefferink/bagquick/BuildingUpdate.java:103-107 | A crashed run shows nothing beyond what failed before the crash; in particular a building without an OSM match is imported and no summary is shown. Otherwise exactly one more notification is shown, and it is the composed summary when the run did not fail. A run with one OSM match crashes only when the greedy pass runs out of OSM nodes at an unpaired BAG node (GreedyCrash), so every other such run shows its notification. |
| LegacyUpdate.AddCommands | src/me/wiefferink/bagquick/BuildingUpdate.java:360-369 | There is one AddNode per new node, in order, with consecutive fresh handles. |
| LegacyUpdate.PlanLegacyUpdate | src/me/wiefferink/bagquick/BuildingUpdate.java:251-424 | The plan meets LegacySpec: the unique first-row-wins reading of the solver's answer (or nothing paired), then the node list, ChangeNodes, moves by equalsEpsilon with exact counts, protected deletions and start_date. |
| LegacyUpdate.PlanLegacyCommands | src/me/wiefferink/bagquick/BuildingUpdate.java:370-424 | ChangeNodes always comes first, moves exactly for pairs that are not equalsEpsilon, deletions exactly for deletable leftovers, and only start_date among the tags. |
| LegacyUpdate.NeverUpToDate | src/me/wiefferink/bagquick/BuildingUpdate.java:426-430 | The command list is never empty, so "already up-to-date" is unreachable. |
| LegacyUpdate.LegacyNewBuilding | src/me/wiefferink/bagquick/BuildingUpdate.java:466-474 | A create makes one fresh node per BAG node, the closing one included, and then the way over them. |
| LegacyUpdate.LegacyNewBuildingOpen | src/me/wiefferink/bagquick/BuildingUpdate.java:466-474 | For a closed BAG way, the created way is not closed: its last node is a second new node on the first one's spot. |
| LegacyUpdate.ImportMessage | src/me/wiefferink/bagquick/BuildingUpdate.java:499-504 | The import message lists every tag of the new way once, in some order. |
| LegacyUpdate.LegacyGroups | src/me/wiefferink/bagquick/BuildingUpdate.java:360-434 | The update group is always added last, after the creations group when there is one. |
| LegacyUpdate.LegacyNotices | src/me/wiefferink/bagquick/BuildingUpdate.java:306-438 | The solver warning is shown when the solver threw, then the count notification. |
| LegacyUpdate.LegacyBuildingUpdate.Notify | src/me/wiefferink/bagquick/BuildingUpdate.java:559-571 | Each message is shown at once under the plugin banner. |
| LegacyUpdate.LegacyBuildingUpdate.UpdateExistingBuilding | src/me/wiefferink/bagquick/BuildingUpdate.java:251-440 | The plan meets LegacySpec, with the pairing fixed by the solver's answer (first row wins) and exact counts. Its groups are added, and its notifications are shown. |
| LegacyUpdate.LegacyBuildingUpdate.RecordLegacyUpdate | src/me/wiefferink/bagquick/BuildingUpdate.java:360-439 | The groups and notifications of a plan are recorded in order. |
| LegacyUpdate.LegacyBuildingUpdate.CreateNewBuilding | src/me/wiefferink/bagquick/BuildingUpdate.java:461-507 | Two groups are added (nodes and way, then tags), followed by one notification that lists the copied tags, before the message formatting of `tr`. |
| LegacyUpdate.LegacyBuildingUpdate.Execute | src/me/wiefferink/bagquick/BuildingUpdate.java:88-109 | Each failure is shown, and a missing building as a warning. No OSM match imports the building with its two groups and import message; several matches are shown first, then the building is imported. One match is updated by a plan meeting LegacySpec, with its groups and notifications. |
| OldestUpdate.PlanOldestUpdate | src/me/wiefferink/bagquick/BagUpdateAction.java:217-387 | The plan meets OldestSpec: the unique first-row-wins reading of the solver's answer (or nothing paired), then the node list, ChangeNodes, moves with exact counts, one RemoveNodes and start_date. |
| OldestUpdate.PlanOldestCommands | src/me/wiefferink/bagquick/BagUpdateAction.java:350-387 | ChangeNodes always comes first, then moves for pairs that are not equalsEpsilon. RemoveNodes of all leftovers is emitted exactly when there are leftovers, and there is no Delete. Only start_date is set. |
| OldestUpdate.RemovesProtectedNodes | src/me/wiefferink/bagquick/BagUpdateAction.java:378-380 | Every leftover node, tagged or shared ones included, is removed from the way. |
| OldestUpdate.OldestNeverUpToDate | src/me/wiefferink/bagquick/BagUpdateAction.java:390-394 | The command list is never empty, so "already up-to-date" is unreachable. |
| OldestUpdate.OldestGroups | src/me/wiefferink/bagquick/BagUpdateAction.java:340-400 | There are two groups exactly when nodes are created, and the update group is last. |
| OldestUpdate.OldestNotices | src/me/wiefferink/bagquick/BagUpdateAction.java:274-404 | The fallback warning is shown when the solver threw, then the count notification, which counts every leftover as removed. |
| OldestUpdate.BagUpdateAction.Notify | src/me/wiefferink/bagquick/BagUpdateAction.java:481-494 | Each message is shown at once under the plugin banner. |
| OldestUpdate.BagUpdateAction.UpdateExistingBuilding | src/me/wiefferink/bagquick/BagUpdateAction.java:217-405 | The plan meets OldestSpec, with the pairing fixed by the solver's answer (first row wins) and exact counts. Its groups are added, and its notifications are shown. |
| OldestUpdate.BagUpdateAction.RecordOldestUpdate | src/me/wiefferink/bagquick/BagUpdateAction.java:340-404 | The groups and notifications of a plan are recorded in order. |
| OldestUpdate.BagUpdateAction.CreateNewBuilding | src/me/wiefferink/bagquick/BagUpdateAction.java:410-456 | Two groups are added (a node per source node and the way, then the tags), followed by one notification that lists the copied tags, before the message formatting of `tr`. |
| OldestUpdate.BagUpdateAction.DoBagUpdate | src/me/wiefferink/bagquick/BagUpdateAction.java:154-212 | A missing layer is reported. No single BAG building does nothing. A missing ref:bag is reported. No single OSM match imports the building with its two groups and import message. One match is updated by a plan meeting OldestSpec, with its groups and notifications. |

## Left out

- The Swing and JOSM user interface is left out: the note confirmation dialog (a boolean input here), the bug report dialog, mouse and map-mode handling, and plugin registration.
- How notifications are displayed is left out, including the SoftReference that replaces the previous notification. A notification is recorded as its message and its kind.
- Layer lookup, the search box, screen projection and `searchWays` are JOSM I/O. The candidate ways arrive as inputs, with their bounding-box answer attached.
- `fixDuplicateNodes` (current revision) is modelled only as far as it reads the osmWay field, which throws when the field is null. The fixes it asks JOSM's validator for are left out, and so is `runValidation`, which runs on a worker thread. On the update path the field is always set, so the call is not modelled there.
- The undo/redo stack is left out: commands are data, and executing them is not modelled, except for tag commands on a tag map (`Tags.ApplyTags`). A group of commands is recorded as one history entry.
- The Hungarian solver's internals are left out. Its answer is an input, and only its range is required (each row names a column). The pairing is read from that answer row by row, but the model does not rely on the answer being a permutation or optimal.
- Floating-point geodesy is replaced by the input functions of `OsmData.Metric`. Rounding the great-circle distance down to whole centimetres makes the source's comparisons with 0.01 m and 5 m exact.
- `tr`/`trn` localisation and debug logging are left out. Templates are English strings, and `trn` picks the singular form exactly when the count is one.
- CountMessage: the count is rendered as plain decimal digits. The source's `trn` formats its count argument with MessageFormat, which groups counts of 1000 or more ("1,000"). The count notes built from it (NoteCounts, LegacyNotices, OldestNotices) carry the same gap. Buildings with that many nodes were not a case worth modelling.
- ImportedNote: the current revision's import note, `tr("New BAG building imported with {0} nodes", ...)`, formats its count with the same MessageFormat grouping, which the model leaves out. The gap reaches Update.BuildingUpdate.RecordNewBuilding, Update.BuildingUpdate.CreateNewBuilding and Update.BuildingUpdate.CreateNewBuildingIntended through NewBuildingRecorded. It also reaches Update.BuildingUpdate.ExecuteInternal and Update.BuildingUpdate.UpdateOrCreate through UpdatedOrCreated.
- Update.BuildingUpdate.CreateNewBuilding: the import note's count is written without MessageFormat's grouping at 1000 or more nodes, as stated for ImportedNote.
- Update.BuildingUpdate.RecordNewBuilding: the import note's count is written without MessageFormat's grouping at 1000 or more nodes, as stated for ImportedNote.
- Update.BuildingUpdate.CreateNewBuildingIntended: the import note's count is written without MessageFormat's grouping at 1000 or more nodes, as stated for ImportedNote.
- Update.BuildingUpdate.ExecuteInternal: the import note's count is written without MessageFormat's grouping at 1000 or more nodes, as stated for ImportedNote.
- Update.BuildingUpdate.UpdateOrCreate: the import note's count is written without MessageFormat's grouping at 1000 or more nodes, as stated for ImportedNote.
- LegacyUpdate.LegacyBuildingUpdate.CreateNewBuilding: the shown text is stated as the raw banner and tag lines. The source passes the whole message through `tr` (src/me/wiefferink/bagquick/BuildingUpdate.java:504), and MessageFormat treats it as a pattern: an apostrophe in a tag value is dropped and quotes the text after it, and an unmatched "{" throws after both groups were already added. MessageFormat's pattern syntax is not modelled.
- OldestUpdate.BagUpdateAction.CreateNewBuilding: the same `tr` formatting of the import message (src/me/wiefferink/bagquick/BagUpdateAction.java:455) is not modelled, with the same two effects on apostrophes and an unmatched "{".
- JOSM's `isTagged` ignores a list of uninteresting keys. Here a node is tagged when its tag map is not empty.
- Node equality is handle equality.
- The order of HashMap and HashSet iteration, and the insertion order of JOSM's tag maps, is not modelled. The loops take an arbitrary remaining element, and the contracts do not depend on the order.
- A null dereference in the greedy fallback, which happens when the OSM nodes run out, is modelled as an `Err` result. A run that crashes this way shows no summary. The same holds for the crash in `fixDuplicateNodes` after an import (see Findings).
- The current revision's run starts on a new `BuildingUpdate` for every click, so `ExecuteInternal` and `Execute` require a summary that has not failed and an osmWay field that is still null.
- Current revision: the import note counts `getNodesCount()`, so a square reports 5 nodes, the closing node included. The model follows the code.
- Current revision: when there are no commands, the "n nodes up-to-date" count note still comes before "Building is already up-to-date". The model follows the code.
- Update.BuildingUpdate.ExecuteInternal: when there is one OSM match, its contract states only that the history holds the groups of some plan meeting UpdateSpec. The notes of that path are stated by Update.BuildingUpdate.UpdateExistingBuilding.
- Synthesis.CreateNodeCommands: the AddNode commands come in hash order, so only their set and count are stated.
- LegacyUpdate.ImportMessage: the tag lines follow the tag map's iteration order. JOSM's TagMap keeps insertion order, here the BAG way's tag order, but the model's tag map is a Dafny `map`, which has no order, so the order is existentially quantified.

## Findings

| source | as written | input that shows it | evidently intended | confidence | as-written member | corrected member |
|---|---|---|---|---|---|---|
| src/me/wiefferink/bagquick/BuildingUpdate.java:466-474 | createNewBuilding makes a new node for every BAG node, including the repeated closing node, so the created way ends on a second node placed on top of its first node | a closed square BAG way [a, b, c, d, a] gives a way with 5 distinct new nodes, which is not closed | the new way is closed: the last entry repeats the first node, as the later revision does | high (not executed) | LegacyUpdate.LegacyNewBuildingOpen | Update.NewBuildingShape |
| src/me/wiefferink/bagquick/BuildingUpdate.java:342-358 | every unpaired BAG position gets its own new node, so an unpaired closing node leaves the updated way unclosed | a closed BAG way whose closing node has no OSM partner within the ceiling | unpaired positions at the same coordinate share one new node, keeping the way closed, as the later revision does | high (not executed) | Synthesis.LegacyResultNodes | Synthesis.BuildResultNodes |
| src/main/me/wiefferink/bagquick/BuildingUpdate.java:684-732 | createNewBuilding keeps the new way in a local `osmWay` that hides the field, then calls fixDuplicateNodes, which reads the field's nodes (:568); the field is set only on a single OSM match (:269), so on every import it is null and the run throws after both groups and all notes were added, and execute never shows the summary | a click on a BAG building for which no OSM way carries its ref:bag | the duplicate-node fix runs on the new way, and the run ends by showing its summary | high (not executed) | Update.BuildingUpdate.Execute | Update.BuildingUpdate.CreateNewBuildingIntended |
