/**
  Tag reconciliation. On an update the current revision copies, key by key, the BAG
  way's tags that are meaningful, new or different; the older revisions only look at
  start_date. On a create every tag outside the "|ODS" namespace is copied. Tag edits
  are JOSM ChangePropertyCommands, which remove the key when the value is empty.
 */
module Tags {
  import opened OsmData

  const Building := "building"
  const StartDate := "start_date"

  /** Note for a tag the OSM way did not have. */
  function AddedNote(key: string, value: string): string {
    key + "=" + value + " added"
  }

  /** Note for a tag whose OSM value is replaced. */
  function ChangedNote(key: string, value: string, previous: string): string {
    key + "=" + value + ", previously " + previous
  }

  /** The note computeTagUpdate adds when it sets key to value on a way with tags osmTags. */
  function TagNote(osmTags: TagMap, key: string, value: string): string {
    if key in osmTags then ChangedNote(key, value, osmTags[key]) else AddedNote(key, value)
  }

  /** A tag edit with the note that announces it. */
  datatype TagChange = TagChange(key: string, value: string, note: string)

  /**
    computeTagUpdate: a change exactly when the BAG way has the key with a non-empty value
    that the OSM way does not already carry; the change sets the BAG value.
   */
  function ComputeTagUpdate(bagTags: TagMap, osmTags: TagMap, key: string): (r: Option<TagChange>)
    ensures r.Some? <==> key in bagTags && bagTags[key] != "" && (key !in osmTags || osmTags[key] != bagTags[key])
    ensures r.Some? ==> r.value.key == key && r.value.value == bagTags[key]
    ensures r.Some? ==> r.value.note == TagNote(osmTags, key, bagTags[key])
  {
    if key !in bagTags then None
    else
      var bagValue := bagTags[key];
      if bagValue == "" then None
      else if key in osmTags && osmTags[key] == bagValue then None
      else Some(TagChange(key, bagValue, TagNote(osmTags, key, bagValue)))
  }

  /**
    The tag rule of an update: the key is not background information, an existing building
    value is never replaced (OSM may be more specific), and the BAG has a non-empty value
    that differs from the OSM one.
   */
  predicate ShouldSetTag(bagTags: TagMap, osmTags: TagMap, key: string) {
    && !IsInformational(key)
    && !(key == Building && Building in osmTags)
    && key in bagTags && bagTags[key] != ""
    && (key !in osmTags || osmTags[key] != bagTags[key])
  }

  /** The keys a command list sets. */
  function SetKeys(cmds: seq<Command>): set<string> {
    set c | c in cmds && c.SetTag? :: c.key
  }

  /** Tag commands only, each key at most once. */
  predicate DistinctSetTags(cmds: seq<Command>) {
    && (forall c :: c in cmds ==> c.SetTag?)
    && (forall i, j :: 0 <= i < j < |cmds| ==> cmds[i].key != cmds[j].key)
  }

  /** What a tag loop of an update must produce: one SetTag per key the rule selects. */
  predicate IsTagPlan(bagTags: TagMap, osmTags: TagMap, cmds: seq<Command>) {
    && DistinctSetTags(cmds)
    && (forall c :: c in cmds ==> ShouldSetTag(bagTags, osmTags, c.key) && c.value == bagTags[c.key])
    && (forall k :: k in bagTags && ShouldSetTag(bagTags, osmTags, k) ==> SetTag(k, bagTags[k]) in cmds)
  }

  /**
    The tag loop of the current revision's update, over the BAG tags in map order:
    "|ODS" keys and an existing building are skipped, every other key goes through
    computeTagUpdate. notes[i] announces cmds[i].
   */
  method TagUpdates(bagTags: TagMap, osmTags: TagMap) returns (cmds: seq<Command>, notes: seq<string>)
    ensures IsTagPlan(bagTags, osmTags, cmds)
    ensures |notes| == |cmds|
    ensures forall i :: 0 <= i < |cmds| ==> notes[i] == TagNote(osmTags, cmds[i].key, cmds[i].value)
  {
    cmds, notes := [], [];
    var remaining := bagTags.Keys;
    ghost var done: set<string> := {};
    while remaining != {}
      invariant remaining <= bagTags.Keys && done == bagTags.Keys - remaining
      invariant TagLoop(bagTags, osmTags, done, cmds, notes)
      decreases |remaining|
    {
      var key :| key in remaining;
      var change := None;
      if !IsInformational(key) && !(key == Building && Building in osmTags) {
        change := ComputeTagUpdate(bagTags, osmTags, key);
      }
      if change.Some? {
        TagSetStep(bagTags, osmTags, done, cmds, notes, key);
        cmds := cmds + [SetTag(change.value.key, change.value.value)];
        notes := notes + [change.value.note];
      } else {
        TagSkipStep(bagTags, osmTags, done, cmds, notes, key);
      }
      remaining := remaining - {key};
      done := done + {key};
    }
    assert done == bagTags.Keys;
    TagLoopDone(bagTags, osmTags, cmds, notes);
  }

  /** What the update's tag loop has established once it has visited the keys in `seen`. */
  ghost predicate TagLoop(bagTags: TagMap, osmTags: TagMap, seen: set<string>, cmds: seq<Command>, notes: seq<string>) {
    && DistinctSetTags(cmds) && |notes| == |cmds|
    && (forall c :: c in cmds ==> c.key in seen)
    && (forall c :: c in cmds ==> ShouldSetTag(bagTags, osmTags, c.key) && c.value == bagTags[c.key])
    && (forall k :: k in seen && ShouldSetTag(bagTags, osmTags, k) ==> SetTag(k, bagTags[k]) in cmds)
    && (forall i :: 0 <= i < |cmds| ==> notes[i] == TagNote(osmTags, cmds[i].key, cmds[i].value))
  }

  lemma TagSetStep(bagTags: TagMap, osmTags: TagMap, seen: set<string>, cmds: seq<Command>, notes: seq<string>,
                   key: string)
    requires TagLoop(bagTags, osmTags, seen, cmds, notes)
    requires key !in seen && ShouldSetTag(bagTags, osmTags, key)
    ensures TagLoop(bagTags, osmTags, seen + {key}, cmds + [SetTag(key, bagTags[key])],
                    notes + [TagNote(osmTags, key, bagTags[key])])
  {
    var c := cmds + [SetTag(key, bagTags[key])];
    forall i, j | 0 <= i < j < |c| ensures c[i].key != c[j].key {
      if j == |cmds| {
        assert cmds[i] in cmds;
      }
    }
  }

  lemma TagLoopDone(bagTags: TagMap, osmTags: TagMap, cmds: seq<Command>, notes: seq<string>)
    requires TagLoop(bagTags, osmTags, bagTags.Keys, cmds, notes)
    ensures IsTagPlan(bagTags, osmTags, cmds)
    ensures |notes| == |cmds|
    ensures forall i :: 0 <= i < |cmds| ==> notes[i] == TagNote(osmTags, cmds[i].key, cmds[i].value)
  {
  }

  lemma TagSkipStep(bagTags: TagMap, osmTags: TagMap, seen: set<string>, cmds: seq<Command>, notes: seq<string>,
                    key: string)
    requires TagLoop(bagTags, osmTags, seen, cmds, notes)
    requires !ShouldSetTag(bagTags, osmTags, key)
    ensures TagLoop(bagTags, osmTags, seen + {key}, cmds, notes)
  {
  }

  // ---- Applying tag commands ----

  /** A ChangePropertyCommand on a tag map: an empty value removes the key. */
  function ApplyTag(tags: TagMap, c: Command): TagMap {
    if !c.SetTag? then tags
    else if c.value == "" then tags - {c.key}
    else tags[c.key := c.value]
  }

  /** Executing the commands in order. */
  function ApplyTags(tags: TagMap, cmds: seq<Command>): TagMap
    decreases |cmds|
  {
    if cmds == [] then tags else ApplyTags(ApplyTag(tags, cmds[0]), cmds[1..])
  }

  /** With distinct keys, each SetTag decides its key and every other key is untouched. */
  lemma {:induction false} ApplyTagsEffect(tags: TagMap, cmds: seq<Command>)
    requires DistinctSetTags(cmds)
    ensures forall c :: c in cmds && c.value == "" ==> c.key !in ApplyTags(tags, cmds)
    ensures forall c :: c in cmds && c.value != "" ==> c.key in ApplyTags(tags, cmds) && ApplyTags(tags, cmds)[c.key] == c.value
    ensures forall k :: k !in SetKeys(cmds) ==>
              (k in ApplyTags(tags, cmds) <==> k in tags) && (k in tags ==> ApplyTags(tags, cmds)[k] == tags[k])
    decreases |cmds|
  {
    if cmds != [] {
      var t := ApplyTag(tags, cmds[0]);
      var rest := cmds[1..];
      assert DistinctSetTags(rest) by {
        forall i, j | 0 <= i < j < |rest| ensures rest[i].key != rest[j].key {
          assert rest[i] == cmds[i + 1] && rest[j] == cmds[j + 1];
        }
      }
      ApplyTagsEffect(t, rest);
      forall c | c in rest ensures c.key != cmds[0].key {
        var i :| 0 <= i < |rest| && rest[i] == c;
        assert cmds[i + 1] == c;
      }
      assert SetKeys(cmds) == {cmds[0].key} + SetKeys(rest) by {
        assert cmds == [cmds[0]] + rest;
      }
      forall c | c in cmds && c != cmds[0] ensures c in rest {
        var i :| 0 <= i < |cmds| && cmds[i] == c;
        assert rest[i - 1] == c;
      }
    }
  }

  /**
    The effect of an update's tag commands: the selected keys take the BAG value and
    every other tag of the OSM way stays as it was; no tag is removed.
   */
  lemma TagPlanEffect(bagTags: TagMap, osmTags: TagMap, cmds: seq<Command>)
    requires IsTagPlan(bagTags, osmTags, cmds)
    ensures forall k :: k in ApplyTags(osmTags, cmds) <==> k in osmTags || ShouldSetTag(bagTags, osmTags, k)
    ensures forall k :: k in ApplyTags(osmTags, cmds) ==>
              ApplyTags(osmTags, cmds)[k] == (if ShouldSetTag(bagTags, osmTags, k) then bagTags[k] else osmTags[k])
  {
    ApplyTagsEffect(osmTags, cmds);
    var r := ApplyTags(osmTags, cmds);
    forall k ensures k in SetKeys(cmds) <==> ShouldSetTag(bagTags, osmTags, k) {
      if k in SetKeys(cmds) {
        var c :| c in cmds && c.SetTag? && c.key == k;
      }
      if ShouldSetTag(bagTags, osmTags, k) {
        assert SetTag(k, bagTags[k]) in cmds;
      }
    }
    forall k | ShouldSetTag(bagTags, osmTags, k) ensures k in r && r[k] == bagTags[k] {
      assert SetTag(k, bagTags[k]) in cmds;
    }
  }

  /** Running the tag loop again on the updated way finds nothing left to do. */
  lemma TagPlanConverges(bagTags: TagMap, osmTags: TagMap, cmds: seq<Command>)
    requires IsTagPlan(bagTags, osmTags, cmds)
    ensures forall k :: !ShouldSetTag(bagTags, ApplyTags(osmTags, cmds), k)
  {
    TagPlanEffect(bagTags, osmTags, cmds);
  }

  /** An OSM building value survives an update unchanged. */
  lemma BuildingKept(bagTags: TagMap, osmTags: TagMap, cmds: seq<Command>)
    requires IsTagPlan(bagTags, osmTags, cmds)
    requires Building in osmTags
    ensures Building in ApplyTags(osmTags, cmds) && ApplyTags(osmTags, cmds)[Building] == osmTags[Building]
  {
    TagPlanEffect(bagTags, osmTags, cmds);
  }

  // ---- start_date in the older revisions ----

  /**
    computeStartDateUpdate / applyStartDate: a start_date edit exactly when the BAG way has
    a non-empty start_date that differs from the OSM one.
   */
  function StartDateUpdate(bagTags: TagMap, osmTags: TagMap): (r: Option<Command>)
    ensures r.Some? <==> StartDate in bagTags && bagTags[StartDate] != "" &&
                         (StartDate !in osmTags || osmTags[StartDate] != bagTags[StartDate])
    ensures r.Some? ==> r.value == SetTag(StartDate, bagTags[StartDate])
  {
    if StartDate !in bagTags then None
    else
      var source := bagTags[StartDate];
      if source == "" then None
      else if StartDate in osmTags && osmTags[StartDate] == source then None
      else Some(SetTag(StartDate, source))
  }

  /** The older start_date rule is the current tag rule restricted to start_date. */
  lemma StartDateAgrees(bagTags: TagMap, osmTags: TagMap)
    ensures StartDateUpdate(bagTags, osmTags).Some? <==> ShouldSetTag(bagTags, osmTags, StartDate)
    ensures StartDateUpdate(bagTags, osmTags).Some? <==> ComputeTagUpdate(bagTags, osmTags, StartDate).Some?
    ensures StartDateUpdate(bagTags, osmTags).Some? ==>
              StartDateUpdate(bagTags, osmTags).value.value == ComputeTagUpdate(bagTags, osmTags, StartDate).value.value
  {
    assert !IsInformational(StartDate) by {
      assert StartDate[..4][0] == 's';
    }
  }

  // ---- Tags of a new building ----

  /** The tags a created way ends up with: every BAG tag outside "|ODS" with a value. */
  function CopiedTags(bagTags: TagMap): (r: TagMap)
    ensures forall k :: k in r <==> k in bagTags && !IsInformational(k) && bagTags[k] != ""
    ensures forall k :: k in r ==> r[k] == bagTags[k]
  {
    map k | k in bagTags && !IsInformational(k) && bagTags[k] != "" :: bagTags[k]
  }

  /**
    The tag loop of a create, over the BAG tags in map order: one ChangePropertyCommand
    per key outside "|ODS", whatever its value. notes[i] is the current revision's note
    for cmds[i].
   */
  method CopyTags(bagTags: TagMap) returns (cmds: seq<Command>, notes: seq<string>)
    ensures DistinctSetTags(cmds)
    ensures forall k, v :: SetTag(k, v) in cmds <==> k in bagTags && !IsInformational(k) && v == bagTags[k]
    ensures |notes| == |cmds|
    ensures forall i :: 0 <= i < |cmds| ==> notes[i] == AddedNote(cmds[i].key, cmds[i].value)
  {
    cmds, notes := [], [];
    var remaining := bagTags.Keys;
    ghost var done: set<string> := {};
    while remaining != {}
      invariant remaining <= bagTags.Keys && done == bagTags.Keys - remaining
      invariant CopyLoop(bagTags, done, cmds, notes)
      decreases |remaining|
    {
      var key :| key in remaining;
      if IsInformational(key) {
        CopySkipStep(bagTags, done, cmds, notes, key);
      } else {
        CopySetStep(bagTags, done, cmds, notes, key);
        cmds := cmds + [SetTag(key, bagTags[key])];
        notes := notes + [AddedNote(key, bagTags[key])];
      }
      remaining := remaining - {key};
      done := done + {key};
    }
    assert done == bagTags.Keys;
    CopyLoopDone(bagTags, cmds, notes);
  }

  /** What the create's tag loop has established once it has visited the keys in `seen`. */
  ghost predicate CopyLoop(bagTags: TagMap, seen: set<string>, cmds: seq<Command>, notes: seq<string>) {
    && DistinctSetTags(cmds) && |notes| == |cmds|
    && (forall c :: c in cmds ==> c.key in seen && c.key in bagTags && !IsInformational(c.key) && c.value == bagTags[c.key])
    && (forall k :: k in seen && k in bagTags && !IsInformational(k) ==> SetTag(k, bagTags[k]) in cmds)
    && (forall i :: 0 <= i < |cmds| ==> notes[i] == AddedNote(cmds[i].key, cmds[i].value))
  }

  lemma CopySetStep(bagTags: TagMap, seen: set<string>, cmds: seq<Command>, notes: seq<string>, key: string)
    requires CopyLoop(bagTags, seen, cmds, notes)
    requires key !in seen && key in bagTags && !IsInformational(key)
    ensures CopyLoop(bagTags, seen + {key}, cmds + [SetTag(key, bagTags[key])], notes + [AddedNote(key, bagTags[key])])
  {
    var c := cmds + [SetTag(key, bagTags[key])];
    forall i, j | 0 <= i < j < |c| ensures c[i].key != c[j].key {
      if j == |cmds| {
        assert cmds[i] in cmds;
      }
    }
  }

  lemma CopySkipStep(bagTags: TagMap, seen: set<string>, cmds: seq<Command>, notes: seq<string>, key: string)
    requires CopyLoop(bagTags, seen, cmds, notes)
    requires IsInformational(key)
    ensures CopyLoop(bagTags, seen + {key}, cmds, notes)
  {
  }

  lemma CopyLoopDone(bagTags: TagMap, cmds: seq<Command>, notes: seq<string>)
    requires CopyLoop(bagTags, bagTags.Keys, cmds, notes)
    ensures forall k, v :: SetTag(k, v) in cmds <==> k in bagTags && !IsInformational(k) && v == bagTags[k]
  {
    forall k, v | SetTag(k, v) in cmds ensures k in bagTags && !IsInformational(k) && v == bagTags[k] {
      assert SetTag(k, v).key == k;
    }
  }

  /** Executing a create's tag commands on the new, untagged way gives CopiedTags. */
  lemma CopyTagsEffect(bagTags: TagMap, cmds: seq<Command>)
    requires DistinctSetTags(cmds)
    requires forall k, v :: SetTag(k, v) in cmds <==> k in bagTags && !IsInformational(k) && v == bagTags[k]
    ensures ApplyTags(map[], cmds) == CopiedTags(bagTags)
  {
    ApplyTagsEffect(map[], cmds);
    var r := ApplyTags(map[], cmds);
    forall k ensures k in r <==> k in CopiedTags(bagTags) {
      if k in bagTags && !IsInformational(k) {
        assert SetTag(k, bagTags[k]) in cmds;
      }
    }
    forall k | k in r ensures r[k] == bagTags[k] {
      assert SetTag(k, bagTags[k]) in cmds;
    }
  }
}
