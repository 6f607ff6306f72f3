/**
  Finding the ways a click refers to: the BAG building under the clicked point and the
  OSM building carrying the same ref:bag. The search around the click (searchWays on a
  bounding box), the bounding-box test and the point-in-polygon test are JOSM geometry;
  the candidates arrive with the bounding-box answer attached, and the polygon test is
  an input predicate.
 */
module Resolver {
  import opened OsmData

  /** A way returned by the search around the clicked point. */
  datatype Candidate = Candidate(name: string, isArea: bool, bboxHasClick: bool, way: Way)

  const RefKey := "ref:bag"
  const NoteKeys := ["note", "note:bag", "fixme"]

  /** A stream filter over the candidates, keeping their order. */
  function Filter(cands: seq<Candidate>, keep: Candidate -> bool): (r: seq<Candidate>)
    ensures |r| <= |cands|
    ensures forall c :: c in r <==> c in cands && keep(c)
  {
    if cands == [] then []
    else (if keep(cands[0]) then [cands[0]] else []) + Filter(cands[1..], keep)
  }

  function Names(cands: seq<Candidate>): (r: seq<string>)
    ensures |r| == |cands|
    ensures forall i :: 0 <= i < |cands| ==> r[i] == cands[i].name
  {
    if cands == [] then [] else [cands[0].name] + Names(cands[1..])
  }

  /** The way's ref:bag value when it is present and not empty. */
  function RefOf(w: Way): Option<string> {
    if RefKey in w.tags && w.tags[RefKey] != "" then Some(w.tags[RefKey]) else None
  }

  /** Filters of the BAG search in the two later revisions: area, building, bbox, polygon. */
  predicate IsClickedBuilding(c: Candidate, inside: seq<NodeId> -> bool) {
    c.isArea && "building" in c.way.tags && c.bboxHasClick && inside(c.way.nodes)
  }

  /** Filters of the BAG search in the oldest revision: area, bbox, building; no polygon test. */
  predicate IsClickedBuildingOldest(c: Candidate) {
    c.isArea && c.bboxHasClick && "building" in c.way.tags
  }

  const NoBagBuilding := "Did not find a BAG building, try another location"
  const NoRefBag := "Clicked way in the BAG ODS layer has no ref:bag! Try another building"

  /**
    findBagWay of the two later revisions: exactly one clicked building must match, and it
    must carry a non-empty ref:bag; otherwise the run fails with the reason.
   */
  function FindBagWay(cands: seq<Candidate>, inside: seq<NodeId> -> bool): (r: Result<Candidate>)
    ensures r.Ok? <==> |Filter(cands, c => IsClickedBuilding(c, inside))| == 1
                       && RefOf(Filter(cands, c => IsClickedBuilding(c, inside))[0].way).Some?
    ensures r.Ok? ==> r.value in cands && IsClickedBuilding(r.value, inside) && RefOf(r.value.way).Some?
    ensures r.Err? && r.error != NoBagBuilding && r.error != NoRefBag ==>
              |Filter(cands, c => IsClickedBuilding(c, inside))| > 1
  {
    var matches := Filter(cands, c => IsClickedBuilding(c, inside));
    if matches == [] then Err(NoBagBuilding)
    else if |matches| > 1 then
      Err("Found multiple BAG ways, don't know which to update: <br />" + Join(Names(matches), "<br />"))
    else if RefOf(matches[0].way).None? then Err(NoRefBag)
    else Ok(matches[0])
  }

  /** findBagWay of the oldest revision: null on no match or on several, without a message. */
  function FindBagWayOldest(cands: seq<Candidate>): (r: Option<Candidate>)
    ensures r.Some? <==> |Filter(cands, IsClickedBuildingOldest)| == 1
    ensures r.Some? ==> r.value in cands && IsClickedBuildingOldest(r.value)
  {
    var matches := Filter(cands, IsClickedBuildingOldest);
    if |matches| == 1 then Some(matches[0]) else None
  }

  /** Outcome of the OSM search. */
  datatype OsmLookup = Match(c: Candidate) | NoMatch | Multiple(names: seq<string>)

  /** The later revisions: the ref:bag must be known and equal. */
  predicate RefMatches(c: Candidate, bagRef: Option<string>) {
    bagRef.Some? && RefKey in c.way.tags && c.way.tags[RefKey] == bagRef.value
  }

  /** The oldest revision accepts any way when bagRef is null. */
  predicate RefMatchesOldest(c: Candidate, bagRef: Option<string>) {
    bagRef.None? || (RefKey in c.way.tags && c.way.tags[RefKey] == bagRef.value)
  }

  /** Filters of the OSM search in the two later revisions. */
  predicate IsOsmCandidate(c: Candidate, bagRef: Option<string>) {
    c.isArea && c.bboxHasClick && RefMatches(c, bagRef)
  }

  /** Filters of the OSM search in the oldest revision. */
  predicate IsOsmCandidateOldest(c: Candidate, bagRef: Option<string>) {
    c.isArea && c.bboxHasClick && RefMatchesOldest(c, bagRef)
  }

  function ClassifyOsm(matches: seq<Candidate>): (r: OsmLookup)
    ensures r.NoMatch? <==> matches == []
    ensures r.Match? <==> |matches| == 1
    ensures r.Match? ==> r.c == matches[0]
    ensures r.Multiple? ==> r.names == Names(matches)
  {
    if matches == [] then NoMatch
    else if |matches| > 1 then Multiple(Names(matches))
    else Match(matches[0])
  }

  /** The OSM search results of the two later revisions, in search order. */
  function OsmMatches(cands: seq<Candidate>, bagRef: Option<string>): (r: seq<Candidate>)
    ensures forall c :: c in r <==> c in cands && IsOsmCandidate(c, bagRef)
  {
    Filter(cands, c => IsOsmCandidate(c, bagRef))
  }

  /** The OSM search results of the oldest revision, in search order. */
  function OsmMatchesOldest(cands: seq<Candidate>, bagRef: Option<string>): (r: seq<Candidate>)
    ensures forall c :: c in r <==> c in cands && IsOsmCandidateOldest(c, bagRef)
  {
    Filter(cands, c => IsOsmCandidateOldest(c, bagRef))
  }

  /**
    findOsmWay of the two later revisions: no area around the click with the same ref:bag
    is no match, exactly one result is the match, and several fail the run with their
    names.
   */
  function FindOsmWay(cands: seq<Candidate>, bagRef: Option<string>): (r: OsmLookup)
    ensures r.NoMatch? <==> forall c :: c in cands ==> !IsOsmCandidate(c, bagRef)
    ensures r.Match? <==> |OsmMatches(cands, bagRef)| == 1
    ensures r.Match? ==> r.c in cands && IsOsmCandidate(r.c, bagRef)
                         && forall d :: d in cands && IsOsmCandidate(d, bagRef) ==> d == r.c
    ensures r.Multiple? ==> |r.names| > 1 && r.names == Names(OsmMatches(cands, bagRef))
    ensures bagRef.None? ==> r.NoMatch?
  {
    var matches := OsmMatches(cands, bagRef);
    assert matches != [] ==> matches[0] in matches;
    ClassifyOsm(matches)
  }

  /**
    findOsmWay of the oldest revision: the same classification over its own filter, which
    keeps every area around the click when bagRef is null.
   */
  function FindOsmWayOldest(cands: seq<Candidate>, bagRef: Option<string>): (r: OsmLookup)
    ensures r.NoMatch? <==> forall c :: c in cands ==> !IsOsmCandidateOldest(c, bagRef)
    ensures r.Match? <==> |OsmMatchesOldest(cands, bagRef)| == 1
    ensures r.Match? ==> r.c in cands && IsOsmCandidateOldest(r.c, bagRef)
                         && forall d :: d in cands && IsOsmCandidateOldest(d, bagRef) ==> d == r.c
    ensures r.Multiple? ==> |r.names| > 1 && r.names == Names(OsmMatchesOldest(cands, bagRef))
  {
    var matches := OsmMatchesOldest(cands, bagRef);
    assert matches != [] ==> matches[0] in matches;
    ClassifyOsm(matches)
  }

  lemma {:induction false} FilterSame(cands: seq<Candidate>, p: Candidate -> bool, q: Candidate -> bool)
    requires forall c :: c in cands ==> (p(c) <==> q(c))
    ensures Filter(cands, p) == Filter(cands, q)
    decreases |cands|
  {
    if cands != [] {
      FilterSame(cands[1..], p, q);
    }
  }

  /**
    With a known ref:bag (the only way the oldest revision calls it), the two revisions'
    OSM searches agree.
   */
  lemma OsmSearchRevisionsAgree(cands: seq<Candidate>, bagRef: string)
    ensures FindOsmWay(cands, Some(bagRef)) == FindOsmWayOldest(cands, Some(bagRef))
  {
    FilterSame(cands, c => IsOsmCandidate(c, Some(bagRef)),
                      c => IsOsmCandidateOldest(c, Some(bagRef)));
  }

  predicate IsAreaAroundClick(c: Candidate) {
    c.isArea && c.bboxHasClick
  }

  /** Without a ref:bag the oldest search keeps every area around the click. */
  lemma OldestSearchWithoutRef(cands: seq<Candidate>)
    ensures FindOsmWayOldest(cands, None) == ClassifyOsm(Filter(cands, IsAreaAroundClick))
  {
    FilterSame(cands, c => IsOsmCandidateOldest(c, None), IsAreaAroundClick);
  }

  /**
    confirmBuildingNotes: the note-like tags (note, note:bag, fixme) of the OSM way that
    have a non-empty value; the user is asked to confirm only when this is not empty.
   */
  function NoteTags(tags: TagMap): (r: TagMap)
    ensures forall k :: k in r <==> k in NoteKeys && k in tags && tags[k] != ""
    ensures forall k :: k in r ==> r[k] == tags[k]
  {
    map k | k in NoteKeys && k in tags && tags[k] != "" :: tags[k]
  }
}
