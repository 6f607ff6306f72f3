/**
  Shared vocabulary of the BAG-to-OSM building reconciliation: node handles into an
  arena, tag maps, coordinates, ways, the edit commands a run emits, and the geodesy
  the run consults (as input functions, since the real computations are floating point).
 */
module OsmData {

  /** Handle of a node in the arena. */
  type NodeId = nat

  type TagMap = map<string, string>

  datatype Option<T> = None | Some(value: T)

  datatype Result<T> = Ok(value: T) | Err(error: string)

  /** A position in OSM's fixed-point storage (1e-7 degree units). */
  datatype Coord = Coord(lat: int, lon: int)

  /**
    A node: its position, its tags, and how many ways list it as a member
    (JOSM's getParentWays().size()).
   */
  datatype Node = Node(coor: Coord, tags: TagMap, parentWays: nat)

  /** All nodes of both data layers, addressed by handle. */
  type Arena = seq<Node>

  /** A way as the reconciliation sees it: its ordered node handles and its tags. */
  datatype Way = Way(nodes: seq<NodeId>, tags: TagMap)

  /** The edit commands handed to the undo/redo stack, as data. */
  datatype Command =
    | AddNode(id: NodeId, coor: Coord)
    | AddWay(nodes: seq<NodeId>)
    | ChangeNodes(nodes: seq<NodeId>)
    | Move(id: NodeId, coor: Coord)
    | Delete(id: NodeId)
    | RemoveNodes(ids: set<NodeId>)
    | SetTag(key: string, value: string)

  /**
    The geodesy the run relies on, supplied by the caller:
    - greatCircle: LatLon.greatCircleDistance rounded down to whole centimetres, so that
      comparisons `<` and `>=` against a whole number of centimetres are exact;
    - distanceSq: LatLon.distanceSq, only used to rank candidates;
    - planar: LatLon.distance (degrees) rounded up to whole degrees, so that `> 1` is exact;
    - equalsEpsilon: LatLon.equalsEpsilon.
   */
  datatype Metric = Metric(
    greatCircle: (Coord, Coord) -> nat,
    distanceSq: (Coord, Coord) -> nat,
    planar: (Coord, Coord) -> nat,
    equalsEpsilon: (Coord, Coord) -> bool)

  predicate ValidIds(arena: Arena, ids: seq<NodeId>) {
    forall i :: 0 <= i < |ids| ==> ids[i] < |arena|
  }

  predicate ValidIdSet(arena: Arena, ids: set<NodeId>) {
    forall id :: id in ids ==> id < |arena|
  }

  /** The node carries tags (JOSM's isTagged()). */
  predicate IsTagged(n: Node) {
    n.tags != map[]
  }

  /** The node is listed by some way besides the one being reconciled. */
  predicate InOtherWay(n: Node) {
    n.parentWays > 1
  }

  /** A leftover OSM node may be deleted only when it is neither shared nor tagged. */
  predicate Deletable(n: Node) {
    !InOtherWay(n) && !IsTagged(n)
  }

  predicate StartsWith(s: string, prefix: string) {
    |prefix| <= |s| && s[..|prefix|] == prefix
  }

  /** Tags in the "|ODS" namespace are background information and are never copied. */
  predicate IsInformational(key: string) {
    StartsWith(key, "|ODS")
  }

  /** The distinct handles of a node list. */
  function Elems(ids: seq<NodeId>): set<NodeId> {
    set id | id in ids
  }

  /** String.join(sep, parts). */
  function Join(parts: seq<string>, sep: string): string {
    if parts == [] then ""
    else if |parts| == 1 then parts[0]
    else Join(parts[..|parts| - 1], sep) + sep + parts[|parts| - 1]
  }

  function Max(a: nat, b: nat): nat {
    if a < b then b else a
  }

  function DigitChar(d: nat): (c: char)
    requires d < 10
    ensures '0' <= c <= '9' && (c - '0') as nat == d
  {
    ('0' as int + d) as char
  }

  /** Decimal rendering of a count, as MessageFormat prints small numbers. */
  function NatToString(n: nat): (s: string)
    ensures |s| >= 1
    ensures forall i :: 0 <= i < |s| ==> '0' <= s[i] <= '9'
  {
    if n < 10 then [DigitChar(n)] else NatToString(n / 10) + [DigitChar(n % 10)]
  }

  /** Value of a string of decimal digits. */
  function DigitsValue(s: string): nat
    requires forall i :: 0 <= i < |s| ==> '0' <= s[i] <= '9'
  {
    if s == [] then 0 else DigitsValue(s[..|s| - 1]) * 10 + (s[|s| - 1] - '0') as nat
  }

  lemma {:induction false} NatToStringRoundTrip(n: nat)
    ensures DigitsValue(NatToString(n)) == n
  {
    var s := NatToString(n);
    if n < 10 {
      assert s[..|s| - 1] == [];
    } else {
      NatToStringRoundTrip(n / 10);
      assert s[..|s| - 1] == NatToString(n / 10);
    }
  }

  /**
    trn("{0} <singular>", "{0} <plural>", n, n): the singular template is chosen
    exactly when n is one.
   */
  function CountMessage(n: nat, singular: string, plural: string): (s: string)
    ensures StartsWith(s, NatToString(n))
    ensures |s| > |NatToString(n)| && s[|NatToString(n)|] == ' '
  {
    NatToString(n) + " " + (if n == 1 then singular else plural)
  }

  /** The number of decimal digits at the start of s. */
  function LeadingDigits(s: string): (k: nat)
    ensures k <= |s|
    ensures forall i :: 0 <= i < k ==> '0' <= s[i] <= '9'
    ensures k < |s| ==> !('0' <= s[k] <= '9')
  {
    if s == [] || !('0' <= s[0] <= '9') then 0 else 1 + LeadingDigits(s[1..])
  }

  /**
    Reads a count message back: the leading digits, one space, then the form; None when
    the text does not have that shape.
   */
  function ParseCount(s: string): Option<(nat, string)> {
    var k := LeadingDigits(s);
    if k == 0 || k == |s| || s[k] != ' ' then None
    else Some((DigitsValue(s[..k]), s[k + 1..]))
  }

  lemma {:induction false} LeadingDigitsOfNumber(d: string, rest: string)
    requires forall i :: 0 <= i < |d| ==> '0' <= d[i] <= '9'
    requires rest != [] && !('0' <= rest[0] <= '9')
    ensures LeadingDigits(d + rest) == |d|
    decreases |d|
  {
    if d != [] {
      assert (d + rest)[1..] == d[1..] + rest;
      LeadingDigitsOfNumber(d[1..], rest);
    }
  }

  /**
    A count message reads back as its count and the form trn chose for it: the singular
    one exactly when the count is one.
   */
  lemma CountMessageRoundTrip(n: nat, singular: string, plural: string)
    ensures ParseCount(CountMessage(n, singular, plural)) == Some((n, if n == 1 then singular else plural))
  {
    var digits := NatToString(n);
    var form := if n == 1 then singular else plural;
    LeadingDigitsOfNumber(digits, " " + form);
    NatToStringRoundTrip(n);
    var s := CountMessage(n, singular, plural);
    assert s[..|digits|] == digits;
    assert s[|digits| + 1..] == form;
  }
}
