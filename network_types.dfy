/**
 * Records shared by the paper detail page and the network graph component:
 * paper records as the paper service returns them, network nodes and edges,
 * node colours, and the numeric helpers (Math.min, Math.max, Math.round)
 * the two components use.
 */
module NetworkTypes {

  datatype Option<+T> = None | Some(value: T)

  /**
   * A JavaScript `year` field. The service leaves it out (Undefined) or sends
   * JSON null (Null) when it does not know the year; the two are told apart by
   * `!== undefined` but not by `!year`.
   */
  datatype Year = Undefined | Null | Known(value: int)

  /** `!!year`: a year is truthy when it is a number other than 0. */
  predicate IsTruthy(y: Year) {
    y.Known? && y.value != 0
  }

  /** A `citationCount` field; undefined and null behave alike in every use the model covers. */
  type Count = Option<int>

  /** `count || 0` */
  function CountOrZero(c: Count): int {
    match c
    case None => 0
    case Some(n) => n
  }

  /**
   * A paper record. An absent, null or empty title is represented by "", since
   * every use of a title treats the three alike.
   */
  datatype Paper = Paper(paperId: string, title: string, year: Year, citationCount: Count)

  /** A node of the citation network; `isCenter` is false where the source leaves it out. */
  datatype NetworkNode = NetworkNode(id: string, nodeLabel: string, year: Year, citationCount: Count, isCenter: bool)

  /** A directed citation: `from` cites `to`. */
  datatype NetworkEdge = NetworkEdge(from: string, to: string)

  /** A CSS colour: a hex code, or `rgb(r, g, b)` with integer channels. */
  datatype Color = Hex(code: string) | Rgb(r: int, g: int, b: int)

  /** The colour of a node without a usable year, and of every node when no year is known. */
  const DefaultNodeColor: Color := Hex("#6366f1")

  /** The highlight colour of the centre node in the graph. */
  const CenterNodeColor: Color := Hex("#a855f7")

  /** `Math.min(...s)` on a non-empty list. */
  function MinOf(s: seq<int>): (m: int)
    requires |s| > 0
    ensures m in s
    ensures forall i :: 0 <= i < |s| ==> m <= s[i]
  {
    if |s| == 1 then s[0]
    else
      var rest := MinOf(s[1..]);
      if s[0] <= rest then s[0] else rest
  }

  /** `Math.max(...s)` on a non-empty list. */
  function MaxOf(s: seq<int>): (m: int)
    requires |s| > 0
    ensures m in s
    ensures forall i :: 0 <= i < |s| ==> s[i] <= m
  {
    if |s| == 1 then s[0]
    else
      var rest := MaxOf(s[1..]);
      if s[0] >= rest then s[0] else rest
  }

  /** `Math.round(x)`: the nearest integer, halves rounded up. */
  function Round(x: real): (n: int)
    ensures x - 0.5 < n as real <= x + 0.5
  {
    (x + 0.5).Floor
  }

  lemma RoundMonotone(x: real, y: real)
    requires x <= y
    ensures Round(x) <= Round(y)
  {
  }

  lemma RoundOfInteger(n: int)
    ensures Round(n as real) == n
  {
  }

  /** A share of a positive whole lies in [0, 1]. */
  lemma RatioBounds(part: int, whole: int)
    requires 0 <= part <= whole && whole > 0
    ensures 0.0 <= part as real / whole as real <= 1.0
  {
    var t := part as real / whole as real;
    assert t * whole as real == part as real;
  }

  /** Dividing by the same positive number keeps the order. */
  lemma RatioMonotone(a: int, b: int, whole: int)
    requires a <= b && whole > 0
    ensures a as real / whole as real <= b as real / whole as real
  {
    var ta := a as real / whole as real;
    var tb := b as real / whole as real;
    assert ta * whole as real == a as real;
    assert tb * whole as real == b as real;
  }
}
