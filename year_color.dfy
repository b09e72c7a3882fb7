/**
 * The paper detail page's year colouring: the years of the network's nodes
 * give a range, and a node's year is mapped linearly, channel by channel,
 * from green (the oldest year) to blue (the newest). Nodes without a usable
 * year, and every node when no year is known, get the default colour.
 */
module YearColor {
  import opened NetworkTypes

  /** The colour of the oldest year. */
  const OldColor: Color := Rgb(74, 222, 128)

  /** The colour of the newest year. */
  const NewColor: Color := Rgb(99, 102, 241)

  /** The year of one node as `Math.min`/`Math.max` see it, after the page's filter, as written. */
  function YearAsWritten(y: Year): seq<int> {
    match y
    case Undefined => []
    case Null => [0]
    case Known(v) => [v]
  }

  /**
   * The years the page collects, as written: the filter drops only `undefined`,
   * so a JSON null year stays in the list and `Math.min`/`Math.max` read it as 0.
   */
  function CollectYearsAsWritten(nodes: seq<NetworkNode>): (years: seq<int>)
    ensures forall y :: y in years <==> exists n :: n in nodes && (n.year == Known(y) || (n.year == Null && y == 0))
  {
    if nodes == [] then []
    else YearAsWritten(nodes[0].year) + CollectYearsAsWritten(nodes[1..])
  }

  /** The years of the nodes whose year is a number, in node order: what the range is meant to span. */
  function CollectYears(nodes: seq<NetworkNode>): (years: seq<int>)
    ensures forall y :: y in years <==> exists n :: n in nodes && n.year == Known(y)
  {
    if nodes == [] then []
    else (if nodes[0].year.Known? then [nodes[0].year.value] else []) + CollectYears(nodes[1..])
  }

  /** Without null years the page's collection is the intended one. */
  lemma {:induction false} CollectionsAgreeWithoutNull(nodes: seq<NetworkNode>)
    requires forall n :: n in nodes ==> n.year != Null
    ensures CollectYearsAsWritten(nodes) == CollectYears(nodes)
  {
    if nodes != [] {
      assert forall n :: n in nodes[1..] ==> n in nodes;
      CollectionsAgreeWithoutNull(nodes[1..]);
    }
  }

  /** `minYear`: 2020 when there is no year. */
  function MinYear(years: seq<int>): (m: int)
    ensures years != [] ==> m in years && forall i :: 0 <= i < |years| ==> m <= years[i]
    ensures years == [] ==> m == 2020
  {
    if |years| > 0 then MinOf(years) else 2020
  }

  /** `maxYear`: 2025 when there is no year. */
  function MaxYear(years: seq<int>): (m: int)
    ensures years != [] ==> m in years && forall i :: 0 <= i < |years| ==> years[i] <= m
    ensures years == [] ==> m == 2025
  {
    if |years| > 0 then MaxOf(years) else 2025
  }

  /** `Math.round(from + (to - from) * t)` */
  function Channel(from: int, to: int, t: real): (c: int)
    ensures t == 0.0 ==> c == from
    ensures t == 1.0 ==> c == to
  {
    Round(from as real + (to - from) as real * t)
  }

  /** Where `year` sits in the range: `(year - minYear) / (maxYear - minYear || 1)`. */
  function Normalized(years: seq<int>, year: int): (t: real)
    ensures var span := MaxYear(years) - MinYear(years);
      t * (if span == 0 then 1 else span) as real == (year - MinYear(years)) as real
  {
    var span := MaxYear(years) - MinYear(years);
    (year - MinYear(years)) as real / (if span == 0 then 1 else span) as real
  }

  /** `getYearColor`, over the list of collected years. */
  function GetYearColor(years: seq<int>, year: Year): (c: Color)
    ensures c == DefaultNodeColor <==> !IsTruthy(year) || years == []
    ensures c.Rgb? <==> IsTruthy(year) && years != []
  {
    if !IsTruthy(year) || |years| == 0 then DefaultNodeColor
    else
      var t := Normalized(years, year.value);
      Rgb(Channel(74, 99, t), Channel(222, 102, t), Channel(128, 241, t))
  }

  /** Nothing is collected iff no node has a numeric year. */
  lemma NoYearsCollected(nodes: seq<NetworkNode>)
    ensures CollectYears(nodes) == [] <==> forall n :: n in nodes ==> !n.year.Known?
  {
    var years := CollectYears(nodes);
    if years != [] {
      assert years[0] in years;
    }
  }

  /** Nothing is collected as written iff every node's year is undefined. */
  lemma NoYearsCollectedAsWritten(nodes: seq<NetworkNode>)
    ensures CollectYearsAsWritten(nodes) == [] <==> forall n :: n in nodes ==> n.year.Undefined?
  {
    var years := CollectYearsAsWritten(nodes);
    if years != [] {
      assert years[0] in years;
    }
    forall n | n in nodes
      ensures years == [] ==> n.year.Undefined?
    {
      if n.year.Known? {
        assert n.year.value in years;
      } else if n.year.Null? {
        assert 0 in years;
      }
    }
  }

  /**
   * The colour function the page hands to the graph (`getNodeColor={getYearColor}`),
   * as written: over the years the page collects, null ones read as 0.
   */
  function NodeColorForAsWritten(nodes: seq<NetworkNode>): (color: Year -> Color)
    ensures forall y :: color(y) == DefaultNodeColor <==> !IsTruthy(y) || forall n :: n in nodes ==> n.year.Undefined?
  {
    NoYearsCollectedAsWritten(nodes);
    y => GetYearColor(CollectYearsAsWritten(nodes), y)
  }

  /** The intended colour function: over the numeric years of the network's nodes only. */
  function NodeColorFor(nodes: seq<NetworkNode>): (color: Year -> Color)
    ensures forall y :: color(y) == DefaultNodeColor <==> !IsTruthy(y) || forall n :: n in nodes ==> !n.year.Known?
  {
    NoYearsCollected(nodes);
    y => GetYearColor(CollectYears(nodes), y)
  }

  /** Without null years the page's colour function is the intended one. */
  lemma ColorFunctionsAgreeWithoutNull(nodes: seq<NetworkNode>, y: Year)
    requires forall n :: n in nodes ==> n.year != Null
    ensures NodeColorForAsWritten(nodes)(y) == NodeColorFor(nodes)(y)
  {
    CollectionsAgreeWithoutNull(nodes);
  }

  lemma NormalizedBounds(years: seq<int>, y: int)
    requires years != [] && MinOf(years) <= y <= MaxOf(years)
    ensures 0.0 <= Normalized(years, y) <= 1.0
  {
    var span := MaxOf(years) - MinOf(years);
    RatioBounds(y - MinOf(years), if span == 0 then 1 else span);
  }

  lemma SelfRatio(n: int)
    requires n > 0
    ensures n as real / n as real == 1.0
  {
  }

  lemma ZeroRatio(whole: int)
    requires whole > 0
    ensures 0 as real / whole as real == 0.0
  {
  }

  /** The oldest year gets the old colour. */
  lemma OldestYearGetsOldColor(years: seq<int>, y: int)
    requires years != [] && y == MinOf(years) && y != 0
    ensures GetYearColor(years, Known(y)) == OldColor
  {
    assert MinYear(years) == y;
    var span := MaxYear(years) - MinYear(years);
    ZeroRatio(if span == 0 then 1 else span);
    assert Normalized(years, y) == 0.0;
    assert GetYearColor(years, Known(y)) == Rgb(Channel(74, 99, 0.0), Channel(222, 102, 0.0), Channel(128, 241, 0.0));
    assert Channel(74, 99, 0.0) == 74 by { RoundOfInteger(74); }
    assert Channel(222, 102, 0.0) == 222 by { RoundOfInteger(222); }
    assert Channel(128, 241, 0.0) == 128 by { RoundOfInteger(128); }
  }

  /** The newest year gets the new colour, unless it is also the oldest. */
  lemma NewestYearGetsNewColor(years: seq<int>, y: int)
    requires years != [] && y == MaxOf(years) && y != 0 && MaxOf(years) != MinOf(years)
    ensures GetYearColor(years, Known(y)) == NewColor
  {
    var lo, hi := MinOf(years), MaxOf(years);
    assert MinYear(years) == lo && MaxYear(years) == hi;
    SelfRatio(hi - lo);
    assert Normalized(years, y) == 1.0;
    assert Channel(74, 99, 1.0) == 99 by { RoundOfInteger(99); }
    assert Channel(222, 102, 1.0) == 102 by { RoundOfInteger(102); }
    assert Channel(128, 241, 1.0) == 241 by { RoundOfInteger(241); }
  }

  /** Every channel of a collected year's colour lies between the two endpoints. */
  lemma ChannelsBetweenEndpoints(years: seq<int>, y: int)
    requires y in years && y != 0
    ensures var c := GetYearColor(years, Known(y));
      c.Rgb? && 74 <= c.r <= 99 && 102 <= c.g <= 222 && 128 <= c.b <= 241
  {
    NormalizedBounds(years, y);
    var t := Normalized(years, y);
    RoundMonotone(74.0, 74.0 + 25.0 * t);
    RoundMonotone(74.0 + 25.0 * t, 99.0);
    RoundMonotone(102.0, 222.0 - 120.0 * t);
    RoundMonotone(222.0 - 120.0 * t, 222.0);
    RoundMonotone(128.0, 128.0 + 113.0 * t);
    RoundMonotone(128.0 + 113.0 * t, 241.0);
    RoundOfInteger(74);
    RoundOfInteger(99);
    RoundOfInteger(102);
    RoundOfInteger(222);
    RoundOfInteger(128);
    RoundOfInteger(241);
  }

  /** A later year moves every channel toward the new colour: red and blue up, green down. */
  lemma ColorMonotoneInYear(years: seq<int>, y1: int, y2: int)
    requires years != [] && y1 != 0 && y2 != 0 && y1 <= y2
    ensures var c1 := GetYearColor(years, Known(y1));
            var c2 := GetYearColor(years, Known(y2));
      c1.r <= c2.r && c1.g >= c2.g && c1.b <= c2.b
  {
    var span := MaxOf(years) - MinOf(years);
    RatioMonotone(y1 - MinOf(years), y2 - MinOf(years), if span == 0 then 1 else span);
    var t1 := Normalized(years, y1);
    var t2 := Normalized(years, y2);
    assert GetYearColor(years, Known(y1)) == Rgb(Channel(74, 99, t1), Channel(222, 102, t1), Channel(128, 241, t1));
    assert GetYearColor(years, Known(y2)) == Rgb(Channel(74, 99, t2), Channel(222, 102, t2), Channel(128, 241, t2));
    RoundMonotone(74.0 + 25.0 * t1, 74.0 + 25.0 * t2);
    RoundMonotone(222.0 - 120.0 * t2, 222.0 - 120.0 * t1);
    RoundMonotone(128.0 + 113.0 * t1, 128.0 + 113.0 * t2);
  }

  /** With the intended collection, a node holding the oldest known year is coloured green. */
  lemma OldestNodeGetsOldColor(nodes: seq<NetworkNode>, i: nat)
    requires i < |nodes| && nodes[i].year.Known? && nodes[i].year.value != 0
    requires forall n :: n in nodes && n.year.Known? ==> nodes[i].year.value <= n.year.value
    ensures NodeColorFor(nodes)(nodes[i].year) == OldColor
  {
    var years := CollectYears(nodes);
    var y := nodes[i].year.value;
    assert nodes[i] in nodes;
    assert y in years;
    assert MinOf(years) == y by {
      var m := MinOf(years);
      assert m in years;
    }
    OldestYearGetsOldColor(years, y);
  }

  /** A network whose centre paper has a null year. */
  const NullYearSample: seq<NetworkNode> := [
    NetworkNode("c", "C", Null, None, true),
    NetworkNode("r", "R", Known(2010), None, false),
    NetworkNode("s", "S", Known(2020), None, false)]

  lemma NullYearSampleYears()
    ensures CollectYearsAsWritten(NullYearSample) == [0, 2010, 2020]
    ensures CollectYears(NullYearSample) == [2010, 2020]
  {
    var nodes := NullYearSample;
    assert CollectYearsAsWritten(nodes[2..][1..]) == [];
    assert CollectYearsAsWritten(nodes[1..][1..]) == [2020];
    assert CollectYearsAsWritten(nodes[1..]) == [2010, 2020];
    assert CollectYears(nodes[2..][1..]) == [];
    assert CollectYears(nodes[1..][1..]) == [2020];
    assert CollectYears(nodes[1..]) == [2010, 2020];
  }

  /** With 0 among the years, 2010 sits near the top of the range: almost the newest colour, far from green. */
  lemma ZeroInRangeShiftsColor()
    ensures GetYearColor([0, 2010, 2020], Known(2010)) == Rgb(99, 103, 240)
  {
    var years := [0, 2010, 2020];
    assert years[1..] == [2010, 2020] && years[1..][1..] == [2020];
    assert MinOf(years) == 0;
    assert MaxOf(years) == 2020;
    var t := Normalized(years, 2010);
    assert t == 2010.0 / 2020.0;
  }

  /**
   * The page as written: one node with a null year drags the range down to 0,
   * so the oldest real year no longer gets the old colour; the intended
   * colour function gives it the old colour.
   */
  lemma NullYearShiftsRangeAsWritten()
    ensures NodeColorForAsWritten(NullYearSample)(Known(2010)) != OldColor
    ensures NodeColorFor(NullYearSample)(Known(2010)) == OldColor
  {
    NullYearSampleYears();
    ZeroInRangeShiftsColor();
    assert MinOf([2010, 2020]) == 2010 by {
      assert [2010, 2020][1..] == [2020];
    }
    OldestYearGetsOldColor([2010, 2020], 2010);
  }
}
