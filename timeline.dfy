/** The awards timeline of timeline.js: events are bucketed by year and
    stacked alternately above and below the axis, at fixed vertical offsets,
    with long names shortened for their labels. */
module Timeline {

  /** One award: its year, its name and its type (`Scholarship`, `Sports`,
      `Exhibition`). */
  datatype Event = Event(year: int, name: string, kind: string)

  /** A year's two stacks: the events drawn above the axis and below it. */
  datatype Buckets = Buckets(top: seq<Event>, bottom: seq<Event>)

  /** The events of year `y`, in input order. */
  function OfYear(data: seq<Event>, y: int): (r: seq<Event>)
    ensures |r| <= |data|
    ensures forall e :: e in r <==> e in data && e.year == y
  {
    if data == [] then []
    else OfYear(data[..|data| - 1], y) + if data[|data| - 1].year == y then [data[|data| - 1]] else []
  }

  /** The years that occur in `data`. */
  function YearsOf(data: seq<Event>): (r: set<int>)
    ensures forall e :: e in data ==> e.year in r
    ensures forall y :: y in r ==> exists e :: e in data && e.year == y
  {
    if data == [] then {} else YearsOf(data[..|data| - 1]) + {data[|data| - 1].year}
  }

  /** The elements at even positions 0, 2, 4, … in order. */
  function Evens<T>(s: seq<T>): (r: seq<T>)
    ensures |r| == (|s| + 1) / 2
    ensures forall j :: 0 <= j < |r| ==> r[j] == s[2 * j]
  {
    if s == [] then [] else [s[0]] + Odds(s[1..])
  }

  /** The elements at odd positions 1, 3, 5, … in order. */
  function Odds<T>(s: seq<T>): (r: seq<T>)
    ensures |r| == |s| / 2
    ensures forall j :: 0 <= j < |r| ==> r[j] == s[2 * j + 1]
  {
    if s == [] then [] else Evens(s[1..])
  }

  /** "Even index goes Top, odd index goes Bottom": the reference split of
      one year's events. */
  function Alternate(s: seq<Event>): Buckets
  {
    Buckets(Evens(s), Odds(s))
  }

  /** The placement rule of the `forEach`: an event joins `top` when `top` is
      no longer than `bottom`, and `bottom` otherwise. */
  function Place(b: Buckets, e: Event): (r: Buckets)
    ensures r.top == b.top + [e] || r.bottom == b.bottom + [e]
    ensures r.top == b.top || r.bottom == b.bottom
    ensures |r.top| + |r.bottom| == |b.top| + |b.bottom| + 1
  {
    if |b.top| <= |b.bottom| then Buckets(b.top + [e], b.bottom) else Buckets(b.top, b.bottom + [e])
  }

  /** The two stacks are balanced: `top` has as many events as `bottom` or
      one more. */
  predicate Balanced(b: Buckets)
  {
    |b.top| == |b.bottom| || |b.top| == |b.bottom| + 1
  }

  /** Placement keeps the stacks balanced. */
  lemma PlaceBalanced(b: Buckets, e: Event)
    requires Balanced(b)
    ensures Balanced(Place(b, e))
    ensures Place(b, e).top == b.top + [e] <==> |b.top| == |b.bottom|
  {
  }

  /** Appending to the input extends the even positions when the input has
      even length, and the odd ones otherwise. */
  lemma {:induction false} EvensOddsSnoc<T>(s: seq<T>, e: T)
    ensures |s| % 2 == 0 ==> Evens(s + [e]) == Evens(s) + [e] && Odds(s + [e]) == Odds(s)
    ensures |s| % 2 == 1 ==> Evens(s + [e]) == Evens(s) && Odds(s + [e]) == Odds(s) + [e]
    decreases |s|
  {
    if s != [] {
      assert (s + [e])[1..] == s[1..] + [e];
      EvensOddsSnoc(s[1..], e);
    }
  }

  /** The comment's claim: placing by "top is not longer than bottom" is the
      same as sending the even-numbered events of the year to the top. */
  lemma PlaceIsAlternate(s: seq<Event>, e: Event)
    ensures Place(Alternate(s), e) == Alternate(s + [e])
  {
    EvensOddsSnoc(s, e);
  }

  /** The `k`-th event of a year (0-based, in input order) is drawn above
      the axis exactly when `k` is even, as the `(k / 2)`-th of its stack. */
  lemma AlternatePosition(s: seq<Event>, k: nat)
    requires k < |s|
    ensures k % 2 == 0 ==> k / 2 < |Alternate(s).top| && Alternate(s).top[k / 2] == s[k]
    ensures k % 2 == 1 ==> k / 2 < |Alternate(s).bottom| && Alternate(s).bottom[k / 2] == s[k]
  {
  }

  /** Every event of the year lands in exactly one stack, none is lost or
      duplicated, and the stacks are balanced. */
  lemma {:induction false} AlternatePartition(s: seq<Event>)
    ensures |Alternate(s).top| + |Alternate(s).bottom| == |s|
    ensures Balanced(Alternate(s))
    ensures multiset(Alternate(s).top) + multiset(Alternate(s).bottom) == multiset(s)
    decreases |s|
  {
    if s != [] {
      var init := s[..|s| - 1];
      var last := s[|s| - 1];
      assert init + [last] == s;
      AlternatePartition(init);
      EvensOddsSnoc(init, last);
    }
  }

  /** Events of a year filtered from a longer input: the last event joins its
      own year only. */
  lemma OfYearSnoc(data: seq<Event>, i: nat, y: int)
    requires i < |data|
    ensures data[i].year == y ==> OfYear(data[..i + 1], y) == OfYear(data[..i], y) + [data[i]]
    ensures data[i].year != y ==> OfYear(data[..i + 1], y) == OfYear(data[..i], y)
  {
    assert data[..i + 1][..i] == data[..i];
  }

  /** The years of a longer input: the last event's year joins them. */
  lemma YearsOfSnoc(data: seq<Event>, i: nat)
    requires i < |data|
    ensures YearsOf(data[..i + 1]) == YearsOf(data[..i]) + {data[i].year}
  {
    assert data[..i + 1][..i] == data[..i];
  }

  /** A year absent from the data has no events. */
  lemma OfYearAbsent(data: seq<Event>, y: int)
    requires y !in YearsOf(data)
    ensures OfYear(data, y) == []
  {
    if OfYear(data, y) != [] {
      assert OfYear(data, y)[0] in OfYear(data, y);
    }
  }

  /** The buckets of `m` are, year by year, the alternate split of the
      events of `seen`, and `m` has a bucket for exactly their years. */
  ghost predicate SplitsOf(m: map<int, Buckets>, seen: seq<Event>)
  {
    && m.Keys == YearsOf(seen)
    && forall y :: y in m ==> m[y] == Alternate(OfYear(seen, y))
  }

  /** One turn of the `yearMap` loop keeps the map equal to the alternate
      split of the events seen so far. */
  lemma YearMapStep(data: seq<Event>, i: nat, before: map<int, Buckets>, after: map<int, Buckets>)
    requires i < |data|
    requires SplitsOf(before, data[..i])
    requires after == before[data[i].year := Place(if data[i].year in before then before[data[i].year] else Buckets([], []), data[i])]
    ensures SplitsOf(after, data[..i + 1])
  {
    YearsOfSnoc(data, i);
    YearMapValues(data, i, before, after);
  }

  /** The buckets after one turn, year by year. */
  lemma YearMapValues(data: seq<Event>, i: nat, before: map<int, Buckets>, after: map<int, Buckets>)
    requires i < |data|
    requires SplitsOf(before, data[..i])
    requires after == before[data[i].year := Place(if data[i].year in before then before[data[i].year] else Buckets([], []), data[i])]
    ensures forall y :: y in after ==> after[y] == Alternate(OfYear(data[..i + 1], y))
  {
    forall y | y in after
      ensures after[y] == Alternate(OfYear(data[..i + 1], y))
    {
      if y == data[i].year {
        YearMapStepAt(data, i, before);
      } else {
        OfYearSnoc(data, i, y);
      }
    }
  }

  /** The bucket of the year of event `i` after that event is placed. */
  lemma YearMapStepAt(data: seq<Event>, i: nat, before: map<int, Buckets>)
    requires i < |data|
    requires SplitsOf(before, data[..i])
    ensures var y := data[i].year;
      Place(if y in before then before[y] else Buckets([], []), data[i]) == Alternate(OfYear(data[..i + 1], y))
  {
    var y := data[i].year;
    var seen := OfYear(data[..i], y);
    OfYearSnoc(data, i, y);
    if y !in before {
      OfYearAbsent(data[..i], y);
    }
    PlaceIsAlternate(seen, data[i]);
  }

  /** The in-place `target.push(d)` of the loop: the event joins `top` when
      `top` is no longer than `bottom`, and `bottom` otherwise. `Place` is its
      specification, and the loop of `BuildYearMap` runs this step. */
  method Push(b: Buckets, d: Event) returns (r: Buckets)
    ensures r == Place(b, d)
  {
    if |b.top| <= |b.bottom| {
      r := Buckets(b.top + [d], b.bottom);
    } else {
      r := Buckets(b.top, b.bottom + [d]);
    }
  }

  /** The `yearMap` loop: every year present in the data gets a bucket pair,
      and each year's events are split alternately, in input order. */
  method BuildYearMap(data: seq<Event>) returns (yearMap: map<int, Buckets>)
    ensures yearMap.Keys == YearsOf(data)
    ensures forall y :: y in yearMap ==> yearMap[y] == Alternate(OfYear(data, y))
  {
    yearMap := map[];
    for i := 0 to |data|
      invariant SplitsOf(yearMap, data[..i])
    {
      var d := data[i];
      var b := if d.year in yearMap then yearMap[d.year] else Buckets([], []);
      b := Push(b, d);
      ghost var before := yearMap;
      yearMap := yearMap[d.year := b];
      YearMapStep(data, i, before, yearMap);
    }
    assert data[..|data|] == data;
  }

  /** The drawing area: 450 pixels minus top and bottom margins of 50. */
  const Height: real := 450.0 - 50.0 - 50.0
  /** The axis runs through the middle of the drawing area. */
  const YCenter: real := Height / 2.0
  /** Vertical space between two events of the same stack. */
  const Spacing: real := 35.0

  /** Height of the `i`-th event above the axis. */
  function TopY(i: nat): (r: real)
    ensures r < YCenter
  {
    YCenter - 40.0 - i as real * Spacing
  }

  /** Height of the `i`-th event below the axis. */
  function BottomY(i: nat): (r: real)
    ensures r > YCenter
  {
    YCenter + 50.0 + i as real * Spacing
  }

  /** Each stack grows away from the axis, one `Spacing` per event, so no
      two events of a year share a position. */
  lemma StacksMonotone(i: nat, j: nat)
    requires i < j
    ensures TopY(j) < TopY(i) && TopY(i) - TopY(j) >= Spacing
    ensures BottomY(i) < BottomY(j) && BottomY(j) - BottomY(i) >= Spacing
    ensures TopY(i) - TopY(j) == (j - i) as real * Spacing
    ensures BottomY(j) - BottomY(i) == (j - i) as real * Spacing
  {
  }

  /** The control point of the curved connector between the axis and the
      event drawn at height `y`. */
  function ConnectorControl(y: real, isTop: bool): (r: real)
    ensures isTop ==> r > y
    ensures !isTop ==> r < y
    ensures r - y == 20.0 || y - r == 20.0
  {
    if isTop then y + 20.0 else y - 20.0
  }

  /** The connector's control point lies strictly between its event and the
      axis, on either side. */
  lemma ControlBetween(i: nat)
    ensures TopY(i) < ConnectorControl(TopY(i), true) < YCenter
    ensures BottomY(i) > ConnectorControl(BottomY(i), false) > YCenter
  {
  }

  /** The label text: names longer than 20 characters are cut to their first
      18 characters followed by an ellipsis of three dots. */
  function ShortName(name: string): (r: string)
    ensures |r| <= 21
    ensures |name| <= 20 ==> r == name
    ensures |name| > 20 ==> |r| == 21 && r[..18] == name[..18] && r[18..] == "..."
  {
    if |name| > 20 then name[..18] + "..." else name
  }

  /** Shortening a label twice changes nothing more. */
  lemma ShortNameIdempotent(name: string)
    ensures ShortName(ShortName(name)) == ShortName(name)
  {
    if |name| > 20 {
      var r := ShortName(name);
      assert r[..18] + "..." == r;
    }
  }
}
