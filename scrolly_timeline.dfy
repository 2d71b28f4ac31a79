/** The scroll-driven honours timeline of scrollyTimeline.js: the honours
    are sorted by year, the distinct years label the axis, and each point
    that scrolls into the centre of the view is highlighted and described in
    the info panel. */
module ScrollyTimeline {
  import opened Wrappers

  /** One honour: its year, its type (`Academic`, `Creative`, `Sports`), its
      title and its description. */
  datatype Honor = Honor(year: int, kind: string, title: string, description: string)

  /** Years never decrease along `s`. */
  ghost predicate SortedByYear(s: seq<Honor>)
  {
    forall i, j :: 0 <= i < j < |s| ==> s[i].year <= s[j].year
  }

  /** The honours of year `y`, in the order of `s`. */
  function OfYear(s: seq<Honor>, y: int): (r: seq<Honor>)
    ensures |r| <= |s|
    ensures forall i :: 0 <= i < |r| ==> r[i].year == y
  {
    if s == [] then [] else (if s[0].year == y then [s[0]] else []) + OfYear(s[1..], y)
  }

  /** The filter keeps every honour of year `y`. */
  lemma {:induction false} OfYearKeeps(s: seq<Honor>, y: int)
    ensures forall h :: h in s && h.year == y ==> h in OfYear(s, y)
  {
    if s != [] {
      OfYearKeeps(s[1..], y);
      assert forall h :: h in s ==> h == s[0] || h in s[1..];
    }
  }

  /** Insert `x` after every honour whose year is not later than its own. */
  function Insert(x: Honor, s: seq<Honor>): (r: seq<Honor>)
    ensures |r| == |s| + 1
  {
    if s == [] then [x]
    else if s[0].year > x.year then [x] + s
    else [s[0]] + Insert(x, s[1..])
  }

  /** `sort((a, b) => a.year - b.year)`, which ECMA-262 requires to be
      stable: an insertion sort that keeps equal years in input order. */
  function SortByYear(s: seq<Honor>): (r: seq<Honor>)
    ensures |r| == |s|
  {
    if s == [] then [] else Insert(s[|s| - 1], SortByYear(s[..|s| - 1]))
  }

  /** Insertion adds `x` and loses nothing. */
  lemma {:induction false} InsertPermutes(x: Honor, s: seq<Honor>)
    ensures multiset(Insert(x, s)) == multiset(s) + multiset{x}
    decreases |s|
  {
    if s != [] && s[0].year <= x.year {
      InsertPermutes(x, s[1..]);
      assert s == [s[0]] + s[1..];
    }
  }

  /** Insertion keeps a sorted list sorted. */
  lemma {:induction false} InsertSorted(x: Honor, s: seq<Honor>)
    requires SortedByYear(s)
    ensures SortedByYear(Insert(x, s))
    decreases |s|
  {
    if s != [] && s[0].year <= x.year {
      InsertSorted(x, s[1..]);
      InsertPermutes(x, s[1..]);
      var r := Insert(x, s[1..]);
      forall h | h in r
        ensures s[0].year <= h.year
      {
        assert h in multiset(r);
      }
      assert forall j :: 0 <= j < |r| ==> r[j] in r;
    }
  }

  /** A sorted list whose first year is later than `y` has no honour of
      year `y`. */
  lemma {:induction false} NoneOfEarlierYear(s: seq<Honor>, y: int)
    requires SortedByYear(s) && s != [] && s[0].year > y
    ensures OfYear(s, y) == []
    decreases |s|
  {
    if |s| > 1 {
      NoneOfEarlierYear(s[1..], y);
    }
  }

  /** Insertion puts `x` after every honour of its own year. */
  lemma {:induction false} InsertStable(x: Honor, s: seq<Honor>, y: int)
    requires SortedByYear(s)
    ensures OfYear(Insert(x, s), y) == OfYear(s, y) + if x.year == y then [x] else []
    decreases |s|
  {
    var mine: seq<Honor> := if x.year == y then [x] else [];
    if s == [] {
      assert OfYear([x], y) == mine + OfYear([], y);
    } else if s[0].year > x.year {
      assert ([x] + s)[1..] == s;
      assert OfYear([x] + s, y) == mine + OfYear(s, y);
      if x.year == y {
        NoneOfEarlierYear(s, y);
      }
    } else {
      InsertStable(x, s[1..], y);
      InsertStableStep(x, s, y);
    }
  }

  /** The step of `InsertStable` past an honour whose year is not later
      than `x`'s. */
  lemma InsertStableStep(x: Honor, s: seq<Honor>, y: int)
    requires s != [] && s[0].year <= x.year
    requires OfYear(Insert(x, s[1..]), y) == OfYear(s[1..], y) + if x.year == y then [x] else []
    ensures OfYear(Insert(x, s), y) == OfYear(s, y) + if x.year == y then [x] else []
  {
    var mine: seq<Honor> := if x.year == y then [x] else [];
    var head: seq<Honor> := if s[0].year == y then [s[0]] else [];
    var rest := Insert(x, s[1..]);
    var tail := OfYear(s[1..], y);
    assert Insert(x, s) == [s[0]] + rest;
    assert ([s[0]] + rest)[1..] == rest;
    assert OfYear(Insert(x, s), y) == head + (tail + mine);
    assert OfYear(s, y) == head + tail;
    AppendAssoc(head, tail, mine);
  }

  /** Proof helper for `InsertStableStep`: appending is associative. */
  lemma AppendAssoc<T>(a: seq<T>, b: seq<T>, c: seq<T>)
    ensures a + (b + c) == (a + b) + c
  {
  }

  /** Filtering a year distributes over appending one honour. */
  lemma {:induction false} OfYearSnoc(s: seq<Honor>, h: Honor, y: int)
    ensures OfYear(s + [h], y) == OfYear(s, y) + if h.year == y then [h] else []
    decreases |s|
  {
    if s != [] {
      assert (s + [h])[1..] == s[1..] + [h];
      OfYearSnoc(s[1..], h, y);
    }
  }

  /** The sorted honours are a permutation of the input. */
  lemma {:induction false} SortByYearPermutes(s: seq<Honor>)
    ensures multiset(SortByYear(s)) == multiset(s)
    decreases |s|
  {
    if s != [] {
      var init := s[..|s| - 1];
      var last := s[|s| - 1];
      SortByYearPermutes(init);
      InsertPermutes(last, SortByYear(init));
      assert s == init + [last];
    }
  }

  /** The sorted honours have years in non-decreasing order. */
  lemma {:induction false} SortByYearSorted(s: seq<Honor>)
    ensures SortedByYear(SortByYear(s))
    decreases |s|
  {
    if s != [] {
      var init := s[..|s| - 1];
      SortByYearSorted(init);
      InsertSorted(s[|s| - 1], SortByYear(init));
    }
  }

  /** Honours of the same year keep their input order: the sort is stable. */
  lemma {:induction false} SortByYearStable(s: seq<Honor>, y: int)
    ensures OfYear(SortByYear(s), y) == OfYear(s, y)
    decreases |s|
  {
    if s != [] {
      var init := s[..|s| - 1];
      var last := s[|s| - 1];
      SortByYearStable(init, y);
      SortByYearSorted(init);
      InsertStable(last, SortByYear(init), y);
      OfYearSnoc(init, last, y);
      assert init + [last] == s;
    }
  }

  /** A list's first honour is the first of its own year. */
  lemma FirstOfOwnYear(t: seq<Honor>)
    requires t != []
    ensures OfYear(t, t[0].year) == [t[0]] + OfYear(t[1..], t[0].year)
  {
  }

  /** Two lists sorted by year that agree on the honours of every year, in
      order, are equal. */
  lemma {:induction false} SortedByYearUnique(t1: seq<Honor>, t2: seq<Honor>)
    requires SortedByYear(t1) && SortedByYear(t2)
    requires forall y :: OfYear(t1, y) == OfYear(t2, y)
    ensures t1 == t2
    decreases |t1|
  {
    if t1 == [] && t2 == [] {
    } else if t1 == [] {
      FirstOfOwnYear(t2);
      assert false;
    } else if t2 == [] {
      FirstOfOwnYear(t1);
      assert false;
    } else {
      var a, b := t1[0], t2[0];
      if a.year < b.year {
        NoneOfEarlierYear(t2, a.year);
      } else if b.year < a.year {
        NoneOfEarlierYear(t1, b.year);
      } else {
        assert OfYear(t1, a.year)[0] == a && OfYear(t2, a.year)[0] == b;
        forall y
          ensures OfYear(t1[1..], y) == OfYear(t2[1..], y)
        {
          assert OfYear(t1, y) == OfYear(t2, y);
          if y == a.year {
            assert OfYear(t1, y) == [a] + OfYear(t1[1..], y);
            assert OfYear(t2, y) == [b] + OfYear(t2[1..], y);
            assert OfYear(t1[1..], y) == OfYear(t1, y)[1..];
            assert OfYear(t2[1..], y) == OfYear(t2, y)[1..];
          } else {
            assert OfYear(t1, y) == [] + OfYear(t1[1..], y) == OfYear(t1[1..], y);
            assert OfYear(t2, y) == [] + OfYear(t2[1..], y) == OfYear(t2[1..], y);
          }
        }
        SortedByYearUnique(t1[1..], t2[1..]);
        assert t1 == [a] + t1[1..] && t2 == [b] + t2[1..];
      }
    }
  }

  /** Whatever stable algorithm the engine uses, the result is the one
      `SortByYear` gives: the only list sorted by year that keeps every
      year's honours in input order. */
  lemma StableSortIsSortByYear(s: seq<Honor>, t: seq<Honor>)
    requires SortedByYear(t)
    requires forall y :: OfYear(t, y) == OfYear(s, y)
    ensures t == SortByYear(s)
  {
    SortByYearSorted(s);
    forall y
      ensures OfYear(t, y) == OfYear(SortByYear(s), y)
    {
      SortByYearStable(s, y);
    }
    SortedByYearUnique(t, SortByYear(s));
  }

  /** `Array.from(new Set(years))`: each year once, in order of first
      occurrence. */
  function DistinctYears(s: seq<Honor>): (r: seq<int>)
    ensures forall i, j :: 0 <= i < j < |r| ==> r[i] != r[j]
    ensures forall y :: y in r <==> exists h :: h in s && h.year == y
  {
    if s == [] then []
    else
      var init := s[..|s| - 1];
      var last := s[|s| - 1];
      assert s == init + [last];
      var rest := DistinctYears(init);
      if last.year in rest then rest else rest + [last.year]
  }

  /** The distinct years of a list sorted by year are strictly increasing. */
  lemma {:induction false} DistinctYearsIncreasing(s: seq<Honor>)
    requires SortedByYear(s)
    ensures forall i, j :: 0 <= i < j < |DistinctYears(s)| ==> DistinctYears(s)[i] < DistinctYears(s)[j]
    decreases |s|
  {
    if s != [] {
      var init := s[..|s| - 1];
      var last := s[|s| - 1];
      DistinctYearsIncreasing(init);
      var rest := DistinctYears(init);
      forall i | 0 <= i < |rest|
        ensures rest[i] <= last.year
      {
        assert rest[i] in rest;
        var h :| h in init && h.year == rest[i];
        var k :| 0 <= k < |init| && init[k] == h;
      }
    }
  }

  /** A point's look: its radius and opacity. */
  datatype Style = Style(radius: int, opacity: real)

  /** The highlighted point and the dimmed ones. */
  const Highlight: Style := Style(12, 1.0)
  const Dimmed: Style := Style(8, 0.3)

  /** The points after highlighting the one at `target`. */
  function Highlighted(n: nat, target: nat): (r: seq<Style>)
    requires target < n
    ensures |r| == n
    ensures r[target] == Highlight
    ensures forall i :: 0 <= i < n && i != target ==> r[i] == Dimmed
  {
    seq(n, i requires 0 <= i < n => if i == target then Highlight else Dimmed)
  }

  /** How many points are highlighted. */
  function CountHighlighted(ps: seq<Style>): (r: nat)
    ensures r <= |ps|
  {
    if ps == [] then 0 else CountHighlighted(ps[..|ps| - 1]) + if ps[|ps| - 1] == Highlight then 1 else 0
  }

  /** Among the first `k` points only the target can be highlighted. */
  lemma {:induction false} CountHighlightedPrefix(n: nat, target: nat, k: nat)
    requires target < n && k <= n
    ensures CountHighlighted(Highlighted(n, target)[..k]) == if target < k then 1 else 0
  {
    if k > 0 {
      assert Highlighted(n, target)[..k][..k - 1] == Highlighted(n, target)[..k - 1];
      CountHighlightedPrefix(n, target, k - 1);
    }
  }

  /** Exactly one point is highlighted, and it is the target. */
  lemma ExactlyOneHighlighted(n: nat, target: nat)
    requires target < n
    ensures CountHighlighted(Highlighted(n, target)) == 1
    ensures Highlighted(n, target)[target] == Highlight
  {
    CountHighlightedPrefix(n, target, n);
    assert Highlighted(n, target)[..n] == Highlighted(n, target);
  }

  /** The info panel: its opening text, or an honour's type, year, title
      and description. */
  datatype Panel = Intro | Showing(kind: string, year: int, title: string, description: string)

  function PanelFor(h: Honor): (r: Panel)
    ensures r != Intro
    ensures r.kind == h.kind && r.year == h.year && r.title == h.title && r.description == h.description
  {
    Showing(h.kind, h.year, h.title, h.description)
  }

  /** One IntersectionObserver entry: which point it is about and whether it
      is inside the centre band. */
  datatype Entry = Entry(target: nat, isIntersecting: bool)

  /** The target of the last intersecting entry, if any. */
  function LastIntersecting(entries: seq<Entry>): (r: Option<nat>)
    ensures r.Some? <==> exists e :: e in entries && e.isIntersecting
    ensures r.Some? ==> exists e :: e in entries && e.isIntersecting && e.target == r.value
  {
    if entries == [] then None
    else
      var init := entries[..|entries| - 1];
      var last := entries[|entries| - 1];
      assert entries == init + [last];
      if last.isIntersecting then Some(last.target) else LastIntersecting(init)
  }

  /** The chosen entry is the last intersecting one of the batch: no entry
      after it intersects. */
  lemma {:induction false} LastIntersectingIsLast(entries: seq<Entry>)
    ensures LastIntersecting(entries).Some? ==>
      exists k :: 0 <= k < |entries| && entries[k].isIntersecting && entries[k].target == LastIntersecting(entries).value &&
        forall j :: k < j < |entries| ==> !entries[j].isIntersecting
  {
    if entries != [] {
      var init := entries[..|entries| - 1];
      var last := entries[|entries| - 1];
      assert entries == init + [last];
      if last.isIntersecting {
        assert entries[|entries| - 1].target == LastIntersecting(entries).value;
      } else if LastIntersecting(init).Some? {
        LastIntersectingIsLast(init);
        var k :| 0 <= k < |init| && init[k].isIntersecting && init[k].target == LastIntersecting(init).value &&
          forall j :: k < j < |init| ==> !init[j].isIntersecting;
        assert entries[k] == init[k];
        assert forall j :: k < j < |entries| ==> !entries[j].isIntersecting;
      }
    }
  }

  /** The timeline: the sorted honours bound to the points, the axis years,
      each point's look and the info panel. */
  class Scrolly {
    const honors: seq<Honor>
    const years: seq<int>
    const points: array<Style>
    var panel: Panel

    ghost predicate Valid()
    {
      points.Length == |honors|
    }

    /** Sort the data, collect the years, draw every point at radius 8 and
        show the opening text. */
    constructor (data: seq<Honor>)
      ensures Valid()
      ensures honors == SortByYear(data) && years == DistinctYears(honors)
      ensures forall i :: 0 <= i < points.Length ==> points[i] == Style(8, 1.0)
      ensures panel == Intro
      ensures fresh(points)
    {
      honors := SortByYear(data);
      years := DistinctYears(SortByYear(data));
      points := new Style[|SortByYear(data)|](_ => Style(8, 1.0));
      panel := Intro;
    }

    /** The observer callback for one entry: an intersecting entry dims
        every point, highlights its own and shows its honour in the panel; a
        non-intersecting entry changes nothing. */
    method HandleEntry(e: Entry)
      requires Valid() && e.target < points.Length
      modifies points, this`panel
      ensures e.isIntersecting ==> points[..] == Highlighted(points.Length, e.target) && panel == PanelFor(honors[e.target])
      ensures !e.isIntersecting ==> points[..] == old(points[..]) && panel == old(panel)
    {
      if e.isIntersecting {
        for i := 0 to points.Length
          invariant forall k :: 0 <= k < i ==> points[k] == Dimmed
        {
          points[i] := Dimmed;
        }
        points[e.target] := Highlight;
        panel := PanelFor(honors[e.target]);
      }
    }

    /** The callback over a batch of entries: the last intersecting entry of
        the batch decides what is highlighted and shown; a batch without one
        changes nothing. */
    method OnEntries(entries: seq<Entry>)
      requires Valid()
      requires forall e :: e in entries ==> e.target < points.Length
      modifies points, this`panel
      ensures LastIntersecting(entries).Some? ==>
        var t := LastIntersecting(entries).value;
        t < points.Length && points[..] == Highlighted(points.Length, t) && panel == PanelFor(honors[t])
      ensures LastIntersecting(entries).None? ==> points[..] == old(points[..]) && panel == old(panel)
    {
      for j := 0 to |entries|
        invariant LastIntersecting(entries[..j]).Some? ==>
          var t := LastIntersecting(entries[..j]).value;
          t < points.Length && points[..] == Highlighted(points.Length, t) && panel == PanelFor(honors[t])
        invariant LastIntersecting(entries[..j]).None? ==> points[..] == old(points[..]) && panel == old(panel)
      {
        assert entries[..j + 1][..j] == entries[..j];
        assert entries[j] in entries;
        HandleEntry(entries[j]);
      }
      assert entries[..|entries|] == entries;
    }
  }
}
