/** The SF-36 grouped bar chart of ketoViz.js: the scores are turned into
    changes from the first visit, reshaped to one record per bar, and drawn
    either as absolute scores or as non-negative changes. */
module KetoViz {
  import opened Wrappers

  /** One visit: the month and the two component scores. */
  datatype Raw = Raw(time: int, physical: real, mental: real)

  /** A visit with its changes from the first visit (`Physical_Diff`,
      `Mental_Diff`) and the first visit's scores (`P_Baseline`,
      `M_Baseline`). */
  datatype Row = Row(time: int, physical: real, mental: real,
                     physicalDiff: real, mentalDiff: real,
                     pBaseline: real, mBaseline: real)

  /** The two components, in the order of `SCORES`. */
  datatype Score = Physical | Mental

  const Scores: seq<Score> := [Physical, Mental]

  /** One bar: a visit's month, a component, its score and its change. The
      `Baseline` field reads `Physical_Baseline` or `Mental_Baseline`, which
      no row has, so it is always None. */
  datatype Long = Long(time: int, component: Score, absolute: real, change: real, baseline: Option<real>)

  /** The two display modes of the radio buttons. */
  datatype Mode = Absolute | Change

  /** The score of one component of a row (`d[key]`). */
  function ScoreOf(d: Row, key: Score): (r: real)
    ensures key == Physical ==> r == d.physical
    ensures key == Mental ==> r == d.mental
  {
    match key
    case Physical => d.physical
    case Mental => d.mental
  }

  /** The change of one component of a row (`d[key + "_Diff"]`). */
  function DiffOf(d: Row, key: Score): (r: real)
    ensures key == Physical ==> r == d.physicalDiff
    ensures key == Mental ==> r == d.mentalDiff
  {
    match key
    case Physical => d.physicalDiff
    case Mental => d.mentalDiff
  }

  /** The first visit is the baseline: every row gets its scores' changes
      from it and a copy of its scores. An empty list maps to an empty list. */
  function WithDiffs(raw: seq<Raw>): (r: seq<Row>)
    ensures |r| == |raw|
    ensures forall i :: 0 <= i < |r| ==>
      r[i].time == raw[i].time && r[i].physical == raw[i].physical && r[i].mental == raw[i].mental
  {
    if raw == [] then []
    else
      var baseline := raw[0];
      seq(|raw|, i requires 0 <= i < |raw| =>
        Row(raw[i].time, raw[i].physical, raw[i].mental,
            raw[i].physical - baseline.physical, raw[i].mental - baseline.mental,
            baseline.physical, baseline.mental))
  }

  /** Every row's score is the first visit's score plus the row's change,
      and the first visit's own changes are zero. */
  lemma DiffsFromBaseline(raw: seq<Raw>, i: nat, key: Score)
    requires i < |raw|
    ensures ScoreOf(WithDiffs(raw)[i], key) == ScoreOf(WithDiffs(raw)[0], key) + DiffOf(WithDiffs(raw)[i], key)
    ensures DiffOf(WithDiffs(raw)[0], key) == 0.0
    ensures WithDiffs(raw)[i].pBaseline == raw[0].physical && WithDiffs(raw)[i].mBaseline == raw[0].mental
  {
  }

  /** The records of one row, one per component in `SCORES` order. */
  function Widen(d: Row): (r: seq<Long>)
    ensures |r| == |Scores|
  {
    seq(|Scores|, k requires 0 <= k < |Scores| => Long(d.time, Scores[k], ScoreOf(d, Scores[k]), DiffOf(d, Scores[k]), None))
  }

  /** The wide-to-long `flatMap`: two records per row, row after row. */
  function ToLong(rows: seq<Row>): (r: seq<Long>)
    ensures |r| == 2 * |rows|
  {
    if rows == [] then []
    else ToLong(rows[..|rows| - 1]) + Widen(rows[|rows| - 1])
  }

  /** Record `2 * i + k` is component `k` of row `i`: two records per row,
      row-major, in `SCORES` order, with the score and change copied from the
      row. */
  lemma {:induction false} ToLongAt(rows: seq<Row>, i: nat, k: nat)
    requires i < |rows| && k < 2
    ensures ToLong(rows)[2 * i + k] == Long(rows[i].time, Scores[k], ScoreOf(rows[i], Scores[k]), DiffOf(rows[i], Scores[k]), None)
    decreases |rows|
  {
    var init := rows[..|rows| - 1];
    if i < |rows| - 1 {
      ToLongAt(init, i, k);
    }
  }

  /** Reshaping one more row appends its two records. */
  lemma ToLongSnoc(rows: seq<Row>, d: Row)
    ensures ToLong(rows + [d]) == ToLong(rows) + Widen(d)
  {
    assert (rows + [d])[..|rows|] == rows;
  }

  /** The bars' records: those after the first month, in order. */
  function KeepLater(ls: seq<Long>): (r: seq<Long>)
    ensures |r| <= |ls|
    ensures forall l :: l in r <==> l in ls && l.time > 0
  {
    if ls == [] then []
    else KeepLater(ls[..|ls| - 1]) + if ls[|ls| - 1].time > 0 then [ls[|ls| - 1]] else []
  }

  /** The rows after the first month, in order. */
  function LaterRows(rows: seq<Row>): (r: seq<Row>)
    ensures |r| <= |rows|
    ensures forall d :: d in r <==> d in rows && d.time > 0
  {
    if rows == [] then []
    else LaterRows(rows[..|rows| - 1]) + if rows[|rows| - 1].time > 0 then [rows[|rows| - 1]] else []
  }

  /** `timePoints`: the months after the first, in order. */
  function TimePoints(rows: seq<Row>): (r: seq<int>)
    ensures |r| == |LaterRows(rows)|
    ensures forall i :: 0 <= i < |r| ==> r[i] == LaterRows(rows)[i].time && r[i] > 0
  {
    var later := LaterRows(rows);
    seq(|later|, i requires 0 <= i < |later| => later[i].time)
  }

  /** Filtering distributes over concatenation. */
  lemma {:induction false} KeepLaterAppend(a: seq<Long>, b: seq<Long>)
    ensures KeepLater(a + b) == KeepLater(a) + KeepLater(b)
    decreases |b|
  {
    if b == [] {
      assert a + b == a;
    } else {
      var b' := b[..|b| - 1];
      assert (a + b)[..|a + b| - 1] == a + b';
      assert (a + b)[|a + b| - 1] == b[|b| - 1];
      KeepLaterAppend(a, b');
    }
  }

  /** Both records of a row share its month, so filtering them keeps both or
      neither. */
  lemma KeepLaterWiden(d: Row)
    ensures KeepLater(Widen(d)) == if d.time > 0 then Widen(d) else []
  {
    var w := Widen(d);
    assert w[..1][..0] == [];
    assert w[..|w| - 1] == w[..1];
  }

  /** Dropping the first month's records from the long list is the same as
      reshaping the later rows: the records behind `dataLong` are the ones
      behind the bars. */
  lemma {:induction false} KeepLaterToLong(rows: seq<Row>)
    ensures KeepLater(ToLong(rows)) == ToLong(LaterRows(rows))
    decreases |rows|
  {
    if rows != [] {
      var init := rows[..|rows| - 1];
      var last := rows[|rows| - 1];
      assert ToLong(rows) == ToLong(init) + Widen(last);
      KeepLaterToLong(init);
      KeepLaterAppend(ToLong(init), Widen(last));
      KeepLaterWiden(last);
      if last.time > 0 {
        assert LaterRows(rows) == LaterRows(init) + [last];
        ToLongSnoc(LaterRows(init), last);
      } else {
        assert LaterRows(rows) == LaterRows(init);
      }
    }
  }

  /** `d3.max`: the largest value, None (d3's `undefined`) for no values. */
  function MaxOf(xs: seq<real>): (r: Option<real>)
    ensures r.None? <==> xs == []
    ensures r.Some? ==> r.value in xs && forall x :: x in xs ==> x <= r.value
  {
    if xs == [] then None
    else
      var rest := MaxOf(xs[..|xs| - 1]);
      var last := xs[|xs| - 1];
      assert xs == xs[..|xs| - 1] + [last];
      if rest.Some? && rest.value > last then rest else Some(last)
  }

  /** `Math.max(0, value)`. */
  function NonNegative(v: real): (r: real)
    ensures r >= 0.0 && r >= v
    ensures r == v || r == 0.0
  {
    if v > 0.0 then v else 0.0
  }

  /** The value a bar stands for in a mode (`d[mode]`). */
  function ModeValue(l: Long, mode: Mode): (r: real)
    ensures mode == Absolute ==> r == l.absolute
    ensures mode == Change ==> r == l.change
  {
    match mode
    case Absolute => l.absolute
    case Change => l.change
  }

  /** The height a bar is drawn at: negative values are drawn at zero. */
  function PlotValue(l: Long, mode: Mode): (r: real)
    ensures r >= 0.0
    ensures r == ModeValue(l, mode) || (ModeValue(l, mode) < 0.0 && r == 0.0)
  {
    NonNegative(ModeValue(l, mode))
  }

  function Absolutes(ls: seq<Long>): (r: seq<real>)
    ensures |r| == |ls| && forall i :: 0 <= i < |ls| ==> r[i] == ls[i].absolute
  {
    seq(|ls|, i requires 0 <= i < |ls| => ls[i].absolute)
  }

  function PositiveChanges(ls: seq<Long>): (r: seq<real>)
    ensures |r| == |ls| && forall i :: 0 <= i < |ls| ==> r[i] == NonNegative(ls[i].change)
  {
    seq(|ls|, i requires 0 <= i < |ls| => NonNegative(ls[i].change))
  }

  /** The upper end of the y domain: 5% above the largest score, or 10%
      above the largest positive change. None stands for the NaN an empty
      list gives. */
  function YUpper(ls: seq<Long>, mode: Mode): (r: Option<real>)
    ensures r.Some? <==> ls != []
  {
    match mode
    case Absolute => if ls == [] then None else Some(MaxOf(Absolutes(ls)).value * 1.05)
    case Change => if ls == [] then None else Some(MaxOf(PositiveChanges(ls)).value * 1.1)
  }

  /** In Change mode the domain starts at 0 and reaches every bar. */
  lemma ChangeDomainCovers(ls: seq<Long>, i: nat)
    requires i < |ls|
    ensures YUpper(ls, Change).value >= 0.0
    ensures YUpper(ls, Change).value >= PlotValue(ls[i], Change)
  {
    var m := MaxOf(PositiveChanges(ls)).value;
    assert PositiveChanges(ls)[i] in PositiveChanges(ls);
    assert m >= PlotValue(ls[i], Change) >= 0.0;
  }

  /** In Absolute mode, with scores that are not negative, the domain
      reaches every bar. */
  lemma AbsoluteDomainCovers(ls: seq<Long>, i: nat)
    requires i < |ls|
    requires forall l :: l in ls ==> l.absolute >= 0.0
    ensures YUpper(ls, Absolute).value >= PlotValue(ls[i], Absolute)
  {
    assert Absolutes(ls)[i] in Absolutes(ls);
  }

  /** The y-axis title of a mode. */
  function LabelText(mode: Mode): (r: string)
    ensures r == "SF-36 Component Score, mean" <==> mode == Absolute
    ensures r == "Positive Change in SF-36 Score (Relative to Month 0)" <==> mode == Change
  {
    match mode
    case Absolute => "SF-36 Component Score, mean"
    case Change => "Positive Change in SF-36 Score (Relative to Month 0)"
  }

  /** The chart's state that `updateChart` rewrites: the y domain's upper
      end, the y-axis title, the opacity of the population-norm line and its
      label, and the value each bar is drawn at. */
  class Chart {
    /** `dataLong`, which the y domain is computed from. */
    const dataLong: seq<Long>
    /** The records bound to the bars, one per component of each later row. */
    const bars: seq<Long>
    var yUpper: Option<real>
    var yLabel: string
    var normOpacity: real
    var plotted: seq<real>

    /** Reshape the visits, bind the bars and draw the initial Absolute view. */
    constructor (raw: seq<Raw>)
      ensures dataLong == KeepLater(ToLong(WithDiffs(raw)))
      ensures bars == ToLong(LaterRows(WithDiffs(raw)))
      ensures dataLong == bars
      ensures yUpper == YUpper(dataLong, Absolute) && yLabel == LabelText(Absolute) && normOpacity == 1.0
      ensures |plotted| == |bars| && forall i :: 0 <= i < |bars| ==> plotted[i] == PlotValue(bars[i], Absolute)
    {
      var data := WithDiffs(raw);
      dataLong := KeepLater(ToLong(data));
      bars := ToLong(LaterRows(data));
      KeepLaterToLong(data);
      new;
      UpdateChart(Absolute);
    }

    /** `updateChart(mode)`: recompute the y domain, set the axis title, show
        the norm line only for absolute scores, and redraw every bar at its
        clamped value. With the bars drawn from `dataLong`, every bar lies
        between 0 and the new domain's upper end. */
    method UpdateChart(mode: Mode)
      modifies this
      ensures yUpper == YUpper(dataLong, mode)
      ensures yLabel == LabelText(mode)
      ensures normOpacity == if mode == Absolute then 1.0 else 0.0
      ensures |plotted| == |bars| && forall i :: 0 <= i < |bars| ==> plotted[i] == PlotValue(bars[i], mode)
      ensures dataLong == bars && (mode == Change || forall l :: l in dataLong ==> l.absolute >= 0.0) ==>
        forall i :: 0 <= i < |plotted| ==> 0.0 <= plotted[i] <= yUpper.value
    {
      if mode == Absolute {
        yUpper := YUpper(dataLong, Absolute);
        yLabel := LabelText(Absolute);
        normOpacity := 1.0;
      } else {
        yUpper := YUpper(dataLong, Change);
        yLabel := LabelText(Change);
        normOpacity := 0.0;
      }
      plotted := seq(|bars|, i requires 0 <= i < |bars| => PlotValue(bars[i], mode));
      if dataLong == bars && (mode == Change || forall l :: l in dataLong ==> l.absolute >= 0.0) {
        forall i | 0 <= i < |plotted|
          ensures plotted[i] <= yUpper.value
        {
          if mode == Change {
            ChangeDomainCovers(bars, i);
          } else {
            AbsoluteDomainCovers(bars, i);
          }
        }
      }
    }
  }
}
