/** The skills matrix of skillsMatrix.js: one justified column per category,
    one row per skill, and a five-box gauge of the skill's level. */
module SkillsMatrix {
  import opened Wrappers

  datatype Skill = Skill(name: string, val: int)

  datatype Category = Category(cat: string, items: seq<Skill>)

  const MarginTop: int := 35
  const MarginBottom: int := 20
  /** The fixed internal width of the drawing. */
  const TotalWidth: int := 800
  const RowHeight: int := 28
  const CatHeaderHeight: int := 35
  const BoxSize: int := 11
  const BoxGap: int := 3
  const LabelWidth: int := 95
  /** Boxes in a gauge. */
  const Boxes: int := 5

  /** The width of one column: the label followed by the five boxes and
      their gaps. It ends one gap after the last box of a gauge. */
  function SingleColWidth(): (r: int)
    ensures r == Gauge(0)[Boxes - 1].x + BoxSize + BoxGap
    ensures r < TotalWidth
  {
    LabelWidth + Boxes * (BoxSize + BoxGap)
  }

  /** The distance between the starts of two neighbouring columns, chosen so
      that the last column ends at the right edge. With one column the
      division is by zero and gives `Infinity`, which is None here; with no
      column at all it divides by -1 and gives -635, which nothing uses. */
  function SpacingStep(numberOfCols: nat): (r: Option<real>)
    ensures r.Some? <==> numberOfCols != 1
    ensures r.Some? ==> r.value * (numberOfCols - 1) as real == (TotalWidth - SingleColWidth()) as real
  {
    if numberOfCols != 1 then Some((TotalWidth - SingleColWidth()) as real / (numberOfCols - 1) as real) else None
  }

  /** With no column at all the step is the defined number -635. */
  lemma NoColumnStep()
    ensures SpacingStep(0) == Some(-635.0)
  {
  }

  /** The left edge of column `colIndex` of `numberOfCols`; None stands for
      the NaN that `0 * Infinity` gives when there is a single column. */
  function ColumnX(colIndex: nat, numberOfCols: nat): (r: Option<real>)
    requires colIndex < numberOfCols
    ensures r.Some? <==> numberOfCols >= 2
  {
    match SpacingStep(numberOfCols)
    case Some(step) => Some(colIndex as real * step)
    case None => None
  }

  /** Justified columns: the first starts at the left edge and the last
      ends exactly at the right edge. */
  lemma ColumnsJustified(numberOfCols: nat)
    requires numberOfCols >= 2
    ensures ColumnX(0, numberOfCols) == Some(0.0)
    ensures ColumnX(numberOfCols - 1, numberOfCols).value + SingleColWidth() as real == TotalWidth as real
  {
  }

  /** Columns start left to right, and with at most four of them no column
      overlaps the next. */
  lemma ColumnsOrdered(colIndex: nat, numberOfCols: nat)
    requires colIndex + 1 < numberOfCols
    ensures ColumnX(colIndex, numberOfCols).value < ColumnX(colIndex + 1, numberOfCols).value
    ensures numberOfCols <= 4 ==>
      ColumnX(colIndex, numberOfCols).value + SingleColWidth() as real <= ColumnX(colIndex + 1, numberOfCols).value
  {
    var step := SpacingStep(numberOfCols).value;
    assert ColumnX(colIndex + 1, numberOfCols).value == ColumnX(colIndex, numberOfCols).value + step;
    if numberOfCols <= 4 {
      assert step * (numberOfCols - 1) as real <= step * 3.0;
    }
  }

  /** The length of the longest category; `Math.max()` of nothing is
      `-Infinity`, which is None here. */
  function MaxItems(cats: seq<Category>): (r: Option<nat>)
    ensures r.None? <==> cats == []
    ensures r.Some? ==> forall c :: c in cats ==> |c.items| <= r.value
    ensures r.Some? ==> exists c :: c in cats && |c.items| == r.value
  {
    if cats == [] then None
    else
      var rest := MaxItems(cats[..|cats| - 1]);
      var last := |cats[|cats| - 1].items|;
      assert cats == cats[..|cats| - 1] + [cats[|cats| - 1]];
      if rest.Some? && rest.value > last then rest else Some(last)
  }

  /** The drawing's height: the longest column's rows, the category header,
      and the two margins. */
  function TotalHeight(cats: seq<Category>): (r: Option<int>)
    ensures r.Some? <==> cats != []
    ensures r.Some? ==> r.value == MaxItems(cats).value * RowHeight + CatHeaderHeight + MarginTop + MarginBottom
  {
    match MaxItems(cats)
    case Some(m) => Some(m * RowHeight + CatHeaderHeight + MarginTop + MarginBottom)
    case None => None
  }

  /** One box of a gauge, at `x` within its row. */
  datatype Box = Box(x: int, filled: bool)

  /** One drawn skill: its column, the row group's translation and its boxes. */
  datatype Row = Row(col: nat, x: Option<real>, y: int, name: string, boxes: seq<Box>)

  /** The five boxes of a skill whose level is `val`: box `i` is filled iff
      `i < val`. */
  function Gauge(val: int): (r: seq<Box>)
    ensures |r| == Boxes
  {
    seq(Boxes, i requires 0 <= i < Boxes => Box(LabelWidth + i * (BoxSize + BoxGap), i < val))
  }

  /** How many boxes are filled. */
  function FilledCount(bs: seq<Box>): (r: nat)
    ensures r <= |bs|
  {
    if bs == [] then 0 else FilledCount(bs[..|bs| - 1]) + if bs[|bs| - 1].filled then 1 else 0
  }

  /** `val` clamped to the gauge's range. */
  function Clamp(val: int): (r: nat)
    ensures r <= Boxes
    ensures 0 <= val <= Boxes ==> r == val
    ensures r == val || (val < 0 && r == 0) || (val > Boxes && r == Boxes)
  {
    if val < 0 then 0 else if val > Boxes then Boxes else val
  }

  /** The boxes are filled from the left: the filled ones are exactly the
      first `Clamp(val)` ones. */
  lemma GaugeLeftmost(val: int, i: nat)
    requires i < Boxes
    ensures Gauge(val)[i].filled <==> i < Clamp(val)
  {
  }

  /** In the first `k` boxes of a gauge, `min(k, Clamp(val))` are filled. */
  lemma {:induction false} FilledPrefix(val: int, k: nat)
    requires k <= Boxes
    ensures FilledCount(Gauge(val)[..k]) == if k < Clamp(val) then k else Clamp(val)
  {
    if k > 0 {
      assert Gauge(val)[..k][..k - 1] == Gauge(val)[..k - 1];
      FilledPrefix(val, k - 1);
    }
  }

  /** Exactly `min(max(val, 0), 5)` boxes are filled. */
  lemma GaugeFilled(val: int)
    ensures FilledCount(Gauge(val)) == Clamp(val)
  {
    FilledPrefix(val, Boxes);
    assert Gauge(val)[..Boxes] == Gauge(val);
  }

  /** Boxes run left to right with a gap between neighbours, inside the
      column's width. */
  lemma GaugeSpacing(val: int, i: nat, j: nat)
    requires i < j < Boxes
    ensures Gauge(val)[i].x + BoxSize < Gauge(val)[j].x
    ensures LabelWidth <= Gauge(val)[i].x && Gauge(val)[j].x + BoxSize <= SingleColWidth()
  {
    assert Gauge(val)[j].x - Gauge(val)[i].x == (j - i) * (BoxSize + BoxGap);
  }

  /** The `for` loop over the five boxes of one skill. */
  method DrawBoxes(val: int) returns (boxes: seq<Box>)
    ensures boxes == Gauge(val)
  {
    boxes := [];
    for i := 0 to Boxes
      invariant boxes == Gauge(val)[..i]
    {
      boxes := boxes + [Box(LabelWidth + i * (BoxSize + BoxGap), i < val)];
    }
  }

  /** The rows of column `col`: the `j`-th skill sits `j` row heights below
      the top margin. */
  function ColumnRows(col: nat, numberOfCols: nat, items: seq<Skill>): (r: seq<Row>)
    requires col < numberOfCols
    ensures |r| == |items|
  {
    seq(|items|, j requires 0 <= j < |items| =>
      Row(col, ColumnX(col, numberOfCols), MarginTop + j * RowHeight, items[j].name, Gauge(items[j].val)))
  }

  /** The rows of the first `|cats|` of `numberOfCols` columns, column by
      column. */
  function Rows(cats: seq<Category>, numberOfCols: nat): (r: seq<Row>)
    requires |cats| <= numberOfCols
    ensures forall row :: row in r ==> row.col < |cats|
  {
    if cats == [] then []
    else Rows(cats[..|cats| - 1], numberOfCols) + ColumnRows(|cats| - 1, numberOfCols, cats[|cats| - 1].items)
  }

  /** Rows within a column are one row height apart and do not overlap. */
  lemma ColumnRowsSpaced(col: nat, numberOfCols: nat, items: seq<Skill>, j: nat, k: nat)
    requires col < numberOfCols && j < k < |items|
    ensures ColumnRows(col, numberOfCols, items)[j].y + RowHeight <= ColumnRows(col, numberOfCols, items)[k].y
  {
  }

  /** Every drawn row of a category no longer than `m` ends above the area
      reserved for the header and the bottom margin. */
  lemma {:induction false} RowsFit(cats: seq<Category>, numberOfCols: nat, m: nat)
    requires |cats| <= numberOfCols
    requires forall c :: c in cats ==> |c.items| <= m
    ensures forall row :: row in Rows(cats, numberOfCols) ==>
      MarginTop <= row.y && row.y + RowHeight <= m * RowHeight + MarginTop
  {
    if cats != [] {
      var init := cats[..|cats| - 1];
      var items := cats[|cats| - 1].items;
      assert forall c :: c in init ==> c in cats;
      RowsFit(init, numberOfCols, m);
      forall row | row in ColumnRows(|cats| - 1, numberOfCols, items)
        ensures MarginTop <= row.y && row.y + RowHeight <= m * RowHeight + MarginTop
      {
        var j :| 0 <= j < |items| && ColumnRows(|cats| - 1, numberOfCols, items)[j] == row;
        assert (j + 1) * RowHeight <= |items| * RowHeight <= m * RowHeight;
      }
    }
  }

  /** With the drawing's own height, every row ends at or above
      `totalHeight - catHeaderHeight - margin.bottom`. */
  lemma LayoutFits(cats: seq<Category>)
    requires cats != []
    ensures forall row :: row in Rows(cats, |cats|) ==>
      row.y + RowHeight <= TotalHeight(cats).value - CatHeaderHeight - MarginBottom
  {
    RowsFit(cats, |cats|, MaxItems(cats).value);
  }

  /** The render loop: for each category a fresh `currentY` starts at the top
      margin and grows by one row height per skill. */
  method Render(cats: seq<Category>) returns (rows: seq<Row>)
    ensures rows == Rows(cats, |cats|)
  {
    rows := [];
    for colIndex := 0 to |cats|
      invariant rows == Rows(cats[..colIndex], |cats|)
    {
      var xOffset := ColumnX(colIndex, |cats|);
      var items := cats[colIndex].items;
      var currentY := MarginTop;
      ghost var before := rows;
      for j := 0 to |items|
        invariant currentY == MarginTop + j * RowHeight
        invariant rows == before + ColumnRows(colIndex, |cats|, items[..j])
      {
        var boxes := DrawBoxes(items[j].val);
        rows := rows + [Row(colIndex, xOffset, currentY, items[j].name, boxes)];
        currentY := currentY + RowHeight;
      }
      assert items[..|items|] == items;
      assert cats[..colIndex + 1][..colIndex] == cats[..colIndex];
    }
    assert cats[..|cats|] == cats;
  }

  /** The four categories the page shows. */
  const AllData: seq<Category> := [
    Category("Software", [Skill("Unity", 4), Skill("UE5", 3), Skill("Blender", 2),
                          Skill("Substance", 2), Skill("P5.js", 5), Skill("Figma", 5)]),
    Category("Machine Learning", [Skill("PyTorch", 3), Skill("TensorFlow", 2), Skill("Scikit-learn", 2)]),
    Category("Code", [Skill("C#", 3), Skill("C++", 2), Skill("HTML/CSS", 3), Skill("Java", 4), Skill("Python", 3)]),
    Category("Languages", [Skill("English", 5), Skill("Mandarin", 5), Skill("Cantonese", 3), Skill("German", 2)])
  ]

  /** The page's matrix is 258 pixels high, and its four columns are
      justified without overlapping. */
  lemma PageLayout()
    ensures TotalHeight(AllData) == Some(258)
    ensures forall k :: 0 <= k < 3 ==> ColumnX(k, 4).value + SingleColWidth() as real <= ColumnX(k + 1, 4).value
  {
    assert MaxItems(AllData) == Some(6);
    forall k | 0 <= k < 3
      ensures ColumnX(k, 4).value + SingleColWidth() as real <= ColumnX(k + 1, 4).value
    {
      ColumnsOrdered(k, 4);
    }
  }
}
