# Personal website visualisations: a Dafny model of their logic

This project models five of the site's d3 visualisations. For each one it
models the logic added on top of the library, and proves what that logic promises.

- **Hierarchy view** (`tree.js`). The part of this module that changes state in place:
  - nodes are a class with mutable `children` / `_children` slots;
  - a click swaps the two slots;
  - `collapse` walks the drawn part of a subtree and hides every shown children list.
    Its only call site (tree.js:76) is commented out, so in the shipped page it never runs;
  - the data-join key hands out ids from a counter;
  - `update` fixes each drawn node's horizontal position by its depth and
    stores its position as the old one.
- **Awards timeline** (`timeline.js`):
  - the `yearMap` loop sorts each year's events into a top and a bottom stack;
  - the two stacks' vertical offsets;
  - the connector's control point;
  - label shortening.
- **Skills matrix** (`skillsMatrix.js`):
  - justified column spacing;
  - the drawing's height;
  - the render loops with their `currentY` accumulator;
  - the five-box gauge.
- **SF-36 chart** (`ketoViz.js`):
  - changes from the first visit;
  - the wide-to-long reshape;
  - the `time > 0` filter;
  - `updateChart`'s y domain, axis title, norm-line visibility and clamped bars.
- **Scrolly timeline** (`scrollyTimeline.js`):
  - the stable sort by year;
  - the distinct years;
  - the observer callback, which highlights one point and rewrites the info panel.

Modules: `Wrappers` (Option, Result), `Tree`, `Timeline`, `SkillsMatrix`,
`KetoViz`, `ScrollyTimeline`, one file each.

Three behaviours of the code that are easy to miss:

- `collapse` (tree.js:188-194) recurses only through populated `children` slots. A node below a child that was already collapsed keeps its slots. The subtree is not moved wholesale.
- Node ids are not fixed when the tree is built. The data-join key assigns them lazily, on the first `update` that draws the node (tree.js:97).
- A click on a leaf is a no-op in effect. Both slots stay unpopulated, since `undefined` and `null` are both falsy.

## Model

| member | source | states |
|---|---|---|
| Tree.Toggle | tree.js:197-204 | After a click at most one slot is populated. `children` is populated afterwards exactly when it was empty and `_children` was populated. A node with one populated slot keeps its children list. A leaf is unchanged. |
| Tree.ToggleExpanded | tree.js:198-200 | Clicking an expanded node moves its `children` list, unchanged, to `_children` and empties `children`. |
| Tree.ToggleCollapsed | tree.js:201-203 | Clicking a node without shown children moves its `_children` list back to `children` and empties `_children`. |
| Tree.ToggleTwice | tree.js:197-204 | Two clicks on the same node restore both slots. |
| Tree.CollapseRuleKeepsKids | tree.js:188-194 | A collapse step never populates both slots and never loses a child. A reached node ends with `children` empty. |
| Tree.CollapseRule | tree.js:189-192 | A reached node with shown children ends with `children` null and `_children` holding that same list. Every other node keeps both slots. |
| Tree.Node.Click | tree.js:197-206 | The click handler rewrites only the clicked node's slots, by the toggle rule, and keeps every node expanded, collapsed or a leaf. |
| Tree.Node.Shown | tree.js:86 | `descendants()`: the node itself plus the nodes reached through populated `children` slots, all within its own part of the tree. |
| Tree.Node.Collapse | tree.js:188-194 | Every node drawn from `d` down hides its shown children. Every other node keeps its slots. Afterwards only `d` is drawn from here down. No node loses a child. A node without shown children is left as it is. |
| Tree.Node.CollapseKids | tree.js:191 | The `forEach(collapse)` over the hidden children applies the collapse rule to each child's part of the tree, and only there. |
| Tree.Node.CollapseStep | tree.js:191 | One child's collapse changes only that child's part of the tree, by the collapse rule. |
| Tree.Diagonal | tree.js:180-185 | The link path starts at (s.y, s.x) and ends at (d.y, d.x). Both control points sit at the horizontal midpoint, level with their end. |
| Tree.DiagonalDegenerate | tree.js:147-161 | The entering and exiting links `diagonal(o, o)` collapse onto the single point o. |
| Tree.Key | tree.js:97 | A node's id is positive. An existing id is kept and the counter is unchanged. A node without an id gets exactly the counter plus one, which becomes the new counter, so the first node drawn gets id 1. |
| Tree.KeyAsWritten | tree.js:97 | The key as written: with `i` still uninitialised it throws exactly when the node has no id. With `i` bound it agrees with the intended key. |
| Tree.FirstUpdateThrows | tree.js:81 | The first `update(root)` runs before `let i = 0` (tree.js:208), on a root without an id, and throws a ReferenceError. |
| Tree.TreeView.IdsDistinct | tree.js:97 | No two nodes of the view share a non-zero id. |
| Tree.TreeView.constructor | tree.js:73-79 | A freshly built hierarchy has no ids. The counter starts at 0 (`let i = 0`, tree.js:208). The root starts at `x0 = height / 2`, `y0 = 0`. The view is valid. |
| Tree.TreeView.Update | tree.js:84-168 | Each drawn node gets its layout x, `y = depth * 220` and an id. Its stored `x0, y0` equal its new `x, y`. Ids already given are never changed. New ids are above the old counter and at most the new one. Hidden nodes are untouched. |
| Tree.TreeView.Layout | tree.js:90-93 | Each drawn node takes its layout x and the depth-fixed y. Nothing else moves. |
| Tree.TreeView.AssignIds | tree.js:96-97 | Every drawn node ends with an id. Existing ids are kept. New ids come from the counter. Ids stay distinct and at most the counter. |
| Tree.TreeView.StorePositions | tree.js:164-168 | Every drawn node's old position becomes its current position. Other nodes are unchanged. |
| Timeline.OfYear | timeline.js:74-84 | The events of one year are exactly the data's events of that year. |
| Timeline.YearsOf | timeline.js:75 | The years are exactly those of the data's events. |
| Timeline.Evens | timeline.js:77 | The even-position elements, in order: element j is element 2j of the input. |
| Timeline.Odds | timeline.js:77 | The odd-position elements, in order: element j is element 2j+1 of the input. |
| Timeline.Place | timeline.js:79-83 | Placing an event appends it to exactly one stack and leaves the other one unchanged. |
| Timeline.Push | timeline.js:79-83 | The `target.push(d)` the loop runs puts the event on the stack that the placement rule picks. |
| Timeline.PlaceBalanced | timeline.js:79-83 | Placement keeps `top.length - bottom.length` at 0 or 1. The event goes on top exactly when the stacks are level. |
| Timeline.PlaceIsAlternate | timeline.js:77-83 | The "top not longer than bottom" rule is the comment's "even index goes Top, odd index goes Bottom". |
| Timeline.AlternatePosition | timeline.js:77-81 | The k-th event of a year goes on top exactly when k is even, as the (k/2)-th of its stack. |
| Timeline.AlternatePartition | timeline.js:74-84 | Every event of the year lands in exactly one stack (a multiset partition), so the lengths sum to the year's count, and the stacks are balanced. |
| Timeline.OfYearAbsent | timeline.js:75 | A year without events has none to place. |
| Timeline.YearMapStep | timeline.js:74-84 | One turn of the loop keeps every bucket equal to the alternate split of its year's events seen so far. |
| Timeline.BuildYearMap | timeline.js:73-84 | The map has a bucket for exactly the years that occur. Each bucket is the alternate split of that year's events, in input order. |
| Timeline.TopY | timeline.js:93-95 | Top events sit strictly above the axis. |
| Timeline.BottomY | timeline.js:99-101 | Bottom events sit strictly below the axis. |
| Timeline.StacksMonotone | timeline.js:90-102 | Each stack moves away from the axis by exactly 35 per event, so positions are strictly monotone in the index. |
| Timeline.ConnectorControl | timeline.js:111 | The control point lies 20 below a top event and 20 above a bottom event. |
| Timeline.ControlBetween | timeline.js:111-114 | The control point lies strictly between its event and the axis. |
| Timeline.ShortName | timeline.js:159 | A name of at most 20 characters is unchanged. A longer one becomes its first 18 characters plus "...", 21 characters in all. |
| Timeline.ShortNameIdempotent | timeline.js:159 | Shortening a label a second time changes nothing. |
| SkillsMatrix.SingleColWidth | skillsMatrix.js:40 | A column is exactly as wide as the label and the five box-and-gap slots, and narrower than the drawing. |
| SkillsMatrix.SpacingStep | skillsMatrix.js:45-46 | The step is a number for every column count but one, where the division by zero gives `Infinity`. The gaps then add up to the width left after the last column. |
| SkillsMatrix.NoColumnStep | skillsMatrix.js:46 | With no column at all the step is the defined number -635 (dividing by -1). |
| SkillsMatrix.ColumnX | skillsMatrix.js:65 | A column's left edge is defined exactly when there are at least two columns (NaN otherwise). |
| SkillsMatrix.ColumnsJustified | skillsMatrix.js:62-65 | Column 0 starts at 0. The last column ends exactly at the total width. |
| SkillsMatrix.ColumnsOrdered | skillsMatrix.js:65 | Columns start left to right. With at most four columns, neighbours do not overlap. |
| SkillsMatrix.MaxItems | skillsMatrix.js:49 | The longest category's length: an upper bound on every category, reached by one. None for no categories. |
| SkillsMatrix.TotalHeight | skillsMatrix.js:50 | The height is the longest column's rows plus the header and both margins. |
| SkillsMatrix.GaugeLeftmost | skillsMatrix.js:99-108 | Box i is filled exactly when i < `min(max(val, 0), 5)`, so the filled boxes are the leftmost ones. |
| SkillsMatrix.Gauge | skillsMatrix.js:99-108 | A gauge has exactly five boxes. Which of them are filled and where they sit is stated by `GaugeLeftmost` and `GaugeSpacing`. |
| SkillsMatrix.Clamp | skillsMatrix.js:107 | A level inside 0..5 is kept as it is. A negative level fills no box and a level above 5 fills all five. |
| SkillsMatrix.FilledPrefix | skillsMatrix.js:99-108 | Among the first k boxes, `min(k, clamp(val))` are filled. |
| SkillsMatrix.GaugeFilled | skillsMatrix.js:99-108 | Exactly `min(max(val, 0), 5)` boxes are filled. |
| SkillsMatrix.GaugeSpacing | skillsMatrix.js:35-36 | Box positions are strictly increasing with a gap between neighbours, and lie inside the column. |
| SkillsMatrix.DrawBoxes | skillsMatrix.js:99-109 | The five-box loop draws exactly the gauge of `val`. |
| SkillsMatrix.ColumnRows | skillsMatrix.js:81-134 | A column draws one row per skill. |
| SkillsMatrix.Rows | skillsMatrix.js:60-135 | Every drawn row belongs to one of the drawn columns. |
| SkillsMatrix.ColumnRowsSpaced | skillsMatrix.js:67-133 | Rows within a column are at least one row height apart. |
| SkillsMatrix.RowsFit | skillsMatrix.js:67-133 | With every category at most m long, each row starts below the top margin and ends within m rows of it. |
| SkillsMatrix.LayoutFits | skillsMatrix.js:49-50 | Every row ends at or above `totalHeight - catHeaderHeight - margin.bottom`. |
| SkillsMatrix.Render | skillsMatrix.js:60-135 | The render loops draw exactly the reference layout: row k of column c sits at `margin.top + k * rowHeight`, with `currentY` reset per column. |
| SkillsMatrix.PageLayout | skillsMatrix.js:7-27 | The page's own four categories give a 258-pixel drawing with four justified, non-overlapping columns. |
| KetoViz.WithDiffs | ketoViz.js:25-35 | One row per visit, with the visit's month and scores copied. |
| KetoViz.ScoreOf | ketoViz.js:41 | `d[key]` reads the score field named by the component. |
| KetoViz.DiffOf | ketoViz.js:42 | `d[key + "_Diff"]` reads the change field named by the component. |
| KetoViz.DiffsFromBaseline | ketoViz.js:26-35 | Each change is the row's score minus the first visit's, so the first visit's changes are zero. The baseline fields copy the first visit. |
| KetoViz.Widen | ketoViz.js:38-44 | A row yields one record per component. |
| KetoViz.ToLong | ketoViz.js:38-44 | The reshape yields exactly two records per row. |
| KetoViz.ToLongAt | ketoViz.js:21-44 | Record 2i+k is component k (`SCORES` order) of row i, with its score and change copied. |
| KetoViz.ToLongSnoc | ketoViz.js:38 | Reshaping one more row appends its two records. |
| KetoViz.KeepLater | ketoViz.js:47 | The filter keeps exactly the records with `time > 0`. |
| KetoViz.LaterRows | ketoViz.js:48 | The rows kept are exactly those with `time > 0`. |
| KetoViz.TimePoints | ketoViz.js:48 | The time points are the kept rows' months, in order, all positive. |
| KetoViz.KeepLaterAppend | ketoViz.js:47 | The filter distributes over concatenation. |
| KetoViz.KeepLaterWiden | ketoViz.js:38-47 | A row's two records are kept or dropped together. |
| KetoViz.KeepLaterToLong | ketoViz.js:47-48 | The filtered long records are exactly the records of the bars, which reshape the later rows. |
| KetoViz.MaxOf | ketoViz.js:252 | `d3.max`: a member of the values and at least each of them. None for no values. |
| KetoViz.NonNegative | ketoViz.js:282 | `Math.max(0, v)` is at least 0 and at least v, and is v or 0. |
| KetoViz.PlotValue | ketoViz.js:280-289 | Bars are never negative. A negative value plots at zero height. |
| KetoViz.ModeValue | ketoViz.js:280-286 | `d[mode]` reads the absolute score in Absolute mode and the change in Change mode. |
| KetoViz.LabelText | ketoViz.js:253-264 | The axis reads "SF-36 Component Score, mean" exactly in Absolute mode, and the positive-change title exactly in Change mode. |
| KetoViz.YUpper | ketoViz.js:250-262 | The y domain's upper end exists exactly when there are records. |
| KetoViz.ChangeDomainCovers | ketoViz.js:259-262 | In Change mode the upper end is at least 0 and at least every plotted value. |
| KetoViz.AbsoluteDomainCovers | ketoViz.js:250-252 | In Absolute mode, with non-negative scores, the upper end is at least every plotted value. |
| KetoViz.Chart.constructor | ketoViz.js:25-163 | The records are reshaped and filtered. The bars bind the same records. The initial view is the Absolute one. |
| KetoViz.Chart.UpdateChart | ketoViz.js:247-291 | The mode sets the y domain and the axis title. The norm line shows only for Absolute. Every bar is redrawn at its clamped value. When the bars are the domain's own records, every bar lies between 0 and the domain's upper end. |
| ScrollyTimeline.OfYear | scrollyTimeline.js:22 | The honours of one year, each of that year. |
| ScrollyTimeline.OfYearKeeps | scrollyTimeline.js:22 | Every honour of the year is kept by the filter. |
| ScrollyTimeline.Insert | scrollyTimeline.js:22 | Insertion adds one element. |
| ScrollyTimeline.SortByYear | scrollyTimeline.js:5-22 | The sort keeps the length. |
| ScrollyTimeline.InsertPermutes | scrollyTimeline.js:22 | Insertion adds `x` and loses nothing. |
| ScrollyTimeline.InsertSorted | scrollyTimeline.js:22 | Insertion keeps a list sorted by year. |
| ScrollyTimeline.InsertStable | scrollyTimeline.js:22 | Insertion puts `x` after every honour of its own year. |
| ScrollyTimeline.SortByYearPermutes | scrollyTimeline.js:5-22 | The sorted data is a permutation of the literal list. |
| ScrollyTimeline.SortByYearSorted | scrollyTimeline.js:5-22 | The sorted data has non-decreasing years. |
| ScrollyTimeline.SortByYearStable | scrollyTimeline.js:22 | Honours of the same year keep their literal order. |
| ScrollyTimeline.SortedByYearUnique | scrollyTimeline.js:22 | Two year-sorted lists that agree on each year's honours, in order, are equal. |
| ScrollyTimeline.StableSortIsSortByYear | scrollyTimeline.js:22 | Any year-sorted list that keeps each year's input order is the model's sort, so the stable engine sort gives this result. |
| ScrollyTimeline.DistinctYears | scrollyTimeline.js:35 | Each year occurs once. A year is listed exactly when some honour has it. |
| ScrollyTimeline.DistinctYearsIncreasing | scrollyTimeline.js:35 | Over the sorted data the years are strictly increasing. |
| ScrollyTimeline.ExactlyOneHighlighted | scrollyTimeline.js:142-145 | After highlighting, exactly one point is highlighted, and it is the target. |
| ScrollyTimeline.Highlighted | scrollyTimeline.js:144-145 | After a highlight, the target point is (12, 1) and every other point is (8, 0.3). |
| ScrollyTimeline.PanelFor | scrollyTimeline.js:148-152 | The panel shows the honour's type, year, title and description, and no longer the opening text. |
| ScrollyTimeline.LastIntersecting | scrollyTimeline.js:133-157 | A batch has a chosen entry exactly when some entry intersects, and the choice is such an entry's target. |
| ScrollyTimeline.LastIntersectingIsLast | scrollyTimeline.js:133-157 | The chosen entry is the last intersecting one: no entry after it in the batch intersects, so it is the one whose highlight and panel remain. |
| ScrollyTimeline.Scrolly.constructor | scrollyTimeline.js:5-122 | The points bind the sorted honours at radius 8. The axis years are the distinct years. The panel shows the opening text. |
| ScrollyTimeline.Scrolly.HandleEntry | scrollyTimeline.js:133-157 | An intersecting entry dims every point to (8, 0.3), raises its own to (12, 1) and shows its honour in the panel. A non-intersecting entry changes neither points nor panel. |
| ScrollyTimeline.Scrolly.OnEntries | scrollyTimeline.js:132-159 | After a batch, the last intersecting entry decides the highlighted point and the panel. A batch without one changes nothing. |

## Left out

- d3's own layouts and scales are not modelled. `d3.tree` gives the vertical positions: `Tree.TreeView.Update` takes them as a parameter (`layoutX`), along with the list of drawn nodes in `descendants().reverse()` order (tree.js:86), though the contract does not depend on the order. The point, band and linear scales of the other charts are left out too.
- DOM and SVG writes, transitions, durations, tooltips, hover recolouring, colours and text formatting are not modelled. For the same reason the model does not apply `y(...)` to the clamped bar values, and does not keep the category header text.
- The window size is read from the browser (`window.innerHeight`, tree.js:57). `Tree.TreeView.constructor` takes the height as a parameter.
- The `window.centered` zoom flag and the initial zoom transform (tree.js:170-176) are presentation only and are not modelled.
- Numbers are mathematical reals and integers. IEEE rounding is not modelled. JavaScript's non-finite values are shown as None:
  - with a lone skills column, `spacingStep` is `Infinity` and that column's `xOffset = 0 * Infinity` is NaN (`SpacingStep`, `ColumnX`);
  - with no category at all, `Math.max()` is `-Infinity`, so `totalHeight` is `-Infinity` (`MaxItems`, `TotalHeight`);
  - an empty SF-36 chart gives a NaN domain end (`YUpper`).
- `ShortName` counts characters where JavaScript counts UTF-16 code units. Names outside the Basic Multilingual Plane would be cut at a different place.
- `Object.keys(yearMap)` iteration order (timeline.js:87) only orders the drawing. The model states each year's stacks and not the order in which years are drawn.
- IntersectionObserver geometry (`rootMargin`, `threshold`) is not modelled. The callback's effect is modelled for a given batch of entries, each naming its point by index.
- The click handler's redraw, `update(d)` (tree.js:205), is the separate `Tree.TreeView.Update`. The model does not compose the two into one call.
- The initial bars (ketoViz.js:162-163) use the `.nice()` domain and unclamped values. The final `updateChart("Absolute")` call redraws them at once, so only the state after that call is modelled.
- Only the two radio values "Absolute" and "Change" are modelled. Any other string takes the "Change" branch of `updateChart` but would read a missing field.
- The `Baseline` field of the long records reads `Physical_Baseline` / `Mental_Baseline` (ketoViz.js:43), but the rows only carry `P_Baseline` / `M_Baseline` (ketoViz.js:33-34). The field is therefore always undefined: it is None in the model and no property is stated about it.
- The model does not cover the rest of the repository: the force layouts, the map renderers, the static bar chart and the scatter plot are not part of this model.

## Findings

| source | as written | input that shows it | evidently intended | confidence | as-written member | corrected member |
|---|---|---|---|---|---|---|
| tree.js:81-208 | `update(root)` runs at line 81. The data-join key's `++i` then reads `i`, but `let i = 0` is only reached at line 208. | The first render, on a root without an id: `++i` reads `i` in its temporal dead zone and throws a ReferenceError, so nothing is drawn. | A counter that starts at 0, so the first node gets id 1. | not executed | Tree.KeyAsWritten (Tree.FirstUpdateThrows) | Tree.Key (used by Tree.TreeView.AssignIds) |
