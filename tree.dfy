/** The expandable/collapsible hierarchy view of tree.js: per-node child
    slots that a click swaps, a recursive collapse, ids handed out by the
    data-join key, and the depth-based layout pass of `update`. */
module Tree {
  import opened Wrappers

  /** Horizontal distance between two depth levels, in pixels. */
  const LevelWidth: nat := 220

  /** A node's two child slots, `children` and `_children`. A JavaScript array,
      even an empty one, is truthy, so a slot counts as populated exactly when
      it is Some; `undefined` and `null` are both None. */
  datatype Slots<T> = Slots(shown: Option<seq<T>>, hidden: Option<seq<T>>)
  {
    /** At most one slot is populated. */
    predicate Exclusive()
    {
      !(shown.Some? && hidden.Some?)
    }

    /** The children the node has, whichever slot holds them. */
    function Kids(): seq<T>
    {
      if shown.Some? then shown.value else hidden.GetOr([])
    }
  }

  /** What a click does to the clicked node's slots. */
  function Toggle<T>(s: Slots<T>): (r: Slots<T>)
    ensures r.Exclusive()
    ensures r.shown.Some? <==> s.shown.None? && s.hidden.Some?
    ensures s.Exclusive() ==> r.Kids() == s.Kids()
    ensures s.shown.None? && s.hidden.None? ==> r == s
  {
    if s.shown.Some? then Slots(None, s.shown) else Slots(s.hidden, None)
  }

  /** Clicking an expanded node hides its children list as it is. */
  lemma ToggleExpanded<T>(s: Slots<T>)
    requires s.shown.Some?
    ensures Toggle(s).shown.None? && Toggle(s).hidden == s.shown
  {
  }

  /** Clicking a node without shown children shows its hidden list as it is. */
  lemma ToggleCollapsed<T>(s: Slots<T>)
    requires s.shown.None?
    ensures Toggle(s).shown == s.hidden && Toggle(s).hidden.None?
  {
  }

  /** Two clicks on the same node restore both of its slots. */
  lemma ToggleTwice<T>(s: Slots<T>)
    requires s.Exclusive()
    ensures Toggle(Toggle(s)) == s
  {
  }

  /** What `collapse` does to one node: a node reached through shown links
      whose children are shown gets them hidden; every other node keeps its
      slots. */
  function CollapseRule<T>(reached: bool, s: Slots<T>): (r: Slots<T>)
    ensures reached && s.shown.Some? ==> r == Slots(None, s.shown)
    ensures !reached || s.shown.None? ==> r == s
  {
    if reached && s.shown.Some? then Toggle(s) else s
  }

  /** A collapse step never loses a child and never populates both slots. */
  lemma CollapseRuleKeepsKids<T>(reached: bool, s: Slots<T>)
    requires s.Exclusive()
    ensures CollapseRule(reached, s).Exclusive()
    ensures CollapseRule(reached, s).Kids() == s.Kids()
    ensures reached ==> CollapseRule(reached, s).shown.None?
  {
  }

  /** A point of an SVG path, horizontal coordinate first. */
  datatype Point = Point(h: real, v: real)

  /** A cubic Bezier segment: `M start C c1, c2, end`. */
  datatype Curve = Curve(start: Point, c1: Point, c2: Point, end: Point)

  /** A layout position: the tree is drawn sideways, so `x` is vertical and
      `y` horizontal. */
  datatype Pos = Pos(x: real, y: real)

  /** The link path from parent `s` to child `d`: it starts at `s`, ends at
      `d`, and both control points sit halfway between them horizontally. */
  function Diagonal(s: Pos, d: Pos): (c: Curve)
    ensures c.start == Point(s.y, s.x) && c.end == Point(d.y, d.x)
    ensures c.c1.h == c.c2.h && c.c1.h - s.y == d.y - c.c1.h
    ensures c.c1.v == s.x && c.c2.v == d.x
  {
    var mid := (s.y + d.y) / 2.0;
    Curve(Point(s.y, s.x), Point(mid, s.x), Point(mid, d.x), Point(d.y, d.x))
  }

  /** The entering and exiting links are drawn as `diagonal(o, o)`: a path
      collapsed onto the single point `o`. */
  lemma DiagonalDegenerate(o: Pos)
    ensures var c := Diagonal(o, o);
      c.start == c.c1 == c.c2 == c.end == Point(o.y, o.x)
  {
  }

  /** The data-join key `d.id || (d.id = ++i)`: a node keeps a non-zero id;
      a node without one (0 stands for `undefined`) gets the pre-incremented
      counter. Returns the node's id and the counter afterwards. */
  function Key(id: nat, counter: nat): (r: (nat, nat))
    ensures r.0 > 0 && r.1 >= counter
    ensures id != 0 ==> r == (id, counter)
    ensures id == 0 ==> r == (counter + 1, counter + 1)
  {
    if id != 0 then (id, counter) else (counter + 1, counter + 1)
  }

  /** State of a `let` binding: before its declaration runs it is in the
      temporal dead zone, and reading it throws. */
  datatype Binding = Uninitialised | Bound(value: nat)

  datatype JsError = ReferenceError

  /** The key as the script runs it: `let i = 0` sits after the first
      `update(root)` call, so `++i` may read an uninitialised binding. */
  function KeyAsWritten(id: nat, i: Binding): (r: Result<(nat, Binding), JsError>)
    ensures i.Uninitialised? ==> (r.Err? <==> id == 0)
    ensures i.Bound? ==> r.Ok? && r.value.0 == Key(id, i.value).0 && r.value.1 == Bound(Key(id, i.value).1)
  {
    if id != 0 then Ok((id, i))
    else match i
      case Uninitialised => Err(ReferenceError)
      case Bound(c) => Ok((c + 1, Bound(c + 1)))
  }

  /** The first `update(root)` runs before `let i = 0`, with a root that has
      no id yet: the key function throws and nothing is drawn. */
  lemma FirstUpdateThrows()
    ensures KeyAsWritten(0, Uninitialised) == Err(ReferenceError)
  {
  }

  /** All the nodes held by the parts of the tree rooted at `ks`. */
  ghost function ReprOf(ks: seq<Node>): set<Node>
  {
    if ks == [] then {} else ReprOf(ks[..|ks| - 1]) + ks[|ks| - 1].repr
  }

  /** A node of the hierarchy. The tree's shape (`kids`, `repr`, `depth`) is
      fixed when the hierarchy is built; only the slots, the id and the
      positions change afterwards. */
  class Node {
    const name: string
    const depth: nat
    /** The node's children, whichever slot currently holds them. */
    ghost const kids: seq<Node>
    /** This node and all its descendants. */
    ghost const repr: set<Node>

    /** `children`: the children that are drawn. */
    var children: Option<seq<Node>>
    /** `_children`: the children hidden by a collapse. */
    var hidden: Option<seq<Node>>
    /** 0 until the data-join key assigns one. */
    var id: nat
    var x: real
    var y: real
    var x0: real
    var y0: real

    function SlotsOf(): Slots<Node>
      reads this`children, this`hidden
    {
      Slots(children, hidden)
    }

    /** The node is expanded, collapsed or a leaf: a node with children has
        them in exactly one slot, a leaf has both slots empty. */
    ghost predicate SlotsOk()
      reads this`children, this`hidden
    {
      if kids == [] then SlotsOf() == Slots(None, None)
      else SlotsOf() == Slots(Some(kids), None) || SlotsOf() == Slots(None, Some(kids))
    }

    /** The shape is a tree: children are one level deeper, own disjoint
        parts of `repr`, and `repr` is this node plus its children's. */
    ghost predicate WellFormed()
      decreases repr
    {
      && this in repr
      && (forall k :: k in kids ==>
            && k in repr && k.repr <= repr && this !in k.repr
            && k.depth == depth + 1 && k.WellFormed())
      && (forall i, j :: 0 <= i < j < |kids| ==> kids[i].repr !! kids[j].repr)
      && repr == {this} + ReprOf(kids) && this !in ReprOf(kids)
    }

    ghost predicate Valid()
      reads repr`children, repr`hidden
    {
      WellFormed() && forall n :: n in repr ==> n.SlotsOk()
    }

    /** The nodes drawn from this one down (this one included): those
        reached by following populated `children` slots only, which is what
        `descendants()` lists. */
    ghost function Shown(): (r: set<Node>)
      requires WellFormed()
      reads repr`children
      ensures this in r && r <= repr
      decreases repr, 0
    {
      {this} + if children.Some? then ShownOf(kids) else {}
    }

    /** The click handler's state change: toggle this node's slots. */
    method Click()
      requires Valid()
      modifies this`children, this`hidden
      ensures Valid()
      ensures SlotsOf() == Toggle(old(SlotsOf()))
    {
      if children.Some? {
        hidden := children;
        children := None;
      } else {
        children := hidden;
        hidden := None;
      }
    }

    /** `collapse(d)`: every node drawn from this one down that shows its
        children hides them; nodes under an already collapsed node are left
        as they are. Afterwards only this node is drawn from here down, and
        no node has lost a child. */
    method Collapse()
      requires Valid()
      modifies repr`children, repr`hidden
      ensures Valid()
      ensures forall n :: n in repr ==> n.SlotsOf() == CollapseRule(n in old(Shown()), old(n.SlotsOf()))
      ensures Shown() == {this}
      ensures old(children).None? ==> forall n :: n in repr ==> n.SlotsOf() == old(n.SlotsOf())
      decreases repr, 2
    {
      ghost var before := Shown();
      if children.Some? {
        assert before == {this} + ShownOf(kids);
        hidden := children;
        CollapseKids();
        children := None;
        forall n | n in repr
          ensures n.SlotsOk() && n.SlotsOf() == CollapseRule(n in before, old(n.SlotsOf()))
        {
          if n != this {
            assert n in before <==> n in old(ShownOf(kids));
          }
        }
      } else {
        assert before == {this};
      }
    }

    /** `d._children.forEach(collapse)`: each child is collapsed in turn,
        which touches only that child's part of the tree. */
    method CollapseKids()
      requires WellFormed() && hidden == Some(kids)
      requires forall n :: n in repr && n != this ==> n.SlotsOk()
      modifies ReprOf(kids)`children, ReprOf(kids)`hidden
      ensures forall n :: n in repr && n != this ==> n.SlotsOk()
      ensures forall n :: n in repr && n != this ==>
        n.SlotsOf() == CollapseRule(n in old(ShownOf(kids)), old(n.SlotsOf()))
      decreases repr, 1
    {
      assert Parts(kids);
      forall j | 0 <= j < |kids|
        ensures ShownOf(kids) * kids[j].repr == kids[j].Shown()
      {
        ShownOfPart(kids, j);
      }
      ghost var start := map n | n in repr :: n.SlotsOf();
      ghost var reached := ShownOf(kids);
      var i := 0;
      while i < |hidden.value|
        invariant 0 <= i <= |kids| && hidden == Some(kids)
        invariant forall n :: n in repr && n != this ==> n.SlotsOk()
        invariant forall n :: n in repr && n in ReprOf(kids[..i]) ==> n.SlotsOf() == CollapseRule(n in reached, start[n])
        invariant forall n :: n in repr && n != this && n !in ReprOf(kids[..i]) ==> n.SlotsOf() == start[n]
      {
        ReprOfSplit(kids, i);
        ReprOfDisjoint(kids, i, i);
        PartInReprOf(kids, i);
        ShownUnchanged(kids[i]);
        CollapseStep(i, reached, start);
        i := i + 1;
      }
      assert kids[..i] == kids;
      forall n | n in repr && n != this
        ensures n in ReprOf(kids)
      {
      }
    }

    /** One turn of the `forEach`: collapse the `i`-th child, which touches
        only that child's part of the tree. `start` holds every node's slots
        before the first turn and `reached` the nodes drawn then. */
    method CollapseStep(i: nat, ghost reached: set<Node>, ghost start: map<Node, Slots<Node>>)
      requires WellFormed() && hidden == Some(kids) && i < |kids|
      requires reached * kids[i].repr == kids[i].Shown()
      requires forall n :: n in kids[i].repr ==> n in start && n.SlotsOf() == start[n] && n.SlotsOk()
      modifies kids[i].repr`children, kids[i].repr`hidden
      ensures forall n :: n in kids[i].repr ==> n.SlotsOk() && n.SlotsOf() == CollapseRule(n in reached, start[n])
      decreases repr, 0
    {
      hidden.value[i].Collapse();
    }
  }

  /** The nodes drawn from `k` down depend only on the `children` slots of
      `k`'s part of the tree. */
  twostate lemma ShownUnchanged(k: Node)
    requires k.WellFormed()
    requires forall n :: n in k.repr ==> old(n.children) == n.children
    ensures old(k.Shown()) == k.Shown()
  {
  }

  /** `ReprOf` grows one child at a time. */
  lemma ReprOfSplit(ks: seq<Node>, i: nat)
    requires i < |ks|
    ensures ReprOf(ks[..i + 1]) == ReprOf(ks[..i]) + ks[i].repr
  {
    assert ks[..i + 1][..i] == ks[..i];
  }

  /** With pairwise disjoint parts, a later child's part is disjoint from
      everything held by the earlier ones. */
  lemma {:induction false} ReprOfDisjoint(ks: seq<Node>, i: nat, m: nat)
    requires i <= m < |ks|
    requires forall a, b :: 0 <= a < b < |ks| ==> ks[a].repr !! ks[b].repr
    ensures ks[m].repr !! ReprOf(ks[..i])
  {
    if i > 0 {
      ReprOfDisjoint(ks, i - 1, m);
      ReprOfSplit(ks, i - 1);
    }
  }

  /** Sibling parts of a tree: each well formed, pairwise disjoint. */
  ghost predicate Parts(ks: seq<Node>)
  {
    && (forall j :: 0 <= j < |ks| ==> ks[j].WellFormed())
    && (forall a, b :: 0 <= a < b < |ks| ==> ks[a].repr !! ks[b].repr)
  }

  /** Each part lies within `ReprOf`. */
  lemma {:induction false} PartInReprOf(ks: seq<Node>, i: nat)
    requires i < |ks|
    ensures ks[i].repr <= ReprOf(ks)
  {
    if i < |ks| - 1 {
      PartInReprOf(ks[..|ks| - 1], i);
    }
  }

  /** The nodes drawn from any of the roots `ks` down. */
  ghost function ShownOf(ks: seq<Node>): (r: set<Node>)
    requires forall j :: 0 <= j < |ks| ==> ks[j].WellFormed()
    reads ReprOf(ks)`children
    ensures r <= ReprOf(ks)
    decreases ReprOf(ks), |ks|
  {
    if ks == [] then {} else ShownOf(ks[..|ks| - 1]) + ks[|ks| - 1].Shown()
  }

  /** Within one part, the nodes drawn from all the roots are those drawn
      from that part's own root. */
  lemma {:induction false} ShownOfPart(ks: seq<Node>, i: nat)
    requires Parts(ks) && i < |ks|
    ensures ShownOf(ks) * ks[i].repr == ks[i].Shown()
    decreases |ks|
  {
    var last := |ks| - 1;
    ReprOfDisjoint(ks, last, last);
    assert ks[..last] + [ks[last]] == ks;
    if i < last {
      ShownOfPart(ks[..last], i);
      assert ks[i].repr !! ks[last].repr;
    }
  }

  /** The view: the hierarchy's root and the id counter `i`. */
  class TreeView {
    const root: Node
    /** The last id handed out. */
    var counter: nat
    /** The node each handed-out id was given to. */
    ghost var owner: map<nat, Node>

    ghost predicate Valid()
      reads this, root.repr`id
    {
      root.WellFormed() && IdsOk()
    }

    /** Every id is at most the counter and names its own node in `owner`. */
    ghost predicate IdsOk()
      reads this, root.repr`id
    {
      forall n :: n in root.repr ==> n.id <= counter && (n.id != 0 ==> n.id in owner && owner[n.id] == n)
    }

    /** No two nodes of the view share a non-zero id. */
    lemma IdsDistinct(a: Node, b: Node)
      requires IdsOk() && a in root.repr && b in root.repr && a != b && a.id != 0
      ensures a.id != b.id
    {
    }

    /** A freshly built hierarchy carries no ids; the counter starts at 0
        (`let i = 0`), and the root starts halfway down a window of the given
        `height`, at the left edge. */
    constructor (root: Node, height: real)
      requires root.Valid()
      requires forall n :: n in root.repr ==> n.id == 0
      modifies root`x0, root`y0
      ensures this.root == root && counter == 0
      ensures root.x0 == height / 2.0 && root.y0 == 0.0
      ensures Valid()
    {
      this.root := root;
      counter := 0;
      owner := map[];
      root.x0 := height / 2.0;
      root.y0 := 0.0;
    }

    /** `update`: `nodes` is the root's `descendants().reverse()` (every
        drawn node once; the contract holds for any order) and `layoutX` the vertical positions the tree layout gives
        them. Each drawn node gets its layout position, a horizontal position
        fixed by its depth and, if it had none, a fresh id; its current
        position is then stored as the old one. Hidden nodes are untouched. */
    method Update(nodes: seq<Node>, layoutX: seq<real>)
      requires Valid()
      requires |layoutX| == |nodes|
      requires forall n :: n in nodes <==> n in root.Shown()
      requires forall j, k :: 0 <= j < k < |nodes| ==> nodes[j] != nodes[k]
      modifies this`counter, this`owner, root.repr`id, root.repr`x, root.repr`y, root.repr`x0, root.repr`y0
      ensures Valid()
      ensures old(counter) <= counter
      ensures forall j :: 0 <= j < |nodes| ==> nodes[j].x == layoutX[j]
      ensures forall n :: n in nodes ==>
        n.y == (n.depth * LevelWidth) as real && n.x0 == n.x && n.y0 == n.y && n.id != 0
      ensures forall n :: n in root.repr && old(n.id) != 0 ==> n.id == old(n.id)
      ensures forall n :: n in root.repr && old(n.id) == 0 && n.id != 0 ==> old(counter) < n.id <= counter
      ensures forall n :: n in root.repr && n !in nodes ==>
        n.id == old(n.id) && n.x == old(n.x) && n.y == old(n.y) && n.x0 == old(n.x0) && n.y0 == old(n.y0)
    {
      Layout(nodes, layoutX);
      AssignIds(nodes);
      StorePositions(nodes);
    }

    /** The tree layout followed by the fixed-depth normalisation. */
    method Layout(nodes: seq<Node>, layoutX: seq<real>)
      requires |layoutX| == |nodes|
      requires forall n :: n in nodes ==> n in root.repr
      requires forall j, k :: 0 <= j < k < |nodes| ==> nodes[j] != nodes[k]
      modifies root.repr`x, root.repr`y
      ensures forall j :: 0 <= j < |nodes| ==> nodes[j].x == layoutX[j] && nodes[j].y == (nodes[j].depth * LevelWidth) as real
      ensures forall n :: n in root.repr && n !in nodes ==> n.x == old(n.x) && n.y == old(n.y)
    {
      var j := 0;
      while j < |nodes|
        invariant 0 <= j <= |nodes|
        invariant forall k :: 0 <= k < j ==> nodes[k].x == layoutX[k] && nodes[k].y == (nodes[k].depth * LevelWidth) as real
        invariant forall n :: n in root.repr && n !in nodes[..j] ==> n.x == old(n.x) && n.y == old(n.y)
      {
        nodes[j].x := layoutX[j];
        nodes[j].y := (nodes[j].depth * LevelWidth) as real;
        j := j + 1;
      }
    }

    /** The data-join key applied to every drawn node in turn. */
    method AssignIds(nodes: seq<Node>)
      requires IdsOk()
      requires forall n :: n in nodes ==> n in root.repr
      modifies this`counter, this`owner, root.repr`id
      ensures IdsOk() && old(counter) <= counter
      ensures forall n :: n in nodes ==> n.id != 0
      ensures forall n :: n in root.repr && old(n.id) != 0 ==> n.id == old(n.id)
      ensures forall n :: n in root.repr && old(n.id) == 0 && n.id != 0 ==> old(counter) < n.id <= counter
      ensures forall n :: n in root.repr && n !in nodes ==> n.id == old(n.id)
    {
      var j := 0;
      while j < |nodes|
        invariant 0 <= j <= |nodes|
        invariant IdsOk() && old(counter) <= counter
        invariant forall k :: 0 <= k < j ==> nodes[k].id != 0
        invariant forall n :: n in root.repr && old(n.id) != 0 ==> n.id == old(n.id)
        invariant forall n :: n in root.repr && old(n.id) == 0 && n.id != 0 ==> old(counter) < n.id <= counter
        invariant forall n :: n in root.repr && n !in nodes[..j] ==> n.id == old(n.id)
      {
        var (newId, newCounter) := Key(nodes[j].id, counter);
        if nodes[j].id == 0 {
          owner := owner[newId := nodes[j]];
        }
        nodes[j].id := newId;
        counter := newCounter;
        j := j + 1;
      }
    }

    /** Store the current positions as the old ones for the next transition. */
    method StorePositions(nodes: seq<Node>)
      requires forall n :: n in nodes ==> n in root.repr
      modifies root.repr`x0, root.repr`y0
      ensures forall n :: n in nodes ==> n.x0 == n.x && n.y0 == n.y
      ensures forall n :: n in root.repr && n !in nodes ==> n.x0 == old(n.x0) && n.y0 == old(n.y0)
    {
      var j := 0;
      while j < |nodes|
        invariant 0 <= j <= |nodes|
        invariant forall k :: 0 <= k < j ==> nodes[k].x0 == nodes[k].x && nodes[k].y0 == nodes[k].y
        invariant forall n :: n in root.repr && n !in nodes[..j] ==> n.x0 == old(n.x0) && n.y0 == old(n.y0)
      {
        nodes[j].x0 := nodes[j].x;
        nodes[j].y0 := nodes[j].y;
        j := j + 1;
      }
    }
  }
}
