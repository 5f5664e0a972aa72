/** Specification of merge_widget_value in lwlib/lwlib.c: what merging one tree of
    widget values into another leaves, and what the change flags say. */
module WidgetsSpec {
  import opened Wrappers

  datatype Change = NO_CHANGE | INVISIBLE_CHANGE | VISIBLE_CHANGE | STRUCTURAL_CHANGE {
    function Rank(): nat {
      match this case NO_CHANGE => 0 case INVISIBLE_CHANGE => 1 case VISIBLE_CHANGE => 2 case STRUCTURAL_CHANGE => 3
    }
  }

  function Max(a: Change, b: Change): Change {
    if a.Rank() > b.Rank() then a else b
  }

  /** The fields that are compared and merged; strings may be null pointers. */
  datatype Fields = Fields(kind: int, name: Option<string>, value: Option<string>, key: Option<string>,
                           accel: int, enabled: bool, selected: bool, callData: int)

  /** A widget value with its contents and the siblings behind it.  toolkit says
      whether the toolkit still has data for it. */
  datatype Tree = Nil | Item(fields: Fields, change: Change, toolkit: bool, contents: Tree, next: Tree)

  // ------------------------------------------------------------ the operation

  /** A copy; the toolkit knows nothing about it yet. */
  function Copied(t: Tree, change: Change): Tree {
    match t
    case Nil => Nil
    case Item(f, _, _, c, n) => Item(f, change, false, Copied(c, change), Copied(n, change))
  }

  function OwnChange(f: Fields, g: Fields): Change {
    if f.kind != g.kind || f.name != g.name then STRUCTURAL_CHANGE
    else if f.value != g.value || f.key != g.key || f.accel != g.accel ||
            f.enabled != g.enabled || f.selected != g.selected then VISIBLE_CHANGE
    else if f.callData != g.callData then INVISIBLE_CHANGE
    else NO_CHANGE
  }

  /** What merged contents, or siblings, add to the change of an item. */
  function ContentsChange(old1: Tree, merged: Tree): Change {
    if merged.Nil? then (if old1.Nil? then NO_CHANGE else INVISIBLE_CHANGE)
    else if merged.change != NO_CHANGE then INVISIBLE_CHANGE
    else NO_CHANGE
  }

  function NextChange(old1: Tree, merged: Tree): Change {
    if merged.Nil? then (if old1.Nil? then NO_CHANGE else STRUCTURAL_CHANGE) else merged.change
  }

  function Merge(t1: Tree, t2: Tree, level: int): Tree {
    if t1.Nil? then Copied(t2, STRUCTURAL_CHANGE)
    else if t2.Nil? then Nil
    else
      var c := if level > 0 then Merge(t1.contents, t2.contents, level - 1) else t1.contents;
      var n := Merge(t1.next, t2.next, level);
      var change := Max(Max(OwnChange(t1.fields, t2.fields),
                            if level > 0 then ContentsChange(t1.contents, c) else NO_CHANGE),
                        NextChange(t1.next, n));
      Item(t2.fields, change, t1.toolkit && change == NO_CHANGE, c, n)
  }

  // ------------------------------------------------------------- what it means

  /** The tree itself, without flags. */
  datatype Plain = Nothing | Node(fields: Fields, contents: Plain, next: Plain)

  function Strip(t: Tree): Plain {
    match t case Nil => Nothing case Item(f, _, _, c, n) => Node(f, Strip(c), Strip(n))
  }

  /** The tree down to a level of contents. */
  function Cut(p: Plain, level: int): Plain {
    match p
    case Nothing => Nothing
    case Node(f, c, n) => Node(f, if level > 0 then Cut(c, level - 1) else Nothing, Cut(n, level))
  }

  /** How deep contents are nested. */
  function Depth(p: Plain): nat {
    match p
    case Nothing => 0
    case Node(_, c, n) =>
      var below := if c.Nothing? then 0 else 1 + Depth(c);
      if below > Depth(n) then below else Depth(n)
  }

  /** Types and names along the siblings. */
  function Outline(p: Plain): seq<(int, Option<string>)> {
    match p case Nothing => [] case Node(f, _, n) => [(f.kind, f.name)] + Outline(n)
  }

  /** What else can be seen of the siblings. */
  function Look(p: Plain): seq<(Option<string>, Option<string>, int, bool, bool)> {
    match p case Nothing => [] case Node(f, _, n) => [(f.value, f.key, f.accel, f.enabled, f.selected)] + Look(n)
  }

  /** The change between two trees, from what differs between them. */
  function Difference(p1: Plain, p2: Plain, level: int): Change {
    if Outline(p1) != Outline(p2) then STRUCTURAL_CHANGE
    else if Look(p1) != Look(p2) then VISIBLE_CHANGE
    else if Cut(p1, level) != Cut(p2, level) then INVISIBLE_CHANGE
    else NO_CHANGE
  }

  /** The trees agree on everything that a merge to this level does not look at. */
  predicate AgreeBelow(p1: Plain, p2: Plain, level: int) {
    p1.Nothing? || p2.Nothing? ||
    (&& (if level > 0 then AgreeBelow(p1.contents, p2.contents, level - 1) else p1.contents == p2.contents)
     && AgreeBelow(p1.next, p2.next, level))
  }

  lemma {:induction false} CopiedIsSame(t: Tree, change: Change)
    ensures Strip(Copied(t, change)) == Strip(t)
  {
    if t.Item? {
      CopiedIsSame(t.contents, change);
      CopiedIsSame(t.next, change);
    }
  }

  /** Every item says so. */
  predicate AllMarked(t: Tree, change: Change) {
    t.Item? ==> t.change == change && !t.toolkit && AllMarked(t.contents, change) && AllMarked(t.next, change)
  }

  /** A copy has the change in every item, and nothing of the toolkit in any; so has
      what a merge puts where there was nothing. */
  lemma {:induction false} CopiesAreMarked(t: Tree, change: Change, level: int)
    ensures AllMarked(Copied(t, change), change)
    ensures AllMarked(Merge(Nil, t, level), STRUCTURAL_CHANGE) && Merge(t, Nil, level) == Nil
  {
    if t.Item? {
      CopiesAreMarked(t.contents, change, level);
      CopiesAreMarked(t.next, change, level);
      CopiesAreMarked(t.contents, STRUCTURAL_CHANGE, level);
      CopiesAreMarked(t.next, STRUCTURAL_CHANGE, level);
    }
  }

  /** Down to the level, the result is the second tree; altogether it is so exactly
      if the trees agreed on what lies below. */
  lemma {:induction false} MergeGivesSecond(t1: Tree, t2: Tree, level: int)
    ensures Cut(Strip(Merge(t1, t2, level)), level) == Cut(Strip(t2), level)
    ensures Strip(Merge(t1, t2, level)) == Strip(t2) <==> AgreeBelow(Strip(t1), Strip(t2), level)
  {
    if t1.Nil? {
      CopiedIsSame(t2, STRUCTURAL_CHANGE);
    } else if t2.Item? {
      MergeGivesSecond(t1.contents, t2.contents, level - 1);
      MergeGivesSecond(t1.next, t2.next, level);
    }
  }

  lemma {:induction false} CutDeep(p: Plain, level: int)
    requires level >= Depth(p)
    ensures Cut(p, level) == p
  {
    if p.Node? {
      CutDeep(p.next, level);
      if p.contents.Node? {
        CutDeep(p.contents, level - 1);
      }
    }
  }

  lemma {:induction false} AgreeDeep(p1: Plain, p2: Plain, level: int)
    requires level >= Depth(p1) && level >= Depth(p2)
    ensures AgreeBelow(p1, p2, level)
  {
    if p1.Node? && p2.Node? {
      AgreeDeep(p1.next, p2.next, level);
      if p1.contents.Node? && p2.contents.Node? {
        AgreeDeep(p1.contents, p2.contents, level - 1);
      }
    }
  }

  /** The flag at the head of a merged tree says what differed between the two:
      nothing, something not visible, something visible, or the siblings' number,
      types or names. */
  lemma {:induction false} FlagIsDifference(t1: Tree, t2: Tree, level: int)
    requires t1.Item? && t2.Item?
    ensures Merge(t1, t2, level).change == Difference(Strip(t1), Strip(t2), level)
    decreases t1, 1
  {
    hide Difference, OwnChange;
    NextIsDifference(t1.next, t2.next, level);
    if level > 0 {
      ContentsAreDifference(t1.contents, t2.contents, level - 1);
    }
    DifferenceOfNodes(Strip(t1), Strip(t2), level);
  }

  lemma {:induction false} NextIsDifference(n1: Tree, n2: Tree, level: int)
    ensures NextChange(n1, Merge(n1, n2, level)) == Difference(Strip(n1), Strip(n2), level)
    decreases n1, 2
  {
    if n1.Item? && n2.Item? {
      FlagIsDifference(n1, n2, level);
    }
  }

  lemma {:induction false} ContentsAreDifference(c1: Tree, c2: Tree, level: int)
    ensures ContentsChange(c1, Merge(c1, c2, level))
            == if Cut(Strip(c1), level) == Cut(Strip(c2), level) then NO_CHANGE else INVISIBLE_CHANGE
    decreases c1, 2
  {
    if c1.Item? && c2.Item? {
      FlagIsDifference(c1, c2, level);
      DifferenceZero(Strip(c1), Strip(c2), level);
    }
  }

  /** The difference of two items, from their fields, contents and siblings. */
  lemma {:induction false} DifferenceOfNodes(p1: Plain, p2: Plain, level: int)
    requires p1.Node? && p2.Node?
    ensures Difference(p1, p2, level) ==
      Max(Max(OwnChange(p1.fields, p2.fields),
              if level > 0 && Cut(p1.contents, level - 1) != Cut(p2.contents, level - 1) then INVISIBLE_CHANGE
              else NO_CHANGE),
          Difference(p1.next, p2.next, level))
  {
    OutlineCons(p1, p2);
    LookCons(p1, p2);
    EqualCutsLook(p1.next, p2.next, level);
  }

  lemma OutlineCons(p1: Plain, p2: Plain)
    requires p1.Node? && p2.Node?
    ensures Outline(p1) == Outline(p2)
      <==> p1.fields.kind == p2.fields.kind && p1.fields.name == p2.fields.name && Outline(p1.next) == Outline(p2.next)
  {
    assert Outline(p1)[1..] == Outline(p1.next) && Outline(p2)[1..] == Outline(p2.next);
  }

  lemma LookCons(p1: Plain, p2: Plain)
    requires p1.Node? && p2.Node?
    ensures Look(p1) == Look(p2) <==>
      && p1.fields.value == p2.fields.value && p1.fields.key == p2.fields.key && p1.fields.accel == p2.fields.accel
      && p1.fields.enabled == p2.fields.enabled && p1.fields.selected == p2.fields.selected
      && Look(p1.next) == Look(p2.next)
  {
    assert Look(p1)[1..] == Look(p1.next) && Look(p2)[1..] == Look(p2.next);
  }

  /** Trees that are the same down to a level look the same. */
  lemma {:induction false} EqualCutsLook(p1: Plain, p2: Plain, level: int)
    ensures Cut(p1, level) == Cut(p2, level) ==> Outline(p1) == Outline(p2) && Look(p1) == Look(p2)
  {
    if p1.Node? && p2.Node? {
      EqualCutsLook(p1.next, p2.next, level);
    }
  }

  lemma DifferenceZero(p1: Plain, p2: Plain, level: int)
    ensures Difference(p1, p2, level) == NO_CHANGE <==> Cut(p1, level) == Cut(p2, level)
  {
    EqualCutsLook(p1, p2, level);
  }

  /** What the flags promise to the code that updates the widgets. */
  lemma {:induction false} FlagsPromise(t1: Tree, t2: Tree, level: int)
    requires t1.Item? && t2.Item?
    ensures var m := Merge(t1, t2, level);
            && (m.change == NO_CHANGE <==> Cut(Strip(t1), level) == Cut(Strip(t2), level))
            && (m.change == STRUCTURAL_CHANGE <==> Outline(Strip(t1)) != Outline(Strip(t2)))
            && (m.toolkit <==> t1.toolkit && Cut(Strip(t1), level) == Cut(Strip(t2), level))
  {
    FlagIsDifference(t1, t2, level);
    DifferenceZero(Strip(t1), Strip(t2), level);
  }

  /** With a level no less than the depth of the trees, merging gives the second
      tree, whatever the first was; the head is unchanged, and the toolkit's data
      kept, exactly if the two were equal already. */
  lemma DeepMergeGivesSecond(t1: Tree, t2: Tree, level: int)
    requires level >= Depth(Strip(t1)) && level >= Depth(Strip(t2))
    ensures var m := Merge(t1, t2, level);
            && Strip(m) == Strip(t2)
            && (t1.Item? && t2.Item? ==>
                  && (m.change == NO_CHANGE <==> Strip(t1) == Strip(t2))
                  && (m.toolkit <==> t1.toolkit && Strip(t1) == Strip(t2)))
  {
    MergeGivesSecond(t1, t2, level);
    AgreeDeep(Strip(t1), Strip(t2), level);
    if t1.Item? && t2.Item? {
      FlagsPromise(t1, t2, level);
      CutDeep(Strip(t1), level);
      CutDeep(Strip(t2), level);
    }
  }
}

/** merge_widget_value and copy_widget_value_tree of lwlib/lwlib.c, overwriting the
    nodes of one tree with what another one says.  The configuration has neither
    widget arguments nor scroll bars. */
module Widgets {
  import opened WidgetsSpec

  class WidgetValue {
    var fields: Fields
    var change: Change
    var toolkitData: bool  // non-null
    var contents: WidgetValue?
    var next: WidgetValue?

    constructor (fields: Fields, change: Change, contents: WidgetValue?, next: WidgetValue?)
      ensures this.fields == fields && this.change == change && !toolkitData
      ensures this.contents == contents && this.next == next
    {
      this.fields, this.change, this.toolkitData := fields, change, false;
      this.contents, this.next := contents, next;
    }
  }

  /** The nodes of a tree in the shape they are linked in. */
  datatype Shape = Empty | At(node: WidgetValue, contents: Shape, next: Shape)

  ghost function Nodes(s: Shape): set<WidgetValue> {
    match s case Empty => {} case At(v, c, n) => {v} + Nodes(c) + Nodes(n)
  }

  ghost predicate Distinct(s: Shape) {
    match s
    case Empty => true
    case At(v, c, n) => Distinct(c) && Distinct(n) && v !in Nodes(c) && v !in Nodes(n) && Nodes(c) !! Nodes(n)
  }

  ghost function Root(s: Shape): WidgetValue? {
    if s.Empty? then null else s.node
  }

  ghost predicate Linked(s: Shape)
    reads Nodes(s)
  {
    match s
    case Empty => true
    case At(v, c, n) => v.contents == Root(c) && v.next == Root(n) && Linked(c) && Linked(n)
  }

  /** The tree the nodes stand for. */
  ghost function Value(s: Shape): Tree
    reads Nodes(s)
  {
    match s
    case Empty => Nil
    case At(v, c, n) => Item(v.fields, v.change, v.toolkitData, Value(c), Value(n))
  }

  lemma JoinsShapes(node: WidgetValue, c: Shape, n: Shape)
    requires Linked(c) && Linked(n) && Distinct(c) && Distinct(n)
    requires node !in Nodes(c) && node !in Nodes(n) && Nodes(c) !! Nodes(n)
    requires node.contents == Root(c) && node.next == Root(n)
    ensures Linked(At(node, c, n)) && Distinct(At(node, c, n))
    ensures Nodes(At(node, c, n)) == {node} + Nodes(c) + Nodes(n)
    ensures Value(At(node, c, n)) == Item(node.fields, node.change, node.toolkitData, Value(c), Value(n))
  {
  }

  lemma ShapeParts(s: Shape)
    requires Linked(s) && s.At?
    ensures s.node.contents == Root(s.contents) && s.node.next == Root(s.next)
    ensures Linked(s.contents) && Linked(s.next) && Nodes(s.contents) <= Nodes(s) && Nodes(s.next) <= Nodes(s)
    ensures s.node in Nodes(s)
    ensures Value(s) == Item(s.node.fields, s.node.change, s.node.toolkitData, Value(s.contents), Value(s.next))
  {
  }

  lemma CopiedItem(t: Tree, change: Change)
    requires t.Item?
    ensures Copied(t, change) == Item(t.fields, change, false, Copied(t.contents, change), Copied(t.next, change))
  {
  }

  /** copy_widget_value_tree */
  method Copy(val: WidgetValue?, change: Change, ghost s: Shape, ghost all: set<WidgetValue>)
      returns (copy: WidgetValue?, ghost s': Shape, ghost all': set<WidgetValue>)
    requires val == Root(s) && Linked(s) && Nodes(s) <= all
    ensures copy == Root(s') && Linked(s') && Distinct(s') && Nodes(s') <= all' && fresh(all')
    ensures Value(s') == Copied(Value(s), change)
    decreases s
  {
    if val == null {
      return null, Empty, {};
    }
    hide Linked, Distinct, Nodes, Value, Copied;
    ShapeParts(s);
    var contents, next;
    ghost var sc, sn, ac, an;
    contents, sc, ac := Copy(val.contents, change, s.contents, all);
    next, sn, an := Copy(val.next, change, s.next, all);
    var node := new WidgetValue(val.fields, change, contents, next);
    copy := node;
    s', all' := At(node, sc, sn), ac + an + {node};
    JoinsShapes(node, sc, sn);
    CopiedItem(Value(s), change);
  }

  /** The comparisons at the start of merge_widget_value: type and name, */
  method MergeOutline(val1: WidgetValue, g: Fields) returns (change: Change)
    modifies val1`fields
    ensures val1.fields == old(val1.fields).(kind := g.kind, name := g.name)
    ensures change ==
            if old(val1.fields.kind != g.kind || val1.fields.name != g.name) then STRUCTURAL_CHANGE else NO_CHANGE
  {
    change := NO_CHANGE;
    if val1.fields.kind != g.kind {
      change := Max(change, STRUCTURAL_CHANGE);
      val1.fields := val1.fields.(kind := g.kind);
    }
    if val1.fields.name != g.name {
      change := Max(change, STRUCTURAL_CHANGE);
      val1.fields := val1.fields.(name := g.name);
    }
  }

  /** what else can be seen, */
  method MergeLook(val1: WidgetValue, g: Fields, before: Change) returns (change: Change)
    modifies val1`fields
    ensures val1.fields == old(val1.fields).(
            value := g.value, key := g.key, accel := g.accel, enabled := g.enabled, selected := g.selected)
    ensures change == Max(before, if old(val1.fields) == val1.fields then NO_CHANGE else VISIBLE_CHANGE)
  {
    change := before;
    if val1.fields.value != g.value {
      change := Max(change, VISIBLE_CHANGE);
      val1.fields := val1.fields.(value := g.value);
    }
    if val1.fields.key != g.key {
      change := Max(change, VISIBLE_CHANGE);
      val1.fields := val1.fields.(key := g.key);
    }
    if val1.fields.accel != g.accel {
      change := Max(change, VISIBLE_CHANGE);
      val1.fields := val1.fields.(accel := g.accel);
    }
    if val1.fields.enabled != g.enabled {
      change := Max(change, VISIBLE_CHANGE);
      val1.fields := val1.fields.(enabled := g.enabled);
    }
    if val1.fields.selected != g.selected {
      change := Max(change, VISIBLE_CHANGE);
      val1.fields := val1.fields.(selected := g.selected);
    }
  }

  /** and the call data. */
  method MergeFields(val1: WidgetValue, g: Fields) returns (change: Change)
    modifies val1`fields
    ensures val1.fields == g && change == OwnChange(old(val1.fields), g)
  {
    change := MergeOutline(val1, g);
    change := MergeLook(val1, g, change);
    if val1.fields.callData != g.callData {
      change := Max(change, INVISIBLE_CHANGE);
      val1.fields := val1.fields.(callData := g.callData);
    }
  }

  /** The merge of the contents, and what it adds to the change. */
  method MergeContents(val1: WidgetValue, contents2: WidgetValue?, level: int, before: Change,
                       ghost s1: Shape, ghost s2: Shape, ghost all: set<WidgetValue>)
      returns (change: Change, ghost s': Shape, ghost new': set<WidgetValue>)
    requires val1.contents == Root(s1) && Linked(s1) && Distinct(s1) && val1 !in Nodes(s1)
    requires contents2 == Root(s2) && Linked(s2)
    requires Nodes(s1) !! Nodes(s2) && Nodes(s1) <= all && Nodes(s2) <= all && val1 in all
    modifies val1`contents, Nodes(s1)
    ensures val1.contents == Root(s') && Linked(s') && Distinct(s')
    ensures Nodes(s') <= Nodes(s1) + new' && fresh(new')
    ensures Value(s') == old(Merge(Value(s1), Value(s2), level))
    ensures change == Max(before, ContentsChange(old(Value(s1)), Value(s')))
    decreases s1, 3
  {
    hide Merge;
    change := before;
    var mergedContents;
    mergedContents, s', new' := MergeWidgetValue(val1.contents, contents2, level, s1, s2, all);
    if val1.contents != null && mergedContents == null {
      change := Max(change, INVISIBLE_CHANGE);
    } else if mergedContents != null && mergedContents.change != NO_CHANGE {
      change := Max(change, INVISIBLE_CHANGE);
    }
    val1.contents := mergedContents;
  }

  /** The merge of the siblings behind, and what it adds to the change. */
  method MergeNext(val1: WidgetValue, next2: WidgetValue?, level: int, before: Change,
                   ghost s1: Shape, ghost s2: Shape, ghost all: set<WidgetValue>)
      returns (change: Change, ghost s': Shape, ghost new': set<WidgetValue>)
    requires val1.next == Root(s1) && Linked(s1) && Distinct(s1) && val1 !in Nodes(s1)
    requires next2 == Root(s2) && Linked(s2)
    requires Nodes(s1) !! Nodes(s2) && Nodes(s1) <= all && Nodes(s2) <= all && val1 in all
    modifies val1`next, Nodes(s1)
    ensures val1.next == Root(s') && Linked(s') && Distinct(s')
    ensures Nodes(s') <= Nodes(s1) + new' && fresh(new')
    ensures Value(s') == old(Merge(Value(s1), Value(s2), level))
    ensures change == Max(before, NextChange(old(Value(s1)), Value(s')))
    decreases s1, 3
  {
    hide Merge;
    change := before;
    var mergedNext;
    mergedNext, s', new' := MergeWidgetValue(val1.next, next2, level, s1, s2, all);
    if val1.next != null && mergedNext == null {
      change := Max(change, STRUCTURAL_CHANGE);
    } else if mergedNext != null {
      change := Max(change, mergedNext.change);
    }
    val1.next := mergedNext;
  }

  /** merge_widget_value: makes val1 say what val2 says, down to a level of contents. */
  method MergeWidgetValue(val1: WidgetValue?, val2: WidgetValue?, level: int,
                          ghost s1: Shape, ghost s2: Shape, ghost all: set<WidgetValue>)
      returns (r: WidgetValue?, ghost s': Shape, ghost new': set<WidgetValue>)
    requires val1 == Root(s1) && Linked(s1) && Distinct(s1)
    requires val2 == Root(s2) && Linked(s2)
    requires Nodes(s1) !! Nodes(s2) && Nodes(s1) <= all && Nodes(s2) <= all
    modifies Nodes(s1)
    ensures r == Root(s') && Linked(s') && Distinct(s')
    ensures Nodes(s') <= Nodes(s1) + new' && fresh(new')
    ensures Value(s') == old(Merge(Value(s1), Value(s2), level))
    decreases s1, 2
  {
    if val1 == null {
      r, s', new' := Copy(val2, STRUCTURAL_CHANGE, s2, all);
      return;
    }
    if val2 == null {
      return null, Empty, {};
    }
    r, s', new' := MergeItem(val1, val2, level, s1, s2, all);
  }

  method MergeItem(val1: WidgetValue, val2: WidgetValue, level: int,
                   ghost s1: Shape, ghost s2: Shape, ghost all: set<WidgetValue>)
      returns (r: WidgetValue, ghost s': Shape, ghost new': set<WidgetValue>)
    requires val1 == Root(s1) && Linked(s1) && Distinct(s1)
    requires val2 == Root(s2) && Linked(s2)
    requires Nodes(s1) !! Nodes(s2) && Nodes(s1) <= all && Nodes(s2) <= all
    modifies Nodes(s1)
    ensures r == Root(s') && Linked(s') && Distinct(s')
    ensures Nodes(s') <= Nodes(s1) + new' && fresh(new')
    ensures Value(s') == old(Merge(Value(s1), Value(s2), level))
    decreases s1, 1
  {
    hide OwnChange, Max, ContentsChange, NextChange, Merge;
    MergeUnfolds(Value(s1), Value(s2), level);
    var change;
    ghost var sc, sn;
    change, sc, sn, new' := MergeParts(val1, val2, level, s1, s2, all);
    Record(val1, change, sc, sn, new' + all);
    r, s' := val1, At(val1, sc, sn);
  }

  /** The merge of an item's fields and contents, and of the siblings behind it. */
  method MergeParts(val1: WidgetValue, val2: WidgetValue, level: int,
                    ghost s1: Shape, ghost s2: Shape, ghost all: set<WidgetValue>)
      returns (change: Change, ghost sc: Shape, ghost sn: Shape, ghost new': set<WidgetValue>)
    requires val1 == Root(s1) && Linked(s1) && Distinct(s1)
    requires val2 == Root(s2) && Linked(s2)
    requires Nodes(s1) !! Nodes(s2) && Nodes(s1) <= all && Nodes(s2) <= all
    modifies val1`fields, val1`contents, val1`next, Nodes(s1.contents), Nodes(s1.next)
    ensures val1.fields == old(val2.fields) && val1.contents == Root(sc) && val1.next == Root(sn)
    ensures Linked(sc) && Linked(sn) && Distinct(sc) && Distinct(sn) && Nodes(sc) !! Nodes(sn)
    ensures Nodes(sc) <= Nodes(s1.contents) + new' && Nodes(sn) <= Nodes(s1.next) + new' && fresh(new')
    ensures Value(sc) ==
            old(if level > 0 then Merge(Value(s1.contents), Value(s2.contents), level - 1) else Value(s1.contents))
    ensures Value(sn) == old(Merge(Value(s1.next), Value(s2.next), level))
    ensures var own := OwnChange(old(val1.fields), old(val2.fields));
            change == Max(if level > 0 then Max(own, ContentsChange(old(Value(s1.contents)), Value(sc))) else own,
                          NextChange(old(Value(s1.next)), Value(sn)))
    decreases s1, 0
  {
    hide OwnChange, Max, ContentsChange, NextChange, Merge;
    ghost var nc, nn;
    change, sc, nc := MergeInside(val1, val2, level, s1, s2, all);
    ghost var c := Value(sc);
    change, sn, nn := MergeNext(val1, val2.next, level, change, s1.next, s2.next, all);
    assert Linked(sc) && Value(sc) == c;
    new' := nc + nn;
  }

  /** Stores the change, and drops the toolkit's data if there is any. */
  method Record(val1: WidgetValue, change: Change, ghost sc: Shape, ghost sn: Shape, ghost all: set<WidgetValue>)
    requires val1 !in Nodes(sc) && val1 !in Nodes(sn) && Nodes(sc) <= all && Nodes(sn) <= all && Nodes(sc) !! Nodes(sn)
    requires Linked(sc) && Linked(sn) && Distinct(sc) && Distinct(sn)
    requires val1.contents == Root(sc) && val1.next == Root(sn)
    modifies val1`change, val1`toolkitData
    ensures Linked(At(val1, sc, sn)) && Distinct(At(val1, sc, sn))
            && Nodes(At(val1, sc, sn)) == {val1} + Nodes(sc) + Nodes(sn)
    ensures Value(At(val1, sc, sn))
            == Item(val1.fields, change, old(val1.toolkitData) && change == NO_CHANGE, old(Value(sc)), old(Value(sn)))
  {
    val1.change := change;
    if change != NO_CHANGE && val1.toolkitData {
      val1.toolkitData := false;
    }
  }

  /** The merge of an item's own fields and, if the level allows, of its contents. */
  method MergeInside(val1: WidgetValue, val2: WidgetValue, level: int,
                     ghost s1: Shape, ghost s2: Shape, ghost all: set<WidgetValue>)
      returns (change: Change, ghost s': Shape, ghost new': set<WidgetValue>)
    requires val1 == Root(s1) && Linked(s1) && Distinct(s1)
    requires val2 == Root(s2) && Linked(s2)
    requires Nodes(s1) !! Nodes(s2) && Nodes(s1) <= all && Nodes(s2) <= all
    modifies val1`fields, val1`contents, Nodes(s1.contents)
    ensures val1.fields == old(val2.fields)
    ensures val1.contents == Root(s') && Linked(s') && Distinct(s')
    ensures Nodes(s') <= Nodes(s1.contents) + new' && fresh(new')
    ensures Value(s') ==
            old(if level > 0 then Merge(Value(s1.contents), Value(s2.contents), level - 1) else Value(s1.contents))
    ensures var own := OwnChange(old(val1.fields), old(val2.fields));
            change == if level > 0 then Max(own, ContentsChange(old(Value(s1.contents)), Value(s'))) else own
    decreases s1.contents, 4
  {
    hide OwnChange, Max, ContentsChange, Merge;
    change := MergeFields(val1, val2.fields);
    s', new' := s1.contents, {};
    if level > 0 {
      change, s', new' := MergeContents(val1, val2.contents, level - 1, change, s1.contents, s2.contents, all);
    }
  }

  lemma MergeUnfolds(t1: Tree, t2: Tree, level: int)
    requires t1.Item? && t2.Item?
    ensures var c := if level > 0 then Merge(t1.contents, t2.contents, level - 1) else t1.contents;
            var n := Merge(t1.next, t2.next, level);
            var own := OwnChange(t1.fields, t2.fields);
            var change := Max(if level > 0 then Max(own, ContentsChange(t1.contents, c)) else own,
                              NextChange(t1.next, n));
            Merge(t1, t2, level) == Item(t2.fields, change, t1.toolkit && change == NO_CHANGE, c, n)
  {
  }
}
