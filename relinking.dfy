/** The status-run aggregation of the relinking list view: item rectangles
    arrive in order together with a status, and consecutive items of equal
    status are collapsed into one indication group whose rectangle is the
    union of theirs. */
module Relinking {

  /** An integer rectangle stored as its corners (x1, y1) and (x2, y2),
      both inclusive, as QRect stores it; width is x2 - x1 + 1. */
  datatype Rect = Rect(x1: int, y1: int, x2: int, y2: int)
  {
    /** The null rectangle: width and height both zero. */
    predicate IsNull() {
      x2 == x1 - 1 && y2 == y1 - 1
    }

    /** Left and right edges after normalising a negative width. */
    function Left(): int { if x2 - x1 + 1 < 0 then x2 else x1 }
    function Right(): int { if x2 - x1 + 1 < 0 then x1 else x2 }
    function Top(): int { if y2 - y1 + 1 < 0 then y2 else y1 }
    function Bottom(): int { if y2 - y1 + 1 < 0 then y1 else y2 }
  }

  function Min(a: int, b: int): int { if a <= b then a else b }
  function Max(a: int, b: int): int { if a >= b then a else b }

  /** `a |= b`: a null operand yields the other one; otherwise the smallest
      rectangle spanning the normalised edges of both. */
  function Union(a: Rect, b: Rect): (r: Rect)
    ensures a.IsNull() ==> r == b
    ensures !a.IsNull() && b.IsNull() ==> r == a
    ensures !a.IsNull() && !b.IsNull() ==>
      && r.x1 <= a.Left() && r.x1 <= b.Left() && r.x2 >= a.Right() && r.x2 >= b.Right()
      && r.y1 <= a.Top() && r.y1 <= b.Top() && r.y2 >= a.Bottom() && r.y2 >= b.Bottom()
      && (r.x1 == a.Left() || r.x1 == b.Left()) && (r.x2 == a.Right() || r.x2 == b.Right())
      && (r.y1 == a.Top() || r.y1 == b.Top()) && (r.y2 == a.Bottom() || r.y2 == b.Bottom())
  {
    if a.IsNull() then b
    else if b.IsNull() then a
    else Rect(Min(a.Left(), b.Left()), Min(a.Top(), b.Top()), Max(a.Right(), b.Right()), Max(a.Bottom(), b.Bottom()))
  }

  /** One run of equally-flagged items. */
  datatype IndicationGroup = IndicationGroup(rect: Rect, status: int)

  /** One call of `process`: the rectangle and status of an item, the same
      pair a new group is built from. */
  type Item = IndicationGroup

  /** What `process` does to the group list, as a value. */
  function Step(groups: seq<IndicationGroup>, item: Item): seq<IndicationGroup> {
    if groups == [] || groups[|groups| - 1].status != item.status then
      groups + [IndicationGroup(item.rect, item.status)]
    else
      groups[..|groups| - 1] + [IndicationGroup(Union(groups[|groups| - 1].rect, item.rect), item.status)]
  }

  /** The group list after processing the items in order. */
  function Aggregated(items: seq<Item>): seq<IndicationGroup> {
    if items == [] then [] else Step(Aggregated(items[..|items| - 1]), items[|items| - 1])
  }

  /** The statuses of a list of items or groups, in order. */
  function StatusesOf(s: seq<IndicationGroup>): (r: seq<int>)
    ensures |r| == |s| && forall i :: 0 <= i < |s| ==> r[i] == s[i].status
  {
    if s == [] then [] else StatusesOf(s[..|s| - 1]) + [s[|s| - 1].status]
  }

  /** A reference definition of the status sequence: consecutive duplicates
      removed, read from the front. */
  function Collapse(s: seq<int>): seq<int> {
    if |s| <= 1 then s
    else if s[0] == s[1] then Collapse(s[1..])
    else [s[0]] + Collapse(s[1..])
  }

  predicate NoAdjacentRepeats(s: seq<int>) {
    forall i :: 0 < i < |s| ==> s[i - 1] != s[i]
  }

  /** Collapse keeps the first element and never produces an adjacent
      repeat. */
  lemma {:induction false} CollapseShape(s: seq<int>)
    ensures s != [] ==> Collapse(s) != [] && Collapse(s)[0] == s[0]
    ensures NoAdjacentRepeats(Collapse(s))
    ensures |Collapse(s)| <= |s|
    decreases |s|
  {
    if |s| > 1 {
      CollapseShape(s[1..]);
    }
  }

  /** Collapse read from the back: appending a status either repeats the
      last one (and vanishes) or is kept. */
  lemma {:induction false} CollapseSnoc(s: seq<int>, x: int)
    ensures Collapse(s + [x]) == if s != [] && s[|s| - 1] == x then Collapse(s) else Collapse(s) + [x]
    decreases |s|
  {
    if |s| == 1 {
      assert (s + [x])[1..] == [x];
    } else if |s| > 1 {
      assert (s + [x])[1..] == s[1..] + [x];
      CollapseSnoc(s[1..], x);
    }
  }

  /** The group statuses are the input statuses with consecutive duplicates
      collapsed; hence adjacent groups differ and there are never more
      groups than items. */
  lemma {:induction false} AggregatedStatuses(items: seq<Item>)
    ensures StatusesOf(Aggregated(items)) == Collapse(StatusesOf(items))
    ensures NoAdjacentRepeats(StatusesOf(Aggregated(items)))
    ensures |Aggregated(items)| <= |items|
    decreases |items|
  {
    if items != [] {
      var init, last := items[..|items| - 1], items[|items| - 1];
      AggregatedStatuses(init);
      var g := Aggregated(init);
      var r := Step(g, last);
      assert StatusesOf(items) == StatusesOf(init) + [last.status];
      CollapseSnoc(StatusesOf(init), last.status);
      if g == [] || g[|g| - 1].status != last.status {
        assert r[..|r| - 1] == g;
        assert StatusesOf(r) == StatusesOf(g) + [last.status];
        if init != [] {
          CollapseShape(StatusesOf(init));
          assert StatusesOf(init)[|init| - 1] != last.status by {
            LastOfCollapse(StatusesOf(init));
          }
        }
      } else {
        assert r[..|r| - 1] == g[..|g| - 1];
        assert StatusesOf(r) == StatusesOf(g[..|g| - 1]) + [last.status];
        assert StatusesOf(g) == StatusesOf(g[..|g| - 1]) + [g[|g| - 1].status];
        LastOfCollapse(StatusesOf(init));
      }
      CollapseShape(StatusesOf(items));
    }
  }

  /** The last element of a collapsed sequence is the last element of the
      sequence. */
  lemma {:induction false} LastOfCollapse(s: seq<int>)
    requires s != []
    ensures Collapse(s) != [] && Collapse(s)[|Collapse(s)| - 1] == s[|s| - 1]
    decreases |s|
  {
    if |s| > 1 {
      LastOfCollapse(s[1..]);
    }
  }

  /** GroupAggregator: owns the list of groups and extends it one item at a
      time. The items seen so far are kept as ghost state. */
  class GroupAggregator {
    var groups: seq<IndicationGroup>
    ghost var items: seq<Item>

    ghost predicate Valid()
      reads this
    {
      groups == Aggregated(items)
    }

    constructor()
      ensures Valid() && groups == [] && items == []
    {
      groups := [];
      items := [];
    }

    /** `groups()`: the list built so far. */
    function Groups(): (r: seq<IndicationGroup>)
      reads this
      requires Valid()
      ensures NoAdjacentRepeats(StatusesOf(r)) && |r| <= |items|
    {
      AggregatedStatuses(items);
      groups
    }

    /** `process(rect, status)`. */
    method Process(rect: Rect, status: int)
      requires Valid()
      modifies this
      ensures Valid() && items == old(items) + [IndicationGroup(rect, status)]
      ensures old(groups) == [] || old(groups)[|old(groups)| - 1].status != status ==>
        groups == old(groups) + [IndicationGroup(rect, status)]
      ensures old(groups) != [] && old(groups)[|old(groups)| - 1].status == status ==>
        |groups| == |old(groups)| && groups[..|groups| - 1] == old(groups)[..|groups| - 1]
        && groups[|groups| - 1] == IndicationGroup(Union(old(groups)[|groups| - 1].rect, rect), status)
    {
      if groups == [] || groups[|groups| - 1].status != status {
        groups := groups + [IndicationGroup(rect, status)];
      } else {
        var last := groups[|groups| - 1];
        groups := groups[..|groups| - 1] + [IndicationGroup(Union(last.rect, rect), status)];
      }
      items := items + [IndicationGroup(rect, status)];
      assert items[..|items| - 1] == old(items);
    }
  }
}
