/** Centre alignment of a row's elements around x = 0. */
module Alignment {
  import opened Geometry
  import opened Rows

  /** Where centre alignment puts element k of a row of width `rowWidth`: the row's left
      edge, plus the widths of the elements before k, plus half of element k's width.
      It is the x that the left-to-right pass starting at that edge computes. */
  function CentreX(es: seq<Element>, rowWidth: real, k: nat): (x: real)
    requires k < |es|
    ensures x == RunningXs(es, -(rowWidth / 2.0))[k]
  {
    RunningXsClosedForm(es, -(rowWidth / 2.0), k);
    -(rowWidth / 2.0) + SumWidths(es[..k]) + HalfWidth(es[k].size)
  }

  /** Element es[k] does not occur again in es[k + 1..hi], so a left-to-right pass that
      stops before hi writes it for the last time at index k. */
  ghost predicate LastIn(es: seq<Element>, k: nat, hi: nat)
    requires k < hi <= |es|
  {
    forall m :: k < m < hi ==> es[m] != es[k]
  }

  /** Lays the row's elements out left to right with no gaps, starting at minus half the
      row's width; each element gets its centre as x and the row's y. When an element
      occurs several times in the row, the position it keeps is that of its last
      occurrence. */
  method AlignCenter(row: Row)
    modifies set e | e in row.elements
    ensures forall k :: 0 <= k < |row.elements| && LastIn(row.elements, k, |row.elements|) ==>
      row.elements[k].position.x == CentreX(row.elements, row.size.width, k)
    ensures forall k :: 0 <= k < |row.elements| ==>
      row.elements[k].position.y == row.position.y && row.elements[k].position.z == old(row.elements[k].position.z)
  {
    var left := -HalfWidth(row.size);
    PlaceLeftToRight(row.elements, left, row.position.y);
    forall k | 0 <= k < |row.elements|
      ensures CentreX(row.elements, row.size.width, k) == RunningXs(row.elements, left)[k]
    {
      assert left == -(row.size.width / 2.0);
    }
  }

  /** The loop of AlignCenter: walks es from `left`, giving each element its centre as x
      and `y` as y, and moving right by its width. */
  method PlaceLeftToRight(es: seq<Element>, left: real, y: real)
    modifies set e | e in es
    ensures forall k :: 0 <= k < |es| && LastIn(es, k, |es|) ==> es[k].position.x == RunningXs(es, left)[k]
    ensures forall k :: 0 <= k < |es| ==> es[k].position.y == y && es[k].position.z == old(es[k].position.z)
  {
    ghost var xs := RunningXs(es, left);
    var cursor := left;
    for i := 0 to |es|
      invariant ContinuesFrom(es, xs, i, cursor)
      invariant PlacedUpTo(es, xs, y, i)
      invariant forall k :: 0 <= k < |es| ==> es[k].position.z == old(es[k].position.z)
    {
      cursor := PlaceAt(es, xs, y, i, cursor);
    }
  }

  /** From index i on, xs holds the running centres of es when the left edge is at `cursor`. */
  ghost predicate ContinuesFrom(es: seq<Element>, xs: seq<real>, i: nat, cursor: real)
  {
    i <= |es| && i <= |xs| && RunningXs(es[i..], cursor) == xs[i..]
  }

  /** One step of the running left edge: element i is placed at the cursor plus half its
      width, and the rest continue from the cursor advanced by its width. */
  lemma RunningXsStep(es: seq<Element>, xs: seq<real>, i: nat, cursor: real)
    requires i < |es| && ContinuesFrom(es, xs, i, cursor)
    ensures xs[i] == cursor + HalfWidth(es[i].size)
    ensures ContinuesFrom(es, xs, i + 1, cursor + es[i].size.width)
  {
    assert es[i..][1..] == es[i + 1..] && xs[i..][1..] == xs[i + 1..];
  }

  /** Elements before i, at their last occurrence so far, have x from xs, and all have y. */
  ghost predicate PlacedUpTo(es: seq<Element>, xs: seq<real>, y: real, i: nat)
    reads set e | e in es
    requires i <= |es| == |xs|
  {
    && (forall k :: 0 <= k < i && LastIn(es, k, i) ==> es[k].position.x == xs[k])
    && (forall k :: 0 <= k < i ==> es[k].position.y == y)
  }

  /** One step of PlaceLeftToRight: element i gets its centre as x and y as y, keeps its
      z, and the cursor moves right by its width. */
  method PlaceAt(es: seq<Element>, ghost xs: seq<real>, y: real, i: nat, cursor: real) returns (next: real)
    requires i < |es| == |xs| && ContinuesFrom(es, xs, i, cursor) && PlacedUpTo(es, xs, y, i)
    modifies es[i]
    ensures ContinuesFrom(es, xs, i + 1, next) && PlacedUpTo(es, xs, y, i + 1)
    ensures forall k :: 0 <= k < |es| ==> es[k].position.z == old(es[k].position.z)
  {
    RunningXsStep(es, xs, i, cursor);
    es[i].position := es[i].position.(x := cursor + HalfWidth(es[i].size), y := y);
    next := cursor + es[i].size.width;
    forall k | 0 <= k < i && LastIn(es, k, i + 1) ensures es[k].position.x == xs[k] {
      assert es[i] != es[k];
    }
  }

  function RunningXs(es: seq<Element>, left: real): (xs: seq<real>)
    ensures |xs| == |es|
  {
    if es == [] then [] else [left + HalfWidth(es[0].size)] + RunningXs(es[1..], left + es[0].size.width)
  }

  /** The pass puts element k at the start, plus the widths before it, plus half its own. */
  lemma {:induction false} RunningXsClosedForm(es: seq<Element>, left: real, k: nat)
    requires k < |es|
    ensures RunningXs(es, left)[k] == left + SumWidths(es[..k]) + HalfWidth(es[k].size)
    decreases k
  {
    if k == 0 {
      assert es[..0] == [];
    } else {
      RunningXsClosedForm(es[1..], left + es[0].size.width, k - 1);
      assert es[..k] == [es[0]] + es[1..][..k - 1];
      SumWidthsAppend([es[0]], es[1..][..k - 1]);
      assert SumWidths([es[0]]) == es[0].size.width by { assert [es[0]][..0] == []; }
    }
  }

  /** Aligned elements touch: each one's right edge is the next one's left edge. */
  lemma AlignedContiguous(es: seq<Element>, rowWidth: real, k: nat)
    requires k + 1 < |es|
    ensures CentreX(es, rowWidth, k) + HalfWidth(es[k].size)
         == CentreX(es, rowWidth, k + 1) - HalfWidth(es[k + 1].size)
  {
    SumWidthsPrefixStep(es, k);
  }

  /** When the row's width is the sum of its elements' widths, the aligned contents span
      exactly from minus half the width to plus half the width. */
  lemma AlignedCentred(es: seq<Element>)
    requires es != []
    ensures var w := SumWidths(es);
      && CentreX(es, w, 0) - HalfWidth(es[0].size) == -(w / 2.0)
      && CentreX(es, w, |es| - 1) + HalfWidth(es[|es| - 1].size) == w / 2.0
  {
    assert es[..0] == [];
    SumWidthsPrefixStep(es, |es| - 1);
    assert es[..|es|] == es;
  }

  /** With no negative widths, every aligned element lies inside the row's span. */
  lemma AlignedWithinRow(es: seq<Element>, k: nat)
    requires k < |es|
    requires forall e :: e in es ==> e.size.width >= 0.0
    ensures var w := SumWidths(es);
      && -(w / 2.0) <= CentreX(es, w, k) - HalfWidth(es[k].size)
      && CentreX(es, w, k) + HalfWidth(es[k].size) <= w / 2.0
  {
    SumWidthsPrefixBounds(es, k);
    SumWidthsPrefixBounds(es, k + 1);
    SumWidthsPrefixStep(es, k);
  }
}
