/** Scenarios of a layout: load, stack at (0.25, 0.5), centre-align. */
module Scenarios {
  import opened Geometry
  import opened Rows
  import opened Loading
  import opened Stacking
  import opened Alignment
  import opened Prompter

  /** A fresh layout of the given size loads the elements, then stacks its rows at start
      factor 0.25 and spacing factor 0.5 and centre-aligns them. When an element is too
      wide, loading raises and the set-up ends there: the rows stay at the origin and no
      element moves. Otherwise every row ends at x = 0, z = 0 and its stacked y, and
      when no element is listed twice, every placed element sits at its row's centred x
      and at its row's y. No element's z ever changes. */
  method SetUpLayout(size: Size, elements: seq<Element>) returns (layout: Layout, outcome: Outcome)
    modifies set e | e in elements
    ensures fresh(layout) && layout.Valid() && layout.size == size
    ensures Load([[]], elements, size.width, 0) == Loaded(layout.contents, outcome)
    ensures outcome.TooWide? ==>
      && (forall j :: 0 <= j < |layout.rows| ==> layout.rows[j].position == Origin)
      && (forall e :: e in elements ==> e.position == old(e.position))
    ensures outcome == Complete ==>
      && (forall j :: 0 <= j < |layout.rows| ==>
            layout.rows[j].position == Position(0.0, RowY(j, size.height, 0.25, 0.5), 0.0))
      && layout.AlignedUpTo(|layout.rows|)
    ensures forall e :: e in elements ==> e.position.z == old(e.position.z)
    ensures outcome == Complete && Distinct(elements) ==>
      forall j, k :: 0 <= j < |layout.rows| && 0 <= k < |layout.rows[j].elements| ==>
        && layout.rows[j].elements[k].position.x
           == CentreX(layout.rows[j].elements, SumWidths(layout.rows[j].elements), k)
        && layout.rows[j].elements[k].position.y == RowY(j, size.height, 0.25, 0.5)
  {
    layout, outcome := LoadAndStack(size, elements);
    if outcome.TooWide? {
      return;
    }
    layout.AlignRowsContent();
    if Distinct(elements) {
      AlignedWhenDistinct(layout, elements);
    }
  }

  /** The loading and stacking half of SetUpLayout; no element is touched. The rows are
      stacked only when loading completes; after a too-wide element they stay at the
      origin. */
  method LoadAndStack(size: Size, elements: seq<Element>) returns (layout: Layout, outcome: Outcome)
    ensures fresh(layout) && layout.Valid() && layout.size == size
    ensures Load([[]], elements, size.width, 0) == Loaded(layout.contents, outcome)
    ensures outcome.TooWide? ==> forall j :: 0 <= j < |layout.rows| ==> layout.rows[j].position == Origin
    ensures outcome == Complete ==> forall j :: 0 <= j < |layout.rows| ==>
      layout.rows[j].position == Position(0.0, RowY(j, size.height, 0.25, 0.5), 0.0)
    ensures layout.Members() <= set e | e in elements
  {
    layout := new Layout(size);
    outcome := layout.LoadElements(elements);
    MembersPlaced(layout, elements);
    if outcome.TooWide? {
      return;
    }
    layout.StackRows(0.25, 0.5);
  }

  /** With no element listed twice, every element of an aligned layout loaded from the
      single empty row is at its last placement, so it sits at its row's centred x and y. */
  lemma AlignedWhenDistinct(layout: Layout, elements: seq<Element>)
    requires layout.Valid() && layout.contents == Load([[]], elements, layout.size.width, 0).rows
    requires layout.AlignedUpTo(|layout.rows|) && Distinct(elements)
    ensures forall j, k :: 0 <= j < |layout.rows| && 0 <= k < |layout.rows[j].elements| ==>
      && layout.rows[j].elements[k].position.x
         == CentreX(layout.rows[j].elements, SumWidths(layout.rows[j].elements), k)
      && layout.rows[j].elements[k].position.y == layout.rows[j].position.y
  {
    var l := Load([[]], elements, layout.size.width, 0);
    OrderFromEmptyRow(elements, layout.size.width);
    assert Distinct(Flatten(layout.contents));
    forall j, k | 0 <= j < |layout.rows| && 0 <= k < |layout.rows[j].elements|
      ensures layout.LastPlacement(j, k, |layout.rows|)
    {
      FlattenDistinct(layout.contents, j, k);
    }
  }

  /** After loading from the single empty row, every element of the layout is one of the
      loaded elements. */
  lemma MembersPlaced(layout: Layout, elements: seq<Element>)
    requires layout.Valid() && layout.contents == Load([[]], elements, layout.size.width, 0).rows
    ensures layout.Members() <= set e | e in elements
  {
    OrderFromEmptyRow(elements, layout.size.width);
    forall j, k | 0 <= j < |layout.rows| && 0 <= k < |layout.rows[j].elements|
      ensures layout.rows[j].elements[k] in elements
    {
      FlattenContains(layout.contents, j, layout.rows[j].elements[k]);
    }
  }

  /** A 100 x 20 layout holding elements of widths 5, 3 and 8 (16 in all) keeps them in
      one row at height 25; centred about x = 0 they sit at -5.5, -1.5 and 4. */
  method ThreeElementsOneRow() returns (outcome: Outcome, rowCount: nat, rowPosition: Position, positions: seq<Position>)
    ensures outcome == Complete && rowCount == 1
    ensures rowPosition == Position(0.0, 25.0, 0.0)
    ensures positions == [Position(-5.5, 25.0, 0.0), Position(-1.5, 25.0, 0.0), Position(4.0, 25.0, 0.0)]
  {
    var a := new Element(Size(1.0, 5.0));
    var b := new Element(Size(1.0, 3.0));
    var c := new Element(Size(1.0, 8.0));
    assert Distinct([a, b, c]);
    var layout;
    layout, outcome := SetUpLayout(Size(100.0, 20.0), [a, b, c]);
    LoadWidths538(a, b, c);
    CentresOf538(a, b, c);
    var row := layout.rows[0];
    assert row.elements == [a, b, c];
    assert row.elements[0] == a && row.elements[1] == b && row.elements[2] == c;
    rowCount := |layout.rows|;
    rowPosition := row.position;
    positions := [a.position, b.position, c.position];
  }

  /** Two elements of width 15 overflow a row of width 20: the second opens a new row,
      and the rows sit at heights 25 and -25, each element centred in its own row. */
  method OverflowOpensRow() returns (outcome: Outcome, rowYs: seq<real>, positions: seq<Position>)
    ensures outcome == Complete
    ensures rowYs == [25.0, -25.0]
    ensures positions == [Position(0.0, 25.0, 0.0), Position(0.0, -25.0, 0.0)]
  {
    var a := new Element(Size(1.0, 15.0));
    var b := new Element(Size(1.0, 15.0));
    assert Distinct([a, b]);
    var layout;
    layout, outcome := SetUpLayout(Size(100.0, 20.0), [a, b]);
    LoadWidths15and15(a, b);
    CentreOfOnly(a);
    CentreOfOnly(b);
    var first, second := layout.rows[0], layout.rows[1];
    assert first.elements == [a] && second.elements == [b];
    assert first.elements[0] == a && second.elements[0] == b;
    rowYs := [first.position.y, second.position.y];
    positions := [a.position, b.position];
  }

  /** An element wider than the layout stops the set-up at its index: the element before
      it stays in the layout's single row, and neither that row nor any element has moved
      from the origin, since stacking and alignment are never reached. */
  method TooWideStopsLoading() returns (outcome: Outcome, rowCount: nat, placed: seq<Element>, first: Element,
                                        rowPosition: Position, firstPosition: Position)
    ensures outcome == TooWide(1, 25.0, 20.0)
    ensures rowCount == 1 && placed == [first]
    ensures rowPosition == Origin && firstPosition == Origin
  {
    first := new Element(Size(1.0, 5.0));
    var wide := new Element(Size(1.0, 25.0));
    var layout;
    layout, outcome := SetUpLayout(Size(100.0, 20.0), [first, wide]);
    LoadTooWide(first, wide);
    rowCount := |layout.rows|;
    placed := layout.rows[0].elements;
    rowPosition := layout.rows[0].position;
    firstPosition := first.position;
  }

  /** Widths 5, 3 and 8 (16 in all) fit one row of a layout of width 20. */
  lemma LoadWidths538(a: Element, b: Element, c: Element)
    requires a.size.width == 5.0 && b.size.width == 3.0 && c.size.width == 8.0
    ensures Load([[]], [a, b, c], 20.0, 0) == Loaded([[a, b, c]], Complete)
  {
    var es := [a, b, c];
    var empty: seq<seq<Element>> := [[]];
    assert Load(empty, es, 20.0, 0) == Load(Place(empty, a, 20.0), es, 20.0, 1);
    PlaceIntoOnlyRow([], a, 20.0);
    assert [] + [a] == [a] && SumWidths([a]) == 5.0 by { assert [a][..0] == []; }
    assert Load([[a]], es, 20.0, 1) == Load(Place([[a]], b, 20.0), es, 20.0, 2);
    PlaceIntoOnlyRow([a], b, 20.0);
    assert [a] + [b] == [a, b] && SumWidths([a, b]) == 8.0 by { assert [a, b][..1] == [a]; }
    assert Load([[a, b]], es, 20.0, 2) == Load(Place([[a, b]], c, 20.0), es, 20.0, 3);
    PlaceIntoOnlyRow([a, b], c, 20.0);
    assert [a, b] + [c] == es;
  }

  /** A second element of width 15 does not fit beside a first one in a row of width 20. */
  lemma LoadWidths15and15(a: Element, b: Element)
    requires a.size.width == 15.0 && b.size.width == 15.0
    ensures Load([[]], [a, b], 20.0, 0) == Loaded([[a], [b]], Complete)
  {
    var es := [a, b];
    var empty: seq<seq<Element>> := [[]];
    PlaceIntoOnlyRow([], a, 20.0);
    assert [] + [a] == [a];
    assert SumWidths([a]) == 15.0 by { assert [a][..0] == []; }
    assert Place([[a]], b, 20.0) == [[a], [b]];
    assert Load(empty, es, 20.0, 0) == Load([[a]], es, 20.0, 1) == Load([[a], [b]], es, 20.0, 2);
  }

  /** An element of width 25 after one of width 5 stops loading at index 1. */
  lemma LoadTooWide(first: Element, wide: Element)
    requires first.size.width == 5.0 && wide.size.width == 25.0
    ensures Load([[]], [first, wide], 20.0, 0) == Loaded([[first]], TooWide(1, 25.0, 20.0))
  {
    var empty: seq<seq<Element>> := [[]];
    PlaceIntoOnlyRow([], first, 20.0);
    assert [] + [first] == [first];
    assert Load(empty, [first, wide], 20.0, 0) == Load([[first]], [first, wide], 20.0, 1);
  }

  /** A row holding a single element centres it at x = 0. */
  lemma CentreOfOnly(e: Element)
    ensures SumWidths([e]) == e.size.width
    ensures CentreX([e], SumWidths([e]), 0) == 0.0
  {
    assert [e][..0] == [];
  }

  /** In a row of widths 5, 3 and 8 (total 16) the centres lie at -5.5, -1.5 and 4. */
  lemma CentresOf538(a: Element, b: Element, c: Element)
    requires a.size.width == 5.0 && b.size.width == 3.0 && c.size.width == 8.0
    ensures SumWidths([a, b, c]) == 16.0
    ensures CentreX([a, b, c], 16.0, 0) == -5.5
    ensures CentreX([a, b, c], 16.0, 1) == -1.5
    ensures CentreX([a, b, c], 16.0, 2) == 4.0
  {
    var es := [a, b, c];
    assert es[..0] == [] && es[..1] == [a] && es[..2] == [a, b] && es[..3] == es;
    assert [a][..0] == [] && [a, b][..1] == [a];
    assert SumWidths([a]) == 5.0;
    assert SumWidths([a, b]) == 8.0;
    assert SumWidths(es) == 16.0;
  }
}
