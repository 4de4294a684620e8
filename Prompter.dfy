/** The layout: rows of elements inside a bounding size, loaded, stacked and aligned. */
module Prompter {
  import opened Geometry
  import opened Rows
  import opened Loading
  import opened Stacking
  import opened Alignment

  class Layout {
    const size: Size
    var rows: seq<Row>
    /** The elements of each row, row by row. */
    ghost var contents: seq<seq<Element>>

    /** There is always a current row; rows are distinct objects, each row's width is that
        of its elements, and `contents` lists each row's elements. */
    ghost predicate Valid()
      reads this, rows
    {
      && rows != []
      && (forall j, k :: 0 <= j < k < |rows| ==> rows[j] != rows[k])
      && (forall j :: 0 <= j < |rows| ==> rows[j].Valid())
      && |contents| == |rows|
      && (forall j :: 0 <= j < |rows| ==> contents[j] == rows[j].elements)
    }

    /** A layout of the given bounding size starts with exactly one empty row. */
    constructor (size: Size)
      ensures this.size == size && Valid()
      ensures contents == [[]]
      ensures |rows| == 1 && fresh(rows[0])
      ensures rows[0].size == Size(0.0, 0.0) && rows[0].position == Origin
    {
      this.size := size;
      var first := new Row();
      rows := [first];
      contents := [[]];
    }

    /** Loads the elements in order, greedily wrapping into rows no wider than the layout.
        An element wider than the layout stops loading with TooWide; the elements before
        it stay placed. */
    method LoadElements(elements: seq<Element>) returns (outcome: Outcome)
      requires Valid()
      modifies this, rows
      ensures Valid()
      ensures Load(old(contents), elements, size.width, 0) == Loaded(contents, outcome)
      ensures |old(rows)| <= |rows| && rows[..|old(rows)|] == old(rows)
      ensures forall j :: 0 <= j < |old(rows)| ==> rows[j].position == old(rows[j].position)
      ensures forall j :: |old(rows)| <= j < |rows| ==> fresh(rows[j]) && rows[j].position == Origin
    {
      var i := 0;
      while i < |elements|
        invariant 0 <= i <= |elements|
        invariant Valid()
        invariant Load(contents, elements, size.width, i) == Load(old(contents), elements, size.width, 0)
        invariant |old(rows)| <= |rows| && rows[..|old(rows)|] == old(rows)
        invariant forall j :: 0 <= j < |old(rows)| ==> rows[j].position == old(rows[j].position)
        invariant forall j :: |old(rows)| <= j < |rows| ==> fresh(rows[j]) && rows[j].position == Origin
      {
        var e := elements[i];
        if e.size.width > size.width {
          return TooWide(i, e.size.width, size.width);
        }
        PlaceElement(e);
        i := i + 1;
      }
      return Complete;
    }

    /** One step of loading, for an element no wider than the layout: it opens a new row
        when the last row would overflow, then appends the element to the last row. */
    method PlaceElement(e: Element)
      requires Valid() && e.size.width <= size.width
      modifies this, rows
      ensures Valid()
      ensures contents == Place(old(contents), e, size.width)
      ensures |old(rows)| <= |rows| && rows[..|old(rows)|] == old(rows)
      ensures forall j :: 0 <= j < |old(rows)| ==> rows[j].position == old(rows[j].position)
      ensures forall j :: |old(rows)| <= j < |rows| ==> fresh(rows[j]) && rows[j].position == Origin
    {
      if rows[|rows| - 1].size.width + e.size.width > size.width {
        OpenRow();
      }
      AppendToLastRow(e);
    }

    /** Starts a new, empty current row after the existing ones. */
    method OpenRow()
      requires Valid()
      modifies this
      ensures Valid()
      ensures contents == old(contents) + [[]]
      ensures rows[..|old(rows)|] == old(rows) && |rows| == |old(rows)| + 1
      ensures fresh(rows[|rows| - 1]) && rows[|rows| - 1].position == Origin
    {
      var row := new Row();
      rows := rows + [row];
      contents := contents + [[]];
    }

    /** Appends an element to the current row and widens it; no other row changes. */
    method AppendToLastRow(e: Element)
      requires Valid()
      modifies this, rows[|rows| - 1]
      ensures Valid() && rows == old(rows)
      ensures contents == old(contents[..|contents| - 1] + [Last(contents) + [e]])
      ensures forall j :: 0 <= j < |rows| ==> rows[j].position == old(rows[j].position)
    {
      var last := rows[|rows| - 1];
      last.AddElement(e);
      contents := contents[..|contents| - 1] + [Last(contents) + [e]];
    }

    /** Gives row i the height y = -i * H * spacing + H * start, where H is the layout's
        height; nothing else about the rows changes. */
    method StackRows(startFactor: real, spacingFactor: real)
      requires Valid()
      modifies rows
      ensures Valid() && contents == old(contents)
      ensures forall j :: 0 <= j < |rows| ==> rows[j].size == old(rows[j].size)
      ensures forall j :: 0 <= j < |rows| ==>
        rows[j].position == old(rows[j].position).(y := RowY(j, size.height, startFactor, spacingFactor))
    {
      ghost var ys := seq(|rows|, (j: nat) => RowY(j, size.height, startFactor, spacingFactor));
      for i := 0 to |rows|
        invariant Valid() && contents == old(contents)
        invariant forall j :: 0 <= j < |rows| ==> rows[j].size == old(rows[j].size)
        invariant forall j :: 0 <= j < i ==> rows[j].position == old(rows[j].position).(y := ys[j])
        invariant forall j :: i <= j < |rows| ==> rows[j].position == old(rows[j].position)
      {
        SetRowY(i, RowY(i, size.height, startFactor, spacingFactor));
      }
    }

    /** One step of StackRows: row i moves to height y; its x, z, size and elements stay. */
    method SetRowY(i: nat, y: real)
      requires Valid() && i < |rows|
      modifies rows[i]
      ensures Valid() && contents == old(contents)
      ensures rows[i].size == old(rows[i].size) && rows[i].position == old(rows[i].position).(y := y)
    {
      rows[i].position := rows[i].position.(y := y);
    }

    /** Element k of row j is not written again by the alignment of row j or of any
        row after it, up to row hi. */
    ghost predicate LastPlacement(j: nat, k: nat, hi: nat)
      reads this, rows
      requires j < |rows| && k < |rows[j].elements| && hi <= |rows|
    {
      && LastIn(rows[j].elements, k, |rows[j].elements|)
      && forall m :: j < m < hi ==> rows[j].elements[k] !in rows[m].elements
    }

    /** The row's own size, position and elements are as they were. */
    twostate predicate RowUnchanged(r: Row)
      reads r
    {
      r.elements == old(r.elements) && r.size == old(r.size) && r.position == old(r.position)
    }

    /** Every element of every row. */
    ghost function Members(): set<Element>
      reads this, rows
    {
      set j, k | 0 <= j < |rows| && 0 <= k < |rows[j].elements| :: rows[j].elements[k]
    }

    /** Every element of rows before hi that is not placed again later sits at its
        row's centred x and at its row's y. */
    ghost predicate AlignedUpTo(hi: nat)
      reads this, rows, Members()
      requires hi <= |rows|
    {
      forall j, k :: 0 <= j < hi && 0 <= k < |rows[j].elements| && LastPlacement(j, k, hi) ==>
        && rows[j].elements[k].position.x == CentreX(rows[j].elements, rows[j].size.width, k)
        && rows[j].elements[k].position.y == rows[j].position.y
    }

    /** Centre-aligns every row in turn. An element that occurs more than once keeps the
        position given by its last occurrence. */
    method AlignRowsContent()
      modifies Members()
      ensures AlignedUpTo(|rows|)
      ensures forall j, k :: 0 <= j < |rows| && 0 <= k < |rows[j].elements| ==>
        rows[j].elements[k].position.z == old(rows[j].elements[k].position.z)
    {
      for i := 0 to |rows|
        invariant forall j :: 0 <= j < |rows| ==> RowUnchanged(rows[j])
        invariant AlignedUpTo(i)
        invariant forall j, k :: 0 <= j < |rows| && 0 <= k < |rows[j].elements| ==>
          rows[j].elements[k].position.z == old(rows[j].elements[k].position.z)
      {
        AlignRow(i);
      }
    }

    /** One step of AlignRowsContent: centre-aligns row i and moves no element outside it. */
    method AlignRow(i: nat)
      requires i < |rows| && AlignedUpTo(i)
      modifies set e | e in rows[i].elements
      ensures AlignedUpTo(i + 1)
      ensures forall j :: 0 <= j < |rows| ==> RowUnchanged(rows[j])
      ensures forall j, k :: 0 <= j < |rows| && 0 <= k < |rows[j].elements| ==>
        rows[j].elements[k].position.z == old(rows[j].elements[k].position.z)
    {
      ghost var before := rows[i].elements;
      AlignCenter(rows[i]);
      assert rows[i].elements == before;
      forall j, k | 0 <= j <= i && 0 <= k < |rows[j].elements| && LastPlacement(j, k, i + 1)
        ensures rows[j].elements[k].position.x == CentreX(rows[j].elements, rows[j].size.width, k)
        ensures rows[j].elements[k].position.y == rows[j].position.y
      {
        if j < i {
          assert old(LastPlacement(j, k, i)) && rows[j].elements[k] !in rows[i].elements;
        }
      }
    }
  }
}
