/** Layout elements and the rows that group them. */
module Rows {
  import opened Geometry

  /** An element of fixed size whose position the layout writes. */
  class Element {
    const size: Size
    var position: Position

    constructor (size: Size)
      ensures this.size == size && position == Origin
    {
      this.size := size;
      position := Origin;
    }
  }

  /** Total width of a sequence of elements, summed left to right from 0; never negative
      when no width is. */
  function SumWidths(es: seq<Element>): (w: real)
    ensures (forall k :: 0 <= k < |es| ==> es[k].size.width >= 0.0) ==> w >= 0.0
  {
    if es == [] then 0.0 else SumWidths(es[..|es| - 1]) + es[|es| - 1].size.width
  }

  /** Summing widths distributes over concatenation. */
  lemma {:induction false} SumWidthsAppend(a: seq<Element>, b: seq<Element>)
    ensures SumWidths(a + b) == SumWidths(a) + SumWidths(b)
    decreases |b|
  {
    if b != [] {
      var b' := b[..|b| - 1];
      assert (a + b)[..|a + b| - 1] == a + b';
      SumWidthsAppend(a, b');
    } else {
      assert a + b == a;
    }
  }

  /** The width of a prefix grows by exactly the next element's width. */
  lemma SumWidthsPrefixStep(es: seq<Element>, k: nat)
    requires k < |es|
    ensures SumWidths(es[..k + 1]) == SumWidths(es[..k]) + es[k].size.width
  {
    assert es[..k + 1][..k] == es[..k];
  }

  /** With no negative widths, every prefix is at least 0 and at most the whole. */
  lemma {:induction false} SumWidthsPrefixBounds(es: seq<Element>, k: nat)
    requires k <= |es|
    requires forall e :: e in es ==> e.size.width >= 0.0
    ensures 0.0 <= SumWidths(es[..k]) <= SumWidths(es)
    decreases |es|
  {
    if es == [] {
    } else if k == |es| {
      assert es[..k] == es;
      SumWidthsPrefixBounds(es[..|es| - 1], k - 1);
      assert es[..|es| - 1][..k - 1] == es[..|es| - 1];
    } else {
      var init := es[..|es| - 1];
      assert es[..k] == init[..k];
      SumWidthsPrefixBounds(init, k);
      SumWidthsPrefixBounds(init, |init|);
      assert init[..|init|] == init;
    }
  }

  /** A row: a composite element whose width is the sum of its elements' widths. */
  class Row {
    var size: Size
    var position: Position
    var elements: seq<Element>

    /** The width the row reports is always that of its contents. */
    ghost predicate Valid()
      reads this
    {
      size.width == SumWidths(elements)
    }

    /** A new row is empty, has size (0, 0) and sits at the origin. */
    constructor ()
      ensures Valid()
      ensures size == Size(0.0, 0.0) && position == Origin && elements == []
    {
      size := Size(0.0, 0.0);
      position := Origin;
      elements := [];
    }

    /** Appends an element at the right end of the row and recomputes the width. */
    method AddElement(e: Element)
      modifies this
      ensures Valid()
      ensures elements == old(elements) + [e]
      ensures size == old(size).(width := SumWidths(elements))
      ensures old(Valid()) ==> size.width == old(size.width) + e.size.width
      ensures position == old(position)
    {
      elements := elements + [e];
      UpdateSize();
    }

    /** Recomputes the width from scratch as the sum of the elements' widths. */
    method UpdateSize()
      modifies this
      ensures Valid()
      ensures size == old(size).(width := SumWidths(elements))
      ensures elements == old(elements) && position == old(position)
    {
      size := size.(width := SumWidths(elements));
    }
  }

  /** The elements of all rows, row after row, each row left to right. */
  function Flatten(rows: seq<seq<Element>>): seq<Element>
  {
    if rows == [] then [] else Flatten(rows[..|rows| - 1]) + rows[|rows| - 1]
  }

  /** Every element of every row occurs in the flattened sequence. */
  lemma {:induction false} FlattenContains(rows: seq<seq<Element>>, i: nat, e: Element)
    requires i < |rows| && e in rows[i]
    ensures e in Flatten(rows)
    decreases |rows|
  {
    if i < |rows| - 1 {
      FlattenContains(rows[..|rows| - 1], i, e);
    }
  }

  /** No element occurs twice. */
  ghost predicate Distinct(es: seq<Element>)
  {
    forall i, j :: 0 <= i < j < |es| ==> es[i] != es[j]
  }

  /** When no element occurs twice in the flattened rows, element k of row j occurs
      neither later in its own row nor in any later row. */
  lemma {:induction false} FlattenDistinct(rows: seq<seq<Element>>, j: nat, k: nat)
    requires Distinct(Flatten(rows)) && j < |rows| && k < |rows[j]|
    ensures forall m :: k < m < |rows[j]| ==> rows[j][m] != rows[j][k]
    ensures forall m :: j < m < |rows| ==> rows[j][k] !in rows[m]
    decreases |rows|
  {
    var init, last := rows[..|rows| - 1], rows[|rows| - 1];
    var before := Flatten(init);
    assert Flatten(rows) == before + last;
    if j == |rows| - 1 {
      forall m | k < m < |last| ensures last[m] != last[k] {
        assert Flatten(rows)[|before| + k] == last[k] && Flatten(rows)[|before| + m] == last[m];
      }
    } else {
      assert Distinct(before) by {
        forall a, b | 0 <= a < b < |before| ensures before[a] != before[b] {
          assert Flatten(rows)[a] == before[a] && Flatten(rows)[b] == before[b];
        }
      }
      FlattenDistinct(init, j, k);
      FlattenContains(init, j, rows[j][k]);
      var a :| 0 <= a < |before| && before[a] == rows[j][k];
      forall b | 0 <= b < |last| ensures last[b] != rows[j][k] {
        assert Flatten(rows)[a] == before[a] && Flatten(rows)[|before| + b] == last[b];
      }
    }
  }
}
