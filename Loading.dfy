/** Greedy row wrapping, as a function on row contents, and what it guarantees. */
module Loading {
  import opened Geometry
  import opened Rows

  /** How loading ended: every element placed, or stopped at one too wide for any row. */
  datatype Outcome = Complete | TooWide(index: nat, width: real, maxWidth: real)

  /** The rows after loading, and how loading ended. */
  datatype Loaded = Loaded(rows: seq<seq<Element>>, outcome: Outcome)

  /** The last row, the one elements are added to. */
  function Last(rows: seq<seq<Element>>): seq<Element>
    requires rows != []
  {
    rows[|rows| - 1]
  }

  /** Places one element that fits the limit: a new row is opened only if the last one would overflow. */
  function Place(rows: seq<seq<Element>>, e: Element, maxWidth: real): (r: seq<seq<Element>>)
    requires rows != []
    ensures |r| == |rows| || |r| == |rows| + 1
  {
    if SumWidths(Last(rows)) + e.size.width > maxWidth then rows + [[e]]
    else rows[..|rows| - 1] + [Last(rows) + [e]]
  }

  /** Loads es[i..] in order; stops at the first element wider than the limit. */
  function Load(rows: seq<seq<Element>>, es: seq<Element>, maxWidth: real, i: nat): (l: Loaded)
    requires rows != [] && i <= |es|
    ensures l.rows != [] && |rows| <= |l.rows|
    ensures l.outcome.TooWide? ==> i <= l.outcome.index < |es|
    decreases |es| - i
  {
    if i == |es| then Loaded(rows, Complete)
    else if es[i].size.width > maxWidth then Loaded(rows, TooWide(i, es[i].size.width, maxWidth))
    else Load(Place(rows, es[i], maxWidth), es, maxWidth, i + 1)
  }

  /** How many of the elements were placed. */
  function PlacedCount(l: Loaded, es: seq<Element>): nat
  {
    match l.outcome
    case Complete => |es|
    case TooWide(k, _, _) => k
  }

  /** Every row is no wider than the limit. */
  ghost predicate Fits(rows: seq<seq<Element>>, maxWidth: real)
  {
    forall j :: 0 <= j < |rows| ==> SumWidths(rows[j]) <= maxWidth
  }

  /** From row `from` on, each row is non-empty and each row break was forced:
      the row before it could not take its first element. */
  ghost predicate Greedy(rows: seq<seq<Element>>, maxWidth: real, from: nat)
  {
    forall j :: from <= j < |rows| - 1 ==> BreakForced(rows, maxWidth, j)
  }

  /** Row j + 1 is non-empty and its first element would not have fit at the end of row j. */
  ghost predicate BreakForced(rows: seq<seq<Element>>, maxWidth: real, j: nat)
    requires j + 1 < |rows|
  {
    rows[j + 1] != [] && SumWidths(rows[j]) + rows[j + 1][0].size.width > maxWidth
  }

  /** `b` keeps every row of `a` but the last, and the last row of `a` is a prefix of its row at that index. */
  ghost predicate Extends(a: seq<seq<Element>>, b: seq<seq<Element>>)
    requires a != []
  {
    |a| <= |b| && b[..|a| - 1] == a[..|a| - 1] && Last(a) <= b[|a| - 1]
  }

  // ---------------------------------------------------------------------------
  // One placement

  lemma PlaceOrder(rows: seq<seq<Element>>, e: Element, maxWidth: real)
    requires rows != []
    ensures Flatten(Place(rows, e, maxWidth)) == Flatten(rows) + [e]
  {
    var n := |rows|;
    var r: seq<seq<Element>> := Place(rows, e, maxWidth);
    if SumWidths(Last(rows)) + e.size.width > maxWidth {
      assert r[..|r| - 1] == rows;
    } else {
      assert r[..n - 1] == rows[..n - 1];
      assert Flatten(rows) == Flatten(rows[..n - 1]) + Last(rows);
    }
  }

  lemma PlaceFits(rows: seq<seq<Element>>, e: Element, maxWidth: real)
    requires rows != [] && Fits(rows, maxWidth) && e.size.width <= maxWidth
    ensures Fits(Place(rows, e, maxWidth), maxWidth)
  {
    var n := |rows|;
    var r: seq<seq<Element>> := Place(rows, e, maxWidth);
    if SumWidths(Last(rows)) + e.size.width > maxWidth {
      assert [e][..0] == [];
      assert SumWidths([e]) == e.size.width;
    } else {
      assert (Last(rows) + [e])[..|Last(rows)|] == Last(rows);
      forall j | 0 <= j < |r| ensures SumWidths(r[j]) <= maxWidth {
        if j < n - 1 { assert r[j] == rows[j]; }
      }
    }
  }

  lemma PlaceGreedy(rows: seq<seq<Element>>, e: Element, maxWidth: real, from: nat)
    requires rows != [] && from < |rows| && Greedy(rows, maxWidth, from)
    ensures Greedy(Place(rows, e, maxWidth), maxWidth, from)
  {
    var n := |rows|;
    var r: seq<seq<Element>> := Place(rows, e, maxWidth);
    forall j | from <= j < |r| - 1
      ensures BreakForced(r, maxWidth, j)
    {
      if j < n - 1 {
        assert BreakForced(rows, maxWidth, j);
        assert r[j] == rows[j];
        if j + 1 < n - 1 || |r| == n + 1 {
          assert r[j + 1] == rows[j + 1];
        } else {
          assert r[j + 1] == rows[j + 1] + [e];
        }
      }
    }
  }

  lemma PlaceExtends(rows: seq<seq<Element>>, e: Element, maxWidth: real)
    requires rows != []
    ensures Extends(rows, Place(rows, e, maxWidth))
  {
  }

  lemma ExtendsTransitive(a: seq<seq<Element>>, b: seq<seq<Element>>, c: seq<seq<Element>>)
    requires a != [] && b != []
    requires Extends(a, b) && Extends(b, c)
    ensures Extends(a, c)
  {
    var n := |a|;
    if n < |b| {
      assert b[n - 1] == c[n - 1] by {
        assert b[..|b| - 1][n - 1] == c[..|b| - 1][n - 1];
      }
      forall j | 0 <= j < n - 1 ensures c[j] == a[j] {
        assert c[..|b| - 1][j] == b[..|b| - 1][j];
        assert b[..n - 1][j] == a[..n - 1][j];
      }
    } else {
      forall j | 0 <= j < n - 1 ensures c[j] == a[j] {
        assert c[..|b| - 1][j] == b[..|b| - 1][j];
        assert b[..n - 1][j] == a[..n - 1][j];
      }
    }
  }

  // ---------------------------------------------------------------------------
  // The whole load

  /** Loading stops exactly at the first element wider than the limit, or completes
      exactly when every element fits. */
  lemma {:induction false} LoadOutcome(rows: seq<seq<Element>>, es: seq<Element>, maxWidth: real, i: nat)
    requires rows != [] && i <= |es|
    ensures var l := Load(rows, es, maxWidth, i);
      && (l.outcome == Complete <==> forall j :: i <= j < |es| ==> es[j].size.width <= maxWidth)
      && (l.outcome.TooWide? ==>
            && i <= l.outcome.index < |es|
            && l.outcome.width == es[l.outcome.index].size.width > maxWidth
            && l.outcome.maxWidth == maxWidth
            && forall j :: i <= j < l.outcome.index ==> es[j].size.width <= maxWidth)
    decreases |es| - i
  {
    if i < |es| && es[i].size.width <= maxWidth {
      LoadOutcome(Place(rows, es[i], maxWidth), es, maxWidth, i + 1);
    }
  }

  /** Order is preserved: the rows read in order are the earlier contents followed by the
      placed elements in input order; nothing is dropped, duplicated or reordered. */
  lemma {:induction false} LoadOrder(rows: seq<seq<Element>>, es: seq<Element>, maxWidth: real, i: nat)
    requires rows != [] && i <= |es|
    ensures var l := Load(rows, es, maxWidth, i);
      && i <= PlacedCount(l, es) <= |es|
      && Flatten(l.rows) == Flatten(rows) + es[i..PlacedCount(l, es)]
    decreases |es| - i
  {
    if i == |es| || es[i].size.width > maxWidth {
      assert Flatten(rows) + es[i..i] == Flatten(rows);
    } else {
      var r := Place(rows, es[i], maxWidth);
      LoadOrder(r, es, maxWidth, i + 1);
      PlaceOrder(rows, es[i], maxWidth);
      var l := Load(r, es, maxWidth, i + 1);
      AppendInOrder(Flatten(l.rows), Flatten(r), Flatten(rows), es, i, PlacedCount(l, es));
    }
  }

  /** The order step of LoadOrder, on plain sequences. */
  lemma AppendInOrder(after: seq<Element>, mid: seq<Element>, before: seq<Element>, es: seq<Element>, i: nat, k: nat)
    requires i < k <= |es|
    requires after == mid + es[i + 1..k] && mid == before + [es[i]]
    ensures after == before + es[i..k]
  {
    assert es[i..k] == [es[i]] + es[i + 1..k];
  }

  /** Loading never moves what is already placed: earlier rows stay as they were,
      and the last row only grows at its right end. */
  lemma {:induction false} LoadExtends(rows: seq<seq<Element>>, es: seq<Element>, maxWidth: real, i: nat)
    requires rows != [] && i <= |es|
    ensures Extends(rows, Load(rows, es, maxWidth, i).rows)
    decreases |es| - i
  {
    if i < |es| && es[i].size.width <= maxWidth {
      var r := Place(rows, es[i], maxWidth);
      LoadExtends(r, es, maxWidth, i + 1);
      PlaceExtends(rows, es[i], maxWidth);
      ExtendsTransitive(rows, r, Load(rows, es, maxWidth, i).rows);
    }
  }

  /** If every row fits before loading, every row fits after it. */
  lemma {:induction false} LoadFits(rows: seq<seq<Element>>, es: seq<Element>, maxWidth: real, i: nat)
    requires rows != [] && i <= |es| && Fits(rows, maxWidth)
    ensures Fits(Load(rows, es, maxWidth, i).rows, maxWidth)
    decreases |es| - i
  {
    if i < |es| && es[i].size.width <= maxWidth {
      PlaceFits(rows, es[i], maxWidth);
      LoadFits(Place(rows, es[i], maxWidth), es, maxWidth, i + 1);
    }
  }

  /** Every row break loading makes is forced, and every row it opens is non-empty. */
  lemma {:induction false} LoadGreedy(rows: seq<seq<Element>>, es: seq<Element>, maxWidth: real, i: nat, from: nat)
    requires rows != [] && i <= |es| && from < |rows| && Greedy(rows, maxWidth, from)
    ensures Greedy(Load(rows, es, maxWidth, i).rows, maxWidth, from)
    decreases |es| - i
  {
    if i < |es| && es[i].size.width <= maxWidth {
      PlaceGreedy(rows, es[i], maxWidth, from);
      LoadGreedy(Place(rows, es[i], maxWidth), es, maxWidth, i + 1, from);
    }
  }

  /** Loading into the single empty row the layout starts with puts the first placed
      element into that row, and leaves it empty only when nothing is placed. */
  lemma FirstRowFromEmptyRow(es: seq<Element>, maxWidth: real)
    ensures var l := Load([[]], es, maxWidth, 0);
      l.rows[0] == [] <==> PlacedCount(l, es) == 0
  {
    var empty: seq<seq<Element>> := [[]];
    var l := Load(empty, es, maxWidth, 0);
    LoadOutcome(empty, es, maxWidth, 0);
    LoadExtends(empty, es, maxWidth, 0);
    if PlacedCount(l, es) == 0 {
      assert l == Loaded(empty, l.outcome);
    } else {
      assert es[0].size.width <= maxWidth;
      var first := Place(empty, es[0], maxWidth);
      PlaceIntoOnlyRow([], es[0], maxWidth);
      assert [] + [es[0]] == [es[0]];
      assert l == Load(first, es, maxWidth, 1);
      LoadExtends(first, es, maxWidth, 1);
      assert [es[0]] <= l.rows[0];
    }
  }

  /** Loading into the single empty row: the rows read in order are exactly the placed
      elements, in input order. */
  lemma OrderFromEmptyRow(es: seq<Element>, maxWidth: real)
    ensures var l := Load([[]], es, maxWidth, 0);
      Flatten(l.rows) == es[..PlacedCount(l, es)]
  {
    var empty: seq<seq<Element>> := [[]];
    assert Flatten(empty) == [] by { assert empty[..0] == []; }
    LoadOrder(empty, es, maxWidth, 0);
    var l := Load(empty, es, maxWidth, 0);
    assert es[0..PlacedCount(l, es)] == es[..PlacedCount(l, es)];
  }

  /** Loading into the single empty row: every row fits, unless nothing was placed into
      a layout of negative width. */
  lemma FitsFromEmptyRow(es: seq<Element>, maxWidth: real)
    ensures var l := Load([[]], es, maxWidth, 0);
      PlacedCount(l, es) > 0 || maxWidth >= 0.0 ==> Fits(l.rows, maxWidth)
  {
    var empty: seq<seq<Element>> := [[]];
    var l := Load(empty, es, maxWidth, 0);
    LoadOutcome(empty, es, maxWidth, 0);
    if PlacedCount(l, es) == 0 {
      assert l == Loaded(empty, l.outcome);
      if maxWidth >= 0.0 {
        assert SumWidths([]) == 0.0;
      }
    } else {
      assert es[0].size.width <= maxWidth;
      var first := Place(empty, es[0], maxWidth);
      PlaceIntoOnlyRow([], es[0], maxWidth);
      assert [] + [es[0]] == [es[0]];
      assert SumWidths([es[0]]) == es[0].size.width by { assert [es[0]][..0] == []; }
      assert l == Load(first, es, maxWidth, 1);
      LoadFits(first, es, maxWidth, 1);
    }
  }

  /** Loading into the single empty row: every break is forced, so no row after the
      first is empty. */
  lemma BreaksFromEmptyRow(es: seq<Element>, maxWidth: real)
    ensures var l := Load([[]], es, maxWidth, 0);
      && Greedy(l.rows, maxWidth, 0)
      && (forall j :: 0 < j < |l.rows| ==> l.rows[j] != [])
  {
    var empty: seq<seq<Element>> := [[]];
    var l := Load(empty, es, maxWidth, 0);
    LoadGreedy(empty, es, maxWidth, 0, 0);
    forall j | 0 < j < |l.rows| ensures l.rows[j] != [] {
      assert BreakForced(l.rows, maxWidth, j - 1);
    }
  }

  /** Loading into the single empty row the layout starts with: the rows hold the placed
      elements in input order, each row fits, each break is forced, and no row is empty
      except the first one when nothing was placed. */
  lemma LoadFromEmptyRow(es: seq<Element>, maxWidth: real)
    ensures var l := Load([[]], es, maxWidth, 0);
      && Flatten(l.rows) == es[..PlacedCount(l, es)]
      && (PlacedCount(l, es) > 0 || maxWidth >= 0.0 ==> Fits(l.rows, maxWidth))
      && Greedy(l.rows, maxWidth, 0)
      && (l.rows[0] == [] <==> PlacedCount(l, es) == 0)
      && (forall j :: 0 < j < |l.rows| ==> l.rows[j] != [])
  {
    OrderFromEmptyRow(es, maxWidth);
    FitsFromEmptyRow(es, maxWidth);
    BreaksFromEmptyRow(es, maxWidth);
    FirstRowFromEmptyRow(es, maxWidth);
  }

  /** A row that would reach the limit exactly still takes the element: only a strict
      overflow opens a new row. */
  lemma PlaceAtLimit(rows: seq<seq<Element>>, e: Element, maxWidth: real)
    requires rows != [] && SumWidths(Last(rows)) + e.size.width == maxWidth
    ensures |Place(rows, e, maxWidth)| == |rows|
    ensures Last(Place(rows, e, maxWidth)) == Last(rows) + [e]
    ensures SumWidths(Last(Place(rows, e, maxWidth))) == maxWidth
  {
    assert (Last(rows) + [e])[..|Last(rows)|] == Last(rows);
  }

  /** An element that fits beside the contents of a single row joins that row. */
  lemma PlaceIntoOnlyRow(row: seq<Element>, e: Element, maxWidth: real)
    requires SumWidths(row) + e.size.width <= maxWidth
    ensures Place([row], e, maxWidth) == [row + [e]]
  {
    assert [row][..0] == [];
  }
}
