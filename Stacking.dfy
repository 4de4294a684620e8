/** Vertical stacking of rows: a linear rule in the row index. */
module Stacking {

  /** y of row i: the first row sits at height * start, each next row one
      height * spacing lower. */
  function RowY(i: nat, height: real, startFactor: real, spacingFactor: real): (y: real)
    ensures i == 0 ==> y == height * startFactor
    ensures height * spacingFactor >= 0.0 ==> y <= height * startFactor
  {
    -(i as real) * height * spacingFactor + height * startFactor
  }

  /** Consecutive rows are a constant step apart, and the first row is at height * start. */
  lemma RowYLinear(i: nat, height: real, startFactor: real, spacingFactor: real)
    ensures RowY(0, height, startFactor, spacingFactor) == height * startFactor
    ensures RowY(i + 1, height, startFactor, spacingFactor)
         == RowY(i, height, startFactor, spacingFactor) - height * spacingFactor
  {
  }

  /** With a positive height and spacing, rows further down the list are strictly lower. */
  lemma {:induction false} RowYDecreasing(i: nat, j: nat, height: real, startFactor: real, spacingFactor: real)
    requires height > 0.0 && spacingFactor > 0.0 && i < j
    ensures RowY(j, height, startFactor, spacingFactor) < RowY(i, height, startFactor, spacingFactor)
    decreases j - i
  {
    RowYLinear(j - 1, height, startFactor, spacingFactor);
    assert height * spacingFactor > 0.0;
    if i < j - 1 {
      RowYDecreasing(i, j - 1, height, startFactor, spacingFactor);
    }
  }
}
