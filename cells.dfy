/** One square of the grid (class `Cell` of objects.h:77-111). */
module Cells {
  import opened Counting

  /** `value` is 0 while the cell is empty. Entry `v - 1` of `possible` tells whether
      `v` is still possible; the empty sequence stands for the released array
      (`possible == 0` once a value has been set). `npossible` is the number of
      possibilities left and `fixed` marks a given of the puzzle. */
  datatype Cell = Cell(value: nat, possible: seq<bool>, npossible: nat, fixed: bool)

  /** `c->possible != 0 && c->possible[v-1]`: the cell may still take `v`. */
  predicate Allows(c: Cell, v: nat)
  {
    1 <= v <= |c.possible| && c.possible[v - 1]
  }

  /** The shape every cell of a grid of side `n` keeps: an empty cell owns a possibility
      array of `n` flags, a set cell has released it, and `npossible` counts the flags. */
  ghost predicate CellOk(n: nat, c: Cell)
  {
    && c.value <= n
    && (c.value == 0 ==> |c.possible| == n)
    && (c.value != 0 ==> c.possible == [])
    && c.npossible == CountTrue(c.possible)
  }

  /** `Cell(pvalue, pnpossible)` (objects.cpp:476-479): every value of `1 .. n` possible. */
  method NewCell(value: nat, n: nat) returns (c: Cell)
    ensures c.value == value && !c.fixed && c.npossible == n && |c.possible| == n
    ensures forall v :: 1 <= v <= n ==> Allows(c, v)
    ensures c.npossible == CountTrue(c.possible)
    ensures c == Cell(value, EmptyCell(n).possible, n, false)
  {
    var possible: seq<bool> := [];
    var i := 0;
    while i < n
      invariant i <= n && |possible| == i
      invariant forall k :: 0 <= k < i ==> possible[k]
    {
      possible := possible + [true];
      i := i + 1;
    }
    CountTrueAll(possible);
    c := Cell(value, possible, n, false);
  }

  /** A fresh empty cell of a grid of side `n`, as `NewCell(0, n)` builds it. */
  function EmptyCell(n: nat): Cell
  {
    Cell(0, seq(n, _ => true), n, false)
  }

  /** `c->npossible--; c->possible[v-1]=false;` (objects.cpp:216-217): the possibility
      goes, the count stays exact and no other flag changes. */
  function Cleared(c: Cell, v: nat): (r: Cell)
    requires Allows(c, v) && c.npossible == CountTrue(c.possible)
    ensures !Allows(r, v) && |r.possible| == |c.possible|
    ensures forall w :: w != v ==> Allows(r, w) == Allows(c, w)
    ensures r.npossible == CountTrue(r.possible) && r.npossible + 1 == c.npossible
    ensures r.value == c.value && r.fixed == c.fixed
  {
    CountTruePositive(c.possible);
    var r := c.(possible := c.possible[v - 1 := false], npossible := c.npossible - 1);
    CountTrueFlip(r.possible, c.possible, v - 1);
    r
  }
}
