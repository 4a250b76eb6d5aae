/** Coordinate arithmetic of a Sudoku grid of block size `dim` and side `dim * dim`:
    the flat row-major cell index, the two `warp` transforms between (row, column)
    and (unit type, unit index, position in unit), and the flat index of the
    alternatives table. Unit type 0 is a row, 1 a column, 2 an inner square. */
module Coordinates {

  /** Position of a cell as (row, column), both counted from 0. */
  datatype XY = XY(row: nat, column: nat)

  /** Position of a cell as (unit type, unit index, position inside the unit). */
  datatype Su = Su(kind: nat, unit: nat, index: nat)

  /** A (unit type, unit index, value) triple: one entry of the alternatives table. */
  datatype Alternative = Alternative(kind: nat, unit: nat, value: nat)

  // ---------------------------------------------------------------------------
  // Division facts used by every transform below
  // ---------------------------------------------------------------------------

  /** Division by `d` is unique: `q * d + r` with `r < d` has quotient `q` and remainder `r`. */
  lemma DivModUnique(x: nat, d: nat, q: nat, r: nat)
    requires d > 0 && r < d && x == q * d + r
    ensures x / d == q && x % d == r
  {
    var q', r' := x / d, x % d;
    assert x == q' * d + r';
    if q' > q {
      assert q' * d == q * d + (q' - q) * d;
      MulAtLeast(q' - q, d);
    } else if q' < q {
      assert q * d == q' * d + (q - q') * d;
      MulAtLeast(q - q', d);
    }
  }

  lemma MulAtLeast(a: nat, d: nat)
    requires a >= 1
    ensures a * d >= d
  {
    assert a * d == (a - 1) * d + d;
  }

  /** A two-digit number in base `d` is below `d * d`. */
  lemma TwoDigitsBelow(q: nat, r: nat, d: nat)
    requires q < d && r < d
    ensures q * d + r < d * d
  {
    assert q * d <= (d - 1) * d by { MulMonotone(q, d - 1, d); }
    assert (d - 1) * d + d == d * d;
  }

  lemma MulMonotone(a: nat, b: nat, d: nat)
    requires a <= b
    ensures a * d <= b * d
  {
    assert b * d == a * d + (b - a) * d;
  }

  /** Splitting a number below `d * d` into its two base-`d` digits. */
  lemma Digits(x: nat, d: nat)
    requires d > 0 && x < d * d
    ensures x / d < d && x % d < d && x == (x / d) * d + x % d
  {
    if x / d >= d {
      MulMonotone(d, x / d, d);
    }
  }

  // ---------------------------------------------------------------------------
  // Flat row-major cell index (`operator()(row, column)` reads `_cells[row*dim2+column]`)
  // ---------------------------------------------------------------------------

  /** `row*dim2+column` (objects.h:226): an in-range cell has an index inside the array. */
  function CellIndex(dim2: nat, xy: XY): (idx: nat)
    ensures xy.row < dim2 && xy.column < dim2 ==> idx < dim2 * dim2
  {
    TwoDigitsInRange(xy.row, xy.column, dim2);
    xy.row * dim2 + xy.column
  }

  /** `TwoDigitsBelow` for any pair, as an implication. */
  lemma TwoDigitsInRange(q: nat, r: nat, d: nat)
    ensures q < d && r < d ==> q * d + r < d * d
  {
    if q < d && r < d {
      TwoDigitsBelow(q, r, d);
    }
  }

  /** The (row, column) of a flat index: the inverse of `CellIndex`. */
  function XYOf(dim2: nat, idx: nat): XY
    requires dim2 > 0
  {
    XY(idx / dim2, idx % dim2)
  }

  /** `CellIndex` is a bijection between the `dim2 * dim2` positions and `0 .. dim2 * dim2 - 1`. */
  lemma CellIndexBijective(dim2: nat, xy: XY)
    requires xy.row < dim2 && xy.column < dim2
    ensures CellIndex(dim2, xy) < dim2 * dim2
    ensures XYOf(dim2, CellIndex(dim2, xy)) == xy
  {
    TwoDigitsBelow(xy.row, xy.column, dim2);
    DivModUnique(CellIndex(dim2, xy), dim2, xy.row, xy.column);
  }

  lemma XYOfBijective(dim2: nat, idx: nat)
    requires dim2 > 0 && idx < dim2 * dim2
    ensures XYOf(dim2, idx).row < dim2 && XYOf(dim2, idx).column < dim2
    ensures CellIndex(dim2, XYOf(dim2, idx)) == idx
  {
    Digits(idx, dim2);
  }

  // ---------------------------------------------------------------------------
  // The two warp overloads (objects.cpp:50-60)
  // ---------------------------------------------------------------------------

  /** `warp(type, (row, column))`: any type other than 0 and 1 is an inner square. An
      in-range cell lies in an in-range unit of the requested type, at an in-range position. */
  function WarpToSu(dim: nat, t: nat, xy: XY): (su: Su)
    requires dim > 0
    ensures t < 3 && xy.row < dim * dim && xy.column < dim * dim ==>
      su.kind == t && su.unit < dim * dim && su.index < dim * dim
  {
    if t == 0 then Su(0, xy.row, xy.column)
    else if t == 1 then Su(1, xy.column, xy.row)
    else Su(2, HighDigits(dim, xy.row, xy.column), LowDigits(dim, xy.row, xy.column))
  }

  /** `warp((type, set, index))`: an in-range position of an in-range unit is a cell of
      the grid. */
  function WarpToXY(dim: nat, su: Su): (xy: XY)
    requires dim > 0
    ensures su.kind < 3 && su.unit < dim * dim && su.index < dim * dim ==>
      xy.row < dim * dim && xy.column < dim * dim
  {
    if su.kind == 0 then XY(su.unit, su.index)
    else if su.kind == 1 then XY(su.index, su.unit)
    else XY(HighDigits(dim, su.unit, su.index), LowDigits(dim, su.unit, su.index))
  }

  /** From (row, column) to a unit and back is the identity, and the unit is in range. */
  lemma WarpRoundTrip(dim: nat, t: nat, xy: XY)
    requires dim > 0 && t < 3 && xy.row < dim * dim && xy.column < dim * dim
    ensures WarpToSu(dim, t, xy).kind == t
    ensures WarpToSu(dim, t, xy).unit < dim * dim && WarpToSu(dim, t, xy).index < dim * dim
    ensures WarpToXY(dim, WarpToSu(dim, t, xy)) == xy
  {
    if t == 2 {
      BoxRoundTrip(dim, xy.row, xy.column);
    }
  }

  /** From a unit position to (row, column) and back is the identity, and the cell is in range. */
  lemma WarpRoundTripSu(dim: nat, su: Su)
    requires dim > 0 && su.kind < 3 && su.unit < dim * dim && su.index < dim * dim
    ensures WarpToXY(dim, su).row < dim * dim && WarpToXY(dim, su).column < dim * dim
    ensures WarpToSu(dim, su.kind, WarpToXY(dim, su)) == su
  {
    if su.kind == 2 {
      BoxRoundTrip(dim, su.unit, su.index);
    }
  }

  /** The inner-square arithmetic of both warps: splitting two numbers below `d * d` into
      base-`d` digits and regrouping the quotients and the remainders is an involution. */
  lemma BoxRoundTrip(d: nat, r: nat, c: nat)
    requires d > 0 && r < d * d && c < d * d
    ensures (r / d) * d + c / d < d * d && (r % d) * d + c % d < d * d
    ensures (((r / d) * d + c / d) / d) * d + ((r % d) * d + c % d) / d == r
    ensures (((r / d) * d + c / d) % d) * d + ((r % d) * d + c % d) % d == c
  {
    Digits(r, d);
    Digits(c, d);
    PairDigits(d, r / d, c / d);
    PairDigits(d, r % d, c % d);
  }

  /** The high base-`d` digits of `r` and `c`, paired: the inner square of a cell, or the
      row of a position in an inner square. */
  function HighDigits(d: nat, r: nat, c: nat): (n: nat)
    requires d > 0
    ensures r < d * d && c < d * d ==> n < d * d
  {
    var hr, hc := r / d, c / d;
    HighDigitBelow(r, d);
    HighDigitBelow(c, d);
    TwoDigitsInRange(hr, hc, d);
    hr * d + hc
  }

  /** The low base-`d` digits of `r` and `c`, paired. */
  function LowDigits(d: nat, r: nat, c: nat): (n: nat)
    requires d > 0
    ensures n < d * d
  {
    var lr, lc := r % d, c % d;
    TwoDigitsBelow(lr, lc, d);
    lr * d + lc
  }

  /** A number below `d * d` has a high base-`d` digit below `d`. */
  lemma HighDigitBelow(x: nat, d: nat)
    requires d > 0
    ensures x < d * d ==> x / d < d
  {
    if x / d >= d {
      MulMonotone(d, x / d, d);
    }
  }

  /** A pair of base-`d` digits packs into a number below `d * d` and unpacks back. */
  lemma PairDigits(d: nat, q: nat, r: nat)
    requires q < d && r < d
    ensures q * d + r < d * d
    ensures (q * d + r) / d == q && (q * d + r) % d == r
  {
    TwoDigitsBelow(q, r, d);
    DivModUnique(q * d + r, d, q, r);
  }

  // ---------------------------------------------------------------------------
  // Units in terms of flat cell indices
  // ---------------------------------------------------------------------------

  /** Index of the unit of type `t` that holds cell `idx`. */
  function UnitOf(dim: nat, t: nat, idx: nat): nat
    requires dim > 0
  {
    WarpToSu(dim, t, XYOf(dim * dim, idx)).unit
  }

  /** Position of cell `idx` inside its unit of type `t`. */
  function PosOf(dim: nat, t: nat, idx: nat): nat
    requires dim > 0
  {
    WarpToSu(dim, t, XYOf(dim * dim, idx)).index
  }

  /** Flat index of the cell at position `i` of unit `u` of type `t`
      (`operator()(ptype, pset, pindex)`, objects.cpp:167-170). */
  function CellAt(dim: nat, t: nat, u: nat, i: nat): nat
    requires dim > 0
  {
    CellIndex(dim * dim, WarpToXY(dim, Su(t, u, i)))
  }

  /** Two distinct cells are peers when they share a row, a column or an inner square. */
  predicate SameUnit(dim: nat, a: nat, b: nat)
    requires dim > 0
  {
    UnitOf(dim, 0, a) == UnitOf(dim, 0, b) || UnitOf(dim, 1, a) == UnitOf(dim, 1, b)
    || UnitOf(dim, 2, a) == UnitOf(dim, 2, b)
  }

  /** Every cell lies at one position of one unit of each type. */
  lemma CellInUnit(dim: nat, t: nat, idx: nat)
    requires dim > 0 && t < 3 && idx < dim * dim * (dim * dim)
    ensures UnitOf(dim, t, idx) < dim * dim && PosOf(dim, t, idx) < dim * dim
    ensures CellAt(dim, t, UnitOf(dim, t, idx), PosOf(dim, t, idx)) == idx
  {
    var n := dim * dim;
    assert n * n == dim * dim * (dim * dim);
    XYOfBijective(n, idx);
    WarpRoundTrip(dim, t, XYOf(n, idx));
  }

  /** Every position of every unit holds a cell, and that cell reports this unit and position. */
  lemma UnitCell(dim: nat, t: nat, u: nat, i: nat)
    requires dim > 0 && t < 3 && u < dim * dim && i < dim * dim
    ensures CellAt(dim, t, u, i) < dim * dim * (dim * dim)
    ensures UnitOf(dim, t, CellAt(dim, t, u, i)) == u && PosOf(dim, t, CellAt(dim, t, u, i)) == i
  {
    var n := dim * dim;
    assert n * n == dim * dim * (dim * dim);
    WarpRoundTripSu(dim, Su(t, u, i));
    CellIndexBijective(n, WarpToXY(dim, Su(t, u, i)));
  }

  /** Positions of one unit hold distinct cells. */
  lemma UnitCellInjective(dim: nat, t: nat, u: nat, i: nat, j: nat)
    requires dim > 0 && t < 3 && u < dim * dim && i < dim * dim && j < dim * dim
    requires CellAt(dim, t, u, i) == CellAt(dim, t, u, j)
    ensures i == j
  {
    UnitCell(dim, t, u, i);
    UnitCell(dim, t, u, j);
  }

  // ---------------------------------------------------------------------------
  // Alternatives table index (objects.h:300-302, 313-315, 326-328)
  // ---------------------------------------------------------------------------

  /** `pvalue-1+pset*dim2+ptype*dim2*dim2`: an in-range triple has an index inside the
      table of `3*dim2*dim2` entries. */
  function AltIndex(dim2: nat, t: nat, s: nat, v: nat): (index: nat)
    requires v >= 1
    ensures t < 3 && s < dim2 && v <= dim2 ==> index < 3 * dim2 * dim2
  {
    TableIndexInRange(dim2, t, s, v - 1);
    v - 1 + s * dim2 + t * dim2 * dim2
  }

  /** `ind_alternative`: an index inside the table decodes to an in-range triple. */
  function IndAlternative(dim2: nat, index: nat): (alt: Alternative)
    requires dim2 > 0
    ensures index < 3 * dim2 * dim2 ==> alt.kind < 3 && alt.unit < dim2 && 1 <= alt.value <= dim2
  {
    TableDigitsInRange(dim2, index);
    Alternative(index / (dim2 * dim2), (index % (dim2 * dim2)) / dim2, index % dim2 + 1)
  }

  /** A table index built from an in-range triple lies inside the table of `3*dim2*dim2`
      entries, and `ind_alternative` gives the triple back. */
  lemma AltIndexRoundTrip(dim2: nat, t: nat, s: nat, v: nat)
    requires t < 3 && s < dim2 && 1 <= v <= dim2
    ensures AltIndex(dim2, t, s, v) < 3 * dim2 * dim2
    ensures IndAlternative(dim2, AltIndex(dim2, t, s, v)) == Alternative(t, s, v)
  {
    var sq := dim2 * dim2;
    var low := s * dim2 + (v - 1);
    TwoDigitsBelow(s, v - 1, dim2);
    MulAssoc(t, dim2);
    MulAssoc(3, dim2);
    var index := AltIndex(dim2, t, s, v);
    assert index == t * sq + low;
    MulMonotone(t, 2, sq);
    DivModUnique(index, sq, t, low);
    DivModUnique(low, dim2, s, v - 1);
    Regroup(t, s, v - 1, dim2);
    DivModUnique(index, dim2, t * dim2 + s, v - 1);
  }

  /** The three base-`dim2` digits of an in-range triple make an index inside the table. */
  lemma TableIndexInRange(dim2: nat, t: nat, s: nat, w: nat)
    ensures t < 3 && s < dim2 && w < dim2 ==> w + s * dim2 + t * dim2 * dim2 < 3 * dim2 * dim2
  {
    if t < 3 && s < dim2 && w < dim2 {
      TwoDigitsBelow(s, w, dim2);
      MulAssoc(t, dim2);
      MulAssoc(3, dim2);
      MulMonotone(t, 2, dim2 * dim2);
    }
  }

  /** The three base-`dim2` digits of an index inside the table are in range. */
  lemma TableDigitsInRange(dim2: nat, index: nat)
    requires dim2 > 0
    ensures index < 3 * dim2 * dim2 ==> index / (dim2 * dim2) < 3 && (index % (dim2 * dim2)) / dim2 < dim2
  {
    if index < 3 * dim2 * dim2 {
      MulAssoc(3, dim2);
      QuotientBelow(index, dim2 * dim2, 3);
      ThreeDigits(index, dim2);
    }
  }

  lemma MulAssoc(a: nat, d: nat)
    ensures a * d * d == a * (d * d)
  {
  }

  /** `ind_alternative` maps every table index to an in-range triple that indexes it back. */
  lemma IndAlternativeRoundTrip(dim2: nat, index: nat)
    requires dim2 > 0 && index < 3 * dim2 * dim2
    ensures IndAlternative(dim2, index).kind < 3
    ensures IndAlternative(dim2, index).unit < dim2
    ensures 1 <= IndAlternative(dim2, index).value <= dim2
    ensures AltIndex(dim2, IndAlternative(dim2, index).kind, IndAlternative(dim2, index).unit,
                     IndAlternative(dim2, index).value) == index
  {
    QuotientBelow(index, dim2 * dim2, 3);
    ThreeDigits(index, dim2);
  }

  /** A number below `k * m` has quotient below `k` when divided by `m`. */
  lemma QuotientBelow(x: nat, m: nat, k: nat)
    requires m > 0 && x < k * m
    ensures x / m < k
  {
    if x / m >= k {
      MulMonotone(k, x / m, m);
    }
  }

  /** `x` in base `d`: the last digit, the digit before it, and the rest. */
  lemma ThreeDigits(x: nat, d: nat)
    requires d > 0
    ensures (x % (d * d)) / d < d
    ensures x == x % d + ((x % (d * d)) / d) * d + (x / (d * d)) * d * d
  {
    var sq := d * d;
    var t, low := x / sq, x % sq;
    var s, w := low / d, low % d;
    Digits(low, d);
    assert x == t * sq + low;
    Regroup(t, s, w, d);
    DivModUnique(x, d, t * d + s, w);
    assert t * sq == t * d * d;
  }

  lemma Regroup(t: nat, s: nat, w: nat, d: nat)
    ensures (t * d + s) * d + w == t * (d * d) + (s * d + w)
  {
  }

  /** Distinct in-range triples occupy distinct table entries. */
  lemma AltIndexInjective(dim2: nat, t: nat, s: nat, v: nat, t': nat, s': nat, v': nat)
    requires t < 3 && s < dim2 && 1 <= v <= dim2
    requires t' < 3 && s' < dim2 && 1 <= v' <= dim2
    requires AltIndex(dim2, t, s, v) == AltIndex(dim2, t', s', v')
    ensures t == t' && s == s' && v == v'
  {
    AltIndexRoundTrip(dim2, t, s, v);
    AltIndexRoundTrip(dim2, t', s', v');
  }
}
