/** Class `Grid` of objects.h:118-379 and its operations in objects.cpp: construction,
    copying, cell and alternative access, `set_value`, `solve`, `fill` and `generate`.
    Randomness is an explicit stream of numbers, and the solution callback becomes the
    list of solution snapshots that `Solve` returns. */
module Sudoku {
  import opened Coordinates
  import opened Counting
  import opened Cells
  import opened Bookkeeping
  import opened Phases

  /** Every grid of `sols` solves `base`: it is full and well formed, keeps every value
      of `base`, and holds no value twice in a unit when `base` does not. A dead end has
      no solution. */
  ghost predicate SolutionsOf(dim: nat, sols: seq<seq<Cell>>, base: seq<Cell>)
  {
    && (forall k :: 0 <= k < |sols| ==>
         Solved(dim, sols[k]) && Extends(sols[k], base) && (NoConflict(dim, base) ==> NoConflict(dim, sols[k])))
    && (Dead(base) ==> sols == [])
  }

  /** Solutions of a grid that extends `base`, has no repeated value when `base` has
      none and is a dead end when `base` is, are solutions of `base`. */
  lemma SolutionsWeaken(dim: nat, sols: seq<seq<Cell>>, mid: seq<Cell>, base: seq<Cell>)
    requires SolutionsOf(dim, sols, mid) && Extends(mid, base)
    requires NoConflict(dim, base) ==> NoConflict(dim, mid)
    requires Dead(base) ==> Dead(mid)
    ensures SolutionsOf(dim, sols, base)
  {
    forall k | 0 <= k < |sols|
      ensures Extends(sols[k], base)
    {
      ExtendsTransitive(sols[k], mid, base);
    }
  }

  /** Two lists of solutions of `base` make one. */
  lemma SolutionsAppend(dim: nat, sols: seq<seq<Cell>>, more: seq<seq<Cell>>, base: seq<Cell>)
    requires SolutionsOf(dim, sols, base) && SolutionsOf(dim, more, base)
    ensures SolutionsOf(dim, sols + more, base)
  {
    forall k | 0 <= k < |sols + more|
      ensures Solved(dim, (sols + more)[k]) && Extends((sols + more)[k], base)
      ensures NoConflict(dim, base) ==> NoConflict(dim, (sols + more)[k])
    {
      if k >= |sols| {
        assert (sols + more)[k] == more[k - |sols|];
      }
    }
  }

  /** `Grid::SolveType` (objects.h:149-154). */
  datatype SolveType = FindOne | FindAny | FindUnique | FindAll

  /** `maxfound` of `solve` (objects.cpp:333-344): how many solutions a search needs before
      it stops. One is enough to find a solution, two tell a unique one from several, and
      the exhaustive search stops only short of the largest 64-bit count. */
  function Cap(mode: SolveType): (r: nat)
    ensures 1 <= r < 0x1_0000_0000_0000_0000
    ensures r == 1 <==> mode == FindOne || mode == FindAny
    ensures mode == FindUnique ==> r == 2
    ensures mode == FindAll ==> r == 0xFFFF_FFFF_FFFF_FFFF - 1
  {
    match mode
    case FindOne => 1
    case FindAny => 1
    case FindUnique => 2
    case FindAll => 0xFFFF_FFFF_FFFF_FFFF - 1
  }

  /** One draw of `uniform_int_distribution<>(0, n - 1)`: the head of the stream brought
      into range, or 0 once the stream is exhausted. */
  function Draw(rng: seq<nat>, n: nat): (r: (nat, seq<nat>))
    requires n > 0
    ensures r.0 < n
    ensures |rng| > 0 ==> |r.1| == |rng| - 1
    ensures |rng| == 0 ==> r.1 == []
  {
    if |rng| == 0 then (0, []) else (rng[0] % n, rng[1..])
  }

  /** The scan of `solve` (objects.cpp:354-361 and 381-386): from position `from`, step
      over the `true` entries of `mask` up to the `(num + 1)`-th one, and return its
      position. */
  method NthTrue(mask: seq<bool>, from: nat, num: nat) returns (i: nat)
    requires from <= |mask| && CountTrue(mask[from..]) > num
    ensures from <= i < |mask| && mask[i]
    ensures CountTrue(mask[from..i + 1]) == num + 1
  {
    var k := 0;
    i := from;
    while i < |mask| && k <= num
      invariant from <= i <= |mask|
      invariant k == CountTrue(mask[from..i])
      invariant CountTrue(mask[from..]) == k + CountTrue(mask[i..])
      invariant k <= num + 1
      invariant k > num ==> i > from && mask[i - 1]
    {
      CountStep(mask, from, i);
      if mask[i] {
        k := k + 1;
      }
      i := i + 1;
    }
    i := i - 1;
  }

  /** One step of a left-to-right count from position `from`. */
  lemma CountStep(mask: seq<bool>, from: nat, i: nat)
    requires from <= i < |mask|
    ensures CountTrue(mask[from..i + 1]) == CountTrue(mask[from..i]) + (if mask[i] then 1 else 0)
    ensures CountTrue(mask[i..]) == (if mask[i] then 1 else 0) + CountTrue(mask[i + 1..])
  {
    assert mask[from..i + 1] == mask[from..i] + [mask[i]];
    CountTrueAppend(mask[from..i], [mask[i]]);
    assert mask[i..] == [mask[i]] + mask[i + 1..];
    CountTrueAppend([mask[i]], mask[i + 1..]);
  }

  /** The count of a suffix, split after a found position. */
  lemma CountAfter(mask: seq<bool>, from: nat, i: nat)
    requires from <= i < |mask|
    ensures CountTrue(mask[from..]) == CountTrue(mask[from..i + 1]) + CountTrue(mask[i + 1..])
  {
    assert mask[from..] == mask[from..i + 1] + mask[i + 1..];
    CountTrueAppend(mask[from..i + 1], mask[i + 1..]);
  }

  /** The flat index where row `i` of a square of side `n` starts. */
  function RowStart(i: nat, n: nat): nat
  {
    i * n
  }

  /** Row `i` of a square of side `n` ends within the square, where row `i + 1` starts. */
  lemma RowBounds(i: nat, n: nat)
    requires i < n
    ensures RowStart(i, n) + n <= n * n && RowStart(i + 1, n) == RowStart(i, n) + n
  {
    MulMonotone(i + 1, n, n);
  }

  datatype Error = FormatError | StreamError

  datatype Result<T> = Success(value: T) | Failure(error: Error)

  function Square(d: nat): nat
  {
    d * d
  }

  lemma SquareMonotone(a: nat, b: nat)
    requires a <= b
    ensures Square(a) <= Square(b)
  {
    MulMonotone(a, b, a);
    MulMonotone(a, b, b);
  }

  /** The integer part of the square root of `n`, for the `(size_t)sqrt(_dim)` cast. */
  method IntegerSqrt(n: nat) returns (r: nat)
    ensures Square(r) <= n < Square(r + 1)
  {
    r := 0;
    while Square(r + 1) <= n
      invariant Square(r) <= n
      decreases n - r
    {
      MulAtLeast(r + 1, r + 1);
      r := r + 1;
    }
  }

  /** The dimension check of `read_from_stream` (objects.cpp:122-132): the side is the
      number of tokens on the first line; a side that is not a perfect square is a
      `FORMAT_ERROR`. A first line without any token fails while extracting. */
  method ReadDimension(firstRow: seq<nat>) returns (r: Result<nat>)
    ensures r.Success? ==> |firstRow| > 0 && Square(r.value) == |firstRow|
    ensures r.Failure? ==> (r.error == StreamError <==> |firstRow| == 0)
    ensures r.Failure? && r.error == FormatError ==> forall d :: Square(d) != |firstRow|
    ensures |firstRow| > 0 && (exists d :: Square(d) == |firstRow|) ==> r.Success?
  {
    if |firstRow| == 0 {
      return Failure(StreamError);
    }
    var dim2 := 0;
    for i := 0 to |firstRow|
      invariant dim2 == i
    {
      dim2 := dim2 + 1;
    }
    var dim := IntegerSqrt(dim2);
    if dim * dim != dim2 {
      forall d | true
        ensures Square(d) != dim2
      {
        if d <= dim {
          SquareMonotone(d, dim);
        } else {
          SquareMonotone(dim + 1, d);
        }
      }
      return Failure(FormatError);
    }
    return Success(dim);
  }

  class Grid {
    /** `_dim`: the side of an inner square. */
    const dim: nat
    /** `_dim2`: the side of the grid. */
    const dim2: nat
    /** `_cells`, row by row. */
    var cells: array<Cell>
    /** `_filled`: the number of values set. */
    var filled: nat
    /** `_alternatives`; `null` once `fill` has released it. */
    var alternatives: array?<nat>

    /** The shape of the arrays. */
    ghost predicate Valid()
      reads this
    {
      && dim > 0 && dim2 == dim * dim
      && cells.Length == dim * dim * (dim * dim)
      && (alternatives != null ==> alternatives.Length == 3 * (dim * dim) * (dim * dim))
    }

    /** The bookkeeping `solve` relies on (see `Bookkeeping.Consistent`). */
    ghost predicate Consistent()
      reads this, cells, alternatives
    {
      Valid() && alternatives != null && Bookkeeping.Consistent(dim, cells[..], alternatives[..], filled)
    }

    /** The cell array of a fresh grid (objects.cpp:67-68): every cell empty with every
        value possible. */
    static method FreshCells(dim2: nat) returns (a: array<Cell>)
      ensures fresh(a) && a.Length == dim2 * dim2
      ensures forall k :: 0 <= k < a.Length ==> a[k] == EmptyCell(dim2)
    {
      a := new Cell[dim2 * dim2];
      for i := 0 to dim2
        invariant forall k :: 0 <= k < RowStart(i, dim2) ==> a[k] == EmptyCell(dim2)
      {
        var base := RowStart(i, dim2);
        RowBounds(i, dim2);
        for j := 0 to dim2
          invariant forall k :: 0 <= k < base + j ==> a[k] == EmptyCell(dim2)
        {
          var c := NewCell(0, dim2);
          a[base + j] := c;
        }
      }
    }

    /** A deep copy of a cell array (objects.cpp:82-83, 178-179, 410-411). */
    static method CopyCells(src: seq<Cell>, dim2: nat) returns (a: array<Cell>)
      requires |src| == dim2 * dim2
      ensures fresh(a) && a[..] == src
    {
      a := new Cell[|src|];
      for i := 0 to dim2
        invariant forall k :: 0 <= k < RowStart(i, dim2) ==> a[k] == src[k]
      {
        RowBounds(i, dim2);
        CopyRow(a, src, RowStart(i, dim2), dim2);
      }
      assert RowStart(dim2, dim2) == |src|;
    }

    /** The inner loop of a copy: the `n` cells from `base` on. */
    static method CopyRow(a: array<Cell>, src: seq<Cell>, base: nat, n: nat)
      requires a.Length == |src| && base + n <= |src|
      requires forall k :: 0 <= k < base ==> a[k] == src[k]
      modifies a
      ensures forall k :: 0 <= k < base + n ==> a[k] == src[k]
    {
      for j := 0 to n
        invariant forall k :: 0 <= k < base + j ==> a[k] == src[k]
      {
        a[base + j] := src[base + j];
      }
    }

    /** A table of `size` entries all holding `level` (objects.cpp:69-70). */
    static method NewTable(size: nat, level: nat) returns (a: array<nat>)
      ensures fresh(a) && a.Length == size
      ensures forall k :: 0 <= k < size ==> a[k] == level
    {
      a := new nat[size];
      for i := 0 to size
        invariant forall k :: 0 <= k < i ==> a[k] == level
      {
        a[i] := level;
      }
    }

    /** A deep copy of a table (objects.cpp:84-85, 182-183). */
    static method CopyTable(src: seq<nat>) returns (a: array<nat>)
      ensures fresh(a) && a[..] == src
    {
      a := new nat[|src|];
      for i := 0 to |src|
        invariant forall k :: 0 <= k < i ==> a[k] == src[k]
      {
        a[i] := src[i];
      }
    }

    /** `Grid(pdim)` (objects.cpp:62-72): every cell empty with every value possible, every
        level at `dim2`, no value set. */
    constructor (pdim: nat)
      requires pdim > 0
      ensures Valid() && dim == pdim && filled == 0 && alternatives != null
      ensures fresh(cells) && fresh(alternatives)
      ensures forall k :: 0 <= k < cells.Length ==> cells[k] == EmptyCell(dim2)
      ensures forall a :: 0 <= a < alternatives.Length ==> alternatives[a] == dim2
      ensures Consistent() && NoConflict(dim, cells[..])
    {
      dim := pdim;
      dim2 := pdim * pdim;
      filled := 0;
      var cs := FreshCells(pdim * pdim);
      var table := NewTable(3 * (pdim * pdim) * (pdim * pdim), pdim * pdim);
      cells := cs;
      alternatives := table;
      new;
      FreshConsistent(dim, cells[..], alternatives[..]);
    }

    /** `clear` (objects.cpp:105-113): the grid becomes a fresh one. */
    method Clear()
      requires Valid()
      modifies this
      ensures Valid() && filled == 0 && alternatives != null
      ensures fresh(cells) && fresh(alternatives)
      ensures forall k :: 0 <= k < cells.Length ==> cells[k] == EmptyCell(dim2)
      ensures forall a :: 0 <= a < alternatives.Length ==> alternatives[a] == dim2
      ensures Consistent() && NoConflict(dim, cells[..])
    {
      filled := 0;
      cells := FreshCells(dim2);
      alternatives := NewTable(3 * dim2 * dim2, dim2);
      FreshConsistent(dim, cells[..], alternatives[..]);
    }

    /** The copy constructor (objects.cpp:80-86): a deep copy. It reads the source table
        unconditionally, so the table must exist. */
    constructor Copy(source: Grid)
      requires source.Valid() && source.alternatives != null
      ensures Valid() && dim == source.dim && filled == source.filled
      ensures fresh(cells) && cells[..] == source.cells[..]
      ensures alternatives != null && fresh(alternatives) && alternatives[..] == source.alternatives[..]
      ensures source.Consistent() ==> Consistent()
    {
      dim := source.dim;
      dim2 := source.dim2;
      filled := source.filled;
      var cs := CopyCells(source.cells[..], source.dim2);
      var table := CopyTable(source.alternatives[..]);
      cells := cs;
      alternatives := table;
    }

    /** `operator=` (objects.cpp:172-185), into a new grid: a deep copy in which a
        released table stays released. */
    constructor Assigned(source: Grid)
      requires source.Valid()
      ensures Valid() && dim == source.dim && filled == source.filled
      ensures fresh(cells) && cells[..] == source.cells[..]
      ensures (alternatives == null) == (source.alternatives == null)
      ensures alternatives != null ==> fresh(alternatives) && alternatives[..] == source.alternatives[..]
    {
      dim := source.dim;
      dim2 := source.dim2;
      filled := source.filled;
      var cs := CopyCells(source.cells[..], source.dim2);
      cells := cs;
      if source.alternatives != null {
        var table := CopyTable(source.alternatives[..]);
        alternatives := table;
      } else {
        alternatives := null;
      }
    }

    /** `operator()(row, column)` (objects.h:226): the cell at row-major index
        `row * dim2 + column`, an index that gives the coordinates back. */
    function At(row: nat, column: nat): (c: Cell)
      reads this, cells
      requires Valid() && row < dim2 && column < dim2
      ensures CellIndex(dim2, XY(row, column)) < cells.Length
      ensures XYOf(dim2, CellIndex(dim2, XY(row, column))) == XY(row, column)
      ensures c == cells[CellIndex(dim2, XY(row, column))]
    {
      CellIndexBijective(dim2, XY(row, column));
      cells[row * dim2 + column]
    }

    /** `operator()(ptype, pset, pindex)` (objects.cpp:167-170): the cell at position
        `pindex` of unit `pset` of type `ptype`; that cell lies in that unit at that
        position. */
    function AtUnit(t: nat, u: nat, i: nat): (c: Cell)
      reads this, cells
      requires Valid() && t < 3 && u < dim2 && i < dim2
      ensures CellAt(dim, t, u, i) < cells.Length && c == cells[CellAt(dim, t, u, i)]
    {
      UnitCell(dim, t, u, i);
      WarpRoundTripSu(dim, Su(t, u, i));
      var xy := WarpToXY(dim, Su(t, u, i));
      At(xy.row, xy.column)
    }

    /** `get_alternative` (objects.h:313-315). On a consistent grid the level is the
        number of cells of the unit that still allow the value. */
    function GetAlternative(t: nat, s: nat, v: nat): (level: nat)
      reads this, cells, alternatives
      requires Valid() && alternatives != null && t < 3 && s < dim2 && 1 <= v <= dim2
      ensures AltIndex(dim2, t, s, v) < alternatives.Length && level == alternatives[AltIndex(dim2, t, s, v)]
    {
      AltIndexRoundTrip(dim2, t, s, v);
      alternatives[v - 1 + s * dim2 + t * dim2 * dim2]
    }

    /** On a consistent grid the level of a triple is the number of cells of the unit
        that still allow the value (objects.h:304-312). */
    lemma LevelIsTally(t: nat, s: nat, v: nat)
      requires Consistent() && t < 3 && s < dim2 && 1 <= v <= dim2
      ensures GetAlternative(t, s, v) == Tally(dim, cells[..], Alternative(t, s, v))
      ensures GetAlternative(t, s, v) <= dim2
    {
      AltIndexRoundTrip(dim2, t, s, v);
      assert IndAlternative(dim2, AltIndex(dim2, t, s, v)) == Alternative(t, s, v);
    }

    /** `set_alternative` (objects.h:326-328): the entry of the triple takes the level and
        every other triple keeps its own. */
    method SetAlternative(t: nat, s: nat, v: nat, level: nat)
      requires Valid() && alternatives != null && t < 3 && s < dim2 && 1 <= v <= dim2
      modifies alternatives
      ensures AltIndex(dim2, t, s, v) < alternatives.Length
      ensures alternatives[..] == old(alternatives[..])[AltIndex(dim2, t, s, v) := level]
      ensures GetAlternative(t, s, v) == level
    {
      AltIndexRoundTrip(dim2, t, s, v);
      alternatives[v - 1 + s * dim2 + t * dim2 * dim2] := level;
    }

    /** `set_value(prow, pcolumn, pvalue, pfixed)` (objects.cpp:188-240) on an empty cell:
        the cells become `SetCells` and the table `SetAlternatives` of the state before,
        one more value is counted, and the bookkeeping stays exact. */
    method SetValue(row: nat, column: nat, pv: nat, pfixed: bool)
      requires Valid() && alternatives != null && CellsOk(dim, cells[..])
      requires row < dim2 && column < dim2 && 1 <= pv <= dim2
      requires At(row, column).value == 0
      modifies this, cells, alternatives
      ensures Valid() && cells == old(cells) && alternatives == old(alternatives)
      ensures filled == old(filled) + 1
      ensures cells[..] == SetCells(dim, old(cells[..]), CellIndex(dim2, XY(row, column)), pv, pfixed)
      ensures alternatives[..] == SetAlternatives(dim, old(cells[..]), old(alternatives[..]), CellIndex(dim2, XY(row, column)), pv)
      ensures old(Consistent()) ==> Consistent()
    {
      ghost var wasConsistent := Consistent();
      ghost var cs0, alts0 := cells[..], alternatives[..];
      var x := row * dim2 + column;
      var cell := At(row, column);
      cells[x] := cell.(value := pv, fixed := pfixed);
      filled := filled + 1;
      if cell.possible != [] {
        LowerOthers(row, column, cell, pv);
        cells[x] := cells[x].(possible := [], npossible := 0);
      }
      ghost var a1 := alternatives[..];
      assert cells[..] == ClearedPeers(dim, cs0, x, pv, pfixed, {});
      ClearPeers(row, column, pv, pfixed, cs0, a1);
      ClearedPeersDone(dim, cs0, x, pv, pfixed);
      PassesDone(dim, cs0, alts0, x, pv, 0);
      if wasConsistent {
        SetValueKeepsConsistency(dim, cs0, alts0, old(filled), x, pv, pfixed);
      }
    }

    /** The first pass of `set_value` (objects.cpp:194-205): for each unit of the cell,
        the level of every other value the cell allowed goes down by one, stopping at 0. */
    method LowerOthers(row: nat, column: nat, cell: Cell, pv: nat)
      requires Valid() && alternatives != null && row < dim2 && column < dim2
      requires |cell.possible| == dim2 && 1 <= pv <= dim2
      modifies alternatives
      ensures alternatives[..]
        == OthersLowered(dim, cell, old(alternatives[..]), CellIndex(dim2, XY(row, column)), pv, 3, 0)
    {
      ghost var alts0 := alternatives[..];
      var x := CellIndex(dim2, XY(row, column));
      CellIndexBijective(dim2, XY(row, column));
      OthersLoweredStart(dim, cell, alts0, x, pv);
      for t := 0 to 3
        invariant alternatives[..] == OthersLowered(dim, cell, alts0, x, pv, t, 0)
      {
        var coords := WarpToSu(dim, t, XY(row, column));
        for i := 0 to dim2
          invariant alternatives[..] == OthersLowered(dim, cell, alts0, x, pv, t, i)
        {
          OthersLoweredStep(dim, cell, alts0, x, pv, t, i);
          if i != pv - 1 && cell.possible[i] {
            var num := GetAlternative(t, coords.unit, i + 1);
            if num != 0 {
              SetAlternative(t, coords.unit, i + 1, num - 1);
            }
          }
        }
        OthersLoweredNext(dim, cell, alts0, x, pv, t);
      }
    }

    /** The second pass of `set_value` (objects.cpp:211-239): every peer that allowed `pv`
        loses it and the level of `pv` in each of that peer's units goes down by one,
        stopping at 0; the level of `pv` in each unit of the cell becomes 0. */
    method ClearPeers(row: nat, column: nat, pv: nat, pfixed: bool, ghost cs0: seq<Cell>, ghost a1: seq<nat>)
      requires Valid() && alternatives != null && row < dim2 && column < dim2 && 1 <= pv <= dim2
      requires CellsOk(dim, cs0) && CellIndex(dim2, XY(row, column)) < |cs0|
      requires cs0[CellIndex(dim2, XY(row, column))].value == 0
      requires cells[..] == ClearedPeers(dim, cs0, CellIndex(dim2, XY(row, column)), pv, pfixed, {})
      requires alternatives[..] == a1
      modifies cells, alternatives
      ensures cells[..] == ClearedPeers(dim, cs0, CellIndex(dim2, XY(row, column)), pv, pfixed,
        LossSet(dim, cs0, CellIndex(dim2, XY(row, column)), pv))
      ensures alternatives[..] == PlacedLowered(dim, a1, CellIndex(dim2, XY(row, column)), pv, 3,
        LossSet(dim, cs0, CellIndex(dim2, XY(row, column)), pv), 0, 0)
    {
      var x := CellIndex(dim2, XY(row, column));
      CellIndexBijective(dim2, XY(row, column));
      ghost var lost: set<nat> := {};
      PlacedLoweredStart(dim, a1, x, pv, 0);
      for t := 0 to 3
        invariant lost <= LossSet(dim, cs0, x, pv)
        invariant forall c :: c in LossSet(dim, cs0, x, pv) && Covered(dim, x, c, t, 0) ==> c in lost
        invariant cells[..] == ClearedPeers(dim, cs0, x, pv, pfixed, lost)
        invariant alternatives[..] == PlacedLowered(dim, a1, x, pv, t, lost, 0, 0)
      {
        var coords := WarpToSu(dim, t, XY(row, column));
        lost := ClearUnit(x, t, coords.unit, pv, pfixed, cs0, a1, lost);
      }
      forall c | c in LossSet(dim, cs0, x, pv)
        ensures c in lost
      {
        CoveredAll(dim, x, c);
      }
      assert lost == LossSet(dim, cs0, x, pv);
    }

    /** The passes over one unit of the cell `x` (objects.cpp:213-236). */
    method ClearUnit(x: nat, t: nat, u: nat, pv: nat, pfixed: bool, ghost cs0: seq<Cell>, ghost a1: seq<nat>,
                     ghost lost: set<nat>) returns (ghost lost': set<nat>)
      requires Valid() && alternatives != null && x < cells.Length && 1 <= pv <= dim2
      requires CellsOk(dim, cs0) && cs0[x].value == 0 && |a1| == alternatives.Length
      requires t < 3 && u == UnitOf(dim, t, x) && lost <= LossSet(dim, cs0, x, pv)
      requires forall c :: c in LossSet(dim, cs0, x, pv) && Covered(dim, x, c, t, 0) ==> c in lost
      requires cells[..] == ClearedPeers(dim, cs0, x, pv, pfixed, lost)
      requires alternatives[..] == PlacedLowered(dim, a1, x, pv, t, lost, 0, 0)
      modifies cells, alternatives
      ensures lost' <= LossSet(dim, cs0, x, pv)
      ensures forall c :: c in LossSet(dim, cs0, x, pv) && Covered(dim, x, c, t + 1, 0) ==> c in lost'
      ensures cells[..] == ClearedPeers(dim, cs0, x, pv, pfixed, lost')
      ensures alternatives[..] == PlacedLowered(dim, a1, x, pv, t + 1, lost', 0, 0)
    {
      lost' := lost;
      for i := 0 to dim2
        invariant lost' <= LossSet(dim, cs0, x, pv)
        invariant forall c :: c in LossSet(dim, cs0, x, pv) && Covered(dim, x, c, t, i) ==> c in lost'
        invariant cells[..] == ClearedPeers(dim, cs0, x, pv, pfixed, lost')
        invariant alternatives[..] == PlacedLowered(dim, a1, x, pv, t, lost', 0, 0)
      {
        lost' := VisitPeer(x, t, u, i, pv, pfixed, cs0, a1, lost');
      }
      forall c | c in LossSet(dim, cs0, x, pv) && Covered(dim, x, c, t + 1, 0)
        ensures c in lost'
      {
        CoveredNext(dim, x, c, t);
      }
      PlacedLoweredZero(dim, a1, x, pv, t, lost', 0);
      SetAlternative(t, u, pv, 0);
    }

    /** One step of the second pass of `set_value` (objects.cpp:214-232): the cell at
        position `i` of unit `u` loses `pv` if it still allowed it, and then the levels
        of `pv` in its units go down. */
    method VisitPeer(x: nat, t: nat, u: nat, i: nat, pv: nat, pfixed: bool, ghost cs0: seq<Cell>, ghost a1: seq<nat>,
                     ghost lost: set<nat>) returns (ghost lost': set<nat>)
      requires Valid() && alternatives != null && x < cells.Length && 1 <= pv <= dim2
      requires CellsOk(dim, cs0) && cs0[x].value == 0 && |a1| == alternatives.Length
      requires t < 3 && i < dim2 && u == UnitOf(dim, t, x) && lost <= LossSet(dim, cs0, x, pv)
      requires forall c :: c in LossSet(dim, cs0, x, pv) && Covered(dim, x, c, t, i) ==> c in lost
      requires cells[..] == ClearedPeers(dim, cs0, x, pv, pfixed, lost)
      requires alternatives[..] == PlacedLowered(dim, a1, x, pv, t, lost, 0, 0)
      modifies cells, alternatives
      ensures lost' <= LossSet(dim, cs0, x, pv)
      ensures forall c :: c in LossSet(dim, cs0, x, pv) && Covered(dim, x, c, t, i + 1) ==> c in lost'
      ensures cells[..] == ClearedPeers(dim, cs0, x, pv, pfixed, lost')
      ensures alternatives[..] == PlacedLowered(dim, a1, x, pv, t, lost', 0, 0)
    {
      VisitStep(dim, cs0, x, pv, pfixed, lost, t, i);
      lost' := lost;
      var c := AtUnit(t, u, i);
      if Allows(c, pv) {
        ClearPeer(t, u, i, pv, pfixed, cs0, a1, x, lost);
        lost' := lost + {CellAt(dim, t, u, i)};
      }
    }

    /** The body of the second pass of `set_value` for a peer that still allowed `pv`
        (objects.cpp:215-231): the peer loses `pv`, and the level of `pv` goes down by one
        in each of its units. */
    method ClearPeer(t: nat, u: nat, i: nat, pv: nat, pfixed: bool, ghost cs0: seq<Cell>, ghost a1: seq<nat>,
                     ghost x: nat, ghost lost: set<nat>)
      requires Valid() && alternatives != null && t < 3 && u < dim2 && i < dim2 && 1 <= pv <= dim2
      requires CellsOk(dim, cs0) && |a1| == alternatives.Length && lost <= LossSet(dim, cs0, x, pv)
      requires CellAt(dim, t, u, i) in LossSet(dim, cs0, x, pv) && CellAt(dim, t, u, i) !in lost
      requires cells[..] == ClearedPeers(dim, cs0, x, pv, pfixed, lost)
      requires alternatives[..] == PlacedLowered(dim, a1, x, pv, t, lost, 0, 0)
      modifies cells, alternatives
      ensures cells[..] == ClearedPeers(dim, cs0, x, pv, pfixed, lost + {CellAt(dim, t, u, i)})
      ensures alternatives[..] == PlacedLowered(dim, a1, x, pv, t, lost + {CellAt(dim, t, u, i)}, 0, 0)
    {
      var c := AtUnit(t, u, i);
      var xy := WarpToXY(dim, Su(t, u, i));
      WarpRoundTripSu(dim, Su(t, u, i));
      var k := CellIndex(dim2, xy);
      ClearedPeersStep(dim, cs0, x, pv, pfixed, lost, k);
      cells[k] := Cleared(c, pv);
      PlacedLoweredSwitch(dim, a1, x, pv, t, lost, k, 0);
      LowerPeerUnits(xy, pv, a1, x, t, lost);
    }

    /** The innermost loop of `set_value` (objects.cpp:222-231): the level of `pv` goes
        down by one, stopping at 0, in each unit of the cell at `xy`. */
    method LowerPeerUnits(xy: XY, pv: nat, ghost a1: seq<nat>, ghost x: nat, ghost t: nat, ghost lost: set<nat>)
      requires Valid() && alternatives != null && xy.row < dim2 && xy.column < dim2 && 1 <= pv <= dim2
      requires |a1| == alternatives.Length && CellIndex(dim2, xy) !in lost
      requires alternatives[..] == PlacedLowered(dim, a1, x, pv, t, lost, CellIndex(dim2, xy), 0)
      modifies alternatives
      ensures alternatives[..] == PlacedLowered(dim, a1, x, pv, t, lost, CellIndex(dim2, xy), 3)
    {
      var k := CellIndex(dim2, xy);
      CellIndexBijective(dim2, xy);
      for s := 0 to 3
        invariant alternatives[..] == PlacedLowered(dim, a1, x, pv, t, lost, k, s)
      {
        var coor := WarpToSu(dim, s, xy);
        WarpRoundTrip(dim, s, xy);
        PlacedLoweredStep(dim, a1, x, pv, t, lost, k, s);
        var n := GetAlternative(coor.kind, coor.unit, pv);
        if n != 0 {
          SetAlternative(coor.kind, coor.unit, pv, n - 1);
        }
      }
    }

    // -------------------------------------------------------------------------
    // solve (objects.cpp:242-404)
    // -------------------------------------------------------------------------

    /** `min` and `ind` as the scan of the table leaves them (objects.cpp:279-286):
        `min` is the smallest positive level, `dim2 + 1` when there is none. */
    ghost predicate IsMinAlternative(min: nat, ind: nat)
      reads this, alternatives
      requires Valid() && alternatives != null
    {
      && min <= dim2 + 1
      && (min <= dim2 ==> ind < alternatives.Length && 0 < alternatives[ind] == min)
      && (forall a :: 0 <= a < alternatives.Length && alternatives[a] > 0 ==> min <= alternatives[a])
    }

    /** `min2`, `indi` and `indj` as the scan of the cells leaves them
        (objects.cpp:288-294): `min2` is the smallest positive `npossible`, `dim2 + 1`
        when there is none. */
    ghost predicate IsMinCell(min2: nat, indi: nat, indj: nat)
      reads this, cells
      requires Valid()
    {
      && indi < dim2 && indj < dim2 && min2 <= dim2 + 1
      && (min2 <= dim2 ==> 0 < At(indi, indj).npossible == min2)
      && (forall r: nat, c: nat :: r < dim2 && c < dim2 && At(r, c).npossible > 0 ==> min2 <= At(r, c).npossible)
    }

    /** The search for the alternative with the fewest options (objects.cpp:280-286):
        the first entry holding the smallest positive level. */
    method MinAlternative() returns (min: nat, ind: nat)
      requires Valid() && alternatives != null
      ensures IsMinAlternative(min, ind) && ind <= alternatives.Length
      ensures forall a :: 0 <= a < ind ==> alternatives[a] == 0 || alternatives[a] > min
    {
      min := dim2 + 1;
      ind := 0;
      for i := 0 to alternatives.Length
        invariant min <= dim2 + 1
        invariant min <= dim2 ==> ind < i && 0 < alternatives[ind] == min
        invariant forall a :: 0 <= a < i && alternatives[a] > 0 ==> min <= alternatives[a]
        invariant ind <= i
        invariant forall a :: 0 <= a < ind ==> alternatives[a] == 0 || alternatives[a] > min
      {
        if alternatives[i] > 0 && alternatives[i] < min {
          min := alternatives[i];
          ind := i;
        }
      }
    }

    /** The search for the cell with the fewest possibilities (objects.cpp:288-294): the
        first cell, row by row, with the smallest positive `npossible`. */
    method MinCell() returns (min2: nat, indi: nat, indj: nat)
      requires Valid()
      ensures IsMinCell(min2, indi, indj)
      ensures forall r: nat, c: nat :: r < dim2 && c < dim2 && (r < indi || (r == indi && c < indj)) ==> At(r, c).npossible == 0 || At(r, c).npossible > min2
    {
      min2 := dim2 + 1;
      indi, indj := 0, 0;
      for i := 0 to dim2
        invariant min2 <= dim2 + 1 && indi < dim2 && indj < dim2
        invariant min2 <= dim2 ==> indi < i && 0 < At(indi, indj).npossible == min2
        invariant forall r: nat, c: nat :: r < i && c < dim2 && At(r, c).npossible > 0 ==> min2 <= At(r, c).npossible
        invariant forall r: nat, c: nat :: r < dim2 && c < dim2 && (r < indi || (r == indi && c < indj)) ==> At(r, c).npossible == 0 || At(r, c).npossible > min2
      {
        for j := 0 to dim2
          invariant min2 <= dim2 + 1 && indi < dim2 && indj < dim2
          invariant min2 <= dim2 ==> (indi < i || (indi == i && indj < j)) && 0 < At(indi, indj).npossible == min2
          invariant forall r: nat, c: nat :: (r < i || (r == i && c < j)) && c < dim2 && At(r, c).npossible > 0 ==> min2 <= At(r, c).npossible
          invariant forall r: nat, c: nat :: r < dim2 && c < dim2 && (r < indi || (r == indi && c < indj)) ==> At(r, c).npossible == 0 || At(r, c).npossible > min2
        {
          if At(i, j).npossible > 0 && At(i, j).npossible < min2 {
            min2 := At(i, j).npossible;
            indi, indj := i, j;
          }
        }
      }
    }

    /** `mask` tells, position by position, which cells of unit `u` of type `t` allow `v`. */
    ghost predicate MasksUnit(mask: seq<bool>, t: nat, u: nat, v: nat)
      reads this, cells
      requires Valid() && t < 3 && u < dim2
    {
      |mask| == dim2 && forall p {:trigger AtUnit(t, u, p)} :: 0 <= p < dim2 ==> mask[p] == Allows(AtUnit(t, u, p), v)
    }

    /** `UnitMask` of the cells is such a mask. */
    lemma UnitMaskOfCells(t: nat, u: nat, v: nat)
      requires Valid() && t < 3 && u < dim2
      ensures MasksUnit(UnitMask(dim, cells[..], t, u, v), t, u, v)
    {
      forall p | 0 <= p < dim2
        ensures UnitMask(dim, cells[..], t, u, v)[p] == Allows(AtUnit(t, u, p), v)
      {
        var c := AtUnit(t, u, p);
      }
    }

    /** On a consistent grid, entry `ind` of the table counts the cells of its unit that
        allow its value. */
    lemma EntryCandidates(ind: nat)
      requires Consistent() && ind < alternatives.Length
      ensures var alt := IndAlternative(dim2, ind);
        && alt.kind < 3 && alt.unit < dim2 && 1 <= alt.value <= dim2
        && MasksUnit(UnitMask(dim, cells[..], alt.kind, alt.unit, alt.value), alt.kind, alt.unit, alt.value)
        && CountTrue(UnitMask(dim, cells[..], alt.kind, alt.unit, alt.value)) == alternatives[ind]
    {
      var alt := IndAlternative(dim2, ind);
      IndAlternativeRoundTrip(dim2, ind);
      LevelIsTally(alt.kind, alt.unit, alt.value);
      UnitMaskOfCells(alt.kind, alt.unit, alt.value);
    }

    /** The scan of a unit for its candidate cells (objects.cpp:354-361): from position
        `from`, step over the cells that allow `v` up to the `(num + 1)`-th one. */
    method NthInUnit(t: nat, u: nat, v: nat, from: nat, num: nat, ghost mask: seq<bool>) returns (i: nat)
      requires Valid() && t < 3 && u < dim2 && MasksUnit(mask, t, u, v) && from <= dim2
      requires CountTrue(mask[from..]) > num
      ensures from <= i < dim2 && mask[i]
      ensures CountTrue(mask[from..i + 1]) == num + 1
    {
      var k := 0;
      i := from;
      while i < dim2 && k <= num
        invariant from <= i <= dim2
        invariant k == CountTrue(mask[from..i])
        invariant CountTrue(mask[from..]) == k + CountTrue(mask[i..])
        invariant k <= num + 1
        invariant k > num ==> i > from && mask[i - 1]
      {
        CountStep(mask, from, i);
        var candidate := IsCandidate(t, u, v, i, mask);
        if candidate {
          k := k + 1;
        }
        i := i + 1;
      }
      i := i - 1;
    }

    /** `c->possible != 0 && c->possible[value-1]` for the cell at position `i` of the
        unit: the entry of the mask at that position. */
    method IsCandidate(t: nat, u: nat, v: nat, i: nat, ghost mask: seq<bool>) returns (b: bool)
      requires Valid() && t < 3 && u < dim2 && i < dim2 && MasksUnit(mask, t, u, v)
      ensures b == mask[i]
    {
      var cell := AtUnit(t, u, i);
      b := Allows(cell, v);
    }

    /** A forced placement by alternative (objects.cpp:296-310): the unit of the entry
        `ind` has exactly one cell allowing the value, the scan finds it and that cell
        takes the value. */
    method ForcedByUnit(ind: nat) returns (ghost x: nat)
      requires Consistent() && ind < alternatives.Length && alternatives[ind] == 1
      modifies this, cells, alternatives
      ensures Consistent() && cells == old(cells) && alternatives == old(alternatives)
      ensures filled == old(filled) + 1 && x < cells.Length
      ensures var alt := IndAlternative(dim2, ind);
        && UnitOf(dim, alt.kind, x) == alt.unit
        && old(Allows(cells[x], alt.value))
        && cells[..] == SetCells(dim, old(cells[..]), x, alt.value, false)
      ensures Extends(cells[..], old(cells[..]))
      ensures old(NoConflict(dim, cells[..])) ==> NoConflict(dim, cells[..])
      ensures old(Dead(cells[..])) ==> Dead(cells[..])
    {
      ghost var cs0 := cells[..];
      var alt := IndAlternative(dim2, ind);
      EntryCandidates(ind);
      ghost var mask := UnitMask(dim, cs0, alt.kind, alt.unit, alt.value);
      var i := NthInUnit(alt.kind, alt.unit, alt.value, 0, 0, mask);
      var coords := WarpToXY(dim, Su(alt.kind, alt.unit, i));
      WarpRoundTripSu(dim, Su(alt.kind, alt.unit, i));
      UnitCell(dim, alt.kind, alt.unit, i);
      x := CellIndex(dim2, coords);
      assert CellOk(dim2, cs0[x]);
      SetValue(coords.row, coords.column, alt.value, false);
      SetValueExtends(dim, cs0, x, alt.value, false);
      if NoConflict(dim, cs0) {
        SetValueKeepsNoConflict(dim, cs0, x, alt.value, false);
      }
      if Dead(cs0) {
        SetValueKeepsDead(dim, cs0, x, alt.value, false);
      }
    }

    /** A forced placement by cell (objects.cpp:311-319): the cell has one possibility
        left, the scan finds it and the cell takes it. */
    method ForcedByCell(indi: nat, indj: nat) returns (v: nat)
      requires Consistent() && indi < dim2 && indj < dim2 && At(indi, indj).npossible == 1
      modifies this, cells, alternatives
      ensures Consistent() && cells == old(cells) && alternatives == old(alternatives)
      ensures filled == old(filled) + 1
      ensures old(Allows(At(indi, indj), v))
      ensures cells[..] == SetCells(dim, old(cells[..]), CellIndex(dim2, XY(indi, indj)), v, false)
      ensures Extends(cells[..], old(cells[..]))
      ensures old(NoConflict(dim, cells[..])) ==> NoConflict(dim, cells[..])
      ensures old(Dead(cells[..])) ==> Dead(cells[..])
    {
      ghost var cs0 := cells[..];
      var cell := At(indi, indj);
      var x := CellIndex(dim2, XY(indi, indj));
      assert CellOk(dim2, cs0[x]);
      assert cell.possible[0..] == cell.possible;
      var i := NthTrue(cell.possible, 0, 0);
      v := i + 1;
      SetValue(indi, indj, v, false);
      SetValueExtends(dim, cs0, x, v, false);
      if NoConflict(dim, cs0) {
        SetValueKeepsNoConflict(dim, cs0, x, v, false);
      }
      if Dead(cs0) {
        SetValueKeepsDead(dim, cs0, x, v, false);
      }
    }

    /** The deduction loop of `solve` (objects.cpp:251-320): place forced values until the
        grid is full or no level and no cell offers a single option. */
    method Propagate() returns (min: nat, ind: nat, min2: nat, indi: nat, indj: nat)
      requires Consistent()
      modifies this, cells, alternatives
      ensures Consistent() && cells == old(cells) && alternatives == old(alternatives)
      ensures old(filled) <= filled && Extends(cells[..], old(cells[..]))
      ensures old(NoConflict(dim, cells[..])) ==> NoConflict(dim, cells[..])
      ensures old(Dead(cells[..])) ==> Dead(cells[..])
      ensures old(filled) == dim2 * dim2 ==> cells[..] == old(cells[..]) && filled == old(filled)
      ensures filled != dim2 * dim2 ==> 1 < min && 1 < min2 && IsMinAlternative(min, ind) && IsMinCell(min2, indi, indj)
    {
      min, min2 := 0, 0;
      ind, indi, indj := 0, 0, 0;
      while (min <= 1 || min2 <= 1) && filled != dim2 * dim2
        invariant Consistent() && cells == old(cells) && alternatives == old(alternatives)
        invariant old(filled) <= filled && Extends(cells[..], old(cells[..]))
        invariant old(NoConflict(dim, cells[..])) ==> NoConflict(dim, cells[..])
        invariant old(Dead(cells[..])) ==> Dead(cells[..])
        invariant old(filled) == dim2 * dim2 ==> cells[..] == old(cells[..]) && filled == old(filled)
        invariant 1 < min && 1 < min2 ==> IsMinAlternative(min, ind) && IsMinCell(min2, indi, indj)
        decreases dim2 * dim2 - filled, if min <= 1 || min2 <= 1 then 1 else 0
      {
        ghost var before := cells[..];
        min, ind := MinAlternative();
        min2, indi, indj := MinCell();
        if min == 1 {
          ghost var x := ForcedByUnit(ind);
          ExtendsTransitive(cells[..], before, old(cells[..]));
        } else if min2 == 1 {
          var v := ForcedByCell(indi, indj);
          ExtendsTransitive(cells[..], before, old(cells[..]));
        }
      }
    }

    /** `solve(type, callback)` (objects.cpp:242-404). The callback becomes the list of
        the full grids it would have received; `count` is the returned number. Every
        solution is a full grid that keeps every value of this one, and holds no value
        twice in a unit when this one does not. `FIND_ONE` and `FIND_ANY` report at
        most one solution; a full grid is its own single solution, and a grid with an
        empty cell that has no possibility left has none (objects.cpp:322-326). */
    method Solve(mode: SolveType, rng: seq<nat>) returns (count: nat, sols: seq<seq<Cell>>, rest: seq<nat>)
      requires Consistent()
      ensures count == |sols|
      ensures SolutionsOf(dim, sols, cells[..])
      ensures Full(cells[..]) ==> sols == [cells[..]]
      ensures Dead(cells[..]) ==> count == 0
      ensures mode == FindOne || mode == FindAny ==> count <= 1
      ensures mode != FindAny ==> rest == rng
      ensures |rest| <= |rng|
      decreases cells.Length - filled, 4
    {
      var source := new Grid.Copy(this);
      if Full(cells[..]) {
        FullWhenCounted(cells[..]);
      }
      var min, ind, min2, indi, indj := source.Propagate();
      if source.filled == dim2 * dim2 {
        FullWhenCounted(source.cells[..]);
        return 1, [source.cells[..]], rng;
      }
      if min == dim2 + 1 && min2 == dim2 + 1 {
        return 0, [], rng;
      }
      if min < min2 {
        count, sols, rest := source.BranchOnUnit(mode, ind, rng);
      } else {
        count, sols, rest := source.BranchOnCell(mode, indi, indj, rng);
      }
      SolutionsWeaken(dim, sols, source.cells[..], cells[..]);
    }

    /** The branch on an alternative (objects.cpp:345-372): each candidate cell of the unit
        in turn, or a random one each time for `FIND_ANY`, takes the value in a copy that is
        solved in turn, until the cap of the mode is reached. */
    method BranchOnUnit(mode: SolveType, ind: nat, rng: seq<nat>) returns (count: nat, sols: seq<seq<Cell>>, rest: seq<nat>)
      requires Consistent() && filled < cells.Length && ind < alternatives.Length && alternatives[ind] > 0
      ensures count == |sols|
      ensures SolutionsOf(dim, sols, cells[..])
      ensures mode == FindOne || mode == FindAny ==> count <= 1
      ensures mode != FindAny ==> rest == rng
      ensures |rest| <= |rng|
      decreases cells.Length - filled, 3
    {
      var alt := IndAlternative(dim2, ind);
      EntryCandidates(ind);
      count, sols, rest := BranchInUnit(mode, alt.kind, alt.unit, alt.value, alternatives[ind],
        UnitMask(dim, cells[..], alt.kind, alt.unit, alt.value), rng);
    }

    /** The loop of the branch on an alternative (objects.cpp:347-372), over the `level`
        cells of unit `u` of type `t` that allow `v`, as `mask` marks them. */
    method BranchInUnit(mode: SolveType, t: nat, u: nat, v: nat, level: nat, ghost mask: seq<bool>, rng: seq<nat>)
      returns (count: nat, sols: seq<seq<Cell>>, rest: seq<nat>)
      requires Consistent() && filled < cells.Length && t < 3 && u < dim2 && 1 <= v <= dim2
      requires MasksUnit(mask, t, u, v) && CountTrue(mask) == level && level > 0
      ensures count == |sols|
      ensures SolutionsOf(dim, sols, cells[..])
      ensures mode == FindOne || mode == FindAny ==> count <= 1
      ensures mode != FindAny ==> rest == rng
      ensures |rest| <= |rng|
      decreases cells.Length - filled, 2
    {
      count, sols, rest := 0, [], rng;
      var i, j := 0, 0;
      while j < level && count < Cap(mode)
        invariant i <= dim2 && count == |sols|
        invariant SolutionsOf(dim, sols, cells[..])
        invariant mode == FindOne || mode == FindAny ==> count <= 1
        invariant mode != FindAny ==> rest == rng && j + CountTrue(mask[i..]) >= level
        invariant |rest| <= |rng|
      {
        var num := 0;
        if mode == FindAny {
          i := 0;
          var draw := Draw(rest, level);
          num, rest := draw.0, draw.1;
          assert mask[0..] == mask;
        }
        var from := i;
        i, count, sols, rest := TryInUnit(mode, t, u, v, from, num, mask, count, sols, rest);
        CountAfter(mask, from, i);
        i, j := i + 1, j + 1;
      }
    }

    /** One candidate of the unit (objects.cpp:354-369): the scan finds the `(num + 1)`-th
        cell from position `from` that allows `v`, that cell takes the value in a copy that
        is solved, and its solutions join the `count0` found so far. */
    method TryInUnit(mode: SolveType, t: nat, u: nat, v: nat, from: nat, num: nat, ghost mask: seq<bool>,
                     count0: nat, sols0: seq<seq<Cell>>, rng: seq<nat>)
      returns (i: nat, count: nat, sols: seq<seq<Cell>>, rest: seq<nat>)
      requires Consistent() && filled < cells.Length && t < 3 && u < dim2 && 1 <= v <= dim2
      requires MasksUnit(mask, t, u, v) && from <= dim2 && CountTrue(mask[from..]) > num
      requires count0 == |sols0| && SolutionsOf(dim, sols0, cells[..])
      requires mode == FindOne || mode == FindAny ==> count0 == 0
      ensures from <= i < dim2 && CountTrue(mask[from..i + 1]) == num + 1
      ensures count == |sols|
      ensures SolutionsOf(dim, sols, cells[..])
      ensures mode == FindOne || mode == FindAny ==> count <= 1
      ensures mode != FindAny ==> rest == rng
      ensures |rest| <= |rng|
      decreases cells.Length - filled, 1
    {
      i := NthInUnit(t, u, v, from, num, mask);
      assert Allows(AtUnit(t, u, i), v);
      var coords := WarpToXY(dim, Su(t, u, i));
      WarpRoundTripSu(dim, Su(t, u, i));
      var res, found;
      res, found, rest := Hypothesis(mode, coords.row, coords.column, v, rng);
      SolutionsAppend(dim, sols0, found, cells[..]);
      count, sols := count0 + res, sols0 + found;
    }

    /** `hypothesis=new Grid(source); hypothesis->set_value(...); hypothesis->solve(...)`
        (objects.cpp:362-368 and 387-393): a copy takes the value and is solved. */
    method Hypothesis(mode: SolveType, row: nat, column: nat, v: nat, rng: seq<nat>)
      returns (count: nat, sols: seq<seq<Cell>>, rest: seq<nat>)
      requires Consistent() && filled < cells.Length && row < dim2 && column < dim2
      requires 1 <= v <= dim2 && Allows(At(row, column), v)
      ensures count == |sols|
      ensures SolutionsOf(dim, sols, cells[..])
      ensures mode == FindOne || mode == FindAny ==> count <= 1
      ensures mode != FindAny ==> rest == rng
      ensures |rest| <= |rng|
      decreases cells.Length - filled, 0
    {
      var x := CellIndex(dim2, XY(row, column));
      assert CellOk(dim2, cells[x]);
      var hypothesis := new Grid.Copy(this);
      hypothesis.SetValue(row, column, v, false);
      SetValueExtends(dim, cells[..], x, v, false);
      if NoConflict(dim, cells[..]) {
        SetValueKeepsNoConflict(dim, cells[..], x, v, false);
      }
      if Dead(cells[..]) {
        SetValueKeepsDead(dim, cells[..], x, v, false);
      }
      count, sols, rest := hypothesis.Solve(mode, rng);
      SolutionsWeaken(dim, sols, hypothesis.cells[..], cells[..]);
    }

    /** The branch on a cell (objects.cpp:373-398): each possibility of the cell in turn,
        or a random one each time for `FIND_ANY`, is tried in a copy that is solved in
        turn, until the cap of the mode is reached. */
    method BranchOnCell(mode: SolveType, indi: nat, indj: nat, rng: seq<nat>) returns (count: nat, sols: seq<seq<Cell>>, rest: seq<nat>)
      requires Consistent() && filled < cells.Length && indi < dim2 && indj < dim2 && At(indi, indj).npossible > 0
      ensures count == |sols|
      ensures SolutionsOf(dim, sols, cells[..])
      ensures mode == FindOne || mode == FindAny ==> count <= 1
      ensures mode != FindAny ==> rest == rng
      ensures |rest| <= |rng|
      decreases cells.Length - filled, 2
    {
      var cell := At(indi, indj);
      assert CellOk(dim2, cells[CellIndex(dim2, XY(indi, indj))]);
      var level := cell.npossible;
      count, sols, rest := 0, [], rng;
      var i, j := 0, 0;
      while j < level && count < Cap(mode)
        invariant i <= dim2 && count == |sols|
        invariant SolutionsOf(dim, sols, cells[..])
        invariant mode == FindOne || mode == FindAny ==> count <= 1
        invariant mode != FindAny ==> rest == rng && j + CountTrue(cell.possible[i..]) >= level
        invariant |rest| <= |rng|
      {
        var num := 0;
        if mode == FindAny {
          i := 0;
          var draw := Draw(rest, level);
          num, rest := draw.0, draw.1;
          assert cell.possible[0..] == cell.possible;
        }
        var from := i;
        i, count, sols, rest := TryInCell(mode, indi, indj, from, num, count, sols, rest);
        CountAfter(cell.possible, from, i);
        i, j := i + 1, j + 1;
      }
    }

    /** One possibility of the cell (objects.cpp:381-394): the scan finds the `(num + 1)`-th
        possible value from position `from`, the cell takes it in a copy that is solved,
        and its solutions join the `count0` found so far. */
    method TryInCell(mode: SolveType, indi: nat, indj: nat, from: nat, num: nat,
                     count0: nat, sols0: seq<seq<Cell>>, rng: seq<nat>)
      returns (i: nat, count: nat, sols: seq<seq<Cell>>, rest: seq<nat>)
      requires Consistent() && filled < cells.Length && indi < dim2 && indj < dim2
      requires from <= |At(indi, indj).possible| && CountTrue(At(indi, indj).possible[from..]) > num
      requires count0 == |sols0| && SolutionsOf(dim, sols0, cells[..])
      requires mode == FindOne || mode == FindAny ==> count0 == 0
      ensures from <= i < |At(indi, indj).possible| && CountTrue(At(indi, indj).possible[from..i + 1]) == num + 1
      ensures count == |sols|
      ensures SolutionsOf(dim, sols, cells[..])
      ensures mode == FindOne || mode == FindAny ==> count <= 1
      ensures mode != FindAny ==> rest == rng
      ensures |rest| <= |rng|
      decreases cells.Length - filled, 1
    {
      var cell := At(indi, indj);
      assert CellOk(dim2, cells[CellIndex(dim2, XY(indi, indj))]);
      i := NthTrue(cell.possible, from, num);
      var res, found;
      res, found, rest := Hypothesis(mode, indi, indj, i + 1, rng);
      SolutionsAppend(dim, sols0, found, cells[..]);
      count, sols := count0 + res, sols0 + found;
    }

    // -------------------------------------------------------------------------
    // fill (objects.cpp:406-413) and generate (objects.cpp:425-460)
    // -------------------------------------------------------------------------

    /** `fill()` as written (objects.cpp:406-413): on success the cells become the solution
        `FIND_ANY` found, the table is released by `free_all` and never rebuilt, and
        `_filled` keeps its old value; on failure nothing changes. */
    method Fill(rng: seq<nat>) returns (ok: bool, rest: seq<nat>)
      requires Consistent()
      modifies this
      ensures Valid() && |rest| <= |rng|
      ensures !ok ==> cells == old(cells) && alternatives == old(alternatives) && filled == old(filled)
      ensures ok ==> fresh(cells) && Solved(dim, cells[..]) && Extends(cells[..], old(cells[..]))
      ensures ok && old(NoConflict(dim, cells[..])) ==> NoConflict(dim, cells[..])
      ensures ok ==> alternatives == null && filled == old(filled) && !Consistent()
      ensures old(Full(cells[..])) ==> ok && cells[..] == old(cells[..])
    {
      var count, sols, r := Solve(FindAny, rng);
      rest := r;
      if count == 0 {
        return false, rest;
      }
      var saved := sols[|sols| - 1];
      cells := CopyCells(saved, dim2);
      alternatives := null;
      ok := true;
    }

    /** `fill()` as evidently intended: as `Fill`, and then the table and the counter
        describe the full grid (every level 0, every cell counted), so the grid stays
        consistent. */
    method FillRepaired(rng: seq<nat>) returns (ok: bool, rest: seq<nat>)
      requires Consistent()
      modifies this
      ensures Valid() && |rest| <= |rng|
      ensures !ok ==> cells == old(cells) && alternatives == old(alternatives) && filled == old(filled)
      ensures ok ==> fresh(cells) && Solved(dim, cells[..]) && Extends(cells[..], old(cells[..]))
      ensures ok && old(NoConflict(dim, cells[..])) ==> NoConflict(dim, cells[..])
      ensures ok ==> Consistent() && fresh(alternatives) && filled == cells.Length
      ensures old(Full(cells[..])) ==> ok && cells[..] == old(cells[..])
    {
      var count, sols, r := Solve(FindAny, rng);
      rest := r;
      if count == 0 {
        return false, rest;
      }
      var saved := sols[|sols| - 1];
      cells := CopyCells(saved, dim2);
      alternatives := NewTable(3 * dim2 * dim2, 0);
      filled := dim2 * dim2;
      SolvedConsistent(dim, cells[..], alternatives[..]);
      ok := true;
    }

    /** The given values of a puzzle: every value set in this grid is fixed and equal to
        the value of the same cell of `solution`. */
    ghost predicate CluesOf(solution: seq<Cell>)
      reads this, cells
    {
      |solution| == cells.Length &&
      forall c :: 0 <= c < cells.Length && cells[c].value != 0 ==> cells[c].fixed && cells[c].value == solution[c].value
    }

    /** One clue (objects.cpp:435-440 and 450-455): two draws pick a cell; when it is empty
        it takes, as a fixed value, the value of the same cell of `source`, and otherwise
        nothing changes. */
    method AddClue(source: Grid, rng: seq<nat>) returns (added: bool, rest: seq<nat>)
      requires Consistent() && source.Valid() && source.dim == dim && source != this && source.cells != cells
      requires Solved(dim, source.cells[..]) && CluesOf(source.cells[..]) && |rng| > 0
      modifies this, cells, alternatives
      ensures Consistent() && cells == old(cells) && alternatives == old(alternatives)
      ensures CluesOf(source.cells[..]) && |rest| < |rng|
      ensures filled == old(filled) + (if added then 1 else 0)
      ensures old(NoConflict(dim, cells[..])) && NoConflict(dim, source.cells[..]) ==> NoConflict(dim, cells[..])
      ensures Extends(cells[..], old(cells[..]))
      ensures var d1 := Draw(rng, dim2); var d2 := Draw(d1.1, dim2); var x := CellIndex(dim2, XY(d1.0, d2.0));
        && rest == d2.1 && x < cells.Length
        && (added <==> old(cells[x].value) == 0)
        && (added ==> cells[..] == SetCells(dim, old(cells[..]), x, source.cells[x].value, true))
        && (!added ==> cells[..] == old(cells[..]))
    {
      var d1 := Draw(rng, dim2);
      var d2 := Draw(d1.1, dim2);
      var j, k := d1.0, d2.0;
      rest := d2.1;
      added := false;
      var x := CellIndex(dim2, XY(j, k));
      if At(j, k).value == 0 {
        ghost var cs0 := cells[..];
        var v := source.At(j, k).value;
        assert CellOk(dim2, source.cells[x]);
        SetValue(j, k, v, true);
        SetValueExtends(dim, cs0, x, v, true);
        added := true;
        if NoConflict(dim, cs0) && NoConflict(dim, source.cells[..]) {
          ClueKeepsNoConflict(dim, cs0, source.cells[..], x, v);
        }
      }
    }

    /** The first loop of `generate` (objects.cpp:433-441): clues are added until `target`
        more cells are set, or the stream runs out. */
    method AddClues(source: Grid, target: nat, rng: seq<nat>) returns (ok: bool, rest: seq<nat>)
      requires Consistent() && source.Valid() && source.dim == dim && source != this && source.cells != cells
      requires Solved(dim, source.cells[..]) && CluesOf(source.cells[..])
      modifies this, cells, alternatives
      ensures Consistent() && cells == old(cells) && alternatives == old(alternatives)
      ensures CluesOf(source.cells[..]) && |rest| <= |rng|
      ensures ok ==> filled == old(filled) + target
      ensures old(NoConflict(dim, cells[..])) && NoConflict(dim, source.cells[..]) ==> NoConflict(dim, cells[..])
      ensures Extends(cells[..], old(cells[..]))
    {
      rest := rng;
      var i := 0;
      while i < target && |rest| > 0
        invariant Consistent() && cells == old(cells) && alternatives == old(alternatives)
        invariant i <= target && CluesOf(source.cells[..]) && |rest| <= |rng| && filled == old(filled) + i
        invariant old(NoConflict(dim, cells[..])) && NoConflict(dim, source.cells[..]) ==> NoConflict(dim, cells[..])
        invariant Extends(cells[..], old(cells[..]))
        decreases |rest|
      {
        var added;
        ghost var before := cells[..];
        added, rest := AddClue(source, rest);
        ExtendsTransitive(cells[..], before, old(cells[..]));
        if added {
          i := i + 1;
        }
      }
      ok := i >= target;
    }

    /** The second loop of `generate` (objects.cpp:443-457): `solve(FIND_UNIQUE)` is run
        on a copy, and while it reports no solution one more clue is added. On success
        the last test reported `count > 0` solutions of the puzzle, returned as ghost
        results. */
    method AddUntilUnique(source: Grid, rng: seq<nat>)
      returns (ok: bool, rest: seq<nat>, ghost count: nat, ghost sols: seq<seq<Cell>>)
      requires Consistent() && source.Valid() && source.dim == dim && source != this && source.cells != cells
      requires Solved(dim, source.cells[..]) && CluesOf(source.cells[..])
      modifies this, cells, alternatives
      ensures Consistent() && cells == old(cells) && alternatives == old(alternatives)
      ensures CluesOf(source.cells[..]) && |rest| <= |rng| && old(filled) <= filled
      ensures old(NoConflict(dim, cells[..])) && NoConflict(dim, source.cells[..]) ==> NoConflict(dim, cells[..])
      ensures Extends(cells[..], old(cells[..]))
      ensures ok ==> count != 0 && count == |sols| && SolutionsOf(dim, sols, cells[..])
    {
      rest := rng;
      count, sols := 0, [];
      var found := false;
      while !found
        invariant Consistent() && cells == old(cells) && alternatives == old(alternatives)
        invariant CluesOf(source.cells[..]) && |rest| <= |rng| && old(filled) <= filled
        invariant old(NoConflict(dim, cells[..])) && NoConflict(dim, source.cells[..]) ==> NoConflict(dim, cells[..])
        invariant found ==> count != 0 && count == |sols| && SolutionsOf(dim, sols, cells[..])
        invariant Extends(cells[..], old(cells[..]))
        decreases |rest|, if found then 0 else 1
      {
        var test := new Grid.Copy(this);
        var n, testSols, r := test.Solve(FindUnique, rest);
        if n != 0 {
          found := true;
          count, sols := n, testSols;
        } else {
          var done := false;
          ghost var before := |rest|;
          while !done
            invariant Consistent() && cells == old(cells) && alternatives == old(alternatives)
            invariant CluesOf(source.cells[..]) && |rest| <= before <= |rng| && old(filled) <= filled
            invariant old(NoConflict(dim, cells[..])) && NoConflict(dim, source.cells[..]) ==> NoConflict(dim, cells[..])
            invariant done ==> |rest| < before
            invariant Extends(cells[..], old(cells[..]))
            decreases |rest|, if done then 0 else 1
          {
            if |rest| == 0 {
              return false, rest, count, sols;
            }
            ghost var previous := cells[..];
            done, rest := AddClue(source, rest);
            ExtendsTransitive(cells[..], previous, old(cells[..]));
          }
        }
      }
      ok := true;
    }

    /** The two loops of `generate` (objects.cpp:432-457) on this grid: `dim^3 + difficulty`
        clues, then one more at a time until `solve(FIND_UNIQUE)` reports a nonzero count. */
    method AddPuzzleClues(source: Grid, difficulty: nat, rng: seq<nat>)
      returns (ok: bool, rest: seq<nat>, ghost count: nat, ghost sols: seq<seq<Cell>>)
      requires Consistent() && source.Valid() && source.dim == dim && source != this && source.cells != cells
      requires Solved(dim, source.cells[..]) && CluesOf(source.cells[..])
      modifies this, cells, alternatives
      ensures Consistent() && cells == old(cells) && alternatives == old(alternatives)
      ensures CluesOf(source.cells[..]) && |rest| <= |rng|
      ensures ok ==> filled >= old(filled) + dim * dim * dim + difficulty
      ensures old(NoConflict(dim, cells[..])) && NoConflict(dim, source.cells[..]) ==> NoConflict(dim, cells[..])
      ensures Extends(cells[..], old(cells[..]))
      ensures ok ==> count != 0 && count == |sols| && SolutionsOf(dim, sols, cells[..])
    {
      count, sols := 0, [];
      ok, rest := AddClues(source, source.dim2 * source.dim + difficulty, rng);
      if ok {
        ghost var middle := cells[..];
        ok, rest, count, sols := AddUntilUnique(source, rest);
        ExtendsTransitive(cells[..], middle, old(cells[..]));
      }
    }

    /** The full grid of `generate` (objects.cpp:427-428): a fresh grid filled by `fill`
        as written, so on success its table is released and its counter is still 0. */
    static method FilledGrid(dimension: nat, rng: seq<nat>) returns (ok: bool, source: Grid, rest: seq<nat>)
      requires dimension > 0
      ensures fresh(source) && fresh(source.cells) && source.Valid() && source.dim == dimension
      ensures |rest| <= |rng|
      ensures ok ==> Solved(dimension, source.cells[..]) && NoConflict(dimension, source.cells[..])
      ensures ok ==> source.alternatives == null && source.filled == 0
    {
      source := new Grid(dimension);
      ok, rest := source.Fill(rng);
    }

    /** `generate(dimension, difficulty, solution)` (objects.cpp:425-460), with the random
        draws taken from `rng`. A full grid is made by `fill`; clues are copied from it
        into a fresh grid until `dimension^3 + difficulty` are placed, then one more at a
        time until `solve(FIND_UNIQUE)` reports a nonzero count; those solutions are the
        ghost results. `ok` is false when the stream runs out first or when `fill` fails.
        The solution grid is a copy of the filled grid, whose table `fill` released.
        Success needs `dimension^3 + difficulty <= dimension^4` clues to fit in the grid;
        beyond that the source's first clue loop never ends. */
    static method Generate(dimension: nat, difficulty: nat, rng: seq<nat>)
      returns (ok: bool, generated: Grid, solution: Grid, rest: seq<nat>, ghost count: nat, ghost sols: seq<seq<Cell>>)
      requires dimension > 0
      ensures generated.Valid() && generated.dim == dimension && solution.Valid() && solution.dim == dimension
      ensures fresh(generated) && fresh(solution)
      ensures |rest| <= |rng|
      ensures ok ==> Solved(dimension, solution.cells[..]) && NoConflict(dimension, solution.cells[..])
      ensures ok ==> generated.Consistent() && NoConflict(dimension, generated.cells[..])
      ensures ok ==> generated.CluesOf(solution.cells[..])
      ensures ok ==> generated.filled >= dimension * dimension * dimension + difficulty
      ensures ok ==> count != 0 && count == |sols| && SolutionsOf(dimension, sols, generated.cells[..])
      ensures ok ==> solution.alternatives == null && solution.filled == 0
      ensures ok ==> dimension * dimension * dimension + difficulty <= dimension * dimension * (dimension * dimension)
    {
      var filledOk, source;
      filledOk, source, rest := FilledGrid(dimension, rng);
      solution := new Grid.Assigned(source);
      generated := new Grid(dimension);
      if !filledOk {
        return false, generated, solution, rest, 0, [];
      }
      ok, rest, count, sols := generated.AddPuzzleClues(source, difficulty, rest);
    }
  }
}
