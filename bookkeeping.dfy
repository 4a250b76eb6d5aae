/** The derived state of a grid, stated over snapshots of its cells and of its
    alternatives table, and the effect of `Grid::set_value` (objects.cpp:188-240)
    on that state. A grid of block size `dim` has side `dim * dim` and
    `dim * dim * (dim * dim)` cells. */
module Bookkeeping {
  import opened Coordinates
  import opened Counting
  import opened Cells

  // ---------------------------------------------------------------------------
  // Invariants of the derived state
  // ---------------------------------------------------------------------------

  /** One well-formed cell per grid position. */
  ghost predicate CellsOk(dim: nat, cs: seq<Cell>)
  {
    |cs| == dim * dim * (dim * dim) && forall i :: 0 <= i < |cs| ==> CellOk(dim * dim, cs[i])
  }

  /** Position `p` of the mask tells whether the cell at position `p` of unit `u` of
      type `t` still allows `v`. */
  function UnitMask(dim: nat, cs: seq<Cell>, t: nat, u: nat, v: nat): (m: seq<bool>)
    requires dim > 0
    ensures |m| == dim * dim
  {
    seq(dim * dim, p requires 0 <= p => CellAt(dim, t, u, p) < |cs| && Allows(cs[CellAt(dim, t, u, p)], v))
  }

  /** The level an alternative should have: the number of cells of its unit that still
      allow its value. */
  function Tally(dim: nat, cs: seq<Cell>, alt: Alternative): nat
    requires dim > 0
  {
    CountTrue(UnitMask(dim, cs, alt.kind, alt.unit, alt.value))
  }

  /** Every entry of the alternatives table holds the exact tally of its triple. */
  ghost predicate TallyOk(dim: nat, cs: seq<Cell>, alts: seq<nat>)
  {
    && dim > 0
    && |alts| == 3 * (dim * dim) * (dim * dim)
    && forall a :: 0 <= a < |alts| ==> alts[a] == Tally(dim, cs, IndAlternative(dim * dim, a))
  }

  /** No cell still allows a value that a peer holds. */
  ghost predicate Eliminated(dim: nat, cs: seq<Cell>)
  {
    dim > 0 &&
    forall a, b, v :: 0 <= a < |cs| && 0 <= b < |cs| && a != b && SameUnit(dim, a, b) && Allows(cs[a], v)
      ==> cs[b].value != v
  }

  function FilledMask(cs: seq<Cell>): (m: seq<bool>)
    ensures |m| == |cs|
  {
    seq(|cs|, i requires 0 <= i < |cs| => cs[i].value != 0)
  }

  /** Number of cells holding a value. */
  function CountFilled(cs: seq<Cell>): nat
  {
    CountTrue(FilledMask(cs))
  }

  /** The bookkeeping the solver relies on: well-formed cells, propagated eliminations,
      an exact alternatives table and an exact `_filled` counter. */
  ghost predicate Consistent(dim: nat, cs: seq<Cell>, alts: seq<nat>, filled: nat)
  {
    dim > 0 && CellsOk(dim, cs) && Eliminated(dim, cs) && TallyOk(dim, cs, alts) && filled == CountFilled(cs)
  }

  /** No unit holds the same value twice. */
  ghost predicate NoConflict(dim: nat, cs: seq<Cell>)
  {
    dim > 0 &&
    forall a, b :: 0 <= a < |cs| && 0 <= b < |cs| && a != b && SameUnit(dim, a, b) && cs[a].value != 0
      ==> cs[a].value != cs[b].value
  }

  /** Every cell holds a value. */
  ghost predicate Full(cs: seq<Cell>)
  {
    forall i :: 0 <= i < |cs| ==> cs[i].value != 0
  }

  /** `big` keeps every value already placed in `small`. */
  ghost predicate Extends(big: seq<Cell>, small: seq<Cell>)
  {
    |big| == |small| && forall i :: 0 <= i < |small| && small[i].value != 0 ==> big[i].value == small[i].value
  }

  /** A dead end: an empty cell with no possibility left, which no placement can fill. */
  ghost predicate Dead(cs: seq<Cell>)
  {
    exists c :: 0 <= c < |cs| && cs[c].value == 0 && cs[c].npossible == 0
  }

  /** A solution: a full, well-formed grid. */
  ghost predicate Solved(dim: nat, cs: seq<Cell>)
  {
    dim > 0 && CellsOk(dim, cs) && Full(cs)
  }

  lemma ExtendsTransitive(a: seq<Cell>, b: seq<Cell>, c: seq<Cell>)
    requires Extends(a, b) && Extends(b, c)
    ensures Extends(a, c)
  {
  }

  lemma SameUnitOfType(dim: nat, t: nat, a: nat, b: nat)
    requires dim > 0 && t < 3 && UnitOf(dim, t, a) == UnitOf(dim, t, b)
    ensures SameUnit(dim, a, b)
  {
  }

  /** `_filled` reaches the number of cells exactly when every cell holds a value. */
  lemma FullWhenCounted(cs: seq<Cell>)
    ensures CountFilled(cs) == |cs| <==> Full(cs)
  {
    var m := FilledMask(cs);
    if Full(cs) {
      CountTrueAll(m);
    }
    if !Full(cs) {
      var i :| 0 <= i < |cs| && cs[i].value == 0;
      CountTrueSplit(m, i);
      CountTrueSplit(m[i..], 1);
      assert CountTrue(m[i..][..1]) == 0;
    }
  }

  // ---------------------------------------------------------------------------
  // The fresh grid (objects.cpp:62-72, 105-113)
  // ---------------------------------------------------------------------------

  /** A grid whose cells are all empty with every value possible, whose table holds
      `dim2` everywhere and whose counter is 0 satisfies every invariant. */
  lemma FreshConsistent(dim: nat, cs: seq<Cell>, alts: seq<nat>)
    requires dim > 0
    requires |cs| == dim * dim * (dim * dim) && forall i :: 0 <= i < |cs| ==> cs[i] == EmptyCell(dim * dim)
    requires |alts| == 3 * (dim * dim) * (dim * dim) && forall a :: 0 <= a < |alts| ==> alts[a] == dim * dim
    ensures Consistent(dim, cs, alts, 0)
  {
    var n := dim * dim;
    forall i | 0 <= i < |cs|
      ensures CellOk(n, cs[i])
    {
      CountTrueAll(cs[i].possible);
    }
    forall a | 0 <= a < |alts|
      ensures alts[a] == Tally(dim, cs, IndAlternative(n, a))
    {
      var alt := IndAlternative(n, a);
      IndAlternativeRoundTrip(n, a);
      var m := UnitMask(dim, cs, alt.kind, alt.unit, alt.value);
      forall p | 0 <= p < n
        ensures m[p]
      {
        UnitCell(dim, alt.kind, alt.unit, p);
      }
      CountTrueAll(m);
    }
    CountTrueNone(FilledMask(cs));
  }

  // ---------------------------------------------------------------------------
  // A solved grid (objects.cpp:406-413)
  // ---------------------------------------------------------------------------

  /** A full grid allows no value anywhere, so with every level at 0 and the counter at
      the number of cells it satisfies every invariant. */
  lemma SolvedConsistent(dim: nat, cs: seq<Cell>, alts: seq<nat>)
    requires Solved(dim, cs)
    requires |alts| == 3 * (dim * dim) * (dim * dim) && forall a :: 0 <= a < |alts| ==> alts[a] == 0
    ensures Consistent(dim, cs, alts, |cs|)
  {
    forall a | 0 <= a < |alts|
      ensures alts[a] == Tally(dim, cs, IndAlternative(dim * dim, a))
    {
      var alt := IndAlternative(dim * dim, a);
      CountTrueNone(UnitMask(dim, cs, alt.kind, alt.unit, alt.value));
    }
    FullWhenCounted(cs);
  }

  /** A full grid whose counter is below the number of cells is not consistent, whatever
      its table holds. */
  lemma StaleCounterInconsistent(dim: nat, cs: seq<Cell>, alts: seq<nat>, filled: nat)
    requires Solved(dim, cs) && filled < |cs|
    ensures !Consistent(dim, cs, alts, filled)
  {
    FullWhenCounted(cs);
  }

  // ---------------------------------------------------------------------------
  // set_value as a function of the state before the call
  // ---------------------------------------------------------------------------

  /** The peers of `x` that lose the possibility `pv` when `x` receives it. */
  ghost function LossSet(dim: nat, cs: seq<Cell>, x: nat, pv: nat): set<nat>
    requires dim > 0
  {
    set c | 0 <= c < |cs| && c != x && SameUnit(dim, c, x) && Allows(cs[c], pv)
  }

  /** Which positions of unit (t, u) hold a cell of `lost`. */
  ghost function LostMask(dim: nat, lost: set<nat>, t: nat, u: nat): (m: seq<bool>)
    requires dim > 0
    ensures |m| == dim * dim
  {
    seq(dim * dim, p requires 0 <= p => CellAt(dim, t, u, p) in lost)
  }

  /** Cells after `set_value(x, pv, fixed)`: `x` holds `pv`, has released its possibility
      array and counts no possibility; every peer that allowed `pv` no longer does and
      counts one possibility less; nothing else changes. */
  ghost function SetCells(dim: nat, cs: seq<Cell>, x: nat, pv: nat, fixed: bool): (r: seq<Cell>)
    requires dim > 0 && CellsOk(dim, cs) && x < |cs| && cs[x].value == 0 && 1 <= pv <= dim * dim
    ensures |r| == |cs| && CellsOk(dim, r)
    ensures r[x] == Cell(pv, [], 0, fixed)
    ensures forall c :: 0 <= c < |cs| && SameUnit(dim, c, x) ==> !Allows(r[c], pv)
    ensures forall c :: 0 <= c < |cs| && c != x ==> r[c].value == cs[c].value && r[c].fixed == cs[c].fixed
    ensures forall c, v :: 0 <= c < |cs| && c != x && v != pv ==> Allows(r[c], v) == Allows(cs[c], v)
    ensures forall c :: 0 <= c < |cs| && c != x ==>
      r[c].npossible == if c in LossSet(dim, cs, x, pv) then cs[c].npossible - 1 else cs[c].npossible
  {
    var r := seq(|cs|, c requires 0 <= c < |cs| =>
      if c == x then Cell(pv, [], 0, fixed)
      else if SameUnit(dim, c, x) && Allows(cs[c], pv) then Cleared(cs[c], pv)
      else cs[c]);
    assert CellOk(dim * dim, r[x]) by { assert r[x].possible == []; }
    r
  }

  /** `n` lowered by one `k` times, never below 0 (the `if (n!=0)` guards). */
  function SatSub(n: nat, k: nat): (r: nat)
    ensures r <= n && (k <= n ==> r == n - k)
  {
    if n >= k then n - k else 0
  }

  /** The new level of one alternative after `set_value(x, pv)`: 0 for `pv` in the units
      of `x`; one less (stopping at 0) for the other values `x` allowed, in its units;
      one less per peer of `x` that loses `pv`, for `pv` in the other units. */
  ghost function NewLevel(dim: nat, cs: seq<Cell>, x: nat, pv: nat, alt: Alternative, level: nat): nat
    requires dim > 0 && x < |cs|
  {
    if alt.unit == UnitOf(dim, alt.kind, x) && alt.value == pv then 0
    else if alt.unit == UnitOf(dim, alt.kind, x) && Allows(cs[x], alt.value) then SatSub(level, 1)
    else if alt.value == pv then SatSub(level, CountTrue(LostMask(dim, LossSet(dim, cs, x, pv), alt.kind, alt.unit)))
    else level
  }

  /** The alternatives table after `set_value(x, pv)`. */
  ghost function SetAlternatives(dim: nat, cs: seq<Cell>, alts: seq<nat>, x: nat, pv: nat): (r: seq<nat>)
    requires dim > 0 && x < |cs|
    ensures |r| == |alts|
    ensures forall a :: 0 <= a < |alts| ==> r[a] <= alts[a]
  {
    seq(|alts|, a requires 0 <= a < |alts| => NewLevel(dim, cs, x, pv, IndAlternative(dim * dim, a), alts[a]))
  }

  /** `set_value(x, pv)` sets the level of `pv` to 0 in the three units of `x`, and only
      changes the levels of `pv` and of the other values `x` still allowed in its own units,
      and the levels of `pv` in units holding a peer that loses `pv`. */
  lemma SetAlternativesTouches(dim: nat, cs: seq<Cell>, alts: seq<nat>, x: nat, pv: nat, t: nat)
    requires dim > 0 && x < |cs| && |cs| == dim * dim * (dim * dim) && t < 3
    requires |alts| == 3 * (dim * dim) * (dim * dim) && 1 <= pv <= dim * dim
    ensures AltIndex(dim * dim, t, UnitOf(dim, t, x), pv) < |alts|
    ensures SetAlternatives(dim, cs, alts, x, pv)[AltIndex(dim * dim, t, UnitOf(dim, t, x), pv)] == 0
    ensures forall a :: 0 <= a < |alts| && SetAlternatives(dim, cs, alts, x, pv)[a] != alts[a] ==>
      var alt := IndAlternative(dim * dim, a);
      || (alt.unit == UnitOf(dim, alt.kind, x) && (alt.value == pv || Allows(cs[x], alt.value)))
      || (alt.value == pv && exists p :: 0 <= p < dim * dim && CellAt(dim, alt.kind, alt.unit, p) in LossSet(dim, cs, x, pv))
  {
    CellInUnit(dim, t, x);
    AltIndexRoundTrip(dim * dim, t, UnitOf(dim, t, x), pv);
    var r := SetAlternatives(dim, cs, alts, x, pv);
    forall a | 0 <= a < |alts| && r[a] != alts[a] && IndAlternative(dim * dim, a).value == pv
        && IndAlternative(dim * dim, a).unit != UnitOf(dim, IndAlternative(dim * dim, a).kind, x)
      ensures exists p :: (0 <= p < dim * dim
        && CellAt(dim, IndAlternative(dim * dim, a).kind, IndAlternative(dim * dim, a).unit, p) in LossSet(dim, cs, x, pv))
    {
      var alt := IndAlternative(dim * dim, a);
      var m := LostMask(dim, LossSet(dim, cs, x, pv), alt.kind, alt.unit);
      CountTruePositive(m);
    }
  }

  // ---------------------------------------------------------------------------
  // set_value keeps the bookkeeping exact
  // ---------------------------------------------------------------------------

  /** After `set_value`, no cell allows a value held by one of its peers. */
  lemma SetValueKeepsElimination(dim: nat, cs: seq<Cell>, x: nat, pv: nat, fixed: bool)
    requires dim > 0 && CellsOk(dim, cs) && Eliminated(dim, cs)
    requires x < |cs| && cs[x].value == 0 && 1 <= pv <= dim * dim
    ensures Eliminated(dim, SetCells(dim, cs, x, pv, fixed))
  {
    var r := SetCells(dim, cs, x, pv, fixed);
    forall a, b, v | 0 <= a < |r| && 0 <= b < |r| && a != b && SameUnit(dim, a, b) && Allows(r[a], v)
      ensures r[b].value != v
    {
      assert a != x;
      if b == x {
        assert SameUnit(dim, a, x);
      } else {
        assert v != pv ==> Allows(cs[a], v);
      }
    }
  }

  /** `set_value` on an empty cell adds one to the number of filled cells. */
  lemma SetValueCountsFilled(dim: nat, cs: seq<Cell>, x: nat, pv: nat, fixed: bool)
    requires dim > 0 && CellsOk(dim, cs) && x < |cs| && cs[x].value == 0 && 1 <= pv <= dim * dim
    ensures CountFilled(SetCells(dim, cs, x, pv, fixed)) == CountFilled(cs) + 1
  {
    var r := SetCells(dim, cs, x, pv, fixed);
    CountTrueFlip(FilledMask(cs), FilledMask(r), x);
  }

  /** The mask of a unit after `set_value`, position by position. */
  lemma MaskAfterSetValue(dim: nat, cs: seq<Cell>, x: nat, pv: nat, fixed: bool, t: nat, u: nat, v: nat, p: nat)
    requires dim > 0 && CellsOk(dim, cs) && x < |cs| && cs[x].value == 0 && 1 <= pv <= dim * dim
    requires t < 3 && u < dim * dim && p < dim * dim
    ensures CellAt(dim, t, u, p) < |cs|
    ensures CellAt(dim, t, u, p) == x <==> u == UnitOf(dim, t, x) && p == PosOf(dim, t, x)
    ensures UnitMask(dim, SetCells(dim, cs, x, pv, fixed), t, u, v)[p] ==
      (CellAt(dim, t, u, p) != x && UnitMask(dim, cs, t, u, v)[p]
       && !(v == pv && SameUnit(dim, CellAt(dim, t, u, p), x)))
  {
    UnitCell(dim, t, u, p);
    CellInUnit(dim, t, x);
  }

  /** The units of `x` no longer allow `pv` anywhere. */
  lemma TallyAfterOwnPlaced(dim: nat, cs: seq<Cell>, x: nat, pv: nat, fixed: bool, t: nat)
    requires dim > 0 && CellsOk(dim, cs) && x < |cs| && cs[x].value == 0 && 1 <= pv <= dim * dim && t < 3
    ensures CountTrue(UnitMask(dim, SetCells(dim, cs, x, pv, fixed), t, UnitOf(dim, t, x), pv)) == 0
  {
    CellInUnit(dim, t, x);
    var u := UnitOf(dim, t, x);
    var after := UnitMask(dim, SetCells(dim, cs, x, pv, fixed), t, u, pv);
    forall p | 0 <= p < dim * dim
      ensures !after[p]
    {
      var c := CellAt(dim, t, u, p);
      UnitCell(dim, t, u, p);
      SameUnitOfType(dim, t, c, x);
      MaskAfterSetValue(dim, cs, x, pv, fixed, t, u, pv, p);
    }
    CountTrueNone(after);
  }

  /** In a unit of `x`, a value `v != pv` that `x` allowed loses exactly the one cell `x`. */
  lemma TallyAfterOwnOther(dim: nat, cs: seq<Cell>, x: nat, pv: nat, fixed: bool, t: nat, v: nat)
    requires dim > 0 && CellsOk(dim, cs) && x < |cs| && cs[x].value == 0 && 1 <= pv <= dim * dim && t < 3
    requires v != pv && Allows(cs[x], v)
    ensures CountTrue(UnitMask(dim, SetCells(dim, cs, x, pv, fixed), t, UnitOf(dim, t, x), v)) + 1
      == CountTrue(UnitMask(dim, cs, t, UnitOf(dim, t, x), v))
  {
    CellInUnit(dim, t, x);
    var u, px := UnitOf(dim, t, x), PosOf(dim, t, x);
    var before, after := UnitMask(dim, cs, t, u, v), UnitMask(dim, SetCells(dim, cs, x, pv, fixed), t, u, v);
    forall p | 0 <= p < dim * dim
      ensures after[p] == (p != px && before[p])
    {
      MaskAfterSetValue(dim, cs, x, pv, fixed, t, u, v, p);
    }
    CountTrueFlip(after, before, px);
  }

  /** In a unit that is not a unit of `x`, `pv` loses exactly the peers of `x` that allowed it. */
  lemma TallyAfterOtherPlaced(dim: nat, cs: seq<Cell>, x: nat, pv: nat, fixed: bool, t: nat, u: nat)
    requires dim > 0 && CellsOk(dim, cs) && x < |cs| && cs[x].value == 0 && 1 <= pv <= dim * dim && t < 3
    requires u < dim * dim && u != UnitOf(dim, t, x)
    ensures CountTrue(UnitMask(dim, SetCells(dim, cs, x, pv, fixed), t, u, pv))
      == CountTrue(UnitMask(dim, cs, t, u, pv)) - CountTrue(LostMask(dim, LossSet(dim, cs, x, pv), t, u))
    ensures CountTrue(LostMask(dim, LossSet(dim, cs, x, pv), t, u)) <= CountTrue(UnitMask(dim, cs, t, u, pv))
  {
    var before, after := UnitMask(dim, cs, t, u, pv), UnitMask(dim, SetCells(dim, cs, x, pv, fixed), t, u, pv);
    var loss := LostMask(dim, LossSet(dim, cs, x, pv), t, u);
    forall p | 0 <= p < dim * dim
      ensures loss[p] ==> before[p]
      ensures after[p] == (before[p] && !loss[p])
    {
      MaskAfterSetValue(dim, cs, x, pv, fixed, t, u, pv, p);
    }
    CountTrueMinus(before, loss, after);
  }

  /** Every other triple keeps its tally. */
  lemma TallyAfterUntouched(dim: nat, cs: seq<Cell>, x: nat, pv: nat, fixed: bool, t: nat, u: nat, v: nat)
    requires dim > 0 && CellsOk(dim, cs) && x < |cs| && cs[x].value == 0 && 1 <= pv <= dim * dim && t < 3
    requires u < dim * dim && v != pv && (u == UnitOf(dim, t, x) ==> !Allows(cs[x], v))
    ensures CountTrue(UnitMask(dim, SetCells(dim, cs, x, pv, fixed), t, u, v)) == CountTrue(UnitMask(dim, cs, t, u, v))
  {
    var before, after := UnitMask(dim, cs, t, u, v), UnitMask(dim, SetCells(dim, cs, x, pv, fixed), t, u, v);
    forall p | 0 <= p < dim * dim
      ensures after[p] == before[p]
    {
      MaskAfterSetValue(dim, cs, x, pv, fixed, t, u, v, p);
    }
    CountTrueSame(after, before);
  }

  /** The table entry of one triple after `set_value` is the exact tally of the new cells. */
  lemma SetValueKeepsTallyAt(dim: nat, cs: seq<Cell>, alts: seq<nat>, x: nat, pv: nat, fixed: bool, a: nat)
    requires dim > 0 && CellsOk(dim, cs) && TallyOk(dim, cs, alts)
    requires x < |cs| && cs[x].value == 0 && 1 <= pv <= dim * dim && a < |alts|
    ensures SetAlternatives(dim, cs, alts, x, pv)[a] == Tally(dim, SetCells(dim, cs, x, pv, fixed), IndAlternative(dim * dim, a))
  {
    var alt := IndAlternative(dim * dim, a);
    IndAlternativeRoundTrip(dim * dim, a);
    var t, u, v := alt.kind, alt.unit, alt.value;
    assert alts[a] == Tally(dim, cs, alt);
    var ux := UnitOf(dim, t, x);
    if u == ux && v == pv {
      TallyAfterOwnPlaced(dim, cs, x, pv, fixed, t);
    } else if u == ux && Allows(cs[x], v) {
      TallyAfterOwnOther(dim, cs, x, pv, fixed, t, v);
    } else if v == pv {
      TallyAfterOtherPlaced(dim, cs, x, pv, fixed, t, u);
    } else {
      TallyAfterUntouched(dim, cs, x, pv, fixed, t, u, v);
    }
  }

  /** `set_value` on an empty cell, with any value of `1 .. dim2`, keeps every
      invariant of the bookkeeping, and counts one more filled cell. */
  lemma SetValueKeepsConsistency(dim: nat, cs: seq<Cell>, alts: seq<nat>, filled: nat, x: nat, pv: nat, fixed: bool)
    requires Consistent(dim, cs, alts, filled)
    requires x < |cs| && cs[x].value == 0 && 1 <= pv <= dim * dim
    ensures Consistent(dim, SetCells(dim, cs, x, pv, fixed), SetAlternatives(dim, cs, alts, x, pv), filled + 1)
  {
    SetValueKeepsElimination(dim, cs, x, pv, fixed);
    SetValueCountsFilled(dim, cs, x, pv, fixed);
    forall a | 0 <= a < |alts|
      ensures SetAlternatives(dim, cs, alts, x, pv)[a] == Tally(dim, SetCells(dim, cs, x, pv, fixed), IndAlternative(dim * dim, a))
    {
      SetValueKeepsTallyAt(dim, cs, alts, x, pv, fixed, a);
    }
  }

  /** Placing a value the cell still allows never puts a value twice in a unit, and
      keeps every value already placed. */
  lemma SetValueKeepsNoConflict(dim: nat, cs: seq<Cell>, x: nat, pv: nat, fixed: bool)
    requires dim > 0 && CellsOk(dim, cs) && Eliminated(dim, cs) && NoConflict(dim, cs)
    requires x < |cs| && cs[x].value == 0 && Allows(cs[x], pv)
    ensures NoConflict(dim, SetCells(dim, cs, x, pv, fixed))
    ensures Extends(SetCells(dim, cs, x, pv, fixed), cs)
  {
    var r := SetCells(dim, cs, x, pv, fixed);
    forall a, b | 0 <= a < |r| && 0 <= b < |r| && a != b && SameUnit(dim, a, b) && r[a].value != 0
      ensures r[a].value != r[b].value
    {
      if a == x {
        assert SameUnit(dim, b, x) by { assert SameUnit(dim, a, b); }
        assert cs[b].value != pv;
      } else if b == x {
        assert cs[a].value != pv;
      }
    }
  }

  /** Placing a value keeps every value already placed. */
  lemma SetValueExtends(dim: nat, cs: seq<Cell>, x: nat, pv: nat, fixed: bool)
    requires dim > 0 && CellsOk(dim, cs) && x < |cs| && cs[x].value == 0 && 1 <= pv <= dim * dim
    ensures Extends(SetCells(dim, cs, x, pv, fixed), cs)
  {
  }

  /** Placing a value the cell still allows leaves every dead cell dead: the target has a
      possibility, so it is another cell, and a cell without possibilities loses none. */
  lemma SetValueKeepsDead(dim: nat, cs: seq<Cell>, x: nat, pv: nat, fixed: bool)
    requires dim > 0 && CellsOk(dim, cs) && x < |cs| && cs[x].value == 0 && 1 <= pv <= dim * dim
    requires Allows(cs[x], pv) && Dead(cs)
    ensures Dead(SetCells(dim, cs, x, pv, fixed))
  {
    var c :| 0 <= c < |cs| && cs[c].value == 0 && cs[c].npossible == 0;
    CountTruePositive(cs[x].possible);
    assert cs[x].possible[pv - 1];
    CountTruePositive(cs[c].possible);
    assert c != x && !Allows(cs[c], pv);
    var r := SetCells(dim, cs, x, pv, fixed);
    assert r[c].value == 0 && r[c].npossible == 0;
  }

  /** Copying a value from a conflict-free grid whose values agree with those already set
      never puts a value twice in a unit. */
  lemma ClueKeepsNoConflict(dim: nat, cs: seq<Cell>, sol: seq<Cell>, x: nat, v: nat)
    requires dim > 0 && CellsOk(dim, cs) && x < |cs| && cs[x].value == 0 && 1 <= v <= dim * dim
    requires |sol| == |cs| && sol[x].value == v && NoConflict(dim, cs) && NoConflict(dim, sol)
    requires forall c :: 0 <= c < |cs| && cs[c].value != 0 ==> cs[c].value == sol[c].value
    ensures NoConflict(dim, SetCells(dim, cs, x, v, true))
  {
    var r := SetCells(dim, cs, x, v, true);
    forall a, b | 0 <= a < |r| && 0 <= b < |r| && a != b && SameUnit(dim, a, b) && r[a].value != 0
      ensures r[a].value != r[b].value
    {
      if a == x {
        if r[b].value != 0 {
          assert r[b].value == sol[b].value;
        }
      } else if b == x {
        assert r[a].value == sol[a].value;
      } else {
        assert r[a].value == cs[a].value && r[b].value == cs[b].value;
      }
    }
  }
}
