/** The intermediate states of `Grid::set_value` (objects.cpp:188-240). The method works
    in two passes: the first lowers, in the three units of the target cell, the levels
    of the values the cell still allowed (objects.cpp:193-209); the second clears the
    new value from every peer, lowers the levels of that value in the peer's units and
    zeroes it in the target's units (objects.cpp:211-239). Each function below is the
    state after a prefix of one pass; the lemmas say how one loop step moves from one
    prefix to the next, and that the complete passes give `SetCells` and
    `SetAlternatives`. */
module Phases {
  import opened Coordinates
  import opened Counting
  import opened Cells
  import opened Bookkeeping

  /** An in-range table index holds the triple `(t, u, v)` exactly when it is the index
      of that triple. */
  lemma AltAt(dim: nat, a: nat, t: nat, u: nat, v: nat)
    requires dim > 0 && a < 3 * (dim * dim) * (dim * dim)
    requires t < 3 && u < dim * dim && 1 <= v <= dim * dim
    ensures AltIndex(dim * dim, t, u, v) < 3 * (dim * dim) * (dim * dim)
    ensures IndAlternative(dim * dim, a) == Alternative(t, u, v) <==> a == AltIndex(dim * dim, t, u, v)
  {
    IndAlternativeRoundTrip(dim * dim, a);
    AltIndexRoundTrip(dim * dim, t, u, v);
  }

  // ---------------------------------------------------------------------------
  // First pass: the other candidates of the target cell
  // ---------------------------------------------------------------------------

  /** The table once the first pass has handled every unit type below `t` and, in unit
      type `t`, the values up to `i`: each level of a value `v != pv` the target cell
      `cx` allowed, in a unit of `x`, is one lower (stopping at 0). */
  ghost function OthersLowered(dim: nat, cx: Cell, alts: seq<nat>, x: nat, pv: nat, t: nat, i: nat): (r: seq<nat>)
    requires dim > 0
    ensures |r| == |alts|
  {
    seq(|alts|, a requires 0 <= a < |alts| =>
      var alt := IndAlternative(dim * dim, a);
      if alt.value != pv && alt.unit == UnitOf(dim, alt.kind, x) && Allows(cx, alt.value)
         && (alt.kind < t || (alt.kind == t && alt.value <= i))
      then SatSub(alts[a], 1) else alts[a])
  }

  lemma OthersLoweredStart(dim: nat, cx: Cell, alts: seq<nat>, x: nat, pv: nat)
    requires dim > 0 && |alts| == 3 * (dim * dim) * (dim * dim)
    ensures OthersLowered(dim, cx, alts, x, pv, 0, 0) == alts
  {
    forall a | 0 <= a < |alts|
      ensures OthersLowered(dim, cx, alts, x, pv, 0, 0)[a] == alts[a]
    {
      IndAlternativeRoundTrip(dim * dim, a);
    }
  }

  /** One step of the inner loop of the first pass (objects.cpp:196-199): value `i + 1`
      of unit type `t`. */
  lemma OthersLoweredStep(dim: nat, cx: Cell, alts: seq<nat>, x: nat, pv: nat, t: nat, i: nat)
    requires dim > 0 && |alts| == 3 * (dim * dim) * (dim * dim) && x < dim * dim * (dim * dim)
    requires t < 3 && i < dim * dim
    ensures UnitOf(dim, t, x) < dim * dim
    ensures AltIndex(dim * dim, t, UnitOf(dim, t, x), i + 1) < |alts|
    ensures var before := OthersLowered(dim, cx, alts, x, pv, t, i);
            var k := AltIndex(dim * dim, t, UnitOf(dim, t, x), i + 1);
            OthersLowered(dim, cx, alts, x, pv, t, i + 1)
              == if i + 1 != pv && Allows(cx, i + 1) then before[k := SatSub(before[k], 1)] else before
  {
    CellInUnit(dim, t, x);
    var u := UnitOf(dim, t, x);
    var k := AltIndex(dim * dim, t, u, i + 1);
    var before := OthersLowered(dim, cx, alts, x, pv, t, i);
    var after := OthersLowered(dim, cx, alts, x, pv, t, i + 1);
    AltAt(dim, 0, t, u, i + 1);
    forall a | 0 <= a < |alts|
      ensures after[a] == (if i + 1 != pv && Allows(cx, i + 1) then before[k := SatSub(before[k], 1)] else before)[a]
    {
      AltAt(dim, a, t, u, i + 1);
    }
  }

  /** Moving from one unit type to the next in the first pass. */
  lemma OthersLoweredNext(dim: nat, cx: Cell, alts: seq<nat>, x: nat, pv: nat, t: nat)
    requires dim > 0 && |alts| == 3 * (dim * dim) * (dim * dim)
    ensures OthersLowered(dim, cx, alts, x, pv, t, dim * dim) == OthersLowered(dim, cx, alts, x, pv, t + 1, 0)
  {
    forall a | 0 <= a < |alts|
      ensures OthersLowered(dim, cx, alts, x, pv, t, dim * dim)[a] == OthersLowered(dim, cx, alts, x, pv, t + 1, 0)[a]
    {
      IndAlternativeRoundTrip(dim * dim, a);
    }
  }

  // ---------------------------------------------------------------------------
  // Second pass: the peers that lose the new value
  // ---------------------------------------------------------------------------

  /** The cells once the peers in `lost` have had `pv` cleared. */
  ghost function ClearedPeers(dim: nat, cs: seq<Cell>, x: nat, pv: nat, fixed: bool, lost: set<nat>): (r: seq<Cell>)
    requires dim > 0 && CellsOk(dim, cs) && lost <= LossSet(dim, cs, x, pv)
    ensures |r| == |cs|
  {
    seq(|cs|, c requires 0 <= c < |cs| =>
      if c == x then Cell(pv, [], 0, fixed)
      else if c in lost then Cleared(cs[c], pv)
      else cs[c])
  }

  /** Clearing one more peer. */
  lemma ClearedPeersStep(dim: nat, cs: seq<Cell>, x: nat, pv: nat, fixed: bool, lost: set<nat>, c: nat)
    requires dim > 0 && CellsOk(dim, cs) && lost <= LossSet(dim, cs, x, pv)
    requires c in LossSet(dim, cs, x, pv) && c !in lost
    ensures var before := ClearedPeers(dim, cs, x, pv, fixed, lost);
            ClearedPeers(dim, cs, x, pv, fixed, lost + {c}) == before[c := Cleared(before[c], pv)]
  {
  }

  /** Once every peer that allowed `pv` is cleared, the cells are those of `SetCells`. */
  lemma ClearedPeersDone(dim: nat, cs: seq<Cell>, x: nat, pv: nat, fixed: bool)
    requires dim > 0 && CellsOk(dim, cs) && x < |cs| && cs[x].value == 0 && 1 <= pv <= dim * dim
    ensures ClearedPeers(dim, cs, x, pv, fixed, LossSet(dim, cs, x, pv)) == SetCells(dim, cs, x, pv, fixed)
  {
  }

  /** The peers of `x` that the second pass has visited when it is at position `i` of
      unit type `t`. */
  ghost predicate Covered(dim: nat, x: nat, c: nat, t: nat, i: nat)
    requires dim > 0
  {
    || (0 < t && UnitOf(dim, 0, c) == UnitOf(dim, 0, x))
    || (1 < t && UnitOf(dim, 1, c) == UnitOf(dim, 1, x))
    || (2 < t && UnitOf(dim, 2, c) == UnitOf(dim, 2, x))
    || (UnitOf(dim, t, c) == UnitOf(dim, t, x) && PosOf(dim, t, c) < i)
  }

  /** The table once the second pass has zeroed `pv` in the units of `x` of type below `t`,
      and has lowered the level of `pv`, in each unit, once per cell of `lost` in that
      unit; `c` is counted as lost in the unit types below `s` as well (the innermost
      loop, objects.cpp:222-231, is at unit type `s` for cell `c`). */
  ghost function PlacedLowered(dim: nat, a1: seq<nat>, x: nat, pv: nat, t: nat, lost: set<nat>, c: nat, s: nat): (r: seq<nat>)
    requires dim > 0
    ensures |r| == |a1|
  {
    seq(|a1|, a requires 0 <= a < |a1| =>
      var alt := IndAlternative(dim * dim, a);
      if alt.value != pv then a1[a]
      else if alt.kind < t && alt.unit == UnitOf(dim, alt.kind, x) then 0
      else SatSub(a1[a], CountTrue(LostMask(dim, if alt.kind < s then lost + {c} else lost, alt.kind, alt.unit))))
  }

  lemma PlacedLoweredStart(dim: nat, a1: seq<nat>, x: nat, pv: nat, c: nat)
    requires dim > 0 && |a1| == 3 * (dim * dim) * (dim * dim)
    ensures PlacedLowered(dim, a1, x, pv, 0, {}, c, 0) == a1
  {
    forall a | 0 <= a < |a1|
      ensures PlacedLowered(dim, a1, x, pv, 0, {}, c, 0)[a] == a1[a]
    {
      var alt := IndAlternative(dim * dim, a);
      CountTrueNone(LostMask(dim, {}, alt.kind, alt.unit));
    }
  }

  /** Lowering the level of `pv` in the unit of type `s` of a newly cleared cell `c`
      counts `c` as lost in that unit. */
  lemma PlacedLoweredStep(dim: nat, a1: seq<nat>, x: nat, pv: nat, t: nat, lost: set<nat>, c: nat, s: nat)
    requires dim > 0 && |a1| == 3 * (dim * dim) * (dim * dim) && 1 <= pv <= dim * dim
    requires c < dim * dim * (dim * dim) && c !in lost && s < 3
    ensures UnitOf(dim, s, c) < dim * dim
    ensures AltIndex(dim * dim, s, UnitOf(dim, s, c), pv) < |a1|
    ensures var before := PlacedLowered(dim, a1, x, pv, t, lost, c, s);
            var k := AltIndex(dim * dim, s, UnitOf(dim, s, c), pv);
            PlacedLowered(dim, a1, x, pv, t, lost, c, s + 1) == before[k := SatSub(before[k], 1)]
  {
    CellInUnit(dim, s, c);
    var u := UnitOf(dim, s, c);
    var k := AltIndex(dim * dim, s, u, pv);
    var before := PlacedLowered(dim, a1, x, pv, t, lost, c, s);
    var after := PlacedLowered(dim, a1, x, pv, t, lost, c, s + 1);
    AltAt(dim, 0, s, u, pv);
    forall a | 0 <= a < |a1|
      ensures after[a] == before[k := SatSub(before[k], 1)][a]
    {
      AltAt(dim, a, s, u, pv);
      IndAlternativeRoundTrip(dim * dim, a);
      var alt := IndAlternative(dim * dim, a);
      if a == k {
        LostMaskAdd(dim, lost, c, s);
      } else if alt.kind == s && alt.value == pv {
        LostMaskOther(dim, lost, c, s, alt.unit);
      }
    }
  }

  /** Adding a cell of the unit to `lost` flips its position in the mask of its unit. */
  lemma LostMaskAdd(dim: nat, lost: set<nat>, c: nat, s: nat)
    requires dim > 0 && c < dim * dim * (dim * dim) && c !in lost && s < 3
    ensures CountTrue(LostMask(dim, lost + {c}, s, UnitOf(dim, s, c)))
      == CountTrue(LostMask(dim, lost, s, UnitOf(dim, s, c))) + 1
  {
    CellInUnit(dim, s, c);
    var u, pc := UnitOf(dim, s, c), PosOf(dim, s, c);
    var before, after := LostMask(dim, lost, s, u), LostMask(dim, lost + {c}, s, u);
    forall p | 0 <= p < dim * dim && p != pc
      ensures before[p] == after[p]
    {
      UnitCell(dim, s, u, p);
    }
    CountTrueFlip(before, after, pc);
  }

  /** Adding a cell leaves the masks of the units of its type that do not hold it alone. */
  lemma LostMaskOther(dim: nat, lost: set<nat>, c: nat, s: nat, u: nat)
    requires dim > 0 && s < 3 && u < dim * dim && u != UnitOf(dim, s, c)
    ensures LostMask(dim, lost + {c}, s, u) == LostMask(dim, lost, s, u)
  {
    forall p | 0 <= p < dim * dim
      ensures LostMask(dim, lost + {c}, s, u)[p] == LostMask(dim, lost, s, u)[p]
    {
      UnitCell(dim, s, u, p);
    }
  }

  /** Once the three unit types of `c` are lowered, `c` simply belongs to `lost`. */
  lemma PlacedLoweredSwitch(dim: nat, a1: seq<nat>, x: nat, pv: nat, t: nat, lost: set<nat>, c: nat, c': nat)
    requires dim > 0 && |a1| == 3 * (dim * dim) * (dim * dim)
    ensures PlacedLowered(dim, a1, x, pv, t, lost, c, 3) == PlacedLowered(dim, a1, x, pv, t, lost + {c}, c', 0)
  {
    forall a | 0 <= a < |a1|
      ensures PlacedLowered(dim, a1, x, pv, t, lost, c, 3)[a] == PlacedLowered(dim, a1, x, pv, t, lost + {c}, c', 0)[a]
    {
      IndAlternativeRoundTrip(dim * dim, a);
    }
  }

  /** Zeroing the level of `pv` in the unit of type `t` of `x` (objects.cpp:235). */
  lemma PlacedLoweredZero(dim: nat, a1: seq<nat>, x: nat, pv: nat, t: nat, lost: set<nat>, c: nat)
    requires dim > 0 && |a1| == 3 * (dim * dim) * (dim * dim) && 1 <= pv <= dim * dim
    requires x < dim * dim * (dim * dim) && t < 3
    ensures UnitOf(dim, t, x) < dim * dim
    ensures AltIndex(dim * dim, t, UnitOf(dim, t, x), pv) < |a1|
    ensures PlacedLowered(dim, a1, x, pv, t, lost, c, 0)[AltIndex(dim * dim, t, UnitOf(dim, t, x), pv) := 0]
      == PlacedLowered(dim, a1, x, pv, t + 1, lost, c, 0)
  {
    CellInUnit(dim, t, x);
    var u := UnitOf(dim, t, x);
    var k := AltIndex(dim * dim, t, u, pv);
    AltAt(dim, 0, t, u, pv);
    var zeroed := PlacedLowered(dim, a1, x, pv, t, lost, c, 0)[k := 0];
    forall a | 0 <= a < |a1|
      ensures zeroed[a] == PlacedLowered(dim, a1, x, pv, t + 1, lost, c, 0)[a]
    {
      AltAt(dim, a, t, u, pv);
    }
  }

  /** The two complete passes give the table of `SetAlternatives`. */
  lemma PassesDone(dim: nat, cs: seq<Cell>, alts: seq<nat>, x: nat, pv: nat, c: nat)
    requires dim > 0 && x < |cs| && |alts| == 3 * (dim * dim) * (dim * dim) && 1 <= pv <= dim * dim
    ensures PlacedLowered(dim, OthersLowered(dim, cs[x], alts, x, pv, 3, 0), x, pv, 3, LossSet(dim, cs, x, pv), c, 0)
      == SetAlternatives(dim, cs, alts, x, pv)
  {
    var a1 := OthersLowered(dim, cs[x], alts, x, pv, 3, 0);
    forall a | 0 <= a < |alts|
      ensures PlacedLowered(dim, a1, x, pv, 3, LossSet(dim, cs, x, pv), c, 0)[a] == SetAlternatives(dim, cs, alts, x, pv)[a]
    {
      IndAlternativeRoundTrip(dim * dim, a);
    }
  }

  /** A second-pass step at position `i` of unit `(t, UnitOf(t, x))`: the cell there still
      allows `pv` exactly when it is a peer that loses `pv` and has not been cleared. */
  lemma VisitStep(dim: nat, cs: seq<Cell>, x: nat, pv: nat, fixed: bool, lost: set<nat>, t: nat, i: nat)
    requires dim > 0 && CellsOk(dim, cs) && x < |cs| && cs[x].value == 0 && 1 <= pv <= dim * dim
    requires t < 3 && i < dim * dim && lost <= LossSet(dim, cs, x, pv)
    requires forall c :: c in LossSet(dim, cs, x, pv) && Covered(dim, x, c, t, i) ==> c in lost
    ensures UnitOf(dim, t, x) < dim * dim
    ensures CellAt(dim, t, UnitOf(dim, t, x), i) < |cs|
    ensures var c := CellAt(dim, t, UnitOf(dim, t, x), i);
            Allows(ClearedPeers(dim, cs, x, pv, fixed, lost)[c], pv) <==> c in LossSet(dim, cs, x, pv) && c !in lost
    ensures var c := CellAt(dim, t, UnitOf(dim, t, x), i);
            var lost' := if c in LossSet(dim, cs, x, pv) && c !in lost then lost + {c} else lost;
            forall c' :: c' in LossSet(dim, cs, x, pv) && Covered(dim, x, c', t, i + 1) ==> c' in lost'
  {
    CellInUnit(dim, t, x);
    var u := UnitOf(dim, t, x);
    UnitCell(dim, t, u, i);
    var c := CellAt(dim, t, u, i);
    SameUnitOfType(dim, t, c, x);
    forall c' | c' in LossSet(dim, cs, x, pv) && Covered(dim, x, c', t, i + 1) && !Covered(dim, x, c', t, i)
      ensures c' == c
    {
      CellInUnit(dim, t, c');
    }
  }

  /** At the end of a unit type, the visited peers are those of the next unit type's start. */
  lemma CoveredNext(dim: nat, x: nat, c: nat, t: nat)
    requires dim > 0 && c < dim * dim * (dim * dim) && t < 3
    ensures Covered(dim, x, c, t, dim * dim) <==> Covered(dim, x, c, t + 1, 0)
  {
    CellInUnit(dim, t, c);
  }

  /** After the three unit types, every peer has been visited. */
  lemma CoveredAll(dim: nat, x: nat, c: nat)
    requires dim > 0 && SameUnit(dim, c, x)
    ensures Covered(dim, x, c, 3, 0)
  {
  }
}
