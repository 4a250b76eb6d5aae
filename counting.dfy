/** Counting the `true` entries of a boolean sequence. Possibility arrays and the
    "which cells of this unit still allow this value" masks are counted this way:
    `npossible` and every level of the alternatives table are such counts. */
module Counting {

  function CountTrue(bs: seq<bool>): (n: nat)
    ensures n <= |bs|
  {
    if bs == [] then 0 else (if bs[0] then 1 else 0) + CountTrue(bs[1..])
  }

  /** Counting distributes over concatenation. */
  lemma {:induction false} CountTrueAppend(a: seq<bool>, b: seq<bool>)
    ensures CountTrue(a + b) == CountTrue(a) + CountTrue(b)
  {
    if a != [] {
      assert (a + b)[1..] == a[1..] + b;
      CountTrueAppend(a[1..], b);
    } else {
      assert a + b == b;
    }
  }

  /** The count of a prefix plus the count of the matching suffix is the whole count. */
  lemma CountTrueSplit(bs: seq<bool>, i: nat)
    requires i <= |bs|
    ensures CountTrue(bs) == CountTrue(bs[..i]) + CountTrue(bs[i..])
  {
    assert bs == bs[..i] + bs[i..];
    CountTrueAppend(bs[..i], bs[i..]);
  }

  /** Extending a prefix by one entry adds that entry to the count. */
  lemma CountTruePrefix(bs: seq<bool>, i: nat)
    requires i < |bs|
    ensures CountTrue(bs[..i + 1]) == CountTrue(bs[..i]) + (if bs[i] then 1 else 0)
  {
    assert bs[..i + 1] == bs[..i] + [bs[i]];
    CountTrueAppend(bs[..i], [bs[i]]);
  }

  /** A sequence with no `true` entry counts 0. */
  lemma {:induction false} CountTrueNone(bs: seq<bool>)
    requires forall i :: 0 <= i < |bs| ==> !bs[i]
    ensures CountTrue(bs) == 0
  {
    if bs != [] {
      CountTrueNone(bs[1..]);
    }
  }

  /** A sequence whose entries are all `true` counts its length. */
  lemma {:induction false} CountTrueAll(bs: seq<bool>)
    requires forall i :: 0 <= i < |bs| ==> bs[i]
    ensures CountTrue(bs) == |bs|
  {
    if bs != [] {
      CountTrueAll(bs[1..]);
    }
  }

  /** A positive count has a witness; a `true` entry makes the count positive. */
  lemma {:induction false} CountTruePositive(bs: seq<bool>)
    ensures CountTrue(bs) > 0 <==> exists i :: 0 <= i < |bs| && bs[i]
  {
    if bs != [] {
      CountTruePositive(bs[1..]);
      if CountTrue(bs[1..]) > 0 {
        var i :| 0 <= i < |bs[1..]| && bs[1..][i];
        assert bs[i + 1];
      }
      if !bs[0] && exists i :: 0 <= i < |bs| && bs[i] {
        var i :| 0 <= i < |bs| && bs[i];
        assert bs[1..][i - 1];
      }
    }
  }

  /** Sequences that differ in one entry, `false` in `a` and `true` in `b`, differ by one. */
  lemma {:induction false} CountTrueFlip(a: seq<bool>, b: seq<bool>, k: nat)
    requires |a| == |b| && k < |a| && !a[k] && b[k]
    requires forall i :: 0 <= i < |a| && i != k ==> a[i] == b[i]
    ensures CountTrue(b) == CountTrue(a) + 1
  {
    if k == 0 {
      assert a[1..] == b[1..];
    } else {
      CountTrueFlip(a[1..], b[1..], k - 1);
    }
  }

  /** Sequences that agree entry by entry count the same. */
  lemma CountTrueSame(a: seq<bool>, b: seq<bool>)
    requires |a| == |b| && forall i :: 0 <= i < |a| ==> a[i] == b[i]
    ensures CountTrue(a) == CountTrue(b)
  {
    assert a == b;
  }

  /** Removing the entries of `drop`, all of which are in `keep`, removes their count. */
  lemma {:induction false} CountTrueMinus(keep: seq<bool>, drop: seq<bool>, rest: seq<bool>)
    requires |keep| == |drop| == |rest|
    requires forall i :: 0 <= i < |keep| ==> (drop[i] ==> keep[i])
    requires forall i :: 0 <= i < |keep| ==> rest[i] == (keep[i] && !drop[i])
    ensures CountTrue(drop) <= CountTrue(keep)
    ensures CountTrue(rest) == CountTrue(keep) - CountTrue(drop)
  {
    if keep != [] {
      CountTrueMinus(keep[1..], drop[1..], rest[1..]);
    }
  }
}
