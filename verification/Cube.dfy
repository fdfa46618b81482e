/**
 * N-dimensional boxes of mixed dimensions. A box's missing dimensions read as
 * the interval [0, 0]; corners need not be ordered.
 */
module Cube {
  const POINT_BIT := 0x8000_0000

  /** The header word holds the number of dimensions and, in its top bit, the point flag. */
  datatype Box = Box(header: nat, x: seq<real>)

  predicate IsPoint(b: Box) {
    b.header / POINT_BIT % 2 == 1
  }

  function Dim(b: Box): nat {
    b.header % POINT_BIT
  }

  /** A point stores one corner, another box two. */
  predicate Valid(b: Box) {
    b.header < 2 * POINT_BIT && |b.x| >= if IsPoint(b) then Dim(b) else 2 * Dim(b)
  }

  function LL(b: Box, i: nat): real
    requires Valid(b) && i < Dim(b)
  {
    b.x[i]
  }

  function UR(b: Box, i: nat): real
    requires Valid(b) && i < Dim(b)
  {
    if IsPoint(b) then b.x[i] else b.x[i + Dim(b)]
  }

  function Min(a: real, b: real): real {
    if a < b then a else b
  }

  function Max(a: real, b: real): real {
    if a > b then a else b
  }

  /** The interval a box spans in dimension i, [0, 0] where it has none. */
  function Lo(b: Box, i: nat): real
    requires Valid(b)
  {
    if i < Dim(b) then Min(LL(b, i), UR(b, i)) else 0.0
  }

  function Hi(b: Box, i: nat): real
    requires Valid(b)
  {
    if i < Dim(b) then Max(LL(b, i), UR(b, i)) else 0.0
  }

  function MaxDim(a: Box, b: Box): nat {
    if Dim(a) < Dim(b) then Dim(b) else Dim(a)
  }

  // ------------------------------------------------------------------- union

  ghost predicate IsUnion(a: Box, b: Box, r: Box)
    requires Valid(a) && Valid(b)
  {
    && Valid(r) && Dim(r) == MaxDim(a, b)
    && forall i :: 0 <= i < Dim(r) ==> Lo(r, i) == Min(Lo(a, i), Lo(b, i)) && Hi(r, i) == Max(Hi(a, i), Hi(b, i))
  }

  method IsPointInternal(b: Box) returns (res: bool)
    requires Valid(b)
    ensures res <==> forall i :: 0 <= i < Dim(b) ==> LL(b, i) == UR(b, i)
  {
    if IsPoint(b) {
      return true;
    }
    for i := 0 to Dim(b)
      invariant forall k :: 0 <= k < i ==> LL(b, k) == UR(b, k)
    {
      if LL(b, i) != UR(b, i) {
        return false;
      }
    }
    return true;
  }

  /** `same` says that both arguments are one object. */
  method Union(a: Box, b: Box, same: bool) returns (r: Box)
    requires Valid(a) && Valid(b) && (same ==> a == b)
    ensures IsUnion(a, b, r)
    ensures if same then r == a else IsPoint(r) <==> forall i :: 0 <= i < Dim(r) ==> Lo(r, i) == Hi(r, i)
  {
    if same {
      return a;
    }
    if Dim(a) < Dim(b) {
      r := Merge(b, a);
    } else {
      r := Merge(a, b);
    }
  }

  /** Fill the coordinates, b's dimensions first, then those only a has. */
  method Merge(a: Box, b: Box) returns (r: Box)
    requires Valid(a) && Valid(b) && Dim(b) <= Dim(a)
    ensures IsUnion(a, b, r)
    ensures IsPoint(r) <==> forall i :: 0 <= i < Dim(r) ==> Lo(r, i) == Hi(r, i)
  {
    hide Merged, Lo, Hi, LL, UR, Min, Max, IsUnion;
    var dim := Dim(a);
    var x := new real[2 * dim](_ => 0.0);
    for i := 0 to Dim(b)
      invariant forall k :: 0 <= k < i ==> Merged(a, b, x[..], k)
    {
      ghost var before := x[..];
      x[i] := Min(Min(LL(a, i), UR(a, i)), Min(LL(b, i), UR(b, i)));
      x[i + dim] := Max(Max(LL(a, i), UR(a, i)), Max(LL(b, i), UR(b, i)));
      MergedHere(a, b, x[..], i);
      MergedNext(a, b, before, x[..], i);
    }
    for i := Dim(b) to dim
      invariant forall k :: 0 <= k < i ==> Merged(a, b, x[..], k)
    {
      ghost var before := x[..];
      x[i] := Min(0.0, Min(LL(a, i), UR(a, i)));
      x[i + dim] := Max(0.0, Max(LL(a, i), UR(a, i)));
      MergedHere(a, b, x[..], i);
      MergedNext(a, b, before, x[..], i);
    }
    r := Box(dim, x[..]);
    MergedBounds(a, b, r);
    var point := IsPointInternal(r);
    AsPoint(a, b, r, point);
    if point {
      r := Box(dim + POINT_BIT, r.x);
    }
  }

  /** A union whose bounds are equal may be marked as a point, and only then. */
  lemma AsPoint(a: Box, b: Box, r: Box, point: bool)
    requires Valid(a) && Valid(b) && IsUnion(a, b, r) && r.header == Dim(r) && |r.x| == 2 * Dim(r)
    requires point <==> forall i :: 0 <= i < Dim(r) ==> LL(r, i) == UR(r, i)
    ensures !IsPoint(r) && (point <==> forall i :: 0 <= i < Dim(r) ==> Lo(r, i) == Hi(r, i))
    ensures point ==>
              var q := Box(Dim(r) + POINT_BIT, r.x);
              IsUnion(a, b, q) && IsPoint(q) && Dim(q) == Dim(r) && forall i :: 0 <= i < Dim(q) ==> Lo(q, i) == Hi(q, i)
  {
    var q := Box(Dim(r) + POINT_BIT, r.x);
    assert Dim(q) == Dim(r) && IsPoint(q) && Valid(q);
    assert forall i :: 0 <= i < Dim(r) ==> (Lo(r, i) == Hi(r, i) <==> LL(r, i) == UR(r, i));
    forall i | 0 <= i < Dim(r) && point
      ensures Lo(q, i) == Lo(r, i) && Hi(q, i) == Hi(r, i)
    {
      assert LL(r, i) == UR(r, i);
    }
  }

  /** What the stored corners say of an interval; a dimension the box lacks is zero. */
  lemma BoundsAre(b: Box, i: nat)
    requires Valid(b)
    ensures i >= Dim(b) ==> Lo(b, i) == 0.0 == Hi(b, i)
    ensures i < Dim(b) && IsPoint(b) ==> Lo(b, i) == b.x[i] == Hi(b, i)
    ensures i < Dim(b) && !IsPoint(b) ==>
              && Lo(b, i) <= b.x[i] <= Hi(b, i) && Lo(b, i) <= b.x[i + Dim(b)] <= Hi(b, i)
              && (Lo(b, i) == b.x[i] || Lo(b, i) == b.x[i + Dim(b)])
              && (Hi(b, i) == b.x[i] || Hi(b, i) == b.x[i + Dim(b)])
  {
  }

  /** Dimension i has been filled in. */
  ghost predicate Merged(a: Box, b: Box, x: seq<real>, i: nat)
    requires Valid(a) && Valid(b) && i < Dim(a) && |x| == 2 * Dim(a)
  {
    x[i] == Min(Lo(a, i), Lo(b, i)) && x[i + Dim(a)] == Max(Hi(a, i), Hi(b, i))
  }

  lemma MergedHere(a: Box, b: Box, x: seq<real>, i: nat)
    requires Valid(a) && Valid(b) && i < Dim(a) && |x| == 2 * Dim(a)
    requires x[i] == if i < Dim(b) then Min(Min(LL(a, i), UR(a, i)), Min(LL(b, i), UR(b, i)))
                     else Min(0.0, Min(LL(a, i), UR(a, i)))
    requires x[i + Dim(a)] == if i < Dim(b) then Max(Max(LL(a, i), UR(a, i)), Max(LL(b, i), UR(b, i)))
                              else Max(0.0, Max(LL(a, i), UR(a, i)))
    ensures Merged(a, b, x, i)
  {
  }

  lemma MergedNext(a: Box, b: Box, before: seq<real>, x: seq<real>, i: nat)
    requires Valid(a) && Valid(b) && i < Dim(a) && |before| == |x| == 2 * Dim(a)
    requires forall k :: 0 <= k < i ==> Merged(a, b, before, k)
    requires x == before[i := x[i]][i + Dim(a) := x[i + Dim(a)]] && Merged(a, b, x, i)
    ensures forall k :: 0 <= k < i + 1 ==> Merged(a, b, x, k)
  {
    forall k | 0 <= k < i
      ensures Merged(a, b, x, k)
    {
      assert Merged(a, b, before, k);
    }
  }

  lemma MergedBounds(a: Box, b: Box, r: Box)
    requires Valid(a) && Valid(b) && Dim(b) <= Dim(a) && r.header == Dim(a) && |r.x| == 2 * Dim(a)
    requires forall k :: 0 <= k < Dim(a) ==> Merged(a, b, r.x, k)
    ensures IsUnion(a, b, r)
    ensures forall i :: 0 <= i < Dim(r) ==> LL(r, i) == Lo(r, i) && UR(r, i) == Hi(r, i)
  {
    forall i | 0 <= i < Dim(a)
      ensures LL(r, i) == Min(Lo(a, i), Lo(b, i)) && UR(r, i) == Max(Hi(a, i), Hi(b, i)) && LL(r, i) <= UR(r, i)
    {
      assert Merged(a, b, r.x, i);
      assert Lo(a, i) <= Hi(a, i);
    }
  }

  // ------------------------------------------------------------- comparisons

  /** a contains b; dimensions only a has do not matter. */
  ghost predicate Contains(a: Box, b: Box)
    requires Valid(a) && Valid(b)
  {
    && (forall i :: Dim(a) <= i < Dim(b) ==> Lo(b, i) == 0.0 == Hi(b, i))
    && (forall i :: 0 <= i < Dim(a) && i < Dim(b) ==> Lo(a, i) <= Lo(b, i) && Hi(b, i) <= Hi(a, i))
  }

  method ContainsV0(a: Box, b: Box) returns (res: bool)
    requires Valid(a) && Valid(b)
    ensures res <==> Contains(a, b)
  {
    if Dim(a) < Dim(b) {
      for i := Dim(a) to Dim(b)
        invariant forall k :: Dim(a) <= k < i ==> Lo(b, k) == 0.0 == Hi(b, k)
      {
        if LL(b, i) != 0.0 {
          assert Lo(b, i) != 0.0 || Hi(b, i) != 0.0;
          return false;
        }
        if UR(b, i) != 0.0 {
          assert Lo(b, i) != 0.0 || Hi(b, i) != 0.0;
          return false;
        }
      }
    }
    for i := 0 to if Dim(a) < Dim(b) then Dim(a) else Dim(b)
      invariant forall k :: 0 <= k < i ==> Lo(a, k) <= Lo(b, k) && Hi(b, k) <= Hi(a, k)
    {
      if Min(LL(a, i), UR(a, i)) > Min(LL(b, i), UR(b, i)) {
        assert Lo(a, i) > Lo(b, i);
        return false;
      }
      if Max(LL(a, i), UR(a, i)) < Max(LL(b, i), UR(b, i)) {
        assert Hi(a, i) < Hi(b, i);
        return false;
      }
    }
    return true;
  }

  /** With missing dimensions zero: in every dimension of b, its interval lies in a's. */
  lemma ContainsIff(a: Box, b: Box)
    requires Valid(a) && Valid(b)
    ensures Contains(a, b) <==> forall i :: 0 <= i < Dim(b) ==> Lo(a, i) <= Lo(b, i) && Hi(b, i) <= Hi(a, i)
  {
    forall i | Dim(a) <= i < Dim(b)
      ensures Lo(a, i) <= Lo(b, i) && Hi(b, i) <= Hi(a, i) <==> Lo(b, i) == 0.0 == Hi(b, i)
    {
      BoundsAre(b, i);
      assert Lo(b, i) <= Hi(b, i);
    }
  }

  /** The intervals meet in every dimension either has. */
  ghost predicate Overlaps(a: Box, b: Box)
    requires Valid(a) && Valid(b)
  {
    forall i :: 0 <= i < MaxDim(a, b) ==> Lo(a, i) <= Hi(b, i) && Lo(b, i) <= Hi(a, i)
  }

  /** The point's coordinates lie in the box's intervals, as far as they go. */
  ghost predicate Inside(x: seq<real>, b: Box)
    requires Valid(b)
  {
    forall i :: 0 <= i < |x| ==> Lo(b, i) <= x[i] <= Hi(b, i)
  }

  /** A coordinate both intervals have, if there is one. */
  ghost function Common(a: Box, b: Box, i: nat): real
    requires Valid(a) && Valid(b)
  {
    Max(Lo(a, i), Lo(b, i))
  }

  /** Boxes overlap if and only if some point, with a coordinate for every dimension of either, is in both. */
  lemma OverlapsIff(a: Box, b: Box)
    requires Valid(a) && Valid(b)
    ensures Overlaps(a, b) <==> exists x :: |x| == MaxDim(a, b) && Inside(x, a) && Inside(x, b)
  {
    if Overlaps(a, b) {
      var x := seq(MaxDim(a, b), i requires 0 <= i < MaxDim(a, b) => Common(a, b, i));
      forall i | 0 <= i < |x|
        ensures Lo(a, i) <= x[i] <= Hi(a, i) && Lo(b, i) <= x[i] <= Hi(b, i)
      {
        assert x[i] == Common(a, b, i) && Lo(a, i) <= Hi(a, i) && Lo(b, i) <= Hi(b, i);
      }
      assert Inside(x, a) && Inside(x, b);
    }
    if x :| |x| == MaxDim(a, b) && Inside(x, a) && Inside(x, b) {
      forall i | 0 <= i < MaxDim(a, b)
        ensures Lo(a, i) <= Hi(b, i) && Lo(b, i) <= Hi(a, i)
      {
        assert Lo(a, i) <= x[i] <= Hi(b, i) && Lo(b, i) <= x[i] <= Hi(a, i);
      }
    }
  }

  method OverlapV0(a0: Box, b0: Box) returns (res: bool)
    requires Valid(a0) && Valid(b0)
    ensures res <==> Overlaps(a0, b0)
  {
    var a, b := a0, b0;
    if Dim(a) < Dim(b) {
      a, b := b, a;
    }
    for i := 0 to Dim(b)
      invariant forall k :: 0 <= k < i ==> Lo(a, k) <= Hi(b, k) && Lo(b, k) <= Hi(a, k)
    {
      if Min(LL(a, i), UR(a, i)) > Max(LL(b, i), UR(b, i)) {
        assert Lo(a, i) > Hi(b, i);
        return false;
      }
      if Max(LL(a, i), UR(a, i)) < Min(LL(b, i), UR(b, i)) {
        assert Hi(a, i) < Lo(b, i);
        return false;
      }
    }
    for i := Dim(b) to Dim(a)
      invariant forall k :: 0 <= k < i ==> Lo(a, k) <= Hi(b, k) && Lo(b, k) <= Hi(a, k)
    {
      if Min(LL(a, i), UR(a, i)) > 0.0 {
        assert Lo(a, i) > Hi(b, i);
        return false;
      }
      if Max(LL(a, i), UR(a, i)) < 0.0 {
        assert Hi(a, i) < Lo(b, i);
        return false;
      }
    }
    return true;
  }

  /** Same dimensions, same intervals. */
  ghost predicate Same(a: Box, b: Box)
    requires Valid(a) && Valid(b)
  {
    Dim(a) == Dim(b) && forall i :: 0 <= i < Dim(a) ==> Lo(a, i) == Lo(b, i) && Hi(a, i) == Hi(b, i)
  }

  function MinDim(a: Box, b: Box): nat {
    if Dim(a) < Dim(b) then Dim(a) else Dim(b)
  }

  function Sign(r: real): int {
    if r > 0.0 then 1 else if r < 0.0 then -1 else 0
  }

  /** The differences the comparison looks at, in order: shared lower bounds, shared upper, extra lower, extra upper. */
  ghost function Diff(a: Box, b: Box, k: nat): real
    requires Valid(a) && Valid(b)
  {
    var d, m := MinDim(a, b), MaxDim(a, b);
    if k < d then Lo(a, k) - Lo(b, k)
    else if k < 2 * d then Hi(a, k - d) - Hi(b, k - d)
    else if k < d + m then Lo(a, k - d) - Lo(b, k - d)
    else if k < 2 * m then Hi(a, k - m) - Hi(b, k - m)
    else 0.0
  }

  ghost predicate EqualTo(a: Box, b: Box, k: nat)
    requires Valid(a) && Valid(b)
  {
    forall j :: 0 <= j < k ==> Diff(a, b, j) == 0.0
  }

  /** The first difference decides; with none, the number of dimensions. */
  ghost predicate Ranks(a: Box, b: Box, k: nat, r: int)
    requires Valid(a) && Valid(b)
  {
    && EqualTo(a, b, k)
    && if k == 2 * MaxDim(a, b) then r == Sign((Dim(a) - Dim(b)) as real)
       else k < 2 * MaxDim(a, b) && Diff(a, b, k) != 0.0 && r == Sign(Diff(a, b, k))
  }

  ghost predicate Compares(a: Box, b: Box, r: int)
    requires Valid(a) && Valid(b)
  {
    exists k :: Ranks(a, b, k, r)
  }

  /** Compare the shared dimensions: all lower bounds, then all upper bounds. */
  method CmpShared(a: Box, b: Box) returns (r: int)
    requires Valid(a) && Valid(b)
    ensures if r == 0 then EqualTo(a, b, 2 * MinDim(a, b)) else Compares(a, b, r)
  {
    var dim := MinDim(a, b);
    for i := 0 to dim
      invariant EqualTo(a, b, i)
    {
      var x, y := Min(LL(a, i), UR(a, i)), Min(LL(b, i), UR(b, i));
      assert Diff(a, b, i) == x - y;
      if x > y {
        assert Ranks(a, b, i, 1);
        return 1;
      }
      if x < y {
        assert Ranks(a, b, i, -1);
        return -1;
      }
    }
    for i := 0 to dim
      invariant EqualTo(a, b, dim + i)
    {
      var x, y := Max(LL(a, i), UR(a, i)), Max(LL(b, i), UR(b, i));
      assert Diff(a, b, dim + i) == x - y;
      if x > y {
        assert Ranks(a, b, dim + i, 1);
        return 1;
      }
      if x < y {
        assert Ranks(a, b, dim + i, -1);
        return -1;
      }
    }
    return 0;
  }

  /** Compare the dimensions only a has with zero. */
  method CmpExtra(a: Box, b: Box) returns (r: int)
    requires Valid(a) && Valid(b) && Dim(a) > Dim(b) && EqualTo(a, b, 2 * Dim(b))
    ensures Compares(a, b, r)
  {
    var dim := Dim(b);
    for i := dim to Dim(a)
      invariant EqualTo(a, b, dim + i)
    {
      var x := Min(LL(a, i), UR(a, i));
      assert Diff(a, b, dim + i) == x;
      if x > 0.0 {
        assert Ranks(a, b, dim + i, 1);
        return 1;
      }
      if x < 0.0 {
        assert Ranks(a, b, dim + i, -1);
        return -1;
      }
    }
    for i := dim to Dim(a)
      invariant EqualTo(a, b, Dim(a) + i)
    {
      var x := Max(LL(a, i), UR(a, i));
      assert Diff(a, b, Dim(a) + i) == x;
      if x > 0.0 {
        assert Ranks(a, b, Dim(a) + i, 1);
        return 1;
      }
      if x < 0.0 {
        assert Ranks(a, b, Dim(a) + i, -1);
        return -1;
      }
    }
    assert Ranks(a, b, 2 * Dim(a), 1);
    return 1;
  }

  method CmpV0(a: Box, b: Box) returns (r: int)
    requires Valid(a) && Valid(b)
    ensures Compares(a, b, r)
  {
    r := CmpShared(a, b);
    if r != 0 {
      return;
    }
    if Dim(a) > Dim(b) {
      r := CmpExtra(a, b);
    } else if Dim(a) < Dim(b) {
      Swap(a, b, 2 * Dim(a));
      r := CmpExtra(b, a);
      SwapCompares(b, a, r);
      r := -r;
    } else {
      assert Ranks(a, b, 2 * Dim(a), 0);
    }
  }

  lemma SwapDiff(a: Box, b: Box, k: nat)
    requires Valid(a) && Valid(b)
    ensures Diff(b, a, k) == -Diff(a, b, k)
  {
    hide Lo, Hi;
  }

  lemma Swap(a: Box, b: Box, k: nat)
    requires Valid(a) && Valid(b) && EqualTo(a, b, k)
    ensures EqualTo(b, a, k)
  {
    hide Diff;
    forall j | 0 <= j < k
      ensures Diff(b, a, j) == 0.0
    {
      SwapDiff(a, b, j);
    }
  }

  /** Comparing the other way round gives the opposite result. */
  lemma SwapCompares(a: Box, b: Box, r: int)
    requires Valid(a) && Valid(b) && Compares(a, b, r)
    ensures Compares(b, a, -r)
  {
    var k :| Ranks(a, b, k, r);
    Swap(a, b, k);
    SwapDiff(a, b, k);
    assert Ranks(b, a, k, -r);
  }

  /** The result is determined, and is zero exactly for the same box. */
  lemma ComparesIff(a: Box, b: Box, r: int, r': int)
    requires Valid(a) && Valid(b) && Compares(a, b, r) && Compares(a, b, r')
    ensures r == r' && (r == 0 <==> Same(a, b))
  {
    var k :| Ranks(a, b, k, r);
    var k' :| Ranks(a, b, k', r');
    assert k == k';
    if r == 0 {
      forall i | 0 <= i < Dim(a)
        ensures Lo(a, i) == Lo(b, i) && Hi(a, i) == Hi(b, i)
      {
        assert Diff(a, b, i) == 0.0 && Diff(a, b, Dim(a) + i) == 0.0;
      }
    }
    if Same(a, b) {
      assert Diff(a, b, k) == 0.0;
    }
  }

  ghost predicate SameLo(a: Box, b: Box, n: nat)
    requires Valid(a) && Valid(b)
  {
    forall j :: 0 <= j < n ==> Lo(a, j) == Lo(b, j)
  }

  ghost predicate SameHi(a: Box, b: Box, n: nat)
    requires Valid(a) && Valid(b)
  {
    forall j :: 0 <= j < n ==> Hi(a, j) == Hi(b, j)
  }

  /** What is less: by a shared lower bound, a shared upper, an extra lower, an extra upper, or in dimensions. */
  lemma LessFirst(a: Box, b: Box, k: nat)
    requires Valid(a) && Valid(b)
    ensures k < MinDim(a, b) && SameLo(a, b, k) && Lo(a, k) < Lo(b, k) ==> Compares(a, b, -1)
    ensures k < MinDim(a, b) && SameLo(a, b, MinDim(a, b)) && SameHi(a, b, k) && Hi(a, k) < Hi(b, k) ==>
              Compares(a, b, -1)
    ensures MinDim(a, b) <= k && SameLo(a, b, k) && SameHi(a, b, MinDim(a, b)) && Lo(a, k) < Lo(b, k) ==>
              Compares(a, b, -1)
    ensures MinDim(a, b) <= k && SameLo(a, b, MaxDim(a, b)) && SameHi(a, b, k) && Hi(a, k) < Hi(b, k) ==>
              Compares(a, b, -1)
    ensures SameLo(a, b, MaxDim(a, b)) && SameHi(a, b, MaxDim(a, b)) && Dim(a) < Dim(b) ==> Compares(a, b, -1)
  {
    hide Lo, Hi;
    var d, m := MinDim(a, b), MaxDim(a, b);
    if k < d && SameLo(a, b, k) && Lo(a, k) < Lo(b, k) {
      assert Ranks(a, b, k, -1);
    }
    if k < d && SameLo(a, b, d) && SameHi(a, b, k) && Hi(a, k) < Hi(b, k) {
      assert Ranks(a, b, d + k, -1);
    }
    if d <= k && SameLo(a, b, k) && SameHi(a, b, d) && Lo(a, k) < Lo(b, k) {
      BoundsAre(a, k);
      BoundsAre(b, k);
      assert Ranks(a, b, d + k, -1);
    }
    if d <= k && SameLo(a, b, m) && SameHi(a, b, k) && Hi(a, k) < Hi(b, k) {
      BoundsAre(a, k);
      BoundsAre(b, k);
      assert Ranks(a, b, m + k, -1);
    }
    if SameLo(a, b, m) && SameHi(a, b, m) && Dim(a) < Dim(b) {
      assert Ranks(a, b, 2 * m, -1);
    }
  }

  // -------------------------------------------------------------- GiST tests

  datatype Strategy = Overlap | SameAs | ContainsAll | OldContains | ContainedBy | OldContainedBy

  /** What each operator asks of a stored box. */
  ghost predicate Satisfies(s: Strategy, key: Box, query: Box)
    requires Valid(key) && Valid(query)
  {
    match s
    case Overlap => Overlaps(key, query)
    case SameAs => Same(key, query)
    case ContainsAll | OldContains => Contains(key, query)
    case ContainedBy | OldContainedBy => Contains(query, key)
  }

  /** The operators, by the intervals of the stored box and of the query. */
  lemma OperatorsAre(key: Box, query: Box)
    requires Valid(key) && Valid(query)
    ensures Satisfies(Overlap, key, query)
       <==> forall i :: 0 <= i < MaxDim(key, query) ==> Lo(key, i) <= Hi(query, i) && Lo(query, i) <= Hi(key, i)
    ensures Satisfies(ContainsAll, key, query)
       <==> forall i :: 0 <= i < Dim(query) ==> Lo(key, i) <= Lo(query, i) && Hi(query, i) <= Hi(key, i)
    ensures Satisfies(ContainedBy, key, query)
       <==> forall i :: 0 <= i < Dim(key) ==> Lo(query, i) <= Lo(key, i) && Hi(key, i) <= Hi(query, i)
    ensures Satisfies(SameAs, key, query)
       <==> && Dim(key) == Dim(query)
            && forall i :: 0 <= i < Dim(key) ==> Lo(key, i) == Lo(query, i) && Hi(key, i) == Hi(query, i)
    ensures Satisfies(OldContains, key, query) == Satisfies(ContainsAll, key, query)
    ensures Satisfies(OldContainedBy, key, query) == Satisfies(ContainedBy, key, query)
  {
    ContainsIff(key, query);
    ContainsIff(query, key);
  }

  ghost predicate InternalAccepts(s: Strategy, key: Box, query: Box)
    requires Valid(key) && Valid(query)
  {
    match s
    case Overlap => Overlaps(key, query)
    case SameAs | ContainsAll | OldContains => Contains(key, query)
    case ContainedBy | OldContainedBy => Overlaps(key, query)
  }

  method LeafConsistent(key: Box, query: Box, s: Strategy) returns (res: bool)
    requires Valid(key) && Valid(query)
    ensures res <==> Satisfies(s, key, query)
  {
    match s
    case Overlap =>
      res := OverlapV0(key, query);
    case SameAs =>
      var c := CmpV0(key, query);
      ComparesIff(key, query, c, c);
      res := c == 0;
    case ContainsAll | OldContains =>
      res := ContainsV0(key, query);
    case ContainedBy | OldContainedBy =>
      res := ContainsV0(query, key);
  }

  method InternalConsistent(key: Box, query: Box, s: Strategy) returns (res: bool)
    requires Valid(key) && Valid(query)
    ensures res <==> InternalAccepts(s, key, query)
  {
    match s
    case Overlap =>
      res := OverlapV0(key, query);
    case SameAs | ContainsAll | OldContains =>
      res := ContainsV0(key, query);
    case ContainedBy | OldContainedBy =>
      res := OverlapV0(key, query);
  }

  /** The key has all the box's dimensions and spans it in every one. */
  ghost predicate Covers(key: Box, b: Box) {
    && Valid(key) && Valid(b) && Dim(b) <= Dim(key)
    && forall i :: 0 <= i < Dim(key) ==> Lo(key, i) <= Lo(b, i) && Hi(b, i) <= Hi(key, i)
  }

  /** A point of the key that the query contains too, where they overlap. */
  ghost function Witness(key: Box, query: Box): Box
    requires Valid(key) && Valid(query)
  {
    Box(Dim(key) + POINT_BIT, seq(Dim(key), i requires 0 <= i < Dim(key) => Common(key, query, i)))
  }

  lemma WitnessBounds(key: Box, query: Box)
    requires Valid(key) && Valid(query)
    ensures var p := Witness(key, query);
            && Valid(p) && Dim(p) == Dim(key)
            && forall i :: 0 <= i < Dim(p) ==> Lo(p, i) == Hi(p, i) == Common(key, query, i)
  {
    var p := Witness(key, query);
    assert Dim(p) == Dim(key) && IsPoint(p);
    forall i | 0 <= i < Dim(p)
      ensures Lo(p, i) == Hi(p, i) == Common(key, query, i)
    {
      BoundsAre(p, i);
    }
  }

  /** The inner test turns a key away unless some box under it satisfies the operator, or for sameness contains. */
  lemma InternalIsTight(key: Box, query: Box, s: Strategy)
    requires Valid(key) && Valid(query) && InternalAccepts(s, key, query)
    ensures exists b :: Covers(key, b) && Satisfies(if s.SameAs? then ContainsAll else s, b, query)
  {
    if IsContainedBy(s) {
      var p := Witness(key, query);
      WitnessBounds(key, query);
      forall i | 0 <= i < Dim(key)
        ensures Lo(key, i) <= Common(key, query, i) <= Hi(key, i)
        ensures Lo(query, i) <= Common(key, query, i) <= Hi(query, i)
      {
        assert Lo(key, i) <= Hi(key, i) && Lo(query, i) <= Hi(query, i);
      }
      ContainsIff(query, p);
      assert Covers(key, p);
    } else {
      assert Covers(key, key);
    }
  }

  /** The query spans zero in every dimension the box lacks. */
  ghost predicate SpansZero(query: Box, b: Box)
    requires Valid(query) && Valid(b)
  {
    forall i :: Dim(b) <= i < Dim(query) ==> Lo(query, i) <= 0.0 <= Hi(query, i)
  }

  predicate IsContainedBy(s: Strategy) {
    s.ContainedBy? || s.OldContainedBy?
  }

  /** A covering key is accepted, contained-by queries provided they span zero where the box has no dimension. */
  lemma CoveredIsAccepted(key: Box, b: Box, query: Box, s: Strategy)
    requires Covers(key, b) && Valid(query) && Satisfies(s, b, query)
    requires IsContainedBy(s) ==> SpansZero(query, b)
    ensures InternalAccepts(s, key, query)
  {
    forall i | 0 <= i < MaxDim(key, query)
      ensures Lo(b, i) <= Hi(b, i) && Lo(query, i) <= Hi(query, i)
      ensures Lo(key, i) <= Lo(b, i) && Hi(b, i) <= Hi(key, i)
    {
    }
  }

  /**
   * For a stored box that a contained-by query asks for, every key above it is
   * accepted if and only if the query spans zero in the dimensions the box lacks.
   */
  lemma ContainedByIff(b: Box, query: Box, s: Strategy)
    requires Valid(b) && Valid(query) && IsContainedBy(s) && Satisfies(s, b, query)
    ensures (forall key :: Covers(key, b) ==> InternalAccepts(s, key, query)) <==> SpansZero(query, b)
  {
    if SpansZero(query, b) {
      forall key | Covers(key, b)
        ensures InternalAccepts(s, key, query)
      {
        CoveredIsAccepted(key, b, query, s);
      }
    } else {
      assert Covers(b, b);
      var i :| Dim(b) <= i < Dim(query) && !(Lo(query, i) <= 0.0 <= Hi(query, i));
      assert Lo(b, i) == 0.0 == Hi(b, i);
    }
  }

  /** The point 5 is contained in [0,9] x [1,2], yet its own key is turned away. */
  lemma ContainedByCanMiss()
    ensures var b, query := Box(POINT_BIT + 1, [5.0]), Box(2, [0.0, 1.0, 9.0, 2.0]);
            Valid(b) && Valid(query) && Contains(query, b) && !InternalAccepts(ContainedBy, b, query)
  {
    var b, query := Box(POINT_BIT + 1, [5.0]), Box(2, [0.0, 1.0, 9.0, 2.0]);
    assert Lo(query, 1) == 1.0 && Hi(b, 1) == 0.0;
  }
}
