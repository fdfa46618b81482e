/**
 * Distances between boxes and their use in nearest-neighbour search: the
 * distance to an inner key must never exceed the distance to a box below it.
 */
module CubeDistance {
  import opened CInt
  import opened Cube
  import opened CubeTree
  import opened GistTree

  /** How far the intervals are apart in dimension i. */
  ghost function Gap(a: Box, b: Box, i: nat): real
    requires Valid(a) && Valid(b)
  {
    if Hi(a, i) < Lo(b, i) then Lo(b, i) - Hi(a, i)
    else if Hi(b, i) < Lo(a, i) then Lo(a, i) - Hi(b, i)
    else 0.0
  }

  function Distance1D(a1: real, a2: real, b1: real, b2: real): real {
    if a1 <= b1 && a2 <= b1 && a1 <= b2 && a2 <= b2 then Min(b1, b2) - Max(a1, a2)
    else if a1 > b1 && a2 > b1 && a1 > b2 && a2 > b2 then Min(a1, a2) - Max(b1, b2)
    else 0.0
  }

  function Square(r: real): real {
    r * r
  }

  function Abs(r: real): real {
    if r < 0.0 then -r else r
  }

  lemma Distance1DIsGap(a: Box, b: Box, i: nat)
    requires Valid(a) && Valid(b) && i < Dim(a)
    ensures i < Dim(b) ==> Distance1D(LL(a, i), UR(a, i), LL(b, i), UR(b, i)) == Gap(a, b, i)
    ensures i >= Dim(b) ==> Distance1D(LL(a, i), UR(a, i), 0.0, 0.0) == Gap(a, b, i)
    ensures Gap(a, b, i) == Gap(b, a, i) >= 0.0
  {
  }

  /** The gap is the least distance between a number of the one interval and one of the other. */
  lemma GapIsLeast(a: Box, b: Box, i: nat)
    requires Valid(a) && Valid(b)
    ensures forall x, y :: InInterval(a, i, x) && InInterval(b, i, y) ==> Gap(a, b, i) <= Abs(x - y)
    ensures exists x, y :: InInterval(a, i, x) && InInterval(b, i, y) && Gap(a, b, i) == Abs(x - y)
  {
    var x := if Hi(a, i) < Lo(b, i) then Hi(a, i)
             else if Hi(b, i) < Lo(a, i) then Lo(a, i)
             else Max(Lo(a, i), Lo(b, i));
    var y := if Hi(a, i) < Lo(b, i) then Lo(b, i) else if Hi(b, i) < Lo(a, i) then Hi(b, i) else x;
    assert InInterval(a, i, x) && InInterval(b, i, y) && Gap(a, b, i) == Abs(x - y);
  }

  ghost predicate InInterval(b: Box, i: nat, x: real)
    requires Valid(b)
  {
    Lo(b, i) <= x <= Hi(b, i)
  }

  /** The metrics, over the first n dimensions. */
  ghost function TaxicabTo(a: Box, b: Box, n: nat): real
    requires Valid(a) && Valid(b)
  {
    if n == 0 then 0.0 else TaxicabTo(a, b, n - 1) + Gap(a, b, n - 1)
  }

  ghost function SquaresTo(a: Box, b: Box, n: nat): real
    requires Valid(a) && Valid(b)
  {
    if n == 0 then 0.0 else SquaresTo(a, b, n - 1) + Square(Gap(a, b, n - 1))
  }

  ghost function ChebyshevTo(a: Box, b: Box, n: nat): real
    requires Valid(a) && Valid(b)
  {
    if n == 0 then 0.0 else Max(Gap(a, b, n - 1), ChebyshevTo(a, b, n - 1))
  }

  lemma {:induction false} Symmetric(a: Box, b: Box, n: nat)
    requires Valid(a) && Valid(b)
    ensures TaxicabTo(a, b, n) == TaxicabTo(b, a, n)
    ensures SquaresTo(a, b, n) == SquaresTo(b, a, n)
    ensures ChebyshevTo(a, b, n) == ChebyshevTo(b, a, n)
  {
    if n == 0 {
    } else {
      Symmetric(a, b, n - 1);
      assert Gap(a, b, n - 1) == Gap(b, a, n - 1);
    }
  }

  // ---------------------------------------------------- what the metrics measure

  /** The boxes have the same interval in every dimension below n but k. */
  ghost predicate AgreeBut(q: Box, q': Box, k: nat, n: nat)
    requires Valid(q) && Valid(q')
  {
    forall i :: 0 <= i < n && i != k ==> Lo(q, i) == Lo(q', i) && Hi(q, i) == Hi(q', i)
  }

  lemma {:induction false} SumsChangeTo(a: Box, q: Box, q': Box, k: nat, n: nat)
    requires Valid(a) && Valid(q) && Valid(q') && AgreeBut(q, q', k, n)
    ensures TaxicabTo(a, q', n) - TaxicabTo(a, q, n) == if k < n then Gap(a, q', k) - Gap(a, q, k) else 0.0
    ensures SquaresTo(a, q', n) - SquaresTo(a, q, n)
         == if k < n then Square(Gap(a, q', k)) - Square(Gap(a, q, k)) else 0.0
  {
    hide Gap, Square, Lo, Hi;
    if n == 0 {
    } else {
      SumsChangeTo(a, q, q', k, n - 1);
      if n - 1 != k {
        SameGap(a, q, q', n - 1);
      }
    }
  }

  lemma SameGap(a: Box, q: Box, q': Box, i: nat)
    requires Valid(a) && Valid(q) && Valid(q') && Lo(q, i) == Lo(q', i) && Hi(q, i) == Hi(q', i)
    ensures Gap(a, q', i) == Gap(a, q, i)
  {
  }

  /** Moving the query in one dimension changes the sums by what it changes that dimension's gap, or its square. */
  lemma SumsChange(a: Box, q: Box, q': Box, k: nat, n: nat)
    requires Valid(a) && Valid(q) && Valid(q') && AgreeBut(q, q', k, n) && k < n
    ensures TaxicabTo(a, q', n) - TaxicabTo(a, q, n) == Gap(a, q', k) - Gap(a, q, k)
    ensures SquaresTo(a, q', n) - SquaresTo(a, q, n) == Gap(a, q', k) * Gap(a, q', k) - Gap(a, q, k) * Gap(a, q, k)
  {
    hide Gap, SquaresTo, TaxicabTo, AgreeBut;
    SumsChangeTo(a, q, q', k, n);
  }

  /** The intervals meet in every dimension below n. */
  ghost predicate MeetTo(a: Box, b: Box, n: nat)
    requires Valid(a) && Valid(b)
  {
    forall i :: 0 <= i < n ==> Lo(a, i) <= Hi(b, i) && Lo(b, i) <= Hi(a, i)
  }

  lemma MeetNext(a: Box, b: Box, n: nat)
    requires Valid(a) && Valid(b) && n > 0
    ensures Gap(a, b, n - 1) >= 0.0 && (MeetTo(a, b, n) <==> MeetTo(a, b, n - 1) && Gap(a, b, n - 1) == 0.0)
  {
    assert Lo(a, n - 1) <= Hi(a, n - 1) && Lo(b, n - 1) <= Hi(b, n - 1);
  }

  lemma ProductPositive(x: real, y: real, p: real)
    requires x > 0.0 && y > 0.0 && p == x * y
    ensures p > 0.0
  {
  }

  lemma SquareZero(x: real)
    requires x >= 0.0
    ensures Square(x) >= 0.0 && (Square(x) == 0.0 <==> x == 0.0)
  {
    if x > 0.0 {
      ProductPositive(x, x, Square(x));
    }
  }

  lemma {:induction false} ZeroIffTo(a: Box, b: Box, n: nat)
    requires Valid(a) && Valid(b)
    ensures TaxicabTo(a, b, n) >= 0.0 && SquaresTo(a, b, n) >= 0.0 && ChebyshevTo(a, b, n) >= 0.0
    ensures TaxicabTo(a, b, n) == 0.0 <==> MeetTo(a, b, n)
    ensures SquaresTo(a, b, n) == 0.0 <==> MeetTo(a, b, n)
    ensures ChebyshevTo(a, b, n) == 0.0 <==> MeetTo(a, b, n)
  {
    hide Gap, Square, Lo, Hi;
    if n == 0 {
    } else {
      ZeroIffTo(a, b, n - 1);
      MeetNext(a, b, n);
      SquareZero(Gap(a, b, n - 1));
    }
  }

  /** Boxes that overlap, and only they, are no distance apart in any metric. */
  lemma ZeroIff(a: Box, b: Box)
    requires Valid(a) && Valid(b)
    ensures TaxicabTo(a, b, MaxDim(a, b)) == 0.0 <==> Overlaps(a, b)
    ensures SquaresTo(a, b, MaxDim(a, b)) == 0.0 <==> Overlaps(a, b)
    ensures ChebyshevTo(a, b, MaxDim(a, b)) == 0.0 <==> Overlaps(a, b)
  {
    ZeroIffTo(a, b, MaxDim(a, b));
  }

  /** The third metric is the largest gap. */
  lemma {:induction false} ChebyshevIsLargest(a: Box, b: Box, n: nat)
    requires Valid(a) && Valid(b)
    ensures forall i :: 0 <= i < n ==> Gap(a, b, i) <= ChebyshevTo(a, b, n)
    ensures ChebyshevTo(a, b, n) == 0.0 || exists i :: 0 <= i < n && Gap(a, b, i) == ChebyshevTo(a, b, n)
  {
    hide Gap;
    if n == 0 {
    } else {
      ChebyshevIsLargest(a, b, n - 1);
    }
  }

  /** The points (3, 4) and (0, 0). */
  lemma ThreeFourFive()
    ensures var a, b := Box(2 + POINT_BIT, [3.0, 4.0]), Box(2 + POINT_BIT, [0.0, 0.0]);
            && Valid(a) && Valid(b) && MaxDim(a, b) == 2
            && TaxicabTo(a, b, 2) == 7.0 && SquaresTo(a, b, 2) == 25.0 && ChebyshevTo(a, b, 2) == 4.0
  {
    var a, b := Box(2 + POINT_BIT, [3.0, 4.0]), Box(2 + POINT_BIT, [0.0, 0.0]);
    assert Dim(a) == 2 && IsPoint(a) && Dim(b) == 2 && IsPoint(b);
    assert Gap(a, b, 0) == 3.0 && Gap(a, b, 1) == 4.0;
    assert SquaresTo(a, b, 1) == SquaresTo(a, b, 0) + Square(Gap(a, b, 0)) == 9.0;
    assert TaxicabTo(a, b, 0) == 0.0 && ChebyshevTo(a, b, 0) == 0.0;
    assert TaxicabTo(a, b, 1) == 3.0 && ChebyshevTo(a, b, 1) == Max(Gap(a, b, 0), ChebyshevTo(a, b, 0)) == 3.0;
  }

  method Taxicab(a0: Box, b0: Box) returns (distance: real)
    requires Valid(a0) && Valid(b0)
    ensures distance == TaxicabTo(a0, b0, MaxDim(a0, b0))
  {
    var a, b := a0, b0;
    if Dim(a) < Dim(b) {
      a, b := b, a;
      Symmetric(a, b, Dim(a));
    }
    distance := 0.0;
    for i := 0 to Dim(b)
      invariant distance == TaxicabTo(a, b, i)
    {
      Distance1DIsGap(a, b, i);
      distance := distance + Abs(Distance1D(LL(a, i), UR(a, i), LL(b, i), UR(b, i)));
    }
    for i := Dim(b) to Dim(a)
      invariant distance == TaxicabTo(a, b, i)
    {
      Distance1DIsGap(a, b, i);
      distance := distance + Abs(Distance1D(LL(a, i), UR(a, i), 0.0, 0.0));
    }
  }

  /** The Euclidean distance before the square root is taken. */
  method SquaredEuclid(a0: Box, b0: Box) returns (distance: real)
    requires Valid(a0) && Valid(b0)
    ensures distance == SquaresTo(a0, b0, MaxDim(a0, b0))
  {
    hide Gap, Square, Distance1D;
    var a, b := a0, b0;
    if Dim(a) < Dim(b) {
      a, b := b, a;
      Symmetric(a, b, Dim(a));
    }
    distance := 0.0;
    for i := 0 to Dim(b)
      invariant distance == SquaresTo(a, b, i)
    {
      Distance1DIsGap(a, b, i);
      var d := Distance1D(LL(a, i), UR(a, i), LL(b, i), UR(b, i));
      distance := distance + Square(d);
    }
    for i := Dim(b) to Dim(a)
      invariant distance == SquaresTo(a, b, i)
    {
      Distance1DIsGap(a, b, i);
      var d := Distance1D(LL(a, i), UR(a, i), 0.0, 0.0);
      distance := distance + Square(d);
    }
  }

  method Chebyshev(a0: Box, b0: Box) returns (distance: real)
    requires Valid(a0) && Valid(b0)
    ensures distance == ChebyshevTo(a0, b0, MaxDim(a0, b0))
  {
    var a, b := a0, b0;
    if Dim(a) < Dim(b) {
      a, b := b, a;
      Symmetric(a, b, Dim(a));
    }
    distance := 0.0;
    for i := 0 to Dim(b)
      invariant distance == ChebyshevTo(a, b, i)
    {
      Distance1DIsGap(a, b, i);
      var d := Abs(Distance1D(LL(a, i), UR(a, i), LL(b, i), UR(b, i)));
      if d > distance {
        distance := d;
      }
    }
    for i := Dim(b) to Dim(a)
      invariant distance == ChebyshevTo(a, b, i)
    {
      Distance1DIsGap(a, b, i);
      var d := Abs(Distance1D(LL(a, i), UR(a, i), 0.0, 0.0));
      if d > distance {
        distance := d;
      }
    }
  }

  // ------------------------------------------------------------- coordinates

  datatype Result = Ok(value: real) | ZeroIndex

  /**
   * The ordering by one signed coordinate; odd ones are lower bounds, even ones
   * upper. The least 32-bit integer stays itself when negated, and compared with
   * the unsigned number of coordinates it is past them all.
   */
  function Coordinate(b: Box, coord0: int, isLeaf: bool): Result
    requires Valid(b) && IsInt32(coord0)
  {
    if coord0 == 0 then ZeroIndex
    else
      var inverse := coord0 < 0;
      var coord := if inverse then ToInt32(-coord0) else coord0;
      var v :=
        if 0 <= coord <= 2 * Dim(b) then
          var index := (coord - 1) / 2;
          if IsPoint(b) then b.x[index]
          else if isLeaf then
            if (coord - 1) % 2 == 1 then Max(b.x[index], b.x[index + Dim(b)]) else Min(b.x[index], b.x[index + Dim(b)])
          else
            if !inverse then Min(b.x[index], b.x[index + Dim(b)]) else Max(b.x[index], b.x[index + Dim(b)])
        else 0.0;
      Ok(if inverse then -v else v)
  }

  /** What a leaf answers: the named bound of the named dimension, negated for negative coordinates. */
  lemma LeafCoordinate(b: Box, coord: int)
    requires Valid(b) && IsInt32(coord) && coord != 0
    ensures var c := if coord < 0 then -coord else coord;
            var v := if c % 2 == 0 then Hi(b, (c - 1) / 2) else Lo(b, (c - 1) / 2);
            Coordinate(b, coord, true) == Ok(if coord == -TWO31 then 0.0 else if coord < 0 then -v else v)
  {
  }

  lemma InnerCoordinate(b: Box, coord: int)
    requires Valid(b) && IsInt32(coord) && coord != 0
    ensures var c := if coord < 0 then -coord else coord;
            Coordinate(b, coord, false)
            == Ok(if coord == -TWO31 then 0.0 else if coord < 0 then -Hi(b, (c - 1) / 2) else Lo(b, (c - 1) / 2))
  {
  }

  // ------------------------------------------------------------ lower bounds

  lemma GapShrinks(key: Box, b: Box, q: Box, i: nat)
    requires Covers(key, b) && Valid(q)
    ensures 0.0 <= Gap(key, q, i) <= Gap(b, q, i)
  {
    assert Lo(key, i) <= Lo(b, i) <= Hi(b, i) <= Hi(key, i);
    assert Lo(q, i) <= Hi(q, i);
  }

  lemma {:induction false} SumsShrink(key: Box, b: Box, q: Box, n: nat)
    requires Covers(key, b) && Valid(q)
    ensures TaxicabTo(key, q, n) <= TaxicabTo(b, q, n)
    ensures SquaresTo(key, q, n) <= SquaresTo(b, q, n)
    ensures ChebyshevTo(key, q, n) <= ChebyshevTo(b, q, n)
  {
    hide Gap, Square, Lo, Hi;
    if n == 0 {
    } else {
      SumsShrink(key, b, q, n - 1);
      GapShrinks(key, b, q, n - 1);
      Squares(Gap(key, q, n - 1), Gap(b, q, n - 1));
    }
  }

  lemma Squares(x: real, y: real)
    requires 0.0 <= x <= y
    ensures Square(x) <= Square(y)
  {
    assert x * x <= x * y;
  }

  /** Dimensions neither box has add nothing. */
  lemma {:induction false} NoTail(a: Box, b: Box, n: nat)
    requires Valid(a) && Valid(b) && n >= MaxDim(a, b)
    ensures TaxicabTo(a, b, n) == TaxicabTo(a, b, MaxDim(a, b))
    ensures SquaresTo(a, b, n) == SquaresTo(a, b, MaxDim(a, b))
    ensures ChebyshevTo(a, b, n) == ChebyshevTo(a, b, MaxDim(a, b))
  {
    if n <= MaxDim(a, b) {
    } else {
      NoTail(a, b, n - 1);
      assert Gap(a, b, n - 1) == 0.0;
      NotNegative(a, b, n - 1);
    }
  }

  lemma {:induction false} NotNegative(a: Box, b: Box, n: nat)
    requires Valid(a) && Valid(b)
    ensures ChebyshevTo(a, b, n) >= 0.0
  {
    if n == 0 {
    } else {
      NotNegative(a, b, n - 1);
    }
  }

  /** No inner key is farther than a box below it, in any of the four orderings. */
  lemma DistanceLowerBound(t: Tree<Box, Box>, b: Box, q: Box, coord: int)
    requires Built(t, Itself, UnionOf()) && Below(t, b) && Valid(b) && Valid(q)
    requires IsInt32(coord) && coord != 0
    ensures var key := KeyOf(t, Itself);
            && Valid(key)
            && TaxicabTo(key, q, MaxDim(key, q)) <= TaxicabTo(b, q, MaxDim(b, q))
            && SquaresTo(key, q, MaxDim(key, q)) <= SquaresTo(b, q, MaxDim(b, q))
            && ChebyshevTo(key, q, MaxDim(key, q)) <= ChebyshevTo(b, q, MaxDim(b, q))
            && Coordinate(key, coord, false).value <= Coordinate(b, coord, true).value
  {
    var key := KeyOf(t, Itself);
    NestedUnionCovers(t, b);
    var n := MaxDim(key, q);
    SumsShrink(key, b, q, n);
    NoTail(b, q, n);
    CoordinateShrinks(key, b, coord);
  }

  lemma CoordinateShrinks(key: Box, b: Box, coord: int)
    requires Covers(key, b) && IsInt32(coord) && coord != 0
    ensures Coordinate(key, coord, false).value <= Coordinate(b, coord, true).value
  {
    InnerCoordinate(key, coord);
    LeafCoordinate(b, coord);
    var i := ((if coord < 0 then -coord else coord) - 1) / 2;
    assert Lo(key, i) <= Lo(b, i) <= Hi(b, i) <= Hi(key, i);
  }
}
