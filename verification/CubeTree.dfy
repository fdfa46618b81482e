/**
 * Keys over many boxes: the union of a page, Guttman's split of one, and the
 * search through a tree of such keys.
 */
module CubeTree {
  import opened Cube
  import opened GistTree

  ghost predicate AllValid(entries: seq<Box>) {
    forall i :: 0 <= i < |entries| ==> Valid(entries[i])
  }

  // -------------------------------------------------------------------- hulls

  ghost predicate LoAttained(entries: seq<Box>, some: set<nat>, k: Box, i: nat)
    requires AllValid(entries) && Valid(k)
  {
    exists o :: o in some && o < |entries| && Lo(entries[o], i) == Lo(k, i)
  }

  ghost predicate HiAttained(entries: seq<Box>, some: set<nat>, k: Box, i: nat)
    requires AllValid(entries) && Valid(k)
  {
    exists o :: o in some && o < |entries| && Hi(entries[o], i) == Hi(k, i)
  }

  /** The least box around some of the entries. */
  ghost predicate IsHull(entries: seq<Box>, some: set<nat>, k: Box) {
    && AllValid(entries) && Valid(k)
    && (forall o :: o in some && o < |entries| ==> Covers(k, entries[o]))
    && (exists o :: o in some && o < |entries| && Dim(entries[o]) == Dim(k))
    && (forall i :: 0 <= i < Dim(k) ==> LoAttained(entries, some, k, i) && HiAttained(entries, some, k, i))
  }

  /** It covers them, and every box that does covers it. */
  lemma HullIsLeast(entries: seq<Box>, some: set<nat>, k: Box, other: Box)
    requires IsHull(entries, some, k) && forall o :: o in some && o < |entries| ==> Covers(other, entries[o])
    ensures (forall o :: o in some && o < |entries| ==> Covers(k, entries[o])) && Covers(other, k)
  {
    hide Lo, Hi;
    var p :| p in some && p < |entries| && Dim(entries[p]) == Dim(k);
    assert Covers(other, entries[p]);
    forall i | 0 <= i < Dim(other)
      ensures Lo(other, i) <= Lo(k, i) && Hi(k, i) <= Hi(other, i)
    {
      if i < Dim(k) {
        assert LoAttained(entries, some, k, i) && HiAttained(entries, some, k, i);
        var l :| l in some && l < |entries| && Lo(entries[l], i) == Lo(k, i);
        var h :| h in some && h < |entries| && Hi(entries[h], i) == Hi(k, i);
        assert Covers(other, entries[l]) && Covers(other, entries[h]);
      } else {
        BoundsAre(k, i);
        BoundsAre(entries[p], i);
      }
    }
  }

  lemma HullOfOne(entries: seq<Box>, o: nat)
    requires AllValid(entries) && o < |entries|
    ensures IsHull(entries, {o}, entries[o]) && Valid(entries[o])
  {
  }

  lemma UnionCovers(a: Box, b: Box, r: Box, e: Box)
    requires Valid(a) && Valid(b) && IsUnion(a, b, r) && (Covers(a, e) || Covers(b, e))
    ensures Covers(r, e)
  {
    forall i | 0 <= i < Dim(r)
      ensures Lo(r, i) <= Lo(e, i) && Hi(e, i) <= Hi(r, i)
    {
      var c := if Covers(a, e) then a else b;
      if i >= Dim(c) {
        assert Lo(c, i) == Lo(e, i) == 0.0 == Hi(c, i) == Hi(e, i);
      }
    }
  }

  lemma AttainedGrows(entries: seq<Box>, some: set<nat>, k: Box, o: nat, r: Box, i: nat)
    requires IsHull(entries, some, k) && o < |entries| && IsUnion(k, entries[o], r) && i < Dim(r)
    ensures LoAttained(entries, some + {o}, r, i) && HiAttained(entries, some + {o}, r, i)
  {
    var p :| p in some && p < |entries| && Dim(entries[p]) == Dim(k);
    if i < Dim(k) {
      assert LoAttained(entries, some, k, i) && HiAttained(entries, some, k, i);
      var l :| l in some && l < |entries| && Lo(entries[l], i) == Lo(k, i);
      var h :| h in some && h < |entries| && Hi(entries[h], i) == Hi(k, i);
      assert l in some + {o} && h in some + {o} && o in some + {o};
    } else {
      assert Lo(entries[p], i) == Lo(k, i) == 0.0 == Hi(entries[p], i) == Hi(k, i);
      assert p in some + {o} && o in some + {o};
    }
  }

  /** Uniting a hull with one more entry gives the hull of both. */
  lemma HullGrows(entries: seq<Box>, some: set<nat>, k: Box, o: nat, r: Box)
    requires IsHull(entries, some, k) && o < |entries| && IsUnion(k, entries[o], r)
    ensures IsHull(entries, some + {o}, r) && Valid(r)
  {
    forall p | p in some + {o} && p < |entries|
      ensures Covers(r, entries[p])
    {
      UnionCovers(k, entries[o], r, entries[p]);
    }
    forall i | 0 <= i < Dim(r)
      ensures LoAttained(entries, some + {o}, r, i) && HiAttained(entries, some + {o}, r, i)
    {
      AttainedGrows(entries, some, k, o, r, i);
    }
    var p :| p in some && p < |entries| && Dim(entries[p]) == Dim(k);
    assert p in some + {o} && o in some + {o};
  }

  ghost function FirstOffsets(n: nat): (r: set<nat>)
    ensures forall o :: o in r <==> 0 <= o < n
  {
    if n == 0 then {} else FirstOffsets(n - 1) + {n - 1}
  }

  datatype UnionKey = NoKey | Key(box: Box)

  /** The union method over a page; a single entry leaves it without a result. */
  method GistUnion(entries: seq<Box>) returns (out: UnionKey)
    requires |entries| >= 1 && AllValid(entries)
    ensures out.NoKey? <==> |entries| == 1
    ensures out.Key? ==> IsHull(entries, FirstOffsets(|entries|), out.box)
  {
    hide IsHull, IsUnion, IsPoint;
    out := NoKey;
    var tmp := entries[0];
    HullOfOne(entries, 0);
    assert FirstOffsets(1) == {0};
    for i := 1 to |entries|
      invariant IsHull(entries, FirstOffsets(i), tmp) && Valid(tmp)
      invariant out == if i == 1 then NoKey else Key(tmp)
    {
      var next := Union(tmp, entries[i], false);
      HullGrows(entries, FirstOffsets(i), tmp, i, next);
      tmp := next;
      out := Key(next);
    }
  }

  // -------------------------------------------------------------------- split

  /** Two ascending lists that share out the offsets 1 up to i - 1. */
  ghost predicate Shared(left: seq<nat>, right: seq<nat>, i: nat) {
    && Ascending(left, i) && Ascending(right, i)
    && forall o :: 1 <= o < i ==> (o in left <==> o !in right)
  }

  ghost predicate Ascending(s: seq<nat>, i: nat) {
    && (forall k :: 0 <= k < |s| ==> 1 <= s[k] < i)
    && (forall j, k :: 0 <= j < k < |s| ==> s[j] < s[k])
  }

  lemma PutLeft(left: seq<nat>, right: seq<nat>, i: nat)
    requires 1 <= i && Shared(left, right, i)
    ensures Shared(left + [i], right, i + 1)
  {
    assert i !in right;
    forall o | 1 <= o < i + 1
      ensures o in left + [i] <==> o !in right
    {
      assert o in left + [i] <==> o in left || o == i;
    }
  }

  lemma PutRight(left: seq<nat>, right: seq<nat>, i: nat)
    requires 1 <= i && Shared(left, right, i)
    ensures Shared(left, right + [i], i + 1)
  {
    PutLeft(right, left, i);
  }

  /** What uniting the entries at two offsets wastes. */
  function WasteAt(entries: seq<Box>, waste: (Box, Box) -> real, i: nat, j: nat): real
    requires 1 <= i <= |entries| && 1 <= j <= |entries|
  {
    waste(entries[i - 1], entries[j - 1])
  }

  /** The pair whose union wastes most, the new entry at the end left aside. */
  method PickSeeds(entries: seq<Box>, waste: (Box, Box) -> real) returns (seed1: nat, seed2: nat)
    requires |entries| >= 2
    ensures 1 <= seed1 < seed2 <= |entries|
    ensures forall i, j :: 1 <= i < j < |entries| ==>
              WasteAt(entries, waste, i, j) <= WasteAt(entries, waste, seed1, seed2)
  {
    seed1, seed2 := 1, 2;
    var firsttime, most := true, 0.0;
    var maxoff := |entries| - 1;
    var i := 1;
    while i < maxoff
      invariant 1 <= i && 1 <= seed1 < seed2 <= |entries|
      invariant firsttime ==> i == 1
      invariant !firsttime ==> most == WasteAt(entries, waste, seed1, seed2)
      invariant forall k, j :: 1 <= k < i && k < j <= maxoff ==> WasteAt(entries, waste, k, j) <= most
    {
      var j := i + 1;
      while j <= maxoff
        invariant i < j <= maxoff + 1 && 1 <= seed1 < seed2 <= |entries|
        invariant firsttime ==> i == 1 && j == 2
        invariant !firsttime ==> most == WasteAt(entries, waste, seed1, seed2)
        invariant forall k, l :: 1 <= k < i && k < l <= maxoff ==> WasteAt(entries, waste, k, l) <= most
        invariant forall l :: i < l < j ==> WasteAt(entries, waste, i, l) <= most
      {
        var sizeWaste := WasteAt(entries, waste, i, j);
        if sizeWaste > most || firsttime {
          most, seed1, seed2, firsttime := sizeWaste, i, j, false;
        }
        j := j + 1;
      }
      i := i + 1;
    }
  }

  /** The box is the hull of the entries at the listed offsets and at the seed. */
  ghost predicate SideBox(entries: seq<Box>, list: seq<nat>, seed: nat, datum: Box) {
    exists some: set<nat> :: Listed(list, seed, some) && IsHull(entries, some, datum)
  }

  ghost predicate Listed(list: seq<nat>, seed: nat, some: set<nat>) {
    forall o :: o in some <==> o + 1 == seed || o + 1 in list
  }

  lemma SideStart(entries: seq<Box>, seed: nat)
    requires AllValid(entries) && 1 <= seed <= |entries|
    ensures SideBox(entries, [], seed, entries[seed - 1])
  {
    HullOfOne(entries, seed - 1);
    assert Listed([], seed, {seed - 1});
  }

  lemma SideGrows(entries: seq<Box>, list: seq<nat>, seed: nat, datum: Box, i: nat, r: Box)
    requires SideBox(entries, list, seed, datum) && 1 <= i <= |entries|
    requires Valid(datum) && Valid(entries[i - 1]) && IsUnion(datum, entries[i - 1], r)
    ensures SideBox(entries, list + [i], seed, r)
  {
    var some: set<nat> :| Listed(list, seed, some) && IsHull(entries, some, datum);
    HullGrows(entries, some, datum, i - 1, r);
    assert Listed(list + [i], seed, some + {i - 1});
  }

  lemma SideSeed(entries: seq<Box>, list: seq<nat>, seed: nat, datum: Box)
    requires SideBox(entries, list, seed, datum) && 1 <= seed
    ensures SideBox(entries, list + [seed], seed, datum)
  {
    var some: set<nat> :| Listed(list, seed, some) && IsHull(entries, some, datum);
    assert Listed(list + [seed], seed, some);
  }

  /** The array begins with the list. */
  ghost predicate Holds(spl: array<nat>, n: nat, list: seq<nat>)
    reads spl
  {
    n == |list| <= spl.Length && spl[..n] == list
  }

  lemma HoldsLength(spl: array<nat>, n: nat, list: seq<nat>)
    requires Holds(spl, n, list)
    ensures n == |list|
  {
  }

  method Append(spl: array<nat>, n: nat, i: nat, ghost list: seq<nat>)
    requires n < spl.Length && Holds(spl, n, list)
    modifies spl
    ensures Holds(spl, n + 1, list + [i])
  {
    spl[n] := i;
  }

  method NewList(length: nat) returns (spl: array<nat>)
    ensures fresh(spl) && spl.Length == length && Holds(spl, 0, [])
  {
    spl := new nat[length];
  }

  /** The sentinel after the last offset. */
  method Close(spl: array<nat>, n: nat, ghost list: seq<nat>)
    requires n < spl.Length && Holds(spl, n, list)
    modifies spl
    ensures spl[..n] == list && spl[n] == 1
  {
    spl[n] := 1;
  }

  /** What the distribution keeps after placing the offsets below i. */
  ghost predicate Placed(entries: seq<Box>, left: seq<nat>, right: seq<nat>, i: nat,
                         seed1: nat, seed2: nat, ldatum: Box, rdatum: Box) {
    && Valid(ldatum) && Valid(rdatum) && Shared(left, right, i) && |left| + |right| == i - 1
    && SideBox(entries, left, seed1, ldatum) && SideBox(entries, right, seed2, rdatum)
    && (seed1 < i ==> seed1 in left) && (seed2 < i ==> seed2 in right)
  }

  lemma PlaceLeft(entries: seq<Box>, left: seq<nat>, right: seq<nat>, i: nat,
                  seed1: nat, seed2: nat, ldatum: Box, rdatum: Box, r: Box)
    requires Placed(entries, left, right, i, seed1, seed2, ldatum, rdatum)
    requires AllValid(entries) && 1 <= i <= |entries| && i != seed2
    requires if i == seed1 then r == ldatum else IsUnion(ldatum, entries[i - 1], r)
    ensures Placed(entries, left + [i], right, i + 1, seed1, seed2, r, rdatum)
  {
    hide SideBox, Shared;
    PutLeft(left, right, i);
    if i == seed1 {
      SideSeed(entries, left, seed1, ldatum);
    } else {
      SideGrows(entries, left, seed1, ldatum, i, r);
    }
  }

  lemma PlaceRight(entries: seq<Box>, left: seq<nat>, right: seq<nat>, i: nat,
                   seed1: nat, seed2: nat, ldatum: Box, rdatum: Box, r: Box)
    requires Placed(entries, left, right, i, seed1, seed2, ldatum, rdatum)
    requires AllValid(entries) && 1 <= i <= |entries| && i != seed1
    requires if i == seed2 then r == rdatum else IsUnion(rdatum, entries[i - 1], r)
    ensures Placed(entries, left, right + [i], i + 1, seed1, seed2, ldatum, r)
  {
    hide SideBox, Shared;
    PutRight(left, right, i);
    if i == seed2 {
      SideSeed(entries, right, seed2, rdatum);
    } else {
      SideGrows(entries, right, seed2, rdatum, i, r);
    }
  }

  /**
   * Guttman's split. Whatever the sizes, each offset goes to exactly one of two
   * nonempty ascending lists, each list fits its array with room for a sentinel,
   * and each box is the hull of its side.
   */
  method PickSplit(entries: seq<Box>, size: Box -> real, waste: (Box, Box) -> real)
    returns (splLeft: array<nat>, nleft: nat, splRight: array<nat>, nright: nat, ldatum: Box, rdatum: Box)
    requires |entries| >= 2 && AllValid(entries)
    ensures 0 < nleft < splLeft.Length == |entries| + 1 && 0 < nright < splRight.Length == |entries| + 1
    ensures nleft + nright == |entries| && splLeft[nleft] == splRight[nright] == 1
    ensures Shared(splLeft[..nleft], splRight[..nright], |entries| + 1)
    ensures SideBox(entries, splLeft[..nleft], splLeft[0], ldatum)
    ensures SideBox(entries, splRight[..nright], splRight[0], rdatum)
  {
    hide SideBox, Shared, Placed, IsUnion, Valid, IsPoint, WasteAt, Dim, Holds;
    var seed1, seed2 := PickSeeds(entries, waste);
    splLeft := NewList(|entries| + 1);
    splRight := NewList(|entries| + 1);
    nleft, nright := 0, 0;
    ldatum := Union(entries[seed1 - 1], entries[seed1 - 1], true);
    rdatum := Union(entries[seed2 - 1], entries[seed2 - 1], true);
    var sizeL, sizeR := size(ldatum), size(rdatum);
    ghost var left: seq<nat>, right: seq<nat> := [], [];
    NonePlaced(entries, seed1, seed2);
    for i := 1 to |entries| + 1
      invariant Holds(splLeft, nleft, left) && Holds(splRight, nright, right) && nleft + nright == i - 1
      invariant Placed(entries, left, right, i, seed1, seed2, ldatum, rdatum) && Valid(ldatum) && Valid(rdatum)
    {
      if i == seed1 {
        PlaceLeft(entries, left, right, i, seed1, seed2, ldatum, rdatum, ldatum);
        Append(splLeft, nleft, i, left);
        nleft, left := nleft + 1, left + [i];
        continue;
      } else if i == seed2 {
        PlaceRight(entries, left, right, i, seed1, seed2, ldatum, rdatum, rdatum);
        Append(splRight, nright, i, right);
        nright, right := nright + 1, right + [i];
        continue;
      }
      var unionL := Union(ldatum, entries[i - 1], false);
      var unionR := Union(rdatum, entries[i - 1], false);
      var sizeAlpha, sizeBeta := size(unionL), size(unionR);
      if sizeAlpha - sizeL < sizeBeta - sizeR {
        PlaceLeft(entries, left, right, i, seed1, seed2, ldatum, rdatum, unionL);
        Append(splLeft, nleft, i, left);
        nleft, left := nleft + 1, left + [i];
        ldatum, sizeL := unionL, sizeAlpha;
      } else {
        PlaceRight(entries, left, right, i, seed1, seed2, ldatum, rdatum, unionR);
        Append(splRight, nright, i, right);
        nright, right := nright + 1, right + [i];
        rdatum, sizeR := unionR, sizeBeta;
      }
    }
    AllPlaced(entries, left, right, seed1, seed2, ldatum, rdatum);
    assert nleft == |left| && nright == |right| by {
      HoldsLength(splLeft, nleft, left);
      HoldsLength(splRight, nright, right);
    }
    Close(splLeft, nleft, left);
    Close(splRight, nright, right);
  }

  lemma NonePlaced(entries: seq<Box>, seed1: nat, seed2: nat)
    requires AllValid(entries) && 1 <= seed1 <= |entries| && 1 <= seed2 <= |entries|
    ensures Placed(entries, [], [], 1, seed1, seed2, entries[seed1 - 1], entries[seed2 - 1])
  {
    SideStart(entries, seed1);
    SideStart(entries, seed2);
  }

  /** Once the seed is in the list, any listed offset will do in its place. */
  lemma SideReseed(entries: seq<Box>, list: seq<nat>, seed: nat, datum: Box)
    requires SideBox(entries, list, seed, datum) && seed in list
    ensures SideBox(entries, list, list[0], datum)
  {
    var some: set<nat> :| Listed(list, seed, some) && IsHull(entries, some, datum);
    assert Listed(list, list[0], some);
  }

  lemma AllPlaced(entries: seq<Box>, left: seq<nat>, right: seq<nat>,
                  seed1: nat, seed2: nat, ldatum: Box, rdatum: Box)
    requires Placed(entries, left, right, |entries| + 1, seed1, seed2, ldatum, rdatum)
    requires seed1 <= |entries| && seed2 <= |entries|
    ensures |left| > 0 && |right| > 0 && Shared(left, right, |entries| + 1)
    ensures SideBox(entries, left, left[0], ldatum) && SideBox(entries, right, right[0], rdatum)
  {
    SideReseed(entries, left, seed1, ldatum);
    SideReseed(entries, right, seed2, rdatum);
  }

  /** The boxes at the listed offsets. */
  function Chosen(entries: seq<Box>, list: seq<nat>): (r: seq<Box>)
    requires forall k :: 0 <= k < |list| ==> 1 <= list[k] <= |entries|
    ensures |r| == |list| && forall k :: 0 <= k < |list| ==> r[k] == entries[list[k] - 1]
  {
    seq(|list|, k requires 0 <= k < |list| => entries[list[k] - 1])
  }

  lemma LoMoves(entries: seq<Box>, list: seq<nat>, some: set<nat>, datum: Box, i: nat)
    requires |list| > 0 && (forall k :: 0 <= k < |list| ==> 1 <= list[k] <= |entries|)
    requires AllValid(entries) && AllValid(Chosen(entries, list)) && Valid(datum)
    requires Listed(list, list[0], some) && LoAttained(entries, some, datum, i)
    ensures LoAttained(Chosen(entries, list), FirstOffsets(|list|), datum, i)
  {
    hide Lo, Hi, Valid;
    var o :| o in some && o < |entries| && Lo(entries[o], i) == Lo(datum, i);
    var k := Position(list, o);
    assert Chosen(entries, list)[k] == entries[o];
  }

  lemma HiMoves(entries: seq<Box>, list: seq<nat>, some: set<nat>, datum: Box, i: nat)
    requires |list| > 0 && (forall k :: 0 <= k < |list| ==> 1 <= list[k] <= |entries|)
    requires AllValid(entries) && AllValid(Chosen(entries, list)) && Valid(datum)
    requires Listed(list, list[0], some) && HiAttained(entries, some, datum, i)
    ensures HiAttained(Chosen(entries, list), FirstOffsets(|list|), datum, i)
  {
    hide Lo, Hi, Valid;
    var o :| o in some && o < |entries| && Hi(entries[o], i) == Hi(datum, i);
    var k := Position(list, o);
    assert Chosen(entries, list)[k] == entries[o];
  }

  /** A side's box is a union of the side's entries, as if computed by the union method. */
  lemma SideIsUnion(entries: seq<Box>, list: seq<nat>, datum: Box)
    requires |list| > 0 && Ascending(list, |entries| + 1) && SideBox(entries, list, list[0], datum)
    ensures Hulls(Chosen(entries, list), datum)
  {
    var some: set<nat> :| Listed(list, list[0], some) && IsHull(entries, some, datum);
    SideHulls(entries, list, some, datum);
  }

  lemma SideHulls(entries: seq<Box>, list: seq<nat>, some: set<nat>, datum: Box)
    requires |list| > 0 && Ascending(list, |entries| + 1)
    requires Listed(list, list[0], some) && IsHull(entries, some, datum)
    ensures Hulls(Chosen(entries, list), datum)
  {
    hide Lo, Hi, Covers, LoAttained, HiAttained, Dim;
    var chosen := Chosen(entries, list);
    forall i | 0 <= i < Dim(datum)
      ensures LoAttained(chosen, FirstOffsets(|chosen|), datum, i)
      ensures HiAttained(chosen, FirstOffsets(|chosen|), datum, i)
    {
      LoMoves(entries, list, some, datum, i);
      HiMoves(entries, list, some, datum, i);
    }
    var o :| o in some && o < |entries| && Dim(entries[o]) == Dim(datum);
    var o' := Position(list, o);
    assert chosen[o'] == entries[o];
    forall k | k in FirstOffsets(|chosen|) && k < |chosen|
      ensures Covers(datum, chosen[k])
    {
      assert list[k] - 1 in some;
    }
  }

  lemma Position(list: seq<nat>, o: nat) returns (k: nat)
    requires |list| > 0 && (o + 1 == list[0] || o + 1 in list)
    ensures k < |list| && list[k] == o + 1
  {
    k :| 0 <= k < |list| && list[k] == o + 1;
  }

  // -------------------------------------------------------------------- trees

  ghost predicate Hulls(entries: seq<Box>, k: Box) {
    IsHull(entries, FirstOffsets(|entries|), k)
  }

  ghost function UnionOf(): (seq<Box>, Box) -> bool {
    (entries, k) => Hulls(entries, k)
  }

  function Itself(b: Box): Box {
    b
  }

  /** The key covers the box; invalid boxes are not stored. */
  ghost function Spans(): (Box, Box) -> bool {
    (k, b) => Valid(b) ==> Covers(k, b)
  }

  lemma KeysAreSound()
    ensures UnionKeeps(UnionOf(), Spans()) && LeafCovered(Itself, Spans())
  {
    forall entries, key, i, b | Hulls(entries, key) && 0 <= i < |entries| && Spans()(entries[i], b)
      ensures Spans()(key, b)
    {
      assert i in FirstOffsets(|entries|);
      if Valid(b) {
        CoversTransitive(key, entries[i], b);
      }
    }
  }

  lemma CoversTransitive(a: Box, b: Box, c: Box)
    requires Covers(a, b) && Covers(b, c)
    ensures Covers(a, c)
  {
    forall i | 0 <= i < Dim(a)
      ensures Lo(a, i) <= Lo(c, i) && Hi(c, i) <= Hi(a, i)
    {
      assert Lo(a, i) <= Lo(b, i) && Hi(b, i) <= Hi(a, i);
    }
  }

  /** However high the tree, its key spans every box below in every dimension. */
  lemma {:induction false} NestedUnionCovers(t: Tree<Box, Box>, b: Box)
    requires Built(t, Itself, UnionOf()) && Below(t, b) && Valid(b)
    ensures Covers(KeyOf(t, Itself), b)
  {
    KeysAreSound();
    KeyCovers(t, Itself, UnionOf(), Spans(), b);
    assert Spans()(KeyOf(t, Itself), b);
  }

  /** A key over any nesting of unions is accepted whenever a box below is an answer. */
  lemma {:induction false} NestedUnionAccepts(t: Tree<Box, Box>, b: Box, query: Box, s: Strategy)
    requires Built(t, Itself, UnionOf()) && Below(t, b) && Valid(b) && Valid(query) && Satisfies(s, b, query)
    requires IsContainedBy(s) ==> SpansZero(query, b)
    ensures Valid(KeyOf(t, Itself)) && InternalAccepts(s, KeyOf(t, Itself), query)
  {
    NestedUnionCovers(t, b);
    CoveredIsAccepted(KeyOf(t, Itself), b, query, s);
  }

  ghost function Wanted(s: Strategy, query: Box): Box -> bool
    requires Valid(query)
  {
    b => Valid(b) && Satisfies(s, b, query)
  }

  ghost function NodeTest(s: Strategy, query: Box): Box -> bool
    requires Valid(query)
  {
    k => Valid(k) && InternalAccepts(s, k, query)
  }

  /** Search finds all answers and nothing else: overlap, same and contains for every query. */
  lemma SearchExact(t: Tree<Box, Box>, query: Box, s: Strategy)
    requires Built(t, Itself, UnionOf()) && Valid(query) && !IsContainedBy(s)
    ensures Search(t, Wanted(s, query), NodeTest(s, query)) == Answers(t, Wanted(s, query))
  {
    KeysAreSound();
    forall k, b | Spans()(k, b) && Wanted(s, query)(b)
      ensures NodeTest(s, query)(k)
    {
      CoveredIsAccepted(k, b, query, s);
    }
    SearchIsExact(t, Itself, UnionOf(), Spans(), Wanted(s, query), Wanted(s, query), NodeTest(s, query));
  }

  ghost function WantedAcrossZero(s: Strategy, query: Box): Box -> bool
    requires Valid(query)
  {
    b => Valid(b) && Satisfies(s, b, query) && SpansZero(query, b)
  }

  /** Contained-by search is exact too when the query spans zero wherever an answer has no dimension. */
  lemma {:induction false} ContainedBySearchExact(t: Tree<Box, Box>, query: Box, s: Strategy)
    requires Built(t, Itself, UnionOf()) && Valid(query)
    requires forall b :: Below(t, b) && Valid(b) && Satisfies(s, b, query) ==> SpansZero(query, b)
    ensures Search(t, Wanted(s, query), NodeTest(s, query)) == Answers(t, Wanted(s, query))
  {
    KeysAreSound();
    forall k, b | Spans()(k, b) && WantedAcrossZero(s, query)(b)
      ensures NodeTest(s, query)(k)
    {
      CoveredIsAccepted(k, b, query, s);
    }
    var wanted := WantedAcrossZero(s, query);
    SearchIsExact(t, Itself, UnionOf(), Spans(), wanted, wanted, NodeTest(s, query));
    SameAnswers(t, Wanted(s, query), WantedAcrossZero(s, query), NodeTest(s, query));
  }
}
