/**
 * GiST keys for numbers: closed ranges, exact arithmetic.
 */
module NumKey {
  import opened GistTree
  import opened Offsets

  datatype Range = Range(lower: real, upper: real)

  function LeafRange(v: real): Range {
    Range(v, v)
  }

  function Min(a: real, b: real): real {
    if b < a then b else a
  }

  function Max(a: real, b: real): real {
    if a < b then b else a
  }

  /** The least range around the first n entries. */
  ghost predicate HullTo(entries: seq<Range>, n: nat, r: Range)
    requires n <= |entries|
  {
    && (forall i :: 0 <= i < n ==> r.lower <= entries[i].lower && entries[i].upper <= r.upper)
    && (exists i :: 0 <= i < n && r.lower == entries[i].lower)
    && (exists i :: 0 <= i < n && r.upper == entries[i].upper)
  }

  ghost predicate IsHull(entries: seq<Range>, r: Range) {
    HullTo(entries, |entries|, r)
  }

  /** A key under construction: two bounds overwritten in place. */
  class Key {
    var lower: real
    var upper: real

    ghost function Value(): Range
      reads this
    {
      Range(lower, upper)
    }

    constructor (e: Range)
      ensures Value() == e
    {
      lower, upper := e.lower, e.upper;
    }

    method Widen(e: Range)
      modifies this
      ensures lower == Min(old(lower), e.lower) && upper == Max(old(upper), e.upper)
    {
      if lower > e.lower {
        lower := e.lower;
      }
      if upper < e.upper {
        upper := e.upper;
      }
    }

    /** The union method: overwrite this key with the bounds of all entries. */
    method Union(entries: seq<Range>)
      requires |entries| > 0
      modifies this
      ensures IsHull(entries, Value())
    {
      lower, upper := entries[0].lower, entries[0].upper;
      for i := 1 to |entries|
        invariant HullTo(entries, i, Value())
      {
        HullGrows(entries, i, Value());
        Widen(entries[i]);
      }
    }
  }

  lemma HullGrows(entries: seq<Range>, n: nat, r: Range)
    requires n < |entries| && HullTo(entries, n, r)
    ensures HullTo(entries, n + 1, Range(Min(r.lower, entries[n].lower), Max(r.upper, entries[n].upper)))
  {
    var i :| 0 <= i < n && r.lower == entries[i].lower;
    var j :| 0 <= j < n && r.upper == entries[j].upper;
  }

  /** The hull is the least range around the entries, and the only one. */
  lemma HullIsLeast(entries: seq<Range>, r: Range, other: Range)
    requires IsHull(entries, r)
    requires forall i :: 0 <= i < |entries| ==> other.lower <= entries[i].lower && entries[i].upper <= other.upper
    ensures forall i :: 0 <= i < |entries| ==> r.lower <= entries[i].lower && entries[i].upper <= r.upper
    ensures other.lower <= r.lower && r.upper <= other.upper
  {
    var i :| 0 <= i < |entries| && r.lower == entries[i].lower;
    var j :| 0 <= j < |entries| && r.upper == entries[j].upper;
  }

  /** Start a key from its first entry, or widen it. */
  method BinUnion(u: Key?, e: Range) returns (r: Key)
    modifies u
    ensures if u == null then fresh(r) && r.Value() == e
            else r == u && r.lower == Min(old(u.lower), e.lower) && r.upper == Max(old(u.upper), e.upper)
  {
    if u == null {
      r := new Key(e);
    } else {
      r := u;
      r.Widen(e);
    }
  }

  /** The key so far is the hull of the first n chosen entries. */
  ghost predicate SideDone(chosen: seq<Range>, n: nat, key: Key?)
    requires n <= |chosen|
    reads key
  {
    if n == 0 then key == null else key != null && HullTo(chosen, n, key.Value())
  }

  method AddToSide(ghost chosen: seq<Range>, ghost n: nat, u: Key?, e: Range) returns (r: Key)
    requires n < |chosen| && chosen[n] == e && SideDone(chosen, n, u)
    modifies u
    ensures SideDone(chosen, n + 1, r) && (if u == null then fresh(r) else r == u)
  {
    if u != null {
      HullGrows(chosen, n, u.Value());
    }
    r := BinUnion(u, e);
  }

  /** Two halves of the sorted page, each with the exact hull of its entries. */
  method PickSplit(entries: seq<Range>, order: seq<nat>)
    returns (left: seq<nat>, right: seq<nat>, ldatum: Range, rdatum: Range)
    requires |entries| >= 2 && IsOrder(order, |entries|)
    ensures left == order[..|entries| / 2] && right == order[|entries| / 2..] && left != [] && right != []
    ensures forall i :: 0 <= i < |entries| ==> (i in left <==> i !in right)
    ensures IsHull(Chosen(entries, order)[..|entries| / 2], ldatum)
    ensures IsHull(Chosen(entries, order)[|entries| / 2..], rdatum)
  {
    hide HullTo;
    var maxoff := |entries|;
    var splLeft, splRight := new nat[maxoff + 2], new nat[maxoff + 2];
    var nleft, nright := 0, 0;
    var lkey: Key?, rkey: Key? := null, null;
    ghost var half := maxoff / 2;
    ghost var front, back := order[..half], order[half..];
    ghost var first, last := Chosen(entries, order)[..half], Chosen(entries, order)[half..];
    for i := 0 to maxoff
      invariant nleft == (if i <= half then i else half) && nright == i - nleft
      invariant Stored(splLeft, nleft, front) && Stored(splRight, nright, back)
      invariant SideDone(first, nleft, lkey) && SideDone(last, nright, rkey)
      invariant (lkey != null ==> fresh(lkey)) && (rkey != null ==> fresh(rkey) && lkey != rkey)
    {
      if i + 1 <= maxoff / 2 {
        lkey := AddToSide(first, nleft, lkey, entries[order[i]]);
        Store(splLeft, nleft, order[i], front);
        nleft := nleft + 1;
      } else {
        rkey := AddToSide(last, nright, rkey, entries[order[i]]);
        Store(splRight, nright, order[i], back);
        nright := nright + 1;
      }
    }
    left, right := splLeft[..nleft], splRight[..nright];
    StoredAll(splLeft, front);
    StoredAll(splRight, back);
    ldatum, rdatum := Range(lkey.lower, lkey.upper), Range(rkey.lower, rkey.upper);
    Halves(order, maxoff);
  }

  // ------------------------------------------------------------------ search

  datatype Strategy = Less | LessEqual | Equal | GreaterEqual | Greater | NotEqual

  predicate Satisfies(s: Strategy, v: real, q: real) {
    match s
    case Less => v < q
    case LessEqual => v <= q
    case Equal => v == q
    case GreaterEqual => v >= q
    case Greater => v > q
    case NotEqual => v != q
  }

  /** The GiST consistent test. */
  predicate Consistent(k: Range, q: real, s: Strategy, isLeaf: bool) {
    match s
    case LessEqual => q >= k.lower
    case Less => if isLeaf then q > k.lower else q >= k.lower
    case Equal => if isLeaf then q == k.lower else k.lower <= q && q <= k.upper
    case Greater => if isLeaf then q < k.upper else q <= k.upper
    case GreaterEqual => q <= k.upper
    case NotEqual => !(q == k.lower && q == k.upper)
  }

  /** The operators, by what they say of two numbers. */
  lemma OperatorsAre(v: real, q: real)
    ensures Satisfies(Less, v, q) <==> q - v > 0.0
    ensures Satisfies(Greater, v, q) <==> Satisfies(Less, q, v)
    ensures Satisfies(Equal, v, q) <==> !Satisfies(Less, v, q) && !Satisfies(Greater, v, q)
    ensures Satisfies(LessEqual, v, q) <==> !Satisfies(Greater, v, q)
    ensures Satisfies(GreaterEqual, v, q) <==> !Satisfies(Less, v, q)
    ensures Satisfies(NotEqual, v, q) <==> !Satisfies(Equal, v, q)
  {
  }

  /** An inner key is accepted exactly when some number in its range satisfies the operator or is the query. */
  lemma AcceptedIff(k: Range, q: real, s: Strategy)
    requires k.lower <= k.upper
    ensures Consistent(k, q, s, false)
       <==> exists v :: Stands(k, v) && (Satisfies(s, v, q) || (v == q && !s.NotEqual?))
  {
    if Consistent(k, q, s, false) {
      var v := match s
               case Less => k.lower
               case LessEqual => k.lower
               case Equal => q
               case Greater => k.upper
               case GreaterEqual => k.upper
               case NotEqual => if k.lower != q then k.lower else k.upper;
      assert Stands(k, v) && (Satisfies(s, v, q) || (v == q && !s.NotEqual?));
    }
  }

  /** The GiST distance: to the nearer bound, or nothing inside. */
  function Distance(k: Range, q: real): real {
    if q <= k.lower then k.lower - q else if q >= k.upper then q - k.upper else 0.0
  }

  /** The distance is that of the nearest number in the range. */
  lemma DistanceIsAttained(k: Range, q: real)
    requires k.lower <= k.upper
    ensures exists v :: Stands(k, v) && Distance(k, q) == Distance(LeafRange(v), q)
    ensures forall v :: Stands(k, v) ==> Distance(k, q) <= Distance(LeafRange(v), q)
  {
    var v := if q <= k.lower then k.lower else if q >= k.upper then k.upper else q;
    assert Stands(k, v);
  }

  // ------------------------------------------------------------------- trees

  predicate Stands(k: Range, v: real) {
    k.lower <= v <= k.upper
  }

  ghost function Hulls(): (seq<Range>, Range) -> bool {
    (entries, k) => IsHull(entries, k)
  }

  function Wanted(s: Strategy, q: real): real -> bool {
    v => Satisfies(s, v, q)
  }

  function LeafTest(s: Strategy, q: real): real -> bool {
    v => Consistent(LeafRange(v), q, s, true)
  }

  function NodeTest(s: Strategy, q: real): Range -> bool {
    k => Consistent(k, q, s, false)
  }

  lemma KeysAreSound()
    ensures UnionKeeps(Hulls(), Stands) && LeafCovered(LeafRange, Stands)
  {
  }

  /** An inner key is never farther from the query than a value below it. */
  lemma DistanceLowerBound(t: Tree<Range, real>, v: real, q: real)
    requires Built(t, LeafRange, Hulls()) && Below(t, v)
    ensures 0.0 <= Distance(KeyOf(t, LeafRange), q) <= Distance(LeafRange(v), q)
    ensures Distance(LeafRange(v), q) == if v <= q then q - v else v - q
  {
    KeysAreSound();
    KeyCovers(t, LeafRange, Hulls(), Stands, v);
    assert Stands(KeyOf(t, LeafRange), v);
  }

  /** Search finds all answers and nothing else, for every tree, query and operator. */
  lemma SearchExact(t: Tree<Range, real>, q: real, s: Strategy)
    requires Built(t, LeafRange, Hulls())
    ensures Search(t, LeafTest(s, q), NodeTest(s, q)) == Answers(t, Wanted(s, q))
  {
    KeysAreSound();
    assert NeverPrunes(Stands, Wanted(s, q), NodeTest(s, q));
    SearchIsExact(t, LeafRange, Hulls(), Stands, Wanted(s, q), LeafTest(s, q), NodeTest(s, q));
  }
}
