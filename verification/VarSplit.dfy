/**
 * Splitting a page of bytea keys. Both halves are cut at one length taken from
 * the longer common prefix, which is safe over leaf entries but not over every
 * page of node keys; this module says when a side's own key serves its values,
 * and when it covers them.
 */
module VarSplit {
  import opened Offsets
  import opened VarKey

  predicate KeyLe(x: Key, y: Key) {
    if x.lower == y.lower then Le(x.upper, y.upper) else Le(x.lower, y.lower)
  }

  /** What the sort leaves: every entry once, ascending. */
  ghost predicate SortedOrder(entries: seq<Key>, order: seq<nat>) {
    && IsOrder(order, |entries|)
    && (forall i, j :: 0 <= i < j < |order| ==> KeyLe(entries[order[i]], entries[order[j]]))
  }

  function Hull(entries: seq<Key>): Key
    requires |entries| > 0
  {
    HullTo(entries, |entries|)
  }

  function CpLen(k: Key): nat {
    CommonPrefix(k.lower, k.upper)
  }

  /** Halves of the sorted page; the keys are cut at the longer common prefix. */
  method PickSplit(entries: seq<Key>, order: seq<nat>)
    returns (left: seq<nat>, right: seq<nat>, ldatum: Key, rdatum: Key)
    requires |entries| >= 2 && SortedOrder(entries, order)
    ensures left == order[..|entries| / 2] && right == order[|entries| / 2..] && left != [] && right != []
    ensures forall i :: 0 <= i < |entries| ==> (i in left <==> i !in right)
    ensures (ldatum, rdatum) == SideKeys(Chosen(entries, order))
  {
    var lkey, rkey;
    left, right, lkey, rkey := Halve(entries, order);
    var ll := NodeCpLen(lkey);
    var lr := NodeCpLen(rkey);
    ll := if ll >= lr then ll else lr;
    ll := ll + 1;
    ldatum, rdatum := Truncated(lkey, ll), Truncated(rkey, ll);
    Halves(order, |entries|);
  }

  /** The two keys of a sorted page. */
  function SideKeys(sorted: seq<Key>): (Key, Key)
    requires |sorted| >= 2
  {
    var l, r := Hull(sorted[..|sorted| / 2]), Hull(sorted[|sorted| / 2..]);
    var n := (if CpLen(l) >= CpLen(r) then CpLen(l) else CpLen(r)) + 1;
    (Truncated(l, n), Truncated(r, n))
  }

  method Halve(entries: seq<Key>, order: seq<nat>)
    returns (left: seq<nat>, right: seq<nat>, lkey: Key, rkey: Key)
    requires |entries| == |order| >= 2 && forall i :: 0 <= i < |order| ==> order[i] < |entries|
    ensures left == order[..|entries| / 2] && right == order[|entries| / 2..]
    ensures lkey == Hull(Chosen(entries, order)[..|entries| / 2])
    ensures rkey == Hull(Chosen(entries, order)[|entries| / 2..])
  {
    hide Wider, HullTo;
    var maxoff := |entries|;
    var splLeft, splRight := new nat[maxoff + 2], new nat[maxoff + 2];
    var nleft, nright := 0, 0;
    var lkeys, rkeys: seq<Key> := [], [];
    ghost var half := maxoff / 2;
    ghost var front, back := order[..half], order[half..];
    ghost var first, last := Chosen(entries, order)[..half], Chosen(entries, order)[half..];
    for i := 0 to maxoff
      invariant nleft == (if i <= half then i else half) && nright == i - nleft
      invariant Stored(splLeft, nleft, front) && Stored(splRight, nright, back)
      invariant SideDone(first, nleft, lkeys) && SideDone(last, nright, rkeys)
    {
      if i + 1 <= maxoff / 2 {
        lkeys := AddToSide(first, nleft, lkeys, entries[order[i]]);
        Store(splLeft, nleft, order[i], front);
        nleft := nleft + 1;
      } else {
        rkeys := AddToSide(last, nright, rkeys, entries[order[i]]);
        Store(splRight, nright, order[i], back);
        nright := nright + 1;
      }
    }
    left, right, lkey, rkey := splLeft[..nleft], splRight[..nright], lkeys[0], rkeys[0];
    StoredAll(splLeft, front);
    StoredAll(splRight, back);
  }

  /** The key so far, if any, is the hull of the first n chosen entries. */
  ghost predicate SideDone(chosen: seq<Key>, n: nat, key: seq<Key>)
    requires n <= |chosen|
  {
    if n == 0 then |key| == 0 else |key| == 1 && key[0] == HullTo(chosen, n)
  }

  method AddToSide(ghost chosen: seq<Key>, ghost n: nat, u: seq<Key>, e: Key) returns (r: seq<Key>)
    requires n < |chosen| && chosen[n] == e && SideDone(chosen, n, u)
    ensures SideDone(chosen, n + 1, r)
  {
    var k := BinUnion(u, e);
    r := [k];
  }

  // ------------------------------------------------------------ what is safe

  /** A query for a value an entry stands for is never turned away from the side's key. */
  ghost predicate Safe(entries: seq<Key>, side: Key) {
    forall i, v, q, s {:trigger Covers(entries[i], v), Satisfies(s, v, q)} ::
      0 <= i < |entries| && Covers(entries[i], v) && Satisfies(s, v, q) ==> Consistent(side, q, s, false)
  }

  /** w properly extends u by bytes that are not all 255. */
  predicate Passable(u: Bytea, w: Bytea) {
    u < w && exists j :: |u| <= j < |w| && w[j] < 255
  }

  /** The check a caller could make: an entry some of whose values the side's key does not cover. */
  predicate Overshoots(e: Key, side: Key) {
    Slack(e) && Passable(e.upper, side.upper)
  }

  /** An entry some of whose values the side's key turns away. */
  predicate Escapes(e: Key, side: Key) {
    Overshoots(e, side) && !(side.lower <= e.upper)
  }

  /** Values no query for which is turned away. */
  predicate Accepted(side: Key, v: Bytea) {
    && Le(side.lower, v) && (Le(v, side.upper) || side.upper <= v || side.lower <= v)
    && (side.lower == side.upper ==> v == side.lower)
  }

  lemma AcceptedIsConsistent(side: Key, v: Bytea, q: Bytea, s: Strategy)
    requires Ordered(side) && Accepted(side, v) && Satisfies(s, v, q)
    ensures Consistent(side, q, s, false)
  {
    LeTotal(v, q);
    LeTotal(q, side.upper);
    if Le(v, q) {
      LeTransitive(side.lower, v, q);
    } else if Le(v, side.upper) {
      LeTransitive(q, v, side.upper);
    } else if !Le(q, side.upper) {
      LeTransitive(side.lower, side.upper, q);
      if side.upper <= v {
        Sandwich(side.upper, q, v);
      } else {
        Sandwich(side.lower, q, v);
      }
    }
  }

  /** Past a bound that ends in bytes 255 there are only its extensions. */
  lemma OnlyExtensions(u: Bytea, w: Bytea, v: Bytea)
    requires u < w && !Passable(u, w) && u <= v && !Le(v, w)
    ensures w <= v
  {
    var p := CommonPrefix(v, w);
    assert |u| <= p;
    assert p == |w|;
  }

  /** The hull k bounds entry e, and the side's key is k cut past its common prefix. */
  predicate CutOver(k: Key, e: Key, cpf: nat) {
    Ordered(e) && Le(k.lower, e.lower) && Le(e.upper, k.upper) && cpf >= CpLen(k) + 1
  }

  lemma CutOverOrdered(k: Key, e: Key, cpf: nat)
    requires CutOver(k, e, cpf)
    ensures Ordered(k) && Ordered(Truncated(k, cpf)) && CpLen(Truncated(k, cpf)) == CpLen(k) <= CpLen(e)
  {
    hide Le, CommonPrefix;
    LeTransitive(k.lower, e.lower, e.upper);
    LeTransitive(k.lower, e.upper, k.upper);
    CutIsLe(k.lower, k.upper, cpf + 1);
    CutKeepsPrefix(k.lower, k.upper, cpf + 1);
  }

  /** A value past the hull is still accepted unless the entry escapes. */
  lemma BeyondIsAccepted(k: Key, e: Key, cpf: nat, v: Bytea)
    requires CutOver(k, e, cpf) && e.upper <= v && Slack(e) && !Le(v, k.upper)
    requires !Escapes(e, Truncated(k, cpf))
    ensures Truncated(k, cpf).upper <= v || Truncated(k, cpf).lower <= v
  {
    var side := Truncated(k, cpf);
    LeTotal(v, k.upper);
    Sandwich(e.upper, k.upper, v);
    if e.upper < side.upper && !(side.lower <= e.upper) {
      PrefixIsLe(side.upper, k.upper);
      if Le(v, side.upper) {
        LeTransitive(v, side.upper, k.upper);
      }
      OnlyExtensions(e.upper, side.upper, v);
    }
  }

  /** A cut with equal bounds is over equal entries. */
  lemma EqualBounds(k: Key, e: Key, cpf: nat)
    requires CutOver(k, e, cpf) && Truncated(k, cpf).lower == Truncated(k, cpf).upper
    ensures e.lower == e.upper == Truncated(k, cpf).lower
  {
    CutOverOrdered(k, e, cpf);
    PrefixUnique(Truncated(k, cpf).lower, Truncated(k, cpf).lower, |Truncated(k, cpf).lower|);
    assert k.lower == k.upper;
    LeTransitive(k.lower, e.lower, e.upper);
    LeTotal(k.lower, e.lower);
    LeTotal(e.upper, k.lower);
    LeTransitive(e.lower, e.upper, k.lower);
  }

  lemma CutAccepts(k: Key, e: Key, cpf: nat, v: Bytea)
    requires CutOver(k, e, cpf) && Covers(e, v) && !Escapes(e, Truncated(k, cpf))
    ensures Accepted(Truncated(k, cpf), v)
  {
    hide Le, CommonPrefix;
    var side := Truncated(k, cpf);
    PrefixIsLe(side.lower, k.lower);
    LeTransitive(k.lower, e.lower, v);
    LeTransitive(side.lower, k.lower, v);
    if Le(v, k.upper) {
      CoveredBelow(k.upper, cpf + 1, v);
    } else {
      if Le(v, e.upper) {
        LeTransitive(v, e.upper, k.upper);
      }
      BeyondIsAccepted(k, e, cpf, v);
    }
    if side.lower == side.upper {
      EqualBounds(k, e, cpf);
      LeafStandsForItself(e, v);
    }
  }

  /** An overshooting entry stands for a value past the side's key that does not extend it. */
  lemma Overshot(k: Key, e: Key, cpf: nat) returns (v: Bytea)
    requires CutOver(k, e, cpf) && Overshoots(e, Truncated(k, cpf))
    ensures Covers(e, v) && e.upper <= v && !Le(v, Truncated(k, cpf).upper) && !(Truncated(k, cpf).upper <= v)
  {
    var w := Truncated(k, cpf).upper;
    var j :| |e.upper| <= j < |w| && w[j] < 255;
    v := w[..j] + [w[j] + 1];
    PrefixIsLe(e.upper, v);
    LeTransitive(e.lower, e.upper, v);
    PrefixUnique(v, w, j);
  }

  /** An escaping entry stands for a value that an equality query for it would miss. */
  lemma EscapeIsMissed(k: Key, e: Key, cpf: nat) returns (v: Bytea)
    requires CutOver(k, e, cpf) && Escapes(e, Truncated(k, cpf))
    ensures Covers(e, v) && !Consistent(Truncated(k, cpf), v, Equal, false)
  {
    v := Overshot(k, e, cpf);
    CutOverOrdered(k, e, cpf);
    OnlyPrefixes(Truncated(k, cpf).lower, e.upper, v, Truncated(k, cpf).upper);
  }

  /** What parts from w within u is a prefix of an extension of u only if it is one of u. */
  lemma OnlyPrefixes(l: Bytea, u: Bytea, v: Bytea, w: Bytea)
    requires u <= w && u <= v && CommonPrefix(l, w) < |u| && !(l <= u)
    ensures !(l <= v)
  {
    var p := CommonPrefix(l, w);
    assert p < |l| ==> l[p] != u[p];
  }

  /** A value past the hull is covered unless the entry overshoots. */
  lemma BeyondIsCovered(k: Key, e: Key, cpf: nat, v: Bytea)
    requires CutOver(k, e, cpf) && e.upper <= v && Slack(e) && !Le(v, k.upper) && !Overshoots(e, Truncated(k, cpf))
    ensures Truncated(k, cpf).upper <= v && Slack(Truncated(k, cpf))
  {
    var side := Truncated(k, cpf);
    CutOverOrdered(k, e, cpf);
    LeTotal(v, k.upper);
    Sandwich(e.upper, k.upper, v);
    if e.upper < side.upper {
      PrefixIsLe(side.upper, k.upper);
      if Le(v, side.upper) {
        LeTransitive(v, side.upper, k.upper);
      }
      OnlyExtensions(e.upper, side.upper, v);
    }
  }

  lemma CutCovers(k: Key, e: Key, cpf: nat, v: Bytea)
    requires CutOver(k, e, cpf) && Covers(e, v) && !Overshoots(e, Truncated(k, cpf))
    ensures Covers(Truncated(k, cpf), v)
  {
    hide Le, CommonPrefix, Overshoots;
    var side := Truncated(k, cpf);
    CutOverOrdered(k, e, cpf);
    PrefixIsLe(side.lower, k.lower);
    LeTransitive(k.lower, e.lower, v);
    LeTransitive(side.lower, k.lower, v);
    if Le(v, k.upper) {
      CoveredBelow(k.upper, cpf + 1, v);
    } else {
      if Le(v, e.upper) {
        LeTransitive(v, e.upper, k.upper);
      }
      BeyondIsCovered(k, e, cpf, v);
    }
  }

  /** The side's key covers whatever its entries cover. */
  ghost predicate Keeps(entries: seq<Key>, side: Key) {
    forall i, v {:trigger Covers(entries[i], v)} :: 0 <= i < |entries| && Covers(entries[i], v) ==> Covers(side, v)
  }

  lemma AllCutOver(entries: seq<Key>, cpf: nat, i: nat)
    requires i < |entries| && Ordered(entries[i]) && cpf >= CpLen(Hull(entries)) + 1
    ensures CutOver(Hull(entries), entries[i], cpf)
  {
    HullBounds(entries, |entries|, i);
  }

  /**
   * A side's key, cut anywhere past the hull's common prefix, covers everything
   * its entries cover if and only if no entry overshoots it.
   */
  lemma KeepsIff(entries: seq<Key>, cpf: nat)
    requires |entries| > 0 && (forall i :: 0 <= i < |entries| ==> Ordered(entries[i]))
    requires cpf >= CpLen(Hull(entries)) + 1
    ensures Keeps(entries, Truncated(Hull(entries), cpf))
       <==> forall i :: 0 <= i < |entries| ==> !Overshoots(entries[i], Truncated(Hull(entries), cpf))
  {
    hide Le, CommonPrefix, HullTo, Truncated, Overshoots;
    var k := Hull(entries);
    var side := Truncated(k, cpf);
    if i :| 0 <= i < |entries| && Overshoots(entries[i], side) {
      AllCutOver(entries, cpf, i);
      var v := Overshot(k, entries[i], cpf);
    } else {
      forall i, v | 0 <= i < |entries| && Covers(entries[i], v)
        ensures Covers(side, v)
      {
        AllCutOver(entries, cpf, i);
        CutCovers(k, entries[i], cpf, v);
      }
    }
  }

  /**
   * A side's key, cut anywhere past the hull's common prefix, itself lets through
   * every value its entries stand for if and only if no entry escapes it.
   */
  lemma SafeIff(entries: seq<Key>, cpf: nat)
    requires |entries| > 0 && (forall i :: 0 <= i < |entries| ==> Ordered(entries[i]))
    requires cpf >= CpLen(Hull(entries)) + 1
    ensures Safe(entries, Truncated(Hull(entries), cpf))
       <==> forall i :: 0 <= i < |entries| ==> !Escapes(entries[i], Truncated(Hull(entries), cpf))
  {
    var k := Hull(entries);
    var side := Truncated(k, cpf);
    forall i | 0 <= i < |entries|
      ensures CutOver(k, entries[i], cpf)
    {
      AllCutOver(entries, cpf, i);
    }
    if i :| 0 <= i < |entries| && Escapes(entries[i], side) {
      var v := EscapeIsMissed(k, entries[i], cpf);
      assert Satisfies(Equal, v, v);
    } else {
      forall i, v, q, s | 0 <= i < |entries| && Covers(entries[i], v) && Satisfies(s, v, q)
        ensures Consistent(side, q, s, false)
      {
        CutOverOrdered(k, entries[i], cpf);
        CutAccepts(k, entries[i], cpf, v);
        AcceptedIsConsistent(side, v, q, s);
      }
    }
  }

  /** When both halves of a split page serve all their values. */
  lemma SplitSafeIff(sorted: seq<Key>)
    requires |sorted| >= 2 && forall i :: 0 <= i < |sorted| ==> Ordered(sorted[i])
    ensures Safe(sorted[..|sorted| / 2], SideKeys(sorted).0)
       <==> forall i :: 0 <= i < |sorted| / 2 ==> !Escapes(sorted[i], SideKeys(sorted).0)
    ensures Safe(sorted[|sorted| / 2..], SideKeys(sorted).1)
       <==> forall i :: |sorted| / 2 <= i < |sorted| ==> !Escapes(sorted[i], SideKeys(sorted).1)
  {
    hide Escapes, Safe, HullTo, Truncated, CommonPrefix;
    var first, last := sorted[..|sorted| / 2], sorted[|sorted| / 2..];
    var l, r := Hull(first), Hull(last);
    var n := (if CpLen(l) >= CpLen(r) then CpLen(l) else CpLen(r)) + 1;
    SafeIff(first, n);
    SafeIff(last, n);
    assert forall i :: 0 <= i < |first| ==> first[i] == sorted[i];
    assert forall i :: |first| <= i < |sorted| ==> last[i - |first|] == sorted[i];
  }

  /** A page of leaf entries splits safely, whatever the values. */
  lemma LeafSplitSafe(values: seq<Bytea>)
    requires |values| >= 2
    ensures var sorted := seq(|values|, i requires 0 <= i < |values| => LeafKey(values[i]));
            Safe(sorted[..|sorted| / 2], SideKeys(sorted).0) && Safe(sorted[|sorted| / 2..], SideKeys(sorted).1)
  {
    var sorted := seq(|values|, i requires 0 <= i < |values| => LeafKey(values[i]));
    forall i | 0 <= i < |sorted|
      ensures Ordered(sorted[i]) && !Slack(sorted[i])
    {
      PrefixUnique(values[i], values[i], |values[i]|);
    }
    SplitSafeIff(sorted);
  }

  lemma PairUnion(a: Key, b: Key, p: nat)
    requires Lt(a.lower, b.lower) && Lt(a.upper, b.upper) && CommonPrefix(a.lower, b.upper) == p
    ensures Hull([a, b]) == Key(a.lower, b.upper) && UnionKey([a, b]) == Truncated(Key(a.lower, b.upper), p + 1)
  {
    LeTotal(a.lower, b.lower);
    LeTotal(b.lower, a.lower);
    assert HullTo([a, b], 1) == a;
    assert HullTo([a, b], 2) == Wider(a, b);
  }

  /** What a cut keeps: everything of a short bound, else one byte more than its length names. */
  lemma SideKeysAre(sorted: seq<Key>)
    requires |sorted| >= 2
    ensures var l, r := Hull(sorted[..|sorted| / 2]), Hull(sorted[|sorted| / 2..]);
            var n := (if CpLen(l) < CpLen(r) then CpLen(r) else CpLen(l)) + 2;
            var keys := SideKeys(sorted);
            && (if |l.lower| <= n then keys.0.lower == l.lower else |keys.0.lower| == n && keys.0.lower < l.lower)
            && (if |l.upper| <= n then keys.0.upper == l.upper else |keys.0.upper| == n && keys.0.upper < l.upper)
            && (if |r.lower| <= n then keys.1.lower == r.lower else |keys.1.lower| == n && keys.1.lower < r.lower)
            && (if |r.upper| <= n then keys.1.upper == r.upper else |keys.1.upper| == n && keys.1.upper < r.upper)
  {
    hide HullTo, CommonPrefix;
  }

  lemma Before(a: Bytea, b: Bytea, p: nat)
    requires p < |a| && p < |b| && a[..p] == b[..p] && a[p] < b[p]
    ensures CommonPrefix(a, b) == p && Le(a, b) && Lt(a, b)
  {
    assert forall k :: 0 <= k < p ==> a[k] == a[..p][k] == b[..p][k] == b[k];
    PrefixUnique(a, b, p);
    PrefixUnique(b, a, p);
  }

  /**
   * Node keys can lose a value. On the left are the keys over the values 1 and
   * 2.9.9, and over 2.9.1 and 2.9.3; on the right two values with a longer
   * common prefix. The left key then turns away a query for 2.9.9.
   */
  lemma SplitCanMiss()
    ensures UnionKey([LeafKey([1]), LeafKey([2, 9, 9])]) == Key([1], [2, 9])
    ensures UnionKey([LeafKey([2, 9, 1]), LeafKey([2, 9, 3])]) == Key([2, 9, 1], [2, 9, 3])
    ensures var page := [Key([1], [2, 9]), Key([2, 9, 1], [2, 9, 3]), LeafKey([9, 9, 1]), LeafKey([9, 9, 2])];
            SortedOrder(page, [0, 1, 2, 3]) && !Consistent(SideKeys(page).0, [2, 9, 9], Equal, false)
  {
    MissedPageSorted();
    Before([1], [2, 9, 9], 0);
    PairUnion(LeafKey([1]), LeafKey([2, 9, 9]), 0);
    Before([2, 9, 1], [2, 9, 3], 2);
    PairUnion(LeafKey([2, 9, 1]), LeafKey([2, 9, 3]), 2);
    MissedLeft();
  }

  /** Entries already in order are left where they are. */
  lemma AlreadySorted(entries: seq<Key>, order: seq<nat>)
    requires |order| == |entries| && forall i :: 0 <= i < |order| ==> order[i] == i
    requires forall i, j :: 0 <= i < j < |entries| ==> KeyLe(entries[i], entries[j])
    ensures SortedOrder(entries, order)
  {
    hide KeyLe;
    forall i | 0 <= i < |order|
      ensures OccursOnce(order, i)
    {
      assert order[i] == i;
    }
  }

  lemma FourSorted(a: Key, b: Key, c: Key, d: Key)
    requires KeyLe(a, b) && KeyLe(a, c) && KeyLe(a, d) && KeyLe(b, c) && KeyLe(b, d) && KeyLe(c, d)
    ensures SortedOrder([a, b, c, d], [0, 1, 2, 3])
  {
    hide KeyLe, SortedOrder;
    AlreadySorted([a, b, c, d], [0, 1, 2, 3]);
  }

  lemma MissedPageSorted()
    ensures var page := [Key([1], [2, 9]), Key([2, 9, 1], [2, 9, 3]), LeafKey([9, 9, 1]), LeafKey([9, 9, 2])];
            SortedOrder(page, [0, 1, 2, 3])
  {
    hide CommonPrefix, SortedOrder;
    Before([1], [2, 9, 1], 0);
    Before([1], [9, 9, 1], 0);
    Before([1], [9, 9, 2], 0);
    Before([2, 9, 1], [9, 9, 1], 0);
    Before([2, 9, 1], [9, 9, 2], 0);
    Before([9, 9, 1], [9, 9, 2], 2);
    FourSorted(Key([1], [2, 9]), Key([2, 9, 1], [2, 9, 3]), LeafKey([9, 9, 1]), LeafKey([9, 9, 2]));
  }

  lemma MissedLeft()
    ensures var page := [Key([1], [2, 9]), Key([2, 9, 1], [2, 9, 3]), LeafKey([9, 9, 1]), LeafKey([9, 9, 2])];
            !Consistent(SideKeys(page).0, [2, 9, 9], Equal, false)
  {
    hide CommonPrefix, HullTo;
    var page := [Key([1], [2, 9]), Key([2, 9, 1], [2, 9, 3]), LeafKey([9, 9, 1]), LeafKey([9, 9, 2])];
    assert page[..2] == [page[0], page[1]] && page[2..] == [page[2], page[3]];
    Before([1], [2, 9, 1], 0);
    Before([1], [2, 9, 3], 0);
    PrefixUnique([2, 9], [2, 9, 3], 2);
    PrefixUnique([2, 9, 3], [2, 9], 2);
    assert Lt([2, 9], [2, 9, 3]);
    PairUnion(page[0], page[1], 0);
    Before([9, 9, 1], [9, 9, 2], 2);
    PairUnion(page[2], page[3], 2);
    assert SideKeys(page).0 == Key([1], [2, 9, 3]);
    Before([2, 9, 3], [2, 9, 9], 2);
    assert [1][0] == 1 && [2, 9, 9][0] == 2 && [2, 9, 9][2] == 9 && [2, 9, 3][2] == 3;
  }
}
