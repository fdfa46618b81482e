/**
 * What the order checks say about a whole level: read left to right across its
 * pages, the level's keys ascend, unless an empty page stands between two others.
 */
module BtreeLevelOrder {
  import opened BtreeWalk
  import opened BtreeOrder

  /** The keys of the first n pages, in order. */
  ghost function LevelKeys(f: File, u: seq<nat>, n: nat): seq<int>
    requires n <= |u| && forall k :: 0 <= k < |u| ==> u[k] < |f|
  {
    if n == 0 then [] else LevelKeys(f, u, n - 1) + PageKeys(f[u[n - 1]])
  }

  lemma AscendingConcat(s: seq<int>, t: seq<int>)
    ensures |s| > 0 && |t| > 0 ==> (Ascending(s + t) <==> Ascending(s) && Ascending(t) && Precede(s, t))
  {
    var u := s + t;
    if |s| > 0 && |t| > 0 && Ascending(u) {
      forall i, j | 0 <= i < j < |t|
        ensures t[i] < t[j]
      {
        assert u[|s| + i] == t[i] && u[|s| + j] == t[j];
      }
      forall i, j | 0 <= i < j < |s|
        ensures s[i] < s[j]
      {
        assert u[i] == s[i] && u[j] == s[j];
      }
      assert u[|s| - 1] == s[|s| - 1] && u[|s|] == t[0];
    }
    if |s| > 0 && |t| > 0 && Ascending(s) && Ascending(t) && Precede(s, t) {
      forall i, j | 0 <= i < j < |u|
        ensures u[i] < u[j]
      {
        if i < |s| && j >= |s| {
          assert s[i] <= s[|s| - 1] && t[0] <= t[j - |s|];
        }
      }
    }
  }

  // -------------------------------------------------------- the pages of a level

  /** Stepping right from page b leads to page c. */
  ghost predicate RightLinked(f: File, b: nat, c: nat) {
    b < |f| && f[b].next != P_NONE && Lands(f, f[b].next) && RightBlock(f, f[b].next) == c
  }

  ghost predicate RowAt(f: File, u: seq<nat>, k: nat)
    requires k < |u|
  {
    && u[k] < |f| && Readable(f, u[k]) && !f[u[k]].isDeleted && !f[u[k]].isHalfDead
    && if k + 1 < |u| then RightLinked(f, u[k], u[k + 1]) else f[u[k]].next == P_NONE
  }

  /** Pages in use, each found by stepping right from the one before, up to a rightmost one. */
  ghost predicate Row(f: File, u: seq<nat>) {
    && (forall k :: 0 <= k < |u| ==> u[k] < |f|)
    && (forall k :: 0 <= k < |u| ==> RowAt(f, u, k))
  }

  /** The page at this place holds a real item. */
  ghost predicate Holds(f: File, u: seq<nat>, k: nat)
    requires k < |u|
  {
    u[k] < |f| && |PageKeys(f[u[k]])| > 0
  }

  /** No empty page stands between two others. */
  ghost predicate NoGap(f: File, u: seq<nat>) {
    forall i, j, k :: 0 <= i < j < k < |u| && Holds(f, u, i) && Holds(f, u, k) ==> Holds(f, u, j)
  }

  /** The pages of the list that are not half-dead, among the first n. */
  ghost function LiveTo(f: File, v: seq<nat>, n: nat): seq<nat>
    requires n <= |v|
  {
    if n == 0 then []
    else if v[n - 1] < |f| && f[v[n - 1]].isHalfDead then LiveTo(f, v, n - 1)
    else LiveTo(f, v, n - 1) + [v[n - 1]]
  }

  ghost function Live(f: File, v: seq<nat>): seq<nat> {
    LiveTo(f, v, |v|)
  }

  ghost predicate HalfDeadAt(f: File, v: seq<nat>, k: nat)
    requires k < |v|
  {
    v[k] < |f| && f[v[k]].isHalfDead
  }

  /** From a page, stepping right goes over the half-dead pages that follow it on the level. */
  lemma {:induction false} HopAlong(f: File, level: Level, pageOk: nat -> bool, v: seq<nat>, k: nat, n: nat)
    requires GoodPrefix(f, level, pageOk, v) && k < n < |v| && v[k] < |f|
    requires forall i :: k < i < n ==> HalfDeadAt(f, v, i)
    ensures f[v[k]].next != P_NONE && Hop(f, f[v[k]].next, n - k - 1) == v[n]
  {
    assert GoodAt(f, level, pageOk, v, k) && GoodAt(f, level, pageOk, v, n) && GoodAt(f, level, pageOk, v, n - 1);
    assert GoodAt(f, level, pageOk, v, k + 1);
    if n == k + 1 {
    } else {
      assert HalfDeadAt(f, v, n - 1);
      HopAlong(f, level, pageOk, v, k, n - 1);
    }
  }

  lemma LiveStep(f: File, level: Level, pageOk: nat -> bool, v: seq<nat>, k: nat, n: nat)
    requires GoodPrefix(f, level, pageOk, v) && k < n < |v| && v[k] < |f|
    requires (forall i :: k < i < n ==> HalfDeadAt(f, v, i)) && !HalfDeadAt(f, v, n)
    ensures RightLinked(f, v[k], v[n])
  {
    hide GoodPrefix;
    HopAlong(f, level, pageOk, v, k, n);
    NotPassed(f, level, pageOk, v, n);
    LandsWithinFile(f, f[v[k]].next, n - k - 1);
  }

  lemma NotPassed(f: File, level: Level, pageOk: nat -> bool, v: seq<nat>, n: nat)
    requires GoodPrefix(f, level, pageOk, v) && n < |v| && !HalfDeadAt(f, v, n)
    ensures !Passed(f, v[n])
  {
    assert GoodAt(f, level, pageOk, v, n);
  }

  /** A page in use, and on the way to the next. */
  ghost predicate OnTheWay(f: File, u: seq<nat>, k: nat)
    requires k < |u|
  {
    && u[k] < |f| && Readable(f, u[k]) && !f[u[k]].isDeleted && !f[u[k]].isHalfDead
    && (k + 1 < |u| ==> RightLinked(f, u[k], u[k + 1]))
  }

  /** The pages in use among the first n follow each other; the last of them is at `last`. */
  lemma {:induction false} LiveFollow(f: File, level: Level, pageOk: nat -> bool, v: seq<nat>, n: nat)
    returns (last: nat)
    requires GoodPrefix(f, level, pageOk, v) && n <= |v|
    ensures var u := LiveTo(f, v, n);
            && (forall k :: 0 <= k < |u| ==> OnTheWay(f, u, k))
            && (|u| > 0 ==> last < n && v[last] == u[|u| - 1] && forall i :: last < i < n ==> HalfDeadAt(f, v, i))
    ensures n > 0 && !HalfDeadAt(f, v, n - 1) ==> |LiveTo(f, v, n)| > 0 && last == n - 1
  {
    hide GoodPrefix, RightLinked, Readable;
    if n == 0 {
      last := 0;
    } else {
      last := LiveFollow(f, level, pageOk, v, n - 1);
      var before, u := LiveTo(f, v, n - 1), LiveTo(f, v, n);
      if HalfDeadAt(f, v, n - 1) {
      } else {
        InUse(f, level, pageOk, v, n - 1);
        if |before| > 0 {
          assert OnTheWay(f, before, |before| - 1);
          LiveStep(f, level, pageOk, v, last, n - 1);
        }
        forall k | 0 <= k < |u|
          ensures OnTheWay(f, u, k)
        {
          assert k < |before| ==> OnTheWay(f, before, k) && u[k] == before[k];
          assert k + 1 < |before| ==> u[k + 1] == before[k + 1];
        }
        last := n - 1;
      }
    }
  }

  lemma InUse(f: File, level: Level, pageOk: nat -> bool, v: seq<nat>, k: nat)
    requires GoodPrefix(f, level, pageOk, v) && k < |v| && !HalfDeadAt(f, v, k)
    ensures v[k] < |f| && Readable(f, v[k]) && !f[v[k]].isDeleted && !f[v[k]].isHalfDead
  {
    assert GoodAt(f, level, pageOk, v, k);
  }

  lemma LastInUse(f: File, level: Level, pageOk: nat -> bool, v: seq<nat>)
    requires GoodLevel(f, level, pageOk, v)
    ensures !HalfDeadAt(f, v, |v| - 1) && v[|v| - 1] < |f| && f[v[|v| - 1]].next == P_NONE
  {
    assert GoodAt(f, level, pageOk, v, |v| - 1);
  }

  /** The pages in use on a walked level are found one from the other by the check's own steps to the right. */
  lemma WalkIsRow(f: File, level: Level, pageOk: nat -> bool, v: seq<nat>)
    requires GoodLevel(f, level, pageOk, v)
    ensures Row(f, Live(f, v)) && |Live(f, v)| > 0
  {
    hide RightLinked, Readable;
    LastInUse(f, level, pageOk, v);
    var last := LiveFollow(f, level, pageOk, v, |v|);
    var u := Live(f, v);
    forall k | 0 <= k < |u|
      ensures u[k] < |f| && RowAt(f, u, k)
    {
      assert OnTheWay(f, u, k);
    }
  }

  // --------------------------------------------------------------------- order

  /** The first n pages pass, each but the last also against its right neighbour. */
  ghost predicate PassTo(f: File, u: seq<nat>, n: nat)
    requires n <= |u| && Row(f, u)
  {
    && (forall k :: 0 <= k < n ==> Ascending(PageKeys(f[u[k]])))
    && (forall k :: 0 <= k < n - 1 ==> Crosses(f, f[u[k]]))
  }

  lemma RowCrosses(f: File, u: seq<nat>, k: nat)
    requires Row(f, u) && k + 1 < |u|
    ensures Crosses(f, f[u[k]]) <==> Precede(PageKeys(f[u[k]]), PageKeys(f[u[k + 1]]))
  {
    hide Lands, RightBlock, PageKeys;
    assert RowAt(f, u, k) && RowAt(f, u, k + 1);
  }

  lemma PassStep(f: File, u: seq<nat>, n: nat)
    requires 1 < n <= |u| && Row(f, u)
    ensures PassTo(f, u, n) <==> PassTo(f, u, n - 1) && Ascending(PageKeys(f[u[n - 1]])) && Crosses(f, f[u[n - 2]])
  {
    hide Ascending, Crosses, PageKeys, RowAt;
  }

  lemma {:induction false} SomePageHolds(f: File, u: seq<nat>, n: nat) returns (i: nat)
    requires Row(f, u) && n <= |u| && |LevelKeys(f, u, n)| > 0
    ensures i < n && Holds(f, u, i)
  {
    hide PageKeys, RowAt;
    if n == 0 {
    } else if |PageKeys(f[u[n - 1]])| > 0 {
      i := n - 1;
    } else {
      i := SomePageHolds(f, u, n - 1);
    }
  }

  /** Where keys meet keys at the edge of page n, the neighbours meet there. */
  lemma Meet(f: File, u: seq<nat>, n: nat)
    requires Row(f, u) && NoGap(f, u) && 0 < n < |u| && |LevelKeys(f, u, n)| > 0 && Holds(f, u, n)
    ensures |PageKeys(f[u[n - 1]])| > 0
    ensures LevelKeys(f, u, n)[|LevelKeys(f, u, n)| - 1] == PageKeys(f[u[n - 1]])[|PageKeys(f[u[n - 1]])| - 1]
  {
    hide PageKeys, RowAt;
    var i := SomePageHolds(f, u, n);
    assert Holds(f, u, n - 1);
  }

  lemma AscendsFirst(f: File, u: seq<nat>, n: nat)
    requires Row(f, u) && n <= |u| && n <= 1
    ensures PassTo(f, u, n) <==> Ascending(LevelKeys(f, u, n))
  {
    hide RowAt;
    if n == 1 {
      assert LevelKeys(f, u, 1) == [] + PageKeys(f[u[0]]) == PageKeys(f[u[0]]);
    }
  }

  /** Adding a page to the keys so far. */
  lemma AscendsNext(f: File, u: seq<nat>, n: nat)
    requires Row(f, u) && NoGap(f, u) && 0 < n < |u|
    ensures Ascending(LevelKeys(f, u, n + 1))
       <==> && Ascending(LevelKeys(f, u, n)) && Ascending(PageKeys(f[u[n]]))
            && Precede(PageKeys(f[u[n - 1]]), PageKeys(f[u[n]]))
  {
    hide PageKeys, RowAt, NoGap, Ascending;
    var s, t := LevelKeys(f, u, n), PageKeys(f[u[n]]);
    assert Ascending([]) by {
      NoneAscend();
    }
    if |t| == 0 {
      assert s + t == s;
    } else if |s| == 0 {
      assert s + t == t;
      assert LevelKeys(f, u, n - 1) + PageKeys(f[u[n - 1]]) == s;
    } else {
      Meet(f, u, n);
      AscendingConcat(s, t);
    }
  }

  lemma NoneAscend()
    ensures Ascending([])
  {
  }

  lemma {:induction false} AscendsTo(f: File, u: seq<nat>, n: nat)
    requires Row(f, u) && NoGap(f, u) && n <= |u|
    ensures PassTo(f, u, n) <==> Ascending(LevelKeys(f, u, n))
  {
    hide Ascending, Crosses, PageKeys, PassTo, RowAt, NoGap, LevelKeys;
    if n <= 1 {
      AscendsFirst(f, u, n);
    } else {
      AscendsTo(f, u, n - 1);
      AscendsNext(f, u, n - 1);
      RowCrosses(f, u, n - 2);
      PassStep(f, u, n);
    }
  }

  ghost predicate AllBounded(f: File, u: seq<nat>)
    requires Row(f, u)
  {
    forall k :: 0 <= k < |u| ==> BoundedAt(f, u, k)
  }

  ghost predicate BoundedAt(f: File, u: seq<nat>, k: nat)
    requires k < |u| && Row(f, u)
  {
    assert RowAt(f, u, k);
    Bounded(f[u[k]])
  }

  /**
   * On a level without gaps every page passes its checks if and only if all keys
   * of the level ascend across pages and respect their page's high key.
   */
  lemma OrderIff(f: File, u: seq<nat>)
    requires Row(f, u) && NoGap(f, u)
    ensures (forall k :: 0 <= k < |u| ==> InOrder(f, u[k])) <==> Ascending(LevelKeys(f, u, |u|)) && AllBounded(f, u)
  {
    hide Ascending, Bounded, PageKeys, Crosses, NoGap, LevelKeys;
    AscendsTo(f, u, |u|);
    forall k | 0 <= k < |u|
      ensures InOrder(f, u[k]) <==> BoundedAt(f, u, k) && Ascending(PageKeys(f[u[k]])) && Crosses(f, f[u[k]])
    {
      assert RowAt(f, u, k);
    }
    if |u| > 0 {
      LastCrosses(f, u);
    }
  }

  lemma LastCrosses(f: File, u: seq<nat>)
    requires Row(f, u) && |u| > 0
    ensures Crosses(f, f[u[|u| - 1]])
  {
    assert RowAt(f, u, |u| - 1);
  }

  /** A page in use was checked by the walk. */
  lemma {:induction false} LiveChecked(f: File, level: Level, pageOk: nat -> bool, v: seq<nat>, n: nat, k: nat)
    requires GoodPrefix(f, level, pageOk, v) && n <= |v| && k < |LiveTo(f, v, n)|
    ensures pageOk(LiveTo(f, v, n)[k])
  {
    assert GoodAt(f, level, pageOk, v, n - 1);
    if HalfDeadAt(f, v, n - 1) || k < |LiveTo(f, v, n - 1)| {
      LiveChecked(f, level, pageOk, v, n - 1, k);
    }
  }

  /** A walk that raises nothing has walked an ascending level, unless an empty page stands between two others. */
  lemma WalkAscends(f: File, level: Level, v: seq<nat>)
    requires GoodLevel(f, level, OrderCheck(f), v) && NoGap(f, Live(f, v))
    ensures Row(f, Live(f, v))
    ensures Ascending(LevelKeys(f, Live(f, v), |Live(f, v)|)) && AllBounded(f, Live(f, v))
  {
    hide Ascending, InOrder, Row, LevelKeys, NoGap;
    var u := Live(f, v);
    WalkIsRow(f, level, OrderCheck(f), v);
    forall k | 0 <= k < |u|
      ensures InOrder(f, u[k])
    {
      LiveChecked(f, level, OrderCheck(f), v, |v|, k);
    }
    OrderIff(f, u);
  }
}
