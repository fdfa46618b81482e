/**
 * Which levels the order checks decide: those of a shape without gaps. The shape
 * of a file is everything but its keys. Where an empty page stands between two
 * others, keys can be chosen that pass every check and do not ascend.
 */
module BtreeShape {
  import opened BtreeWalk
  import opened BtreeOrder
  import opened BtreeLevelOrder

  predicate SameLine(a: Item, b: Item) {
    a.downlink == b.downlink
  }

  predicate SamePage(p: Page, q: Page) {
    && p.(lines := q.lines) == q && |p.lines| == |q.lines|
    && forall i :: 0 <= i < |p.lines| ==> SameLine(p.lines[i], q.lines[i])
  }

  /** The files differ in keys only. */
  ghost predicate SameShape(f: File, g: File) {
    |f| == |g| && forall b :: 0 <= b < |f| ==> SamePage(f[b], g[b])
  }

  lemma SameReadable(f: File, g: File, b: nat)
    requires SameShape(f, g)
    ensures Readable(f, b) == Readable(g, b) && Passed(f, b) == Passed(g, b)
  {
    assert b < |f| ==> SamePage(f[b], g[b]);
  }

  lemma SamePageFacts(p: Page, q: Page)
    requires SamePage(p, q)
    ensures |PageKeys(p)| == |PageKeys(q)| && FirstReal(p) == FirstReal(q) && DownlinkValid(p) == DownlinkValid(q)
  {
    assert FirstData(p) < |p.lines| ==> SameLine(p.lines[FirstData(p)], q.lines[FirstData(p)]);
  }

  lemma {:induction false} SameHop(f: File, g: File, b: nat, n: nat)
    requires SameShape(f, g)
    ensures Hop(f, b, n) == Hop(g, b, n)
  {
    hide Passed;
    if n == 0 {
    } else {
      SameHop(f, g, b, n - 1);
      SameReadable(f, g, Hop(f, b, n - 1));
      PassedBound(f, Hop(f, b, n - 1));
    }
  }

  lemma PassedBound(f: File, b: nat)
    ensures Passed(f, b) ==> b < |f|
  {
  }

  lemma SameRight(f: File, g: File, b: nat, c: nat)
    requires SameShape(f, g) && RightLinked(f, b, c)
    ensures RightLinked(g, b, c)
  {
    hide Passed;
    assert SamePage(f[b], g[b]);
    SameHop(f, g, f[b].next, |f|);
    SameReadable(f, g, RightBlock(f, f[b].next));
  }

  lemma SameRow(f: File, g: File, u: seq<nat>)
    requires SameShape(f, g) && Row(f, u)
    ensures Row(g, u)
  {
    hide RightLinked, Readable;
    forall k | 0 <= k < |u|
      ensures RowAt(g, u, k)
    {
      assert RowAt(f, u, k) && SamePage(f[u[k]], g[u[k]]);
      SameReadable(f, g, u[k]);
      if k + 1 < |u| {
        SameRight(f, g, u[k], u[k + 1]);
      }
    }
  }

  lemma SameGap(f: File, g: File, u: seq<nat>)
    requires SameShape(f, g) && NoGap(f, u)
    ensures NoGap(g, u)
  {
    forall k | 0 <= k < |u|
      ensures Holds(f, u, k) == Holds(g, u, k)
    {
      if u[k] < |f| {
        SamePageFacts(f[u[k]], g[u[k]]);
      }
    }
  }

  lemma {:induction false} SameLive(f: File, g: File, v: seq<nat>, n: nat)
    requires SameShape(f, g) && n <= |v|
    ensures LiveTo(f, v, n) == LiveTo(g, v, n)
  {
    if n == 0 {
    } else {
      SameLive(f, g, v, n - 1);
      assert v[n - 1] < |f| ==> SamePage(f[v[n - 1]], g[v[n - 1]]);
    }
  }

  // ------------------------------------------------------------ choosing keys

  /** The lines of the first n pages of the row. */
  ghost function Lines(f: File, u: seq<nat>, n: nat): nat
    requires n <= |u| && Row(f, u)
  {
    if n == 0 then 0 else Lines(f, u, n - 1) + |f[u[n - 1]].lines|
  }

  lemma {:induction false} LinesGrow(f: File, u: seq<nat>, m: nat, n: nat)
    requires m <= n <= |u| && Row(f, u)
    ensures Lines(f, u, m) <= Lines(f, u, n)
  {
    if m == n {
    } else {
      LinesGrow(f, u, m, n - 1);
    }
  }

  /** The first place of the block on the row, or past its end. */
  ghost function Place(u: seq<nat>, b: nat, n: nat): (k: nat)
    requires n <= |u|
    ensures k <= n && (k < n ==> u[k] == b) && forall i :: 0 <= i < k ==> u[i] != b
  {
    if n == 0 then 0
    else
      var k := Place(u, b, n - 1);
      if k < n - 1 then k else if u[n - 1] == b then n - 1 else n
  }

  /**
   * The key for line i of the page at place k: its number in the row, with the
   * pages up to the gap moved above all others, and a high key above everything.
   */
  ghost function KeyFor(f: File, u: seq<nat>, gap: nat, k: nat, i: nat): int
    requires k < |u| && Row(f, u)
  {
    if i < FirstReal(f[u[k]]) then 2 * Lines(f, u, |u|)
    else (if k <= gap then Lines(f, u, |u|) else 0) + Lines(f, u, k) + i
  }

  ghost function PaintPage(f: File, u: seq<nat>, gap: nat, k: nat): (q: Page)
    requires k < |u| && Row(f, u)
    ensures SamePage(f[u[k]], q)
  {
    var p := f[u[k]];
    p.(lines := seq(|p.lines|, i requires 0 <= i < |p.lines| => p.lines[i].(key := KeyFor(f, u, gap, k, i))))
  }

  ghost function Paint(f: File, u: seq<nat>, gap: nat): (g: File)
    requires Row(f, u)
    ensures SameShape(f, g)
  {
    seq(|f|, b requires 0 <= b < |f| =>
      if Place(u, b, |u|) < |u| then PaintPage(f, u, gap, Place(u, b, |u|)) else f[b])
  }

  /** Two places with the same page have the same pages to their right. */
  lemma {:induction false} SameRest(f: File, u: seq<nat>, i: nat, j: nat, n: nat)
    requires Row(f, u) && i <= j && j + n < |u| && u[i] == u[j]
    ensures u[i + n] == u[j + n]
  {
    if n == 0 {
    } else {
      SameRest(f, u, i, j, n - 1);
      assert RowAt(f, u, i + n - 1) && RowAt(f, u, j + n - 1);
    }
  }

  /** A row ends, so no page is on it twice. */
  lemma RowDistinct(f: File, u: seq<nat>, i: nat, j: nat)
    requires Row(f, u) && i < j < |u|
    ensures u[i] != u[j]
  {
    var n := |u| - 1 - j;
    OnlyLastEnds(f, u, i + n);
    OnlyLastEnds(f, u, |u| - 1);
    if u[i] == u[j] {
      SameRest(f, u, i, j, n);
    }
  }

  lemma OnlyLastEnds(f: File, u: seq<nat>, k: nat)
    requires Row(f, u) && k < |u|
    ensures f[u[k]].next == P_NONE <==> k == |u| - 1
  {
    assert RowAt(f, u, k);
  }

  lemma PaintedAt(f: File, u: seq<nat>, gap: nat, k: nat)
    requires Row(f, u) && k < |u|
    ensures Paint(f, u, gap)[u[k]] == PaintPage(f, u, gap, k)
  {
    hide RowAt, PaintPage;
    var p := Place(u, u[k], |u|);
    if p < k {
      RowDistinct(f, u, p, k);
    }
  }

  /** The real keys of a painted page count on from its place. */
  lemma PaintedKeys(f: File, u: seq<nat>, gap: nat, k: nat, m: nat)
    requires Row(f, u) && k < |u|
    requires m < |PageKeys(f[u[k]])|
    ensures var p := f[u[k]];
            && FirstReal(p) + m < |p.lines| && m < |PageKeys(PaintPage(f, u, gap, k))|
            && PageKeys(PaintPage(f, u, gap, k))[m]
               == (if k <= gap then Lines(f, u, |u|) else 0) + Lines(f, u, k) + FirstReal(p) + m
            && Lines(f, u, k) + FirstReal(p) + m < Lines(f, u, |u|)
  {
    hide RowAt, Lines;
    SamePageFacts(f[u[k]], PaintPage(f, u, gap, k));
    OneMorePage(f, u, k);
  }

  lemma OneMorePage(f: File, u: seq<nat>, k: nat)
    requires Row(f, u) && k < |u|
    ensures Lines(f, u, k) + |f[u[k]].lines| == Lines(f, u, k + 1) <= Lines(f, u, |u|)
  {
    LinesGrow(f, u, k + 1, |u|);
  }

  lemma PaintedAscends(f: File, u: seq<nat>, gap: nat, k: nat)
    requires Row(f, u) && k < |u|
    ensures Ascending(PageKeys(PaintPage(f, u, gap, k)))
  {
    hide RowAt, Lines, PageKeys, PaintPage;
    var keys := PageKeys(PaintPage(f, u, gap, k));
    SamePageFacts(f[u[k]], PaintPage(f, u, gap, k));
    forall i, j | 0 <= i < j < |keys|
      ensures keys[i] < keys[j]
    {
      PaintedKeys(f, u, gap, k, i);
      PaintedKeys(f, u, gap, k, j);
    }
  }

  lemma PaintedHigh(f: File, u: seq<nat>, gap: nat, k: nat)
    requires Row(f, u) && k < |u|
    ensures var q := PaintPage(f, u, gap, k);
            q.next != P_NONE ==> |q.lines| > 0 && q.lines[0].key == 2 * Lines(f, u, |u|)
  {
    hide Lines;
    assert RowAt(f, u, k);
  }

  lemma PaintedBounded(f: File, u: seq<nat>, gap: nat, k: nat)
    requires Row(f, u) && k < |u|
    ensures var q := PaintPage(f, u, gap, k);
            (q.next != P_NONE ==> |q.lines| > 0) && Bounded(q)
  {
    hide RowAt, Lines, PageKeys, PaintPage;
    var q := PaintPage(f, u, gap, k);
    PaintedHigh(f, u, gap, k);
    SamePageFacts(f[u[k]], q);
    forall m | 0 <= m < |PageKeys(q)|
      ensures BelowHigh(q, PageKeys(q)[m])
    {
      PaintedKeys(f, u, gap, k, m);
    }
  }

  lemma PaintedPrecedes(f: File, u: seq<nat>, gap: nat, k: nat)
    requires Row(f, u) && gap < |u| && !Holds(f, u, gap) && k + 1 < |u|
    ensures Precede(PageKeys(PaintPage(f, u, gap, k)), PageKeys(PaintPage(f, u, gap, k + 1)))
  {
    hide Lines, PageKeys, PaintPage, RowAt;
    var p, q := f[u[k]], f[u[k + 1]];
    SamePageFacts(p, PaintPage(f, u, gap, k));
    SamePageFacts(q, PaintPage(f, u, gap, k + 1));
    if |PageKeys(p)| > 0 && |PageKeys(q)| > 0 {
      assert k != gap && k + 1 != gap;
      PaintedKeys(f, u, gap, k, |PageKeys(p)| - 1);
      PaintedKeys(f, u, gap, k + 1, 0);
      OneMorePage(f, u, k);
    }
  }

  /** Every page of the painted row passes its checks. */
  lemma PaintedPasses(f: File, u: seq<nat>, gap: nat, k: nat)
    requires Row(f, u) && gap < |u| && !Holds(f, u, gap) && k < |u|
    ensures InOrder(Paint(f, u, gap), u[k])
  {
    hide RowAt, PageKeys, PaintPage, Bounded, Ascending, Paint, Crosses;
    var g := Paint(f, u, gap);
    SameRow(f, g, u);
    PaintedAt(f, u, gap, k);
    PaintedAscends(f, u, gap, k);
    PaintedBounded(f, u, gap, k);
    RowReadable(g, u, k);
    if k + 1 < |u| {
      PaintedAt(f, u, gap, k + 1);
      PaintedPrecedes(f, u, gap, k);
      RowCrosses(g, u, k);
    } else {
      LastCrosses(g, u);
    }
  }

  lemma RowReadable(f: File, u: seq<nat>, k: nat)
    requires Row(f, u) && k < |u|
    ensures Readable(f, u[k])
  {
    assert RowAt(f, u, k);
  }

  // ------------------------------------------------------------------ disorder

  lemma KeyStays(s: seq<int>, t: seq<int>, at: nat)
    requires at < |s|
    ensures at < |s| <= |s + t| && (s + t)[at] == s[at]
  {
  }

  lemma {:induction false} KeyPlace(f: File, u: seq<nat>, n: nat, k: nat, m: nat)
    requires Row(f, u) && k < n <= |u| && m < |PageKeys(f[u[k]])|
    ensures var at := |LevelKeys(f, u, k)| + m;
            at < |LevelKeys(f, u, k + 1)| <= |LevelKeys(f, u, n)| && LevelKeys(f, u, n)[at] == PageKeys(f[u[k]])[m]
  {
    hide PageKeys, RowAt;
    if n == k + 1 {
    } else {
      KeyPlace(f, u, n - 1, k, m);
      KeyStays(LevelKeys(f, u, n - 1), PageKeys(f[u[n - 1]]), |LevelKeys(f, u, k)| + m);
    }
  }

  /** In an ascending level the keys of a page come before those of a later one. */
  lemma PagesInOrder(f: File, u: seq<nat>, i: nat, k: nat)
    requires Row(f, u) && i < k < |u| && Holds(f, u, i) && Holds(f, u, k) && Ascending(LevelKeys(f, u, |u|))
    ensures PageKeys(f[u[i]])[0] < PageKeys(f[u[k]])[0]
  {
    hide PageKeys, RowAt;
    KeyPlace(f, u, |u|, i, 0);
    KeyPlace(f, u, k, i, 0);
    KeyPlace(f, u, |u|, k, 0);
  }

  /** Painting around a gap puts the keys before it above those after it. */
  lemma PaintedDisorder(f: File, u: seq<nat>, i: nat, gap: nat, k: nat)
    requires Row(f, u) && i < gap < k < |u| && Holds(f, u, i) && Holds(f, u, k) && Row(Paint(f, u, gap), u)
    ensures !Ascending(LevelKeys(Paint(f, u, gap), u, |u|))
  {
    hide RowAt, PageKeys, Ascending, Paint, PaintPage, LevelKeys, Lines;
    var g := Paint(f, u, gap);
    PaintedAt(f, u, gap, i);
    PaintedAt(f, u, gap, k);
    PaintedKeys(f, u, gap, i, 0);
    PaintedKeys(f, u, gap, k, 0);
    if Ascending(LevelKeys(g, u, |u|)) {
      PagesInOrder(g, u, i, k);
    }
  }

  // ------------------------------------------------------------- shapes of levels

  lemma SameGoodAt(f: File, g: File, level: Level, v: seq<nat>, k: nat)
    requires SameShape(f, g) && k < |v| && GoodAt(f, level, AnyPage(), v, k)
    requires !f[v[k]].isHalfDead ==> InOrder(g, v[k])
    ensures GoodAt(g, level, OrderCheck(g), v, k)
  {
    hide InOrder;
    assert SamePage(f[v[k]], g[v[k]]);
    SameReadable(f, g, v[k]);
    if v[0] < |f| {
      SamePageFacts(f[v[0]], g[v[0]]);
    }
  }

  /** The painted file's level is walked without anything being raised. */
  lemma PaintedLevel(f: File, level: Level, v: seq<nat>, gap: nat)
    requires GoodLevel(f, level, AnyPage(), v) && Row(f, Live(f, v))
    requires gap < |Live(f, v)| && !Holds(f, Live(f, v), gap)
    ensures GoodLevel(Paint(f, Live(f, v), gap), level, OrderCheck(Paint(f, Live(f, v), gap)), v)
  {
    hide RowAt, Paint, InOrder, Holds;
    var u := Live(f, v);
    var g := Paint(f, u, gap);
    forall k | 0 <= k < |v|
      ensures GoodAt(g, level, OrderCheck(g), v, k)
    {
      assert GoodAt(f, level, AnyPage(), v, k);
      if !f[v[k]].isHalfDead {
        var at := LivePlace(f, v, |v|, k);
        PaintedPasses(f, u, gap, at);
      }
      SameGoodAt(f, g, level, v, k);
    }
    LastInUse(f, level, AnyPage(), v);
    assert SamePage(f[v[|v| - 1]], g[v[|v| - 1]]);
  }

  lemma {:induction false} LivePlace(f: File, v: seq<nat>, n: nat, k: nat) returns (at: nat)
    requires k < n <= |v| && !HalfDeadAt(f, v, k)
    ensures at < |LiveTo(f, v, n)| && LiveTo(f, v, n)[at] == v[k]
  {
    if k == n - 1 {
      at := |LiveTo(f, v, n)| - 1;
    } else {
      at := LivePlace(f, v, n - 1, k);
    }
  }

  /** Every content of this shape that passes the walk ascends. */
  ghost predicate ShapeDecides(f: File, level: Level, v: seq<nat>) {
    forall g :: SameShape(f, g) && GoodLevel(g, level, OrderCheck(g), v) ==> LevelAscends(g, v)
  }

  ghost predicate LevelAscends(f: File, v: seq<nat>) {
    Row(f, Live(f, v)) && Ascending(LevelKeys(f, Live(f, v), |Live(f, v)|))
  }

  /**
   * A walk that raises nothing proves that the level ascends, whatever its keys,
   * if and only if no empty page of it stands between two others.
   */
  lemma GapIff(f: File, level: Level, v: seq<nat>)
    requires GoodLevel(f, level, AnyPage(), v)
    ensures ShapeDecides(f, level, v) <==> NoGap(f, Live(f, v))
  {
    hide RowAt, GoodLevel, Paint, Ascending, LevelKeys, Holds, SameShape;
    var u := Live(f, v);
    WalkIsRow(f, level, AnyPage(), v);
    if NoGap(f, u) {
      forall g | SameShape(f, g) && GoodLevel(g, level, OrderCheck(g), v)
        ensures LevelAscends(g, v)
      {
        SameLive(f, g, v, |v|);
        SameGap(f, g, u);
        WalkAscends(g, level, v);
      }
    } else {
      var i, gap, k :| 0 <= i < gap < k < |u| && Holds(f, u, i) && Holds(f, u, k) && !Holds(f, u, gap);
      var g := Paint(f, u, gap);
      SameLive(f, g, v, |v|);
      SameRow(f, g, u);
      PaintedLevel(f, level, v, gap);
      PaintedDisorder(f, u, i, gap, k);
      assert SameShape(f, g) && !LevelAscends(g, v);
    }
  }

  /** Three leaves, the middle one empty, with 5 on the first and 3 on the last. */
  function Hiding(): File {
    [Page(0, 0, 0, false, false, true, false, false, []),
     Page(0, 2, 0, true, false, false, false, false, [Item(5, 0), Item(5, 0)]),
     Page(1, 3, 0, true, false, false, false, false, [Item(9, 0)]),
     Page(2, 0, 0, true, false, false, false, false, [Item(3, 0)])]
  }

  lemma HidingPasses()
    ensures InOrder(Hiding(), 1) && InOrder(Hiding(), 2) && InOrder(Hiding(), 3)
  {
    HopStays(Hiding(), 2, 0, 4);
    HopStays(Hiding(), 3, 0, 4);
  }

  lemma HidingKeys()
    ensures PageKeys(Hiding()[1]) == [5] && PageKeys(Hiding()[2]) == [] && PageKeys(Hiding()[3]) == [3]
  {
  }

  /** Each page passes, yet the level does not ascend. */
  lemma EmptyPageHides()
    ensures GoodLevel(Hiding(), Level(0, 1, false), OrderCheck(Hiding()), [1, 2, 3])
    ensures !Ascending(LevelKeys(Hiding(), [1, 2, 3], 3))
  {
    hide InOrder, PageKeys;
    HidingPasses();
    HidingKeys();
    var f := Hiding();
    assert LevelKeys(f, [1, 2, 3], 1) == [] + [5] == [5];
    assert LevelKeys(f, [1, 2, 3], 2) == [5] + [] == [5];
    assert LevelKeys(f, [1, 2, 3], 3) == [5] + [3] == [5, 3];
    assert [5, 3][0] > [5, 3][1];
  }
}
