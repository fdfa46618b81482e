/**
 * Whether the walk along a level returns when it makes its own check of each
 * page. That check steps right over half-dead and deleted pages, and those steps
 * may go on for ever as the walk itself may. Here each of them is a step.
 */
module BtreeReturn {
  import opened BtreeWalk
  import opened BtreeOrder
  import opened BtreeEndless

  /** The items of the page agree with its high key and with each other. */
  predicate ItemsOk(p: Page) {
    (p.next != P_NONE ==> |p.lines| > 0) && Bounded(p) && Ascending(PageKeys(p))
  }

  /** The check goes on to the page to the right. */
  predicate LooksRight(p: Page) {
    |PageKeys(p)| > 0 && p.next != P_NONE
  }

  /** The walk gets as far as checking the page it stands on. */
  predicate CallsCheck(f: File, level: Level, w: Walk) {
    Visit(f, level, NoPage(), w) == Raised(BadPage)
  }

  /** Standing on a block, stepping right from one, or done. */
  datatype Config = Stands(w: Walk) | Steps(w: Walk, next: nat) | Done(r: Result<Level>)

  function Moved(r: Result<Walk>): Config {
    match r
    case Ok(w) => Stands(w)
    case Raised(e) => Done(Raised(e))
  }

  function Step(f: File, level: Level, c: Config): Config {
    match c
    case Done(_) => c
    case Stands(w) =>
      if w.current == P_NONE then Done(Ok(w.down))
      else if !CallsCheck(f, level, w) then Moved(Visit(f, level, AnyPage(), w))
      else
        Called(f, level, w);
        if !ItemsOk(f[w.current]) then Done(Raised(BadPage))
        else if LooksRight(f[w.current]) then Steps(w, f[w.current].next)
        else Moved(Visit(f, level, AnyPage(), w))
    case Steps(w, next) =>
      if Passed(f, next) then Steps(w, f[next].next)
      else if !Readable(f, next) then Done(Raised(CannotRead))
      else if w.current < |f| && !Precede(PageKeys(f[w.current]), PageKeys(f[next])) then Done(Raised(BadPage))
      else Moved(Visit(f, level, AnyPage(), w))
  }

  function Run(f: File, level: Level, n: nat): Config {
    if n == 0 then Stands(Start(level)) else Step(f, level, Run(f, level, n - 1))
  }

  ghost predicate NeverReturns(f: File, level: Level) {
    forall n: nat :: !Run(f, level, n).Done?
  }

  lemma Called(f: File, level: Level, w: Walk)
    requires CallsCheck(f, level, w)
    ensures Readable(f, w.current) && !f[w.current].isDeleted && !f[w.current].isHalfDead
    ensures f[w.current].next != P_NONE ==> |f[w.current].lines| > 0
  {
  }

  /** What the check of the page contributes to a turn of the walk. */
  lemma CheckDecides(f: File, level: Level, pageOk: nat -> bool, w: Walk)
    ensures Visit(f, level, pageOk, w)
         == if CallsCheck(f, level, w) && !pageOk(w.current) then Raised(BadPage) else Visit(f, level, AnyPage(), w)
  {
  }

  /** The items are in order and the steps to the right from the page go on for ever. */
  predicate Hangs(f: File, b: nat) {
    b < |f| && ItemsOk(f[b]) && LooksRight(f[b]) && !Lands(f, f[b].next)
  }

  // ------------------------------------------------------------ a turn of the walk

  lemma {:induction false} FirstLanding(f: File, b: nat, n: nat) returns (h: nat)
    requires !Passed(f, Hop(f, b, n))
    ensures h <= n && !Passed(f, Hop(f, b, h)) && forall k :: 0 <= k < h ==> Passed(f, Hop(f, b, k))
  {
    hide Passed;
    if i :| 0 <= i < n && !Passed(f, Hop(f, b, i)) {
      h := FirstLanding(f, b, i);
    } else {
      h := n;
    }
  }

  lemma {:induction false} StepsHop(f: File, level: Level, n: nat, w: Walk, b: nat, h: nat)
    requires Run(f, level, n) == Steps(w, b) && forall k :: 0 <= k < h ==> Passed(f, Hop(f, b, k))
    ensures Run(f, level, n + h) == Steps(w, Hop(f, b, h))
  {
    hide Passed, Visit, Readable, Precede;
    if h == 0 {
    } else {
      StepsHop(f, level, n, w, b, h - 1);
      assert Passed(f, Hop(f, b, h - 1));
    }
  }

  /** The run after a turn that starts at w: it stands where the turn leads, or is done. */
  ghost predicate TurnDone(f: File, level: Level, w: Walk, c: Config) {
    var turn := Visit(f, level, OrderCheck(f), w);
    if turn.Ok? then c == Stands(turn.value) else c.Done?
  }

  /** A page whose check does not look right, or a block that is not checked, is left in one step. */
  lemma TurnAtOnce(f: File, level: Level, w: Walk)
    requires w.current != P_NONE
    requires CallsCheck(f, level, w) && ItemsOk(f[w.current]) ==> !LooksRight(f[w.current])
    ensures TurnDone(f, level, w, Step(f, level, Stands(w)))
  {
    CheckDecides(f, level, OrderCheck(f), w);
  }

  /** A page whose check looks right is left when the steps land. */
  lemma TurnLands(f: File, level: Level, w: Walk, next: nat)
    requires CallsCheck(f, level, w) && ItemsOk(f[w.current]) && LooksRight(f[w.current])
    requires Lands(f, f[w.current].next) && next == RightBlock(f, f[w.current].next)
    ensures TurnDone(f, level, w, Step(f, level, Steps(w, next)))
  {
    hide RightBlock, Visit, Bounded, Ascending, PageKeys;
    CheckDecides(f, level, OrderCheck(f), w);
    Called(f, level, w);
  }

  lemma Turn(f: File, level: Level, n: nat, w: Walk) returns (m: nat)
    requires Run(f, level, n) == Stands(w) && w.current != P_NONE
    requires !(CallsCheck(f, level, w) && Hangs(f, w.current))
    ensures m > n && TurnDone(f, level, w, Run(f, level, m))
  {
    hide Visit, TurnDone, CallsCheck, ItemsOk, LooksRight, RightBlock, Precede, Passed;
    if CallsCheck(f, level, w) {
      Called(f, level, w);
      if ItemsOk(f[w.current]) && LooksRight(f[w.current]) {
        var b := f[w.current].next;
        var h := Landing(f, b);
        StepsHop(f, level, n + 1, w, b, h);
        TurnLands(f, level, w, Hop(f, b, h));
        return n + 1 + h + 1;
      }
    }
    TurnAtOnce(f, level, w);
    return n + 1;
  }

  lemma Landing(f: File, b: nat) returns (h: nat)
    requires Lands(f, b)
    ensures Hop(f, b, h) == RightBlock(f, b) && forall k :: 0 <= k < h ==> Passed(f, Hop(f, b, k))
  {
    h := FirstLanding(f, b, |f|);
    LandsWithinFile(f, b, h);
  }

  // ---------------------------------------------------------------- whole runs

  lemma {:induction false} DoneStays(f: File, level: Level, m: nat, n: nat)
    requires m <= n && Run(f, level, m).Done?
    ensures Run(f, level, n).Done?
  {
    hide Visit;
    if m == n {
    } else {
      DoneStays(f, level, m, n - 1);
    }
  }

  /** The run comes to wherever the walk stands after m turns. */
  lemma {:induction false} RunFollows(f: File, level: Level, m: nat) returns (n: nat)
    requires Walking(f, level, OrderCheck(f), m)
    ensures n >= m && Run(f, level, n) == Stands(Turns(f, level, OrderCheck(f), m).value)
  {
    hide Visit, Step, CallsCheck, Hangs;
    if m == 0 {
      n := 0;
    } else {
      WalkingBefore(f, level, OrderCheck(f), m, m - 1);
      var k := RunFollows(f, level, m - 1);
      var w := Turns(f, level, OrderCheck(f), m - 1).value;
      NoHang(f, level, w);
      n := Turn(f, level, k, w);
    }
  }

  /** A turn that succeeds did not hang. */
  lemma NoHang(f: File, level: Level, w: Walk)
    ensures Visit(f, level, OrderCheck(f), w).Ok? && CallsCheck(f, level, w) ==> !Hangs(f, w.current)
  {
    hide Lands, RightBlock, Bounded, Ascending, PageKeys;
    CheckDecides(f, level, OrderCheck(f), w);
  }

  /** After m turns the walk checks a page whose check goes on for ever. */
  ghost predicate HangsAfter(f: File, level: Level, m: nat) {
    && Walking(f, level, OrderCheck(f), m)
    && CallsCheck(f, level, Turns(f, level, OrderCheck(f), m).value)
    && Hangs(f, Turns(f, level, OrderCheck(f), m).value.current)
  }

  lemma HangNeverReturns(f: File, level: Level, m: nat)
    requires HangsAfter(f, level, m)
    ensures NeverReturns(f, level)
  {
    hide Visit, Lands, Turns, ItemsOk, LooksRight, Passed;
    var w := Turns(f, level, OrderCheck(f), m).value;
    var k := RunFollows(f, level, m);
    var b := f[w.current].next;
    forall n: nat
      ensures !Run(f, level, n).Done?
    {
      forall h: nat | h < n
        ensures Passed(f, Hop(f, b, h))
      {
        StuckOver(f, b, h);
      }
      StepsHop(f, level, k + 1, w, b, n);
      if Run(f, level, n).Done? {
        DoneStays(f, level, n, k + 1 + n);
      }
    }
  }

  lemma EndlessNeverReturns(f: File, level: Level)
    requires forall m: nat :: Walking(f, level, OrderCheck(f), m)
    ensures NeverReturns(f, level)
  {
    hide Walking, Step;
    forall n: nat
      ensures !Run(f, level, n).Done?
    {
      assert Walking(f, level, OrderCheck(f), n);
      var k := RunFollows(f, level, n);
      if Run(f, level, n).Done? {
        DoneStays(f, level, n, k);
      }
    }
  }

  /** A run that neither hangs nor returns goes on walking. */
  lemma {:induction false} RunWalks(f: File, level: Level, m: nat)
    requires NeverReturns(f, level) && forall k: nat :: k < m ==> !HangsAfter(f, level, k)
    ensures Walking(f, level, OrderCheck(f), m)
  {
    hide Visit, CallsCheck, Hangs;
    if m == 0 {
      assert !Run(f, level, 1).Done?;
      assert Run(f, level, 0) == Stands(Start(level));
    } else {
      RunWalks(f, level, m - 1);
      assert !HangsAfter(f, level, m - 1);
      var k := RunFollows(f, level, m - 1);
      var n := Turn(f, level, k, Turns(f, level, OrderCheck(f), m - 1).value);
      assert !Run(f, level, n).Done? && !Run(f, level, n + 1).Done?;
    }
  }

  /** What keeps the walk from returning, found within one turn more than there are blocks. */
  ghost predicate Endless(f: File, level: Level) {
    || (exists v: seq<nat>, i: nat, j: nat :: PassesTwice(f, level, OrderCheck(f), v, i, j))
    || (exists m: nat :: m <= |f| && HangsAfter(f, level, m))
  }

  /**
   * Over every file, the walk with its own check of each page never returns if and
   * only if it gets past some half-dead block twice, or comes to a page in use whose
   * items are in order and from which stepping right never lands.
   */
  lemma ReturnsIff(f: File, level: Level)
    ensures NeverReturns(f, level) <==> Endless(f, level)
  {
    hide NeverReturns, HangsAfter, PassesTwice;
    NeverEndsIff(f, level, OrderCheck(f));
    if NeverReturns(f, level) {
      if m: nat :| HangsAfter(f, level, m) {
        if m > |f| {
          HangsLate(f, level, m);
        }
      } else {
        forall m: nat
          ensures Walking(f, level, OrderCheck(f), m)
        {
          RunWalks(f, level, m);
        }
      }
    }
    if forall n: nat :: Walking(f, level, OrderCheck(f), n) {
      EndlessNeverReturns(f, level);
    }
    if m: nat :| m <= |f| && HangsAfter(f, level, m) {
      HangNeverReturns(f, level, m);
    }
  }

  lemma HangsLate(f: File, level: Level, m: nat)
    requires HangsAfter(f, level, m) && m > |f|
    ensures exists v: seq<nat>, i: nat, j: nat :: PassesTwice(f, level, OrderCheck(f), v, i, j)
  {
    hide PassesTwice;
    var v, i, j := LongWalk(f, level, OrderCheck(f), m);
  }

  // ---------------------------------------------------------- the checkable case

  ghost predicate Ignorable(p: Page) {
    p.isHalfDead || p.isDeleted
  }

  /** Every half-dead or deleted block is the right link of at most one page, and of none if the level starts there. */
  ghost predicate IgnorableOnce(f: File, leftmost: nat) {
    forall b :: 0 <= b < |f| && Ignorable(f[b]) ==> EnteredOnce(f, leftmost, b)
  }

  /** Going back along steps that came to a block twice leads back to the page they started from. */
  lemma {:induction false} BackToStart(f: File, leftmost: nat, b: nat, i: nat, j: nat)
    requires IgnorableOnce(f, leftmost) && b < |f| && i < j && Hop(f, f[b].next, i) == Hop(f, f[b].next, j)
    requires forall k :: 0 <= k <= j ==> Passed(f, Hop(f, f[b].next, k))
    ensures Ignorable(f[b])
  {
    var next := f[b].next;
    assert Passed(f, Hop(f, next, i)) && Passed(f, Hop(f, next, j - 1));
    assert EnteredOnce(f, leftmost, Hop(f, next, i));
    if i == 0 {
      assert f[Hop(f, next, j - 1)].next == f[b].next;
    } else {
      assert Passed(f, Hop(f, next, i - 1));
      BackToStart(f, leftmost, b, i - 1, j - 1);
    }
  }

  lemma OnceLands(f: File, leftmost: nat, b: nat)
    requires IgnorableOnce(f, leftmost) && b < |f| && !Ignorable(f[b])
    ensures Lands(f, f[b].next)
  {
    hide Ignorable, IgnorableOnce, Passed;
    if !Lands(f, f[b].next) {
      var i, j := StepsRepeat(f, f[b].next);
      BackToStart(f, leftmost, b, i, j);
    }
  }

  lemma OnceHalfDead(f: File, leftmost: nat)
    requires IgnorableOnce(f, leftmost)
    ensures HalfDeadOnce(f, leftmost)
  {
  }

  /** With half-dead and deleted blocks entered once, the walk with its own check returns. */
  lemma OnceReturns(f: File, level: Level)
    requires IgnorableOnce(f, level.leftmost)
    ensures !NeverReturns(f, level)
  {
    hide NeverReturns, IgnorableOnce, GoodPrefix, Visit;
    ReturnsIff(f, level);
    OnceHalfDead(f, level.leftmost);
    forall v: seq<nat>, i: nat, j: nat
      ensures !PassesTwice(f, level, OrderCheck(f), v, i, j)
    {
      if PassesTwice(f, level, OrderCheck(f), v, i, j) {
        GoodIsSiblings(f, level, OrderCheck(f), v);
        SiblingsBounded(f, v);
      }
    }
    forall m: nat
      ensures !HangsAfter(f, level, m)
    {
      if HangsAfter(f, level, m) {
        var w := Turns(f, level, OrderCheck(f), m).value;
        Called(f, level, w);
        OnceLands(f, level.leftmost, w.current);
      }
    }
  }

  /** A turn of the loop, with the page's own check. */
  method VisitPage(f: File, level: Level, w: Walk) returns (turn: Result<Walk>)
    requires w.current < |f| && !Ignorable(f[w.current]) ==> Lands(f, f[w.current].next)
    ensures turn == Visit(f, level, OrderCheck(f), w)
  {
    hide Lands, InOrder, PageKeys;
    if !Readable(f, w.current) {
      return Raised(CannotRead);
    }
    var p := f[w.current];
    var down := w.down;
    if p.isDeleted || p.isHalfDead {
      if p.isDeleted {
        return Raised(DeletedBlock);
      }
      if p.next == P_NONE {
        return Raised(FellOffEnd);
      }
    } else {
      if down.leftmost == INVALID_BLOCK {
        if p.prev != P_NONE {
          return Raised(NotLeftmost);
        }
        if level.isTrueRoot && !p.isRoot {
          return Raised(NotTrueRoot);
        }
        down := Down(p);
      }
      if p.prev != w.left {
        return Raised(SiblingsDisagree);
      }
      if level.level != p.level {
        return Raised(WrongLevel);
      }
      var ok := TargetPageCheck(f, w.current);
      if !ok {
        return Raised(BadPage);
      }
    }
    if w.current == w.left || w.current == p.prev {
      return Raised(Circular);
    }
    return Ok(Walk(p.next, w.current, down));
  }

  /**
   * The walk along a level that checks each page itself: it returns, and raises
   * nothing exactly when the level is sound and every page in use is in order.
   */
  method CheckLevelInOrder(f: File, level: Level) returns (r: Result<Level>, visited: seq<nat>)
    requires IgnorableOnce(f, level.leftmost) && level.leftmost != P_NONE
    ensures r.Ok? ==>
              GoodLevel(f, level, OrderCheck(f), visited) && r.value == After(f, level, OrderCheck(f), visited).down
    ensures r.Raised? ==> forall v :: !GoodLevel(f, level, OrderCheck(f), v)
    ensures GoodPrefix(f, level, OrderCheck(f), visited) && Distinct(visited) && |visited| <= |f|
  {
    hide GoodPrefix, After, Visit, Siblings, IgnorableOnce, HalfDeadOnce, Distinct, Ignorable;
    ghost var pageOk := OrderCheck(f);
    var w := Start(level);
    visited := [];
    OnceHalfDead(f, level.leftmost);
    NothingVisited(f, level, pageOk);
    GoodIsSiblings(f, level, pageOk, visited);
    SiblingsBounded(f, visited);
    while w.current != P_NONE
      invariant GoodPrefix(f, level, pageOk, visited) && w == After(f, level, pageOk, visited)
      invariant Distinct(visited) && |visited| <= |f|
      invariant visited == [] ==> w.current != P_NONE
      decreases |f| - |visited|
    {
      if w.current < |f| && !Ignorable(f[w.current]) {
        OnceLands(f, level.leftmost, w.current);
      }
      VisitIff(f, level, pageOk, visited);
      var turn := VisitPage(f, level, w);
      if turn.Raised? {
        forall v
          ensures !GoodLevel(f, level, pageOk, v)
        {
          StuckIsUnsound(f, level, pageOk, visited, v);
        }
        return Raised(turn.error), visited;
      }
      visited := visited + [w.current];
      w := turn.value;
      GoodIsSiblings(f, level, pageOk, visited);
      SiblingsBounded(f, visited);
    }
    return Ok(w.down), visited;
  }

  // ------------------------------------------------------------------ an instance

  /** A leaf in use, and two deleted leaves to its right that name each other. */
  function Ring(): File {
    [Page(0, 0, 0, false, false, true, false, false, []),
     Page(0, 2, 0, true, false, false, false, false, [Item(5, 0), Item(5, 0)]),
     Page(0, 3, 0, true, false, false, true, false, []),
     Page(0, 2, 0, true, false, false, true, false, [])]
  }

  lemma RingHangs()
    ensures Hangs(Ring(), 1)
  {
    NeverLands(Ring(), 2, 0, 2, |Ring()|);
    assert PageKeys(Ring()[1]) == [5];
  }

  /** No page is half-dead, and yet the walk never returns: the check of its first page does not. */
  lemma RingNeverReturns()
    ensures NeverReturns(Ring(), Level(0, 1, false)) && HalfDeadOnce(Ring(), 1)
  {
    hide Hangs, NeverReturns;
    RingHangs();
    assert HangsAfter(Ring(), Level(0, 1, false), 0);
    HangNeverReturns(Ring(), Level(0, 1, false), 0);
  }
}
