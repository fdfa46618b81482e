/**
 * The B-tree checker's walk along each level by right links, in readonly mode,
 * over a fixed file whose pages may hold anything at all. Block 0 is the
 * metapage and, as a link, stands for no block.
 */
module BtreeWalk {
  import opened Pigeonhole

  const P_NONE := 0
  const INVALID_BLOCK := 0xFFFF_FFFF

  datatype Item = Item(key: int, downlink: nat)

  /** Unless the page is rightmost, its first line is the high key. */
  datatype Page = Page(
    prev: nat, next: nat, level: nat, isLeaf: bool, isRoot: bool, isMeta: bool,
    isDeleted: bool, isHalfDead: bool, lines: seq<Item>)

  type File = seq<Page>

  function FirstData(p: Page): nat {
    if p.next == P_NONE then 0 else 1
  }

  datatype Error =
    | CannotRead | DeletedBlock | FellOffEnd | NotLeftmost | NotTrueRoot
    | SiblingsDisagree | WrongLevel | BadPage | Circular | NoValidPages

  datatype Result<T> = Ok(value: T) | Raised(error: Error)

  datatype Level = Level(level: nat, leftmost: nat, isTrueRoot: bool)

  /** Where the walk stands: the block, the one before, and the level below, invalid until known. */
  datatype Walk = Walk(current: nat, left: nat, down: Level)

  function Start(level: Level): Walk {
    Walk(level.leftmost, P_NONE, Level(INVALID_BLOCK, INVALID_BLOCK, false))
  }

  /** The basic checks made whenever a page is read. */
  predicate Readable(f: File, b: nat) {
    && b < |f| && !f[b].isMeta
    && (!f[b].isDeleted ==> (f[b].isLeaf <==> f[b].level == 0))
    && (!f[b].isDeleted && !f[b].isLeaf ==> FirstData(f[b]) < |f[b].lines| && !f[b].isHalfDead)
    && (!f[b].isDeleted && f[b].isLeaf && f[b].next != P_NONE ==> |f[b].lines| >= 1)
  }

  /** The level below, as the first page of this one names it. */
  function Down(p: Page): Level
    requires !p.isLeaf ==> FirstData(p) < |p.lines| && p.level > 0
  {
    if p.isLeaf then Level(INVALID_BLOCK, P_NONE, false)
    else Level(p.level - 1, p.lines[FirstData(p)].downlink, false)
  }

  /** One turn of the loop along a level; `pageOk` is the check of the page by itself. */
  function Visit(f: File, level: Level, pageOk: nat -> bool, w: Walk): Result<Walk> {
    if !Readable(f, w.current) then Raised(CannotRead)
    else
      var p := f[w.current];
      if p.isDeleted || p.isHalfDead then
        if p.isDeleted then Raised(DeletedBlock)
        else if p.next == P_NONE then Raised(FellOffEnd)
        else Advance(p, w, w.down)
      else if w.down.leftmost == INVALID_BLOCK && p.prev != P_NONE then Raised(NotLeftmost)
      else if w.down.leftmost == INVALID_BLOCK && level.isTrueRoot && !p.isRoot then Raised(NotTrueRoot)
      else
        var down := if w.down.leftmost == INVALID_BLOCK then Down(p) else w.down;
        if p.prev != w.left then Raised(SiblingsDisagree)
        else if level.level != p.level then Raised(WrongLevel)
        else if !pageOk(w.current) then Raised(BadPage)
        else Advance(p, w, down)
  }

  /** The check of a page that lets every page pass. */
  function AnyPage(): nat -> bool {
    (b: nat) => true
  }

  function NoPage(): nat -> bool {
    (b: nat) => false
  }

  function Advance(p: Page, w: Walk, down: Level): Result<Walk> {
    if w.current == w.left || w.current == p.prev then Raised(Circular)
    else Ok(Walk(p.next, w.current, down))
  }

  // ------------------------------------------------------------ sound levels

  function LeftOf(v: seq<nat>, k: nat): nat
    requires k < |v|
  {
    if k == 0 then P_NONE else v[k - 1]
  }

  /** The k-th page of the list agrees with its neighbours; a half-dead one only by its right link. */
  predicate LinkAt(f: File, v: seq<nat>, k: nat)
    requires k < |v|
  {
    && v[k] != P_NONE && v[k] < |f|
    && (!f[v[k]].isHalfDead ==> f[v[k]].prev == LeftOf(v, k))
    && (k + 1 < |v| ==> f[v[k]].next == v[k + 1])
  }

  ghost predicate Siblings(f: File, v: seq<nat>) {
    forall k :: 0 <= k < |v| ==> LinkAt(f, v, k)
  }

  ghost predicate NoNext(f: File, b: nat) {
    forall x :: 0 <= x < |f| ==> f[x].next != b
  }

  /** The block is the right link of at most one page, and of none if a level starts there. */
  ghost predicate EnteredOnce(f: File, leftmost: nat, b: nat) {
    && (forall x, y :: 0 <= x < |f| && 0 <= y < |f| && f[x].next == b && f[y].next == b ==> x == y)
    && (b == leftmost ==> NoNext(f, b))
  }

  ghost predicate HalfDeadOnce(f: File, leftmost: nat) {
    forall b :: 0 <= b < |f| && f[b].isHalfDead ==> EnteredOnce(f, leftmost, b)
  }

  /** Links that agree visit no block twice, if the half-dead pages among them are entered once. */
  lemma {:induction false} NoRepeat(f: File, v: seq<nat>, i: nat, j: nat)
    requires Siblings(f, v) && i < j < |v|
    requires forall k :: 0 <= k < |v| && v[k] < |f| && f[v[k]].isHalfDead ==> EnteredOnce(f, v[0], v[k])
    ensures v[i] != v[j]
  {
    assert LinkAt(f, v, i) && LinkAt(f, v, j) && LinkAt(f, v, j - 1);
    if i == 0 {
    } else {
      assert LinkAt(f, v, i - 1);
      NoRepeat(f, v, i - 1, j - 1);
    }
  }

  /** No block stands on the list twice. */
  ghost predicate Distinct(v: seq<nat>) {
    forall i, j :: 0 <= i < j < |v| ==> v[i] != v[j]
  }

  /** A level has no more pages than the file. */
  lemma SiblingsBounded(f: File, v: seq<nat>)
    requires Siblings(f, v) && (|v| > 0 ==> HalfDeadOnce(f, v[0]))
    ensures Distinct(v) && |v| <= |f|
  {
    forall i, j | 0 <= i < j < |v|
      ensures v[i] != v[j]
    {
      NoRepeat(f, v, i, j);
    }
    forall k | 0 <= k < |v|
      ensures v[k] < |f|
    {
      assert LinkAt(f, v, k);
    }
    if |v| > |f| {
      var i, j := Repeat(v, |f|);
    }
  }

  predicate DownlinkValid(p: Page) {
    p.isLeaf || (FirstData(p) < |p.lines| && p.lines[FirstData(p)].downlink != INVALID_BLOCK)
  }

  /** Everything the walk demands of the k-th page of a level. */
  predicate GoodAt(f: File, level: Level, pageOk: nat -> bool, v: seq<nat>, k: nat)
    requires k < |v|
  {
    && LinkAt(f, v, k) && Readable(f, v[k]) && !f[v[k]].isDeleted
    && v[k] != LeftOf(v, k) && v[k] != f[v[k]].prev
    && (k == 0 ==> v[0] == level.leftmost)
    && if f[v[k]].isHalfDead then f[v[k]].next != P_NONE
       else
         && f[v[k]].level == level.level && pageOk(v[k])
         && if k == 0 then level.isTrueRoot ==> f[v[0]].isRoot
            else v[0] < |f| && !f[v[0]].isHalfDead && DownlinkValid(f[v[0]])
  }

  /** The pages are the beginning of a sound level. */
  ghost predicate GoodPrefix(f: File, level: Level, pageOk: nat -> bool, v: seq<nat>) {
    forall k :: 0 <= k < |v| ==> GoodAt(f, level, pageOk, v, k)
  }

  /** The pages are a whole level: a sound list up to a rightmost page. */
  ghost predicate GoodLevel(f: File, level: Level, pageOk: nat -> bool, v: seq<nat>) {
    |v| > 0 && GoodPrefix(f, level, pageOk, v) && After(f, level, pageOk, v).current == P_NONE
  }

  lemma GoodIsSiblings(f: File, level: Level, pageOk: nat -> bool, v: seq<nat>)
    requires GoodPrefix(f, level, pageOk, v)
    ensures Siblings(f, v) && forall k :: 0 <= k < |v| ==> v[k] < |f| && Readable(f, v[k])
    ensures |v| > 0 ==> v[0] == level.leftmost
  {
    forall k | 0 <= k < |v|
      ensures LinkAt(f, v, k) && Readable(f, v[k])
    {
      assert GoodAt(f, level, pageOk, v, k);
    }
    assert |v| > 0 ==> GoodAt(f, level, pageOk, v, 0);
  }

  /** Where a walk stands after a sound beginning. */
  ghost function After(f: File, level: Level, pageOk: nat -> bool, v: seq<nat>): Walk
    requires GoodPrefix(f, level, pageOk, v)
  {
    if v == [] then Start(level)
    else
      GoodIsSiblings(f, level, pageOk, v);
      assert GoodAt(f, level, pageOk, v, 0);
      Walk(f[v[|v| - 1]].next, v[|v| - 1], if f[v[0]].isHalfDead then Start(level).down else Down(f[v[0]]))
  }

  lemma ExtendAt(f: File, level: Level, pageOk: nat -> bool, v: seq<nat>, b: nat, k: nat)
    requires GoodPrefix(f, level, pageOk, v) && k < |v| && After(f, level, pageOk, v).current == b
    ensures GoodAt(f, level, pageOk, v + [b], k)
  {
    assert GoodAt(f, level, pageOk, v, k);
    assert (v + [b])[k] == v[k] && (v + [b])[0] == v[0] && LeftOf(v + [b], k) == LeftOf(v, k);
  }

  lemma VisitGood(f: File, level: Level, pageOk: nat -> bool, v: seq<nat>)
    requires GoodPrefix(f, level, pageOk, v)
    requires GoodPrefix(f, level, pageOk, v + [After(f, level, pageOk, v).current])
    ensures var w := After(f, level, pageOk, v);
            Visit(f, level, pageOk, w) == Ok(After(f, level, pageOk, v + [w.current]))
  {
    var w := After(f, level, pageOk, v);
    var u, n := v + [w.current], |v|;
    assert GoodAt(f, level, pageOk, u, n) && GoodAt(f, level, pageOk, u, 0);
    assert n > 0 ==> u[0] == v[0] && LeftOf(u, n) == w.left;
  }

  lemma VisitOk(f: File, level: Level, pageOk: nat -> bool, v: seq<nat>)
    requires GoodPrefix(f, level, pageOk, v) && After(f, level, pageOk, v).current != P_NONE
    requires Visit(f, level, pageOk, After(f, level, pageOk, v)).Ok?
    ensures GoodPrefix(f, level, pageOk, v + [After(f, level, pageOk, v).current])
  {
    var w := After(f, level, pageOk, v);
    var u, n := v + [w.current], |v|;
    assert n > 0 ==> GoodAt(f, level, pageOk, v, 0) && GoodAt(f, level, pageOk, v, n - 1);
    assert n > 0 ==> u[0] == v[0] && LeftOf(u, n) == w.left;
    forall k | 0 <= k < |u|
      ensures GoodAt(f, level, pageOk, u, k)
    {
      if k < n {
        ExtendAt(f, level, pageOk, v, w.current, k);
      }
    }
  }

  /** A turn of the loop succeeds exactly when the page extends the sound list. */
  lemma VisitIff(f: File, level: Level, pageOk: nat -> bool, v: seq<nat>)
    requires GoodPrefix(f, level, pageOk, v) && After(f, level, pageOk, v).current != P_NONE
    ensures var w := After(f, level, pageOk, v);
            var u := v + [w.current];
            if GoodPrefix(f, level, pageOk, u) then Visit(f, level, pageOk, w) == Ok(After(f, level, pageOk, u))
            else Visit(f, level, pageOk, w).Raised?
  {
    hide GoodPrefix, Visit, After;
    if GoodPrefix(f, level, pageOk, v + [After(f, level, pageOk, v).current]) {
      VisitGood(f, level, pageOk, v);
    }
    if Visit(f, level, pageOk, After(f, level, pageOk, v)).Ok? {
      VisitOk(f, level, pageOk, v);
    }
  }

  lemma GoodTake(f: File, level: Level, pageOk: nat -> bool, v: seq<nat>, n: nat)
    requires GoodPrefix(f, level, pageOk, v) && n <= |v|
    ensures GoodPrefix(f, level, pageOk, v[..n])
    ensures n < |v| ==> After(f, level, pageOk, v[..n]).current == v[n]
  {
    forall k | 0 <= k < n
      ensures GoodAt(f, level, pageOk, v[..n], k)
    {
      assert GoodAt(f, level, pageOk, v, k);
    }
    if n < |v| {
      assert GoodAt(f, level, pageOk, v, n) && (n > 0 ==> GoodAt(f, level, pageOk, v, n - 1));
    }
  }

  /** A sound beginning is the beginning of the sound level, if there is one. */
  lemma {:induction false} PrefixOfLevel(f: File, level: Level, pageOk: nat -> bool, v: seq<nat>, u: seq<nat>, n: nat)
    requires GoodPrefix(f, level, pageOk, v) && GoodLevel(f, level, pageOk, u) && n <= |v|
    ensures n <= |u| && v[..n] == u[..n]
  {
    hide GoodPrefix, After;
    if n == 0 {
    } else {
      PrefixOfLevel(f, level, pageOk, v, u, n - 1);
      GoodTake(f, level, pageOk, v, n - 1);
      GoodTake(f, level, pageOk, u, n - 1);
      LinkNonzero(f, level, pageOk, v, n - 1);
      assert u[..|u|] == u;
      assert n - 1 < |u|;
      assert v[..n] == v[..n - 1] + [v[n - 1]];
      assert u[..n] == u[..n - 1] + [u[n - 1]];
    }
  }

  lemma LinkNonzero(f: File, level: Level, pageOk: nat -> bool, v: seq<nat>, k: nat)
    requires GoodPrefix(f, level, pageOk, v) && k < |v|
    ensures v[k] != P_NONE
  {
    assert GoodAt(f, level, pageOk, v, k);
  }

  /** While a sound level goes on, so does a sound beginning of it. */
  lemma NextInLevel(f: File, level: Level, pageOk: nat -> bool, v: seq<nat>, u: seq<nat>)
    requires GoodPrefix(f, level, pageOk, v) && After(f, level, pageOk, v).current != P_NONE
    requires GoodLevel(f, level, pageOk, u)
    ensures GoodPrefix(f, level, pageOk, v + [After(f, level, pageOk, v).current])
  {
    hide GoodPrefix, After;
    var n := |v|;
    PrefixOfLevel(f, level, pageOk, v, u, n);
    assert v[..n] == v && u[..|u|] == u;
    assert n < |u|;
    GoodTake(f, level, pageOk, u, n);
    GoodTake(f, level, pageOk, u, n + 1);
    assert u[..n + 1] == v + [u[n]];
  }

  /** A level the walk cannot get through is not sound. */
  lemma StuckIsUnsound(f: File, level: Level, pageOk: nat -> bool, v: seq<nat>, u: seq<nat>)
    requires GoodPrefix(f, level, pageOk, v) && After(f, level, pageOk, v).current != P_NONE
    requires !GoodPrefix(f, level, pageOk, v + [After(f, level, pageOk, v).current])
    ensures !GoodLevel(f, level, pageOk, u)
  {
    if GoodLevel(f, level, pageOk, u) {
      NextInLevel(f, level, pageOk, v, u);
    }
  }

  /**
   * The walk along a level. It ends whenever half-dead pages are entered once,
   * whatever the other links hold; it raises nothing exactly when the level is
   * sound, and it visits no block twice.
   */
  method CheckLevel(f: File, level: Level, pageOk: nat -> bool) returns (r: Result<Level>, visited: seq<nat>)
    requires HalfDeadOnce(f, level.leftmost) && level.leftmost != P_NONE
    ensures r.Ok? ==> GoodLevel(f, level, pageOk, visited) && r.value == After(f, level, pageOk, visited).down
    ensures r.Raised? ==> forall v :: !GoodLevel(f, level, pageOk, v)
    ensures GoodPrefix(f, level, pageOk, visited) && Distinct(visited) && |visited| <= |f|
  {
    hide GoodPrefix, After, Visit, Siblings, HalfDeadOnce, Distinct;
    var w := Start(level);
    visited := [];
    NothingVisited(f, level, pageOk);
    GoodIsSiblings(f, level, pageOk, visited);
    SiblingsBounded(f, visited);
    while w.current != P_NONE
      invariant GoodPrefix(f, level, pageOk, visited) && w == After(f, level, pageOk, visited)
      invariant Distinct(visited) && |visited| <= |f|
      invariant visited == [] ==> w.current != P_NONE
      decreases |f| - |visited|
    {
      VisitIff(f, level, pageOk, visited);
      var turn := Visit(f, level, pageOk, w);
      if turn.Raised? {
        forall v
          ensures !GoodLevel(f, level, pageOk, v)
        {
          StuckIsUnsound(f, level, pageOk, visited, v);
        }
        return Raised(turn.error), visited;
      }
      visited := visited + [w.current];
      w := turn.value;
      GoodIsSiblings(f, level, pageOk, visited);
      SiblingsBounded(f, visited);
    }
    return Ok(w.down), visited;
  }

  lemma NothingVisited(f: File, level: Level, pageOk: nat -> bool)
    ensures GoodPrefix(f, level, pageOk, []) && After(f, level, pageOk, []) == Start(level)
  {
  }

  /** A sound level starts with a page that is not half-dead. */
  lemma LevelStarts(f: File, level: Level, pageOk: nat -> bool, v: seq<nat>)
    requires GoodLevel(f, level, pageOk, v)
    ensures v[0] < |f| && !f[v[0]].isHalfDead && Readable(f, v[0]) && !f[v[0]].isDeleted && f[v[0]].level == level.level
    ensures After(f, level, pageOk, v).down == Down(f[v[0]])
  {
    assert GoodAt(f, level, pageOk, v, 0) && GoodAt(f, level, pageOk, v, |v| - 1);
  }

  /** What a sound level's pages are, in their own fields. */
  lemma LevelPages(f: File, level: Level, pageOk: nat -> bool, v: seq<nat>, k: nat)
    requires GoodLevel(f, level, pageOk, v) && k < |v|
    ensures 0 < v[k] < |f| && 0 < v[0] < |f| && !f[v[k]].isMeta && !f[v[k]].isDeleted
    ensures f[v[k]].next == if k < |v| - 1 then v[k + 1] else 0
    ensures !f[v[k]].isHalfDead ==>
              && f[v[k]].prev == (if k == 0 then 0 else v[k - 1])
              && f[v[k]].level == level.level && (f[v[k]].isLeaf <==> level.level == 0) && pageOk(v[k])
    ensures f[v[k]].isHalfDead ==> f[v[k]].isLeaf && f[v[k]].level == 0 && 0 < k < |v| - 1
    ensures !f[v[k]].isLeaf ==> |f[v[k]].lines| > if f[v[k]].next == 0 then 0 else 1
    ensures f[v[k]].isLeaf && f[v[k]].next != 0 ==> |f[v[k]].lines| >= 1
    ensures v[0] == level.leftmost && (level.isTrueRoot ==> f[v[0]].isRoot)
  {
    assert GoodAt(f, level, pageOk, v, k) && GoodAt(f, level, pageOk, v, 0) && GoodAt(f, level, pageOk, v, |v| - 1);
    LevelStarts(f, level, pageOk, v);
  }

  /** What it hands on: the block of the first page's first item below, one level down, or nothing under a leaf. */
  lemma HandedOn(f: File, level: Level, pageOk: nat -> bool, v: seq<nat>)
    requires GoodLevel(f, level, pageOk, v)
    ensures v[0] < |f| && (!f[v[0]].isLeaf ==> |f[v[0]].lines| > if f[v[0]].next == 0 then 0 else 1)
    ensures var p, down := f[v[0]], After(f, level, pageOk, v).down;
            && (p.isLeaf ==> down.leftmost == 0) && !down.isTrueRoot
            && (!p.isLeaf ==> down.level == level.level - 1)
            && (!p.isLeaf ==> down.leftmost == p.lines[if p.next == 0 then 0 else 1].downlink)
  {
    LevelStarts(f, level, pageOk, v);
  }

  /** A level is walked in one way only. */
  lemma LevelUnique(f: File, level: Level, pageOk: nat -> bool, v: seq<nat>, u: seq<nat>)
    requires GoodLevel(f, level, pageOk, v) && GoodLevel(f, level, pageOk, u)
    ensures v == u
  {
    PrefixOfLevel(f, level, pageOk, v, u, |v|);
    PrefixOfLevel(f, level, pageOk, u, v, |u|);
    assert v[..|v|] == v && u[..|u|] == u;
  }
}
