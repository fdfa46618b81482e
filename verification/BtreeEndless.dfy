/**
 * When the walk along a level does not end, given a check of each page that
 * does. Half-dead pages are walked past without looking at their left links, so
 * only they can be walked past twice.
 */
module BtreeEndless {
  import opened BtreeWalk
  import opened Pigeonhole

  /** The walk after n turns, or where it ended before. */
  function Turns(f: File, level: Level, pageOk: nat -> bool, n: nat): Result<Walk> {
    if n == 0 then Ok(Start(level))
    else
      var before := Turns(f, level, pageOk, n - 1);
      if before.Ok? && before.value.current != P_NONE then Visit(f, level, pageOk, before.value) else before
  }

  ghost predicate Walking(f: File, level: Level, pageOk: nat -> bool, n: nat) {
    var w := Turns(f, level, pageOk, n);
    w.Ok? && w.value.current != P_NONE
  }

  /** A walk that is still going has walked a sound beginning. */
  lemma {:induction false} WalkedPrefix(f: File, level: Level, pageOk: nat -> bool, n: nat) returns (v: seq<nat>)
    requires Walking(f, level, pageOk, n)
    ensures |v| == n && GoodPrefix(f, level, pageOk, v) && Turns(f, level, pageOk, n) == Ok(After(f, level, pageOk, v))
  {
    hide Visit, GoodPrefix, After;
    if n == 0 {
      v := [];
      NothingVisited(f, level, pageOk);
    } else {
      var u := WalkedPrefix(f, level, pageOk, n - 1);
      VisitIff(f, level, pageOk, u);
      v := u + [After(f, level, pageOk, u).current];
    }
  }

  /** And a sound beginning is walked. */
  lemma {:induction false} PrefixIsWalked(f: File, level: Level, pageOk: nat -> bool, v: seq<nat>, n: nat)
    requires GoodPrefix(f, level, pageOk, v) && n <= |v|
    ensures GoodPrefix(f, level, pageOk, v[..n])
    ensures Turns(f, level, pageOk, n) == Ok(After(f, level, pageOk, v[..n]))
  {
    hide Visit, GoodPrefix, After;
    GoodTake(f, level, pageOk, v, n);
    if n == 0 {
      NothingVisited(f, level, pageOk);
    } else {
      PrefixIsWalked(f, level, pageOk, v, n - 1);
      GoodTake(f, level, pageOk, v, n - 1);
      LinkNonzero(f, level, pageOk, v, n - 1);
      VisitIff(f, level, pageOk, v[..n - 1]);
      assert v[..n] == v[..n - 1] + [v[n - 1]];
    }
  }

  /** The walk gets past the same half-dead block twice, in no more turns than the file has blocks and one. */
  ghost predicate PassesTwice(f: File, level: Level, pageOk: nat -> bool, v: seq<nat>, i: nat, j: nat) {
    && GoodPrefix(f, level, pageOk, v) && i < j < |v| <= |f| + 1
    && v[i] == v[j] && v[i] < |f| && f[v[i]].isHalfDead
  }

  /** Going back from a block on the list twice, the first such block is half-dead. */
  lemma {:induction false} FirstRepeat(f: File, level: Level, pageOk: nat -> bool, v: seq<nat>, i: nat, j: nat)
    returns (a: nat, b: nat)
    requires GoodPrefix(f, level, pageOk, v) && i < j < |v| <= |f| + 1 && v[i] == v[j]
    ensures PassesTwice(f, level, pageOk, v, a, b)
  {
    assert GoodAt(f, level, pageOk, v, i) && GoodAt(f, level, pageOk, v, j) && GoodAt(f, level, pageOk, v, j - 1);
    if f[v[i]].isHalfDead {
      a, b := i, j;
    } else {
      a, b := FirstRepeat(f, level, pageOk, v, i - 1, j - 1);
    }
  }

  /** After a half-dead block the walk stands the same each time. */
  lemma SameAfter(f: File, level: Level, pageOk: nat -> bool, v: seq<nat>, i: nat, j: nat)
    requires PassesTwice(f, level, pageOk, v, i, j)
    ensures Walking(f, level, pageOk, j + 1)
    ensures Turns(f, level, pageOk, i + 1) == Turns(f, level, pageOk, j + 1)
  {
    hide Turns, Visit;
    PrefixIsWalked(f, level, pageOk, v, i + 1);
    PrefixIsWalked(f, level, pageOk, v, j + 1);
    assert GoodAt(f, level, pageOk, v, j);
    assert v[..i + 1][0] == v[0] == v[..j + 1][0] && v[..i + 1][i] == v[i] && v[..j + 1][j] == v[j];
  }

  lemma PassesLater(f: File, level: Level, pageOk: nat -> bool, v: seq<nat>, i: nat, j: nat)
    requires PassesTwice(f, level, pageOk, v, i, j)
    ensures i < j
  {
  }

  lemma {:induction false} WalkingBefore(f: File, level: Level, pageOk: nat -> bool, n: nat, m: nat)
    requires Walking(f, level, pageOk, n) && m <= n
    ensures Walking(f, level, pageOk, m)
    decreases n
  {
    if m == n {
    } else {
      WalkingBefore(f, level, pageOk, n - 1, m);
    }
  }

  lemma {:induction false} Periodic(f: File, level: Level, pageOk: nat -> bool, i: nat, j: nat, n: nat)
    requires Turns(f, level, pageOk, i) == Turns(f, level, pageOk, j)
    ensures Turns(f, level, pageOk, i + n) == Turns(f, level, pageOk, j + n)
  {
    hide Visit;
    if n == 0 {
    } else {
      Periodic(f, level, pageOk, i, j, n - 1);
    }
  }

  lemma {:induction false} StillWalking(f: File, level: Level, pageOk: nat -> bool, i: nat, j: nat, n: nat)
    requires i < j && Turns(f, level, pageOk, i) == Turns(f, level, pageOk, j) && Walking(f, level, pageOk, j)
    ensures Walking(f, level, pageOk, n)
  {
    hide Turns;
    if n <= j {
      WalkingBefore(f, level, pageOk, j, n);
    } else {
      Periodic(f, level, pageOk, i, j, n - j);
      StillWalking(f, level, pageOk, i, j, i + (n - j));
    }
  }

  /** A walk of more turns than there are blocks has got past some half-dead block twice. */
  lemma LongWalk(f: File, level: Level, pageOk: nat -> bool, n: nat) returns (v: seq<nat>, i: nat, j: nat)
    requires Walking(f, level, pageOk, n) && n > |f|
    ensures PassesTwice(f, level, pageOk, v, i, j)
  {
    hide Walking, Turns, PassesTwice;
    WalkingBefore(f, level, pageOk, n, |f| + 1);
    v := WalkedPrefix(f, level, pageOk, |f| + 1);
    GoodIsSiblings(f, level, pageOk, v);
    i, j := Repeat(v, |f|);
    i, j := FirstRepeat(f, level, pageOk, v, i, j);
  }

  /**
   * Over every file, with a check of each page that answers, the walk goes on for
   * ever if and only if it gets past some half-dead block twice, which shows within
   * one turn more than there are blocks.
   */
  lemma NeverEndsIff(f: File, level: Level, pageOk: nat -> bool)
    ensures (forall n: nat :: Walking(f, level, pageOk, n))
       <==> exists v: seq<nat>, i: nat, j: nat :: PassesTwice(f, level, pageOk, v, i, j)
  {
    hide Walking, Turns, PassesTwice;
    if forall n: nat :: Walking(f, level, pageOk, n) {
      assert Walking(f, level, pageOk, |f| + 1);
      var v, i, j := LongWalk(f, level, pageOk, |f| + 1);
    }
    if v: seq<nat>, i: nat, j: nat :| PassesTwice(f, level, pageOk, v, i, j) {
      SameAfter(f, level, pageOk, v, i, j);
      assert i < j by {
        PassesLater(f, level, pageOk, v, i, j);
      }
      forall n: nat
        ensures Walking(f, level, pageOk, n)
      {
        StillWalking(f, level, pageOk, i + 1, j + 1, n);
      }
    }
  }

  /** Two half-dead leaves that name each other are walked for ever. */
  lemma HalfDeadForever(pageOk: nat -> bool, n: nat)
    ensures var high := [Item(9, 0)];
            var f := [Page(0, 0, 0, false, false, true, false, false, []),
                      Page(2, 2, 0, true, false, false, false, true, high),
                      Page(1, 1, 0, true, false, false, false, true, high)];
            Walking(f, Level(0, 1, false), pageOk, n)
  {
    var high := [Item(9, 0)];
    var f := [Page(0, 0, 0, false, false, true, false, false, []),
              Page(2, 2, 0, true, false, false, false, true, high),
              Page(1, 1, 0, true, false, false, false, true, high)];
    assert PassesTwice(f, Level(0, 1, false), pageOk, [1, 2, 1], 0, 2);
    NeverEndsIff(f, Level(0, 1, false), pageOk);
  }
}
