/**
 * The checker's descent of the whole tree: from the root level to the leaves,
 * each level walked and handing on the one below.
 */
module BtreeDescent {
  import opened BtreeWalk

  /** The level is sound and hands on the one below. */
  ghost predicate HandsOn(f: File, pageOk: nat -> bool, level: Level, v: seq<nat>, below: Level) {
    GoodLevel(f, level, pageOk, v) && below == After(f, level, pageOk, v).down
  }

  /** The i-th level is sound, and hands on the next if there is one. */
  ghost predicate DescentAt(f: File, pageOk: nat -> bool, levels: seq<Level>, walks: seq<seq<nat>>, i: nat)
    requires i < |levels| == |walks|
  {
    && levels[i].leftmost != P_NONE && GoodLevel(f, levels[i], pageOk, walks[i])
    && (i + 1 < |levels| ==>
          HandsOn(f, pageOk, levels[i], walks[i], levels[i + 1]) && levels[i + 1].leftmost != INVALID_BLOCK)
  }

  /** Sound levels from the root downwards, each handed on by the one above. */
  ghost predicate Descent(f: File, root: Level, pageOk: nat -> bool, levels: seq<Level>, walks: seq<seq<nat>>) {
    && |levels| == |walks| && (|levels| > 0 ==> levels[0] == root)
    && forall i :: 0 <= i < |levels| ==> DescentAt(f, pageOk, levels, walks, i)
  }

  /** What comes after the levels of a descent. */
  ghost function Bottom(f: File, root: Level, pageOk: nat -> bool, levels: seq<Level>, walks: seq<seq<nat>>): Level
    requires Descent(f, root, pageOk, levels, walks)
  {
    if levels == [] then root
    else
      assert DescentAt(f, pageOk, levels, walks, |levels| - 1);
      After(f, levels[|levels| - 1], pageOk, walks[|levels| - 1]).down
  }

  /** A descent after which no level is left. */
  ghost predicate WholeDescent(f: File, root: Level, pageOk: nat -> bool, levels: seq<Level>, walks: seq<seq<nat>>) {
    Descent(f, root, pageOk, levels, walks) && Bottom(f, root, pageOk, levels, walks).leftmost == P_NONE
  }

  ghost predicate EndsInLeaves(f: File, walks: seq<seq<nat>>) {
    && |walks| > 0 && |walks[|walks| - 1]| > 0
    && walks[|walks| - 1][0] < |f| && f[walks[|walks| - 1][0]].isLeaf
  }

  lemma DescentTake(f: File, root: Level, pageOk: nat -> bool, levels: seq<Level>, walks: seq<seq<nat>>, n: nat)
    requires Descent(f, root, pageOk, levels, walks) && n <= |levels|
    ensures Descent(f, root, pageOk, levels[..n], walks[..n])
    ensures n < |levels| ==>
              && Bottom(f, root, pageOk, levels[..n], walks[..n]) == levels[n]
              && (n > 0 ==> levels[n].leftmost != INVALID_BLOCK) && levels[n].leftmost != P_NONE
              && GoodLevel(f, levels[n], pageOk, walks[n])
  {
    hide GoodLevel, After;
    forall i | 0 <= i < n
      ensures DescentAt(f, pageOk, levels[..n], walks[..n], i)
    {
      assert DescentAt(f, pageOk, levels, walks, i);
    }
    if n < |levels| {
      assert DescentAt(f, pageOk, levels, walks, n) && (n > 0 ==> DescentAt(f, pageOk, levels, walks, n - 1));
    }
  }

  lemma DescentExtend(f: File, root: Level, pageOk: nat -> bool, levels: seq<Level>, walks: seq<seq<nat>>,
                      level: Level, v: seq<nat>)
    requires Descent(f, root, pageOk, levels, walks) && level == Bottom(f, root, pageOk, levels, walks)
    requires level.leftmost != P_NONE && (levels != [] ==> level.leftmost != INVALID_BLOCK)
    requires GoodLevel(f, level, pageOk, v)
    ensures Descent(f, root, pageOk, levels + [level], walks + [v])
    ensures Bottom(f, root, pageOk, levels + [level], walks + [v]) == After(f, level, pageOk, v).down
  {
    hide GoodLevel, After;
    var ls, ws := levels + [level], walks + [v];
    forall i | 0 <= i < |ls|
      ensures DescentAt(f, pageOk, ls, ws, i)
    {
      assert i < |levels| ==> DescentAt(f, pageOk, levels, walks, i);
    }
  }

  /** Every descent begins a whole one, if there is one. */
  lemma {:induction false} DescentUnique(f: File, root: Level, pageOk: nat -> bool, levels: seq<Level>,
                                         walks: seq<seq<nat>>, ls: seq<Level>, ws: seq<seq<nat>>, n: nat)
    requires Descent(f, root, pageOk, levels, walks) && WholeDescent(f, root, pageOk, ls, ws) && n <= |levels|
    ensures n <= |ls| && levels[..n] == ls[..n] && walks[..n] == ws[..n]
  {
    hide Descent, Bottom, GoodLevel;
    assert |levels| == |walks| && |ls| == |ws| by {
      DescentLengths(f, root, pageOk, levels, walks);
      DescentLengths(f, root, pageOk, ls, ws);
    }
    if n == 0 {
    } else {
      DescentUnique(f, root, pageOk, levels, walks, ls, ws, n - 1);
      DescentTake(f, root, pageOk, levels, walks, n - 1);
      DescentTake(f, root, pageOk, ls, ws, n - 1);
      assert ls[..|ls|] == ls && ws[..|ws|] == ws;
      assert n - 1 < |ls| && ls[n - 1] == levels[n - 1];
      LevelUnique(f, levels[n - 1], pageOk, walks[n - 1], ws[n - 1]);
      assert levels[..n] == levels[..n - 1] + [levels[n - 1]] && walks[..n] == walks[..n - 1] + [walks[n - 1]];
      assert ls[..n] == ls[..n - 1] + [ls[n - 1]] && ws[..n] == ws[..n - 1] + [ws[n - 1]];
    }
  }

  lemma DescentLengths(f: File, root: Level, pageOk: nat -> bool, levels: seq<Level>, walks: seq<seq<nat>>)
    requires Descent(f, root, pageOk, levels, walks)
    ensures |levels| == |walks|
  {
  }

  /** A descent stuck before a level that is not sound, or is no block at all, is part of no whole one. */
  lemma StuckDescent(f: File, root: Level, pageOk: nat -> bool, levels: seq<Level>, walks: seq<seq<nat>>,
                     ls: seq<Level>, ws: seq<seq<nat>>)
    requires Descent(f, root, pageOk, levels, walks)
    requires var level := Bottom(f, root, pageOk, levels, walks);
             && level.leftmost != P_NONE
             && ((levels != [] && level.leftmost == INVALID_BLOCK) || forall v :: !GoodLevel(f, level, pageOk, v))
    ensures !WholeDescent(f, root, pageOk, ls, ws)
  {
    hide Descent, Bottom, GoodLevel;
    if WholeDescent(f, root, pageOk, ls, ws) {
      var n := |levels|;
      DescentUnique(f, root, pageOk, levels, walks, ls, ws, n);
      DescentLengths(f, root, pageOk, levels, walks);
      DescentLengths(f, root, pageOk, ls, ws);
      assert levels[..n] == levels && walks[..n] == walks && ls[..|ls|] == ls && ws[..|ws|] == ws;
      DescentTake(f, root, pageOk, ls, ws, n);
    }
  }

  /** Each level of a descent is numbered one below the level above it. */
  lemma {:induction false} DescentCounts(f: File, root: Level, pageOk: nat -> bool, levels: seq<Level>,
                                         walks: seq<seq<nat>>, i: nat)
    requires Descent(f, root, pageOk, levels, walks) && i < |levels|
    ensures levels[i].level + i == root.level
  {
    if i == 0 {
    } else {
      DescentCounts(f, root, pageOk, levels, walks, i - 1);
      assert DescentAt(f, pageOk, levels, walks, i - 1) && DescentAt(f, pageOk, levels, walks, i);
      LevelStarts(f, levels[i - 1], pageOk, walks[i - 1]);
    }
  }

  /** A descent starts at the root, which is flagged as such and has no neighbours to its left. */
  lemma StartsAtRoot(f: File, root: nat, rootLevel: nat, pageOk: nat -> bool, levels: seq<Level>, walks: seq<seq<nat>>)
    requires Descent(f, Level(rootLevel, root, true), pageOk, levels, walks) && levels != []
    ensures |walks[0]| > 0 && walks[0][0] == root < |f|
    ensures f[root].isRoot && f[root].prev == 0 && f[root].level == rootLevel
  {
    assert DescentAt(f, pageOk, levels, walks, 0);
    GoodNonempty(f, levels[0], pageOk, walks[0]);
    LevelPages(f, levels[0], pageOk, walks[0], 0);
    LevelStarts(f, levels[0], pageOk, walks[0]);
  }

  /** The level starts with an internal page whose first downlink is no block. */
  ghost predicate NamesNone(f: File, v: seq<nat>) {
    |v| > 0 && v[0] < |f| && FirstDownlink(f[v[0]], P_NONE)
  }

  /** A level above another one of the descent names a block. */
  lemma UpperNames(f: File, root: Level, pageOk: nat -> bool, levels: seq<Level>, walks: seq<seq<nat>>, i: nat)
    requires Descent(f, root, pageOk, levels, walks) && i + 1 < |levels|
    ensures !NamesNone(f, walks[i])
  {
    hide GoodLevel, After;
    assert DescentAt(f, pageOk, levels, walks, i) && DescentAt(f, pageOk, levels, walks, i + 1);
    GoodNonempty(f, levels[i], pageOk, walks[i]);
    LevelStarts(f, levels[i], pageOk, walks[i]);
  }

  /**
   * A whole descent has one level for each number down to 0, and so ends in
   * leaves, if and only if no level of it starts with an internal page whose
   * first downlink is no block.
   */
  lemma WholeDescentDepth(f: File, root: Level, pageOk: nat -> bool, levels: seq<Level>, walks: seq<seq<nat>>)
    requires WholeDescent(f, root, pageOk, levels, walks) && levels != []
    ensures |levels| <= root.level + 1 && (|levels| == root.level + 1 <==> EndsInLeaves(f, walks))
    ensures EndsInLeaves(f, walks) <==> forall i :: 0 <= i < |walks| ==> !NamesNone(f, walks[i])
  {
    hide GoodLevel, After;
    var n := |levels| - 1;
    DescentCounts(f, root, pageOk, levels, walks, n);
    assert DescentAt(f, pageOk, levels, walks, n);
    GoodNonempty(f, levels[n], pageOk, walks[n]);
    LevelStarts(f, levels[n], pageOk, walks[n]);
    assert EndsInLeaves(f, walks) <==> !NamesNone(f, walks[n]);
    forall i | 0 <= i < n
      ensures !NamesNone(f, walks[i])
    {
      UpperNames(f, root, pageOk, levels, walks, i);
    }
  }

  lemma GoodNonempty(f: File, level: Level, pageOk: nat -> bool, v: seq<nat>)
    requires GoodLevel(f, level, pageOk, v)
    ensures |v| > 0
  {
  }

  predicate FirstDownlink(p: Page, b: nat) {
    !p.isLeaf && FirstData(p) < |p.lines| && p.lines[FirstData(p)].downlink == b
  }

  /** A level of the file may start at the block: it is the root or the first downlink of a leftmost page. */
  ghost predicate StartsLevel(f: File, root: nat, b: nat) {
    b == root || exists x :: 0 <= x < |f| && f[x].prev == P_NONE && FirstDownlink(f[x], b)
  }

  ghost predicate EveryLevelOnce(f: File, root: nat) {
    forall b :: StartsLevel(f, root, b) ==> HalfDeadOnce(f, b)
  }

  lemma DownStartsLevel(f: File, root: nat, level: Level, pageOk: nat -> bool, v: seq<nat>)
    requires GoodLevel(f, level, pageOk, v)
    ensures var down := After(f, level, pageOk, v).down;
            || down.leftmost == P_NONE
            || (down.level == level.level - 1 && level.level > 0 && StartsLevel(f, root, down.leftmost))
  {
    LevelStarts(f, level, pageOk, v);
    assert GoodAt(f, level, pageOk, v, 0);
    assert f[v[0]].prev == P_NONE;
    assert !f[v[0]].isLeaf ==> FirstDownlink(f[v[0]], Down(f[v[0]]).leftmost);
  }

  /** The whole descent from the root: it ends, and raises nothing exactly when there is one. */
  method CheckEveryLevel(f: File, root: nat, rootLevel: nat, pageOk: nat -> bool)
    returns (r: Result<nat>, ghost levels: seq<Level>, ghost walks: seq<seq<nat>>)
    requires EveryLevelOnce(f, root)
    ensures Descent(f, Level(rootLevel, root, true), pageOk, levels, walks)
    ensures r.Ok? ==> WholeDescent(f, Level(rootLevel, root, true), pageOk, levels, walks) && r.value == |levels|
    ensures r.Ok? && root != P_NONE ==>
              r.value <= rootLevel + 1 && (r.value == rootLevel + 1 <==> EndsInLeaves(f, walks))
    ensures r.Raised? ==> forall ls, ws :: !WholeDescent(f, Level(rootLevel, root, true), pageOk, ls, ws)
  {
    hide GoodLevel, Descent, Bottom, EndsInLeaves, HalfDeadOnce, StartsLevel, After;
    ghost var top := Level(rootLevel, root, true);
    var current := Level(rootLevel, root, true);
    var count := 0;
    levels, walks := [], [];
    NoLevels(f, top, pageOk);
    RootStartsLevel(f, root);
    while current.leftmost != P_NONE
      invariant Descent(f, top, pageOk, levels, walks) && count == |levels|
      invariant current == Bottom(f, top, pageOk, levels, walks)
      invariant levels != [] ==> current.leftmost != INVALID_BLOCK
      invariant levels == [] ==> current == top
      invariant current.leftmost != P_NONE ==> StartsLevel(f, root, current.leftmost)
      decreases current.leftmost != P_NONE, current.level
    {
      var below, v := CheckLevel(f, current, pageOk);
      if below.Raised? {
        forall ls, ws
          ensures !WholeDescent(f, top, pageOk, ls, ws)
        {
          StuckDescent(f, top, pageOk, levels, walks, ls, ws);
        }
        return Raised(below.error), levels, walks;
      }
      DownStartsLevel(f, root, current, pageOk, v);
      DescentExtend(f, top, pageOk, levels, walks, current, v);
      levels, walks, count := levels + [current], walks + [v], count + 1;
      if below.value.leftmost == INVALID_BLOCK {
        forall ls, ws
          ensures !WholeDescent(f, top, pageOk, ls, ws)
        {
          StuckDescent(f, top, pageOk, levels, walks, ls, ws);
        }
        return Raised(NoValidPages), levels, walks;
      }
      current := below.value;
    }
    if levels != [] {
      WholeDescentDepth(f, top, pageOk, levels, walks);
    }
    return Ok(count), levels, walks;
  }

  lemma NoLevels(f: File, root: Level, pageOk: nat -> bool)
    ensures Descent(f, root, pageOk, [], []) && Bottom(f, root, pageOk, [], []) == root
  {
  }

  lemma RootStartsLevel(f: File, root: nat)
    ensures StartsLevel(f, root, root)
  {
  }

  /** A root whose first downlink is block 0 ends the descent: no leaf is looked at and nothing is raised. */
  lemma ZeroDownlinkStops()
    ensures var f := [Page(0, 0, 0, false, false, true, false, false, []),
                      Page(0, 0, 3, false, true, false, false, false, [Item(0, 0)])];
            var root := Level(3, 1, true);
            WholeDescent(f, root, b => true, [root], [[1]]) && !EndsInLeaves(f, [[1]])
  {
    var f := [Page(0, 0, 0, false, false, true, false, false, []),
              Page(0, 0, 3, false, true, false, false, false, [Item(0, 0)])];
    var root := Level(3, 1, true);
    var pageOk: nat -> bool := b => true;
    assert GoodAt(f, root, pageOk, [1], 0);
    assert GoodLevel(f, root, pageOk, [1]);
    assert DescentAt(f, pageOk, [root], [[1]], 0);
  }
}
