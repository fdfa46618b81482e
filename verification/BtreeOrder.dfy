/**
 * The order checks of one page: each real item against the high key, the next
 * item, and the first item of the page to the right. Keys are taken from a total
 * order, here the integers.
 */
module BtreeOrder {
  import opened BtreeWalk
  import opened Pigeonhole

  /** The first line with a key of its own: past the high key and an internal page's minus infinity. */
  function FirstReal(p: Page): nat {
    FirstData(p) + if p.isLeaf then 0 else 1
  }

  /** The keys of the page's real items. */
  function PageKeys(p: Page): (r: seq<int>)
    ensures FirstReal(p) <= |p.lines| ==> |r| == |p.lines| - FirstReal(p)
  {
    if |p.lines| <= FirstReal(p) then []
    else seq(|p.lines| - FirstReal(p), i requires 0 <= i < |p.lines| - FirstReal(p) => p.lines[FirstReal(p) + i].key)
  }

  // -------------------------------------------------------- the page to the right

  /** A page the step to the right goes over: half-dead or deleted, and not rightmost. */
  predicate Passed(f: File, b: nat) {
    Readable(f, b) && (f[b].isHalfDead || f[b].isDeleted) && f[b].next != P_NONE
  }

  /** The block after n steps to the right, staying put at a page that is not gone over. */
  function Hop(f: File, b: nat, n: nat): nat {
    if n == 0 then b
    else
      var x := Hop(f, b, n - 1);
      if Passed(f, x) then f[x].next else x
  }

  /** The page the steps lead to: the first not gone over. */
  function RightBlock(f: File, b: nat): nat {
    Hop(f, b, |f|)
  }

  predicate Lands(f: File, b: nat) {
    !Passed(f, RightBlock(f, b))
  }

  lemma {:induction false} HopStays(f: File, b: nat, m: nat, n: nat)
    requires !Passed(f, Hop(f, b, m)) && m <= n
    ensures Hop(f, b, n) == Hop(f, b, m)
  {
    if m == n {
    } else {
      HopStays(f, b, m, n - 1);
    }
  }

  lemma {:induction false} HopPeriodic(f: File, b: nat, i: nat, j: nat, n: nat)
    requires Hop(f, b, i) == Hop(f, b, j)
    ensures Hop(f, b, i + n) == Hop(f, b, j + n)
  {
    hide Passed;
    if n == 0 {
    } else {
      HopPeriodic(f, b, i, j, n - 1);
    }
  }

  /** Once a block comes up twice the steps never land. */
  lemma {:induction false} NeverLands(f: File, b: nat, i: nat, j: nat, n: nat)
    requires i < j && Hop(f, b, i) == Hop(f, b, j) && forall m :: 0 <= m <= j ==> Passed(f, Hop(f, b, m))
    ensures Passed(f, Hop(f, b, n))
  {
    hide Passed, Hop;
    if n <= j {
    } else {
      HopPeriodic(f, b, i, j, n - j);
      NeverLands(f, b, i, j, i + (n - j));
    }
  }

  /** Steps to the right that ever land do so within as many steps as there are blocks, and on one page. */
  lemma LandsWithinFile(f: File, b: nat, n: nat)
    ensures !Passed(f, Hop(f, b, n)) ==> Lands(f, b) && RightBlock(f, b) == Hop(f, b, n)
  {
    if !Passed(f, Hop(f, b, n)) {
      if n <= |f| {
        HopStays(f, b, n, |f|);
      } else if Lands(f, b) {
        HopStays(f, b, |f|, n);
      } else {
        StuckOver(f, b, n);
      }
    }
  }

  /** Steps that do not land come to some block twice. */
  lemma StepsRepeat(f: File, b: nat) returns (i: nat, j: nat)
    requires !Lands(f, b)
    ensures i < j && Hop(f, b, i) == Hop(f, b, j) && forall m :: 0 <= m <= j ==> Passed(f, Hop(f, b, m))
  {
    forall m | 0 <= m <= |f|
      ensures Passed(f, Hop(f, b, m))
    {
      if !Passed(f, Hop(f, b, m)) {
        HopStays(f, b, m, |f|);
      }
    }
    var blocks := seq(|f| + 1, m requires 0 <= m <= |f| => Hop(f, b, m));
    assert forall m :: 0 <= m < |blocks| ==> Passed(f, blocks[m]);
    i, j := Repeat(blocks, |f|);
  }

  lemma StuckOver(f: File, b: nat, n: nat)
    requires !Lands(f, b)
    ensures Passed(f, Hop(f, b, n))
  {
    var i, j := StepsRepeat(f, b);
    NeverLands(f, b, i, j, n);
  }

  /** Steps stay at a page in use, a rightmost or an unreadable one; else they lead where those from the next do. */
  lemma RightBlockIs(f: File, b: nat)
    ensures !Readable(f, b) || f[b].next == 0 || !(f[b].isHalfDead || f[b].isDeleted) ==> RightBlock(f, b) == b
    ensures Readable(f, b) && f[b].next != 0 && (f[b].isHalfDead || f[b].isDeleted) && Lands(f, f[b].next) ==>
              Lands(f, b) && RightBlock(f, b) == RightBlock(f, f[b].next)
  {
    if !Passed(f, b) {
      HopStays(f, b, 0, |f|);
    } else if Lands(f, f[b].next) {
      HopFirst(f, b, |f|);
      LandsWithinFile(f, b, |f| + 1);
    }
  }

  lemma {:induction false} HopFirst(f: File, b: nat, n: nat)
    requires Passed(f, b)
    ensures Hop(f, b, n + 1) == Hop(f, f[b].next, n)
  {
    hide Passed;
    if n == 0 {
      HopOne(f, b);
    } else {
      HopFirst(f, b, n - 1);
    }
  }

  lemma HopOne(f: File, b: nat)
    requires Passed(f, b)
    ensures Hop(f, b, 1) == f[b].next
  {
    assert Hop(f, b, 0) == b;
  }

  // ------------------------------------------------------------------ one page

  /** The key is within the page's high key, strictly on internal pages. */
  predicate BelowHigh(p: Page, key: int)
    requires p.next != P_NONE ==> |p.lines| > 0
  {
    p.next != P_NONE ==> if p.isLeaf then key <= p.lines[0].key else key < p.lines[0].key
  }

  /** The high key bounds every real item. */
  predicate Bounded(p: Page)
    requires p.next != P_NONE ==> |p.lines| > 0
  {
    forall k :: 0 <= k < |PageKeys(p)| ==> BelowHigh(p, PageKeys(p)[k])
  }

  predicate Ascending(s: seq<int>) {
    forall i, j :: 0 <= i < j < |s| ==> s[i] < s[j]
  }

  /** The last of the keys comes before the first of the others, where both exist. */
  predicate Precede(s: seq<int>, t: seq<int>) {
    |s| > 0 && |t| > 0 ==> s[|s| - 1] < t[0]
  }

  /**
   * The page's last real item comes before the first one of the page to the right,
   * where both exist. Where the steps to the right never land, it does not.
   */
  predicate Crosses(f: File, p: Page) {
    |PageKeys(p)| > 0 && p.next != P_NONE ==>
      && Lands(f, p.next) && Readable(f, RightBlock(f, p.next))
      && Precede(PageKeys(p), PageKeys(f[RightBlock(f, p.next)]))
  }

  predicate InOrder(f: File, b: nat) {
    && Readable(f, b) && (f[b].next != P_NONE ==> |f[b].lines| > 0)
    && Bounded(f[b]) && Ascending(PageKeys(f[b])) && Crosses(f, f[b])
  }

  function OrderCheck(f: File): nat -> bool {
    (b: nat) => InOrder(f, b)
  }

  /** Neighbours in order are enough on one page. */
  lemma {:induction false} NeighboursSuffice(s: seq<int>, i: nat, j: nat)
    requires i < j < |s| && forall k :: 0 <= k < |s| - 1 ==> Before(s, k)
    ensures s[i] < s[j]
  {
    assert Before(s, j - 1);
    if i == j - 1 {
    } else {
      NeighboursSuffice(s, i, j - 1);
    }
  }

  predicate Before(s: seq<int>, k: nat)
    requires k + 1 < |s|
  {
    s[k] < s[k + 1]
  }

  /** The key to compare the page's last item with: the first real one of the page to the right, if any. */
  predicate IsRightKey(f: File, p: Page, r: Result<seq<int>>) {
    if p.next == P_NONE then r == Ok([])
    else if !Readable(f, RightBlock(f, p.next)) then r.Raised?
    else
      var keys := PageKeys(f[RightBlock(f, p.next)]);
      r == Ok(if |keys| > 0 then [keys[0]] else [])
  }

  lemma KeysFrom(p: Page)
    ensures |PageKeys(p)| == if |p.lines| <= FirstReal(p) then 0 else |p.lines| - FirstReal(p)
    ensures forall k :: 0 <= k < |PageKeys(p)| ==> PageKeys(p)[k] == p.lines[FirstReal(p) + k].key
    ensures forall i :: FirstReal(p) <= i < |p.lines| ==> p.lines[i].key == PageKeys(p)[i - FirstReal(p)]
  {
  }

  lemma BoundedIff(p: Page)
    requires p.next != 0 ==> |p.lines| > 0
    ensures Bounded(p) <==> forall i :: FirstReal(p) <= i < |p.lines| ==> BelowHigh(p, p.lines[i].key)
  {
    hide PageKeys, FirstReal;
    KeysFrom(p);
    var n := FirstReal(p);
    if Bounded(p) {
      forall i | n <= i < |p.lines|
        ensures BelowHigh(p, p.lines[i].key)
      {
        assert BelowHigh(p, PageKeys(p)[i - n]);
      }
    }
    if forall i :: n <= i < |p.lines| ==> BelowHigh(p, p.lines[i].key) {
      forall k | 0 <= k < |PageKeys(p)|
        ensures BelowHigh(p, PageKeys(p)[k])
      {
        assert BelowHigh(p, p.lines[n + k].key);
      }
    }
  }

  lemma AscendingIff(p: Page)
    ensures Ascending(PageKeys(p))
       <==> forall i, j :: FirstReal(p) <= i < j < |p.lines| ==> p.lines[i].key < p.lines[j].key
  {
    hide PageKeys, FirstReal;
    KeysFrom(p);
    var n, keys := FirstReal(p), PageKeys(p);
    if Ascending(keys) {
      forall i, j | n <= i < j < |p.lines|
        ensures p.lines[i].key < p.lines[j].key
      {
        assert keys[i - n] < keys[j - n];
      }
    }
    if forall i, j :: n <= i < j < |p.lines| ==> p.lines[i].key < p.lines[j].key {
      forall i, j | 0 <= i < j < |keys|
        ensures keys[i] < keys[j]
      {
        assert p.lines[n + i].key < p.lines[n + j].key;
      }
    }
  }

  /** What the check decides, line by line: high key, next item, and the first item of the page to the right. */
  lemma InOrderIff(f: File, b: nat)
    requires Readable(f, b) && !f[b].isDeleted
    ensures f[b].next != 0 ==> |f[b].lines| > 0
    ensures var p := f[b];
            var n := (if p.next == 0 then 0 else 1) + (if p.isLeaf then 0 else 1);
            InOrder(f, b) <==>
              && (p.next != 0 ==> forall i :: n <= i < |p.lines| ==>
                    p.lines[i].key < p.lines[0].key || (p.isLeaf && p.lines[i].key == p.lines[0].key))
              && (forall i, j :: n <= i < j < |p.lines| ==> p.lines[i].key < p.lines[j].key)
              && (n < |p.lines| && p.next != 0 ==>
                    var r := RightBlock(f, p.next);
                    && !Passed(f, r) && Readable(f, r)
                    && var m := (if f[r].next == 0 then 0 else 1) + (if f[r].isLeaf then 0 else 1);
                       m < |f[r].lines| ==> p.lines[|p.lines| - 1].key < f[r].lines[m].key)
  {
    hide RightBlock, Passed, PageKeys, Bounded, Ascending;
    var p := f[b];
    BoundedIff(p);
    AscendingIff(p);
    KeysFrom(p);
    if p.next != 0 && Readable(f, RightBlock(f, p.next)) {
      KeysFrom(f[RightBlock(f, p.next)]);
    }
  }

  method RightPageKey(f: File, p: Page) returns (r: Result<seq<int>>)
    requires p.next != P_NONE ==> Lands(f, p.next)
    ensures IsRightKey(f, p, r)
  {
    if p.next == P_NONE {
      return Ok([]);
    }
    var next := p.next;
    ghost var n := 0;
    while Passed(f, next)
      invariant next == Hop(f, p.next, n) && n <= |f|
      decreases |f| - n
    {
      next, n := f[next].next, n + 1;
    }
    LandsWithinFile(f, p.next, n);
    if !Readable(f, next) {
      return Raised(CannotRead);
    }
    var right := f[next];
    if right.isLeaf && |right.lines| > FirstData(right) {
      return Ok([right.lines[FirstData(right)].key]);
    } else if !right.isLeaf && |right.lines| > FirstData(right) + 1 {
      return Ok([right.lines[FirstData(right) + 1].key]);
    } else {
      return Ok([]);
    }
  }

  lemma CrossesIff(f: File, p: Page, r: Result<seq<int>>)
    requires |PageKeys(p)| > 0 && (p.next != P_NONE ==> Lands(f, p.next)) && IsRightKey(f, p, r)
    ensures Crosses(f, p) <==> r.Ok? && Precede(PageKeys(p), r.value)
  {
  }

  lemma KeyAt(p: Page, n: nat)
    requires FirstReal(p) + n < |p.lines|
    ensures |PageKeys(p)| == |p.lines| - FirstReal(p) && PageKeys(p)[n] == p.lines[FirstReal(p) + n].key
  {
  }

  /** The check of one page that the walk stands on. */
  method TargetPageCheck(f: File, b: nat) returns (ok: bool)
    requires Readable(f, b) && !f[b].isDeleted
    requires |PageKeys(f[b])| > 0 && f[b].next != P_NONE ==> Lands(f, f[b].next)
    ensures ok <==> InOrder(f, b)
  {
    hide Lands, RightBlock, PageKeys, Crosses, IsRightKey;
    var p := f[b];
    var max := |p.lines|;
    ghost var keys := PageKeys(p);
    var offset := FirstReal(p);
    ghost var n := 0;
    while offset < max
      invariant offset == FirstReal(p) + n && (n == 0 || n <= |keys|)
      invariant forall k :: 0 <= k < n ==> BelowHigh(p, keys[k])
      invariant forall k :: 0 <= k < n && k < |keys| - 1 ==> Before(keys, k)
      invariant n == |keys| > 0 ==> Crosses(f, p)
    {
      var key := p.lines[offset].key;
      KeyAt(p, n);
      if !BelowHigh(p, key) {
        assert !BelowHigh(p, keys[n]);
        return false;
      }
      if offset + 1 < max {
        KeyAt(p, n + 1);
        if !(key < p.lines[offset + 1].key) {
          assert !(keys[n] < keys[n + 1]);
          return false;
        }
      } else {
        var right := RightPageKey(f, p);
        CrossesIff(f, p, right);
        if right.Raised? || (|right.value| > 0 && !(right.value[0] > key)) {
          return false;
        }
      }
      offset, n := offset + 1, n + 1;
    }
    NoKeys(f, p);
    forall i, j | 0 <= i < j < |keys|
      ensures keys[i] < keys[j]
    {
      NeighboursSuffice(keys, i, j);
    }
    return true;
  }

  lemma NoKeys(f: File, p: Page)
    ensures |p.lines| <= FirstReal(p) ==> |PageKeys(p)| == 0 && Crosses(f, p)
    ensures |p.lines| > FirstReal(p) ==> |PageKeys(p)| == |p.lines| - FirstReal(p)
  {
  }
}
