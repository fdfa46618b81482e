/**
 * The update-chain checks on one heap page. Line pointers are numbered from 1;
 * 0 stands for no offset.
 */
module HeapChain {
  import opened Pigeonhole

  const BLCKSZ := 8192
  const MIN_TUPLE := 24
  const MAX_OFFSET_NUMBER := 2048

  datatype Status = Committed | IsCurrentXid | InProgress | Aborted

  /**
   * What the tuple check finds: whether it reports anything, whether it learns
   * xmin's status, the status, and whether xmin is still running when asked again.
   */
  datatype TupleCheck = TupleCheck(clean: bool, statusOk: bool, status: Status, stillRunning: bool)

  datatype Header = Header(
    xmin: nat, updateXid: nat, hotUpdated: bool, heapOnly: bool, ctidBlock: nat, ctidOffset: nat, check: TupleCheck)

  datatype Item =
    | Unused
    | Dead
    | Redirect(to: nat)
    | Normal(off: nat, len: nat, header: Header)

  datatype Page = Page(blkno: nat, items: seq<Item>)

  function MaxOff(p: Page): nat {
    |p.items|
  }

  predicate Offset(p: Page, i: int) {
    1 <= i <= MaxOff(p)
  }

  function At(p: Page, i: nat): Item
    requires Offset(p, i)
  {
    p.items[i - 1]
  }

  // ------------------------------------------------------ what a page should be

  predicate SaneLine(item: Item)
    requires item.Normal?
  {
    item.off % 8 == 0 && item.len >= MIN_TUPLE && item.off + item.len <= BLCKSZ
  }

  predicate GoodRedirect(p: Page, to: nat) {
    Offset(p, to) && At(p, to).Normal?
  }

  /** The line pointer can be followed. */
  predicate ValidLine(p: Page, i: nat)
    requires Offset(p, i)
  {
    match At(p, i)
    case Redirect(to) => GoodRedirect(p, to)
    case Normal(_, _, _) => SaneLine(At(p, i))
    case _ => false
  }

  predicate GoodItem(p: Page, i: nat)
    requires Offset(p, i)
  {
    match At(p, i)
    case Unused => true
    case Dead => true
    case Redirect(_) => ValidLine(p, i)
    case Normal(_, _, h) => ValidLine(p, i) && h.check.clean
  }

  /** Where the line pointer leads on this page, or 0. */
  function Successor(p: Page, i: nat): (j: nat)
    requires Offset(p, i)
    ensures j != 0 ==> Offset(p, j) && ValidLine(p, i)
  {
    if !ValidLine(p, i) then 0
    else
      match At(p, i)
      case Redirect(to) => to
      case Normal(_, _, h) =>
        if h.ctidBlock == p.blkno && h.ctidOffset != i && Offset(p, h.ctidOffset) then h.ctidOffset else 0
  }

  /** i's next version is j: a redirect to j, or an update whose xid is j's xmin. */
  predicate Linked(p: Page, i: nat, j: nat) {
    && Offset(p, i) && Offset(p, j) && Successor(p, i) == j && ValidLine(p, j)
    && (At(p, i).Normal? ==>
          At(p, j).Normal? && At(p, i).header.updateXid != 0 && At(p, i).header.updateXid == At(p, j).header.xmin)
  }

  /** The statuses of old and new version's xmin can go together. */
  predicate StatusesOk(old_: TupleCheck, new_: TupleCheck) {
    !(&& old_.statusOk && new_.statusOk
      && (|| (old_.status.InProgress? && new_.status.Committed? && old_.stillRunning)
          || (old_.status.Aborted? && (new_.status.InProgress? || new_.status.Committed?))))
  }

  predicate GoodLink(p: Page, i: nat, j: nat)
    requires Linked(p, i, j)
  {
    if At(p, i).Redirect? then At(p, j).Normal? && At(p, j).header.heapOnly
    else
      && At(p, i).header.hotUpdated == At(p, j).header.heapOnly
      && StatusesOk(At(p, i).header.check, At(p, j).header.check)
  }

  /** A heap-only tuple whose xmin is committed or in progress cannot begin a chain. */
  predicate NeedsPredecessor(p: Page, j: nat)
    requires Offset(p, j)
  {
    && At(p, j).Normal? && SaneLine(At(p, j)) && At(p, j).header.heapOnly
    && At(p, j).header.check.statusOk
    && (At(p, j).header.check.status.Committed? || At(p, j).header.check.status.InProgress?)
  }

  ghost predicate Sound(p: Page) {
    && (forall i :: Offset(p, i) ==> GoodItem(p, i))
    && (forall i, k, j :: Linked(p, i, j) && Linked(p, k, j) ==> i == k)
    && (forall i, j :: Linked(p, i, j) ==> GoodLink(p, i, j))
    && (forall j :: Offset(p, j) && NeedsPredecessor(p, j) ==> exists i :: Linked(p, i, j))
  }

  // ------------------------------------------------------------------ reports

  datatype Problem =
    | RedirectTooSmall | RedirectTooLarge | RedirectToUnused | RedirectToDead | RedirectToRedirect
    | Misaligned | TooShort | PastEnd | BadTuple
    | RedirectToNonHeapOnly | RedirectsMeet | ChainsMeet | NotHotToHeapOnly | HotToNotHeapOnly
    | InProgressToCommitted | AbortedToInProgress | AbortedToCommitted | HeapOnlyRoot

  datatype Report = Report(offnum: nat, problem: Problem)

  /** The first link to j from an offset below i, or 0. */
  ghost function FirstLink(p: Page, i: nat, j: nat): (k: nat)
    ensures k == 0 <==> forall l :: 0 <= l < i ==> !Linked(p, l, j)
    ensures k != 0 ==> k < i && Linked(p, k, j)
  {
    if i == 0 then 0
    else
      var before := FirstLink(p, i - 1, j);
      if before != 0 then before else if Linked(p, i - 1, j) then i - 1 else 0
  }

  /** The link from i, if any, is the first to its target and is as it should be. */
  ghost predicate CleanLink(p: Page, i: nat) {
    forall j :: Linked(p, i, j) ==> FirstLink(p, i, j) == 0 && GoodLink(p, i, j)
  }

  ghost predicate CleanRoot(p: Page, j: nat)
    requires Offset(p, j)
  {
    NeedsPredecessor(p, j) ==> FirstLink(p, MaxOff(p) + 1, j) != 0
  }

  ghost predicate GoodLines(p: Page, n: nat) {
    forall i :: Offset(p, i) && i < n ==> GoodItem(p, i)
  }

  ghost predicate CleanLinks(p: Page, n: nat) {
    forall i :: Offset(p, i) && i < n ==> CleanLink(p, i)
  }

  ghost predicate CleanRoots(p: Page, n: nat) {
    forall j :: Offset(p, j) && j < n ==> CleanRoot(p, j)
  }

  lemma NoLink(p: Page, i: nat)
    requires Offset(p, i) && (Successor(p, i) == 0 || !ValidLine(p, Successor(p, i)))
    ensures forall j :: !Linked(p, i, j)
    ensures CleanLink(p, i)
  {
  }

  lemma OnlyLink(p: Page, i: nat)
    requires Offset(p, i)
    ensures forall j :: Linked(p, i, j) ==> j == Successor(p, i)
  {
  }

  /** No report in any of the three passes means a sound page, and conversely. */
  lemma CleanIffSound(p: Page)
    ensures GoodLines(p, MaxOff(p) + 1) && CleanLinks(p, MaxOff(p) + 1) && CleanRoots(p, MaxOff(p) + 1) <==> Sound(p)
  {
    if CleanLinks(p, MaxOff(p) + 1) {
      forall i, k, j | Linked(p, i, j) && Linked(p, k, j)
        ensures i == k
      {
        assert CleanLink(p, i) && CleanLink(p, k);
      }
      forall i, j | Linked(p, i, j)
        ensures GoodLink(p, i, j)
      {
        assert CleanLink(p, i);
      }
    }
    if Sound(p) {
      forall j | Offset(p, j)
        ensures CleanRoot(p, j)
      {
        if NeedsPredecessor(p, j) {
          var i: nat :| Linked(p, i, j);
          assert i < MaxOff(p) + 1;
        }
      }
    }
  }

  // ------------------------------------------------------------------- passes

  /** Whether, and as what, the first pass records the status of the tuple's xmin. */
  predicate StatusKnown(p: Page, i: nat)
    requires Offset(p, i)
  {
    At(p, i).Normal? && SaneLine(At(p, i)) && At(p, i).header.check.statusOk
  }

  /** First pass, one line pointer. */
  method CheckLine(p: Page, i: nat) returns (reports: seq<Report>, valid: bool, next: nat, ok: bool, status: Status)
    requires Offset(p, i)
    ensures reports == [] <==> GoodItem(p, i)
    ensures valid == ValidLine(p, i) && next == Successor(p, i) && ok == StatusKnown(p, i)
    ensures ok ==> status == At(p, i).header.check.status
  {
    reports, valid, next, ok, status := [], false, 0, false, Aborted;
    var item := At(p, i);
    match item
    case Unused =>
    case Dead =>
    case Redirect(to) =>
      if to < 1 {
        reports := [Report(i, RedirectTooSmall)];
      } else if to > MaxOff(p) {
        reports := [Report(i, RedirectTooLarge)];
      } else if At(p, to).Unused? {
        reports := [Report(i, RedirectToUnused)];
      } else if At(p, to).Dead? {
        reports := [Report(i, RedirectToDead)];
      } else if At(p, to).Redirect? {
        reports := [Report(i, RedirectToRedirect)];
      } else {
        valid, next := true, to;
      }
    case Normal(off, len, h) =>
      if off % 8 != 0 {
        reports := [Report(i, Misaligned)];
      } else if len < MIN_TUPLE {
        reports := [Report(i, TooShort)];
      } else if off + len > BLCKSZ {
        reports := [Report(i, PastEnd)];
      } else {
        valid, ok, status := true, h.check.statusOk, h.check.status;
        if !h.check.clean {
          reports := [Report(i, BadTuple)];
        }
        if h.ctidBlock == p.blkno && h.ctidOffset != i && h.ctidOffset >= 1 && h.ctidOffset <= MaxOff(p) {
          next := h.ctidOffset;
        }
      }
  }

  /** The status part of the second pass, on what the first pass recorded. */
  method CheckStatuses(i: nat, ok: bool, status: Status, nextOk: bool, nextStatus: Status, stillRunning: bool)
    returns (reports: seq<Report>)
    ensures reports == [] <==>
              !(ok && nextOk && ((status.InProgress? && nextStatus.Committed? && stillRunning)
                                || (status.Aborted? && (nextStatus.InProgress? || nextStatus.Committed?))))
  {
    reports := [];
    if ok && status.InProgress? && nextOk && nextStatus.Committed? && stillRunning {
      reports := reports + [Report(i, InProgressToCommitted)];
    }
    if ok && status.Aborted? && nextOk {
      if nextStatus.InProgress? {
        reports := reports + [Report(i, AbortedToInProgress)];
      } else if nextStatus.Committed? {
        reports := reports + [Report(i, AbortedToCommitted)];
      }
    }
  }

  /** Second pass, one line pointer with a followable successor; `pred` is who already points there. */
  method CheckLink(p: Page, i: nat, next: nat, pred: nat, ok: bool, status: Status, nextOk: bool, nextStatus: Status)
    returns (reports: seq<Report>, chained: bool)
    requires Offset(p, i) && Offset(p, next) && Successor(p, i) == next && ValidLine(p, next)
    requires ok == StatusKnown(p, i) && (ok ==> status == At(p, i).header.check.status)
    requires nextOk == StatusKnown(p, next) && (nextOk ==> nextStatus == At(p, next).header.check.status)
    ensures chained <==> Linked(p, i, next) && pred == 0
    ensures reports == [] <==> (Linked(p, i, next) ==> pred == 0 && GoodLink(p, i, next))
  {
    reports, chained := [], false;
    if At(p, i).Redirect? {
      if !At(p, next).header.heapOnly {
        reports := reports + [Report(i, RedirectToNonHeapOnly)];
      }
      if pred != 0 {
        reports := reports + [Report(i, RedirectsMeet)];
        return;
      }
      chained := true;
      return;
    }
    if At(p, next).Redirect? {
      return;
    }
    var curr, new_ := At(p, i).header, At(p, next).header;
    if curr.updateXid == 0 || curr.updateXid != new_.xmin {
      return;
    }
    if pred != 0 {
      reports := [Report(i, ChainsMeet)];
      return;
    }
    chained := true;
    if !curr.hotUpdated && new_.heapOnly {
      reports := reports + [Report(i, NotHotToHeapOnly)];
    }
    if curr.hotUpdated && !new_.heapOnly {
      reports := reports + [Report(i, HotToNotHeapOnly)];
    }
    var more := CheckStatuses(i, ok, status, nextOk, nextStatus, curr.check.stillRunning);
    reports := reports + more;
  }

  lemma NoneBelow(p: Page)
    ensures forall j :: Offset(p, j) ==> FirstLink(p, 1, j) == 0
  {
    assert forall j :: !Linked(p, 0, j);
  }

  /** On a sound page the first link to an offset is the only one. */
  lemma FirstIsOnly(p: Page, i: nat, j: nat)
    requires Sound(p) && Offset(p, i)
    ensures FirstLink(p, MaxOff(p) + 1, j) == i <==> Linked(p, i, j)
  {
  }

  /** The checker's working arrays for one page, indexed by offset. */
  class PageCheck {
    const p: Page
    const successor: array<nat>
    const predecessor: array<nat>
    const lpValid: array<bool>
    const xminOk: array<bool>
    const xminStatus: array<Status>
    var reports: seq<Report>

    ghost predicate Shape() {
      && MaxOff(p) < MAX_OFFSET_NUMBER == successor.Length == predecessor.Length
      && lpValid.Length == xminOk.Length == xminStatus.Length == MAX_OFFSET_NUMBER
      && successor != predecessor && lpValid != xminOk
    }

    constructor (page: Page)
      requires MaxOff(page) < MAX_OFFSET_NUMBER
      ensures p == page && Shape() && reports == []
      ensures fresh(successor) && fresh(predecessor) && fresh(lpValid) && fresh(xminOk) && fresh(xminStatus)
      ensures forall j :: 0 <= j < MAX_OFFSET_NUMBER ==> predecessor[j] == 0
    {
      p := page;
      successor, predecessor := new nat[MAX_OFFSET_NUMBER], new nat[MAX_OFFSET_NUMBER](_ => 0);
      lpValid, xminOk := new bool[MAX_OFFSET_NUMBER], new bool[MAX_OFFSET_NUMBER];
      xminStatus := new Status[MAX_OFFSET_NUMBER](_ => Aborted);
      reports := [];
    }

    /** The arrays hold what the line pointers below i say. */
    ghost predicate Scanned(i: nat)
      reads successor, lpValid, xminOk, xminStatus
    {
      && Shape()
      && forall k :: Offset(p, k) && k < i ==>
           && successor[k] == Successor(p, k) && lpValid[k] == ValidLine(p, k) && xminOk[k] == StatusKnown(p, k)
           && (xminOk[k] ==> xminStatus[k] == At(p, k).header.check.status)
    }

    method ScanLines()
      requires Shape() && reports == []
      modifies this`reports, successor, lpValid, xminOk, xminStatus
      ensures Scanned(MaxOff(p) + 1)
      ensures reports == [] <==> GoodLines(p, MaxOff(p) + 1)
    {
      hide GoodItem, ValidLine, Successor, StatusKnown;
      for i := 1 to MaxOff(p) + 1
        invariant Scanned(i)
        invariant reports == [] <==> GoodLines(p, i)
      {
        var found, valid, next, ok, status := CheckLine(p, i);
        successor[i], lpValid[i], xminOk[i], xminStatus[i] := next, valid, ok, status;
        reports := reports + found;
      }
    }

    /** Each offset's predecessor is the first below i that links to it. */
    ghost predicate Chained(i: nat)
      reads predecessor
    {
      Shape() && forall j :: Offset(p, j) ==> predecessor[j] == FirstLink(p, i, j)
    }

    method CheckLinks()
      requires Scanned(MaxOff(p) + 1) && Chained(1)
      modifies this`reports, predecessor
      ensures Chained(MaxOff(p) + 1)
      ensures reports == [] <==> old(reports) == [] && CleanLinks(p, MaxOff(p) + 1)
    {
      hide Linked, GoodLink, ValidLine, Successor, StatusKnown;
      for i := 1 to MaxOff(p) + 1
        invariant Chained(i)
        invariant reports == [] <==> old(reports) == [] && CleanLinks(p, i)
      {
        assert CleanLinks(p, i + 1) <==> CleanLinks(p, i) && CleanLink(p, i);
        var next := successor[i];
        if next == 0 || !lpValid[next] {
          NoLink(p, i);
          continue;
        }
        var found, chained :=
          CheckLink(p, i, next, predecessor[next], xminOk[i], xminStatus[i], xminOk[next], xminStatus[next]);
        OnlyLink(p, i);
        assert found == [] <==> CleanLink(p, i);
        if chained {
          predecessor[next] := i;
        }
        reports := reports + found;
      }
    }

    method CheckRoots()
      requires Scanned(MaxOff(p) + 1) && Chained(MaxOff(p) + 1)
      modifies this`reports
      ensures reports == [] <==> old(reports) == [] && CleanRoots(p, MaxOff(p) + 1)
    {
      hide FirstLink, ValidLine, Successor, Linked;
      for j := 1 to MaxOff(p) + 1
        invariant reports == [] <==> old(reports) == [] && CleanRoots(p, j)
      {
        assert CleanRoots(p, j + 1) <==> CleanRoots(p, j) && CleanRoot(p, j);
        if xminOk[j] && (xminStatus[j].Committed? || xminStatus[j].InProgress?) && predecessor[j] == 0 {
          if !At(p, j).Redirect? {
            if At(p, j).header.heapOnly {
              reports := reports + [Report(j, HeapOnlyRoot)];
            }
          }
        }
      }
    }

    /**
     * The three passes. They report nothing exactly on a sound page, and then
     * `predecessor` is the exact inverse of the links.
     */
    method Check()
      requires Shape() && reports == [] && forall j :: 0 <= j < MAX_OFFSET_NUMBER ==> predecessor[j] == 0
      modifies this`reports, successor, predecessor, lpValid, xminOk, xminStatus
      ensures reports == [] <==> Sound(p)
      ensures reports == [] ==>
                forall i, j :: Offset(p, i) && Offset(p, j) ==> (predecessor[j] == i <==> Linked(p, i, j))
    {
      hide Sound, CleanLinks, CleanRoots, GoodLines, FirstLink;
      ScanLines();
      NoneBelow(p);
      CheckLinks();
      CheckRoots();
      CleanIffSound(p);
      if reports == [] {
        forall i, j | Offset(p, i) && Offset(p, j)
          ensures predecessor[j] == i <==> Linked(p, i, j)
        {
          FirstIsOnly(p, i, j);
        }
      }
    }
  }

  // ------------------------------------------------------------ whole chains

  ghost predicate ChainStep(p: Page, s: seq<nat>, k: nat)
    requires k + 1 < |s|
  {
    Linked(p, s[k], s[k + 1])
  }

  /** Offsets each linked to the next. */
  ghost predicate Chain(p: Page, s: seq<nat>) {
    |s| > 0 && forall k :: 0 <= k < |s| - 1 ==> ChainStep(p, s, k)
  }

  /** On a sound page chains never meet: of two that end alike, one is the tail of the other. */
  lemma {:induction false} ChainsNeverMeet(p: Page, s: seq<nat>, t: seq<nat>)
    requires Sound(p) && Chain(p, s) && Chain(p, t)
    requires |s| <= |t| && s[|s| - 1] == t[|t| - 1]
    ensures s == t[|t| - |s|..]
  {
    var m, n := |s| - 1, |t| - 1;
    if m > 0 {
      assert ChainStep(p, s, m - 1) && ChainStep(p, t, n - 1);
      ChainPrefix(p, s);
      ChainPrefix(p, t);
      ChainsNeverMeet(p, s[..m], t[..n]);
      assert s == s[..m] + [s[m]];
      assert t[|t| - |s|..] == t[..n][n - m..] + [t[n]];
    } else {
      assert t[n..] == [t[n]];
    }
  }

  lemma ChainPrefix(p: Page, s: seq<nat>)
    requires Chain(p, s) && |s| > 1
    ensures Chain(p, s[..|s| - 1])
  {
    var u := s[..|s| - 1];
    forall k | 0 <= k < |u| - 1
      ensures ChainStep(p, u, k)
    {
      assert ChainStep(p, s, k);
    }
  }

  /** So a tuple is reached from at most one redirect, along one chain. */
  lemma OneRedirectRoot(p: Page, s: seq<nat>, t: seq<nat>)
    requires Sound(p) && Chain(p, s) && Chain(p, t) && s[|s| - 1] == t[|t| - 1]
    requires Offset(p, s[0]) && Offset(p, t[0]) && At(p, s[0]).Redirect? && At(p, t[0]).Redirect?
    ensures s == t
  {
    var a, b := if |s| <= |t| then s else t, if |s| <= |t| then t else s;
    ChainsNeverMeet(p, a, b);
    var d := |b| - |a|;
    assert b[d] == a[0];
    LaterIsTuple(p, b, d);
  }

  lemma LaterIsTuple(p: Page, s: seq<nat>, k: nat)
    requires Chain(p, s) && k < |s|
    ensures k > 0 ==> Offset(p, s[k]) && At(p, s[k]).Normal?
  {
    if k > 0 {
      assert ChainStep(p, s, k - 1);
    }
  }

  /** Along a chain, a tuple after the first is heap-only exactly when what precedes it is a redirect or HOT-updated. */
  lemma HeapOnlyAlong(p: Page, s: seq<nat>, k: nat)
    requires Sound(p) && Chain(p, s) && k + 1 < |s|
    ensures Offset(p, s[k]) && Offset(p, s[k + 1]) && At(p, s[k + 1]).Normal?
    ensures At(p, s[k + 1]).header.heapOnly
       <==> At(p, s[k]).Redirect? || (At(p, s[k]).Normal? && At(p, s[k]).header.hotUpdated)
  {
    assert ChainStep(p, s, k);
  }

  /** On a sound page every line pointer is free, dead, a redirect to a tuple, or a tuple within the page. */
  lemma SoundLines(p: Page, i: nat)
    requires Sound(p) && Offset(p, i)
    ensures At(p, i).Redirect? ==> 1 <= At(p, i).to <= |p.items| && p.items[At(p, i).to - 1].Normal?
    ensures At(p, i).Normal? ==>
              && At(p, i).off % 8 == 0 && At(p, i).len >= 24 && At(p, i).off + At(p, i).len <= 8192
              && At(p, i).header.check.clean
  {
    assert GoodItem(p, i);
  }

  /** What a link is there, in the fields of the line pointers. */
  lemma LinkedIff(p: Page, i: nat, j: nat)
    requires Sound(p) && Offset(p, i) && Offset(p, j)
    ensures Linked(p, i, j)
       <==> At(p, j).Normal? &&
            match At(p, i)
            case Redirect(to) => to == j
            case Normal(_, _, h) =>
              && h.ctidBlock == p.blkno && h.ctidOffset == j && i != j
              && h.updateXid != 0 && h.updateXid == At(p, j).header.xmin
            case _ => false
  {
    assert GoodItem(p, i) && GoodItem(p, j);
  }

  /** From version to version an aborted insert is followed by no later one, and a running one by none committed. */
  lemma StatusesAlong(p: Page, i: nat, j: nat)
    requires Sound(p) && Linked(p, i, j) && At(p, i).Normal?
    requires At(p, i).header.check.statusOk && At(p, j).header.check.statusOk
    ensures At(p, i).header.check.status.Aborted? ==>
              !At(p, j).header.check.status.Committed? && !At(p, j).header.check.status.InProgress?
    ensures At(p, i).header.check.status.InProgress? && At(p, i).header.check.stillRunning ==>
              !At(p, j).header.check.status.Committed?
  {
    assert GoodLink(p, i, j);
  }

  /** A tuple that nothing links to, known to be committed or in progress, is not heap-only. */
  lemma RootIsNotHeapOnly(p: Page, j: nat)
    requires Sound(p) && Offset(p, j) && At(p, j).Normal? && forall i :: !Linked(p, i, j)
    requires At(p, j).header.check.statusOk
    requires At(p, j).header.check.status.Committed? || At(p, j).header.check.status.InProgress?
    ensures !At(p, j).header.heapOnly
  {
    assert GoodItem(p, j);
  }

  // ------------------------------------------------------------------ cycles

  ghost predicate ChainTo(p: Page, s: seq<nat>, j: nat) {
    Chain(p, s) && s[|s| - 1] == j
  }

  /** Nothing links here. */
  ghost predicate Root(p: Page, j: nat) {
    Offset(p, j) && forall i :: !Linked(p, i, j)
  }

  /** Some chain from a root ends here. */
  ghost predicate Rooted(p: Page, j: nat) {
    exists s :: ChainTo(p, s, j) && Root(p, s[0])
  }

  /** Some chain leads from here back to here. */
  ghost predicate OnCycle(p: Page, j: nat) {
    exists s :: ChainTo(p, s, j) && |s| > 1 && s[0] == j
  }

  lemma ChainSuffix(p: Page, s: seq<nat>, k: nat)
    requires Chain(p, s) && k < |s|
    ensures Chain(p, s[k..])
  {
    var u := s[k..];
    forall i | 0 <= i < |u| - 1
      ensures ChainStep(p, u, i)
    {
      assert ChainStep(p, s, k + i);
    }
  }

  lemma ChainCons(p: Page, i: nat, s: seq<nat>)
    requires Chain(p, s) && Linked(p, i, s[0])
    ensures Chain(p, [i] + s)
  {
    var u := [i] + s;
    forall k | 0 <= k < |u| - 1
      ensures ChainStep(p, u, k)
    {
      assert k > 0 ==> ChainStep(p, s, k - 1);
    }
  }

  /** What precedes an offset on a cycle is on the cycle. */
  lemma CycleBack(p: Page, i: nat, j: nat)
    requires Sound(p) && OnCycle(p, j) && Linked(p, i, j)
    ensures OnCycle(p, i)
  {
    var s :| ChainTo(p, s, j) && |s| > 1 && s[0] == j;
    assert ChainStep(p, s, |s| - 2);
    ChainPrefix(p, s);
    ChainCons(p, i, s[..|s| - 1]);
    assert ChainTo(p, [i] + s[..|s| - 1], i);
  }

  lemma CycleHasNoRoot(p: Page, j: nat)
    requires OnCycle(p, j)
    ensures !Root(p, j)
  {
    var s :| ChainTo(p, s, j) && |s| > 1 && s[0] == j;
    assert ChainStep(p, s, |s| - 2);
  }

  lemma {:induction false} ChainIntoCycle(p: Page, s: seq<nat>, k: nat)
    requires Sound(p) && Chain(p, s) && OnCycle(p, s[|s| - 1]) && k < |s|
    ensures OnCycle(p, s[|s| - 1 - k])
  {
    if k == 0 {
    } else {
      ChainIntoCycle(p, s, k - 1);
      assert ChainStep(p, s, |s| - 1 - k);
      CycleBack(p, s[|s| - 1 - k], s[|s| - k]);
    }
  }

  /** Without a root, predecessors can be followed back any number of steps. */
  lemma {:induction false} BackFrom(p: Page, j: nat, n: nat) returns (s: seq<nat>)
    requires Offset(p, j) && !Rooted(p, j)
    ensures ChainTo(p, s, j) && |s| == n + 1 && forall k :: 0 <= k < |s| ==> Offset(p, s[k])
  {
    if n == 0 {
      s := [j];
    } else {
      var t := BackFrom(p, j, n - 1);
      assert !Root(p, t[0]);
      var i :| Linked(p, i, t[0]);
      ChainCons(p, i, t);
      s := [i] + t;
    }
  }

  /** Links lead one way forward, so equal offsets have equal futures. */
  lemma {:induction false} SameFuture(p: Page, s: seq<nat>, a: nat, b: nat, n: nat)
    requires Chain(p, s) && a <= b && b + n < |s| && s[a] == s[b]
    ensures s[a + n] == s[b + n]
  {
    if n == 0 {
    } else {
      SameFuture(p, s, a, b, n - 1);
      assert ChainStep(p, s, a + n - 1) && ChainStep(p, s, b + n - 1);
    }
  }

  /**
   * A page without reports can hold cycles of update links. An offset is on one
   * if and only if no chain from a root ends there.
   */
  lemma CycleIff(p: Page, j: nat)
    requires Sound(p) && Offset(p, j)
    ensures OnCycle(p, j) <==> !Rooted(p, j)
  {
    if OnCycle(p, j) {
      forall s | ChainTo(p, s, j)
        ensures !Root(p, s[0])
      {
        ChainIntoCycle(p, s, |s| - 1);
        CycleHasNoRoot(p, s[0]);
      }
    } else if !Rooted(p, j) {
      var s := BackFrom(p, j, MaxOff(p) + 1);
      var a, b := Repeat(s, MaxOff(p) + 1);
      var n := |s| - 1 - b;
      SameFuture(p, s, a, b, n);
      ChainSuffix(p, s, a + n);
      assert ChainTo(p, s[a + n..], j);
    }
  }

  /** A chain from a root never comes back to an offset. */
  lemma {:induction false} RootChainDistinct(p: Page, s: seq<nat>, a: nat, b: nat)
    requires Sound(p) && Chain(p, s) && Root(p, s[0]) && a < b < |s|
    ensures s[a] != s[b]
  {
    assert ChainStep(p, s, b - 1);
    if a == 0 {
    } else {
      assert ChainStep(p, s, a - 1);
      RootChainDistinct(p, s, a - 1, b - 1);
    }
  }

  /** So a root is found within as many steps back as the page has line pointers. */
  lemma RootWithinPage(p: Page, s: seq<nat>)
    requires Sound(p) && Chain(p, s) && Root(p, s[0])
    ensures |s| <= MaxOff(p)
  {
    forall k | 0 <= k < |s|
      ensures Offset(p, s[k])
    {
      assert k > 0 ==> ChainStep(p, s, k - 1);
    }
    if |s| > MaxOff(p) {
      var lowered := seq(|s|, k requires 0 <= k < |s| => s[k] - 1);
      var a, b := Repeat(lowered, MaxOff(p));
      RootChainDistinct(p, s, a, b);
    }
  }

  /** No cycle goes through a redirect: nothing links to one. */
  lemma RedirectIsRoot(p: Page, j: nat)
    requires Offset(p, j) && At(p, j).Redirect?
    ensures Root(p, j) && Rooted(p, j) && (Sound(p) ==> !OnCycle(p, j))
  {
    assert ChainTo(p, [j], j);
    if Sound(p) {
      CycleIff(p, j);
    }
  }

  /** Two tuples that name each other as next version: nothing is reported. */
  lemma CycleIsNotReported()
    ensures var check := TupleCheck(true, true, Committed, false);
            var p := Page(7, [Normal(8000, 96, Header(10, 11, false, false, 7, 2, check)),
                              Normal(8096, 96, Header(11, 10, false, false, 7, 1, check))]);
            Sound(p) && OnCycle(p, 1) && OnCycle(p, 2)
  {
    var check := TupleCheck(true, true, Committed, false);
    var p := Page(7, [Normal(8000, 96, Header(10, 11, false, false, 7, 2, check)),
                      Normal(8096, 96, Header(11, 10, false, false, 7, 1, check))]);
    assert Linked(p, 1, 2) && Linked(p, 2, 1);
    assert ChainTo(p, [1, 2, 1], 1) && ChainTo(p, [2, 1, 2], 2);
  }
}
