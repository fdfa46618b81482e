/**
 * The access method's entry points run one at a time, as the program writes
 * them. Each is an uninterrupted run of the protocol, so whatever holds of all
 * runs holds of them.
 */
module BloomIndex {
  import opened BloomSignature
  import opened BloomPage
  import opened BloomProtocol
  import opened BloomRuns
  import opened BloomCount

  ghost predicate Quiet(s: State) {
    && s.metaOwner.None? && s.vacuum.Idle? && s.scan.NoScan?
    && forall i :: 0 <= i < |s.inserts| ==> s.inserts[i].pc.Done? || s.inserts[i].pc.Cancelled?
  }

  ghost predicate Leads(tr: seq<State>, acts: seq<Action>, s: State, s': State) {
    IsRun(tr, acts) && tr[0] == s && tr[|acts|] == s'
  }

  /** Some run leads from one state to the other. */
  ghost predicate Reaches(s: State, s': State) {
    exists tr, acts :: Leads(tr, acts, s, s')
  }

  lemma ReachesSelf(s: State)
    ensures Reaches(s, s)
  {
    assert Leads([s], [], s, s);
  }

  lemma ReachesStep(s: State, s': State, a: Action)
    requires Good(s) && Reaches(s, s') && Structured(s') && Enabled(s', a)
    ensures Reaches(s, Step(s', a)) && Good(s') && Good(Step(s', a))
  {
    var tr, acts :| Leads(tr, acts, s, s');
    RunExtends(tr, acts, a);
    GoodStep(s', a);
    var tr', acts' := tr + [Step(s', a)], acts + [a];
    assert Leads(tr', acts', s, Step(s', a));
  }

  lemma ReachesTo(s0: State, s: State, a: Action, s': State)
    requires Good(s0) && Reaches(s0, s) && Next(s, a, s')
    ensures Good(s') && Reaches(s0, s')
  {
    ReachesStep(s0, s, a);
  }

  /** Matches of a scan over all pages. */
  ghost function AllMatching(pages: seq<Page>, sign: Sign): set<ItemPointer> {
    MatchingBelow(pages, |pages|, sign)
  }

  ghost function Having(bits: set<int>): Entry -> bool {
    (e: Entry) => bits <= SignBits(e.sign)
  }

  ghost function Any(): Entry -> bool {
    (e: Entry) => true
  }

  ghost function ClaimedBy(dead: set<ItemPointer>): Entry -> bool {
    (e: Entry) => e.heapPtr in dead
  }

  /** Block 0 holds no tuples. */
  lemma NoneBelowHead(pages: seq<Page>, p: Entry -> bool)
    requires |pages| >= 1 && Live(pages[0]) == []
    ensures TotalIf(pages, HEAD_BLKNO, p) == 0
  {
    assert TotalIf(pages, 0, p) == 0;
  }

  lemma {:induction false} AnyCount(tuples: seq<Entry>, n: nat)
    requires n <= |tuples|
    ensures CountIf(tuples, n, Any()) == n
  {
    if n == 0 {
    } else {
      AnyCount(tuples, n - 1);
    }
  }

  ghost function MatchingBelow(pages: seq<Page>, n: nat, sign: Sign): set<ItemPointer>
    requires n <= |pages|
  {
    if n == 0 then {} else MatchingBelow(pages, n - 1, sign) + Matching(Live(pages[n - 1]), sign)
  }

  // ------------------------------------------- loops as runs of the protocol

  /** Completing one more insert adds its tuple once and nothing else. */
  lemma OneMore(s: State, s': State, e: Entry)
    requires Good(s) && Good(s') && s'.removed == s.removed
    requires s'.inserts == s.inserts + [BloomProtocol.Insert(e, Done)]
    ensures forall x :: Occurrences(s'.pages, x) == Occurrences(s.pages, x) + if x == e then 1 else 0
  {
    forall x
      ensures Occurrences(s'.pages, x) == Occurrences(s.pages, x) + if x == e then 1 else 0
    {
      CompletionsPush(s.inserts, BloomProtocol.Insert(e, Done), x);
    }
  }

  /** Retrying list positions first..n without success only moves the insert on. */
  lemma {:induction false} RetriesReach(s0: State, s: State, i: nat, first: nat, n: nat)
    requires Good(s0) && Good(s) && Reaches(s0, s) && At(s, i) && s.inserts[i].pc == Retry(first)
    requires first <= n <= s.meta.nEnd
    requires forall k :: first <= k < n ==> TryAdd(s.pages[s.meta.notFullPage[k]], s.size, s.inserts[i].entry).None?
    ensures Good(Goto(s, i, Retry(n))) && Reaches(s0, Goto(s, i, Retry(n)))
  {
    if n == first {
      assert Goto(s, i, Retry(n)) == s;
    } else {
      RetriesReach(s0, s, i, first, n - 1);
      var s1 := Goto(s, i, Retry(n - 1));
      ReachesStep(s0, s1, RetryPage(i));
      assert RetryStep(s1, i) == Goto(s, i, Retry(n));
    }
  }

  /** What vacuum makes of every page; block 0 is the metapage. */
  ghost predicate Vacuumed(pages: seq<Page>, after: seq<Page>, size: nat, dead: set<ItemPointer>)
    requires size > 0
    requires forall b :: 0 <= b < |pages| ==> ValidPage(pages[b], size)
  {
    && |after| == |pages| && |pages| >= 1 && after[0] == pages[0]
    && forall b :: HEAD_BLKNO <= b < |pages| ==> after[b] == VacuumPage(pages[b], size, dead)
  }

  lemma {:induction false} VacuumAll(pages: seq<Page>, size: nat, dead: set<ItemPointer>) returns (after: seq<Page>)
    requires size > 0 && |pages| >= 1
    requires forall b :: 0 <= b < |pages| ==> ValidPage(pages[b], size)
    ensures Vacuumed(pages, after, size, dead)
  {
    if |pages| == 1 {
      after := pages;
    } else {
      var n := |pages| - 1;
      var rest := VacuumAll(pages[..n], size, dead);
      after := rest + [VacuumPage(pages[n], size, dead)];
      forall b | HEAD_BLKNO <= b < |pages|
        ensures after[b] == VacuumPage(pages[b], size, dead)
      {
        assert b < n ==> pages[..n][b] == pages[b] && rest[b] == VacuumPage(pages[..n][b], size, dead);
      }
    }
  }

  /** The first n pages taken from `after`, the rest from `pages`. */
  ghost function Spliced(pages: seq<Page>, after: seq<Page>, n: nat): (r: seq<Page>)
    requires n <= |pages| == |after|
    ensures |r| == |pages| && forall b :: 0 <= b < |r| ==> r[b] == if b < n then after[b] else pages[b]
  {
    seq(|pages|, b requires 0 <= b < |pages| => if b < n then after[b] else pages[b])
  }

  lemma SplicedStep(pages: seq<Page>, after: seq<Page>, n: nat)
    requires n < |pages| == |after|
    ensures Spliced(pages, after, n)[n] == pages[n]
    ensures Spliced(pages, after, n + 1) == Spliced(pages, after, n)[n := after[n]]
  {
  }

  /** What one page adds to the totals. */
  lemma RemovedHere(before: seq<Page>, after: seq<Page>, b: nat, dead: set<ItemPointer>, n: nat)
    requires b < |before| == |after| && Live(after[b]) == Survivors(Live(before[b]), dead)
    requires |Live(after[b])| + n == |Live(before[b])|
    ensures TotalIf(before, b + 1, ClaimedBy(dead)) == TotalIf(before, b, ClaimedBy(dead)) + n
    ensures TotalIf(before, b + 1, Any()) == TotalIf(before, b, Any()) + |Live(before[b])|
    ensures TotalIf(after, b + 1, Any()) == TotalIf(after, b, Any()) + |Live(after[b])|
  {
    hide Live;
    AnyCount(Live(before[b]), |Live(before[b])|);
    AnyCount(Live(after[b]), |Live(after[b])|);
    ClaimedCount(Live(before[b]), |Live(before[b])|, dead, ClaimedBy(dead));
  }

  lemma VacuumedPages(pages: seq<Page>, after: seq<Page>, size: nat, dead: set<ItemPointer>)
    requires size > 0
    requires forall b :: 0 <= b < |pages| ==> ValidPage(pages[b], size)
    requires Vacuumed(pages, after, size, dead) && pages[0].New?
    ensures forall b :: 0 <= b < |pages| ==>
              && (NoneClaimed(Live(pages[b]), |Live(pages[b])|, dead) ==> after[b] == pages[b])
              && (Recyclable(after[b]) <==>
                    || Recyclable(pages[b])
                    || (|Live(pages[b])| > 0 && AllClaimed(Live(pages[b]), |Live(pages[b])|, dead)))
  {
    hide NoneClaimed, AllClaimed, VacuumPage, ValidPage;
    forall b | HEAD_BLKNO <= b < |pages|
      ensures NoneClaimed(Live(pages[b]), |Live(pages[b])|, dead) ==> after[b] == pages[b]
      ensures Recyclable(after[b]) <==>
                || Recyclable(pages[b])
                || (|Live(pages[b])| > 0 && AllClaimed(Live(pages[b]), |Live(pages[b])|, dead))
    {
      VacuumPageIs(pages[b], size, dead);
    }
  }

  lemma VacuumedIsSwept(pages: seq<Page>, after: seq<Page>, size: nat, dead: set<ItemPointer>)
    requires size > 0
    requires forall b :: 0 <= b < |pages| ==> ValidPage(pages[b], size)
    requires Vacuumed(pages, after, size, dead) && pages[0].New?
    ensures Swept(pages, after, dead, |pages|)
  {
    forall b | 0 <= b < |pages|
      ensures Live(after[b]) == Survivors(Live(pages[b]), dead)
    {
      if b > 0 {
        assert after[b] == VacuumPage(pages[b], size, dead);
      }
    }
  }

  /** The first blocks have lost exactly their claimed tuples; the rest are untouched. */
  ghost predicate Swept(before: seq<Page>, now: seq<Page>, dead: set<ItemPointer>, limit: nat) {
    && |now| == |before|
    && (forall b :: 0 <= b < limit && b < |now| ==> Live(now[b]) == Survivors(Live(before[b]), dead))
    && (forall b :: limit <= b < |now| ==> now[b] == before[b])
  }

  lemma {:induction false} SweptTo(before: seq<Page>, now: seq<Page>, dead: set<ItemPointer>, n: nat, e: Entry)
    requires |now| == |before| && n <= |before|
    requires forall b :: 0 <= b < n ==> PageCount(now[b], e) == if e.heapPtr in dead then 0 else PageCount(before[b], e)
    ensures OccurrencesTo(now, n, e) == if e.heapPtr in dead then 0 else OccurrencesTo(before, n, e)
  {
    if n == 0 {
    } else {
      SweptTo(before, now, dead, n - 1, e);
    }
  }

  /** Vacuum removes all claimed tuples and no others. */
  lemma SweptOccurrences(before: seq<Page>, now: seq<Page>, dead: set<ItemPointer>, e: Entry)
    requires Swept(before, now, dead, |before|)
    ensures Occurrences(now, e) == if e.heapPtr in dead then 0 else Occurrences(before, e)
  {
    forall b | 0 <= b < |before|
      ensures PageCount(now[b], e) == if e.heapPtr in dead then 0 else PageCount(before[b], e)
    {
      assert Live(now[b]) == Survivors(Live(before[b]), dead);
      SurvivorsCount(Live(before[b]), dead, e);
    }
    SweptTo(before, now, dead, |before|, e);
  }

  ghost function VictimsBelow(pages: seq<Page>, dead: set<ItemPointer>, n: nat): set<Entry>
    requires n <= |pages|
  {
    if n <= HEAD_BLKNO then {} else VictimsBelow(pages, dead, n - 1) + Victims(Live(pages[n - 1]), dead)
  }

  /** The state after deleting through block n - 1. */
  ghost function Deleted(s: State, after: seq<Page>, n: nat): State
    requires s.size > 0 && s.vacuum.Deleting? && n <= |s.pages| == |after|
  {
    var v := s.vacuum;
    s.(pages := Spliced(s.pages, after, n),
       vacuum := Deleting(v.dead, v.npages, n, RoomyList(after, s.size, n)),
       removed := s.removed + VictimsBelow(s.pages, v.dead, n))
  }

  /** Whether vacuum lists a page it has just processed. */
  lemma ListedIsRoomy(page: Page, size: nat, dead: set<ItemPointer>, notFull: seq<nat>, b: nat)
    requires size > 0 && ValidPage(page, size) && !Recyclable(page)
    ensures Listed(VacuumPage(page, size, dead), size, notFull, b)
         == if Roomy(VacuumPage(page, size, dead), size) && |notFull| < META_BLOCKS then notFull + [b] else notFull
  {
    RoomIff(VacuumPage(page, size, dead).maxoff, size);
  }

  lemma DeletedSkip(s: State, after: seq<Page>, n: nat)
    requires s.size > 0 && s.vacuum.Deleting? && HEAD_BLKNO <= n < |s.pages| == |after|
    requires after[n] == s.pages[n] && Recyclable(s.pages[n])
    ensures Deleted(s, after, n + 1)
         == Deleted(s, after, n).(
              vacuum := Deleting(s.vacuum.dead, s.vacuum.npages, n + 1, RoomyList(after, s.size, n)))
  {
    SplicedStep(s.pages, after, n);
    assert Victims(Live(s.pages[n]), s.vacuum.dead) == {};
  }

  lemma DeletedNext(s: State, after: seq<Page>, n: nat)
    requires s.size > 0 && s.vacuum.Deleting? && HEAD_BLKNO <= n < |s.pages| == |after|
    ensures Deleted(s, after, n + 1)
         == Deleted(s, after, n).(
              pages := Spliced(s.pages, after, n)[n := after[n]],
              vacuum := Deleting(s.vacuum.dead, s.vacuum.npages, n + 1, RoomyList(after, s.size, n + 1)),
              removed := Deleted(s, after, n).removed + Victims(Live(s.pages[n]), s.vacuum.dead))
  {
    SplicedStep(s.pages, after, n);
  }

  lemma DeletedStep(s: State, after: seq<Page>, n: nat)
    requires Structured(s) && s.vacuum.Deleting? && HEAD_BLKNO <= n < s.vacuum.npages <= |s.pages|
    requires Vacuumed(s.pages, after, s.size, s.vacuum.dead)
    requires Structured(Deleted(s, after, n))
    ensures Next(Deleted(s, after, n), VacuumStep, Deleted(s, after, n + 1))
  {
    hide Survivors, SurvivorsTo, Live, Victims, TupleBytes, Capacity;
    var page := s.pages[n];
    SplicedStep(s.pages, after, n);
    assert after[n] == VacuumPage(page, s.size, s.vacuum.dead);
    if Recyclable(page) {
      DeletedSkip(s, after, n);
    } else {
      DeletedNext(s, after, n);
      ListedIsRoomy(page, s.size, s.vacuum.dead, RoomyList(after, s.size, n), n);
    }
  }

  /** A deletion about to read its first page, and what it will leave. */
  ghost predicate Deletion(s: State, after: seq<Page>) {
    && Structured(s) && s.vacuum.Deleting? && s.vacuum.blkno == HEAD_BLKNO && |s.vacuum.notFull| == 0
    && s.vacuum.npages <= |s.pages| && Vacuumed(s.pages, after, s.size, s.vacuum.dead)
  }

  lemma DeletedReach(s0: State, s: State, after: seq<Page>, n: nat)
    requires Good(s0) && Deletion(s, after) && HEAD_BLKNO <= n < s.vacuum.npages
    requires Good(Deleted(s, after, n)) && Reaches(s0, Deleted(s, after, n))
    ensures Good(Deleted(s, after, n + 1)) && Reaches(s0, Deleted(s, after, n + 1))
  {
    hide Survivors, SurvivorsTo, Live, Victims, TupleBytes, Capacity, Reaches, Conserved;
    var s1 := Deleted(s, after, n);
    DeletedStep(s, after, n);
    ReachesTo(s0, s1, VacuumStep, Deleted(s, after, n + 1));
  }

  lemma {:induction false} DeletesReach(s0: State, s: State, after: seq<Page>, n: nat)
    requires Good(s0) && Good(s) && Reaches(s0, s)
    requires Deletion(s, after) && HEAD_BLKNO <= n <= s.vacuum.npages
    ensures Good(Deleted(s, after, n)) && Reaches(s0, Deleted(s, after, n))
  {
    hide Survivors, SurvivorsTo, Live, TupleBytes, Capacity, Reaches, Conserved;
    if n == HEAD_BLKNO {
      assert Deleted(s, after, n) == s;
    } else {
      DeletesReach(s0, s, after, n - 1);
      DeletedReach(s0, s, after, n - 1);
    }
  }

  /** The state after cleanup through block n - 1. */
  ghost function Cleaned(s: State, n: nat): State
    requires s.vacuum.Cleaning? && n <= |s.pages|
  {
    s.(vacuum := Cleaning(s.vacuum.npages, n), freeMap := s.freeMap + FreeBlocks(s.pages, n))
  }

  lemma CleanedReach(s0: State, s: State, n: nat)
    requires Good(s0) && s.vacuum.Cleaning? && HEAD_BLKNO <= n < s.vacuum.npages <= |s.pages|
    requires Good(Cleaned(s, n)) && Reaches(s0, Cleaned(s, n))
    ensures Good(Cleaned(s, n + 1)) && Reaches(s0, Cleaned(s, n + 1))
  {
    ReachesTo(s0, Cleaned(s, n), CleanStep, Cleaned(s, n + 1));
  }

  lemma {:induction false} CleansReach(s0: State, s: State, n: nat)
    requires Good(s0) && Good(s) && Reaches(s0, s)
    requires s.vacuum.Cleaning? && s.vacuum.blkno == HEAD_BLKNO && HEAD_BLKNO <= n <= s.vacuum.npages
    ensures Good(Cleaned(s, n)) && Reaches(s0, Cleaned(s, n))
  {
    if n == HEAD_BLKNO {
      assert Cleaned(s, n) == s;
    } else {
      CleansReach(s0, s, n - 1);
      CleanedReach(s0, s, n - 1);
    }
  }

  // -------------------------------------------------------------------- build

  /** Built rows count as completed inserts. */
  ghost function DoneInserts(rows: seq<Entry>): (r: seq<BloomProtocol.Insert>)
    ensures |r| == |rows| && forall k :: 0 <= k < |rows| ==> r[k] == BloomProtocol.Insert(rows[k], Done)
  {
    seq(|rows|, k requires 0 <= k < |rows| => BloomProtocol.Insert(rows[k], Done))
  }

  lemma {:induction false} DoneCompletions(rows: seq<Entry>, e: Entry)
    ensures Completions(DoneInserts(rows), e) == Count(rows, e)
  {
    if rows == [] {
    } else {
      var n := |rows| - 1;
      DoneCompletions(rows[..n], e);
      assert DoneInserts(rows) == DoneInserts(rows[..n]) + [BloomProtocol.Insert(rows[n], Done)];
      CompletionsPush(DoneInserts(rows[..n]), BloomProtocol.Insert(rows[n], Done), e);
      assert rows == rows[..n] + [rows[n]];
      CountPush(rows[..n], rows[n], e);
    }
  }

  /** The state a build leaves: rows inserted, an empty list, nothing free. */
  ghost function BuiltState(size: nat, pages: seq<Page>, rows: seq<Entry>): State {
    State(size, Meta(0, 0, seq(META_BLOCKS, _ => 0)), None, pages, {}, DoneInserts(rows), Idle, NoScan, {})
  }

  lemma BuiltIsGood(size: nat, pages: seq<Page>, rows: seq<Entry>)
    requires ValidSize(size) && size > 0 && |pages| >= 1 && pages[0].New?
    requires forall b :: 0 <= b < |pages| ==> ValidPage(pages[b], size)
    requires forall k :: 0 <= k < |rows| ==> rows[k].serial == k && TupleSize(|rows[k].sign|) == size
    requires forall e :: Occurrences(pages, e) == Count(rows, e)
    ensures Good(BuiltState(size, pages, rows)) && Quiet(BuiltState(size, pages, rows))
  {
    var s := BuiltState(size, pages, rows);
    forall i | 0 <= i < |s.inserts|
      ensures InsertOk(s, i)
    {
      assert s.inserts[i] == BloomProtocol.Insert(rows[i], Done);
    }
    forall e
      ensures Occurrences(pages, e) == Completions(s.inserts, e)
    {
      DoneCompletions(rows, e);
    }
  }

  lemma Flushed(pages: seq<Page>, cached: Page)
    ensures forall e :: Occurrences(pages + [cached], e) == Occurrences(pages, e) + Count(Live(cached), e)
  {
    forall e
      ensures Occurrences(pages + [cached], e) == Occurrences(pages, e) + Count(Live(cached), e)
    {
      OccurrencesPush(pages, cached, e);
    }
  }

  /** Adding a row to the cached page, or to a fresh one after flushing it, adds that row. */
  lemma BuiltCount(pages: seq<Page>, cached: Page, pages': seq<Page>, cached': Page, row: Entry)
    requires (pages' == pages && Live(cached') == Live(cached) + [row])
          || (pages' == pages + [cached] && Live(cached') == [row])
    ensures forall e :: Occurrences(pages', e) + Count(Live(cached'), e)
                     == Occurrences(pages, e) + Count(Live(cached), e) + if e == row then 1 else 0
  {
    Flushed(pages, cached);
    forall e
      ensures Occurrences(pages', e) + Count(Live(cached'), e)
           == Occurrences(pages, e) + Count(Live(cached), e) + if e == row then 1 else 0
    {
      CountPush(Live(cached), row, e);
      CountPush([], row, e);
      assert [] + [row] == [row];
    }
  }

  lemma NothingYet()
    ensures forall e :: Occurrences([New], e) == 0
  {
    assert Live(New) == [];
    forall e
      ensures Occurrences([New], e) == 0
    {
      OccurrencesPush([], New, e);
      assert [] + [New] == [New];
    }
  }

  /** The build scan: fill a cached page, flush it when full, and the last one if not empty. */
  method BuildPages(size: nat, rows: seq<Entry>) returns (pages: seq<Page>, indtuples: nat)
    requires ValidSize(size) && size > 0
    ensures |pages| >= 1 && pages[0].New? && indtuples == |rows|
    ensures forall b :: 0 <= b < |pages| ==> ValidPage(pages[b], size)
    ensures forall e :: Occurrences(pages, e) == Count(rows, e)
    ensures forall b :: 1 <= b < |pages| - 1 ==> |Live(pages[b])| == Capacity(size)
    ensures |pages| > 1 ==> |Live(pages[|pages| - 1])| > 0
  {
    hide Occurrences, Capacity, TupleBytes;
    pages := [New];
    var cached, count := InitPage(size), 0;
    indtuples := 0;
    FreshPageHasRoom(size);
    NothingYet();
    for i := 0 to |rows|
      invariant |pages| >= 1 && pages[0].New? && indtuples == i
      invariant forall b :: 0 <= b < |pages| ==> ValidPage(pages[b], size)
      invariant ValidPage(cached, size) && !Recyclable(cached) && count == |Live(cached)|
      invariant forall e :: Occurrences(pages, e) + Count(Live(cached), e) == CountTo(rows, i, e)
      invariant forall b :: 1 <= b < |pages| ==> |Live(pages[b])| == Capacity(size)
    {
      ghost var was, cachedWas := pages, cached;
      var added := AddItem(cached, size, rows[i]);
      if added.Some? {
        cached, count := added.value, count + 1;
      } else {
        pages := pages + [cached];
        added := AddItem(InitPage(size), size, rows[i]);
        cached, count := added.value, 1;
      }
      indtuples := indtuples + 1;
      BuiltCount(was, cachedWas, pages, cached, rows[i]);
    }
    Flushed(pages, cached);
    if count > 0 {
      pages := pages + [cached];
    }
  }

  /** The state after the scan has read the blocks below n. */
  ghost function Read(s: State, n: nat): State
    requires s.scan.Scanning? && n <= |s.pages|
  {
    s.(scan := Scanning(s.scan.sign, s.scan.npages, n, MatchingBelow(s.pages, n, s.scan.sign)))
  }

  /** Block 0 holds no tuples. */
  lemma NoMatchBelowHead(pages: seq<Page>, sign: Sign)
    requires |pages| >= 1 && pages[0].New?
    ensures MatchingBelow(pages, HEAD_BLKNO, sign) == {}
    ensures TotalIf(pages, HEAD_BLKNO, Having(SignBits(sign))) == 0
  {
    assert Live(pages[0]) == [];
    assert MatchingBelow(pages, 0, sign) == {} && TotalIf(pages, 0, Having(SignBits(sign))) == 0;
  }

  ghost predicate Scans(tr: seq<State>, acts: seq<Action>, s0: State, sign: Sign, s: State) {
    ScanTrace(tr, acts, sign) && tr[0] == s0 && tr[|acts|] == s
  }

  /** Some run that begins a scan in the one state stands in the other, the scan still in progress. */
  ghost predicate ScansTo(s0: State, sign: Sign, s: State) {
    exists tr, acts :: Scans(tr, acts, s0, sign, s)
  }

  lemma ScansBegin(s0: State, sign: Sign)
    requires Good(s0) && Enabled(s0, ScanBegin(sign))
    ensures ScansTo(s0, sign, Step(s0, ScanBegin(sign)))
  {
    var s := Step(s0, ScanBegin(sign));
    assert Linked([s0, s], [ScanBegin(sign)], 0);
    assert Scans([s0, s], [ScanBegin(sign)], s0, sign, s);
  }

  lemma GoodIsStructured(s: State)
    requires Good(s)
    ensures Structured(s)
  {
  }

  lemma ScansStep(s0: State, sign: Sign, s: State)
    requires ScansTo(s0, sign, s) && Enabled(s, ScanStep)
    ensures Good(s) && ScansTo(s0, sign, Step(s, ScanStep))
  {
    hide Good, Step;
    var tr, acts :| Scans(tr, acts, s0, sign, s);
    RunExtends(tr, acts, ScanStep);
    var tr', acts' := tr + [Step(s, ScanStep)], acts + [ScanStep];
    StillScanning(s);
    assert Scans(tr', acts', s0, sign, Step(s, ScanStep));
  }

  lemma StillScanning(s: State)
    requires Good(s) && Enabled(s, ScanStep)
    ensures Step(s, ScanStep).scan.Scanning?
  {
  }

  lemma ScansIsReaches(s0: State, sign: Sign, s: State)
    requires ScansTo(s0, sign, s)
    ensures Good(s) && Reaches(s0, s)
  {
    hide Good;
    var tr, acts :| Scans(tr, acts, s0, sign, s);
    RunIsGood(tr, acts, |acts|);
    assert Leads(tr, acts, s0, s);
  }

  lemma {:induction false} ReadsScan(s0: State, sign: Sign, s: State, n: nat)
    requires ScansTo(s0, sign, s) && s.scan.Scanning? && s.scan.blkno == HEAD_BLKNO && s.scan.found == {}
    requires HEAD_BLKNO <= n <= s.scan.npages <= |s.pages| && s.pages[0].New?
    ensures ScansTo(s0, sign, Read(s, n))
  {
    hide ScansTo, Good;
    if n == HEAD_BLKNO {
      NoMatchBelowHead(s.pages, s.scan.sign);
      assert Read(s, n) == s;
    } else {
      ReadsScan(s0, sign, s, n - 1);
      ScansStep(s0, sign, Read(s, n - 1));
      GoodIsStructured(Read(s, n - 1));
      assert Step(Read(s, n - 1), ScanStep) == Read(s, n);
    }
  }

  lemma {:induction false} MatchingBelowIff(pages: seq<Page>, n: nat, sign: Sign, p: ItemPointer)
    requires n <= |pages|
    ensures p in MatchingBelow(pages, n, sign) <==> exists b :: 0 <= b < n && p in Matching(Live(pages[b]), sign)
  {
    if n == 0 {
    } else {
      MatchingBelowIff(pages, n - 1, sign, p);
    }
  }

  lemma AllMatchingIff(pages: seq<Page>, sign: Sign, p: ItemPointer)
    ensures p in AllMatching(pages, sign)
       <==> exists e :: InIndex(pages, e) && e.heapPtr == p && SignIncludes(e.sign, sign)
  {
    MatchingBelowIff(pages, |pages|, sign, p);
    if p in AllMatching(pages, sign) {
      var b :| 0 <= b < |pages| && p in Matching(Live(pages[b]), sign);
      var e :| e in Live(pages[b]) && e.heapPtr == p && SignIncludes(e.sign, sign);
      OnPage(pages, e, b);
    }
    forall e | InIndex(pages, e) && e.heapPtr == p && SignIncludes(e.sign, sign)
      ensures p in AllMatching(pages, sign)
    {
      var b := PageOf(pages, e);
    }
  }

  /** Every readable tuple's signature has the index's width. */
  ghost predicate Uniform(pages: seq<Page>, words: nat) {
    forall b, k :: 0 <= b < |pages| && 0 <= k < |Live(pages[b])| ==> |Live(pages[b])[k].sign| == words
  }

  lemma GoodIsUniform(s: State, words: nat)
    requires Good(s) && s.size == TupleSize(words)
    ensures Uniform(s.pages, words)
  {
    forall b, k | 0 <= b < |s.pages| && 0 <= k < |Live(s.pages[b])|
      ensures |Live(s.pages[b])[k].sign| == words
    {
      LiveIsCompleted(s, b, Live(s.pages[b])[k]);
    }
  }

  lemma LiveIsCompleted(s: State, b: nat, e: Entry)
    requires Good(s) && b < |s.pages| && e in Live(s.pages[b])
    ensures e.serial < |s.inserts| && s.inserts[e.serial] == BloomProtocol.Insert(e, Done)
    ensures TupleSize(|e.sign|) == s.size
  {
    OnPage(s.pages, e, b);
    forall i | 0 <= i < |s.inserts|
      ensures s.inserts[i].entry.serial == i
    {
      assert InsertOk(s, i);
    }
    CompletedOnce(s.inserts, e);
    assert InsertOk(s, e.serial);
  }

  /** A scan for these bits that begins in the one state, ends in the other and has returned the pointers. */
  ghost predicate ScanGives(s0: State, s': State, bits: set<int>, tids: set<ItemPointer>) {
    exists sign, s ::
      && SignBits(sign) == bits && ScansTo(s0, sign, s)
      && s.scan.Scanning? && s.scan.found == tids && Next(s, ScanEnd, s')
  }

  // -------------------------------------------------------------- where inserts go

  /** A page in use that takes no more tuples. */
  ghost predicate Full(p: Page, size: nat)
    requires size > 0
  {
    !Recyclable(p) && |Live(p)| == Capacity(size)
  }

  /** The block alone has changed: it is in use and has the tuple after those it had. */
  ghost predicate Put(pages: seq<Page>, pages': seq<Page>, b: nat, e: Entry) {
    && b < |pages| == |pages'| && (forall x :: 0 <= x < |pages| && x != b ==> pages'[x] == pages[x])
    && !Recyclable(pages'[b]) && Live(pages'[b]) == Live(pages[b]) + [e]
  }

  ghost predicate FullAt(meta: Meta, pages: seq<Page>, size: nat, k: nat)
    requires size > 0
  {
    k < |meta.notFullPage| && meta.notFullPage[k] < |pages| && Full(pages[meta.notFullPage[k]], size)
  }

  /** Every page on the list is full. */
  ghost predicate ListFull(meta: Meta, pages: seq<Page>, size: nat)
    requires size > 0
  {
    forall k :: meta.nStart <= k < meta.nEnd ==> FullAt(meta, pages, size, k)
  }

  /** The list's page at k is its first with room. */
  ghost predicate FirstRoomy(meta: Meta, pages: seq<Page>, size: nat, k: nat)
    requires size > 0
  {
    && meta.nStart <= k < meta.nEnd <= |meta.notFullPage| && !FullAt(meta, pages, size, k)
    && forall j :: meta.nStart <= j < k ==> FullAt(meta, pages, size, j)
  }

  ghost predicate Reusable(pages: seq<Page>, b: nat) {
    b < |pages| && Recyclable(pages[b])
  }

  /** Block b holds the tuple alone and is the whole list: a free block, or a new one when no free block is reusable. */
  ghost predicate Allotted(meta: Meta, pages: seq<Page>, freeMap: set<nat>,
                           meta': Meta, pages': seq<Page>, freeMap': set<nat>, e: Entry, b: nat) {
    && meta'.nStart == 0 && meta'.nEnd == 1 && |meta'.notFullPage| >= 1 && meta'.notFullPage[0] == b
    && b !in freeMap' && freeMap' <= freeMap
    && (forall x :: x in freeMap && x !in freeMap' && x != b ==> !Reusable(pages, x))
    && if b < |pages| then b in freeMap && Reusable(pages, b) && Put(pages, pages', b, e)
       else Put(pages + [New], pages', b, e) && forall x :: x in freeMap ==> !Reusable(pages, x)
  }

  /** What the first try leaves behind: the hinted page, which is full, or nothing when the list is empty. */
  ghost predicate Tried(meta: Meta, pages: seq<Page>, size: nat, tried: Option<nat>)
    requires size > 0
  {
    if meta.nStart < meta.nEnd
    then && FullAt(meta, pages, size, meta.nStart) && tried == Some(meta.notFullPage[meta.nStart])
    else tried == None
  }

  lemma ListBlocks(s: State)
    requires Good(s)
    ensures ValidSize(s.size) && s.size > 0 && s.meta.nStart <= s.meta.nEnd <= |s.meta.notFullPage|
    ensures forall k :: 0 <= k < s.meta.nEnd ==>
              s.meta.notFullPage[k] < |s.pages| && ValidPage(s.pages[s.meta.notFullPage[k]], s.size)
  {
  }

  lemma TryAddIff(p: Page, size: nat, e: Entry)
    requires ValidSize(size) && size > 0 && ValidPage(p, size)
    ensures TryAdd(p, size, e).None? <==> Full(p, size)
  {
  }

  /** At most one place on the list is its first with room, and there is one unless all pages listed are full. */
  lemma RoomyOnce(meta: Meta, pages: seq<Page>, size: nat)
    requires size > 0
    ensures forall j: nat, k: nat :: FirstRoomy(meta, pages, size, j) && FirstRoomy(meta, pages, size, k) ==> j == k
    ensures forall k: nat :: FirstRoomy(meta, pages, size, k) ==> !ListFull(meta, pages, size)
  {
  }

  class Index {
    const size: nat
    var meta: Meta
    var pages: seq<Page>
    var freeMap: set<nat>
    var inserts: nat
    ghost var state: State

    /** The real fields are those of the protocol state. */
    ghost predicate Tied()
      reads this
    {
      && state.size == size && state.meta == meta && state.pages == pages
      && state.freeMap == freeMap && |state.inserts| == inserts
    }

    ghost predicate Valid()
      reads this
    {
      Tied() && Good(state) && Quiet(state)
    }

    /** Build the index over the rows of the heap, numbered in scan order. */
    constructor Build(words: nat, rows: seq<Entry>)
      requires 1 <= words <= MAX_BLOOM_WORDS
      requires forall k :: 0 <= k < |rows| ==> rows[k].serial == k && |rows[k].sign| == words
      ensures Valid() && size == TupleSize(words) && inserts == |rows|
      ensures state.inserts == DoneInserts(rows) && state.removed == {}
      ensures forall e :: Occurrences(pages, e) == Count(rows, e)
      ensures forall b :: 1 <= b < |pages| - 1 ==> size > 0 && |Live(pages[b])| == Capacity(size)
      ensures meta.nStart == 0 == meta.nEnd && freeMap == {}
    {
      size := TupleSize(words);
      meta := Meta(0, 0, seq(META_BLOCKS, _ => 0));
      freeMap := {};
      var built, indtuples := BuildPages(TupleSize(words), rows);
      pages, inserts := built, indtuples;
      state := BuiltState(TupleSize(words), built, rows);
      BuiltIsGood(TupleSize(words), built, rows);
    }

    ghost method Advance(s0: State, a: Action)
      requires Good(s0) && Reaches(s0, state) && Structured(state) && Enabled(state, a)
      modifies this`state
      ensures state == Step(old(state), a)
      ensures Good(state) && Reaches(s0, state)
    {
      ReachesStep(s0, state, a);
      state := Step(state, a);
    }

    /**
     * From s0 on, only the last insert has been under way and it stands at pc;
     * all earlier inserts and vacuum's record are as they were.
     */
    ghost predicate Alone(s0: State, e: Entry, pc: Pc)
      reads this
    {
      && Tied() && Good(s0) && Good(state) && Reaches(s0, state)
      && state.inserts == s0.inserts + [BloomProtocol.Insert(e, pc)]
      && state.removed == s0.removed && state.vacuum.Idle? && state.scan.NoScan?
      && state.metaOwner == if pc.Retry? || pc.Allocate? then Some(|s0.inserts|) else None
    }

    /**
     * Insert one tuple: the hinted page first, then the rest of the list under
     * the metapage lock, then a recycled or new page.
     */
    method Insert(heapPtr: ItemPointer, sign: Sign)
      requires Valid() && TupleSize(|sign|) == size
      modifies this
      ensures Valid() && Reaches(old(state), state)
      ensures inserts == old(inserts) + 1
      ensures state.inserts == old(state.inserts) + [BloomProtocol.Insert(Entry(heapPtr, sign, old(inserts)), Done)]
      ensures state.removed == old(state.removed)
      ensures forall e :: Occurrences(pages, e)
                       == Occurrences(old(pages), e) + if e == Entry(heapPtr, sign, old(inserts)) then 1 else 0
      ensures forall k: nat :: FirstRoomy(old(meta), old(pages), size, k) ==>
                && Put(old(pages), pages, old(meta).notFullPage[k], Entry(heapPtr, sign, old(inserts)))
                && meta == old(meta).(nStart := k) && freeMap == old(freeMap)
      ensures ListFull(old(meta), old(pages), size) ==>
                exists b :: Allotted(old(meta), old(pages), old(freeMap), meta, pages, freeMap,
                                     Entry(heapPtr, sign, old(inserts)), b)
      ensures |pages| > |old(pages)| ==>
                ListFull(old(meta), old(pages), size) && forall x :: x in old(freeMap) ==> !Reusable(old(pages), x)
    {
      ghost var s0 := state;
      var e := Entry(heapPtr, sign, inserts);
      hide Reaches, Conserved, FirstRoomy, Live, Allotted;
      ReachesSelf(s0);
      Advance(s0, Begin(heapPtr, sign));
      inserts := inserts + 1;
      var done, tried := FirstTry(s0, inserts - 1, e);
      if !done {
        done := RetryPages(s0, inserts - 1, e, tried);
        if !done {
          NewPage(s0, inserts - 1, e);
        }
      }
      OneMore(s0, state, e);
      RoomyOnce(old(meta), old(pages), size);
    }

    /** Read the hint under a share lock, then try that page alone. */
    method FirstTry(ghost s0: State, i: nat, e: Entry) returns (done: bool, tried: Option<nat>)
      requires Alone(s0, e, ReadMeta) && i == |s0.inserts|
      modifies this
      ensures Alone(s0, e, if done then Done else LockMeta(tried)) && inserts == old(inserts)
      ensures size > 0 && meta == old(meta) && freeMap == old(freeMap)
      ensures done ==> FirstRoomy(meta, old(pages), size, meta.nStart)
      ensures done ==> Put(old(pages), pages, meta.notFullPage[meta.nStart], e)
      ensures !done ==> pages == old(pages) && Tried(meta, pages, size, tried)
    {
      hide Reaches, Conserved, WorkersOk;
      Advance(s0, ReadHint(i));
      done, tried := false, None;
      if meta.nEnd > meta.nStart {
        var blkno := meta.notFullPage[meta.nStart];
        tried := Some(blkno);
        TryAddIff(pages[blkno], size, e);
        var r := TryAdd(pages[blkno], size, e);
        Advance(s0, TryHintPage(i));
        if r.Some? {
          pages := pages[blkno := r.value];
          done := true;
        }
      }
    }

    /** Take the metapage and go through the rest of the list. */
    method RetryPages(ghost s0: State, i: nat, e: Entry, tried: Option<nat>) returns (done: bool)
      requires Alone(s0, e, LockMeta(tried)) && i == |s0.inserts|
      requires size > 0 && Tried(meta, pages, size, tried)
      modifies this
      ensures Alone(s0, e, if done then Done else Allocate) && inserts == old(inserts) && freeMap == old(freeMap)
      ensures done ==> FirstRoomy(old(meta), old(pages), size, meta.nStart) && meta == old(meta).(nStart := meta.nStart)
      ensures done ==> Put(old(pages), pages, meta.notFullPage[meta.nStart], e)
      ensures !done ==> pages == old(pages) && meta == old(meta) && ListFull(meta, pages, size)
    {
      hide Reaches, Conserved, InsertsOk, WorkersOk, TryAdd, Live, Full;
      Advance(s0, TakeMeta(i));
      ListBlocks(state);
      var nStart := meta.nStart;
      if nStart < meta.nEnd && tried == Some(meta.notFullPage[nStart]) {
        nStart := nStart + 1;
      }
      ghost var first, s1 := nStart, state;
      while nStart < meta.nEnd
        invariant state == s1 && meta == old(meta) && pages == old(pages) && freeMap == old(freeMap)
        invariant inserts == old(inserts) && first <= nStart
        invariant nStart <= meta.nEnd || nStart == first
        invariant forall k :: first <= k < nStart ==> TryAdd(pages[meta.notFullPage[k]], size, e).None?
        invariant forall k :: meta.nStart <= k < nStart ==> FullAt(meta, pages, size, k)
        decreases meta.nEnd - nStart
      {
        var blkno := meta.notFullPage[nStart];
        TryAddIff(pages[blkno], size, e);
        var r := TryAdd(pages[blkno], size, e);
        if r.Some? {
          RetriesReach(s0, s1, i, first, nStart);
          RetrySucceeds(s0, i, e, nStart, blkno, r.value);
          return true;
        }
        nStart := nStart + 1;
      }
      RetriesReach(s0, s1, i, first, nStart);
      RetryExhausted(s0, i, e, nStart);
      return false;
    }

    method RetrySucceeds(ghost s0: State, i: nat, e: Entry, nStart: nat, blkno: nat, page: Page)
      requires Tied() && Good(s0) && i == |s0.inserts| < |state.inserts| && state.inserts[i].pc.Retry?
      requires Good(Goto(state, i, Retry(nStart))) && Reaches(s0, Goto(state, i, Retry(nStart)))
      requires Alone(s0, e, state.inserts[i].pc)
      requires nStart < meta.nEnd && blkno == meta.notFullPage[nStart]
      requires TryAdd(pages[blkno], size, e) == Some(page)
      modifies this`state, this`pages, this`meta
      ensures Alone(s0, e, Done)
      ensures pages == old(pages)[blkno := page] && meta == old(meta).(nStart := nStart)
    {
      state := Goto(state, i, Retry(nStart));
      Advance(s0, RetryPage(i));
      pages := pages[blkno := page];
      meta := meta.(nStart := nStart);
    }

    ghost method RetryExhausted(s0: State, i: nat, e: Entry, nStart: nat)
      requires Tied() && Good(s0) && i == |s0.inserts| < |state.inserts| && state.inserts[i].pc.Retry?
      requires Good(Goto(state, i, Retry(nStart))) && Reaches(s0, Goto(state, i, Retry(nStart)))
      requires Alone(s0, e, state.inserts[i].pc) && nStart >= meta.nEnd
      modifies this`state
      ensures Alone(s0, e, Allocate)
    {
      state := Goto(state, i, Retry(nStart));
      Advance(s0, RetryEnd(i));
    }

    /** Recycle a page from the free space map, or else extend the file. */
    method NewPage(ghost s0: State, i: nat, e: Entry)
      requires Alone(s0, e, Allocate) && i == |s0.inserts|
      modifies this
      ensures Alone(s0, e, Done) && inserts == old(inserts)
      ensures exists b :: Allotted(old(meta), old(pages), old(freeMap), meta, pages, freeMap, e, b)
      ensures |pages| > |old(pages)| ==> forall x :: x in old(freeMap) ==> !Reusable(old(pages), x)
    {
      hide Reaches, Conserved, InsertsOk, TryAdd, Live;
      while freeMap != {}
        invariant Alone(s0, e, Allocate) && inserts == old(inserts)
        invariant pages == old(pages) && meta == old(meta) && freeMap <= old(freeMap)
        invariant forall x :: x in old(freeMap) && x !in freeMap ==> !Reusable(pages, x)
        decreases freeMap
      {
        var blkno :| blkno in freeMap;
        if Recyclable(pages[blkno]) {
          Advance(s0, Recycle(i, blkno));
          freeMap := freeMap - {blkno};
          UseBlock(e, blkno);
          assert Allotted(old(meta), old(pages), old(freeMap), meta, pages, freeMap, e, blkno);
          return;
        }
        Advance(s0, SkipFree(i, blkno));
        freeMap := freeMap - {blkno};
      }
      Advance(s0, Extend(i));
      pages := pages + [New];
      UseBlock(e, |pages| - 1);
      assert Allotted(old(meta), old(pages), old(freeMap), meta, pages, freeMap, e, |old(pages)|);
    }

    /** Initialise the block, put the tuple on it and make it the whole list. */
    method UseBlock(e: Entry, blkno: nat)
      requires size > 0 && blkno < |pages| && ValidPage(pages[blkno], size) && Recyclable(pages[blkno])
      requires ValidSize(size) && |meta.notFullPage| >= 1
      modifies this`pages, this`meta
      ensures TryAdd(old(pages)[blkno], size, e).Some?
      ensures pages == old(pages)[blkno := TryAdd(old(pages)[blkno], size, e).value]
      ensures Put(old(pages), pages, blkno, e)
      ensures meta == Meta(0, 1, old(meta).notFullPage[0 := blkno])
    {
      var r := TryAdd(pages[blkno], size, e);
      pages := pages[blkno := r.value];
      meta := Meta(0, 1, meta.notFullPage[0 := blkno]);
    }

    // ------------------------------------------------------------------- scan

    /** All heap pointers whose tuple includes the keys' bits; none if a key is null. */
    method GetBitmap(gen: Generator, opts: Options, keys: seq<ScanKey>) returns (ntids: nat, tids: set<ItemPointer>)
      requires Valid() && opts.Valid() && LiveKeys(opts, keys) && size == TupleSize(opts.bloomLength)
      modifies gen, this`state
      ensures Valid() && Reaches(old(state), state)
      ensures state.inserts == old(state.inserts) && state.removed == old(state.removed)
      ensures ntids == if NoNullKey(keys) then |Places(pages, |pages|, Having(KeyBits(opts, keys)))| else 0
      ensures NoNullKey(keys) ==> ScanGives(old(state), state, KeyBits(opts, keys), tids)
      ensures forall p :: p in tids <==>
                && NoNullKey(keys)
                && exists e :: InIndex(pages, e) && e.heapPtr == p && KeyBits(opts, keys) <= SignBits(e.sign)
    {
      ghost var s0 := state;
      var sign := ScanSignature(gen, opts, keys);
      if sign.None? {
        ReachesSelf(s0);
        return 0, {};
      }
      GoodIsUniform(s0, opts.bloomLength);
      ntids, tids := ScanPages(sign.value);
      forall p
        ensures p in tids
           <==> exists e :: InIndex(pages, e) && e.heapPtr == p && KeyBits(opts, keys) <= SignBits(e.sign)
      {
        AllMatchingIff(pages, sign.value, p);
      }
      TotalIsSize(pages, |pages|, Having(SignBits(sign.value)));
      TieScan(s0, sign.value);
    }

    /** The loops over pages and tuples. */
    method ScanPages(sign: Sign) returns (ntids: nat, tids: set<ItemPointer>)
      requires |pages| >= 1 && pages[0].New? && Uniform(pages, |sign|)
      ensures tids == AllMatching(pages, sign) && ntids == TotalIf(pages, |pages|, Having(SignBits(sign)))
    {
      hide SignBits, Matching, CountIf, Live;
      ntids, tids := 0, {};
      NoMatchBelowHead(pages, sign);
      for blkno := HEAD_BLKNO to |pages|
        invariant tids == MatchingBelow(pages, blkno, sign) && ntids == TotalIf(pages, blkno, Having(SignBits(sign)))
      {
        var n, found := ScanPage(pages[blkno], sign);
        tids := tids + found;
        ntids := ntids + n;
      }
    }

    method ScanPage(page: Page, sign: Sign) returns (n: nat, found: set<ItemPointer>)
      requires forall k :: 0 <= k < |Live(page)| ==> |Live(page)[k].sign| == |sign|
      ensures found == Matching(Live(page), sign) && n == CountIf(Live(page), |Live(page)|, Having(SignBits(sign)))
    {
      var live := Live(page);
      n, found := 0, {};
      for offset := 0 to |live|
        invariant found == Matching(live[..offset], sign) && n == CountIf(live, offset, Having(SignBits(sign)))
      {
        assert live[..offset + 1] == live[..offset] + [live[offset]];
        var itup := live[offset];
        var res := TestSignature(itup.sign, sign);
        if res {
          found := found + {itup.heapPtr};
          n := n + 1;
        }
      }
      assert live[..|live|] == live;
    }

    ghost method TieScan(s0: State, sign: Sign)
      requires Valid() && state == s0 && TupleSize(|sign|) == size
      modifies this`state
      ensures Valid() && Reaches(s0, state) && state.inserts == s0.inserts && state.removed == s0.removed
      ensures ScanGives(s0, state, SignBits(sign), AllMatching(pages, sign))
    {
      hide ScansTo, Reaches, Conserved;
      ScansBegin(s0, sign);
      state := Step(s0, ScanBegin(sign));
      ReadsScan(s0, sign, state, |pages|);
      state := Read(state, |pages|);
      ScansIsReaches(s0, sign, state);
      ghost var last := state;
      Advance(s0, ScanEnd);
      assert Next(last, ScanEnd, state);
    }

    // ----------------------------------------------------------------- vacuum

    /** Remove every tuple the callback claims, page by page, then rebuild the list. */
    method BulkDelete(dead: set<ItemPointer>) returns (tuplesRemoved: nat)
      requires Valid()
      modifies this
      ensures Valid() && Reaches(old(state), state)
      ensures state.inserts == old(state.inserts) && inserts == old(inserts)
      ensures Swept(old(pages), pages, dead, |pages|)
      ensures forall e :: Occurrences(pages, e) == if e.heapPtr in dead then 0 else Occurrences(old(pages), e)
      ensures TotalIf(pages, |pages|, Any()) + tuplesRemoved == TotalIf(old(pages), |old(pages)|, Any())
      ensures tuplesRemoved == |Places(old(pages), |old(pages)|, ClaimedBy(dead))|
      ensures |pages| == |old(pages)| && forall b :: 0 <= b < |pages| ==>
                && (NoneClaimed(Live(old(pages)[b]), |Live(old(pages)[b])|, dead) ==> pages[b] == old(pages)[b])
                && (Recyclable(pages[b]) <==>
                      || Recyclable(old(pages)[b])
                      || (|Live(old(pages)[b])| > 0 && AllClaimed(Live(old(pages)[b]), |Live(old(pages)[b])|, dead)))
      ensures freeMap == old(freeMap)
      ensures meta.nStart == 0 && meta.nEnd <= |meta.notFullPage| && size > 0
      ensures ListOk(pages, size, |pages|, meta.notFullPage[..meta.nEnd])
      ensures ListFirst(pages, size, |pages|, meta.notFullPage[..meta.nEnd])
    {
      ghost var s0, before := state, pages;
      var notFull;
      notFull, tuplesRemoved := DeletePages(dead);
      VacuumedIsSwept(before, pages, size, dead);
      VacuumedPages(before, pages, size, dead);
      TotalIsSize(before, |before|, ClaimedBy(dead));
      forall e
        ensures Occurrences(pages, e) == if e.heapPtr in dead then 0 else Occurrences(before, e)
      {
        SweptOccurrences(before, pages, dead, e);
      }
      RoomyListOk(pages, size, |pages|);
      RoomyListFirst(pages, size, |pages|);
      TieDelete(s0, dead, notFull);
    }

    /** The loop over the pages. */
    method DeletePages(dead: set<ItemPointer>) returns (notFull: seq<nat>, removed: nat)
      requires size > 0 && |pages| >= 1 && Live(pages[0]) == []
      requires forall b :: 0 <= b < |pages| ==> ValidPage(pages[b], size)
      modifies this`pages
      ensures Vacuumed(old(pages), pages, size, dead)
      ensures notFull == RoomyList(pages, size, |pages|)
      ensures TotalIf(pages, |pages|, Any()) + removed == TotalIf(old(pages), |old(pages)|, Any())
      ensures removed == TotalIf(old(pages), |old(pages)|, ClaimedBy(dead))
    {
      hide TotalIf, CountIf, VacuumPage, Live, Roomy, ValidPage;
      ghost var before := pages;
      ghost var after := VacuumAll(before, size, dead);
      var npages := |pages|;
      notFull, removed := [], 0;
      NoneBelowHead(before, ClaimedBy(dead));
      NoneBelowHead(before, Any());
      NoneBelowHead(after, Any());
      assert pages == Spliced(before, after, HEAD_BLKNO);
      for blkno := HEAD_BLKNO to npages
        invariant pages == Spliced(before, after, blkno)
        invariant notFull == RoomyList(after, size, blkno)
        invariant TotalIf(after, blkno, Any()) + removed == TotalIf(before, blkno, Any())
        invariant removed == TotalIf(before, blkno, ClaimedBy(dead))
      {
        SplicedStep(before, after, blkno);
        assert after[blkno] == VacuumPage(before[blkno], size, dead);
        var page', n;
        page', notFull, n := DeletePage(pages[blkno], dead, blkno, notFull);
        pages := pages[blkno := page'];
        RemovedHere(before, after, blkno, dead, n);
        removed := removed + n;
      }
      assert pages == after;
    }

    /** One page: skipped if recyclable, else compacted and perhaps listed. */
    method DeletePage(page: Page, dead: set<ItemPointer>, blkno: nat, notFull: seq<nat>)
      returns (page': Page, notFull': seq<nat>, removed: nat)
      requires size > 0 && ValidPage(page, size)
      ensures page' == VacuumPage(page, size, dead)
      ensures |Live(page')| + removed == |Live(page)|
      ensures notFull' == if Roomy(page', size) && |notFull| < META_BLOCKS then notFull + [blkno] else notFull
    {
      page', notFull', removed := page, notFull, 0;
      if !Recyclable(page) {
        page', removed := CompactPage(page, dead);
        ListedIsRoomy(page, size, dead, notFull, blkno);
        if page'.maxoff != 0 && FreeSpace(page', size) >= size && |notFull| < META_BLOCKS {
          notFull' := notFull + [blkno];
        }
      }
    }

    /** One page: compact a copy of its tuple area, and keep it if anything went. */
    method CompactPage(page: Page, dead: set<ItemPointer>) returns (page': Page, removed: nat)
      requires size > 0 && ValidPage(page, size) && !Recyclable(page)
      ensures page' == VacuumPage(page, size, dead)
      ensures |Live(page')| + removed == |Live(page)|
    {
      var area := new Entry[|page.slots|](i requires 0 <= i < |page.slots| => page.slots[i]);
      assert area[..] == page.slots;
      assert area[..page.maxoff] == Live(page);
      var maxoff;
      maxoff, removed := Compact(area, page.maxoff, dead);
      if removed != 0 {
        page' := Data(maxoff == 0, maxoff, PAGE_HEADER + TupleBytes(maxoff, size), area[..]);
        assert area[..] == Overwrite(page.slots, area[..maxoff]);
      } else {
        page' := page;
      }
    }

    /** Write the list to the metapage; the whole deletion is a run. */
    method TieDelete(ghost s0: State, ghost dead: set<ItemPointer>, notFull: seq<nat>)
      requires Good(s0) && Quiet(s0) && state == s0
      requires s0.size == size && s0.meta == meta && s0.freeMap == freeMap && |s0.inserts| == inserts
      requires Structured(s0) && Vacuumed(s0.pages, pages, size, dead)
      requires notFull == RoomyList(pages, size, |pages|) && |notFull| <= META_BLOCKS
      modifies this`state, this`meta
      ensures Valid() && Reaches(s0, state) && state.inserts == s0.inserts
      ensures state.removed == s0.removed + VictimsBelow(s0.pages, dead, |s0.pages|)
      ensures meta.nStart == 0 && meta.nEnd == |notFull| <= |meta.notFullPage|
      ensures meta.notFullPage[..meta.nEnd] == notFull
    {
      hide Reaches, Conserved, InsertsOk, RoomyList, VictimsBelow, ValidPage;
      ReachesSelf(s0);
      Advance(s0, VacuumBegin(dead));
      DeletesReach(s0, state, pages, |s0.pages|);
      state := Deleted(state, pages, |s0.pages|);
      assert state.pages == pages;
      Advance(s0, VacuumMeta);
      meta := Meta(0, |notFull|, Overwrite(meta.notFullPage, notFull));
    }

    /** Record recyclable pages as free; count them and the live tuples. */
    method Cleanup() returns (pagesFree: nat, tuples: nat)
      requires Valid()
      modifies this
      ensures Valid() && Reaches(old(state), state)
      ensures pages == old(pages) && meta == old(meta) && inserts == old(inserts)
      ensures state.inserts == old(state.inserts) && state.removed == old(state.removed)
      ensures forall b :: b in freeMap <==> b in old(freeMap) || (1 <= b < |pages| && Recyclable(pages[b]))
      ensures pagesFree == |FreeBlocks(pages, |pages|)| && tuples == |Places(pages, |pages|, Any())|
      ensures forall b :: b in FreeBlocks(pages, |pages|) <==> 1 <= b < |pages| && Recyclable(pages[b])
    {
      ghost var s0 := state;
      pagesFree, tuples := CleanPages();
      FreeTotalIsSize(pages, |pages|);
      TotalIsSize(pages, |pages|, Any());
      TieCleanup(s0);
    }

    ghost method TieCleanup(s0: State)
      requires Good(s0) && Quiet(s0) && state == s0
      requires s0.size == size && s0.meta == meta && s0.pages == pages && |s0.inserts| == inserts
      requires freeMap == s0.freeMap + FreeBlocks(pages, |pages|)
      modifies this`state
      ensures Valid() && Reaches(s0, state) && state.inserts == s0.inserts && state.removed == s0.removed
    {
      ReachesSelf(s0);
      Advance(s0, CleanBegin);
      CleansReach(s0, state, |pages|);
      state := Cleaned(state, |pages|);
      Advance(s0, CleanEnd);
    }

    method CleanPages() returns (pagesFree: nat, tuples: nat)
      requires size > 0 && |pages| >= 1 && Live(pages[0]) == []
      requires forall b :: 0 <= b < |pages| ==> ValidPage(pages[b], size)
      modifies this`freeMap
      ensures freeMap == old(freeMap) + FreeBlocks(pages, |pages|)
      ensures pagesFree == FreeTotal(pages, |pages|) && tuples == TotalIf(pages, |pages|, Any())
    {
      pagesFree, tuples := 0, 0;
      for blkno := HEAD_BLKNO to |pages|
        invariant freeMap == old(freeMap) + FreeBlocks(pages, blkno)
        invariant pagesFree == FreeTotal(pages, blkno) && tuples == TotalIf(pages, blkno, Any())
      {
        AnyCount(Live(pages[blkno]), |Live(pages[blkno])|);
        if Recyclable(pages[blkno]) {
          freeMap := freeMap + {blkno};
          pagesFree := pagesFree + 1;
        } else {
          tuples := tuples + pages[blkno].maxoff;
        }
      }
    }
  }

  /** Data blocks below n that hold no tuples and may be reused. */
  ghost function FreeBlocks(pages: seq<Page>, n: nat): set<nat>
    requires n <= |pages|
  {
    if n <= HEAD_BLKNO then {}
    else if Recyclable(pages[n - 1]) then FreeBlocks(pages, n - 1) + {n - 1}
    else FreeBlocks(pages, n - 1)
  }

  ghost function FreeTotal(pages: seq<Page>, n: nat): nat
    requires n <= |pages|
  {
    if n <= HEAD_BLKNO then 0
    else FreeTotal(pages, n - 1) + if Recyclable(pages[n - 1]) then 1 else 0
  }

  lemma {:induction false} FreeTotalIsSize(pages: seq<Page>, n: nat)
    requires n <= |pages|
    ensures forall b :: b in FreeBlocks(pages, n) <==> HEAD_BLKNO <= b < n && Recyclable(pages[b])
    ensures FreeTotal(pages, n) == |FreeBlocks(pages, n)|
  {
    hide Recyclable;
    if n <= HEAD_BLKNO {
    } else {
      FreeTotalIsSize(pages, n - 1);
      if Recyclable(pages[n - 1]) {
        assert n - 1 !in FreeBlocks(pages, n - 1);
      }
    }
  }

  /** A page vacuum lists: it holds tuples and has room for another. */
  ghost predicate Roomy(p: Page, size: nat)
    requires size > 0
  {
    0 < |Live(p)| < Capacity(size)
  }

  lemma RoomyIff(p: Page, size: nat)
    requires size > 0
    ensures Roomy(p, size) <==> |Live(p)| != 0 && |Live(p)| < 8160 / size
  {
    CapacityIs(size);
  }

  /** The first roomy blocks in order, as many as the metapage can hold. */
  ghost function RoomyList(pages: seq<Page>, size: nat, n: nat): seq<nat>
    requires size > 0 && n <= |pages|
  {
    if n <= HEAD_BLKNO then []
    else
      var rest := RoomyList(pages, size, n - 1);
      if Roomy(pages[n - 1], size) && |rest| < META_BLOCKS then rest + [n - 1] else rest
  }

  /** Of the first n blocks, the listed ones have tuples and room; all such are listed unless the array is full. */
  ghost predicate ListOk(pages: seq<Page>, size: nat, n: nat, notFull: seq<nat>)
    requires size > 0 && n <= |pages|
  {
    && (forall b :: b in notFull ==> HEAD_BLKNO <= b < n && Roomy(pages[b], size))
    && (|notFull| < META_BLOCKS ==> forall b :: HEAD_BLKNO <= b < n && Roomy(pages[b], size) ==> b in notFull)
  }

  /** And they are the first such, in order. */
  ghost predicate ListFirst(pages: seq<Page>, size: nat, n: nat, notFull: seq<nat>)
    requires size > 0 && n <= |pages|
  {
    && (forall j, k :: 0 <= j < k < |notFull| ==> notFull[j] < notFull[k])
    && (forall b, k :: HEAD_BLKNO <= b < n && Roomy(pages[b], size) && b !in notFull && 0 <= k < |notFull| ==>
          notFull[k] < b)
  }

  lemma {:induction false} RoomyListOk(pages: seq<Page>, size: nat, n: nat)
    requires size > 0 && n <= |pages|
    ensures |RoomyList(pages, size, n)| <= META_BLOCKS
    ensures ListOk(pages, size, n, RoomyList(pages, size, n))
    ensures forall k :: 0 <= k < |RoomyList(pages, size, n)| ==> RoomyList(pages, size, n)[k] < n
  {
    hide Roomy;
    if n <= HEAD_BLKNO {
    } else {
      RoomyListOk(pages, size, n - 1);
    }
  }

  lemma {:induction false} RoomyListFirst(pages: seq<Page>, size: nat, n: nat)
    requires size > 0 && n <= |pages|
    ensures ListFirst(pages, size, n, RoomyList(pages, size, n))
  {
    hide Roomy;
    if n <= HEAD_BLKNO {
    } else {
      RoomyListFirst(pages, size, n - 1);
      RoomyListOk(pages, size, n - 1);
      var before, list := RoomyList(pages, size, n - 1), RoomyList(pages, size, n);
      forall b, k | HEAD_BLKNO <= b < n && Roomy(pages[b], size) && b !in list && 0 <= k < |list|
        ensures list[k] < b
      {
        assert list == before;
      }
    }
  }

  /** A row in the index that satisfies every key is among the heap pointers a scan returns. */
  lemma RowIsReturned(pages: seq<Page>, e: Entry, opts: Options, row: Row, keys: seq<ScanKey>, scan: Sign)
    requires opts.Valid() && LiveRow(opts, row) && LiveKeys(opts, keys)
    requires InIndex(pages, e) && SignBits(e.sign) == RowBits(opts, row) && SignBits(scan) == KeyBits(opts, keys)
    requires forall i :: 0 <= i < |keys| ==> RowMatchesKey(row, keys[i])
    ensures e.heapPtr in AllMatching(pages, scan)
  {
    MatchingRowIncluded(opts, row, keys, e.sign, scan);
    AllMatchingIff(pages, scan, e.heapPtr);
  }
}
