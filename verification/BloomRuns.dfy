/**
 * What every run of the bloom protocol keeps: entries are conserved, stay on
 * their page, leave only when vacuum claims them, and are found by a scan.
 */
module BloomRuns {
  import opened BloomSignature
  import opened BloomPage
  import opened BloomProtocol

  // ------------------------------------------------------------ conservation

  ghost function PageCount(p: Page, e: Entry): nat {
    Count(Live(p), e)
  }

  /** How often a tuple can be read on the first n blocks. */
  ghost function OccurrencesTo(pages: seq<Page>, n: nat, e: Entry): nat
    requires n <= |pages|
  {
    if n == 0 then 0 else OccurrencesTo(pages, n - 1, e) + PageCount(pages[n - 1], e)
  }

  /** How often a tuple can be read in the index. */
  ghost function Occurrences(pages: seq<Page>, e: Entry): nat {
    OccurrencesTo(pages, |pages|, e)
  }

  ghost predicate InIndex(pages: seq<Page>, e: Entry) {
    Occurrences(pages, e) > 0
  }

  /** How many of the first n inserts have written a tuple. */
  ghost function CompletionsTo(inserts: seq<Insert>, n: nat, e: Entry): nat
    requires n <= |inserts|
  {
    if n == 0 then 0 else CompletionsTo(inserts, n - 1, e) + if inserts[n - 1] == Insert(e, Done) then 1 else 0
  }

  ghost function Completions(inserts: seq<Insert>, e: Entry): nat {
    CompletionsTo(inserts, |inserts|, e)
  }

  /** Blocks past the ones counted do not matter. */
  lemma {:induction false} OccurrencesPrefix(pages: seq<Page>, more: seq<Page>, n: nat, e: Entry)
    requires n <= |pages| && pages <= more
    ensures OccurrencesTo(more, n, e) == OccurrencesTo(pages, n, e)
  {
    if n == 0 {
    } else {
      OccurrencesPrefix(pages, more, n - 1, e);
    }
  }

  lemma OccurrencesPush(pages: seq<Page>, page: Page, e: Entry)
    ensures Occurrences(pages + [page], e) == Occurrences(pages, e) + Count(Live(page), e)
  {
    OccurrencesPrefix(pages, pages + [page], |pages|, e);
  }

  lemma {:induction false} CompletionsPrefix(inserts: seq<Insert>, more: seq<Insert>, n: nat, e: Entry)
    requires n <= |inserts| && inserts <= more
    ensures CompletionsTo(more, n, e) == CompletionsTo(inserts, n, e)
  {
    if n == 0 {
    } else {
      CompletionsPrefix(inserts, more, n - 1, e);
    }
  }

  lemma CompletionsPush(inserts: seq<Insert>, i: Insert, e: Entry)
    ensures Completions(inserts + [i], e) == Completions(inserts, e) + if i == Insert(e, Done) then 1 else 0
  {
    CompletionsPrefix(inserts, inserts + [i], |inserts|, e);
  }

  lemma {:induction false} OccurrencesUpdateTo(pages: seq<Page>, b: nat, p: Page, n: nat, e: Entry)
    requires b < |pages| && n <= |pages|
    ensures OccurrencesTo(pages[b := p], n, e) + (if b < n then Count(Live(pages[b]), e) else 0)
         == OccurrencesTo(pages, n, e) + (if b < n then Count(Live(p), e) else 0)
  {
    if n == 0 {
    } else {
      OccurrencesUpdateTo(pages, b, p, n - 1, e);
    }
  }

  lemma OccurrencesUpdate(pages: seq<Page>, b: nat, p: Page, e: Entry)
    requires b < |pages|
    ensures Occurrences(pages[b := p], e) + Count(Live(pages[b]), e) == Occurrences(pages, e) + Count(Live(p), e)
  {
    OccurrencesUpdateTo(pages, b, p, |pages|, e);
  }

  lemma {:induction false} PageBelow(pages: seq<Page>, n: nat, e: Entry) returns (b: nat)
    requires n <= |pages| && OccurrencesTo(pages, n, e) > 0
    ensures b < n && e in Live(pages[b])
  {
    CountMember(Live(pages[n - 1]), e);
    if e in Live(pages[n - 1]) {
      b := n - 1;
    } else {
      b := PageBelow(pages, n - 1, e);
    }
  }

  lemma PageOf(pages: seq<Page>, e: Entry) returns (b: nat)
    requires InIndex(pages, e)
    ensures b < |pages| && e in Live(pages[b])
  {
    b := PageBelow(pages, |pages|, e);
  }

  lemma {:induction false} OnPageBelow(pages: seq<Page>, n: nat, e: Entry, b: nat)
    requires b < n <= |pages| && e in Live(pages[b])
    ensures OccurrencesTo(pages, n, e) > 0
  {
    if b < n - 1 {
      OnPageBelow(pages, n - 1, e, b);
    } else {
      CountMember(Live(pages[b]), e);
    }
  }

  lemma OnPage(pages: seq<Page>, e: Entry, b: nat)
    requires b < |pages| && e in Live(pages[b])
    ensures InIndex(pages, e)
  {
    OnPageBelow(pages, |pages|, e, b);
  }

  lemma {:induction false} CompletionsGotoTo(inserts: seq<Insert>, i: nat, pc: Pc, n: nat, e: Entry)
    requires i < |inserts| && n <= |inserts| && !inserts[i].pc.Done?
    ensures CompletionsTo(inserts[i := inserts[i].(pc := pc)], n, e)
         == CompletionsTo(inserts, n, e) + if i < n && pc.Done? && inserts[i].entry == e then 1 else 0
  {
    if n == 0 {
    } else {
      CompletionsGotoTo(inserts, i, pc, n - 1, e);
    }
  }

  lemma CompletionsGoto(inserts: seq<Insert>, i: nat, pc: Pc, e: Entry)
    requires i < |inserts| && !inserts[i].pc.Done?
    ensures Completions(inserts[i := inserts[i].(pc := pc)], e)
         == Completions(inserts, e) + if pc.Done? && inserts[i].entry == e then 1 else 0
  {
    CompletionsGotoTo(inserts, i, pc, |inserts|, e);
  }

  lemma {:induction false} CompletedOnceTo(inserts: seq<Insert>, n: nat, e: Entry)
    requires n <= |inserts| && forall i :: 0 <= i < |inserts| ==> inserts[i].entry.serial == i
    ensures CompletionsTo(inserts, n, e) == if e.serial < n && inserts[e.serial] == Insert(e, Done) then 1 else 0
  {
    if n == 0 {
    } else {
      CompletedOnceTo(inserts, n - 1, e);
    }
  }

  /** Serials are positions, so no tuple is written by two inserts. */
  lemma CompletedOnce(inserts: seq<Insert>, e: Entry)
    requires forall i :: 0 <= i < |inserts| ==> inserts[i].entry.serial == i
    ensures Completions(inserts, e) == if e.serial < |inserts| && inserts[e.serial] == Insert(e, Done) then 1 else 0
  {
    CompletedOnceTo(inserts, |inserts|, e);
  }

  /** Every completed insert is in the index once, except what vacuum removed. */
  ghost predicate Balanced(pages: seq<Page>, removed: set<Entry>, inserts: seq<Insert>) {
    forall e :: Occurrences(pages, e) + (if e in removed then 1 else 0) == Completions(inserts, e)
  }

  ghost predicate Conserved(s: State) {
    Balanced(s.pages, s.removed, s.inserts)
  }

  /** Completing insert i while appending exactly its tuple to one page. */
  lemma AddConserved(s: State, i: nat, blkno: nat, page: Page)
    requires Conserved(s) && At(s, i) && !s.inserts[i].pc.Done? && blkno < |s.pages|
    requires Live(page) == Live(s.pages[blkno]) + [s.inserts[i].entry]
    ensures Conserved(Goto(s, i, Done).(pages := s.pages[blkno := page]))
  {
    forall e
      ensures Occurrences(s.pages[blkno := page], e) + (if e in s.removed then 1 else 0)
           == Completions(Goto(s, i, Done).inserts, e)
    {
      OccurrencesUpdate(s.pages, blkno, page, e);
      CompletionsGoto(s.inserts, i, Done, e);
      CountPush(Live(s.pages[blkno]), s.inserts[i].entry, e);
    }
  }

  /** Moving insert i elsewhere than to Done changes no count. */
  lemma GotoConserved(s: State, i: nat, pc: Pc)
    requires Conserved(s) && At(s, i) && !s.inserts[i].pc.Done? && !pc.Done?
    ensures Conserved(Goto(s, i, pc))
  {
    forall e
      ensures Completions(Goto(s, i, pc).inserts, e) == Completions(s.inserts, e)
    {
      CompletionsGoto(s.inserts, i, pc, e);
    }
  }

  lemma ExtendConserved(s: State)
    requires Conserved(s)
    ensures Conserved(s.(pages := s.pages + [New]))
  {
    forall e
      ensures Occurrences(s.pages + [New], e) == Occurrences(s.pages, e)
    {
      OccurrencesPush(s.pages, New, e);
    }
  }

  lemma BeginConserved(s: State, i: Insert)
    requires Conserved(s) && !i.pc.Done?
    ensures Balanced(s.pages, s.removed, s.inserts + [i])
  {
    forall e
      ensures Completions(s.inserts + [i], e) == Completions(s.inserts, e)
    {
      CompletionsPush(s.inserts, i, e);
    }
  }

  lemma HintConserved(s: State, i: nat)
    requires Structured(s) && Conserved(s) && Enabled(s, TryHintPage(i))
    ensures Conserved(HintStep(s, i))
  {
    var blkno := s.inserts[i].pc.blkno;
    assert InsertOk(s, i);
    match TryAdd(s.pages[blkno], s.size, s.inserts[i].entry)
    case Some(page) => AddConserved(s, i, blkno, page);
    case None => GotoConserved(s, i, LockMeta(Some(blkno)));
  }

  lemma RetryConserved(s: State, i: nat)
    requires Structured(s) && Conserved(s) && Enabled(s, RetryPage(i))
    ensures Conserved(RetryStep(s, i))
  {
    var nStart := s.inserts[i].pc.nStart;
    var blkno := s.meta.notFullPage[nStart];
    match TryAdd(s.pages[blkno], s.size, s.inserts[i].entry)
    case Some(page) => AddConserved(s, i, blkno, page);
    case None => GotoConserved(s, i, Retry(nStart + 1));
  }

  lemma AllocateConserved(s: State, i: nat, pages: seq<Page>, blkno: nat)
    requires Structured(s.(pages := pages)) && Conserved(s.(pages := pages))
    requires At(s, i) && s.inserts[i].pc.Allocate? && blkno < |pages| && Recyclable(pages[blkno])
    ensures Conserved(Allocated(s, i, pages, blkno))
  {
    AddConserved(s.(pages := pages), i, blkno, TryAdd(pages[blkno], s.size, s.inserts[i].entry).value);
  }

  lemma AtMostOnce(s: State, e: Entry)
    requires InsertsOk(s)
    ensures Completions(s.inserts, e) <= 1
  {
    forall i | 0 <= i < |s.inserts|
      ensures s.inserts[i].entry.serial == i
    {
      assert InsertOk(s, i);
    }
    CompletedOnce(s.inserts, e);
  }

  /** A claimed tuple leaves its page and enters the record of removed ones. */
  lemma DeleteConserved(s: State)
    requires Structured(s) && Conserved(s) && Enabled(s, VacuumStep)
    ensures Conserved(DeleteStep(s))
  {
    var v := s.vacuum;
    var page := s.pages[v.blkno];
    if !Recyclable(page) {
      var page' := VacuumPage(page, s.size, v.dead);
      forall e
        ensures Occurrences(s.pages[v.blkno := page'], e)
              + (if e in s.removed + Victims(Live(page), v.dead) then 1 else 0)
             == Completions(s.inserts, e)
      {
        OccurrencesUpdate(s.pages, v.blkno, page', e);
        SurvivorsCount(Live(page), v.dead, e);
        CountMember(Live(page), e);
        AtMostOnce(s, e);
      }
    }
  }

  lemma OtherConserved(s: State, a: Action)
    requires Structured(s) && Conserved(s) && Enabled(s, a) && !WritesPage(a) && !a.VacuumStep?
    ensures Conserved(Step(s, a))
  {
    match a
    case Begin(_, _) => BeginConserved(s, Step(s, a).inserts[|s.inserts|]);
    case ReadHint(i) => GotoConserved(s, i, Step(s, a).inserts[i].pc);
    case TakeMeta(i) => GotoConserved(s, i, Step(s, a).inserts[i].pc);
    case RetryEnd(i) => GotoConserved(s, i, Allocate);
    case Cancel(i) => GotoConserved(s, i, Cancelled);
    case ExtendOnly => ExtendConserved(s);
    case _ =>
  }

  /** Structure and conservation together. */
  ghost predicate Good(s: State) {
    Structured(s) && Conserved(s)
  }

  lemma GoodStep(s: State, a: Action)
    requires Good(s) && Enabled(s, a)
    ensures Good(Step(s, a))
  {
    hide Structured, Conserved, HintStep, RetryStep, Allocated, DeleteStep, ReadStep, Goto, Overwrite;
    StructuredStep(s, a);
    match a
    case TryHintPage(i) => HintConserved(s, i);
    case RetryPage(i) => RetryConserved(s, i);
    case VacuumStep => DeleteConserved(s);
    case Recycle(i, blkno) =>
      InsertStructured(s, SkipFree(i, blkno));
      OtherConserved(s, SkipFree(i, blkno));
      AllocateConserved(s.(freeMap := s.freeMap - {blkno}), i, s.pages, blkno);
    case Extend(i) =>
      ExtendStructured(s);
      ExtendConserved(s);
      AllocateConserved(s, i, s.pages + [New], |s.pages|);
    case _ => OtherConserved(s, a);
  }

  // --------------------------------------------------------- entries stay put

  /** A page a step rewrites keeps its tuples, except those vacuum claims. */
  lemma EntryStays(s: State, a: Action, b: nat, e: Entry)
    requires Structured(s) && Enabled(s, a) && b < |s.pages| && e in Live(s.pages[b])
    ensures |s.pages| <= |Step(s, a).pages|
    ensures e in Live(Step(s, a).pages[b])
         || (a.VacuumStep? && b == s.vacuum.blkno && e in Victims(Live(s.pages[b]), s.vacuum.dead)
             && Step(s, a).removed == s.removed + Victims(Live(s.pages[b]), s.vacuum.dead))
  {
    hide SurvivorsTo, CountTo, TupleBytes, Capacity;
    match a
    case TryHintPage(i) => assert InsertOk(s, i);
    case VacuumStep =>
      var live := Live(s.pages[s.vacuum.blkno]);
      SurvivorsCount(live, s.vacuum.dead, e);
      CountMember(live, e);
      CountMember(Survivors(live, s.vacuum.dead), e);
    case _ =>
  }

  /** What vacuum removed never comes back. */
  lemma RemovedIsGone(s: State, e: Entry)
    requires Good(s) && e in s.removed
    ensures !InIndex(s.pages, e)
  {
    AtMostOnce(s, e);
  }

  /** An entry that is still in the index after a step is still on its page. */
  lemma EntryKeepsPage(s: State, a: Action, b: nat, e: Entry)
    requires Good(s) && Enabled(s, a) && b < |s.pages| && e in Live(s.pages[b])
    requires InIndex(Step(s, a).pages, e)
    ensures b < |Step(s, a).pages| && e in Live(Step(s, a).pages[b])
  {
    GoodStep(s, a);
    EntryStays(s, a, b, e);
    if e !in Live(Step(s, a).pages[b]) {
      RemovedIsGone(Step(s, a), e);
    }
  }

  // --------------------------------------------------------------------- runs

  ghost predicate Next(s: State, a: Action, s': State) {
    Structured(s) && Enabled(s, a) && s' == Step(s, a)
  }

  ghost predicate Linked(tr: seq<State>, acts: seq<Action>, i: nat)
    requires i < |acts| && |tr| == |acts| + 1
  {
    Next(tr[i], acts[i], tr[i + 1])
  }

  /** States linked by enabled steps. */
  ghost predicate IsRun(tr: seq<State>, acts: seq<Action>) {
    && |tr| == |acts| + 1
    && forall i :: 0 <= i < |acts| ==> Linked(tr, acts, i)
  }

  lemma {:induction false} RunIsGood(tr: seq<State>, acts: seq<Action>, i: nat)
    requires IsRun(tr, acts) && Good(tr[0]) && i < |tr|
    ensures Good(tr[i])
  {
    if i == 0 {
    } else {
      RunIsGood(tr, acts, i - 1);
      assert Linked(tr, acts, i - 1);
      GoodStep(tr[i - 1], acts[i - 1]);
    }
  }

  /** Any enabled step extends a run: the structure a step needs is always there. */
  lemma RunExtends(tr: seq<State>, acts: seq<Action>, a: Action)
    requires IsRun(tr, acts) && Good(tr[0]) && Enabled(tr[|acts|], a)
    ensures Good(tr[|acts|])
    ensures IsRun(tr + [Step(tr[|acts|], a)], acts + [a])
  {
    RunIsGood(tr, acts, |acts|);
    var tr', acts' := tr + [Step(tr[|acts|], a)], acts + [a];
    forall i | 0 <= i < |acts'|
      ensures Linked(tr', acts', i)
    {
      if i < |acts| {
        assert Linked(tr, acts, i);
      }
    }
  }

  // --------------------------------------------------------------------- scan

  /** The states of a run during which one scan is in progress. */
  ghost predicate ScanRun(tr: seq<State>, acts: seq<Action>) {
    && IsRun(tr, acts) && Good(tr[0])
    && (forall i :: 0 <= i < |tr| ==> tr[i].scan.Scanning?)
    && tr[0].scan.npages == |tr[0].pages| && tr[0].scan.blkno == HEAD_BLKNO && tr[0].scan.found == {}
  }

  lemma ScanFrame(s: State, a: Action, s': State)
    requires Next(s, a, s') && s.scan.Scanning? && s'.scan.Scanning?
    ensures s'.scan.npages == s.scan.npages && s'.scan.sign == s.scan.sign
    ensures if a.ScanStep? then s'.scan == ReadStep(s).scan else s'.scan == s.scan
  {
  }

  /** The entry is on its page and has been returned if that page was read. */
  ghost predicate Scanned(s: State, npages: nat, sign: Sign, e: Entry, b: nat) {
    && b < |s.pages| && e in Live(s.pages[b])
    && s.scan.Scanning? && s.scan.npages == npages && s.scan.sign == sign
    && (b < s.scan.blkno ==> e.heapPtr in s.scan.found)
  }

  lemma ScannedStep(s: State, a: Action, s': State, npages: nat, sign: Sign, e: Entry, b: nat)
    requires Good(s) && Next(s, a, s') && s'.scan.Scanning? && InIndex(s'.pages, e)
    requires Scanned(s, npages, sign, e, b) && SignIncludes(e.sign, sign)
    ensures Scanned(s', npages, sign, e, b)
  {
    EntryKeepsPage(s, a, b, e);
    ScanFrame(s, a, s');
  }

  /** A run of good states with a scan under way and the entry in the index. */
  ghost predicate Throughout(tr: seq<State>, acts: seq<Action>, e: Entry) {
    && IsRun(tr, acts)
    && forall k :: 0 <= k < |tr| ==> Good(tr[k]) && tr[k].scan.Scanning? && InIndex(tr[k].pages, e)
  }

  lemma ScannedAt(tr: seq<State>, acts: seq<Action>, npages: nat, sign: Sign, e: Entry, b: nat, i: nat)
    requires Throughout(tr, acts, e) && i < |acts|
    requires SignIncludes(e.sign, sign) && Scanned(tr[i], npages, sign, e, b)
    ensures Scanned(tr[i + 1], npages, sign, e, b)
  {
    assert Linked(tr, acts, i);
    ScannedStep(tr[i], acts[i], tr[i + 1], npages, sign, e, b);
  }

  lemma {:induction false} ScanProgress(
    tr: seq<State>, acts: seq<Action>, npages: nat, sign: Sign, e: Entry, b: nat, i: nat)
    requires Throughout(tr, acts, e) && i <= |acts|
    requires SignIncludes(e.sign, sign) && Scanned(tr[0], npages, sign, e, b)
    ensures Scanned(tr[i], npages, sign, e, b)
  {
    hide Conserved, ValidPage, Live, InIndex;
    if i == 0 {
    } else {
      ScanProgress(tr, acts, npages, sign, e, b, i - 1);
      ScannedAt(tr, acts, npages, sign, e, b, i - 1);
    }
  }

  lemma ScanReturns(tr: seq<State>, acts: seq<Action>, e: Entry)
    requires ScanRun(tr, acts)
    requires forall k :: 0 <= k < |tr| ==> InIndex(tr[k].pages, e)
    requires tr[|acts|].scan.blkno >= tr[|acts|].scan.npages
    requires SignIncludes(e.sign, tr[0].scan.sign)
    ensures e.heapPtr in tr[|acts|].scan.found
  {
    assert InIndex(tr[0].pages, e);
    var b := PageOf(tr[0].pages, e);
    assert tr[0].pages[0].New?;
    forall k | 0 <= k < |tr|
      ensures Good(tr[k])
    {
      RunIsGood(tr, acts, k);
    }
    ScanProgress(tr, acts, tr[0].scan.npages, tr[0].scan.sign, e, b, |acts|);
  }

  ghost predicate MatchedAt(s: State, p: ItemPointer, sign: Sign) {
    exists e :: InIndex(s.pages, e) && e.heapPtr == p && SignIncludes(e.sign, sign)
  }

  lemma NewlyFound(s: State, p: ItemPointer)
    requires Structured(s) && Enabled(s, ScanStep) && p !in s.scan.found && p in ReadStep(s).scan.found
    ensures MatchedAt(s, p, s.scan.sign)
  {
    var live := Live(s.pages[s.scan.blkno]);
    var e :| e in live && e.heapPtr == p && SignIncludes(e.sign, s.scan.sign);
    OnPage(s.pages, e, s.scan.blkno);
  }

  lemma {:induction false} ScanMet(tr: seq<State>, acts: seq<Action>, i: nat)
    requires ScanRun(tr, acts) && i < |tr|
    ensures tr[i].scan.sign == tr[0].scan.sign
    ensures forall p :: p in tr[i].scan.found ==> exists k :: 0 <= k <= i && MatchedAt(tr[k], p, tr[0].scan.sign)
  {
    hide Good, MatchedAt;
    if i == 0 {
    } else {
      var s, a := tr[i - 1], acts[i - 1];
      ScanMet(tr, acts, i - 1);
      RunIsGood(tr, acts, i - 1);
      assert Linked(tr, acts, i - 1);
      ScanFrame(s, a, tr[i]);
      forall p | p in tr[i].scan.found
        ensures exists k :: 0 <= k <= i && MatchedAt(tr[k], p, tr[0].scan.sign)
      {
        if p !in s.scan.found {
          NewlyFound(s, p);
          assert MatchedAt(tr[i - 1], p, tr[0].scan.sign);
        }
      }
    }
  }

  /** A run that begins a scan and stays in it. */
  ghost predicate ScanTrace(tr: seq<State>, acts: seq<Action>, sign: Sign) {
    && IsRun(tr, acts) && Good(tr[0]) && |acts| > 0 && acts[0] == ScanBegin(sign)
    && forall i :: 1 <= i < |tr| ==> tr[i].scan.Scanning?
  }

  lemma RunTail(tr: seq<State>, acts: seq<Action>)
    requires IsRun(tr, acts) && |acts| > 0
    ensures IsRun(tr[1..], acts[1..]) && Linked(tr, acts, 0)
  {
    forall i | 0 <= i < |acts[1..]|
      ensures Linked(tr[1..], acts[1..], i)
    {
      assert Linked(tr, acts, i + 1);
    }
  }

  /** A scan begins at the first data page, with all pages of the moment to read and nothing found. */
  lemma ScanTail(tr: seq<State>, acts: seq<Action>, sign: Sign)
    requires ScanTrace(tr, acts, sign)
    ensures ScanRun(tr[1..], acts[1..]) && tr[1].scan.sign == sign
  {
    hide Good;
    RunTail(tr, acts);
    RunIsGood(tr, acts, 1);
  }

  /**
   * However inserts and vacuum interleave with it, a scan that may end has returned
   * each entry that includes its signature and was in the index throughout.
   */
  lemma ScanComplete(tr: seq<State>, acts: seq<Action>, sign: Sign, e: Entry)
    requires ScanTrace(tr, acts, sign) && Enabled(tr[|acts|], ScanEnd)
    requires forall k :: 0 <= k < |tr| ==> InIndex(tr[k].pages, e)
    requires SignIncludes(e.sign, sign)
    ensures e.heapPtr in tr[|acts|].scan.found
  {
    hide Good, Step, InIndex, SignIncludes;
    ScanTail(tr, acts, sign);
    assert tr[1..][|acts[1..]|] == tr[|acts|] && tr[1..][0] == tr[1];
    ScanReturns(tr[1..], acts[1..], e);
  }

  /** And nothing but heap pointers of matching entries it met. */
  lemma ScanSound(tr: seq<State>, acts: seq<Action>, sign: Sign, i: nat, p: ItemPointer)
    requires ScanTrace(tr, acts, sign) && 1 <= i < |tr| && p in tr[i].scan.found
    ensures exists k :: 0 <= k <= i && MatchedAt(tr[k], p, sign)
  {
    hide Good, Step, MatchedAt;
    ScanTail(tr, acts, sign);
    assert tr[1..][i - 1] == tr[i] && tr[1..][0] == tr[1];
    ScanMet(tr[1..], acts[1..], i - 1);
    var k :| 0 <= k <= i - 1 && MatchedAt(tr[1..][k], p, sign);
    assert tr[1..][k] == tr[k + 1];
  }

  // ------------------------------------------------------------------- vacuum

  /** The states of a run during which one bulk deletion is in progress. */
  ghost predicate DeleteRun(tr: seq<State>, acts: seq<Action>) {
    && IsRun(tr, acts) && Good(tr[0])
    && (forall i :: 0 <= i < |tr| ==> tr[i].vacuum.Deleting?)
    && tr[0].vacuum.npages == |tr[0].pages| && tr[0].vacuum.blkno == HEAD_BLKNO
  }

  lemma DeleteFrame(s: State, a: Action, s': State)
    requires Next(s, a, s') && s.vacuum.Deleting? && s'.vacuum.Deleting?
    ensures s'.vacuum.dead == s.vacuum.dead && s'.vacuum.npages == s.vacuum.npages
    ensures s'.vacuum.blkno == if a.VacuumStep? then s.vacuum.blkno + 1 else s.vacuum.blkno
    ensures s.removed <= s'.removed
  {
  }

  /** A claimed entry is gone, or still waits on a page vacuum has not reached. */
  ghost predicate Claimed(s: State, e: Entry, b: nat) {
    && s.vacuum.Deleting? && e.heapPtr in s.vacuum.dead
    && (e in s.removed || (s.vacuum.blkno <= b < |s.pages| && e in Live(s.pages[b])))
  }

  lemma ClaimedStep(s: State, a: Action, s': State, e: Entry, b: nat)
    requires Good(s) && Next(s, a, s') && s'.vacuum.Deleting? && Claimed(s, e, b)
    ensures Claimed(s', e, b)
  {
    DeleteFrame(s, a, s');
    if e !in s.removed {
      EntryStays(s, a, b, e);
      if a.VacuumStep? && b == s.vacuum.blkno {
        SurvivorsCount(Live(s.pages[b]), s.vacuum.dead, e);
        CountMember(Survivors(Live(s.pages[b]), s.vacuum.dead), e);
      }
    }
  }

  lemma {:induction false} DeleteProgress(tr: seq<State>, acts: seq<Action>, e: Entry, b: nat, i: nat)
    requires DeleteRun(tr, acts) && i < |tr| && Claimed(tr[0], e, b)
    ensures Claimed(tr[i], e, b) && tr[i].vacuum.npages == tr[0].vacuum.npages
  {
    if i == 0 {
    } else {
      DeleteProgress(tr, acts, e, b, i - 1);
      RunIsGood(tr, acts, i - 1);
      assert Linked(tr, acts, i - 1);
      DeleteFrame(tr[i - 1], acts[i - 1], tr[i]);
      ClaimedStep(tr[i - 1], acts[i - 1], tr[i], e, b);
    }
  }

  lemma DeleteRemoves(tr: seq<State>, acts: seq<Action>, e: Entry)
    requires DeleteRun(tr, acts) && tr[|acts|].vacuum.blkno >= tr[|acts|].vacuum.npages
    requires InIndex(tr[0].pages, e) && e.heapPtr in tr[0].vacuum.dead
    ensures !InIndex(tr[|acts|].pages, e)
  {
    var b := PageOf(tr[0].pages, e);
    assert tr[0].pages[0].New?;
    DeleteProgress(tr, acts, e, b, |acts|);
    RunIsGood(tr, acts, |acts|);
    RemovedIsGone(tr[|acts|], e);
  }

  /** A run that begins a bulk deletion and stays in it. */
  ghost predicate DeleteTrace(tr: seq<State>, acts: seq<Action>, dead: set<ItemPointer>) {
    && IsRun(tr, acts) && Good(tr[0]) && |acts| > 0 && acts[0] == VacuumBegin(dead)
    && forall i :: 1 <= i < |tr| ==> tr[i].vacuum.Deleting?
  }

  lemma DeleteTail(tr: seq<State>, acts: seq<Action>, dead: set<ItemPointer>)
    requires DeleteTrace(tr, acts, dead)
    ensures DeleteRun(tr[1..], acts[1..]) && tr[1].vacuum.dead == dead && tr[1].pages == tr[0].pages
  {
    hide Good;
    RunTail(tr, acts);
    RunIsGood(tr, acts, 1);
  }

  /** A bulk deletion that may write its list leaves none of the claimed entries that were there when it began. */
  lemma DeleteComplete(tr: seq<State>, acts: seq<Action>, dead: set<ItemPointer>, e: Entry)
    requires DeleteTrace(tr, acts, dead) && Enabled(tr[|acts|], VacuumMeta)
    requires InIndex(tr[0].pages, e) && e.heapPtr in dead
    ensures !InIndex(tr[|acts|].pages, e)
  {
    hide Good, Step, InIndex;
    DeleteTail(tr, acts, dead);
    assert tr[1..][|acts[1..]|] == tr[|acts|] && tr[1..][0] == tr[1];
    DeleteRemoves(tr[1..], acts[1..], e);
  }

  lemma {:induction false} DeleteKeepsDead(tr: seq<State>, acts: seq<Action>, dead: set<ItemPointer>, i: nat)
    requires DeleteTrace(tr, acts, dead) && 1 <= i < |tr|
    ensures tr[i].vacuum.dead == dead
  {
    hide Good;
    if i == 1 {
      assert Linked(tr, acts, 0);
    } else {
      DeleteKeepsDead(tr, acts, dead, i - 1);
      assert Linked(tr, acts, i - 1);
      DeleteFrame(tr[i - 1], acts[i - 1], tr[i]);
    }
  }

  /** And every entry it does not claim stays in the index. */
  lemma {:induction false} DeleteSpares(
    tr: seq<State>, acts: seq<Action>, dead: set<ItemPointer>, e: Entry, b: nat, i: nat)
    requires DeleteTrace(tr, acts, dead) && i < |tr| && e.heapPtr !in dead
    requires b < |tr[0].pages| && e in Live(tr[0].pages[b])
    ensures b < |tr[i].pages| && e in Live(tr[i].pages[b]) && InIndex(tr[i].pages, e)
  {
    hide Good, Step, Live, InIndex;
    if i == 0 {
    } else {
      DeleteSpares(tr, acts, dead, e, b, i - 1);
      assert Linked(tr, acts, i - 1);
      if i > 1 {
        DeleteKeepsDead(tr, acts, dead, i - 1);
      }
      StaysUnclaimed(tr[i - 1], acts[i - 1], b, e);
    }
    OnPage(tr[i].pages, e, b);
  }

  lemma StaysUnclaimed(s: State, a: Action, b: nat, e: Entry)
    requires Structured(s) && Enabled(s, a) && b < |s.pages| && e in Live(s.pages[b])
    requires s.vacuum.Deleting? ==> e.heapPtr !in s.vacuum.dead
    ensures b < |Step(s, a).pages| && e in Live(Step(s, a).pages[b])
  {
    hide Structured, Step, Live;
    EntryStays(s, a, b, e);
  }

  // ------------------------------------------------------------------ cleanup

  /** A run that begins a cleanup and stays in it. */
  ghost predicate CleanTrace(tr: seq<State>, acts: seq<Action>) {
    && IsRun(tr, acts) && Good(tr[0]) && |acts| > 0 && acts[0] == CleanBegin
    && forall i :: 1 <= i < |tr| ==> tr[i].vacuum.Cleaning?
  }

  predicate Takes(a: Action, b: nat) {
    (a.Recycle? || a.SkipFree?) && a.blkno == b
  }

  lemma CleanFrame(s: State, a: Action, s': State, b: nat)
    requires Next(s, a, s') && s.vacuum.Cleaning? && s'.vacuum.Cleaning? && !Takes(a, b)
    ensures s'.vacuum.npages == s.vacuum.npages && (b in s.freeMap ==> b in s'.freeMap)
    ensures if a.CleanStep? then s'.vacuum.blkno == s.vacuum.blkno + 1 else s'.vacuum.blkno == s.vacuum.blkno
    ensures a.CleanStep? && b == s.vacuum.blkno && Recyclable(s.pages[b]) ==> b in s'.freeMap
  {
  }

  lemma {:induction false} CleanProgress(tr: seq<State>, acts: seq<Action>, b: nat, i: nat)
    requires CleanTrace(tr, acts) && 1 <= i < |tr| && HEAD_BLKNO <= b < |tr[0].pages|
    requires forall k :: 0 <= k < |tr| ==> b < |tr[k].pages| && Recyclable(tr[k].pages[b])
    requires forall k :: 0 <= k < |acts| ==> !Takes(acts[k], b)
    ensures tr[i].vacuum.npages == |tr[0].pages| && (b < tr[i].vacuum.blkno ==> b in tr[i].freeMap)
  {
    hide Good, Recyclable;
    if i == 1 {
      assert Linked(tr, acts, 0);
    } else {
      CleanProgress(tr, acts, b, i - 1);
      assert Linked(tr, acts, i - 1);
      CleanFrame(tr[i - 1], acts[i - 1], tr[i], b);
    }
  }

  /** A cleanup that may end has recorded every block that was reusable throughout and that no insert took. */
  lemma CleanComplete(tr: seq<State>, acts: seq<Action>, b: nat)
    requires CleanTrace(tr, acts) && Enabled(tr[|acts|], CleanEnd) && HEAD_BLKNO <= b < |tr[0].pages|
    requires forall k :: 0 <= k < |tr| ==> b < |tr[k].pages| && Recyclable(tr[k].pages[b])
    requires forall k :: 0 <= k < |acts| ==> !Takes(acts[k], b)
    ensures b in tr[|acts|].freeMap
  {
    CleanProgress(tr, acts, b, |acts|);
  }
}
