/**
 * The bloom index under concurrency: inserts, one vacuum and one scan, each
 * taking one step per buffer lock held. A page copy is applied whole
 * (GenericXLogFinish) or dropped (GenericXLogAbort), so a step is atomic.
 */
module BloomProtocol {
  import opened BloomSignature
  import opened BloomPage

  const HEAD_BLKNO: nat := 1
  const META_BLOCKS: nat := 2004   // BloomMetaBlockN

  /** The metapage's list of pages believed to have room: notFullPage[nStart..nEnd]. */
  datatype Meta = Meta(nStart: nat, nEnd: nat, notFullPage: seq<nat>)

  /** Where an insert stands. Retry and Allocate hold the metapage exclusively. */
  datatype Pc =
    | ReadMeta
    | TryHint(blkno: nat)
    | LockMeta(tried: Option<nat>)
    | Retry(nStart: nat)
    | Allocate
    | Done
    | Cancelled
    | Failed

  datatype Insert = Insert(entry: Entry, pc: Pc)

  datatype Vacuum =
    | Idle
    | Deleting(dead: set<ItemPointer>, npages: nat, blkno: nat, notFull: seq<nat>)
    | Cleaning(npages: nat, blkno: nat)

  datatype Scan = NoScan | Scanning(sign: Sign, npages: nat, blkno: nat, found: set<ItemPointer>)

  /**
   * The shared file, the processes, and a record of what vacuum removed. Block
   * 0 is the metapage, kept in `meta`; `pages[0]` stands for it and stays New.
   * Insert number i writes the entry with serial i.
   */
  datatype State = State(
    size: nat,
    meta: Meta,
    metaOwner: Option<nat>,
    pages: seq<Page>,
    freeMap: set<nat>,
    inserts: seq<Insert>,
    vacuum: Vacuum,
    scan: Scan,
    removed: set<Entry>)

  datatype Action =
    | Begin(heapPtr: ItemPointer, sign: Sign)
    | ReadHint(i: nat)
    | TryHintPage(i: nat)
    | TakeMeta(i: nat)
    | RetryPage(i: nat)
    | RetryEnd(i: nat)
    | Recycle(i: nat, blkno: nat)
    | SkipFree(i: nat, blkno: nat)
    | Extend(i: nat)
    | Cancel(i: nat)
    | ExtendOnly
    | VacuumBegin(dead: set<ItemPointer>)
    | VacuumStep
    | VacuumMeta
    | CleanBegin
    | CleanStep
    | CleanEnd
    | ScanBegin(sign: Sign)
    | ScanStep
    | ScanEnd

  // -------------------------------------------------------------------- steps

  predicate At(s: State, i: nat) {
    i < |s.inserts|
  }

  /** Which steps are possible; a metapage lock excludes other takers of it. */
  predicate Enabled(s: State, a: Action) {
    match a
    case Begin(_, sign) => TupleSize(|sign|) == s.size
    case ReadHint(i) => At(s, i) && s.inserts[i].pc.ReadMeta? && s.metaOwner.None?
    case TryHintPage(i) => At(s, i) && s.inserts[i].pc.TryHint?
    case TakeMeta(i) => At(s, i) && s.inserts[i].pc.LockMeta? && s.metaOwner.None?
    case RetryPage(i) => At(s, i) && s.inserts[i].pc.Retry? && s.inserts[i].pc.nStart < s.meta.nEnd
    case RetryEnd(i) => At(s, i) && s.inserts[i].pc.Retry? && s.inserts[i].pc.nStart >= s.meta.nEnd
    case Recycle(i, blkno) =>
      At(s, i) && s.inserts[i].pc.Allocate? && blkno in s.freeMap
      && blkno < |s.pages| && Recyclable(s.pages[blkno])
    case SkipFree(i, blkno) => At(s, i) && s.inserts[i].pc.Allocate? && blkno in s.freeMap
    case Extend(i) => At(s, i) && s.inserts[i].pc.Allocate?
    case Cancel(i) => At(s, i) && !s.inserts[i].pc.Done?
    case ExtendOnly => true
    case VacuumBegin(_) => s.vacuum.Idle?
    case VacuumStep => s.vacuum.Deleting? && s.vacuum.blkno < s.vacuum.npages
    case VacuumMeta => s.vacuum.Deleting? && s.vacuum.blkno >= s.vacuum.npages && s.metaOwner.None?
    case CleanBegin => s.vacuum.Idle?
    case CleanStep => s.vacuum.Cleaning? && s.vacuum.blkno < s.vacuum.npages
    case CleanEnd => s.vacuum.Cleaning? && s.vacuum.blkno >= s.vacuum.npages
    case ScanBegin(sign) => s.scan.NoScan? && TupleSize(|sign|) == s.size
    case ScanStep => s.scan.Scanning? && s.scan.blkno < s.scan.npages
    case ScanEnd => s.scan.Scanning? && s.scan.blkno >= s.scan.npages
  }

  function Goto(s: State, i: nat, pc: Pc): State
    requires At(s, i)
  {
    s.(inserts := s.inserts[i := s.inserts[i].(pc := pc)])
  }

  /** The first list position to try, skipping the page already tried. */
  function FirstRetry(meta: Meta, tried: Option<nat>): nat
    requires meta.nEnd <= |meta.notFullPage|
  {
    if meta.nStart < meta.nEnd && tried == Some(meta.notFullPage[meta.nStart])
    then meta.nStart + 1 else meta.nStart
  }

  /** Put insert i's tuple on a freshly initialised block and make it the whole list. */
  function Allocated(s: State, i: nat, pages: seq<Page>, blkno: nat): State
    requires At(s, i) && s.size > 0 && blkno < |pages| && ValidPage(pages[blkno], s.size)
    requires |s.meta.notFullPage| >= 1
  {
    match TryAdd(pages[blkno], s.size, s.inserts[i].entry)
    case Some(page) =>
      Goto(s, i, Done).(pages := pages[blkno := page], metaOwner := None,
                        meta := Meta(0, 1, s.meta.notFullPage[0 := blkno]))
    case None => Goto(s, i, Failed).(pages := pages, metaOwner := None)
  }

  /** Heap pointers of the tuples whose signature includes the scan's. */
  ghost function Matching(tuples: seq<Entry>, sign: Sign): set<ItemPointer> {
    set e | e in tuples && SignIncludes(e.sign, sign) :: e.heapPtr
  }

  /** The rule by which vacuum lists a page as having room. */
  function Listed(p: Page, size: nat, notFull: seq<nat>, blkno: nat): seq<nat>
    requires p.Data?
  {
    if p.maxoff != 0 && FreeSpace(p, size) >= size && |notFull| < META_BLOCKS
    then notFull + [blkno] else notFull
  }

  /** The first try: the hinted page, without the metapage. */
  function HintStep(s: State, i: nat): State
    requires Structured(s) && Enabled(s, TryHintPage(i))
  {
    assert InsertOk(s, i);
    var blkno := s.inserts[i].pc.blkno;
    match TryAdd(s.pages[blkno], s.size, s.inserts[i].entry)
    case Some(page) => Goto(s, i, Done).(pages := s.pages[blkno := page])
    case None => Goto(s, i, LockMeta(Some(blkno)))
  }

  /** A turn of the retry loop, holding the metapage. */
  function RetryStep(s: State, i: nat): State
    requires Structured(s) && Enabled(s, RetryPage(i))
  {
    var nStart := s.inserts[i].pc.nStart;
    var blkno := s.meta.notFullPage[nStart];
    match TryAdd(s.pages[blkno], s.size, s.inserts[i].entry)
    case Some(page) =>
      Goto(s, i, Done).(pages := s.pages[blkno := page], meta := s.meta.(nStart := nStart), metaOwner := None)
    case None => Goto(s, i, Retry(nStart + 1))
  }

  /** One page of bulk deletion. */
  function DeleteStep(s: State): State
    requires Structured(s) && Enabled(s, VacuumStep)
  {
    var v := s.vacuum;
    var page := s.pages[v.blkno];
    if Recyclable(page) then s.(vacuum := Deleting(v.dead, v.npages, v.blkno + 1, v.notFull))
    else
      var page' := VacuumPage(page, s.size, v.dead);
      s.(vacuum := Deleting(v.dead, v.npages, v.blkno + 1, Listed(page', s.size, v.notFull, v.blkno)),
         pages := s.pages[v.blkno := page'],
         removed := s.removed + Victims(Live(page), v.dead))
  }

  /** One page of the scan. */
  ghost function ReadStep(s: State): State
    requires Structured(s) && Enabled(s, ScanStep)
  {
    var c := s.scan;
    s.(scan := Scanning(c.sign, c.npages, c.blkno + 1, c.found + Matching(Live(s.pages[c.blkno]), c.sign)))
  }

  ghost function Step(s: State, a: Action): State
    requires Structured(s) && Enabled(s, a)
  {
    match a
    case Begin(heapPtr, sign) =>
      s.(inserts := s.inserts + [Insert(Entry(heapPtr, sign, |s.inserts|), ReadMeta)])
    case ReadHint(i) =>
      if s.meta.nEnd > s.meta.nStart then Goto(s, i, TryHint(s.meta.notFullPage[s.meta.nStart]))
      else Goto(s, i, LockMeta(None))
    case TryHintPage(i) => HintStep(s, i)
    case TakeMeta(i) =>
      Goto(s, i, Retry(FirstRetry(s.meta, s.inserts[i].pc.tried))).(metaOwner := Some(i))
    case RetryPage(i) => RetryStep(s, i)
    case RetryEnd(i) => Goto(s, i, Allocate)
    case Recycle(i, blkno) => Allocated(s.(freeMap := s.freeMap - {blkno}), i, s.pages, blkno)
    case SkipFree(i, blkno) => s.(freeMap := s.freeMap - {blkno})
    case Extend(i) => Allocated(s, i, s.pages + [New], |s.pages|)
    case Cancel(i) =>
      Goto(s, i, Cancelled).(metaOwner := if s.metaOwner == Some(i) then None else s.metaOwner)
    case ExtendOnly => s.(pages := s.pages + [New])
    case VacuumBegin(dead) => s.(vacuum := Deleting(dead, |s.pages|, HEAD_BLKNO, []))
    case VacuumStep => DeleteStep(s)
    case VacuumMeta =>
      s.(vacuum := Idle,
         meta := Meta(0, |s.vacuum.notFull|, Overwrite(s.meta.notFullPage, s.vacuum.notFull)))
    case CleanBegin => s.(vacuum := Cleaning(|s.pages|, HEAD_BLKNO))
    case CleanStep =>
      s.(vacuum := Cleaning(s.vacuum.npages, s.vacuum.blkno + 1),
         freeMap := if Recyclable(s.pages[s.vacuum.blkno]) then s.freeMap + {s.vacuum.blkno} else s.freeMap)
    case CleanEnd => s.(vacuum := Idle)
    case ScanBegin(sign) => s.(scan := Scanning(sign, |s.pages|, HEAD_BLKNO, {}))
    case ScanStep => ReadStep(s)
    case ScanEnd => s.(scan := NoScan)
  }

  // --------------------------------------------------------------- invariants

  ghost predicate DataBlock(s: State, b: nat) {
    HEAD_BLKNO <= b < |s.pages|
  }

  ghost predicate PagesOk(s: State) {
    && ValidSize(s.size) && s.size > 0
    && |s.pages| >= 1 && s.pages[0].New?
    && forall b :: 0 <= b < |s.pages| ==> ValidPage(s.pages[b], s.size)
  }

  ghost predicate MetaOk(s: State) {
    && s.meta.nStart <= s.meta.nEnd <= META_BLOCKS == |s.meta.notFullPage|
    && forall k :: 0 <= k < s.meta.nEnd ==> DataBlock(s, s.meta.notFullPage[k])
  }

  ghost predicate InsertOk(s: State, i: nat)
    requires At(s, i)
  {
    && s.inserts[i].entry.serial == i && TupleSize(|s.inserts[i].entry.sign|) == s.size
    && match s.inserts[i].pc
       case TryHint(b) => DataBlock(s, b) && s.metaOwner != Some(i)
       case Retry(n) => s.metaOwner == Some(i) && s.meta.nStart <= n <= s.meta.nEnd
       case Allocate => s.metaOwner == Some(i)
       case Failed => false
       case _ => s.metaOwner != Some(i)
  }

  ghost predicate InsertsOk(s: State) {
    && (forall i :: 0 <= i < |s.inserts| ==> InsertOk(s, i))
    && (s.metaOwner.Some? ==> At(s, s.metaOwner.value))
  }

  ghost predicate WorkersOk(s: State) {
    && (forall b :: b in s.freeMap ==> DataBlock(s, b))
    && (s.vacuum.Deleting? ==>
          && HEAD_BLKNO <= s.vacuum.blkno <= s.vacuum.npages <= |s.pages|
          && |s.vacuum.notFull| <= META_BLOCKS
          && forall k :: 0 <= k < |s.vacuum.notFull| ==> DataBlock(s, s.vacuum.notFull[k]))
    && (s.vacuum.Cleaning? ==> HEAD_BLKNO <= s.vacuum.blkno <= s.vacuum.npages <= |s.pages|)
    && (s.scan.Scanning? ==> HEAD_BLKNO <= s.scan.blkno <= s.scan.npages <= |s.pages|)
  }

  /** Every index, offset and lock the processes rely on is in order. */
  ghost predicate Structured(s: State) {
    PagesOk(s) && MetaOk(s) && InsertsOk(s) && WorkersOk(s)
  }

  predicate WritesPage(a: Action) {
    a.TryHintPage? || a.RetryPage? || a.Recycle? || a.Extend?
  }

  predicate BackgroundStep(a: Action) {
    a.VacuumBegin? || a.VacuumStep? || a.VacuumMeta? || a.CleanBegin? || a.CleanStep? || a.CleanEnd?
    || a.ScanBegin? || a.ScanStep? || a.ScanEnd?
  }

  /** Structure survives replacing a data block's page by a valid one. */
  lemma PutPageStructured(s: State, blkno: nat, page: Page)
    requires Structured(s) && DataBlock(s, blkno) && ValidPage(page, s.size)
    ensures Structured(s.(pages := s.pages[blkno := page]))
  {
    var s' := s.(pages := s.pages[blkno := page]);
    forall j | 0 <= j < |s'.inserts|
      ensures InsertOk(s', j)
    {
      assert InsertOk(s, j);
    }
  }

  /** Structure survives an insert leaving the metapage lock it may hold. */
  lemma LeaveStructured(s: State, i: nat, pc: Pc, meta: Meta)
    requires Structured(s) && At(s, i) && (pc.Done? || pc.Cancelled? || pc.LockMeta?)
    requires meta != s.meta ==> s.metaOwner == Some(i)
    requires MetaOk(s.(meta := meta))
    ensures Structured(Goto(s, i, pc).(
                         meta := meta,
                         metaOwner := if s.metaOwner == Some(i) then None else s.metaOwner))
  {
    var s' := Goto(s, i, pc).(
      meta := meta,
      metaOwner := if s.metaOwner == Some(i) then None else s.metaOwner);
    forall j | 0 <= j < |s'.inserts|
      ensures InsertOk(s', j)
    {
      assert InsertOk(s, j);
    }
  }

  lemma ExtendStructured(s: State)
    requires Structured(s)
    ensures Structured(s.(pages := s.pages + [New]))
  {
    var s' := s.(pages := s.pages + [New]);
    forall j | 0 <= j < |s'.inserts|
      ensures InsertOk(s', j)
    {
      assert InsertOk(s, j);
    }
  }

  lemma HintStructured(s: State, i: nat)
    requires Structured(s) && Enabled(s, TryHintPage(i))
    ensures Structured(HintStep(s, i))
  {
    assert InsertOk(s, i);
    var blkno := s.inserts[i].pc.blkno;
    match TryAdd(s.pages[blkno], s.size, s.inserts[i].entry)
    case Some(page) =>
      PutPageStructured(s, blkno, page);
      LeaveStructured(s.(pages := s.pages[blkno := page]), i, Done, s.meta);
    case None =>
      LeaveStructured(s, i, LockMeta(Some(blkno)), s.meta);
  }

  lemma RetryStructured(s: State, i: nat)
    requires Structured(s) && Enabled(s, RetryPage(i))
    ensures Structured(RetryStep(s, i))
  {
    assert InsertOk(s, i);
    var nStart := s.inserts[i].pc.nStart;
    var blkno := s.meta.notFullPage[nStart];
    match TryAdd(s.pages[blkno], s.size, s.inserts[i].entry)
    case Some(page) =>
      PutPageStructured(s, blkno, page);
      LeaveStructured(s.(pages := s.pages[blkno := page]), i, Done, s.meta.(nStart := nStart));
    case None =>
      var s' := RetryStep(s, i);
      forall j | 0 <= j < |s'.inserts|
        ensures InsertOk(s', j)
      {
        assert InsertOk(s, j);
      }
  }

  /** Allocation always succeeds: a fresh page has room for one tuple. */
  lemma AllocateStructured(s: State, i: nat, pages: seq<Page>, blkno: nat)
    requires Structured(s.(pages := pages)) && At(s, i) && s.inserts[i].pc.Allocate?
    requires HEAD_BLKNO <= blkno < |pages| && Recyclable(pages[blkno])
    ensures Structured(Allocated(s, i, pages, blkno))
    ensures Allocated(s, i, pages, blkno).inserts[i].pc.Done?
  {
    var s1 := s.(pages := pages);
    assert InsertOk(s1, i);
    var page := TryAdd(pages[blkno], s.size, s.inserts[i].entry).value;
    PutPageStructured(s1, blkno, page);
    LeaveStructured(s1.(pages := pages[blkno := page]), i, Done,
                    Meta(0, 1, s.meta.notFullPage[0 := blkno]));
  }

  lemma InsertStructured(s: State, a: Action)
    requires Structured(s) && Enabled(s, a) && !WritesPage(a) && !BackgroundStep(a)
    ensures Structured(Step(s, a))
  {
    var s' := Step(s, a);
    if a.ExtendOnly? {
      ExtendStructured(s);
    } else if a.Cancel? {
      LeaveStructured(s, a.i, Cancelled, s.meta);
    } else {
      forall j | 0 <= j < |s'.inserts|
        ensures InsertOk(s', j)
      {
        if j < |s.inserts| {
          assert InsertOk(s, j);
        }
      }
    }
  }

  lemma DeleteStructured(s: State)
    requires Structured(s) && Enabled(s, VacuumStep)
    ensures Structured(DeleteStep(s))
  {
    var b := s.vacuum.blkno;
    if !Recyclable(s.pages[b]) {
      PutPageStructured(s, b, VacuumPage(s.pages[b], s.size, s.vacuum.dead));
    }
    forall j | 0 <= j < |s.inserts|
      ensures InsertOk(DeleteStep(s), j)
    {
      assert InsertOk(s, j);
    }
  }

  lemma BackgroundStructured(s: State, a: Action)
    requires Structured(s) && Enabled(s, a) && BackgroundStep(a) && !a.VacuumStep?
    ensures Structured(Step(s, a))
  {
    var s' := Step(s, a);
    assert MetaOk(s');
    forall j | 0 <= j < |s'.inserts|
      ensures InsertOk(s', j)
    {
      assert InsertOk(s, j);
    }
  }

  lemma RecycleStructured(s: State, i: nat, blkno: nat)
    requires Structured(s) && Enabled(s, Recycle(i, blkno))
    ensures Structured(Step(s, Recycle(i, blkno)))
    ensures Step(s, Recycle(i, blkno)).inserts[i].pc.Done?
  {
    InsertStructured(s, SkipFree(i, blkno));
    AllocateStructured(s.(freeMap := s.freeMap - {blkno}), i, s.pages, blkno);
  }

  lemma ExtendInsertStructured(s: State, i: nat)
    requires Structured(s) && Enabled(s, Extend(i))
    ensures Structured(Step(s, Extend(i)))
    ensures Step(s, Extend(i)).inserts[i].pc.Done?
  {
    ExtendStructured(s);
    AllocateStructured(s, i, s.pages + [New], |s.pages|);
  }

  lemma StructuredStep(s: State, a: Action)
    requires Structured(s) && Enabled(s, a)
    ensures Structured(Step(s, a))
  {
    hide Structured, HintStep, RetryStep, Allocated, DeleteStep, ReadStep, Goto, Overwrite;
    match a
    case TryHintPage(i) => HintStructured(s, i);
    case RetryPage(i) => RetryStructured(s, i);
    case VacuumStep => DeleteStructured(s);
    case Recycle(i, blkno) => RecycleStructured(s, i, blkno);
    case Extend(i) => ExtendInsertStructured(s, i);
    case _ =>
      if BackgroundStep(a) {
        BackgroundStructured(s, a);
      } else {
        InsertStructured(s, a);
      }
  }
}
