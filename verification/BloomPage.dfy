/**
 * Data pages of a bloom index: their space accounting, adding a tuple, and the
 * in-place compaction that vacuum performs.
 */
module BloomPage {
  import opened BloomSignature

  const BLCKSZ: nat := 8192
  const PAGE_HEADER: nat := 24   // MAXALIGN(SizeOfPageHeaderData)
  const PAGE_OPAQUE: nat := 8    // MAXALIGN(sizeof(BloomPageOpaqueData))
  const TUPLE_HEADER: nat := 6   // BLOOMTUPLEHDRSZ
  const DATA_SPACE: nat := BLCKSZ - PAGE_HEADER - PAGE_OPAQUE

  datatype ItemPointer = ItemPointer(block: nat, offset: nat)

  /**
   * An index tuple. `serial` is not stored by the program: it names the insert
   * that wrote the tuple, so that two equal tuples can be told apart.
   */
  datatype Entry = Entry(heapPtr: ItemPointer, sign: Sign, serial: nat)

  const ZERO_ENTRY: Entry := Entry(ItemPointer(0, 0), [], 0)

  /**
   * A page: never initialised, or data with its deleted flag, tuple count,
   * pd_lower and tuple area. Slots past maxoff hold stale bytes.
   */
  datatype Page = New | Data(deleted: bool, maxoff: nat, lower: nat, slots: seq<Entry>)

  /** sizeOfBloomTuple for a signature of this many words. */
  function TupleSize(words: nat): nat {
    TUPLE_HEADER + 2 * words
  }

  ghost predicate ValidSize(size: nat) {
    exists words: nat :: 1 <= words <= MAX_BLOOM_WORDS && size == TupleSize(words)
  }

  /** maxoff * sizeOfBloomTuple, as a sum so that page arithmetic stays linear. */
  function TupleBytes(n: nat, size: nat): nat {
    if n == 0 then 0 else TupleBytes(n - 1, size) + size
  }

  lemma {:induction false} TupleBytesIsProduct(n: nat, size: nat)
    ensures TupleBytes(n, size) == n * size
  {
    if n == 0 {
    } else {
      TupleBytesIsProduct(n - 1, size);
    }
  }

  /** How many tuples fit in this much space. */
  function Fitting(space: nat, size: nat): nat
    requires size > 0
  {
    if space < size then 0 else Fitting(space - size, size) + 1
  }

  function Capacity(size: nat): nat
    requires size > 0
  {
    Fitting(DATA_SPACE, size)
  }

  function FreeSpace(p: Page, size: nat): int
    requires p.Data?
  {
    BLCKSZ - PAGE_HEADER - TupleBytes(p.maxoff, size) - PAGE_OPAQUE
  }

  ghost predicate ValidPage(p: Page, size: nat)
    requires size > 0
  {
    p.Data? ==>
      && |p.slots| == Capacity(size)
      && p.maxoff <= |p.slots|
      && p.lower == PAGE_HEADER + TupleBytes(p.maxoff, size)
      && (p.deleted ==> p.maxoff == 0)
  }

  /** The tuples a reader of the page sees, in order. */
  function Live(p: Page): seq<Entry> {
    if p.New? || p.deleted || p.maxoff > |p.slots| then [] else p.slots[..p.maxoff]
  }

  predicate Recyclable(p: Page) {
    p.New? || p.deleted
  }

  lemma {:induction false} FittingIff(space: nat, n: nat, size: nat)
    requires size > 0
    ensures TupleBytes(n + 1, size) <= space <==> n < Fitting(space, size)
  {
    if space < size || n == 0 {
    } else {
      FittingIff(space - size, n - 1, size);
    }
  }

  lemma RoomIff(maxoff: nat, size: nat)
    requires size > 0
    ensures DATA_SPACE - TupleBytes(maxoff, size) >= size <==> maxoff < Capacity(size)
  {
    FittingIff(DATA_SPACE, maxoff, size);
  }

  /** The free space is what header, tuples and opaque data leave, and takes a tuple exactly below capacity. */
  lemma FitsIff(p: Page, size: nat)
    requires p.Data? && size > 0
    ensures FreeSpace(p, size) == BLCKSZ - PAGE_HEADER - p.maxoff * size - PAGE_OPAQUE
    ensures FreeSpace(p, size) >= size <==> p.maxoff < Capacity(size)
  {
    TupleBytesIsProduct(p.maxoff, size);
    RoomIff(p.maxoff, size);
  }

  /** How many tuples a page takes: 8192 bytes less 24 of header and 8 of opaque data, by the tuple's size. */
  lemma CapacityIs(size: nat)
    requires size > 0
    ensures Capacity(size) == 8160 / size
  {
    var n := Capacity(size);
    RoomIff(n, size);
    TupleBytesIsProduct(n, size);
    if n > 0 {
      RoomIff(n - 1, size);
      TupleBytesIsProduct(n - 1, size);
    }
    assert n * size <= 8160 < (n + 1) * size;
    Quotient(8160, size, n);
  }

  lemma Quotient(a: nat, b: nat, q: nat)
    requires b > 0 && q * b <= a < (q + 1) * b
    ensures a / b == q
  {
    var d := a / b - q;
    assert d * b == a - a % b - q * b;
    assert 0 - b < d * b < b;
  }

  /** At most MAX_BLOOM_WORDS words leave room for a tuple on an empty page. */
  lemma FreshPageHasRoom(size: nat)
    requires ValidSize(size)
    ensures size > 0 && Capacity(size) >= 1
  {
    RoomIff(0, size);
  }

  function InitPage(size: nat): (p: Page)
    requires size > 0
    ensures ValidPage(p, size) && !Recyclable(p) && Live(p) == []
  {
    Data(false, 0, PAGE_HEADER, seq(Capacity(size), _ => ZERO_ENTRY))
  }

  /** Appends a tuple, or None when the free space is too small. */
  function AddItem(p: Page, size: nat, e: Entry): (r: Option<Page>)
    requires size > 0 && ValidPage(p, size) && !Recyclable(p)
    ensures r.Some? <==> p.maxoff < Capacity(size)
    ensures r.Some? ==> ValidPage(r.value, size) && !Recyclable(r.value) && Live(r.value) == Live(p) + [e]
    ensures r.Some? ==> PAGE_HEADER <= r.value.lower <= BLCKSZ - PAGE_OPAQUE
  {
    RoomIff(p.maxoff, size);
    if FreeSpace(p, size) < size then None
    else
      var slots := p.slots[p.maxoff := e];
      assert slots[..p.maxoff + 1] == p.slots[..p.maxoff] + [e];
      Some(Data(false, p.maxoff + 1, PAGE_HEADER + TupleBytes(p.maxoff + 1, size), slots))
  }

  /** What an insert does under a page lock: reinitialise a recyclable page, then add. */
  function TryAdd(p: Page, size: nat, e: Entry): (r: Option<Page>)
    requires size > 0 && ValidPage(p, size)
    ensures r.Some? ==> ValidPage(r.value, size) && !Recyclable(r.value) && Live(r.value) == Live(p) + [e]
    ensures ValidSize(size) && Recyclable(p) ==> r.Some?
    ensures !Recyclable(p) ==> (r.Some? <==> |Live(p)| < Capacity(size))
  {
    if Recyclable(p) then
      assert ValidSize(size) ==> Capacity(size) >= 1 by { if ValidSize(size) { FreshPageHasRoom(size); } }
      AddItem(InitPage(size), size, e)
    else AddItem(p, size, e)
  }

  // ------------------------------------------------------------------- vacuum

  /** Those of the first n tuples whose heap pointer the vacuum callback does not claim. */
  function SurvivorsTo(s: seq<Entry>, n: nat, dead: set<ItemPointer>): (r: seq<Entry>)
    requires n <= |s|
    ensures |r| <= n
  {
    if n == 0 then []
    else if s[n - 1].heapPtr in dead then SurvivorsTo(s, n - 1, dead)
    else SurvivorsTo(s, n - 1, dead) + [s[n - 1]]
  }

  function Survivors(s: seq<Entry>, dead: set<ItemPointer>): seq<Entry> {
    SurvivorsTo(s, |s|, dead)
  }

  /** The tuples it does claim. */
  function Victims(s: seq<Entry>, dead: set<ItemPointer>): set<Entry> {
    set e | e in s && e.heapPtr in dead
  }

  /** How often a tuple occurs among the first n. */
  ghost function CountTo(s: seq<Entry>, n: nat, e: Entry): nat
    requires n <= |s|
  {
    if n == 0 then 0 else CountTo(s, n - 1, e) + if s[n - 1] == e then 1 else 0
  }

  ghost function Count(s: seq<Entry>, e: Entry): nat {
    CountTo(s, |s|, e)
  }

  lemma {:induction false} CountPrefix(s: seq<Entry>, more: seq<Entry>, n: nat, e: Entry)
    requires n <= |s| && s <= more
    ensures CountTo(more, n, e) == CountTo(s, n, e)
  {
    if n == 0 {
    } else {
      CountPrefix(s, more, n - 1, e);
    }
  }

  lemma CountPush(s: seq<Entry>, last: Entry, e: Entry)
    ensures Count(s + [last], e) == Count(s, e) + if last == e then 1 else 0
  {
    CountPrefix(s, s + [last], |s|, e);
  }

  lemma {:induction false} CountMemberTo(s: seq<Entry>, n: nat, e: Entry)
    requires n <= |s|
    ensures CountTo(s, n, e) > 0 <==> exists k :: 0 <= k < n && s[k] == e
  {
    if n == 0 {
    } else {
      CountMemberTo(s, n - 1, e);
    }
  }

  lemma CountMember(s: seq<Entry>, e: Entry)
    ensures e in s <==> Count(s, e) > 0
  {
    CountMemberTo(s, |s|, e);
  }

  lemma {:induction false} SurvivorsCountTo(s: seq<Entry>, n: nat, dead: set<ItemPointer>, e: Entry)
    requires n <= |s|
    ensures Count(SurvivorsTo(s, n, dead), e) == if e.heapPtr in dead then 0 else CountTo(s, n, e)
  {
    if n == 0 {
    } else {
      SurvivorsCountTo(s, n - 1, dead, e);
      CountPush(SurvivorsTo(s, n - 1, dead), s[n - 1], e);
    }
  }

  /** Claimed tuples go, all others survive. */
  lemma SurvivorsCount(s: seq<Entry>, dead: set<ItemPointer>, e: Entry)
    ensures Count(Survivors(s, dead), e) == if e.heapPtr in dead then 0 else Count(s, e)
  {
    SurvivorsCountTo(s, |s|, dead, e);
  }

  lemma {:induction false} AllSurviveTo(s: seq<Entry>, n: nat, dead: set<ItemPointer>)
    requires n <= |s| && |SurvivorsTo(s, n, dead)| == n
    ensures SurvivorsTo(s, n, dead) == s[..n]
  {
    if n == 0 {
    } else {
      AllSurviveTo(s, n - 1, dead);
      assert s[..n] == s[..n - 1] + [s[n - 1]];
    }
  }

  lemma AllSurvive(s: seq<Entry>, dead: set<ItemPointer>)
    requires |Survivors(s, dead)| == |s|
    ensures Survivors(s, dead) == s
  {
    AllSurviveTo(s, |s|, dead);
  }

  /** What survives of a list is what survives of its beginning, then of the rest. */
  lemma {:induction false} SurvivorsInOrder(s: seq<Entry>, m: nat, n: nat, dead: set<ItemPointer>)
    requires m <= n <= |s|
    ensures SurvivorsTo(s, n, dead) == SurvivorsTo(s, m, dead) + SurvivorsTo(s[m..], n - m, dead)
  {
    if m == n {
    } else {
      SurvivorsInOrder(s, m, n - 1, dead);
      assert s[m..][n - 1 - m] == s[n - 1];
    }
  }

  ghost predicate NoneClaimed(s: seq<Entry>, n: nat, dead: set<ItemPointer>)
    requires n <= |s|
  {
    forall k :: 0 <= k < n ==> s[k].heapPtr !in dead
  }

  ghost predicate AllClaimed(s: seq<Entry>, n: nat, dead: set<ItemPointer>)
    requires n <= |s|
  {
    forall k :: 0 <= k < n ==> s[k].heapPtr in dead
  }

  lemma {:induction false} SurvivorsSize(s: seq<Entry>, n: nat, dead: set<ItemPointer>)
    requires n <= |s|
    ensures |SurvivorsTo(s, n, dead)| == n <==> NoneClaimed(s, n, dead)
    ensures |SurvivorsTo(s, n, dead)| == 0 <==> AllClaimed(s, n, dead)
  {
    if n == 0 {
    } else {
      SurvivorsSize(s, n - 1, dead);
    }
  }

  /** The sequence with its first elements replaced. */
  function Overwrite<T>(s: seq<T>, head: seq<T>): (r: seq<T>)
    requires |head| <= |s|
    ensures |r| == |s| && forall i :: 0 <= i < |s| ==> r[i] == if i < |head| then head[i] else s[i]
  {
    seq(|s|, i requires 0 <= i < |s| => if i < |head| then head[i] else s[i])
  }

  /** The page vacuum leaves: unchanged, or compacted and deleted when emptied. */
  function VacuumPage(p: Page, size: nat, dead: set<ItemPointer>): (r: Page)
    requires size > 0 && ValidPage(p, size)
    ensures ValidPage(r, size)
    ensures Live(r) == Survivors(Live(p), dead)
  {
    if Recyclable(p) then p
    else
      var s := Survivors(Live(p), dead);
      if |s| == p.maxoff then
        AllSurvive(Live(p), dead);
        p
      else
        assert Overwrite(p.slots, s)[..|s|] == s;
        Data(|s| == 0, |s|, PAGE_HEADER + TupleBytes(|s|, size), Overwrite(p.slots, s))
  }

  /** A page without claimed tuples stays as it is; one in use is deleted exactly when it has tuples and all go. */
  lemma VacuumPageIs(p: Page, size: nat, dead: set<ItemPointer>)
    requires size > 0 && ValidPage(p, size)
    ensures NoneClaimed(Live(p), |Live(p)|, dead) ==> VacuumPage(p, size, dead) == p
    ensures Recyclable(VacuumPage(p, size, dead))
       <==> Recyclable(p) || (|Live(p)| > 0 && AllClaimed(Live(p), |Live(p)|, dead))
  {
    hide SurvivorsTo, TupleBytes, Capacity;
    SurvivorsSize(Live(p), |Live(p)|, dead);
  }

  /**
   * The two-pointer compaction of a page's tuple area: `itup` reads every
   * tuple, `itupPtr` is where the next kept tuple goes.
   */
  method Compact(area: array<Entry>, count: nat, dead: set<ItemPointer>) returns (maxoff: nat, removed: nat)
    requires count <= area.Length
    modifies area
    ensures maxoff + removed == count
    ensures area[..maxoff] == Survivors(old(area[..count]), dead)
    ensures forall k :: maxoff <= k < area.Length ==> area[k] == old(area[k])
  {
    var itup, itupPtr := 0, 0;
    maxoff, removed := count, 0;
    while itup < count
      invariant 0 <= itupPtr <= itup <= count
      invariant area[..itupPtr] == SurvivorsTo(old(area[..count]), itup, dead)
      invariant forall k :: itupPtr <= k < area.Length ==> area[k] == old(area[k])
      invariant maxoff == count - removed && removed == itup - itupPtr
    {
      ghost var kept := area[..itupPtr];
      if area[itup].heapPtr in dead {
        maxoff := maxoff - 1;
        removed := removed + 1;
      } else {
        if itupPtr != itup {
          area[itupPtr] := area[itup];
        }
        itupPtr := itupPtr + 1;
        assert area[..itupPtr] == kept + [old(area[..count])[itup]];
      }
      itup := itup + 1;
    }
  }
}
