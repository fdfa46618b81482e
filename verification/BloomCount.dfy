/** Counting the tuples of an index: each count is the number of places, block and offset, that hold one. */
module BloomCount {
  import opened BloomPage
  import opened BloomRuns

  ghost predicate Holds(pages: seq<Page>, b: nat, o: nat, p: Entry -> bool) {
    b < |pages| && o < |Live(pages[b])| && p(Live(pages[b])[o])
  }

  /** The places on the first n blocks whose tuple passes the test. */
  ghost function Places(pages: seq<Page>, n: nat, p: Entry -> bool): set<(nat, nat)>
    requires n <= |pages|
  {
    set b: nat, o: nat | b < n && o < |Live(pages[b])| && Holds(pages, b, o, p) :: (b, o)
  }

  ghost function CountIf(tuples: seq<Entry>, n: nat, p: Entry -> bool): nat
    requires n <= |tuples|
  {
    if n == 0 then 0 else CountIf(tuples, n - 1, p) + if p(tuples[n - 1]) then 1 else 0
  }

  ghost function TotalIf(pages: seq<Page>, n: nat, p: Entry -> bool): nat
    requires n <= |pages|
  {
    if n == 0 then 0 else TotalIf(pages, n - 1, p) + CountIf(Live(pages[n - 1]), |Live(pages[n - 1])|, p)
  }

  /** The places on one block, among its first m offsets. */
  ghost function OnBlock(pages: seq<Page>, b: nat, m: nat, p: Entry -> bool): (r: set<(nat, nat)>)
    requires b < |pages| && m <= |Live(pages[b])|
    ensures forall x :: x in r <==> x.0 == b && x.1 < m && Holds(pages, x.0, x.1, p)
  {
    if m == 0 then {}
    else if p(Live(pages[b])[m - 1]) then OnBlock(pages, b, m - 1, p) + {(b, m - 1)}
    else OnBlock(pages, b, m - 1, p)
  }

  lemma {:induction false} OnBlockSize(pages: seq<Page>, b: nat, m: nat, p: Entry -> bool)
    requires b < |pages| && m <= |Live(pages[b])|
    ensures |OnBlock(pages, b, m, p)| == CountIf(Live(pages[b]), m, p)
  {
    hide Live;
    if m == 0 {
    } else {
      OnBlockSize(pages, b, m - 1, p);
      assert (b, m - 1) !in OnBlock(pages, b, m - 1, p);
    }
  }

  lemma DisjointSize<T>(a: set<T>, b: set<T>)
    requires a !! b
    ensures |a + b| == |a| + |b|
  {
  }

  /** The running total is the number of places. */
  lemma {:induction false} TotalIsSize(pages: seq<Page>, n: nat, p: Entry -> bool)
    requires n <= |pages|
    ensures TotalIf(pages, n, p) == |Places(pages, n, p)|
  {
    hide Live;
    if n == 0 {
      assert Places(pages, 0, p) == {};
    } else {
      TotalIsSize(pages, n - 1, p);
      var before, here := Places(pages, n - 1, p), OnBlock(pages, n - 1, |Live(pages[n - 1])|, p);
      OnBlockSize(pages, n - 1, |Live(pages[n - 1])|, p);
      assert Places(pages, n, p) == before + here;
      DisjointSize(before, here);
    }
  }

  /** Survivors and claimed tuples make up a list. */
  lemma {:induction false} ClaimedCount(tuples: seq<Entry>, n: nat, dead: set<ItemPointer>, p: Entry -> bool)
    requires n <= |tuples| && forall e :: p(e) <==> e.heapPtr in dead
    ensures |SurvivorsTo(tuples, n, dead)| + CountIf(tuples, n, p) == n
  {
    if n == 0 {
    } else {
      ClaimedCount(tuples, n - 1, dead, p);
    }
  }

  lemma {:induction false} CountIsIf(tuples: seq<Entry>, n: nat, e: Entry, p: Entry -> bool)
    requires n <= |tuples| && forall x :: p(x) <==> x == e
    ensures CountTo(tuples, n, e) == CountIf(tuples, n, p)
  {
    if n == 0 {
    } else {
      CountIsIf(tuples, n - 1, e, p);
    }
  }

  lemma {:induction false} OccurrencesAreIf(pages: seq<Page>, n: nat, e: Entry, p: Entry -> bool)
    requires n <= |pages| && forall x :: p(x) <==> x == e
    ensures OccurrencesTo(pages, n, e) == TotalIf(pages, n, p)
  {
    hide Live;
    if n == 0 {
    } else {
      OccurrencesAreIf(pages, n - 1, e, p);
      CountIsIf(Live(pages[n - 1]), |Live(pages[n - 1])|, e, p);
    }
  }

  /** A tuple occurs as often as there are places that hold it. */
  lemma OccurrencesIs(pages: seq<Page>, e: Entry)
    ensures Occurrences(pages, e) == |Places(pages, |pages|, x => x == e)|
  {
    var p := (x: Entry) => x == e;
    OccurrencesAreIf(pages, |pages|, e, p);
    TotalIsSize(pages, |pages|, p);
  }
}
