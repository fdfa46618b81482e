/** Packing a list of pairs, and deleting a key from a packed hstore. */
module HStore {
  import opened HStoreFormat
  import opened HStoreBuild

  lemma {:induction false} LengthOfFirst(pairs: seq<Pair>, n: nat)
    requires n <= |pairs|
    ensures Length(pairs[..n]) == LengthTo(pairs, n)
  {
    if n == 0 {
    } else {
      LengthOfFirst(pairs, n - 1);
      assert pairs[..n] == pairs[..n - 1] + [pairs[n - 1]];
      LengthPush(pairs[..n - 1], pairs[n - 1]);
    }
  }

  /** Pack the pairs. */
  method HStorePairs(pairs: seq<Pair>, buflen: nat) returns (out: array<Byte>)
    requires Fits(pairs) && buflen == Length(pairs)
    ensures out.Length == Size(pairs) && Encodes(out[..], pairs)
    ensures Parsable(out[..]) && Decode(out[..]) == pairs
  {
    hide LengthTo, Encodes, Parsable, Decode, PairBytes;
    var b := new Builder(|pairs|, buflen);
    if |pairs| == 0 {
      b.Finalize(0);
      assert b.done == pairs;
    } else {
      for i := 0 to |pairs|
        invariant b.Valid() && b.done == pairs[..i] && b.cap == |pairs|
      {
        LengthOfFirst(pairs, i);
        LengthGrows(pairs, i + 1, |pairs|);
        PairWithin(pairs, i);
        b.AddItem(pairs[i]);
        assert pairs[..i + 1] == pairs[..i] + [pairs[i]];
      }
      assert pairs[..|pairs|] == pairs;
      b.Finalize(|pairs|);
    }
    out := b.mem;
    RoundTrip(out[..], pairs);
  }

  /** The pairs among the first n whose key is another. */
  function Without(pairs: seq<Pair>, n: nat, key: Bytes): seq<Pair>
    requires n <= |pairs|
  {
    if n == 0 then []
    else if pairs[n - 1].key == key then Without(pairs, n - 1, key)
    else Without(pairs, n - 1, key) + [pairs[n - 1]]
  }

  lemma CountPush(s: seq<Pair>, last: Pair, p: Pair)
    ensures multiset(s + [last])[p] == multiset(s)[p] + if last == p then 1 else 0
  {
  }

  lemma CountTake(pairs: seq<Pair>, n: nat, p: Pair)
    requires 0 < n <= |pairs|
    ensures multiset(pairs[..n])[p] == multiset(pairs[..n - 1])[p] + if pairs[n - 1] == p then 1 else 0
  {
    assert pairs[..n] == pairs[..n - 1] + [pairs[n - 1]];
    CountPush(pairs[..n - 1], pairs[n - 1], p);
  }

  /** What is kept are the pairs with another key, each as often as it was there. */
  lemma {:induction false} WithoutCount(pairs: seq<Pair>, n: nat, key: Bytes, p: Pair)
    requires n <= |pairs|
    ensures multiset(Without(pairs, n, key))[p] == if p.key == key then 0 else multiset(pairs[..n])[p]
  {
    hide Without;
    if n == 0 {
      NoneKept(pairs, key);
    } else {
      WithoutCount(pairs, n - 1, key, p);
      WithoutNext(pairs, n - 1, key);
      CountTake(pairs, n, p);
      if pairs[n - 1].key != key {
        CountPush(Without(pairs, n - 1, key), pairs[n - 1], p);
      }
    }
  }

  /** And in order: what is kept of a list is what is kept of its beginning, then of the rest. */
  lemma {:induction false} WithoutInOrder(pairs: seq<Pair>, m: nat, n: nat, key: Bytes)
    requires m <= n <= |pairs|
    ensures Without(pairs, n, key) == Without(pairs, m, key) + Without(pairs[m..], n - m, key)
  {
    if m == n {
    } else {
      WithoutInOrder(pairs, m, n - 1, key);
      assert pairs[m..][n - 1 - m] == pairs[n - 1];
    }
  }

  /** What is kept is never more than there was. */
  lemma {:induction false} WithoutFits(pairs: seq<Pair>, n: nat, key: Bytes)
    requires n <= |pairs|
    ensures |Without(pairs, n, key)| <= n && Length(Without(pairs, n, key)) <= LengthTo(pairs, n)
  {
    if n == 0 {
    } else {
      WithoutFits(pairs, n - 1, key);
      LengthPush(Without(pairs, n - 1, key), pairs[n - 1]);
    }
  }

  /** Where pair i's bytes lie and what its lengths read as. */
  lemma PairInMemory(m: Bytes, pairs: seq<Pair>, i: nat)
    requires Encodes(m, pairs) && i < |pairs|
    ensures Count(m) == |pairs| && HEADER + 8 * i + 8 <= |m| && Marked(m, 2 * i) && Marked(m, 2 * i + 1)
    ensures Len(m, 2 * i) == |pairs[i].key| && Len(m, 2 * i + 1) == |ValueBytes(pairs[i].value)|
    ensures IsNull(Entry(m, 2 * i + 1)) == pairs[i].value.Null?
    ensures var at := StrPtr(|pairs|) + Offset(m, 2 * i);
            at + |PairBytes(pairs[i])| <= |m| && m[at..at + |PairBytes(pairs[i])|] == PairBytes(pairs[i])
  {
    hide Encodes, EndPos, IsNull, IsFirst, Word, Entry, Offset, Len, Marked, LengthTo;
    CountReads(m, pairs);
    ReadEntries(m, pairs, i);
    Positions(m, pairs, i);
    EncodesAt(m, pairs, i);
  }

  lemma VarSize(m: Bytes, pairs: seq<Pair>)
    requires Encodes(m, pairs) && Size(pairs) <= POSMASK
    ensures |m| >= HEADER && Word(m, 0) / 4 == Size(pairs) && Count(m) == |pairs|
  {
  }

  lemma WithoutNext(pairs: seq<Pair>, i: nat, key: Bytes)
    requires i < |pairs|
    ensures Without(pairs, i + 1, key)
         == if pairs[i].key == key then Without(pairs, i, key) else Without(pairs, i, key) + [pairs[i]]
  {
  }

  lemma SliceOf(a: array<Byte>, lo: nat, hi: nat)
    requires lo <= hi <= a.Length
    ensures a[lo..hi] == a[..][lo..hi]
  {
  }

  /** Copy pair i unless it has the key. */
  method KeepUnless(hs: array<Byte>, key: Bytes, i: nat, b: Builder, ghost pairs: seq<Pair>) returns (kept: bool)
    requires Encodes(hs[..], pairs) && i < |pairs| && b.Valid() && hs != b.mem && b.cap == |pairs|
    requires b.done == Without(pairs, i, key) && b.mem.Length == Size(pairs) <= POSMASK
    modifies b`dent, b`dptr, b`done, b.mem
    ensures b.Valid() && b.done == Without(pairs, i + 1, key)
    ensures |b.done| == |old(b.done)| + if kept then 1 else 0
  {
    hide LengthTo, Encodes, Word, Len, Offset, IsNull, Entry, PairBytes, ValueBytes, Building, Marked, Count, Without;
    PairInMemory(hs[..], pairs, i);
    WithoutFits(pairs, i, key);
    WithoutNext(pairs, i, key);
    LengthGrows(pairs, i + 1, |pairs|);
    PairWithin(pairs, i);
    var len := Len(hs[..], 2 * i);
    var ptrs := StrPtr(Count(hs[..])) + Offset(hs[..], 2 * i);
    BytesSplit(hs[..], ptrs, pairs[i]);
    SliceOf(hs, ptrs, ptrs + len);
    kept := !(len == |key| && hs[ptrs..ptrs + len] == key);
    if kept {
      var vallen := Len(hs[..], 2 * i + 1);
      SliceOf(hs, ptrs, ptrs + len + vallen);
      b.CopyItem(hs, ptrs, len, vallen, IsNull(Entry(hs[..], 2 * i + 1)), pairs[i]);
    }
  }

  /** Delete a key: the result packs exactly the pairs with other keys. */
  method HStoreDelete(hs: array<Byte>, key: Bytes, ghost pairs: seq<Pair>) returns (out: array<Byte>)
    requires Encodes(hs[..], pairs) && Size(pairs) <= POSMASK
    ensures fresh(out) && Encodes(out[..], Without(pairs, |pairs|, key))
    ensures Parsable(out[..]) && Decode(out[..]) == Without(pairs, |pairs|, key)
  {
    hide LengthTo, Encodes, Word, Parsable, Decode, Building, Without;
    ghost var m := hs[..];
    VarSize(m, pairs);
    NoneKept(pairs, key);
    var count := Count(hs[..]);
    var b := new Builder(count, Word(hs[..], 0) / 4 - StrPtr(count));
    var outcount := 0;
    for i := 0 to count
      invariant hs[..] == m && fresh(b.mem) && fresh(b)
      invariant b.Valid() && b.cap == count && b.mem.Length == Size(pairs)
      invariant b.done == Without(pairs, i, key) && outcount == |b.done|
    {
      var kept := KeepUnless(hs, key, i, b, pairs);
      if kept {
        outcount := outcount + 1;
      }
    }
    b.Finalize(outcount);
    out := b.mem;
    RoundTrip(out[..], Without(pairs, |pairs|, key));
  }

  lemma NoneKept(pairs: seq<Pair>, key: Bytes)
    ensures Without(pairs, 0, key) == []
  {
  }
}
