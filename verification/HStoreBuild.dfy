/**
 * Building packed hstores in place: adding pairs, copying them from another
 * hstore, and finishing, with a move when fewer pairs were kept than allowed for.
 */
module HStoreBuild {
  import opened HStoreFormat

  // -------------------------------------------------------- under construction

  /** The pairs so far, in memory laid out for `cap` pairs; the first entry is not marked yet. */
  ghost predicate Building(m: Bytes, cap: nat, done: seq<Pair>) {
    && |done| <= cap && StrPtr(cap) + Length(done) <= |m|
    && forall i :: 0 <= i < |done| ==> EntriesAt(m, done, i, false) && BytesAt(m, StrPtr(cap), done, i)
  }

  lemma BuildingBounds(m: Bytes, cap: nat, done: seq<Pair>)
    requires Building(m, cap, done)
    ensures |done| <= cap && StrPtr(cap) + Length(done) <= |m|
  {
  }

  ghost predicate Agree(m: Bytes, m': Bytes, lo: nat, hi: nat) {
    |m| == |m'| && hi <= |m| && forall i :: lo <= i < hi ==> m[i] == m'[i]
  }

  lemma {:induction false} LengthPrefix(pairs: seq<Pair>, p: Pair, i: nat)
    requires i <= |pairs|
    ensures LengthTo(pairs + [p], i) == LengthTo(pairs, i)
  {
    if i == 0 {
    } else {
      LengthPrefix(pairs, p, i - 1);
    }
  }

  lemma LengthPush(pairs: seq<Pair>, p: Pair)
    ensures Length(pairs + [p]) == Length(pairs) + |PairBytes(p)|
    ensures LengthTo(pairs + [p], |pairs|) == Length(pairs)
  {
    LengthPrefix(pairs, p, |pairs|);
  }

  lemma AgreeBytes(m: Bytes, m': Bytes, base: nat, pairs: seq<Pair>, i: nat)
    requires i < |pairs| && BytesAt(m, base, pairs, i) && Agree(m, m', base, base + Length(pairs))
    ensures BytesAt(m', base, pairs, i)
  {
    LengthGrows(pairs, i + 1, |pairs|);
  }

  lemma AgreeEntries(m: Bytes, m': Bytes, pairs: seq<Pair>, i: nat)
    requires i < |pairs| && EntriesAt(m, pairs, i, false) && Agree(m, m', HEADER, HEADER + 8 * |pairs|)
    ensures EntriesAt(m', pairs, i, false)
  {
  }

  /** An earlier pair stays as it is when one more is appended. */
  lemma KeepPair(m: Bytes, m': Bytes, cap: nat, done: seq<Pair>, p: Pair, i: nat)
    requires i < |done| && EntriesAt(m, done, i, false) && BytesAt(m, StrPtr(cap), done, i)
    requires Agree(m, m', HEADER, HEADER + 8 * |done|)
    requires Agree(m, m', StrPtr(cap), StrPtr(cap) + Length(done))
    ensures EntriesAt(m', done + [p], i, false) && BytesAt(m', StrPtr(cap), done + [p], i)
  {
    AgreeBytes(m, m', StrPtr(cap), done, i);
    AgreeEntries(m, m', done, i);
    LengthPrefix(done, p, i);
    LengthPrefix(done, p, i + 1);
  }

  lemma AppendPair(m: Bytes, m': Bytes, cap: nat, done: seq<Pair>, p: Pair)
    requires Building(m, cap, done) && |done| < cap
    requires Agree(m, m', HEADER, HEADER + 8 * |done|)
    requires Agree(m, m', StrPtr(cap), StrPtr(cap) + Length(done))
    requires EntriesAt(m', done + [p], |done|, false) && BytesAt(m', StrPtr(cap), done + [p], |done|)
    ensures Building(m', cap, done + [p])
  {
    hide EntriesAt, BytesAt, LengthTo;
    LengthPush(done, p);
    forall i | 0 <= i < |done + [p]|
      ensures EntriesAt(m', done + [p], i, false) && BytesAt(m', StrPtr(cap), done + [p], i)
    {
      if i < |done| {
        KeepPair(m, m', cap, done, p, i);
      }
    }
    LastFits(m', StrPtr(cap), done + [p]);
  }

  lemma LastFits(m: Bytes, base: nat, pairs: seq<Pair>)
    requires |pairs| > 0 && BytesAt(m, base, pairs, |pairs| - 1)
    ensures base + Length(pairs) <= |m|
  {
  }

  /** The four writes that add a pair: key, key entry, value, value entry. */
  ghost function Added(m: Bytes, cap: nat, done: seq<Pair>, p: Pair): (m': Bytes)
    requires |done| < cap && StrPtr(cap) + Length(done) + |PairBytes(p)| <= |m|
    requires Length(done) + |PairBytes(p)| <= POSMASK
    ensures |m'| == |m|
  {
    var d, e := StrPtr(cap) + Length(done), HEADER + 8 * |done|;
    var k, v := Length(done) + |p.key|, Length(done) + |PairBytes(p)|;
    var m1 := Write(m, d, p.key);
    var m2 := Write(m1, e, WordBytes(k));
    var m3 := Write(m2, d + |p.key|, ValueBytes(p.value));
    Write(m3, e + 4, WordBytes(v + if p.value.Null? then ISNULL else 0))
  }

  lemma AddedEntries(m: Bytes, cap: nat, done: seq<Pair>, p: Pair)
    requires |done| < cap && StrPtr(cap) + Length(done) + |PairBytes(p)| <= |m|
    requires Length(done) + |PairBytes(p)| <= POSMASK
    ensures EntriesAt(Added(m, cap, done, p), done + [p], |done|, false)
  {
    hide Word, WordBytes, LengthTo;
    var d, e := StrPtr(cap) + Length(done), HEADER + 8 * |done|;
    var k := Length(done) + |p.key|;
    var v := Length(done) + |PairBytes(p)| + if p.value.Null? then ISNULL else 0;
    var m1 := Write(m, d, p.key);
    var m2 := Write(m1, e, WordBytes(k));
    var m3 := Write(m2, d + |p.key|, ValueBytes(p.value));
    WordWritten(m1, e, k);
    WordElsewhere(m2, d + |p.key|, ValueBytes(p.value), e);
    WordElsewhere(m3, e + 4, WordBytes(v), e);
    WordWritten(m3, e + 4, v);
    LengthPush(done, p);
  }

  lemma AddedBytes(m: Bytes, cap: nat, done: seq<Pair>, p: Pair)
    requires |done| < cap && StrPtr(cap) + Length(done) + |PairBytes(p)| <= |m|
    requires Length(done) + |PairBytes(p)| <= POSMASK
    ensures BytesAt(Added(m, cap, done, p), StrPtr(cap), done + [p], |done|)
  {
    hide Word, WordBytes, LengthTo;
    LengthPush(done, p);
    var d, m' := StrPtr(cap) + Length(done), Added(m, cap, done, p);
    assert (done + [p])[|done|] == p;
    assert forall i :: 0 <= i < |PairBytes(p)| ==> m'[d + i] == PairBytes(p)[i];
  }

  lemma AddedElsewhere(m: Bytes, cap: nat, done: seq<Pair>, p: Pair)
    requires |done| < cap && StrPtr(cap) + Length(done) + |PairBytes(p)| <= |m|
    requires Length(done) + |PairBytes(p)| <= POSMASK
    ensures Agree(m, Added(m, cap, done, p), 0, HEADER + 8 * |done|)
    ensures Agree(m, Added(m, cap, done, p), StrPtr(cap), StrPtr(cap) + Length(done))
  {
  }

  lemma AddedBuilds(m: Bytes, cap: nat, done: seq<Pair>, p: Pair)
    requires Building(m, cap, done) && |done| < cap && StrPtr(cap) + Length(done) + |PairBytes(p)| <= |m|
    requires Length(done) + |PairBytes(p)| <= POSMASK
    ensures Building(Added(m, cap, done, p), cap, done + [p])
  {
    hide Added, Building;
    AddedEntries(m, cap, done, p);
    AddedBytes(m, cap, done, p);
    AddedElsewhere(m, cap, done, p);
    AppendPair(m, Added(m, cap, done, p), cap, done, p);
  }

  // ----------------------------------------------------------------- finishing

  function SetFirst(e: nat): nat {
    if IsFirst(e) then e else e + ISFIRST
  }

  /** Entries and bytes in place, the first entry marked, the strings at `base`. */
  ghost predicate Laid(m: Bytes, base: nat, done: seq<Pair>) {
    forall i :: 0 <= i < |done| ==> EntriesAt(m, done, i, true) && BytesAt(m, base, done, i)
  }

  ghost function MarkedFirst(m: Bytes, done: seq<Pair>): (m': Bytes)
    requires |done| > 0 ==> HEADER + 4 <= |m| && Word(m, HEADER) < ISFIRST
    ensures |m'| == |m|
  {
    if |done| == 0 then m else Write(m, HEADER, WordBytes(SetFirst(Word(m, HEADER))))
  }

  lemma FirstWord(m: Bytes, cap: nat, done: seq<Pair>)
    requires Building(m, cap, done) && Length(done) <= POSMASK && |done| > 0
    ensures HEADER + 8 <= |m| && Word(m, HEADER) == KeyEntry(done, 0) <= POSMASK
  {
    assert EntriesAt(m, done, 0, false);
    KeyWithin(done, 0);
    LengthGrows(done, 1, |done|);
  }

  lemma MarkPair(m: Bytes, m': Bytes, base: nat, done: seq<Pair>, i: nat)
    requires i < |done| && EntriesAt(m, done, i, false) && BytesAt(m, base, done, i)
    requires |m'| == |m| && Agree(m, m', HEADER + 4, |m|) && HEADER + 8 * |done| <= base
    requires HEADER + 4 <= |m| && Word(m', HEADER) == Word(m, HEADER) + ISFIRST
    ensures EntriesAt(m', done, i, true) && BytesAt(m', base, done, i)
  {
  }

  lemma MarkWord(m: Bytes, cap: nat, done: seq<Pair>)
    requires Building(m, cap, done) && Length(done) <= POSMASK && |done| > 0
    requires HEADER + 4 <= |m| && Word(m, HEADER) < ISFIRST
    ensures var m' := MarkedFirst(m, done);
            && Word(m', HEADER) == Word(m, HEADER) + ISFIRST
            && Agree(m, m', HEADER + 4, |m|) && Agree(m, m', 0, HEADER)
  {
    hide Building, Word, WordBytes;
    FirstWord(m, cap, done);
    WordWritten(m, HEADER, SetFirst(Word(m, HEADER)));
  }

  lemma MarkLays(m: Bytes, cap: nat, done: seq<Pair>)
    requires Building(m, cap, done) && Length(done) <= POSMASK
    requires |done| > 0 ==> HEADER + 4 <= |m| && Word(m, HEADER) < ISFIRST
    ensures Laid(MarkedFirst(m, done), StrPtr(cap), done)
    ensures Agree(m, MarkedFirst(m, done), 0, HEADER)
  {
    if |done| > 0 {
      hide MarkedFirst, EntriesAt, BytesAt, Word, LengthTo, Agree;
      MarkWord(m, cap, done);
      forall i | 0 <= i < |done|
        ensures EntriesAt(MarkedFirst(m, done), done, i, true) && BytesAt(MarkedFirst(m, done), StrPtr(cap), done, i)
      {
        MarkPair(m, MarkedFirst(m, done), StrPtr(cap), done, i);
      }
    }
  }

  /** The strings moved down to follow the entries actually used. */
  ghost function Moved(m: Bytes, cap: nat, n: nat, len: nat): (m': Bytes)
    requires n <= cap && StrPtr(cap) + len <= |m| && n < TWO32 - NEWVERSION
    ensures |m'| == |m|
  {
    var m1 := Write(m, 4, WordBytes(n + NEWVERSION));
    Write(m1, StrPtr(n), m1[StrPtr(cap)..StrPtr(cap) + len])
  }

  lemma MoveBytes(m: Bytes, cap: nat, done: seq<Pair>, i: nat)
    requires |done| <= cap && StrPtr(cap) + Length(done) <= |m| && |done| < TWO32 - NEWVERSION && i < |done|
    requires BytesAt(m, StrPtr(cap), done, i)
    ensures BytesAt(Moved(m, cap, |done|, Length(done)), StrPtr(|done|), done, i)
  {
    hide WordBytes, LengthTo, Write, PairBytes;
    LengthGrows(done, i + 1, |done|);
    PairWithin(done, i);
    var from, to, len := StrPtr(cap), StrPtr(|done|), Length(done);
    var lo, hi := LengthTo(done, i), LengthTo(done, i) + |PairBytes(done[i])|;
    var m1 := Write(m, 4, WordBytes(|done| + NEWVERSION));
    var m' := Moved(m, cap, |done|, len);
    SliceWritten(m1, to, m1[from..from + len]);
    SliceElsewhere(m, 4, WordBytes(|done| + NEWVERSION), from, from + len);
    SubSlice(m', to, len, lo, hi);
    SubSlice(m, from, len, lo, hi);
  }

  lemma SubSlice(m: Bytes, at: nat, len: nat, lo: nat, hi: nat)
    requires lo <= hi <= len && at + len <= |m|
    ensures m[at..at + len][lo..hi] == m[at + lo..at + hi]
  {
    var a := m[at..at + len];
    forall k | 0 <= k < hi - lo
      ensures a[lo..hi][k] == m[at + lo..at + hi][k]
    {
      assert a[lo + k] == m[at + lo + k];
    }
  }

  lemma MoveEntries(m: Bytes, cap: nat, done: seq<Pair>, i: nat)
    requires |done| <= cap && StrPtr(cap) + Length(done) <= |m| && |done| < TWO32 - NEWVERSION && i < |done|
    requires EntriesAt(m, done, i, true)
    ensures EntriesAt(Moved(m, cap, |done|, Length(done)), done, i, true)
  {
    hide WordBytes, Word, LengthTo;
    var m1 := Write(m, 4, WordBytes(|done| + NEWVERSION));
    var b := m1[StrPtr(cap)..StrPtr(cap) + Length(done)];
    var e := HEADER + 8 * i;
    WordElsewhere(m, 4, WordBytes(|done| + NEWVERSION), e);
    WordElsewhere(m, 4, WordBytes(|done| + NEWVERSION), e + 4);
    WordElsewhere(m1, StrPtr(|done|), b, e);
    WordElsewhere(m1, StrPtr(|done|), b, e + 4);
  }

  lemma MoveLays(m: Bytes, cap: nat, done: seq<Pair>)
    requires Laid(m, StrPtr(cap), done) && |done| <= cap && |done| < TWO32 - NEWVERSION
    requires StrPtr(cap) + Length(done) <= |m|
    ensures Laid(Moved(m, cap, |done|, Length(done)), StrPtr(|done|), done)
    ensures Word(Moved(m, cap, |done|, Length(done)), 4) == |done| + NEWVERSION
  {
    hide EntriesAt, BytesAt, Word, WordBytes, LengthTo;
    var m1 := Write(m, 4, WordBytes(|done| + NEWVERSION));
    WordWritten(m, 4, |done| + NEWVERSION);
    WordElsewhere(m1, StrPtr(|done|), m1[StrPtr(cap)..StrPtr(cap) + Length(done)], 4);
    forall i | 0 <= i < |done|
      ensures EntriesAt(Moved(m, cap, |done|, Length(done)), done, i, true)
      ensures BytesAt(Moved(m, cap, |done|, Length(done)), StrPtr(|done|), done, i)
    {
      MoveEntries(m, cap, done, i);
      MoveBytes(m, cap, done, i);
    }
  }

  lemma SizePair(m: Bytes, done: seq<Pair>, i: nat, w: nat)
    requires i < |done| && w < TWO32 && |m| >= HEADER
    requires EntriesAt(m, done, i, true) && BytesAt(m, StrPtr(|done|), done, i)
    ensures EntriesAt(Write(m, 0, WordBytes(w)), done, i, true)
    ensures BytesAt(Write(m, 0, WordBytes(w)), StrPtr(|done|), done, i)
  {
    hide WordBytes;
  }

  /** Setting the length completes the encoding. */
  lemma SizeEncodes(m: Bytes, done: seq<Pair>)
    requires Laid(m, StrPtr(|done|), done) && Fits(done) && Size(done) <= |m| && Word(m, 4) == |done| + NEWVERSION
    ensures Encodes(Write(m, 0, WordBytes(4 * Size(done) % TWO32)), done)
  {
    hide EntriesAt, BytesAt, Word, WordBytes, LengthTo;
    var w := 4 * Size(done) % TWO32;
    WordWritten(m, 0, w);
    WordElsewhere(m, 0, WordBytes(w), 4);
    forall i | 0 <= i < |done|
      ensures EntriesAt(Write(m, 0, WordBytes(w)), done, i, true)
      ensures BytesAt(Write(m, 0, WordBytes(w)), StrPtr(|done|), done, i)
    {
      SizePair(m, done, i, w);
    }
  }

  // ------------------------------------------------------------------- builder

  method MemCpy(mem: array<Byte>, at: nat, b: Bytes)
    requires at + |b| <= mem.Length
    modifies mem
    ensures mem[..] == Write(old(mem[..]), at, b)
  {
    for i := 0 to |b|
      invariant forall k :: 0 <= k < mem.Length ==> mem[k] == if at <= k < at + i then b[k - at] else old(mem[k])
    {
      mem[at + i] := b[i];
    }
  }

  method PutWord(mem: array<Byte>, at: nat, w: nat)
    requires at + 4 <= mem.Length && w < TWO32
    modifies mem
    ensures mem[..] == Write(old(mem[..]), at, WordBytes(w))
  {
    MemCpy(mem, at, WordBytes(w));
  }

  /** Copy within one memory, towards lower addresses; the regions may overlap. */
  method MemMove(mem: array<Byte>, to: nat, from: nat, len: nat)
    requires to <= from && from + len <= mem.Length
    modifies mem
    ensures mem[..] == Write(old(mem[..]), to, old(mem[..])[from..from + len])
  {
    ghost var was := mem[..];
    for i := 0 to len
      invariant forall k :: to <= k < to + i ==> mem[k] == was[from - to + k]
      invariant forall k :: 0 <= k < mem.Length && !(to <= k < to + i) ==> mem[k] == was[k]
    {
      assert mem[from + i] == was[from + i];
      mem[to + i] := mem[from + i];
    }
    ghost var moved := was[from..from + len];
    forall k | 0 <= k < mem.Length
      ensures mem[k] == Write(was, to, moved)[k]
    {
      if to <= k < to + len {
        assert moved[k - to] == was[from - to + k];
      }
    }
  }

  /** A packed hstore under construction: memory, and where the next entry and the next bytes go. */
  class Builder {
    const mem: array<Byte>
    const cap: nat
    var dent: nat
    var dptr: nat
    ghost var done: seq<Pair>

    ghost predicate Valid()
      reads this, mem
    {
      && cap <= COUNTMASK && StrPtr(cap) <= mem.Length && Length(done) <= POSMASK
      && Building(mem[..], cap, done) && Word(mem[..], 4) == cap + NEWVERSION
      && dent == HEADER + 8 * |done| && dptr == StrPtr(cap) + Length(done)
    }

    /** Memory for `cap` pairs and `buflen` bytes of strings. */
    constructor (count: nat, buflen: nat)
      requires count <= COUNTMASK
      ensures Valid() && fresh(mem) && cap == count && done == [] && mem.Length == StrPtr(count) + buflen
    {
      cap, dent, dptr, done := count, HEADER, StrPtr(count), [];
      mem := new Byte[StrPtr(count) + buflen](_ => 0);
      new;
      PutWord(mem, 4, count + NEWVERSION);
      WordWritten(mem[..], 4, count + NEWVERSION);
    }

    /** Add one pair after those before it. */
    method AddItem(p: Pair)
      requires Valid() && |done| < cap && dptr + |PairBytes(p)| <= mem.Length
      requires Length(done) + |PairBytes(p)| <= POSMASK
      modifies this`dent, this`dptr, this`done, mem
      ensures Valid() && done == old(done) + [p]
    {
      hide Building, Word, WordBytes, Length, Write, PairBytes;
      ghost var was := mem[..];
      PairLength(p);
      WithinMask(Length(done) + |p.key|);
      WithinMask(Length(done) + |PairBytes(p)|);
      MemCpy(mem, dptr, p.key);
      dptr := dptr + |p.key|;
      PutWord(mem, dent, (dptr - StrPtr(cap)) % (POSMASK + 1));
      dent := dent + 4;
      if p.value.Null? {
        NothingWritten(mem[..], dptr);
        PutWord(mem, dent, (dptr - StrPtr(cap)) % (POSMASK + 1) + ISNULL);
        dent := dent + 4;
      } else {
        MemCpy(mem, dptr, p.value.bytes);
        dptr := dptr + |p.value.bytes|;
        PutWord(mem, dent, (dptr - StrPtr(cap)) % (POSMASK + 1));
        dent := dent + 4;
      }
      Placed(was, mem[..], p);
    }

    /** Copy a pair whose bytes lie together in another memory. */
    method CopyItem(src: array<Byte>, sptr: nat, klen: nat, vlen: nat, vnull: bool, ghost p: Pair)
      requires Valid() && src != mem && |done| < cap && dptr + klen + vlen <= mem.Length
      requires sptr + klen + vlen <= src.Length && src[sptr..sptr + klen + vlen] == PairBytes(p)
      requires klen == |p.key| && vlen == |ValueBytes(p.value)| && vnull == p.value.Null?
      requires Length(done) + klen + vlen <= POSMASK
      modifies this`dent, this`dptr, this`done, mem
      ensures Valid() && done == old(done) + [p]
    {
      hide Building, Word, WordBytes, LengthTo, Added, Write;
      ghost var was := mem[..];
      MemCpy(mem, dptr, src[sptr..sptr + klen + vlen]);
      dptr := dptr + klen + vlen;
      PutWord(mem, dent, (dptr - StrPtr(cap) - vlen) % (POSMASK + 1));
      dent := dent + 4;
      PutWord(mem, dent, (dptr - StrPtr(cap)) % (POSMASK + 1) + if vnull then ISNULL else 0);
      dent := dent + 4;
      CopiedIsAdded(was, cap, done, p);
      Placed(was, mem[..], p);
    }

    /** Whatever wrote the pair's bytes and entries, the construction goes on. */
    ghost method Placed(was: Bytes, now: Bytes, p: Pair)
      requires cap <= COUNTMASK && |done| < cap && StrPtr(cap) + Length(done) + |PairBytes(p)| <= |was|
      requires Building(was, cap, done) && Word(was, 4) == cap + NEWVERSION
      requires Length(done) + |PairBytes(p)| <= POSMASK && now == Added(was, cap, done, p) && now == mem[..]
      requires dent == HEADER + 8 * |done| + 8 && dptr == StrPtr(cap) + Length(done) + |PairBytes(p)|
      modifies this`done
      ensures Valid() && done == old(done) + [p]
    {
      hide Added;
      AddedBuilds(was, cap, done, p);
      AddedElsewhere(was, cap, done, p);
      LengthPush(done, p);
      done := done + [p];
    }

    /** Finish with the pairs so far: mark the first entry, close the gap left by pairs not kept, set the length. */
    method Finalize(count: nat)
      requires Valid() && count == |done|
      modifies mem
      ensures Encodes(mem[..], done)
    {
      hide Building, Laid, Word, WordBytes, LengthTo, Encodes;
      var buflen := dptr - StrPtr(cap);
      BuildingBounds(mem[..], cap, done);
      MarkFirst(count);
      CloseGap(count, buflen);
      ghost var m := mem[..];
      PutWord(mem, 0, 4 * (StrPtr(count) + buflen) % TWO32);
      SizeEncodes(m, done);
    }

    method MarkFirst(count: nat)
      requires Valid() && count == |done|
      modifies mem
      ensures Laid(mem[..], StrPtr(cap), done) && Word(mem[..], 4) == cap + NEWVERSION && Count(mem[..]) == cap
    {
      hide Building, Laid, Word, WordBytes, LengthTo, IsFirst;
      ghost var m := mem[..];
      if count != 0 {
        FirstWord(m, cap, done);
        var first := Word(mem[..], HEADER);
        NotFirst(first);
        PutWord(mem, HEADER, SetFirst(first));
      }
      MarkLays(m, cap, done);
      SameCount(m, mem[..], cap);
    }

    /** Move the strings down if fewer pairs were kept than there was room for. */
    method CloseGap(count: nat, buflen: nat)
      requires cap <= COUNTMASK && count == |done| <= cap
      requires buflen == Length(done) && StrPtr(cap) + buflen <= mem.Length
      requires Laid(mem[..], StrPtr(cap), done) && Word(mem[..], 4) == cap + NEWVERSION && Count(mem[..]) == cap
      modifies mem
      ensures Laid(mem[..], StrPtr(count), done) && Word(mem[..], 4) == count + NEWVERSION
    {
      hide Laid, Word, WordBytes, LengthTo, Count, Write;
      if count != Count(mem[..]) {
        ghost var m := mem[..];
        PutWord(mem, 4, count + NEWVERSION);
        MemMove(mem, StrPtr(count), StrPtr(cap), buflen);
        assert mem[..] == Moved(m, cap, |done|, Length(done));
        MoveLays(m, cap, done);
      }
    }
  }

  /** Copying key and value at once leaves the same memory as adding them one after the other. */
  lemma CopiedIsAdded(m: Bytes, cap: nat, done: seq<Pair>, p: Pair)
    requires |done| < cap && StrPtr(cap) + Length(done) + |PairBytes(p)| <= |m|
    requires Length(done) + |PairBytes(p)| <= POSMASK
    ensures var d, e := StrPtr(cap) + Length(done), HEADER + 8 * |done|;
            var k := Length(done) + |p.key|;
            var v := Length(done) + |PairBytes(p)| + if p.value.Null? then ISNULL else 0;
            Write(Write(Write(m, d, PairBytes(p)), e, WordBytes(k)), e + 4, WordBytes(v)) == Added(m, cap, done, p)
  {
    hide WordBytes, LengthTo;
  }

  lemma NothingWritten(m: Bytes, at: nat)
    requires at <= |m|
    ensures Write(m, at, []) == m
  {
  }

  lemma PairLength(p: Pair)
    ensures |PairBytes(p)| == |p.key| + |ValueBytes(p.value)|
  {
  }

  lemma WithinMask(x: nat)
    requires x <= POSMASK
    ensures x % (POSMASK + 1) == x
  {
  }

  lemma NotFirst(e: nat)
    requires e <= POSMASK
    ensures !IsFirst(e) && SetFirst(e) == e + ISFIRST < TWO32
  {
  }

  lemma SameCount(m: Bytes, m': Bytes, cap: nat)
    requires Agree(m, m', 0, HEADER) && Word(m, 4) == cap + NEWVERSION && cap <= COUNTMASK
    ensures Word(m', 4) == cap + NEWVERSION && Count(m') == cap
  {
  }
}
