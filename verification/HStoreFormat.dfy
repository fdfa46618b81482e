/**
 * The packed form of an hstore: a header, two 32-bit entries per pair that hold
 * end positions and flag bits, then all keys and values end to end.
 */
module HStoreFormat {
  type Byte = b: int | 0 <= b < 256
  type Bytes = seq<Byte>

  const TWO32 := 0x1_0000_0000
  const ISFIRST := 0x8000_0000
  const ISNULL := 0x4000_0000
  const POSMASK := 0x3FFF_FFFF
  const NEWVERSION := 0x8000_0000
  const COUNTMASK := 0x0FFF_FFFF
  const HEADER := 8

  datatype Value = Null | Text(bytes: Bytes)

  datatype Pair = Pair(key: Bytes, value: Value)

  // ------------------------------------------------------------------- memory

  /** The little-endian word at a position. */
  function Word(m: Bytes, at: nat): (w: nat)
    requires at + 4 <= |m|
    ensures w < TWO32
  {
    m[at] as int + 256 * (m[at + 1] as int) + 65536 * (m[at + 2] as int) + 16777216 * (m[at + 3] as int)
  }

  function WordBytes(w: nat): (b: Bytes)
    requires w < TWO32
    ensures |b| == 4 && Word(b, 0) == w
  {
    var q := w / 256;
    var r := q / 256;
    [w % 256, q % 256, r % 256, r / 256]
  }

  /** Memory with some bytes overwritten. */
  function Write(m: Bytes, at: nat, b: Bytes): (r: Bytes)
    requires at + |b| <= |m|
    ensures |r| == |m| && forall i :: 0 <= i < |m| ==> r[i] == if at <= i < at + |b| then b[i - at] else m[i]
  {
    seq(|m|, i requires 0 <= i < |m| => if at <= i < at + |b| then b[i - at] else m[i])
  }

  lemma WordWritten(m: Bytes, at: nat, w: nat)
    requires at + 4 <= |m| && w < TWO32
    ensures Word(Write(m, at, WordBytes(w)), at) == w
  {
    var r, b := Write(m, at, WordBytes(w)), WordBytes(w);
    assert r[at] == b[0] && r[at + 1] == b[1] && r[at + 2] == b[2] && r[at + 3] == b[3];
  }

  lemma WordElsewhere(m: Bytes, at: nat, b: Bytes, p: nat)
    requires at + |b| <= |m| && p + 4 <= |m| && (p + 4 <= at || at + |b| <= p)
    ensures Word(Write(m, at, b), p) == Word(m, p)
  {
  }

  lemma SliceElsewhere(m: Bytes, at: nat, b: Bytes, lo: nat, hi: nat)
    requires at + |b| <= |m| && lo <= hi <= |m| && (hi <= at || at + |b| <= lo)
    ensures Write(m, at, b)[lo..hi] == m[lo..hi]
  {
  }

  lemma SliceWritten(m: Bytes, at: nat, b: Bytes)
    requires at + |b| <= |m|
    ensures Write(m, at, b)[at..at + |b|] == b
  {
  }

  // ----------------------------------------------------------------- encoding

  function ValueBytes(v: Value): Bytes {
    if v.Null? then [] else v.bytes
  }

  function PairBytes(p: Pair): Bytes {
    p.key + ValueBytes(p.value)
  }

  /** Length of the first n pairs' bytes. */
  function LengthTo(pairs: seq<Pair>, n: nat): nat
    requires n <= |pairs|
  {
    if n == 0 then 0 else LengthTo(pairs, n - 1) + |PairBytes(pairs[n - 1])|
  }

  function Length(pairs: seq<Pair>): nat {
    LengthTo(pairs, |pairs|)
  }

  /** Pair i's bytes are where they should be. */
  ghost predicate BytesAt(m: Bytes, base: nat, pairs: seq<Pair>, i: nat)
    requires i < |pairs|
  {
    var lo := base + LengthTo(pairs, i);
    lo + |PairBytes(pairs[i])| <= |m| && m[lo..lo + |PairBytes(pairs[i])|] == PairBytes(pairs[i])
  }

  /** The two entries of pair i: where its key ends, and where its value ends and whether it is null. */
  function KeyEntry(pairs: seq<Pair>, i: nat): nat
    requires i < |pairs|
  {
    LengthTo(pairs, i) + |pairs[i].key|
  }

  function ValueEntry(pairs: seq<Pair>, i: nat): nat
    requires i < |pairs|
  {
    LengthTo(pairs, i + 1) + if pairs[i].value.Null? then ISNULL else 0
  }

  /** The entries of pair i are written; `first` says whether the very first has been marked. */
  ghost predicate EntriesAt(m: Bytes, pairs: seq<Pair>, i: nat, first: bool)
    requires i < |pairs|
  {
    && HEADER + 8 * i + 8 <= |m|
    && Word(m, HEADER + 8 * i) == KeyEntry(pairs, i) + (if first && i == 0 then ISFIRST else 0)
    && Word(m, HEADER + 8 * i + 4) == ValueEntry(pairs, i)
  }

  function StrPtr(count: nat): nat {
    HEADER + 8 * count
  }

  function Size(pairs: seq<Pair>): nat {
    StrPtr(|pairs|) + Length(pairs)
  }

  /** The pairs fit: positions the mask, their number the count field. */
  predicate Fits(pairs: seq<Pair>) {
    Length(pairs) <= POSMASK && |pairs| <= COUNTMASK
  }

  /** The memory begins with the packed form of the pairs. */
  ghost predicate Encodes(m: Bytes, pairs: seq<Pair>) {
    && Fits(pairs) && Size(pairs) <= |m|
    && Word(m, 0) == 4 * Size(pairs) % TWO32 && Word(m, 4) == |pairs| + NEWVERSION
    && (forall i :: 0 <= i < |pairs| ==> EntriesAt(m, pairs, i, true) && BytesAt(m, StrPtr(|pairs|), pairs, i))
  }

  // ----------------------------------------------------------------- decoding

  function Count(m: Bytes): nat
    requires |m| >= HEADER
  {
    Word(m, 4) % (COUNTMASK + 1)
  }

  /** Entry number j, taken apart. */
  function Entry(m: Bytes, j: nat): nat
    requires HEADER + 4 * j + 4 <= |m|
  {
    Word(m, HEADER + 4 * j)
  }

  predicate IsFirst(e: nat) {
    e / ISFIRST % 2 == 1
  }

  predicate IsNull(e: nat) {
    e / ISNULL % 2 == 1
  }

  function EndPos(e: nat): nat {
    e % (POSMASK + 1)
  }

  /** The very first entry carries the flag that says nothing precedes it. */
  predicate Marked(m: Bytes, j: nat)
    requires HEADER + 4 * j + 4 <= |m|
  {
    j == 0 ==> IsFirst(Entry(m, 0))
  }

  function Offset(m: Bytes, j: nat): nat
    requires HEADER + 4 * j + 4 <= |m| && Marked(m, j)
  {
    if IsFirst(Entry(m, j)) then 0 else EndPos(Entry(m, j - 1))
  }

  function Len(m: Bytes, j: nat): int
    requires HEADER + 4 * j + 4 <= |m| && Marked(m, j)
  {
    if IsFirst(Entry(m, j)) then EndPos(Entry(m, j)) else EndPos(Entry(m, j)) - EndPos(Entry(m, j - 1))
  }

  /** The bytes entry j delimits are in memory. */
  predicate InMemory(m: Bytes, j: nat) {
    && |m| >= HEADER && HEADER + 4 * j + 4 <= |m| && Marked(m, j)
    && Len(m, j) >= 0 && StrPtr(Count(m)) + Offset(m, j) + Len(m, j) <= |m|
  }

  function EntryBytes(m: Bytes, j: nat): Bytes
    requires InMemory(m, j)
  {
    m[StrPtr(Count(m)) + Offset(m, j)..StrPtr(Count(m)) + Offset(m, j) + Len(m, j)]
  }

  /** Pair i as the reader macros give it. */
  function Read(m: Bytes, i: nat): Pair
    requires InMemory(m, 2 * i) && InMemory(m, 2 * i + 1)
  {
    Pair(EntryBytes(m, 2 * i), if IsNull(Entry(m, 2 * i + 1)) then Null else Text(EntryBytes(m, 2 * i + 1)))
  }

  predicate Parsable(m: Bytes) {
    |m| >= HEADER && forall i :: 0 <= i < Count(m) ==> InMemory(m, 2 * i) && InMemory(m, 2 * i + 1)
  }

  function Decode(m: Bytes): seq<Pair>
    requires Parsable(m)
  {
    seq(Count(m), i requires 0 <= i < Count(m) => Read(m, i))
  }

  lemma {:induction false} LengthGrows(pairs: seq<Pair>, i: nat, n: nat)
    requires i <= n <= |pairs|
    ensures LengthTo(pairs, i) <= LengthTo(pairs, n)
  {
    if i >= n {
    } else {
      LengthGrows(pairs, i, n - 1);
    }
  }

  lemma PairWithin(pairs: seq<Pair>, i: nat)
    requires i < |pairs|
    ensures LengthTo(pairs, i + 1) == LengthTo(pairs, i) + |PairBytes(pairs[i])|
  {
  }

  lemma KeyWithin(pairs: seq<Pair>, i: nat)
    requires i < |pairs|
    ensures KeyEntry(pairs, i) <= LengthTo(pairs, i + 1)
  {
  }

  /** What the flags and positions of an entry read back as. */
  lemma EntryParts(pos: nat, isNull: bool, isFirst: bool)
    requires pos <= POSMASK
    ensures var e := pos + (if isNull then ISNULL else 0) + (if isFirst then ISFIRST else 0);
            EndPos(e) == pos && IsNull(e) == isNull && IsFirst(e) == isFirst
  {
  }

  lemma ReadEntries(m: Bytes, pairs: seq<Pair>, i: nat)
    requires Encodes(m, pairs) && i < |pairs|
    ensures EndPos(Entry(m, 2 * i)) == KeyEntry(pairs, i) && IsFirst(Entry(m, 2 * i)) == (i == 0)
    ensures EndPos(Entry(m, 2 * i + 1)) == LengthTo(pairs, i + 1) && !IsFirst(Entry(m, 2 * i + 1))
    ensures IsNull(Entry(m, 2 * i + 1)) == pairs[i].value.Null?
    ensures LengthTo(pairs, i + 1) <= Length(pairs)
  {
    hide EndPos, IsNull, IsFirst, Word, LengthTo, BytesAt;
    assert EntriesAt(m, pairs, i, true);
    assert HEADER + 4 * (2 * i) == HEADER + 8 * i && HEADER + 4 * (2 * i + 1) == HEADER + 8 * i + 4;
    LengthGrows(pairs, i + 1, |pairs|);
    KeyWithin(pairs, i);
    EntryParts(KeyEntry(pairs, i), false, i == 0);
    EntryParts(LengthTo(pairs, i + 1), pairs[i].value.Null?, false);
  }

  lemma EncodesAt(m: Bytes, pairs: seq<Pair>, i: nat)
    requires Encodes(m, pairs) && i < |pairs|
    ensures HEADER + 8 * i + 8 <= |m| && BytesAt(m, StrPtr(|pairs|), pairs, i)
  {
    assert EntriesAt(m, pairs, i, true);
  }

  /** Where the reader finds the key and value of pair i. */
  lemma Positions(m: Bytes, pairs: seq<Pair>, i: nat)
    requires Encodes(m, pairs) && i < |pairs|
    ensures HEADER + 8 * i + 8 <= |m| && Marked(m, 2 * i) && Marked(m, 2 * i + 1)
    ensures Offset(m, 2 * i) == LengthTo(pairs, i) && Len(m, 2 * i) == |pairs[i].key|
    ensures Offset(m, 2 * i + 1) == LengthTo(pairs, i) + |pairs[i].key|
    ensures Len(m, 2 * i + 1) == |ValueBytes(pairs[i].value)|
  {
    hide Encodes, EndPos, IsNull, IsFirst, Word, Entry, LengthTo;
    EncodesAt(m, pairs, i);
    ReadEntries(m, pairs, i);
    PairWithin(pairs, i);
    if i > 0 {
      ReadEntries(m, pairs, i - 1);
      assert 2 * i - 1 == 2 * (i - 1) + 1;
    } else {
      NoLength(pairs);
    }
  }

  lemma NoLength(pairs: seq<Pair>)
    ensures LengthTo(pairs, 0) == 0
  {
  }

  /** The reader gives back pair i. */
  lemma ReadsBack(m: Bytes, pairs: seq<Pair>, i: nat)
    requires Encodes(m, pairs) && i < |pairs|
    ensures Count(m) == |pairs| && InMemory(m, 2 * i) && InMemory(m, 2 * i + 1) && Read(m, i) == pairs[i]
  {
    hide Encodes, EndPos, IsNull, IsFirst, Word, Entry, Offset, Len, Marked, LengthTo, Count;
    ReadEntries(m, pairs, i);
    Positions(m, pairs, i);
    CountReads(m, pairs);
    EncodesAt(m, pairs, i);
    BytesSplit(m, StrPtr(|pairs|) + LengthTo(pairs, i), pairs[i]);
  }

  lemma BytesSplit(m: Bytes, lo: nat, p: Pair)
    requires lo + |PairBytes(p)| <= |m| && m[lo..lo + |PairBytes(p)|] == PairBytes(p)
    ensures lo + |p.key| + |ValueBytes(p.value)| == lo + |PairBytes(p)| && m[lo..lo + |p.key|] == p.key
    ensures m[lo + |p.key|..lo + |p.key| + |ValueBytes(p.value)|] == ValueBytes(p.value)
  {
    var k, n := |p.key|, |PairBytes(p)|;
    assert m[lo..lo + k] == m[lo..lo + n][..k];
    assert m[lo + k..lo + n] == m[lo..lo + n][k..];
  }

  lemma CountReads(m: Bytes, pairs: seq<Pair>)
    requires Encodes(m, pairs)
    ensures |m| >= HEADER && Count(m) == |pairs|
  {
  }

  /** Reading a packed hstore gives back its pairs: keys, values and nulls. */
  lemma RoundTrip(m: Bytes, pairs: seq<Pair>)
    requires Encodes(m, pairs)
    ensures Parsable(m) && Decode(m) == pairs
  {
    hide InMemory, Encodes, Read;
    CountReads(m, pairs);
    forall i | 0 <= i < |pairs|
      ensures InMemory(m, 2 * i) && InMemory(m, 2 * i + 1) && Read(m, i) == pairs[i]
    {
      ReadsBack(m, pairs, i);
    }
  }

  // --------------------------------------------------------------- uniqueness

  lemma SameWord(m: Bytes, m': Bytes, at: nat)
    requires at + 4 <= |m| && at + 4 <= |m'| && Word(m, at) == Word(m', at)
    ensures m[at..at + 4] == m'[at..at + 4]
  {
    var a, b, c, d := m[at] as int, m[at + 1] as int, m[at + 2] as int, m[at + 3] as int;
    var a', b', c', d' := m'[at] as int, m'[at + 1] as int, m'[at + 2] as int, m'[at + 3] as int;
    Digit(a, a', b + 256 * c + 65536 * d, b' + 256 * c' + 65536 * d');
    Digit(b, b', c + 256 * d, c' + 256 * d');
    Digit(c, c', d, d');
  }

  lemma Digit(a: int, a': int, q: int, q': int)
    requires 0 <= a < 256 && 0 <= a' < 256 && a + 256 * q == a' + 256 * q'
    ensures a == a' && q == q'
  {
  }

  /** Which pair a string byte belongs to. */
  lemma {:induction false} Locate(pairs: seq<Pair>, n: nat, k: nat) returns (i: nat)
    requires n <= |pairs| && k < LengthTo(pairs, n)
    ensures i < n && LengthTo(pairs, i) <= k < LengthTo(pairs, i + 1)
  {
    if k >= LengthTo(pairs, n - 1) {
      i := n - 1;
    } else {
      i := Locate(pairs, n - 1, k);
    }
  }

  lemma SameString(m: Bytes, m': Bytes, pairs: seq<Pair>, k: nat)
    requires Encodes(m, pairs) && Encodes(m', pairs) && k < Length(pairs)
    ensures m[StrPtr(|pairs|) + k] == m'[StrPtr(|pairs|) + k]
  {
    hide Encodes, Word, LengthTo;
    var i := Locate(pairs, |pairs|, k);
    EncodesAt(m, pairs, i);
    EncodesAt(m', pairs, i);
    PairWithin(pairs, i);
    var lo, n := StrPtr(|pairs|) + LengthTo(pairs, i), |PairBytes(pairs[i])|;
    assert m[lo..lo + n][k - LengthTo(pairs, i)] == m'[lo..lo + n][k - LengthTo(pairs, i)];
  }

  lemma SameEntries(m: Bytes, m': Bytes, pairs: seq<Pair>, i: nat)
    requires Encodes(m, pairs) && Encodes(m', pairs) && i < |pairs|
    ensures HEADER + 8 * i + 8 <= |m| && HEADER + 8 * i + 8 <= |m'|
    ensures m[HEADER + 8 * i..HEADER + 8 * i + 8] == m'[HEADER + 8 * i..HEADER + 8 * i + 8]
  {
    hide Word, LengthTo, BytesAt;
    assert EntriesAt(m, pairs, i, true) && EntriesAt(m', pairs, i, true);
    var e := HEADER + 8 * i;
    SameWord(m, m', e);
    SameWord(m, m', e + 4);
    assert m[e..e + 8] == m[e..e + 4] + m[e + 4..e + 8];
    assert m'[e..e + 8] == m'[e..e + 4] + m'[e + 4..e + 8];
  }

  lemma SameByte(m: Bytes, m': Bytes, pairs: seq<Pair>, k: nat)
    requires Encodes(m, pairs) && Encodes(m', pairs) && k < Size(pairs)
    ensures m[k] == m'[k]
  {
    hide EntriesAt, BytesAt, LengthTo, Word;
    if k < HEADER {
      SameWord(m, m', 0);
      SameWord(m, m', 4);
      assert m[k] == if k < 4 then m[0..4][k] else m[4..8][k - 4];
      assert m'[k] == if k < 4 then m'[0..4][k] else m'[4..8][k - 4];
    } else if k < StrPtr(|pairs|) {
      var i := (k - HEADER) / 8;
      SameEntries(m, m', pairs, i);
      var e := HEADER + 8 * i;
      assert m[k] == m[e..e + 8][k - e] && m'[k] == m'[e..e + 8][k - e];
    } else {
      SameString(m, m', pairs, k - StrPtr(|pairs|));
    }
  }

  /** A list of pairs has one packed form. */
  lemma EncodingIsUnique(m: Bytes, m': Bytes, pairs: seq<Pair>)
    requires Encodes(m, pairs) && Encodes(m', pairs)
    ensures m[..Size(pairs)] == m'[..Size(pairs)]
  {
    forall k | 0 <= k < Size(pairs)
      ensures m[k] == m'[k]
    {
      SameByte(m, m', pairs, k);
    }
  }

  /** Two pairs, a=>bc and d=>NULL, and the same in memory. */
  function TwoPairs(): seq<Pair> {
    [Pair([97], Text([98, 99])), Pair([100], Null)]
  }

  function TwoPairsPacked(): Bytes {
    [112, 0, 0, 0, 2, 0, 0, 128, 1, 0, 0, 128, 3, 0, 0, 0, 4, 0, 0, 0, 4, 0, 0, 64, 97, 98, 99, 100]
  }

  lemma TwoPairsLengths()
    ensures PairBytes(TwoPairs()[0]) == [97, 98, 99] && PairBytes(TwoPairs()[1]) == [100]
    ensures LengthTo(TwoPairs(), 0) == 0 && LengthTo(TwoPairs(), 1) == 3 && LengthTo(TwoPairs(), 2) == 4
  {
    assert PairBytes(TwoPairs()[0]) == [97, 98, 99] && PairBytes(TwoPairs()[1]) == [100];
  }

  lemma TwoPairsEntries()
    ensures EntriesAt(TwoPairsPacked(), TwoPairs(), 0, true) && EntriesAt(TwoPairsPacked(), TwoPairs(), 1, true)
  {
    hide LengthTo, PairBytes;
    TwoPairsLengths();
  }

  lemma TwoPairsBytes()
    ensures BytesAt(TwoPairsPacked(), 24, TwoPairs(), 0) && BytesAt(TwoPairsPacked(), 24, TwoPairs(), 1)
  {
    hide LengthTo, PairBytes;
    TwoPairsLengths();
    assert TwoPairsPacked()[24..27] == [97, 98, 99] && TwoPairsPacked()[27..28] == [100];
  }

  /** The layout on one example, byte by byte: sizes, count, end positions, flags and strings. */
  lemma TwoPairsEncode()
    ensures Encodes(TwoPairsPacked(), TwoPairs()) && Size(TwoPairs()) == |TwoPairsPacked()|
  {
    hide LengthTo, PairBytes, EntriesAt, BytesAt;
    TwoPairsLengths();
    TwoPairsEntries();
    TwoPairsBytes();
  }
}
