/**
 * Signatures of bloom index tuples: the Park-Miller generator that picks bit
 * positions, the words it sets, and the inclusion test of a scan.
 */
module BloomSignature {
  import opened CInt
  import opened SignWord

  const MODULUS: int := 0x7fff_ffff
  const MULTIPLIER: int := 16807
  const SIGNWORDBITS: int := 16
  const MAX_BLOOM_WORDS: int := 256

  datatype Option<T> = None | Some(value: T)

  /** Signature length in words and bits per column, as frozen in the metapage. */
  datatype Options = Options(bloomLength: nat, bitSize: seq<nat>) {
    ghost predicate Valid() {
      1 <= bloomLength <= MAX_BLOOM_WORDS && |bitSize| <= 32
    }
  }

  // ---------------------------------------------------------------- generator

  /** One step of the multiplicative generator, as arithmetic. */
  function NextState(state: int): (r: int)
    ensures 0 <= r < MODULUS
  {
    MULTIPLIER * state % MODULUS
  }

  function States(state: int, k: nat): int {
    if k == 0 then state else NextState(States(state, k - 1))
  }

  /** The state that seeding leaves: a signed conversion, C's remainder, plus one. */
  function Seeded(seed: int): (r: int)
    requires IsUint32(seed)
    ensures -MODULUS < r < MODULUS
  {
    Rem(ToInt32(seed), 0x7fff_fffe) + 1
  }

  /** Exactly two seeds leave the generator in its absorbing state 0. */
  predicate LiveSeed(seed: int) {
    seed != 0x8000_0001 && seed != 0xffff_ffff
  }

  lemma SeededNonzeroIff(seed: int)
    requires IsUint32(seed)
    ensures Seeded(seed) != 0 <==> LiveSeed(seed)
  {
    if seed >= TWO31 {
      assert ToInt32(seed) == seed - TWO32;
    }
  }

  // 16807 is invertible: 16807 * 1407677000 == 1 + 11017 * MODULUS.
  lemma NextNonzero(state: int)
    requires -MODULUS < state < MODULUS && state != 0
    ensures NextState(state) != 0
  {
    var k := MULTIPLIER * state / MODULUS;
    assert MULTIPLIER * state == k * MODULUS + NextState(state);
    assert state == MODULUS * (1407677000 * k - 11017 * state) + 1407677000 * NextState(state);
  }

  lemma {:induction false} StatesNonzero(state: int, k: nat)
    requires -MODULUS < state < MODULUS && state != 0
    ensures -MODULUS < States(state, k) < MODULUS && States(state, k) != 0
    ensures k > 0 ==> 1 <= States(state, k) <= MODULUS - 1
  {
    if k == 0 {
    } else {
      StatesNonzero(state, k - 1);
      NextNonzero(States(state, k - 1));
    }
  }

  lemma {:induction false} StatesFromZero(k: nat)
    ensures States(0, k) == 0
  {
    if k == 0 {
    } else {
      StatesFromZero(k - 1);
    }
  }

  /** The module's static generator state and its two operations. */
  class Generator {
    var next: int

    constructor ()
      ensures next == 0
    {
      next := 0;
    }

    method Srand(seed: int)
      requires IsUint32(seed)
      modifies this
      ensures next == Seeded(seed)
    {
      next := ToInt32(seed);
      next := Rem(next, 0x7fff_fffe) + 1;
    }

    /** Schrage's form of the step; no intermediate leaves the int32 range. */
    method Rand() returns (r: int)
      requires -MODULUS < next < MODULUS
      modifies this
      ensures next == NextState(old(next)) && r == next - 1
      ensures old(next) != 0 ==> 0 <= r <= MODULUS - 2
      ensures old(next) == 0 ==> r == -1
    {
      NextNonzeroUnlessZero(next);
      var hi := Quot(next, 127773);
      var lo := Rem(next, 127773);
      assert next == 127773 * hi + lo;
      assert IsInt32(16807 * lo) && IsInt32(2836 * hi) && IsInt32(16807 * lo - 2836 * hi);
      var x := 16807 * lo - 2836 * hi;
      SchrageCongruence(next, hi, lo);
      if x < 0 {
        x := x + 0x7fff_ffff;
      }
      assert IsInt32(x);
      next := x;
      r := x - 1;
    }
  }

  lemma NextNonzeroUnlessZero(state: int)
    requires -MODULUS < state < MODULUS
    ensures NextState(state) == 0 <==> state == 0
  {
    if state != 0 {
      NextNonzero(state);
    }
  }

  lemma SchrageCongruence(state: int, hi: int, lo: int)
    requires state == 127773 * hi + lo
    requires -MODULUS < 16807 * lo - 2836 * hi < MODULUS
    ensures var x := 16807 * lo - 2836 * hi;
            NextState(state) == if x < 0 then x + MODULUS else x
  {
    var x := 16807 * lo - 2836 * hi;
    assert MULTIPLIER * state == hi * MODULUS + x;
    if x < 0 {
      ReduceUnique(MULTIPLIER * state, hi - 1, x + MODULUS);
    } else {
      ReduceUnique(MULTIPLIER * state, hi, x);
    }
  }

  lemma ReduceUnique(n: int, q: int, r: int)
    requires n == q * MODULUS + r && 0 <= r < MODULUS
    ensures n % MODULUS == r
  {
    var d := n / MODULUS - q;
    assert d * MODULUS == r - n % MODULUS;
  }

  // --------------------------------------------------------------- signatures

  const WORD_LIMIT: nat := 0x1_0000

  /** A signature: an array of unsigned 16-bit words. */
  type Word = w: nat | w < WORD_LIMIT
  type Sign = seq<Word>

  ghost predicate HasBit(sign: Sign, b: nat) {
    b / SIGNWORDBITS < |sign| && Bit(sign[b / SIGNWORDBITS], b % SIGNWORDBITS)
  }

  /** The bit positions a signature has set. */
  ghost function SignBits(sign: Sign): set<nat> {
    set b: nat | b < SIGNWORDBITS * |sign| && HasBit(sign, b)
  }

  /** Position b is binary digit b % 16 of word b / 16. */
  lemma SignBitsIff(sign: Sign, b: int)
    ensures b in SignBits(sign)
       <==> 0 <= b < 16 * |sign| && Mask(b % 16) > 0 && sign[b / 16] / Mask(b % 16) % 2 == 1
  {
    if 0 <= b < 16 * |sign| {
      BitIsDigit(sign[b / 16], b % 16);
    }
  }

  /** `GETWORD(sign, b) |= 0x01 << (b % SIGNWORDBITS)` */
  function SetBitWord(w: Word, k: nat): Word
    requires k < SIGNWORDBITS
  {
    MaskMonotone(k, SIGNWORDBITS);
    WordWidths();
    OrBelow(w, Mask(k), SIGNWORDBITS);
    Or(w, Mask(k))
  }

  lemma SetBitAdds(sign: Sign, b: nat)
    requires b < SIGNWORDBITS * |sign|
    ensures var i := b / SIGNWORDBITS;
            SignBits(sign[i := SetBitWord(sign[i], b % SIGNWORDBITS)]) == SignBits(sign) + {b}
  {
    var i := b / SIGNWORDBITS;
    var sign' := sign[i := SetBitWord(sign[i], b % SIGNWORDBITS)];
    forall c: nat | c < SIGNWORDBITS * |sign|
      ensures HasBit(sign', c) <==> HasBit(sign, c) || c == b
    {
      if c / SIGNWORDBITS == i {
        SetBit(sign[i], b % SIGNWORDBITS, c % SIGNWORDBITS);
      }
    }
  }

  // ------------------------------------------------- bit positions of a value

  /** The second seed of a value: its hash mixed with the column's first draw. */
  function ValueSeed(attno: nat, hash: int): (r: int)
    requires attno < 32 && IsUint32(hash)
    ensures IsUint32(r)
  {
    WordWidths();
    XorBelow(hash, NextState(Seeded(attno)) - 1, 32);
    Xor(hash, NextState(Seeded(attno)) - 1)
  }

  /** What `myRand() % (bloomLength * SIGNWORDBITS)` yields on the draw after j draws. */
  function BitIndex(state: int, j: nat, words: nat): int
    requires words > 0
  {
    Rem(States(state, j + 1) - 1, words * SIGNWORDBITS)
  }

  lemma IndexOf(state: int, bits: int)
    requires bits > 1
    ensures state > 0 ==> 0 <= Rem(state - 1, bits) < bits
    ensures state == 0 ==> Rem(state - 1, bits) == -1
  {
  }

  /**
   * Every index drawn from a seed addresses a bit of the signature exactly
   * when the seed is not one of the two dead ones; those give -1 every time.
   */
  lemma BitIndexInRangeIff(seed: int, n: nat, words: nat)
    requires IsUint32(seed) && n > 0 && words > 0
    ensures (forall j: nat :: j < n ==> 0 <= BitIndex(Seeded(seed), j, words) < words * SIGNWORDBITS)
       <==> LiveSeed(seed)
    ensures !LiveSeed(seed) ==>
              forall j: nat :: j < n ==> BitIndex(Seeded(seed), j, words) == -1
  {
    hide Rem, States, Seeded;
    SeededNonzeroIff(seed);
    IndexOf(0, words * SIGNWORDBITS);
    forall j: nat | j < n
      ensures LiveSeed(seed) ==> 0 <= BitIndex(Seeded(seed), j, words) < words * SIGNWORDBITS
      ensures !LiveSeed(seed) ==> BitIndex(Seeded(seed), j, words) == -1
    {
      if LiveSeed(seed) {
        StatesNonzero(Seeded(seed), j + 1);
        IndexOf(States(Seeded(seed), j + 1), words * SIGNWORDBITS);
      } else {
        StatesFromZero(j + 1);
      }
    }
    assert !LiveSeed(seed) ==> BitIndex(Seeded(seed), 0, words) == -1;
  }

  /** In every column exactly two hash values lead to a dead seed. */
  lemma DeadHashes(attno: nat, hash: int)
    requires attno < 32 && IsUint32(hash)
    ensures var draw := NextState(Seeded(attno)) - 1;
            !LiveSeed(ValueSeed(attno, hash)) <==> hash == Xor(0x8000_0001, draw) || hash == Xor(0xffff_ffff, draw)
  {
    var draw := NextState(Seeded(attno)) - 1;
    XorUndone(hash, draw);
    XorUndone(0x8000_0001, draw);
    XorUndone(0xffff_ffff, draw);
  }

  /** A hash value of the first column, whose first draw is 16806, for which every draw is bit -1. */
  lemma DeadHash()
    ensures var hash := Xor(0x8000_0001, 16806);
            IsUint32(hash) && ValueSeed(0, hash) == 0x8000_0001 && !LiveSeed(ValueSeed(0, hash))
  {
    hide Xor, Mask;
    WordWidths();
    XorBelow(0x8000_0001, 16806, 32);
    assert NextState(Seeded(0)) == 16807;
    XorUndone(0x8000_0001, 16806);
  }

  /** The positions of the first n draws. */
  ghost function DrawnBits(state: int, n: nat, words: nat): set<int>
    requires words > 0
  {
    if n == 0 then {} else DrawnBits(state, n - 1, words) + {BitIndex(state, n - 1, words)}
  }

  lemma {:induction false} DrawnBitsIff(state: int, n: nat, words: nat, b: int)
    requires words > 0
    ensures b in DrawnBits(state, n, words) <==> exists j: nat :: j < n && b == BitIndex(state, j, words)
  {
    if n == 0 {
    } else {
      DrawnBitsIff(state, n - 1, words, b);
    }
  }

  function Pow(b: int, e: nat): int {
    if e == 0 then 1 else b * Pow(b, e - 1)
  }

  lemma ReduceFactor(a: int, x: int)
    ensures a * (x % MODULUS) % MODULUS == a * x % MODULUS
  {
    var q, r := x / MODULUS, x % MODULUS;
    var k := a * r / MODULUS;
    assert a * x == a * q * MODULUS + a * r;
    assert a * r == k * MODULUS + a * r % MODULUS;
    ReduceUnique(a * x, a * q + k, a * r % MODULUS);
  }

  /** The generator's states are powers of the multiplier times the seed. */
  lemma {:induction false} StatesArePowers(state: int, k: nat)
    ensures k > 0 ==> States(state, k) == Pow(16807, k) * state % MODULUS
    ensures States(state, 1) == 16807 * state % MODULUS
  {
    if k <= 1 {
      assert States(state, 1) == NextState(States(state, 0));
      assert Pow(16807, 1) == 16807 * Pow(16807, 0);
    } else {
      StatesArePowers(state, k - 1);
      ReduceFactor(16807, Pow(16807, k - 1) * state);
      assert Pow(16807, k) * state == 16807 * (Pow(16807, k - 1) * state);
    }
  }

  /** What seeding computes, on unsigned seeds. */
  lemma SeededIs(seed: int)
    requires IsUint32(seed)
    ensures Seeded(seed)
         == if seed < 0x8000_0000 then seed % 0x7fff_fffe + 1 else 1 - (0x1_0000_0000 - seed) % 0x7fff_fffe
  {
  }

  lemma FirstDraw(attno: nat)
    requires attno < 32
    ensures NextState(Seeded(attno)) == 16807 * (attno + 1)
  {
    SeededIs(attno);
  }

  /** The bits column attno contributes for a value with this hash. */
  ghost function ValueBits(opts: Options, attno: nat, hash: int): set<int>
    requires opts.Valid() && attno < |opts.bitSize| && IsUint32(hash)
  {
    DrawnBits(Seeded(ValueSeed(attno, hash)), opts.bitSize[attno], opts.bloomLength)
  }

  /**
   * A value's bits, for a live seed: the powers of 16807 up to the column's number
   * of bits, times what the hash mixed with the column's own draw seeds, reduced to
   * the generator's modulus and then to the signature's length.
   */
  lemma ValueBitsIff(opts: Options, attno: nat, hash: int, b: int)
    requires opts.Valid() && attno < |opts.bitSize| && IsUint32(hash) && LiveSeed(ValueSeed(attno, hash))
    ensures var seed := Xor(hash, 16807 * (attno + 1) - 1);
            && IsUint32(seed)
            && (b in ValueBits(opts, attno, hash)
                <==> exists j: nat ::
                       && 1 <= j <= opts.bitSize[attno]
                       && b == (Pow(16807, j) * Seeded(seed) % MODULUS - 1) % (16 * opts.bloomLength))
  {
    hide Pow, States, NextState, Seeded, Xor;
    FirstDraw(attno);
    var seed := ValueSeed(attno, hash);
    assert seed == Xor(hash, 16807 * (attno + 1) - 1);
    SeededNonzeroIff(seed);
    PowersIff(Seeded(seed), opts.bitSize[attno], opts.bloomLength, b);
  }

  lemma PowersIff(state: int, n: nat, words: nat, b: int)
    requires -MODULUS < state < MODULUS && state != 0 && words > 0
    ensures b in DrawnBits(state, n, words)
       <==> exists j: nat :: 1 <= j <= n && b == (Pow(16807, j) * state % MODULUS - 1) % (16 * words)
  {
    hide Pow, BitIndex;
    DrawnBitsIff(state, n, words, b);
    if b in DrawnBits(state, n, words) {
      var j: nat :| j < n && b == BitIndex(state, j, words);
      IndexIsPower(state, j, words);
      var i: nat := j + 1;
      assert 1 <= i <= n && b == (Pow(16807, i) * state % MODULUS - 1) % (16 * words);
    }
    if j: nat :| 1 <= j <= n && b == (Pow(16807, j) * state % MODULUS - 1) % (16 * words) {
      IndexIsPower(state, j - 1, words);
      assert b == BitIndex(state, j - 1, words);
    }
  }

  lemma IndexIsPower(state: int, j: nat, words: nat)
    requires -MODULUS < state < MODULUS && state != 0 && words > 0
    ensures BitIndex(state, j, words) == (Pow(16807, j + 1) * state % MODULUS - 1) % (16 * words)
  {
    hide Pow, States, NextState;
    StatesNonzero(state, j + 1);
    StatesArePowers(state, j + 1);
  }

  /** Adds the bits of one column value to a signature in place. */
  method SignValue(gen: Generator, opts: Options, sign: array<Word>, hash: int, attno: nat)
    requires opts.Valid() && attno < |opts.bitSize| && IsUint32(hash)
    requires sign.Length == opts.bloomLength
    requires LiveSeed(ValueSeed(attno, hash))
    modifies gen, sign
    ensures SignBits(sign[..]) == SignBits(old(sign[..])) + ValueBits(opts, attno, hash)
  {
    gen.Srand(attno);
    var first := gen.Rand();
    assert Xor(hash, first) == ValueSeed(attno, hash);
    gen.Srand(Xor(hash, first));
    SeededNonzeroIff(ValueSeed(attno, hash));
    DrawBits(gen, sign, opts.bitSize[attno]);
  }

  method DrawBits(gen: Generator, sign: array<Word>, n: nat)
    requires -MODULUS < gen.next < MODULUS && gen.next != 0 && sign.Length > 0
    modifies gen, sign
    ensures SignBits(sign[..]) == SignBits(old(sign[..])) + DrawnBits(old(gen.next), n, sign.Length)
  {
    ghost var state := gen.next;
    for j := 0 to n
      invariant gen.next == States(state, j)
      invariant SignBits(sign[..]) == SignBits(old(sign[..])) + DrawnBits(state, j, sign.Length)
    {
      StatesNonzero(state, j);
      var r := gen.Rand();
      var nBit := Rem(r, sign.Length * SIGNWORDBITS);
      SetBitInPlace(sign, nBit);
    }
  }

  method SetBitInPlace(sign: array<Word>, nBit: nat)
    requires nBit < sign.Length * SIGNWORDBITS
    modifies sign
    ensures SignBits(sign[..]) == SignBits(old(sign[..])) + {nBit}
  {
    ghost var before := sign[..];
    var i := nBit / SIGNWORDBITS;
    sign[i] := SetBitWord(sign[i], nBit % SIGNWORDBITS);
    assert sign[..] == before[i := SetBitWord(before[i], nBit % SIGNWORDBITS)];
    SetBitAdds(before, nBit);
  }

  // ------------------------------------------------- tuples, scan keys, match

  /** A row as the index sees it: the hash of each column, None for a null. */
  type Row = seq<Option<int>>

  /** A scan key: a 1-based column number and the hash of its argument, None for a null. */
  datatype ScanKey = ScanKey(attno: nat, hash: Option<int>)

  ghost predicate LiveValue(opts: Options, attno: nat, hash: int) {
    attno < |opts.bitSize| <= 32 && IsUint32(hash) && LiveSeed(ValueSeed(attno, hash))
  }

  ghost predicate LiveRow(opts: Options, row: Row) {
    forall i :: 0 <= i < |row| && row[i].Some? ==> LiveValue(opts, i, row[i].value)
  }

  ghost predicate LiveKeys(opts: Options, keys: seq<ScanKey>) {
    forall i :: 0 <= i < |keys| && keys[i].hash.Some? ==>
                  1 <= keys[i].attno && LiveValue(opts, keys[i].attno - 1, keys[i].hash.value)
  }

  /** The union of the bits of a row's first n columns, nulls left out. */
  ghost function RowBitsTo(opts: Options, row: Row, n: nat): set<int>
    requires opts.Valid() && LiveRow(opts, row) && n <= |row|
  {
    if n == 0 then {}
    else
      RowBitsTo(opts, row, n - 1)
      + if row[n - 1].None? then {} else ValueBits(opts, n - 1, row[n - 1].value)
  }

  ghost function RowBits(opts: Options, row: Row): set<int>
    requires opts.Valid() && LiveRow(opts, row)
  {
    RowBitsTo(opts, row, |row|)
  }

  ghost function KeyBitsTo(opts: Options, keys: seq<ScanKey>, n: nat): set<int>
    requires opts.Valid() && LiveKeys(opts, keys) && n <= |keys|
  {
    if n == 0 then {}
    else
      var k := keys[n - 1];
      KeyBitsTo(opts, keys, n - 1)
      + if k.hash.None? then {} else ValueBits(opts, k.attno - 1, k.hash.value)
  }

  ghost function KeyBits(opts: Options, keys: seq<ScanKey>): set<int>
    requires opts.Valid() && LiveKeys(opts, keys)
  {
    KeyBitsTo(opts, keys, |keys|)
  }

  /** A row's bits are those of its columns that are not null. */
  lemma {:induction false} RowBitsIff(opts: Options, row: Row, n: nat, b: int)
    requires opts.Valid() && LiveRow(opts, row) && n <= |row|
    ensures b in RowBitsTo(opts, row, n)
       <==> exists i :: 0 <= i < n && row[i].Some? && b in ValueBits(opts, i, row[i].value)
  {
    hide ValueBits;
    if n == 0 {
    } else {
      RowBitsIff(opts, row, n - 1, b);
    }
  }

  /** And the keys' bits are those of all keys. */
  lemma {:induction false} KeyBitsIff(opts: Options, keys: seq<ScanKey>, n: nat, b: int)
    requires opts.Valid() && LiveKeys(opts, keys) && n <= |keys|
    ensures b in KeyBitsTo(opts, keys, n)
       <==> exists i :: 0 <= i < n && keys[i].hash.Some? && b in ValueBits(opts, keys[i].attno - 1, keys[i].hash.value)
  {
    hide ValueBits;
    if n == 0 {
    } else {
      KeyBitsIff(opts, keys, n - 1, b);
    }
  }

  lemma ZeroSign(sign: Sign)
    requires forall i :: 0 <= i < |sign| ==> sign[i] == 0
    ensures SignBits(sign) == {}
  {
    forall b: nat
      ensures !HasBit(sign, b)
    {
      ZeroHasNoBit(b % SIGNWORDBITS);
    }
  }

  /** The signature of a new index tuple. */
  method FormTuple(gen: Generator, opts: Options, row: Row) returns (sign: Sign)
    requires opts.Valid() && LiveRow(opts, row)
    modifies gen
    ensures |sign| == opts.bloomLength
    ensures SignBits(sign) == RowBits(opts, row)
  {
    var res := new Word[opts.bloomLength](_ => 0);
    ZeroSign(res[..]);
    for i := 0 to |row|
      invariant SignBits(res[..]) == RowBitsTo(opts, row, i)
    {
      if row[i].Some? {
        SignValue(gen, opts, res, row[i].value, i);
      }
    }
    sign := res[..];
  }

  ghost predicate NoNullKey(keys: seq<ScanKey>) {
    forall i :: 0 <= i < |keys| ==> keys[i].hash.Some?
  }

  method AddKey(gen: Generator, opts: Options, sign: array<Word>, ghost keys: seq<ScanKey>, ghost n: nat, key: ScanKey)
    requires opts.Valid() && LiveKeys(opts, keys) && n < |keys| && key == keys[n] && key.hash.Some?
    requires sign.Length == opts.bloomLength
    requires SignBits(sign[..]) == KeyBitsTo(opts, keys, n)
    modifies gen, sign
    ensures SignBits(sign[..]) == KeyBitsTo(opts, keys, n + 1)
  {
    SignValue(gen, opts, sign, key.hash.value, key.attno - 1);
  }

  /** The scan's signature, or None when some key is null. */
  method ScanSignature(gen: Generator, opts: Options, keys: seq<ScanKey>) returns (sign: Option<Sign>)
    requires opts.Valid() && LiveKeys(opts, keys)
    modifies gen
    ensures sign.Some? <==> forall i :: 0 <= i < |keys| ==> keys[i].hash.Some?
    ensures sign.Some? ==> |sign.value| == opts.bloomLength && SignBits(sign.value) == KeyBits(opts, keys)
  {
    var res := new Word[opts.bloomLength](_ => 0);
    ZeroSign(res[..]);
    for i := 0 to |keys|
      invariant SignBits(res[..]) == KeyBitsTo(opts, keys, i)
      invariant forall j :: 0 <= j < i ==> keys[j].hash.Some?
    {
      if keys[i].hash.None? {
        return None;
      }
      AddKey(gen, opts, res, keys, i, keys[i]);
    }
    sign := Some(res[..]);
  }

  /** A tuple's signature contains every bit of a scan's. */
  ghost predicate SignIncludes(tuple: Sign, scan: Sign) {
    SignBits(scan) <= SignBits(tuple)
  }

  lemma WordTestPasses(tuple: Sign, scan: Sign, b: nat)
    requires |tuple| == |scan| && HasBit(scan, b)
    requires And(tuple[b / SIGNWORDBITS], scan[b / SIGNWORDBITS]) == scan[b / SIGNWORDBITS]
    ensures HasBit(tuple, b)
  {
    IncludesIff(tuple[b / SIGNWORDBITS], scan[b / SIGNWORDBITS]);
  }

  lemma WordTestFails(tuple: Sign, scan: Sign, i: nat) returns (b: nat)
    requires |tuple| == |scan| && i < |scan|
    requires And(tuple[i], scan[i]) != scan[i]
    ensures HasBit(scan, b) && !HasBit(tuple, b) && b in SignBits(scan)
  {
    IncludesIff(tuple[i], scan[i]);
    var k: nat :| Bit(scan[i], k) && !Bit(tuple[i], k);
    if k >= SIGNWORDBITS {
      WordWidths();
      HighBitsClear(scan[i], SIGNWORDBITS, k);
    }
    b := SIGNWORDBITS * i + k;
    assert b / SIGNWORDBITS == i && b % SIGNWORDBITS == k;
  }

  /** The scan's word-by-word test decides bit-for-bit inclusion. */
  method TestSignature(tuple: Sign, scan: Sign) returns (res: bool)
    requires |tuple| == |scan|
    ensures res <==> SignIncludes(tuple, scan)
  {
    for i := 0 to |scan|
      invariant forall k :: 0 <= k < i ==> And(tuple[k], scan[k]) == scan[k]
    {
      if And(tuple[i], scan[i]) != scan[i] {
        ghost var b := WordTestFails(tuple, scan, i);
        return false;
      }
    }
    forall b | b in SignBits(scan)
      ensures b in SignBits(tuple)
    {
      WordTestPasses(tuple, scan, b);
    }
    return true;
  }

  /** A row satisfies a key when the keyed column is not null and hashes equal. */
  ghost predicate RowMatchesKey(row: Row, key: ScanKey) {
    1 <= key.attno <= |row| && key.hash.Some? && row[key.attno - 1] == key.hash
  }

  lemma {:induction false} RowHasColumnBits(opts: Options, row: Row, i: nat, n: nat)
    requires opts.Valid() && LiveRow(opts, row) && i < n <= |row| && row[i].Some?
    ensures ValueBits(opts, i, row[i].value) <= RowBitsTo(opts, row, n)
  {
    if i >= n - 1 {
    } else {
      RowHasColumnBits(opts, row, i, n - 1);
    }
  }

  lemma {:induction false} MatchingKeysIncluded(opts: Options, row: Row, keys: seq<ScanKey>, n: nat)
    requires opts.Valid() && LiveRow(opts, row) && LiveKeys(opts, keys) && n <= |keys|
    requires forall i :: 0 <= i < |keys| ==> RowMatchesKey(row, keys[i])
    ensures KeyBitsTo(opts, keys, n) <= RowBits(opts, row)
  {
    if n == 0 {
    } else {
      MatchingKeysIncluded(opts, row, keys, n - 1);
      assert RowMatchesKey(row, keys[n - 1]);
      RowHasColumnBits(opts, row, keys[n - 1].attno - 1, |row|);
    }
  }

  /** No false negatives: equal hashes on every keyed column make the row's signature match. */
  lemma MatchingRowIncluded(opts: Options, row: Row, keys: seq<ScanKey>, tuple: Sign, scan: Sign)
    requires opts.Valid() && LiveRow(opts, row) && LiveKeys(opts, keys)
    requires SignBits(tuple) == RowBits(opts, row) && SignBits(scan) == KeyBits(opts, keys)
    requires forall i :: 0 <= i < |keys| ==> RowMatchesKey(row, keys[i])
    ensures SignIncludes(tuple, scan)
  {
    MatchingKeysIncluded(opts, row, keys, |keys|);
  }
}
