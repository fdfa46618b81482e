/**
 * Trees of bytea keys whose pages, leaf and inner, have been split: when search
 * in them is exact, and why no weaker condition on a split will do.
 */
module VarTree {
  import opened GistTree
  import opened VarKey
  import opened VarSplit

  // ------------------------------------------------------- keys above keys

  predicate Zeros(s: Bytea) {
    forall i :: 0 <= i < |s| ==> s[i] == 0
  }

  /**
   * The check a caller could make: an entry some of whose values are lost, if not
   * at the side's key then at one above it. Only a lower bound of zero bytes, which
   * every bound at or below it begins, keeps an overshooting entry's values.
   */
  predicate Loses(e: Key, side: Key) {
    Overshoots(e, side) && !(Zeros(side.lower) && side.lower <= e.upper)
  }

  /** The key a split gives one side: its hull, cut anywhere past the common prefix, losing no entry. */
  predicate SafeCut(entries: seq<Key>, k: Key, cpf: nat)
    requires |entries| > 0
  {
    && cpf >= CpLen(Hull(entries)) + 1 && k == Truncated(Hull(entries), cpf)
    && forall i :: 0 <= i < |entries| ==> !Loses(entries[i], k)
  }

  /** Where node keys come from: unions, and splits that lose nothing. */
  ghost predicate Summarises(entries: seq<Key>, k: Key) {
    |entries| > 0 && (k == UnionKey(entries) || exists cpf :: SafeCut(entries, k, cpf))
  }

  ghost function Summary(): (seq<Key>, Key) -> bool {
    (entries, k) => Summarises(entries, k)
  }

  /** The key serves every query for the value, and so do all keys above it. */
  predicate Held(k: Key, v: Bytea) {
    && Ordered(k) && (Covers(k, v) || (Zeros(k.lower) && k.lower <= v))
    && (k.lower == k.upper ==> v == k.lower)
  }

  lemma BelowZeros(x: Bytea, z: Bytea)
    requires Le(x, z) && Zeros(z)
    ensures x <= z && Zeros(x)
  {
  }

  lemma CutOfPrefix(x: Bytea, n: nat, z: Bytea, v: Bytea)
    requires x <= z && z <= v && Zeros(z)
    ensures Zeros(Cut(x, n)) && Cut(x, n) <= v
  {
  }

  /** Bounds of a cut over an entry with equal bounds, or not. */
  lemma EqualCut(k: Key, e: Key, cpf: nat, v: Bytea)
    requires CutOver(k, e, cpf) && Held(e, v)
    ensures Truncated(k, cpf).lower == Truncated(k, cpf).upper ==> v == Truncated(k, cpf).lower
  {
    if Truncated(k, cpf).lower == Truncated(k, cpf).upper {
      EqualBounds(k, e, cpf);
    }
  }

  /** A cut holds what its entry holds, if it covers what the entry covers or has a zero lower bound. */
  lemma CutHolds(k: Key, e: Key, cpf: nat, v: Bytea)
    requires CutOver(k, e, cpf) && Held(e, v)
    requires Covers(e, v) ==>
               Covers(Truncated(k, cpf), v) || (Zeros(Truncated(k, cpf).lower) && Truncated(k, cpf).lower <= v)
    ensures Held(Truncated(k, cpf), v)
  {
    hide Le, CommonPrefix, Covers, Zeros;
    CutOverOrdered(k, e, cpf);
    EqualCut(k, e, cpf, v);
    if !Covers(e, v) {
      BelowZeros(k.lower, e.lower);
      CutOfPrefix(k.lower, cpf + 1, e.lower, v);
    }
  }

  lemma SafeCutHolds(entries: seq<Key>, key: Key, cpf: nat, i: nat, v: Bytea)
    requires i < |entries| && SafeCut(entries, key, cpf) && Held(entries[i], v)
    ensures Held(key, v)
  {
    hide Le, CommonPrefix, HullTo, Zeros;
    var k, e := Hull(entries), entries[i];
    AllCutOver(entries, cpf, i);
    if Covers(e, v) {
      if Overshoots(e, key) {
        ExtendsOrBelow(k, e, cpf, v);
      } else {
        CutCovers(k, e, cpf, v);
      }
    }
    CutHolds(k, e, cpf, v);
  }

  /** A value of an overshooting entry is covered, or extends the entry's upper bound. */
  lemma ExtendsOrBelow(k: Key, e: Key, cpf: nat, v: Bytea)
    requires CutOver(k, e, cpf) && Covers(e, v)
    ensures Covers(Truncated(k, cpf), v) || e.upper <= v
  {
    hide Le, CommonPrefix;
    var side := Truncated(k, cpf);
    if Le(v, e.upper) {
      CutOverOrdered(k, e, cpf);
      PrefixIsLe(side.lower, k.lower);
      LeTransitive(k.lower, e.lower, v);
      LeTransitive(side.lower, k.lower, v);
      LeTransitive(v, e.upper, k.upper);
      CoveredBelow(k.upper, cpf + 1, v);
    }
  }

  lemma UnionHolds(entries: seq<Key>, i: nat, v: Bytea)
    requires i < |entries| && Held(entries[i], v)
    ensures Held(UnionKey(entries), v)
  {
    hide Le, CommonPrefix, HullTo, Covers, Zeros;
    var k := Hull(entries);
    AllCutOver(entries, CpLen(k) + 1, i);
    if Covers(entries[i], v) {
      UnionCovers(entries, i, v);
    }
    CutHolds(k, entries[i], CpLen(k) + 1, v);
  }

  lemma SummaryHolds(entries: seq<Key>, key: Key, i: nat, v: Bytea)
    requires Summarises(entries, key) && i < |entries| && Held(entries[i], v)
    ensures Held(key, v)
  {
    hide Held, UnionKey, SafeCut;
    if key == UnionKey(entries) {
      UnionHolds(entries, i, v);
    } else {
      var cpf :| SafeCut(entries, key, cpf);
      SafeCutHolds(entries, key, cpf, i, v);
    }
  }

  lemma CoveredIsHeld(k: Key, v: Bytea)
    requires Ordered(k) && Covers(k, v)
    ensures Held(k, v)
  {
    if k.lower == k.upper {
      LeafStandsForItself(k, v);
    }
  }

  lemma HeldIsAccepted(k: Key, v: Bytea, q: Bytea, s: Strategy)
    requires Held(k, v) && Satisfies(s, v, q)
    ensures Consistent(k, q, s, false)
  {
    if k.lower <= v {
      PrefixIsLe(k.lower, v);
    }
    AcceptedIsConsistent(k, v, q, s);
  }

  // ------------------------------------------------------------------ splits

  /** A half of a page none of whose entries is lost may stand in a tree whose search is exact. */
  lemma SplitSummarises(sorted: seq<Key>)
    requires |sorted| >= 2
    ensures (forall i :: 0 <= i < |sorted| / 2 ==> !Loses(sorted[i], SideKeys(sorted).0)) ==>
              Summarises(sorted[..|sorted| / 2], SideKeys(sorted).0)
    ensures (forall i :: |sorted| / 2 <= i < |sorted| ==> !Loses(sorted[i], SideKeys(sorted).1)) ==>
              Summarises(sorted[|sorted| / 2..], SideKeys(sorted).1)
  {
    hide HullTo, CommonPrefix, Truncated, Loses;
    var first, last := sorted[..|sorted| / 2], sorted[|sorted| / 2..];
    var l, r := Hull(first), Hull(last);
    var n := (if CpLen(l) >= CpLen(r) then CpLen(l) else CpLen(r)) + 1;
    if forall i :: 0 <= i < |sorted| / 2 ==> !Loses(sorted[i], SideKeys(sorted).0) {
      assert SafeCut(first, SideKeys(sorted).0, n);
    }
    if forall i :: |sorted| / 2 <= i < |sorted| ==> !Loses(sorted[i], SideKeys(sorted).1) {
      assert forall i :: 0 <= i < |last| ==> last[i] == sorted[i + |first|];
      assert SafeCut(last, SideKeys(sorted).1, n);
    }
  }

  predicate AllLeaves(entries: seq<Key>) {
    forall i :: 0 <= i < |entries| ==> entries[i].lower == entries[i].upper
  }

  /** Both keys of a split leaf page may, whatever the values. */
  lemma LeafSplitSummarises(sorted: seq<Key>)
    requires |sorted| >= 2 && AllLeaves(sorted)
    ensures Summarises(sorted[..|sorted| / 2], SideKeys(sorted).0)
    ensures Summarises(sorted[|sorted| / 2..], SideKeys(sorted).1)
  {
    hide Summarises, SideKeys;
    forall i | 0 <= i < |sorted|
      ensures !Slack(sorted[i])
    {
      PrefixUnique(sorted[i].lower, sorted[i].lower, |sorted[i].lower|);
    }
    SplitSummarises(sorted);
  }

  // ------------------------------------------------------------------- trees

  function Wanted(s: Strategy, q: Bytea): Bytea -> bool {
    v => Satisfies(s, v, q)
  }

  function LeafTest(s: Strategy, q: Bytea): Bytea -> bool {
    v => Consistent(LeafKey(v), q, s, true)
  }

  function NodeTest(s: Strategy, q: Bytea): Key -> bool {
    k => Consistent(k, q, s, false)
  }

  /** What the tree argument needs of this kind of key. */
  lemma KeysAreSound()
    ensures UnionKeeps(Summary(), Held) && LeafCovered(LeafKey, Held)
  {
    hide Held, Summarises;
    forall entries, key, i, v | Summarises(entries, key) && 0 <= i < |entries| && Held(entries[i], v)
      ensures Held(key, v)
    {
      SummaryHolds(entries, key, i, v);
    }
    forall v
      ensures Held(LeafKey(v), v)
    {
      PrefixIsLe(v, v);
      CoveredIsHeld(LeafKey(v), v);
    }
  }

  /** However high the tree and however often its pages were split, no key loses a value below it. */
  lemma NestedHolds(t: Tree<Key, Bytea>, v: Bytea)
    requires Built(t, LeafKey, Summary()) && Below(t, v)
    ensures Held(KeyOf(t, LeafKey), v)
  {
    hide Held, Summarises;
    KeysAreSound();
    KeyCovers(t, LeafKey, Summary(), Held, v);
  }

  /** As `Summarises`, with splits whose keys cover all their entries cover. */
  ghost predicate Encloses(entries: seq<Key>, k: Key) {
    && |entries| > 0
    && (k == UnionKey(entries)
        || exists cpf :: SafeCut(entries, k, cpf) && forall i :: 0 <= i < |entries| ==> !Overshoots(entries[i], k))
  }

  ghost function Enclosure(): (seq<Key>, Key) -> bool {
    (entries, k) => Encloses(entries, k)
  }

  predicate Stands(k: Key, v: Bytea) {
    Ordered(k) && Covers(k, v)
  }

  lemma EnclosureStands(entries: seq<Key>, key: Key, i: nat, v: Bytea)
    requires Encloses(entries, key) && i < |entries| && Stands(entries[i], v)
    ensures Stands(key, v)
  {
    hide Le, CommonPrefix, HullTo, Covers, Overshoots;
    if key == UnionKey(entries) {
      UnionCovers(entries, i, v);
      UnionOrdered(entries, i);
    } else {
      var cpf :| SafeCut(entries, key, cpf) && forall j :: 0 <= j < |entries| ==> !Overshoots(entries[j], key);
      AllCutOver(entries, cpf, i);
      CutCovers(Hull(entries), entries[i], cpf, v);
      CutOverOrdered(Hull(entries), entries[i], cpf);
    }
  }

  /** In a tree of unions and of splits without overshooting entries every key covers every value below it. */
  lemma NestedUnionCovers(t: Tree<Key, Bytea>, v: Bytea)
    requires Built(t, LeafKey, Enclosure()) && Below(t, v)
    ensures Covers(KeyOf(t, LeafKey), v)
  {
    hide Encloses, Le, Covers;
    forall entries, key, i, w | Encloses(entries, key) && 0 <= i < |entries| && Stands(entries[i], w)
      ensures Stands(key, w)
    {
      EnclosureStands(entries, key, i, w);
    }
    forall w
      ensures Stands(LeafKey(w), w)
    {
      LeafStands(w);
    }
    KeyCovers(t, LeafKey, Enclosure(), Stands, v);
  }

  lemma LeafStands(v: Bytea)
    ensures Stands(LeafKey(v), v)
  {
    PrefixIsLe(v, v);
  }

  /** Every answer below a node is let through by the node's key. */
  lemma NestedUnionAccepts(t: Tree<Key, Bytea>, v: Bytea, q: Bytea, s: Strategy)
    requires Built(t, LeafKey, Summary()) && Below(t, v) && Satisfies(s, v, q)
    ensures Consistent(KeyOf(t, LeafKey), q, s, false)
  {
    hide Held, Summarises;
    NestedHolds(t, v);
    HeldIsAccepted(KeyOf(t, LeafKey), v, q, s);
  }

  /** Search finds all answers and nothing else, for every tree, query and operator. */
  lemma SearchExact(t: Tree<Key, Bytea>, q: Bytea, s: Strategy)
    requires Built(t, LeafKey, Summary())
    ensures Search(t, LeafTest(s, q), NodeTest(s, q)) == Answers(t, Wanted(s, q))
  {
    hide Held, Summarises;
    KeysAreSound();
    forall k, v | Held(k, v) && Satisfies(s, v, q)
      ensures Consistent(k, q, s, false)
    {
      HeldIsAccepted(k, v, q, s);
    }
    forall v
      ensures Consistent(LeafKey(v), q, s, true) <==> Satisfies(s, v, q)
    {
      LeTotal(v, q);
    }
    SearchIsExact(t, LeafKey, Summary(), Held, Wanted(s, q), LeafTest(s, q), NodeTest(s, q));
  }

  // ------------------------------------------------- no weaker condition will do

  /** k' is the key over some page that has k on it. */
  ghost predicate Rises(k: Key, k': Key) {
    exists page :: k in page && Summarises(page, k')
  }

  ghost predicate RisesAt(tower: seq<Key>, j: nat)
    requires j + 1 < |tower|
  {
    Rises(tower[j], tower[j + 1])
  }

  /** Keys each over a page that has the one before. */
  ghost predicate Tower(tower: seq<Key>) {
    |tower| > 0 && forall j :: 0 <= j < |tower| - 1 ==> RisesAt(tower, j)
  }

  /** No key from this one upwards turns away a query that the value answers. */
  ghost predicate Findable(k: Key, v: Bytea) {
    forall tower, q, s {:trigger Tower(tower), Satisfies(s, v, q)} ::
      Tower(tower) && tower[0] == k && Satisfies(s, v, q) ==> Consistent(tower[|tower| - 1], q, s, false)
  }

  lemma {:induction false} TowerHolds(tower: seq<Key>, j: nat, v: Bytea)
    requires Tower(tower) && j < |tower| && Held(tower[0], v)
    ensures Held(tower[j], v)
  {
    hide Held, Summarises;
    if j == 0 {
    } else {
      TowerHolds(tower, j - 1, v);
      assert RisesAt(tower, j - 1);
      var page :| tower[j - 1] in page && Summarises(page, tower[j]);
      var i :| 0 <= i < |page| && page[i] == tower[j - 1];
      SummaryHolds(page, tower[j], i, v);
    }
  }

  lemma HeldIsFindable(k: Key, v: Bytea)
    requires Held(k, v)
    ensures Findable(k, v)
  {
    hide Held, Tower;
    forall tower, q, s | Tower(tower) && |tower| > 0 && tower[0] == k && Satisfies(s, v, q)
      ensures Consistent(tower[|tower| - 1], q, s, false)
    {
      TowerHolds(tower, |tower| - 1, v);
      HeldIsAccepted(tower[|tower| - 1], v, q, s);
    }
    TowersNonempty();
  }

  lemma TowersNonempty()
    ensures forall tower {:trigger Tower(tower)} :: Tower(tower) ==> |tower| > 0
  {
  }

  /** A value beside the key and smaller than its lower bound, but not a prefix of what extends that bound. */
  function Smaller(l: Bytea, i: nat): Bytea
    requires i < |l| && l[i] > 0
  {
    l[..i] + [l[i] - 1]
  }

  /** The key over a page of that value and the key, cut long. */
  lemma KeyAbove(k: Key, i: nat)
    requires i < |k.lower| && k.lower[i] > 0 && k.lower <= k.upper
    ensures Summarises([LeafKey(Smaller(k.lower, i)), k], Key(Smaller(k.lower, i), k.upper))
  {
    var x := Smaller(k.lower, i);
    var page, above := [LeafKey(x), k], Key(x, k.upper);
    Before(x, k.lower, i);
    Before(x, k.upper, i);
    PairUnion(LeafKey(x), k, i);
    PrefixUnique(x, x, |x|);
    assert SafeCut(page, above, |k.upper|);
  }

  lemma TurnedAway(k: Key, i: nat, v: Bytea)
    requires i < |k.lower| && k.lower[i] > 0 && k.lower <= v && !Le(v, k.upper) && !(k.upper <= v)
    ensures !Consistent(Key(Smaller(k.lower, i), k.upper), v, Equal, false)
  {
    assert Smaller(k.lower, i)[i] != v[i];
  }

  /** A value past a key that has a nonzero lower bound is turned away one level up. */
  lemma LostAbove(k: Key, v: Bytea)
    requires !Zeros(k.lower) && k.lower <= k.upper && k.lower <= v && !Le(v, k.upper) && !(k.upper <= v)
    ensures !Findable(k, v)
  {
    hide Summarises, Consistent;
    var i :| 0 <= i < |k.lower| && k.lower[i] != 0;
    var above := Key(Smaller(k.lower, i), k.upper);
    KeyAbove(k, i);
    TurnedAway(k, i, v);
    assert RisesAt([k, above], 0);
    assert Tower([k, above]) && Satisfies(Equal, v, v);
  }

  lemma LosesOne(k: Key, e: Key, cpf: nat) returns (v: Bytea)
    requires CutOver(k, e, cpf) && Loses(e, Truncated(k, cpf))
    ensures Covers(e, v) && !Findable(Truncated(k, cpf), v)
  {
    var side := Truncated(k, cpf);
    if Escapes(e, side) {
      v := EscapeIsMissed(k, e, cpf);
      assert Tower([side]) && Satisfies(Equal, v, v);
    } else {
      v := Overshot(k, e, cpf);
      LostAbove(side, v);
    }
  }

  /** Whatever the entries cover stays findable from the side's key upwards. */
  ghost predicate Lasting(entries: seq<Key>, side: Key) {
    forall i, v {:trigger Covers(entries[i], v)} :: 0 <= i < |entries| && Covers(entries[i], v) ==> Findable(side, v)
  }

  /**
   * A side's key, cut anywhere past the hull's common prefix, keeps everything its
   * entries cover findable at every height above it if and only if no entry is lost.
   */
  lemma LastingIff(entries: seq<Key>, cpf: nat)
    requires |entries| > 0 && (forall i :: 0 <= i < |entries| ==> Ordered(entries[i]))
    requires cpf >= CpLen(Hull(entries)) + 1
    ensures Lasting(entries, Truncated(Hull(entries), cpf))
       <==> forall i :: 0 <= i < |entries| ==> !Loses(entries[i], Truncated(Hull(entries), cpf))
  {
    hide Le, CommonPrefix, HullTo, Truncated, Loses, Findable, Held;
    var k := Hull(entries);
    var side := Truncated(k, cpf);
    if i :| 0 <= i < |entries| && Loses(entries[i], side) {
      AllCutOver(entries, cpf, i);
      var v := LosesOne(k, entries[i], cpf);
    } else {
      assert SafeCut(entries, side, cpf);
      forall i, v | 0 <= i < |entries| && Covers(entries[i], v)
        ensures Findable(side, v)
      {
        CoveredIsHeld(entries[i], v);
        SafeCutHolds(entries, side, cpf, i, v);
        HeldIsFindable(side, v);
      }
    }
  }

  // ------------------------------------------------------------- two splits

  lemma PrefixBefore(a: Bytea, b: Bytea)
    requires a < b
    ensures CommonPrefix(a, b) == |a| && Le(a, b) && Lt(a, b)
  {
    PrefixUnique(a, b, |a|);
    PrefixUnique(b, a, |a|);
  }

  /** A page whose left key covers less than its entries, and the page above it. */
  function Lower(): seq<Key> {
    [Key([5], [5, 2, 9]), Key([5, 2, 9, 1], [5, 2, 9, 3]), LeafKey([9, 9, 9, 1]), LeafKey([9, 9, 9, 2])]
  }

  function Upper(): seq<Key> {
    [LeafKey([1]), Key([5], [5, 2, 9, 3]), Key([9, 9, 9, 1], [9, 9, 9, 2]), LeafKey([9, 9, 9, 3])]
  }

  lemma LowerSplit()
    ensures SortedOrder(Lower(), [0, 1, 2, 3])
    ensures SideKeys(Lower()) == (Key([5], [5, 2, 9, 3]), Key([9, 9, 9, 1], [9, 9, 9, 2]))
  {
    hide CommonPrefix, SortedOrder, HullTo;
    var page := Lower();
    PrefixBefore([5], [5, 2, 9, 1]);
    PrefixBefore([5], [5, 2, 9, 3]);
    PrefixBefore([5, 2, 9], [5, 2, 9, 3]);
    Before([5], [9, 9, 9, 1], 0);
    Before([5], [9, 9, 9, 2], 0);
    Before([5, 2, 9, 1], [9, 9, 9, 1], 0);
    Before([5, 2, 9, 1], [9, 9, 9, 2], 0);
    Before([9, 9, 9, 1], [9, 9, 9, 2], 3);
    FourSorted(page[0], page[1], page[2], page[3]);
    assert page[..2] == [page[0], page[1]] && page[2..] == [page[2], page[3]];
    PairUnion(page[0], page[1], 1);
    PairUnion(page[2], page[3], 3);
  }

  lemma UpperSplit()
    ensures SortedOrder(Upper(), [0, 1, 2, 3])
    ensures SideKeys(Upper()) == (Key([1], [5, 2, 9, 3]), Key([9, 9, 9, 1], [9, 9, 9, 3]))
  {
    hide CommonPrefix, SortedOrder, HullTo;
    var page := Upper();
    Before([1], [5], 0);
    Before([1], [5, 2, 9, 3], 0);
    Before([1], [9, 9, 9, 1], 0);
    Before([1], [9, 9, 9, 3], 0);
    Before([5], [9, 9, 9, 1], 0);
    Before([5], [9, 9, 9, 3], 0);
    Before([9, 9, 9, 1], [9, 9, 9, 3], 3);
    Before([9, 9, 9, 2], [9, 9, 9, 3], 3);
    FourSorted(page[0], page[1], page[2], page[3]);
    assert page[..2] == [page[0], page[1]] && page[2..] == [page[2], page[3]];
    PairUnion(page[0], page[1], 0);
    PairUnion(page[2], page[3], 3);
  }

  /**
   * Acceptance by a side's own key is not enough. The first key of the lower page is
   * the union of 5 and 5.2.9.9. Its left half lets through every value of its entries,
   * but the left half of the page above turns away a query for 5.2.9.9.
   */
  lemma TwoSplitsCanMiss()
    ensures UnionKey([LeafKey([5]), LeafKey([5, 2, 9, 9])]) == Lower()[0]
    ensures SortedOrder(Lower(), [0, 1, 2, 3]) && Safe(Lower()[..2], SideKeys(Lower()).0)
    ensures SortedOrder(Upper(), [0, 1, 2, 3]) && SideKeys(Lower()).0 == Upper()[1]
    ensures !Consistent(SideKeys(Upper()).0, [5, 2, 9, 9], Equal, false)
    ensures Loses(Lower()[0], SideKeys(Lower()).0)
  {
    hide UnionKey, SideKeys, SortedOrder, Safe, Loses, Consistent;
    LowerSplit();
    UpperSplit();
    FirstUnion();
    LeftIsSafe();
    LeftLoses();
    UpperTurnsAway();
  }

  lemma UpperTurnsAway()
    ensures !Consistent(Key([1], [5, 2, 9, 3]), [5, 2, 9, 9], Equal, false)
  {
    hide CommonPrefix;
    Before([5, 2, 9, 3], [5, 2, 9, 9], 3);
    assert [1][0] != [5, 2, 9, 9][0] && [5, 2, 9, 3][3] != [5, 2, 9, 9][3];
  }

  lemma FirstUnion()
    ensures UnionKey([LeafKey([5]), LeafKey([5, 2, 9, 9])]) == Key([5], [5, 2, 9])
  {
    hide CommonPrefix, HullTo;
    PrefixBefore([5], [5, 2, 9, 9]);
    PairUnion(LeafKey([5]), LeafKey([5, 2, 9, 9]), 1);
  }

  lemma LeftIsSafe()
    ensures Safe(Lower()[..2], SideKeys(Lower()).0)
  {
    hide CommonPrefix, HullTo, SortedOrder, Safe, Slack;
    LowerSplit();
    PrefixBefore([5], [5, 2, 9]);
    Before([5, 2, 9, 1], [5, 2, 9, 3], 3);
    forall i | 0 <= i < 4
      ensures Ordered(Lower()[i])
    {
      PrefixIsLe([9, 9, 9, 1], [9, 9, 9, 1]);
      PrefixIsLe([9, 9, 9, 2], [9, 9, 9, 2]);
    }
    assert [5] <= [5, 2, 9] && [5] <= [5, 2, 9, 3];
    SplitSafeIff(Lower());
  }

  lemma LeftLoses()
    ensures Loses(Key([5], [5, 2, 9]), Key([5], [5, 2, 9, 3]))
  {
    PrefixBefore([5], [5, 2, 9]);
    assert [5, 2, 9, 3][3] < 255 && [5][0] != 0;
  }
}
