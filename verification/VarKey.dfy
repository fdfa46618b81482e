/**
 * GiST keys for bytea: bounds that are cut down to a little more than their
 * common prefix, and the search that must not miss a value under them.
 */
module VarKey {
  type Byte = b: int | 0 <= b < 256
  type Bytea = seq<Byte>

  // ------------------------------------------------------------- bytea order

  /** Length of the longest common prefix, counting on from position i. */
  function PrefixFrom(a: Bytea, b: Bytea, i: nat): (p: nat)
    requires i <= |a| && i <= |b|
    ensures i <= p <= |a| && p <= |b|
    ensures forall k :: i <= k < p ==> a[k] == b[k]
    ensures p == |a| || p == |b| || a[p] != b[p]
    decreases |a| - i
  {
    if i < |a| && i < |b| && a[i] == b[i] then PrefixFrom(a, b, i + 1) else i
  }

  function CommonPrefix(a: Bytea, b: Bytea): nat {
    PrefixFrom(a, b, 0)
  }

  /** Bytewise order, a proper prefix first. */
  predicate Le(a: Bytea, b: Bytea) {
    var p := CommonPrefix(a, b);
    p == |a| || (p < |b| && a[p] < b[p])
  }

  predicate Lt(a: Bytea, b: Bytea) {
    !Le(b, a)
  }

  lemma PrefixUnique(a: Bytea, b: Bytea, p: nat)
    requires p <= |a| && p <= |b| && (forall k :: 0 <= k < p ==> a[k] == b[k])
    requires p == |a| || p == |b| || a[p] != b[p]
    ensures CommonPrefix(a, b) == p
  {
  }

  lemma LeTotal(a: Bytea, b: Bytea)
    ensures Le(a, b) || Le(b, a)
    ensures Le(a, b) && Le(b, a) ==> a == b
  {
    PrefixUnique(b, a, CommonPrefix(a, b));
  }

  lemma PrefixIsLe(a: Bytea, b: Bytea)
    requires a <= b
    ensures Le(a, b)
  {
    PrefixUnique(a, b, |a|);
  }

  lemma LeTransitive(a: Bytea, b: Bytea, c: Bytea)
    requires Le(a, b) && Le(b, c)
    ensures Le(a, c)
    ensures CommonPrefix(a, c) <= CommonPrefix(a, b) && CommonPrefix(a, c) <= CommonPrefix(b, c)
  {
    var p, q := CommonPrefix(a, b), CommonPrefix(b, c);
    var m := if p <= q then p else q;
    PrefixUnique(a, c, m);
  }

  /** What lies between a value and an extension of it extends it too. */
  lemma Sandwich(a: Bytea, b: Bytea, c: Bytea)
    requires a <= c && Le(a, b) && Le(b, c)
    ensures a <= b
  {
    PrefixUnique(a, c, |a|);
    LeTransitive(a, b, c);
  }

  lemma CutIsLe(a: Bytea, b: Bytea, n: nat)
    requires Le(a, b)
    ensures Le(Cut(a, n), Cut(b, n))
  {
    var p := CommonPrefix(a, b);
    var a', b' := Cut(a, n), Cut(b, n);
    PrefixUnique(a', b', if p <= |a'| && p <= |b'| then p else if |a'| <= |b'| then |a'| else |b'|);
  }

  // ------------------------------------------------------------------- keys

  datatype Key = Key(lower: Bytea, upper: Bytea)

  /** The entry a leaf stores. */
  function LeafKey(v: Bytea): Key {
    Key(v, v)
  }

  function Cut(s: Bytea, n: nat): Bytea {
    if |s| <= n then s else s[..n]
  }

  /** Keep one byte past the given prefix length. */
  function Truncated(k: Key, cpf: nat): Key {
    Key(Cut(k.lower, cpf + 1), Cut(k.upper, cpf + 1))
  }

  function Wider(u: Key, e: Key): Key {
    Key(if Lt(e.lower, u.lower) then e.lower else u.lower, if Lt(u.upper, e.upper) then e.upper else u.upper)
  }

  /** The bounds of the first n entries, folded from the left. */
  function HullTo(entries: seq<Key>, n: nat): Key
    requires 0 < n <= |entries|
  {
    if n == 1 then entries[0] else Wider(HullTo(entries, n - 1), entries[n - 1])
  }

  function UnionKey(entries: seq<Key>): Key
    requires |entries| > 0
  {
    var hull := HullTo(entries, |entries|);
    Truncated(hull, CommonPrefix(hull.lower, hull.upper) + 1)
  }

  /** A node key's common prefix length, byte by byte. */
  method NodeCpLen(k: Key) returns (i: nat)
    ensures i == CommonPrefix(k.lower, k.upper)
  {
    var ml := if |k.lower| <= |k.upper| then |k.lower| else |k.upper|;
    i := 0;
    if ml == 0 {
      return;
    }
    while i < ml
      invariant i <= ml && CommonPrefix(k.lower, k.upper) == PrefixFrom(k.lower, k.upper, i)
    {
      if k.lower[i] != k.upper[i] {
        return;
      }
      i := i + 1;
    }
  }

  /** Widen the bounds so far, if any, by one more entry. */
  method BinUnion(u: seq<Key>, e: Key) returns (r: Key)
    requires |u| <= 1
    ensures r == if u == [] then e else Wider(u[0], e)
  {
    if |u| == 1 {
      r := u[0];
      if Lt(e.lower, u[0].lower) {
        r := Key(e.lower, r.upper);
      }
      if Lt(u[0].upper, e.upper) {
        r := Key(r.lower, e.upper);
      }
    } else {
      r := e;
    }
  }

  method Union(entries: seq<Key>) returns (r: Key)
    requires |entries| > 0
    ensures r == UnionKey(entries)
  {
    var out := entries[0];
    for i := 1 to |entries|
      invariant out == HullTo(entries, i)
    {
      out := BinUnion([out], entries[i]);
    }
    var plen := NodeCpLen(out);
    r := Truncated(out, plen + 1);
  }

  // ---------------------------------------------------------------- coverage

  predicate Ordered(k: Key) {
    Le(k.lower, k.upper)
  }

  /** The upper bound is long enough to stand for everything that extends it. */
  predicate Slack(k: Key) {
    |k.upper| >= CommonPrefix(k.lower, k.upper) + 2
  }

  /** Values a truncated key stands for. */
  predicate Covers(k: Key, v: Bytea) {
    Le(k.lower, v) && (Le(v, k.upper) || (k.upper <= v && Slack(k)))
  }

  lemma {:induction false} HullBounds(entries: seq<Key>, n: nat, i: nat)
    requires i < n <= |entries|
    ensures Le(HullTo(entries, n).lower, entries[i].lower) && Le(entries[i].upper, HullTo(entries, n).upper)
  {
    var k := HullTo(entries, n);
    if n == 1 {
      PrefixIsLe(k.lower, k.lower);
      PrefixIsLe(k.upper, k.upper);
    } else {
      var u, e := HullTo(entries, n - 1), entries[n - 1];
      LeTotal(e.lower, u.lower);
      LeTotal(u.upper, e.upper);
      if i < n - 1 {
        HullBounds(entries, n - 1, i);
        if Lt(e.lower, u.lower) {
          LeTransitive(e.lower, u.lower, entries[i].lower);
        }
        if Lt(u.upper, e.upper) {
          LeTransitive(entries[i].upper, u.upper, e.upper);
        }
      } else {
        PrefixIsLe(e.lower, e.lower);
        PrefixIsLe(e.upper, e.upper);
      }
    }
  }

  /** Each bound of the fold is some entry's, so the fold is the least key around the entries. */
  lemma {:induction false} HullAttained(entries: seq<Key>, n: nat)
    requires 0 < n <= |entries|
    ensures exists i :: 0 <= i < n && HullTo(entries, n).lower == entries[i].lower
    ensures exists i :: 0 <= i < n && HullTo(entries, n).upper == entries[i].upper
  {
    hide Le;
    if n == 1 {
      assert HullTo(entries, n).lower == entries[0].lower && HullTo(entries, n).upper == entries[0].upper;
    } else {
      HullAttained(entries, n - 1);
    }
  }

  /** The union's key: its hull, each bound cut to two bytes past their common prefix. */
  lemma UnionKeyIs(entries: seq<Key>)
    requires |entries| > 0
    ensures var h, k := HullTo(entries, |entries|), UnionKey(entries);
            var n := CommonPrefix(h.lower, h.upper) + 2;
            && (if |h.lower| <= n then k.lower == h.lower else |k.lower| == n && k.lower < h.lower)
            && (if |h.upper| <= n then k.upper == h.upper else |k.upper| == n && k.upper < h.upper)
  {
    hide HullTo, CommonPrefix;
  }

  /** Cutting past the first difference does not move it. */
  lemma CutKeepsPrefix(a: Bytea, b: Bytea, n: nat)
    requires n > CommonPrefix(a, b)
    ensures CommonPrefix(Cut(a, n), Cut(b, n)) == CommonPrefix(a, b)
  {
    PrefixUnique(Cut(a, n), Cut(b, n), CommonPrefix(a, b));
  }

  /** A value past the hull that extends an entry's upper bound extends the cut hull. */
  lemma CoveredBeyond(k: Key, e: Key, v: Bytea)
    requires Le(k.lower, e.lower) && Ordered(e) && Le(e.upper, k.upper)
    requires e.upper <= v && Slack(e) && !Le(v, k.upper)
    ensures Cut(k.upper, CommonPrefix(k.lower, k.upper) + 2) <= v
    ensures |k.upper| >= CommonPrefix(k.lower, k.upper) + 2
  {
    LeTotal(v, k.upper);
    Sandwich(e.upper, k.upper, v);
    LeTransitive(k.lower, e.lower, e.upper);
    LeTransitive(k.lower, e.upper, k.upper);
  }

  /** A truncated hull covers what one of its entries covers. */
  lemma HullCovers(k: Key, e: Key, v: Bytea)
    requires Le(k.lower, e.lower) && Ordered(e) && Le(e.upper, k.upper) && Covers(e, v)
    ensures Covers(Truncated(k, CommonPrefix(k.lower, k.upper) + 1), v)
  {
    hide Le, CommonPrefix;
    var p := CommonPrefix(k.lower, k.upper);
    CutKeepsPrefix(k.lower, k.upper, p + 2);
    PrefixIsLe(Cut(k.lower, p + 2), k.lower);
    LeTransitive(k.lower, e.lower, v);
    LeTransitive(Cut(k.lower, p + 2), k.lower, v);
    if Le(v, k.upper) {
      CoveredBelow(k.upper, p + 2, v);
    } else if Le(v, e.upper) {
      LeTransitive(v, e.upper, k.upper);
    } else {
      CoveredBeyond(k, e, v);
    }
  }

  /** A union's truncated key covers what its entries cover. */
  lemma UnionCovers(entries: seq<Key>, i: nat, v: Bytea)
    requires i < |entries| && Ordered(entries[i]) && Covers(entries[i], v)
    ensures Covers(UnionKey(entries), v)
  {
    HullBounds(entries, |entries|, i);
    HullCovers(HullTo(entries, |entries|), entries[i], v);
  }

  /** A value up to a bound is up to the cut bound, or extends it. */
  lemma CoveredBelow(u: Bytea, n: nat, v: Bytea)
    requires Le(v, u)
    ensures Le(v, Cut(u, n)) || (Cut(u, n) <= v && |Cut(u, n)| == n)
  {
    LeTotal(v, Cut(u, n));
    if !Le(v, Cut(u, n)) {
      Sandwich(Cut(u, n), v, u);
    }
  }

  lemma UnionOrdered(entries: seq<Key>, i: nat)
    requires i < |entries| && Ordered(entries[i])
    ensures Ordered(UnionKey(entries))
  {
    var k := HullTo(entries, |entries|);
    HullBounds(entries, |entries|, i);
    LeTransitive(k.lower, entries[i].lower, entries[i].upper);
    LeTransitive(k.lower, entries[i].upper, k.upper);
    CutIsLe(k.lower, k.upper, CommonPrefix(k.lower, k.upper) + 2);
  }

  // ------------------------------------------------------------------ search

  datatype Strategy = Less | LessEqual | Equal | GreaterEqual | Greater | NotEqual

  /** What each operator asks of a stored value. */
  predicate Satisfies(s: Strategy, v: Bytea, q: Bytea) {
    match s
    case Less => Lt(v, q)
    case LessEqual => Le(v, q)
    case Equal => v == q
    case GreaterEqual => Le(q, v)
    case Greater => Lt(q, v)
    case NotEqual => v != q
  }

  predicate PrefixMatch(k: Key, q: Bytea) {
    k.lower <= q || k.upper <= q
  }

  /** The GiST consistent test. */
  predicate Consistent(k: Key, q: Bytea, s: Strategy, isLeaf: bool) {
    match s
    case LessEqual => if isLeaf then Le(k.lower, q) else Le(k.lower, q) || PrefixMatch(k, q)
    case Less => if isLeaf then Lt(k.lower, q) else Le(k.lower, q) || PrefixMatch(k, q)
    case Equal => if isLeaf then q == k.lower else (Le(k.lower, q) && Le(q, k.upper)) || PrefixMatch(k, q)
    case Greater => if isLeaf then Lt(q, k.upper) else Le(q, k.upper) || PrefixMatch(k, q)
    case GreaterEqual => if isLeaf then Le(q, k.upper) else Le(q, k.upper) || PrefixMatch(k, q)
    case NotEqual => !(q == k.lower && q == k.upper)
  }

  lemma OperatorsAre(v: Bytea, q: Bytea)
    ensures Satisfies(Less, v, q) <==> Le(v, q) && v != q
    ensures Satisfies(Greater, v, q) <==> Satisfies(Less, q, v)
    ensures Satisfies(Equal, v, q) <==> !Satisfies(Less, v, q) && !Satisfies(Greater, v, q)
    ensures Satisfies(LessEqual, v, q) <==> !Satisfies(Greater, v, q)
    ensures Satisfies(GreaterEqual, v, q) <==> !Satisfies(Less, v, q)
    ensures Satisfies(NotEqual, v, q) <==> !Satisfies(Equal, v, q)
  {
    LeTotal(v, q);
    PrefixUnique(v, v, |v|);
  }

  /** The order: the first difference decides, and a proper prefix comes first. */
  lemma LeIs(a: Bytea, b: Bytea)
    ensures Le(a, b) <==> a <= b || exists p :: 0 <= p < |a| && p < |b| && a[..p] == b[..p] && a[p] < b[p]
  {
    if Le(a, b) && !(a <= b) {
      var p := CommonPrefix(a, b);
      assert a[..p] == b[..p];
    }
    if a <= b {
      PrefixIsLe(a, b);
    }
    if p :| 0 <= p < |a| && p < |b| && a[..p] == b[..p] && a[p] < b[p] {
      forall k | 0 <= k < p
        ensures a[k] == b[k]
      {
        assert a[..p][k] == b[..p][k];
      }
      PrefixUnique(a, b, p);
    }
  }

  /** The values the inner test reckons with: between the bounds, or extending one of them. */
  predicate Reckoned(k: Key, v: Bytea) {
    (Le(k.lower, v) && Le(v, k.upper)) || k.lower <= v || k.upper <= v
  }

  lemma ReckonedAbove(k: Key, v: Bytea, q: Bytea)
    requires Ordered(k) && Reckoned(k, v) && Le(q, v)
    ensures Le(q, k.upper) || PrefixMatch(k, q)
  {
    LeTotal(q, k.upper);
    if !Le(q, k.upper) {
      LeTransitive(k.lower, k.upper, q);
      if k.lower <= v {
        Sandwich(k.lower, q, v);
      } else if k.upper <= v {
        Sandwich(k.upper, q, v);
      } else {
        LeTransitive(q, v, k.upper);
      }
    }
  }

  lemma ReckonedBelow(k: Key, v: Bytea)
    requires Ordered(k) && Reckoned(k, v)
    ensures Le(k.lower, v)
  {
    if k.lower <= v {
      PrefixIsLe(k.lower, v);
    } else if k.upper <= v {
      PrefixIsLe(k.upper, v);
      LeTransitive(k.lower, k.upper, v);
    }
  }

  /** A key is turned away exactly when no such value satisfies the operator or is the query. */
  lemma AcceptedIff(k: Key, q: Bytea, s: Strategy)
    requires Ordered(k)
    ensures !s.NotEqual? ==>
              (Consistent(k, q, s, false) <==> exists v :: Reckoned(k, v) && (Satisfies(s, v, q) || v == q))
    ensures Consistent(k, q, NotEqual, false) <==> q != k.lower || q != k.upper
  {
    LowerReckoned(k);
    if Consistent(k, q, s, false) && !s.NotEqual? {
      var v := if Reckoned(k, q) then q else if s.Less? || s.LessEqual? then k.lower else k.upper;
      OperatorsAre(v, q);
      assert Reckoned(k, v) && (Satisfies(s, v, q) || v == q);
    }
    if v :| Reckoned(k, v) && (Satisfies(s, v, q) || v == q) {
      ReckonedBelow(k, v);
      OperatorsAre(v, q);
      PrefixIsLe(q, q);
      if Le(q, v) {
        ReckonedAbove(k, v, q);
      }
      if Le(v, q) {
        LeTransitive(k.lower, v, q);
      }
    }
  }

  lemma LowerReckoned(k: Key)
    requires Ordered(k)
    ensures Reckoned(k, k.lower) && Reckoned(k, k.upper)
  {
  }

  /** No query is turned away from a key that covers an answer. */
  lemma CoveredIsAccepted(k: Key, v: Bytea, q: Bytea, s: Strategy)
    requires Covers(k, v) && Satisfies(s, v, q)
    ensures Consistent(k, q, s, false)
  {
    LeTotal(v, q);
    LeTotal(q, k.upper);
    if Le(v, q) {
      LeTransitive(k.lower, v, q);
    } else if Le(v, k.upper) {
      LeTransitive(q, v, k.upper);
    } else if !Le(q, k.upper) {
      Sandwich(k.upper, q, v);
    }
    PrefixUnique(k.upper, k.upper, |k.upper|);
  }

  /** A key with equal bounds covers nothing else. */
  lemma LeafStandsForItself(k: Key, v: Bytea)
    requires k.lower == k.upper && Covers(k, v)
    ensures v == k.lower
  {
    PrefixUnique(k.lower, k.lower, |k.lower|);
    LeTotal(v, k.lower);
  }
}
