/**
 * Search in a GiST, for any kind of key. An inner entry holds a key computed by
 * the union method; the search descends only where the consistent method says
 * the key may hold an answer.
 */
module GistTree {
  /**
   * A stored value, or a node. The node's key summarises `entries`: the keys of
   * its children and perhaps others, as when a key was only ever widened.
   */
  datatype Tree<K, V> = Leaf(value: V) | Node(key: K, entries: seq<K>, children: seq<Tree<K, V>>)

  function KeyOf<K, V>(t: Tree<K, V>, leafKey: V -> K): K {
    if t.Leaf? then leafKey(t.value) else t.key
  }

  /** Every key is a union of keys that include its children's. */
  ghost predicate Built<K(!new), V(!new)>(t: Tree<K, V>, leafKey: V -> K, isUnion: (seq<K>, K) -> bool)
    decreases t
  {
    t.Node? ==>
      && isUnion(t.entries, t.key)
      && forall i :: 0 <= i < |t.children| ==>
           Built(t.children[i], leafKey, isUnion) && KeyOf(t.children[i], leafKey) in t.entries
  }

  /** The value is stored somewhere below. */
  ghost predicate Below<K(!new), V(!new)>(t: Tree<K, V>, v: V)
    decreases t
  {
    match t
    case Leaf(w) => w == v
    case Node(_, _, cs) => exists i :: 0 <= i < |cs| && Below(cs[i], v)
  }

  /** A union covers whatever one of its entries covers. */
  ghost predicate UnionKeeps<K(!new), V(!new)>(isUnion: (seq<K>, K) -> bool, covers: (K, V) -> bool) {
    forall entries, key, i, v {:trigger isUnion(entries, key), covers(entries[i], v)} ::
      isUnion(entries, key) && 0 <= i < |entries| && covers(entries[i], v) ==> covers(key, v)
  }

  ghost predicate LeafCovered<K(!new), V(!new)>(leafKey: V -> K, covers: (K, V) -> bool) {
    forall v :: covers(leafKey(v), v)
  }

  /** However high the tree, every key covers all values below it. */
  lemma {:induction false} KeyCovers<K(!new), V(!new)>(
    t: Tree<K, V>, leafKey: V -> K, isUnion: (seq<K>, K) -> bool, covers: (K, V) -> bool, v: V)
    requires UnionKeeps(isUnion, covers) && LeafCovered(leafKey, covers)
    requires Built(t, leafKey, isUnion) && Below(t, v)
    ensures covers(KeyOf(t, leafKey), v)
    decreases t
  {
    if t.Node? {
      var i :| 0 <= i < |t.children| && Below(t.children[i], v);
      KeyCovers(t.children[i], leafKey, isUnion, covers, v);
      var j :| 0 <= j < |t.entries| && t.entries[j] == KeyOf(t.children[i], leafKey);
    } else {
      assert covers(leafKey(v), v);
    }
  }

  /** The values below that the query asks for, in order. */
  function Answers<K, V>(t: Tree<K, V>, wanted: V -> bool): seq<V>
    decreases t
  {
    match t
    case Leaf(v) => if wanted(v) then [v] else []
    case Node(_, _, cs) => AnswersTo(cs, |cs|, wanted)
  }

  function AnswersTo<K, V>(cs: seq<Tree<K, V>>, n: nat, wanted: V -> bool): seq<V>
    requires n <= |cs|
    decreases cs, n
  {
    if n == 0 then [] else AnswersTo(cs, n - 1, wanted) + Answers(cs[n - 1], wanted)
  }

  /** The search: the consistent test decides at leaves and prunes at nodes. */
  function Search<K, V>(t: Tree<K, V>, leafTest: V -> bool, nodeTest: K -> bool): seq<V>
    decreases t
  {
    match t
    case Leaf(v) => if leafTest(v) then [v] else []
    case Node(key, _, cs) => if nodeTest(key) then SearchTo(cs, |cs|, leafTest, nodeTest) else []
  }

  function SearchTo<K, V>(cs: seq<Tree<K, V>>, n: nat, leafTest: V -> bool, nodeTest: K -> bool): seq<V>
    requires n <= |cs|
    decreases cs, n
  {
    if n == 0 then [] else SearchTo(cs, n - 1, leafTest, nodeTest) + Search(cs[n - 1], leafTest, nodeTest)
  }

  lemma {:induction false} AnswerIsBelow<K(!new), V(!new)>(t: Tree<K, V>, wanted: V -> bool, v: V)
    requires v in Answers(t, wanted)
    ensures Below(t, v) && wanted(v)
    decreases t
  {
    if t.Leaf? {
    } else {
      AnswerIsBelowTo(t.children, |t.children|, wanted, v);
    }
  }

  lemma {:induction false} AnswerIsBelowTo<K(!new), V(!new)>(cs: seq<Tree<K, V>>, n: nat, wanted: V -> bool, v: V)
    requires n <= |cs| && v in AnswersTo(cs, n, wanted)
    ensures (exists i :: 0 <= i < n && Below(cs[i], v)) && wanted(v)
    decreases cs, n
  {
    if v in Answers(cs[n - 1], wanted) {
      AnswerIsBelow(cs[n - 1], wanted, v);
    } else {
      AnswerIsBelowTo(cs, n - 1, wanted, v);
    }
  }

  lemma {:induction false} BelowIsAnswer<K(!new), V(!new)>(t: Tree<K, V>, wanted: V -> bool, v: V)
    requires Below(t, v) && wanted(v)
    ensures v in Answers(t, wanted)
    decreases t
  {
    if t.Leaf? {
    } else {
      var i :| 0 <= i < |t.children| && Below(t.children[i], v);
      BelowIsAnswerTo(t.children, |t.children|, i, wanted, v);
    }
  }

  lemma {:induction false} BelowIsAnswerTo<K(!new), V(!new)>(
    cs: seq<Tree<K, V>>, n: nat, i: nat, wanted: V -> bool, v: V)
    requires i < n <= |cs| && Below(cs[i], v) && wanted(v)
    ensures v in AnswersTo(cs, n, wanted)
    decreases cs, n
  {
    if i == n - 1 {
      BelowIsAnswer(cs[i], wanted, v);
    } else {
      BelowIsAnswerTo(cs, n - 1, i, wanted, v);
    }
  }

  /** The answers are the values stored below that are wanted. */
  lemma AnswersIff<K(!new), V(!new)>(t: Tree<K, V>, wanted: V -> bool, v: V)
    ensures v in Answers(t, wanted) <==> Below(t, v) && wanted(v)
  {
    if v in Answers(t, wanted) {
      AnswerIsBelow(t, wanted, v);
    }
    if Below(t, v) && wanted(v) {
      BelowIsAnswer(t, wanted, v);
    }
  }

  /** How often the value is stored below. */
  ghost function TimesBelow<K(!new), V(!new)>(t: Tree<K, V>, v: V): nat
    decreases t
  {
    match t
    case Leaf(w) => if w == v then 1 else 0
    case Node(_, _, cs) => TimesBelowTo(cs, |cs|, v)
  }

  ghost function TimesBelowTo<K(!new), V(!new)>(cs: seq<Tree<K, V>>, n: nat, v: V): nat
    requires n <= |cs|
    decreases cs, n
  {
    if n == 0 then 0 else TimesBelowTo(cs, n - 1, v) + TimesBelow(cs[n - 1], v)
  }

  /** A wanted value is answered as often as it is stored. */
  lemma {:induction false} AnswersCount<K(!new), V(!new)>(t: Tree<K, V>, wanted: V -> bool, v: V)
    ensures multiset(Answers(t, wanted))[v] == if wanted(v) then TimesBelow(t, v) else 0
    decreases t
  {
    if t.Leaf? {
    } else {
      AnswersCountTo(t.children, |t.children|, wanted, v);
    }
  }

  lemma {:induction false} AnswersCountTo<K(!new), V(!new)>(cs: seq<Tree<K, V>>, n: nat, wanted: V -> bool, v: V)
    requires n <= |cs|
    ensures multiset(AnswersTo(cs, n, wanted))[v] == if wanted(v) then TimesBelowTo(cs, n, v) else 0
    decreases cs, n
  {
    if n == 0 {
    } else {
      AnswersCountTo(cs, n - 1, wanted, v);
      AnswersCount(cs[n - 1], wanted, v);
    }
  }

  /** The node test lets through every key that covers an answer. */
  ghost predicate NeverPrunes<K(!new), V(!new)>(covers: (K, V) -> bool, wanted: V -> bool, nodeTest: K -> bool) {
    forall k, v {:trigger covers(k, v)} :: covers(k, v) && wanted(v) ==> nodeTest(k)
  }

  ghost predicate LeafExact<V(!new)>(wanted: V -> bool, leafTest: V -> bool) {
    forall v :: leafTest(v) <==> wanted(v)
  }

  /** Sound keys make the pruned search exact. */
  lemma {:induction false} SearchIsExact<K(!new), V(!new)>(
    t: Tree<K, V>, leafKey: V -> K, isUnion: (seq<K>, K) -> bool, covers: (K, V) -> bool,
    wanted: V -> bool, leafTest: V -> bool, nodeTest: K -> bool)
    requires UnionKeeps(isUnion, covers) && LeafCovered(leafKey, covers)
    requires NeverPrunes(covers, wanted, nodeTest) && LeafExact(wanted, leafTest)
    requires Built(t, leafKey, isUnion)
    ensures Search(t, leafTest, nodeTest) == Answers(t, wanted)
    decreases t
  {
    if t.Leaf? {
    } else {
      SearchToIsExact(t.children, |t.children|, leafKey, isUnion, covers, wanted, leafTest, nodeTest);
      if !nodeTest(t.key) && Answers(t, wanted) != [] {
        var v := Answers(t, wanted)[0];
        AnswerIsBelow(t, wanted, v);
        KeyCovers(t, leafKey, isUnion, covers, v);
      }
    }
  }

  lemma {:induction false} SearchToIsExact<K(!new), V(!new)>(
    cs: seq<Tree<K, V>>, n: nat, leafKey: V -> K, isUnion: (seq<K>, K) -> bool, covers: (K, V) -> bool,
    wanted: V -> bool, leafTest: V -> bool, nodeTest: K -> bool)
    requires UnionKeeps(isUnion, covers) && LeafCovered(leafKey, covers)
    requires NeverPrunes(covers, wanted, nodeTest) && LeafExact(wanted, leafTest)
    requires n <= |cs| && forall i :: 0 <= i < |cs| ==> Built(cs[i], leafKey, isUnion)
    ensures SearchTo(cs, n, leafTest, nodeTest) == AnswersTo(cs, n, wanted)
    decreases cs, n
  {
    if n == 0 {
    } else {
      SearchToIsExact(cs, n - 1, leafKey, isUnion, covers, wanted, leafTest, nodeTest);
      SearchIsExact(cs[n - 1], leafKey, isUnion, covers, wanted, leafTest, nodeTest);
    }
  }

  // ------------------------------------------------------------ queries that agree

  /** The two tests agree on all values stored below. */
  ghost predicate AgreeBelow<K(!new), V(!new)>(t: Tree<K, V>, p: V -> bool, q: V -> bool) {
    forall v :: Below(t, v) ==> (p(v) <==> q(v))
  }

  lemma {:induction false} SameAnswers<K(!new), V(!new)>(t: Tree<K, V>, p: V -> bool, q: V -> bool, nodeTest: K -> bool)
    requires AgreeBelow(t, p, q)
    ensures Answers(t, p) == Answers(t, q) && Search(t, p, nodeTest) == Search(t, q, nodeTest)
    decreases t
  {
    if t.Node? {
      forall i | 0 <= i < |t.children|
        ensures AgreeBelow(t.children[i], p, q)
      {
        assert forall v :: Below(t.children[i], v) ==> Below(t, v);
      }
      SameAnswersTo(t.children, |t.children|, p, q, nodeTest);
    } else {
      assert Below(t, t.value);
    }
  }

  lemma {:induction false} SameAnswersTo<K(!new), V(!new)>(
    cs: seq<Tree<K, V>>, n: nat, p: V -> bool, q: V -> bool, nodeTest: K -> bool)
    requires n <= |cs| && forall i :: 0 <= i < |cs| ==> AgreeBelow(cs[i], p, q)
    ensures AnswersTo(cs, n, p) == AnswersTo(cs, n, q) && SearchTo(cs, n, p, nodeTest) == SearchTo(cs, n, q, nodeTest)
    decreases cs, n
  {
    if n == 0 {
    } else {
      SameAnswersTo(cs, n - 1, p, q, nodeTest);
      SameAnswers(cs[n - 1], p, q, nodeTest);
    }
  }
}
