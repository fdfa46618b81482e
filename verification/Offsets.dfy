/** Orders of a page's entries, as sorting them leaves them. */
module Offsets {
  ghost predicate OccursOnce(s: seq<nat>, i: nat) {
    exists k :: 0 <= k < |s| && s[k] == i && forall j :: 0 <= j < |s| && s[j] == i ==> j == k
  }

  /** Every one of the n entries is there, once. */
  ghost predicate IsOrder(s: seq<nat>, n: nat) {
    && |s| == n
    && (forall k :: 0 <= k < n ==> s[k] < n)
    && (forall i :: 0 <= i < n ==> OccursOnce(s, i))
  }

  /** However an order is cut in two, each entry is on exactly one side. */
  lemma Partition(s: seq<nat>, n: nat, m: nat, i: nat)
    requires IsOrder(s, n) && m <= n && i < n
    ensures i in s[..m] <==> i !in s[m..]
  {
    assert OccursOnce(s, i);
    var k :| 0 <= k < n && s[k] == i;
    assert k < m ==> s[..m][k] == i;
    assert k >= m ==> s[m..][k - m] == i;
  }

  lemma Halves(s: seq<nat>, n: nat)
    requires IsOrder(s, n)
    ensures forall i :: 0 <= i < n ==> (i in s[..n / 2] <==> i !in s[n / 2..])
  {
    forall i | 0 <= i < n
      ensures i in s[..n / 2] <==> i !in s[n / 2..]
    {
      Partition(s, n, n / 2, i);
    }
  }

  /** The entries in the order given. */
  function Chosen<T>(entries: seq<T>, offsets: seq<nat>): (r: seq<T>)
    requires forall i :: 0 <= i < |offsets| ==> offsets[i] < |entries|
    ensures |r| == |offsets| && forall i :: 0 <= i < |r| ==> r[i] == entries[offsets[i]]
  {
    seq(|offsets|, i requires 0 <= i < |offsets| => entries[offsets[i]])
  }

  /** The first n slots hold the first n offsets. */
  ghost predicate Stored(spl: array<nat>, n: nat, s: seq<nat>)
    reads spl
  {
    n <= spl.Length && n <= |s| && forall k :: 0 <= k < n ==> spl[k] == s[k]
  }

  method Store(spl: array<nat>, n: nat, x: nat, ghost s: seq<nat>)
    requires n < spl.Length && Stored(spl, n, s) && n < |s| && s[n] == x
    modifies spl
    ensures Stored(spl, n + 1, s)
  {
    spl[n] := x;
  }

  lemma StoredAll(spl: array<nat>, s: seq<nat>)
    requires Stored(spl, |s|, s)
    ensures spl[..|s|] == s
  {
  }
}
