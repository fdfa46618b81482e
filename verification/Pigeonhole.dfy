/** A list of more than n numbers below n holds some number twice. */
module Pigeonhole {

  ghost function Elements(s: seq<nat>, n: nat): (r: set<nat>)
    requires n <= |s|
    ensures forall x :: x in r ==> exists i :: 0 <= i < n && s[i] == x
  {
    if n == 0 then {} else Elements(s, n - 1) + {s[n - 1]}
  }

  ghost function Below(n: nat): (r: set<nat>)
    ensures |r| == n && forall x :: x in r <==> 0 <= x < n
  {
    if n == 0 then {} else Below(n - 1) + {n - 1}
  }

  lemma {:induction false} SubsetSize(a: set<nat>, b: set<nat>)
    requires a <= b
    ensures |a| <= |b|
    decreases a
  {
    if a == {} {
    } else {
      var x :| x in a;
      SubsetSize(a - {x}, b - {x});
    }
  }

  /** Unless one of the first n elements repeats, there are n of them. */
  lemma {:induction false} SizeOrRepeat(s: seq<nat>, n: nat) returns (i: nat, j: nat)
    requires n <= |s|
    ensures |Elements(s, n)| == n || (i < j < n && s[i] == s[j])
  {
    if n == 0 {
      i, j := 0, 0;
    } else {
      i, j := SizeOrRepeat(s, n - 1);
      if |Elements(s, n - 1)| == n - 1 && s[n - 1] in Elements(s, n - 1) {
        i :| 0 <= i < n - 1 && s[i] == s[n - 1];
        j := n - 1;
      }
    }
  }

  lemma Repeat(s: seq<nat>, n: nat) returns (i: nat, j: nat)
    requires |s| > n && forall k :: 0 <= k < |s| ==> s[k] < n
    ensures i < j < |s| && s[i] == s[j]
  {
    i, j := SizeOrRepeat(s, |s|);
    SubsetSize(Elements(s, |s|), Below(n));
  }
}
