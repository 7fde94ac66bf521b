/** Sets of small numbers and their sizes. */
module Counting {

  function Below(n: nat): (b: set<nat>)
    ensures |b| == n && forall s: nat :: s in b <==> s < n
  {
    if n == 0 then {} else Below(n - 1) + {n - 1}
  }

  lemma OneMore(s: set<nat>, n: nat)
    requires n > 0
    ensures |s * Below(n)| == |s * Below(n - 1)| + if n - 1 in s then 1 else 0
  {
    if n - 1 in s {
      assert s * Below(n) == s * Below(n - 1) + {n - 1};
    } else {
      assert s * Below(n) == s * Below(n - 1);
    }
  }

  function Elements(s: seq<nat>): (e: set<nat>)
    ensures forall x :: x in e <==> x in s
    ensures |e| <= |s|
  {
    if s == [] then {} else Elements(s[1..]) + {s[0]}
  }

  /** As many elements as places, when no number occurs twice. */
  lemma {:induction false} AllDifferent(s: seq<nat>)
    requires forall i, j | 0 <= i < j < |s| :: s[i] != s[j]
    ensures |Elements(s)| == |s|
  {
    if s != [] {
      AllDifferent(s[1..]);
      assert s[0] !in s[1..];
    }
  }

  lemma SameSize(part: set<nat>, whole: set<nat>)
    requires part <= whole
    ensures |part| == |whole| <==> part == whole
  {
    var rest := whole - part;
    assert whole == part + rest;
    assert |whole| == |part| + |rest|;
  }

  /** Different numbers below `n` are all of them exactly when there are `n`. */
  lemma Exhausted(s: seq<nat>, n: nat)
    requires forall i, j | 0 <= i < j < |s| :: s[i] != s[j]
    requires forall i | 0 <= i < |s| :: s[i] < n
    ensures |s| == n <==> forall x: nat | x < n :: x in s
  {
    AllDifferent(s);
    SameSize(Elements(s), Below(n));
  }

  lemma TimesGrows(a: nat, b: nat, d: nat)
    requires a <= b
    ensures a * d <= b * d
  {}

  /** A remainder is determined by its quotient. */
  lemma RemainderIs(n: nat, d: nat, q: nat, r: nat)
    requires r < d && n == q * d + r
    ensures n % d == r
  {
    var p := n / d;
    assert n == p * d + n % d;
    assert (p + 1) * d == p * d + d && (q + 1) * d == q * d + d;
    if p < q { TimesGrows(p + 1, q, d); }
    if q < p { TimesGrows(q + 1, p, d); }
  }

  lemma NextRemainder(n: nat, d: nat)
    requires d > 0
    ensures (n + 1) % d == if n % d + 1 == d then 0 else n % d + 1
  {
    var q, r := n / d, n % d;
    assert n == q * d + r;
    if r + 1 == d {
      assert (q + 1) * d == q * d + d;
      RemainderIs(n + 1, d, q + 1, 0);
    } else {
      RemainderIs(n + 1, d, q, r + 1);
    }
  }
}
