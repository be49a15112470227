/** Walks over a finite directed graph of roles: the vocabulary in which every
    search of the role resolver is specified. */
module Walks {

  datatype Option<+T> = None | Some(value: T)

  type RoleId = int

  /** A directed graph; `(a, b)` is one step from `a` to `b`. */
  type Arcs = set<(RoleId, RoleId)>

  function Elems<T>(s: seq<T>): set<T> {
    set x | x in s
  }

  /** No element occurs twice. */
  ghost predicate NoDup<T(!new)>(s: seq<T>) {
    s == [] || (s[|s| - 1] !in s[..|s| - 1] && NoDup(s[..|s| - 1]))
  }

  lemma {:induction false} NoDupMeans<T(!new)>(s: seq<T>)
    ensures NoDup(s) <==> forall i, j :: 0 <= i < j < |s| ==> s[i] != s[j]
  {
    if s != [] {
      var init, last := s[..|s| - 1], s[|s| - 1];
      NoDupMeans(init);
      if NoDup(s) {
        forall i, j | 0 <= i < j < |s| ensures s[i] != s[j] {
          assert s[i] == init[i] && init[i] in init;
        }
      }
      if forall i, j :: 0 <= i < j < |s| ==> s[i] != s[j] {
        assert forall i, j :: 0 <= i < j < |init| ==> init[i] == s[i] && init[j] == s[j];
      }
    }
  }

  lemma {:induction false} NoDupAppend<T(!new)>(a: seq<T>, b: seq<T>)
    requires NoDup(a) && NoDup(b) && forall x :: x in b ==> x !in a
    ensures NoDup(a + b)
    decreases b
  {
    if b == [] {
      assert a + b == a;
    } else {
      var init, last := b[..|b| - 1], b[|b| - 1];
      NoDupAppend(a, init);
      assert (a + b)[..|a + b| - 1] == a + init;
      assert last in b && last !in a + init;
    }
  }

  /** A list with every occurrence of one element removed. */
  ghost function Without<T>(s: seq<T>, x: T): seq<T> {
    if s == [] then []
    else
      var before := Without(s[..|s| - 1], x);
      if s[|s| - 1] == x then before else before + [s[|s| - 1]]
  }

  lemma {:induction false} WithoutMeans<T(!new)>(s: seq<T>, x: T)
    ensures forall y :: y in Without(s, x) <==> y in s && y != x
    decreases s
  {
    if s != [] {
      WithoutMeans(s[..|s| - 1], x);
      assert s == s[..|s| - 1] + [s[|s| - 1]];
    }
  }

  /** The elements to keep, in order. */
  ghost function Kept<T>(s: seq<T>, keep: T -> bool): seq<T> {
    if s == [] then []
    else
      var before := Kept(s[..|s| - 1], keep);
      if keep(s[|s| - 1]) then before + [s[|s| - 1]] else before
  }

  lemma {:induction false} KeptMeans<T(!new)>(s: seq<T>, keep: T -> bool)
    ensures forall y :: y in Kept(s, keep) <==> y in s && keep(y)
    decreases s
  {
    if s != [] {
      KeptMeans(s[..|s| - 1], keep);
      assert s == s[..|s| - 1] + [s[|s| - 1]];
    }
  }

  lemma PushAfter<T>(a: seq<T>, b: seq<T>, x: T)
    ensures a + (b + [x]) == a + b + [x]
  {
  }

  ghost predicate IsWalk(arcs: Arcs, p: seq<RoleId>) {
    && |p| > 0
    && forall i, j :: 0 <= i < |p| - 1 && j == i + 1 ==> (p[i], p[j]) in arcs
  }

  ghost predicate WalkFrom(arcs: Arcs, p: seq<RoleId>, a: RoleId, b: RoleId) {
    IsWalk(arcs, p) && p[0] == a && p[|p| - 1] == b
  }

  /** Some walk of exactly `n` steps leads from `a` to `b`. */
  ghost predicate Reach(arcs: Arcs, a: RoleId, b: RoleId, n: nat) {
    exists p :: WalkFrom(arcs, p, a, b) && |p| == n + 1
  }

  /** Some walk, possibly empty, leads from `a` to `b`. */
  ghost predicate Connected(arcs: Arcs, a: RoleId, b: RoleId) {
    exists n :: Reach(arcs, a, b, n)
  }

  /** Some walk of at least one step leads from `a` to `b`. */
  ghost predicate Above(arcs: Arcs, a: RoleId, b: RoleId) {
    exists n: nat :: n >= 1 && Reach(arcs, a, b, n)
  }

  ghost predicate Acyclic(arcs: Arcs) {
    forall a :: !Above(arcs, a, a)
  }

  /** `n` is the length of a shortest walk from `a` to `b`. */
  ghost predicate IsDistance(arcs: Arcs, a: RoleId, b: RoleId, n: nat) {
    Reach(arcs, a, b, n) && forall m: nat :: Reach(arcs, a, b, m) ==> n <= m
  }

  /** `n` is the greatest shortest-walk length from `a` to any role it reaches. */
  ghost predicate IsEccentricity(arcs: Arcs, a: RoleId, n: nat) {
    && (exists b :: IsDistance(arcs, a, b, n))
    && (forall b, m: nat :: IsDistance(arcs, a, b, m) ==> m <= n)
  }

  /** Every role is within `n` steps of every role it reaches. */
  ghost predicate DistancesWithin(arcs: Arcs, n: nat) {
    forall a, b :: Connected(arcs, a, b) ==> exists m: nat :: m <= n && Reach(arcs, a, b, m)
  }

  ghost function Reversed(arcs: Arcs): Arcs {
    set e | e in arcs :: (e.1, e.0)
  }

  lemma WalkGives(arcs: Arcs, p: seq<RoleId>)
    requires IsWalk(arcs, p)
    ensures Reach(arcs, p[0], p[|p| - 1], |p| - 1)
  {
    assert WalkFrom(arcs, p, p[0], p[|p| - 1]);
  }

  lemma SubWalk(arcs: Arcs, p: seq<RoleId>, i: nat, j: nat)
    requires IsWalk(arcs, p) && i <= j < |p|
    ensures IsWalk(arcs, p[i..j + 1])
    ensures Reach(arcs, p[i], p[j], j - i)
  {
    var q := p[i..j + 1];
    forall k, l | 0 <= k < |q| - 1 && l == k + 1
      ensures (q[k], q[l]) in arcs
    {
      assert q[k] == p[i + k] && q[l] == p[i + l];
    }
    WalkGives(arcs, q);
  }

  lemma ReachZero(arcs: Arcs, a: RoleId)
    ensures Reach(arcs, a, a, 0)
  {
    WalkGives(arcs, [a]);
  }

  lemma ReachZeroIsEqual(arcs: Arcs, a: RoleId, b: RoleId)
    requires Reach(arcs, a, b, 0)
    ensures a == b
  {
  }

  /** Walks compose. */
  lemma ReachTrans(arcs: Arcs, a: RoleId, b: RoleId, c: RoleId, m: nat, n: nat)
    requires Reach(arcs, a, b, m) && Reach(arcs, b, c, n)
    ensures Reach(arcs, a, c, m + n)
  {
    var p :| WalkFrom(arcs, p, a, b) && |p| == m + 1;
    var q :| WalkFrom(arcs, q, b, c) && |q| == n + 1;
    var r := p + q[1..];
    forall i, j | 0 <= i < |r| - 1 && j == i + 1
      ensures (r[i], r[j]) in arcs
    {
      if j < |p| {
        assert r[i] == p[i] && r[j] == p[j];
      } else {
        assert r[i] == q[i - m] && r[j] == q[j - m];
      }
    }
    assert WalkFrom(arcs, r, a, c);
  }

  lemma ReachArc(arcs: Arcs, a: RoleId, b: RoleId)
    requires (a, b) in arcs
    ensures Reach(arcs, a, b, 1)
  {
    WalkGives(arcs, [a, b]);
  }

  lemma ReachExtend(arcs: Arcs, a: RoleId, b: RoleId, c: RoleId, n: nat)
    requires Reach(arcs, a, b, n) && (b, c) in arcs
    ensures Reach(arcs, a, c, n + 1)
  {
    ReachArc(arcs, b, c);
    ReachTrans(arcs, a, b, c, n, 1);
  }

  /** The last step of a walk. */
  lemma ReachLast(arcs: Arcs, a: RoleId, c: RoleId, n: nat) returns (b: RoleId)
    requires n >= 1 && Reach(arcs, a, c, n)
    ensures Reach(arcs, a, b, n - 1) && (b, c) in arcs
  {
    var p :| WalkFrom(arcs, p, a, c) && |p| == n + 1;
    b := p[n - 1];
    SubWalk(arcs, p, 0, n - 1);
    assert (p[n - 1], p[n]) in arcs;
  }

  /** The first step of a walk. */
  lemma ReachFirst(arcs: Arcs, a: RoleId, c: RoleId, n: nat) returns (b: RoleId)
    requires n >= 1 && Reach(arcs, a, c, n)
    ensures (a, b) in arcs && Reach(arcs, b, c, n - 1)
  {
    var p :| WalkFrom(arcs, p, a, c) && |p| == n + 1;
    b := p[1];
    SubWalk(arcs, p, 1, n);
    assert (p[0], p[1]) in arcs;
  }

  lemma ReachMono(arcs: Arcs, bigger: Arcs, a: RoleId, b: RoleId, n: nat)
    requires arcs <= bigger && Reach(arcs, a, b, n)
    ensures Reach(bigger, a, b, n)
  {
    var p :| WalkFrom(arcs, p, a, b) && |p| == n + 1;
    assert WalkFrom(bigger, p, a, b);
  }

  lemma {:induction false} ReachReversed(arcs: Arcs, a: RoleId, b: RoleId, n: nat)
    requires Reach(arcs, a, b, n)
    ensures Reach(Reversed(arcs), b, a, n)
    decreases n
  {
    if n == 0 {
      ReachZeroIsEqual(arcs, a, b);
      ReachZero(Reversed(arcs), a);
    } else {
      var c := ReachLast(arcs, a, b, n);
      ReachReversed(arcs, a, c, n - 1);
      assert (b, c) in Reversed(arcs);
      ReachArc(Reversed(arcs), b, c);
      ReachTrans(Reversed(arcs), b, c, a, 1, n - 1);
    }
  }

  lemma ReversedTwice(arcs: Arcs)
    ensures Reversed(Reversed(arcs)) == arcs
  {
    forall e | e in arcs
      ensures e in Reversed(Reversed(arcs))
    {
      assert (e.1, e.0) in Reversed(arcs);
    }
  }

  /** Whatever is reached has a distance. */
  lemma {:induction false} DistanceExists(arcs: Arcs, a: RoleId, b: RoleId, m: nat) returns (n: nat)
    requires Reach(arcs, a, b, m)
    ensures n <= m && IsDistance(arcs, a, b, n)
    decreases m
  {
    if k: nat :| k < m && Reach(arcs, a, b, k) {
      n := DistanceExists(arcs, a, b, k);
    } else {
      n := m;
    }
  }
}
