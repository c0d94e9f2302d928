/** Concatenation, and counting in sequences. */
module Sequences {
  lemma Reassociate<T>(a: seq<T>, b: seq<T>, c: seq<T>)
    ensures a + (b + c) == a + b + c
  {
  }

  lemma PrefixStep<T>(s: seq<T>, i: nat)
    requires i < |s|
    ensures s[..i + 1] == s[..i] + [s[i]]
  {
  }

  lemma ReassociateFive<T>(a: seq<T>, b: seq<T>, c: seq<T>, d: seq<T>, e: seq<T>)
    ensures a + b + c + d + e == a + (b + c + d + e)
    ensures e == [] ==> a + b + c + d == a + (b + c + d)
  {
  }

  function Tally<T(==)>(s: seq<T>, x: T): nat {
    if s == [] then 0 else Tally(s[..|s| - 1], x) + if s[|s| - 1] == x then 1 else 0
  }

  lemma {:induction false} TallyIsMultiplicity<T>(s: seq<T>, x: T)
    ensures multiset(s)[x] == Tally(s, x)
  {
    if s != [] {
      TallyIsMultiplicity(s[..|s| - 1], x);
      assert s == s[..|s| - 1] + [s[|s| - 1]];
    }
  }

  lemma {:induction false} TallyAppend<T>(a: seq<T>, b: seq<T>, x: T)
    ensures Tally(a + b, x) == Tally(a, x) + Tally(b, x)
  {
    if b == [] {
      assert a + b == a;
    } else {
      TallyAppend(a, b[..|b| - 1], x);
      assert (a + b)[..|a + b| - 1] == a + b[..|b| - 1];
    }
  }

  /** The elements at the places ks, which ascend. */
  ghost predicate Picks<T>(c: seq<T>, ks: seq<nat>, picked: seq<T>) {
    (forall i, j :: 0 <= i < j < |ks| ==> ks[i] < ks[j]) && |picked| == |ks| &&
    forall n :: 0 <= n < |ks| ==> ks[n] < |c| && picked[n] == c[ks[n]]
  }

  /** Places in the front of a list. */
  lemma PicksWider<T>(c: seq<T>, n: nat, ks: seq<nat>, picked: seq<T>)
    requires n <= |c| && Picks(c[..n], ks, picked)
    ensures Picks(c, ks, picked)
  {
    forall i | 0 <= i < |ks|
      ensures ks[i] < |c| && picked[i] == c[ks[i]]
    {
      assert ks[i] < n && picked[i] == c[..n][ks[i]];
    }
  }

  lemma PicksLast<T>(c: seq<T>, n: nat, ks: seq<nat>, picked: seq<T>)
    requires n < |c| && Picks(c, ks, picked) && forall i :: 0 <= i < |ks| ==> ks[i] < n
    ensures Picks(c, ks + [n], picked + [c[n]])
  {
    var ms, both := ks + [n], picked + [c[n]];
    forall i, j | 0 <= i < j < |ms|
      ensures ms[i] < ms[j]
    {
      assert ms[i] == ks[i] && (j < |ks| ==> ms[j] == ks[j]);
    }
    forall i | 0 <= i < |ms|
      ensures ms[i] < |c| && both[i] == c[ms[i]]
    {
      assert i < |ks| ==> ms[i] == ks[i] && both[i] == picked[i];
    }
  }

  lemma PicksFirst<T>(c: seq<T>, ks: seq<nat>, picked: seq<T>)
    requires c != [] && Picks(c, ks, picked) && forall n :: 0 <= n < |ks| ==> ks[n] > 0
    ensures Picks(c, [0] + ks, [c[0]] + picked)
  {
    var ms, both := [0] + ks, [c[0]] + picked;
    forall i, j | 0 <= i < j < |ms|
      ensures ms[i] < ms[j]
    {
      assert ms[j] == ks[j - 1] && (i > 0 ==> ms[i] == ks[i - 1]);
    }
    forall n | 0 <= n < |ms|
      ensures ms[n] < |c| && both[n] == c[ms[n]]
    {
      assert n > 0 ==> ms[n] == ks[n - 1] && both[n] == picked[n - 1];
    }
  }
}
