/** Key sequences under the order that keeps a keymap list sorted. */
module KeySequence {

  type KeySeq = seq<int>

  /** Length of the longest common prefix. */
  function Shared(a: KeySeq, b: KeySeq): (n: nat)
    ensures n <= |a| && n <= |b|
  {
    SharedFrom(a, b, 0)
  }

  function SharedFrom(a: KeySeq, b: KeySeq, i: nat): (n: nat)
    requires i <= |a| && i <= |b|
    ensures i <= n <= |a| && n <= |b|
    decreases |a| - i
  {
    if i < |a| && i < |b| && a[i] == b[i] then SharedFrom(a, b, i + 1) else i
  }

  lemma {:induction false} SharedFromMaximal(a: KeySeq, b: KeySeq, i: nat)
    requires i <= |a| && i <= |b|
    ensures var n := SharedFrom(a, b, i);
            (forall k :: i <= k < n ==> a[k] == b[k]) && (n < |a| && n < |b| ==> a[n] != b[n])
    decreases |a| - i
  {
    if i < |a| && i < |b| && a[i] == b[i] {
      SharedFromMaximal(a, b, i + 1);
    }
  }

  /** Shared is exactly the length of the longest common prefix. */
  lemma SharedIsLongest(a: KeySeq, b: KeySeq)
    ensures var n := Shared(a, b);
            a[..n] == b[..n] && (n < |a| && n < |b| ==> a[n] != b[n])
    ensures forall k :: 0 <= k < Shared(a, b) ==> a[k] == b[k]
  {
    SharedFromMaximal(a, b, 0);
  }

  lemma SharedIs(a: KeySeq, b: KeySeq, n: nat)
    requires n <= |a| && n <= |b| && (n == |a| || n == |b| || a[n] != b[n])
    requires forall i :: 0 <= i < n ==> a[i] == b[i]
    ensures Shared(a, b) == n
  {
    SharedIsLongest(a, b);
  }

  /** a sorts before b, and neither is a prefix of the other. */
  predicate Before(a: KeySeq, b: KeySeq) {
    var n := Shared(a, b);
    n < |a| && n < |b| && a[n] < b[n]
  }

  /** One of the two is a prefix of the other. */
  predicate Comparable(a: KeySeq, b: KeySeq) {
    a <= b || b <= a
  }

  lemma SharedSymmetric(a: KeySeq, b: KeySeq)
    ensures Shared(a, b) == Shared(b, a)
  {
    SharedIsLongest(b, a);
    SharedIs(a, b, Shared(b, a));
  }

  lemma PrefixIffShared(a: KeySeq, b: KeySeq)
    ensures a <= b <==> Shared(a, b) == |a|
  {
    SharedIsLongest(a, b);
    if a <= b {
      SharedIs(a, b, |a|);
    }
    if Shared(a, b) == |a| {
      assert a == a[..|a|] == b[..|a|];
    }
  }

  lemma ComparableIffShared(a: KeySeq, b: KeySeq)
    ensures Comparable(a, b) <==> Shared(a, b) == |a| || Shared(a, b) == |b|
  {
    SharedSymmetric(a, b);
    PrefixIffShared(a, b);
    PrefixIffShared(b, a);
  }

  lemma Trichotomy(a: KeySeq, b: KeySeq)
    ensures Comparable(a, b) || Before(a, b) || Before(b, a)
    ensures !(Before(a, b) && Before(b, a)) && !(Comparable(a, b) && (Before(a, b) || Before(b, a)))
  {
    SharedSymmetric(a, b);
    SharedIsLongest(a, b);
    ComparableIffShared(a, b);
  }

  /** Sorting is transitive, and what the outer two share is what both neighbours share. */
  lemma BeforeTransitive(a: KeySeq, b: KeySeq, c: KeySeq)
    requires Before(a, b) && Before(b, c)
    ensures Before(a, c)
    ensures Shared(a, c) == if Shared(a, b) < Shared(b, c) then Shared(a, b) else Shared(b, c)
  {
    SharedIsLongest(a, b);
    SharedIsLongest(b, c);
    SharedIs(a, c, if Shared(a, b) < Shared(b, c) then Shared(a, b) else Shared(b, c));
  }

  /** Sequences that both share n keys with b share n keys. */
  lemma SharedThrough(a: KeySeq, b: KeySeq, c: KeySeq, n: nat)
    requires n <= Shared(a, b) && n <= Shared(b, c)
    ensures n <= Shared(a, c)
  {
    SharedIsLongest(a, b);
    SharedIsLongest(b, c);
    SharedIsLongest(a, c);
  }

  /** If keys and t agree beyond what t shares with its successor u, then keys too sorts before u. */
  lemma SortsBeforeSuccessor(keys: KeySeq, t: KeySeq, u: KeySeq)
    requires Before(t, u) && Shared(t, u) < Shared(keys, t)
    ensures Before(keys, u) && Shared(keys, u) == Shared(t, u)
  {
    SharedIsLongest(keys, t);
    SharedIsLongest(t, u);
    SharedIs(keys, u, Shared(t, u));
  }

  /** One comparison at position pos <= Shared(a, b). */
  lemma CompareAt(a: KeySeq, b: KeySeq, pos: nat)
    requires pos <= Shared(a, b) && pos < |a| && pos < |b|
    ensures a[pos] == b[pos] ==> pos < Shared(a, b)
    ensures a[pos] < b[pos] ==> Shared(a, b) == pos && Before(a, b)
    ensures a[pos] > b[pos] ==> Shared(b, a) == pos && Before(b, a)
  {
    SharedIsLongest(a, b);
    SharedSymmetric(a, b);
  }
}
