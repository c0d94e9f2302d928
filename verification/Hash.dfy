/** The chained hash table (hash.c): buckets of elements, with or without duplicates of a key, that are searched in
    order of insertion or of the key, and can be moved to a table of another size. */
module Hash {
  import opened Options
  import opened Sequences

  /** A C string without its NUL. */
  type Key = seq<Char>

  type Char = c: int | 1 <= c < 256 witness 1

  // ----- comparing keys -----

  /** The sign of strcmp. */
  function Cmp(a: Key, b: Key): int {
    if a == [] then (if b == [] then 0 else -1)
    else if b == [] then 1
    else if a[0] < b[0] then -1
    else if a[0] > b[0] then 1
    else Cmp(a[1..], b[1..])
  }

  lemma {:induction false} CmpZero(a: Key, b: Key)
    ensures Cmp(a, b) == 0 <==> a == b
  {
    if a != [] && b != [] {
      CmpZero(a[1..], b[1..]);
      assert a == b <==> a[0] == b[0] && a[1..] == b[1..] by {
        assert a == [a[0]] + a[1..] && b == [b[0]] + b[1..];
      }
    }
  }

  lemma {:induction false} CmpMirror(a: Key, b: Key)
    ensures Cmp(a, b) > 0 <==> Cmp(b, a) < 0
  {
    if a != [] && b != [] {
      CmpMirror(a[1..], b[1..]);
    }
  }

  lemma {:induction false} CmpTransitive(a: Key, b: Key, c: Key)
    requires Cmp(a, b) < 0 && Cmp(b, c) < 0
    ensures Cmp(a, c) < 0
  {
    if a != [] && b != [] && c != [] {
      if a[0] == b[0] && b[0] == c[0] {
        CmpTransitive(a[1..], b[1..], c[1..]);
      }
    }
  }

  /** Both begin with the same k characters, and then a ends, or has the smaller character. */
  predicate SmallerAt(a: Key, b: Key, k: nat) {
    k <= |a| && k < |b| && a[..k] == b[..k] && (k == |a| || a[k] < b[k])
  }

  /** strcmp orders strings as a dictionary does. */
  lemma {:induction false} CmpBefore(a: Key, b: Key)
    ensures Cmp(a, b) < 0 <==> exists k: nat :: SmallerAt(a, b, k)
  {
    if b == [] {
    } else if a == [] || a[0] != b[0] {
      if a == [] || a[0] < b[0] {
        assert SmallerAt(a, b, 0);
      } else {
        forall k: nat
          ensures !SmallerAt(a, b, k)
        {
          assert k > 0 && k <= |a| && k < |b| ==> a[..k][0] == a[0] && b[..k][0] == b[0];
        }
      }
    } else {
      CmpBefore(a[1..], b[1..]);
      if k: nat :| SmallerAt(a, b, k) {
        assert a[..k][1..] == a[1..][..k - 1] && b[..k][1..] == b[1..][..k - 1];
        assert SmallerAt(a[1..], b[1..], k - 1);
      }
      if k: nat :| SmallerAt(a[1..], b[1..], k) {
        assert a[..k + 1] == [a[0]] + a[1..][..k] && b[..k + 1] == [b[0]] + b[1..][..k];
        assert SmallerAt(a, b, k + 1);
      }
    }
  }

  // ----- the hash value -----

  const INT_MAX_1: int := 0x8000_0000
  const SOMEPRIME: int := 149711

  /** The 32-bit int congruent to x. */
  function Wrap(x: int): (w: int)
    ensures -INT_MAX_1 <= w < INT_MAX_1
  {
    (x + INT_MAX_1) % 0x1_0000_0000 - INT_MAX_1
  }

  /** C remainder: the sign of the dividend. */
  function Rem(a: int, n: int): (r: int)
    requires n > 0
    ensures -n < r < n && (a >= 0 ==> r >= 0)
  {
    if a >= 0 then a % n else -(-a % n)
  }

  /** The key read as a number in base 129, without any wrap-around. */
  function Number(s: Key): int {
    if s == [] then 0 else Number(s[..|s| - 1]) * 129 + s[|s| - 1]
  }

  /** The bucket of a key: its number times the prime, once reduced to 32 bits and once to the table size. */
  function HashOf(s: Key, n: int): (h: int)
    requires n > 0
    ensures 0 <= h < n
  {
    var r := Rem(Wrap(Number(s) * SOMEPRIME), n);
    if r >= 0 then r else r + n
  }

  lemma NumberOfTwo(a: Char, b: Char)
    ensures Number([a, b]) == a * 129 + b
  {
    var s, t := [a, b], [a];
    assert t[..0] == [] && Number(t) == a;
    assert s[..1] == t;
  }

  /** Two buckets in a table of 1000; in the second the product has wrapped to a negative int. */
  lemma KnownBuckets()
    ensures HashOf([97, 98], 1000) == 421 && HashOf([155, 5], 1000) == 704
  {
    NumberOfTwo(97, 98);
    NumberOfTwo(155, 5);
    assert Wrap(20000 * 149711) == -1300747296;
    assert Wrap(12611 * 149711) == 1888005421;
  }

  lemma WrapCongruent(x: int)
    ensures exists k :: Wrap(x) == x + k * 0x1_0000_0000
  {
    var k := -((x + INT_MAX_1) / 0x1_0000_0000);
    assert Wrap(x) == x + k * 0x1_0000_0000;
  }

  lemma WrapShift(x: int, k: int)
    ensures Wrap(x + k * 0x1_0000_0000) == Wrap(x)
  {
    assert (x + INT_MAX_1 + k * 0x1_0000_0000) % 0x1_0000_0000 == (x + INT_MAX_1) % 0x1_0000_0000;
  }

  /** Reducing on the way makes no difference. */
  lemma WrapAbsorbs(x: int, m: int, c: int)
    ensures Wrap(Wrap(x) * m + c) == Wrap(x * m + c)
  {
    WrapCongruent(x);
    var k :| Wrap(x) == x + k * 0x1_0000_0000;
    assert Wrap(x) * m + c == x * m + c + k * m * 0x1_0000_0000 by {
      assert (x + k * 0x1_0000_0000) * m == x * m + k * 0x1_0000_0000 * m;
    }
    WrapShift(x * m + c, k * m);
  }

  lemma WrapInside(a: int, x: int)
    ensures Wrap(a + Wrap(x)) == Wrap(a + x)
  {
    WrapAbsorbs(x, 1, a);
  }

  /** One round of hash_string: times 129, plus the next character. */
  lemma HashStep(x: int, h: int, c: int)
    requires h == Wrap(x)
    ensures Wrap(h + Wrap(Wrap(h * 128) + c)) == Wrap(x * 129 + c)
  {
    WrapInside(h, Wrap(h * 128) + c);
    WrapInside(h + c, h * 128);
    assert h + (Wrap(h * 128) + c) == (h + c) + Wrap(h * 128);
    assert (h + c) + h * 128 == h * 129 + c;
    WrapAbsorbs(x, 129, c);
  }

  method HashSum(s: Key) returns (h: int)
    ensures h == Wrap(Number(s))
  {
    h := 0;
    for i := 0 to |s|
      invariant h == Wrap(Number(s[..i]))
    {
      HashStep(Number(s[..i]), h, s[i]);
      assert s[..i + 1][..i] == s[..i];
      h := Wrap(h + Wrap(Wrap(h * 128) + s[i]));
    }
    assert s[..|s|] == s;
  }

  /** hash_string: every intermediate value is an int, and the result is a bucket number. */
  method HashString(s: Key, n: int) returns (r: int)
    requires n > 0
    ensures r == HashOf(s, n)
  {
    var h := HashSum(s);
    WrapAbsorbs(Number(s), SOMEPRIME, 0);
    h := Rem(Wrap(h * SOMEPRIME), n);
    h := if h >= 0 then h else h + n;
    RemSmall(h, n);
    r := Rem(h, n);
  }

  lemma Multiples(n: int, q: int)
    requires n > 0
    ensures q >= 1 ==> n * q >= n
    ensures q <= -1 ==> n * q <= -n
  {
  }

  lemma RemSmall(h: int, n: int)
    requires 0 <= h < n
    ensures Rem(h, n) == h
  {
    Multiples(n, h / n);
  }

  // ----- chains -----

  /** data 0 stands for NULL. */
  datatype Elem = Elem(key: Key, data: int)

  type Chain = seq<Elem>

  /** Each key sorts before the next one. */
  ghost predicate Ascending(c: Chain) {
    forall j :: 0 < j < |c| ==> Cmp(c[j - 1].key, c[j].key) < 0
  }

  lemma {:induction false} AscendingAll(c: Chain, j: nat, k: nat)
    requires Ascending(c) && j < k < |c|
    ensures Cmp(c[j].key, c[k].key) < 0
  {
    if j + 1 < k {
      AscendingAll(c, j, k - 1);
      CmpTransitive(c[j].key, c[k - 1].key, c[k].key);
    }
  }

  /** The data of the first element with this key. */
  function Lookup(c: Chain, key: Key): Option<int> {
    if c == [] then None else if c[0].key == key then Some(c[0].data) else Lookup(c[1..], key)
  }

  /** The data of the last element with this key. */
  function LastLookup(c: Chain, key: Key): Option<int> {
    if c == [] then None
    else
      var n := |c| - 1;
      if c[n].key == key then Some(c[n].data) else LastLookup(c[..n], key)
  }

  lemma {:induction false} LookupAbsent(c: Chain, key: Key)
    ensures Lookup(c, key) == None <==> forall j :: 0 <= j < |c| ==> c[j].key != key
  {
    if c != [] {
      LookupAbsent(c[1..], key);
      assert forall j :: 0 < j < |c| ==> c[j] == c[1..][j - 1];
    }
  }

  lemma {:induction false} LookupAppend(c: Chain, d: Chain, key: Key)
    ensures Lookup(c + d, key) == if Lookup(c, key) == None then Lookup(d, key) else Lookup(c, key)
  {
    if c == [] {
      assert c + d == d;
    } else {
      LookupAppend(c[1..], d, key);
      assert (c + d)[1..] == c[1..] + d;
    }
  }

  /** Where the search for a place stops: at the first key that does not sort before the new one. */
  function Spot(c: Chain, key: Key): (i: nat)
    ensures i <= |c| && (i < |c| ==> Cmp(c[i].key, key) >= 0)
    ensures forall j :: 0 <= j < i ==> Cmp(c[j].key, key) < 0
  {
    if c == [] || Cmp(c[0].key, key) >= 0 then 0 else Spot(c[1..], key) + 1
  }

  lemma SpotIs(c: Chain, key: Key, i: nat)
    requires i <= |c| && (i < |c| ==> Cmp(c[i].key, key) >= 0)
    requires forall j :: 0 <= j < i ==> Cmp(c[j].key, key) < 0
    ensures Spot(c, key) == i
  {
  }

  /** In an ascending chain a key that is not at its place is nowhere. */
  lemma AbsentUnlessAtSpot(c: Chain, key: Key)
    requires Ascending(c)
    ensures var i := Spot(c, key); Lookup(c, key) == None <==> !(i < |c| && c[i].key == key)
  {
    var i := Spot(c, key);
    CmpZero(key, key);
    if !(i < |c| && c[i].key == key) {
      forall j | 0 <= j < |c| ensures c[j].key != key {
        if i <= j {
          CmpZero(c[i].key, key);
          if i < j {
            AscendingAll(c, i, j);
            CmpMirror(c[i].key, c[j].key);
            CmpMirror(c[i].key, key);
          }
        }
      }
    }
    LookupAbsent(c, key);
  }

  function With(c: Chain, e: Elem): Chain {
    var i := Spot(c, e.key);
    c[..i] + [e] + c[i..]
  }

  /** A new key keeps the chain ascending. */
  lemma WithAscending(c: Chain, e: Elem)
    requires Ascending(c) && Lookup(c, e.key) == None
    ensures Ascending(With(c, e))
  {
    var i := Spot(c, e.key);
    AbsentUnlessAtSpot(c, e.key);
    if i < |c| {
      CmpZero(c[i].key, e.key);
      CmpMirror(c[i].key, e.key);
    }
  }

  lemma WithLookup(c: Chain, e: Elem, key: Key)
    requires Lookup(c, e.key) == None
    ensures Lookup(With(c, e), key) == if key == e.key then Some(e.data) else Lookup(c, key)
  {
    var i := Spot(c, e.key);
    assert c == c[..i] + c[i..];
    LookupAppend(c[..i], c[i..], key);
    LookupAppend(c[..i], c[i..], e.key);
    LookupAppend(c[..i], [e], key);
    LookupAppend(c[..i] + [e], c[i..], key);
    assert Lookup([e], key) == if key == e.key then Some(e.data) else None;
  }

  // ----- tables -----

  ghost predicate AllAscending(bs: seq<Chain>) {
    forall i :: 0 <= i < |bs| ==> Ascending(bs[i])
  }

  function Find(bs: seq<Chain>, key: Key): Option<int>
    requires bs != []
  {
    Lookup(bs[HashOf(key, |bs|)], key)
  }

  /** The table finds what the map holds. */
  ghost predicate Agrees(bs: seq<Chain>, m: map<Key, int>) {
    bs != [] && forall key :: Find(bs, key) == if key in m then Some(m[key]) else None
  }

  /** hash_insert on the buckets; without duplicates a key that is present stays as it is. */
  function Inserted(bs: seq<Chain>, e: Elem, allowDup: bool): (after: seq<Chain>)
    requires bs != []
    ensures |after| == |bs|
  {
    var h := HashOf(e.key, |bs|);
    var c, i := bs[h], Spot(bs[h], e.key);
    if allowDup then bs[h := [e] + c] else if i < |c| && c[i].key == e.key then bs else bs[h := With(c, e)]
  }

  /** A table built without duplicates is a map: inserting a present key changes nothing, any other is added. */
  lemma InsertIsMapUpdate(bs: seq<Chain>, m: map<Key, int>, e: Elem)
    requires AllAscending(bs) && Agrees(bs, m)
    ensures AllAscending(Inserted(bs, e, false))
    ensures Inserted(bs, e, false) == bs <==> e.key in m
    ensures Agrees(Inserted(bs, e, false), if e.key in m then m else m[e.key := e.data])
  {
    var h := HashOf(e.key, |bs|);
    var c := bs[h];
    AbsentUnlessAtSpot(c, e.key);
    assert Find(bs, e.key) == Lookup(c, e.key);
    if e.key !in m {
      WithAscending(c, e);
      assert |With(c, e)| == |c| + 1;
      var after := bs[h := With(c, e)];
      forall key ensures Find(after, key) == if key == e.key then Some(e.data) else Find(bs, key) {
        WithLookup(c, e, key);
      }
    }
  }

  /** A series of inserts without duplicates. */
  function InsertedAll(bs: seq<Chain>, es: seq<Elem>, allowDup: bool): (after: seq<Chain>)
    requires bs != []
    ensures |after| == |bs|
  {
    if es == [] then bs else Inserted(InsertedAll(bs, es[..|es| - 1], allowDup), es[|es| - 1], allowDup)
  }

  /** The map in which the first of several entries for a key counts. */
  function FirstWins(es: seq<Elem>): map<Key, int> {
    if es == [] then map[]
    else
      var m, e := FirstWins(es[..|es| - 1]), es[|es| - 1];
      if e.key in m then m else m[e.key := e.data]
  }

  function Empty(n: nat): (bs: seq<Chain>)
    ensures |bs| == n && forall i :: 0 <= i < n ==> bs[i] == []
  {
    seq(n, _ => [])
  }

  /** Whatever is inserted, a table built without duplicates has ascending chains and finds the first entry. */
  lemma {:induction false} BuiltWithoutDuplicates(n: nat, es: seq<Elem>)
    requires n > 0
    ensures AllAscending(InsertedAll(Empty(n), es, false))
    ensures Agrees(InsertedAll(Empty(n), es, false), FirstWins(es))
  {
    if es != [] {
      BuiltWithoutDuplicates(n, es[..|es| - 1]);
      InsertIsMapUpdate(InsertedAll(Empty(n), es[..|es| - 1], false), FirstWins(es[..|es| - 1]), es[|es| - 1]);
    }
  }

  /** Every element is in the bucket of its key. */
  ghost predicate Placed(bs: seq<Chain>) {
    forall i, j :: 0 <= i < |bs| && 0 <= j < |bs[i]| ==> HashOf(bs[i][j].key, |bs|) == i
  }

  lemma {:induction false} PlacedAll(bs: seq<Chain>, es: seq<Elem>, allowDup: bool)
    requires bs != [] && Placed(bs)
    ensures Placed(InsertedAll(bs, es, allowDup))
  {
    if es != [] {
      var n := |es| - 1;
      PlacedAll(bs, es[..n], allowDup);
      PlacedInsert(InsertedAll(bs, es[..n], allowDup), es[n], allowDup);
    }
  }

  lemma PlacedInsert(bs: seq<Chain>, e: Elem, allowDup: bool)
    requires bs != [] && Placed(bs)
    ensures Placed(Inserted(bs, e, allowDup))
  {
    var h := HashOf(e.key, |bs|);
    var after: seq<Chain> := Inserted(bs, e, allowDup);
    forall i: int, j: int | 0 <= i < |after| && 0 <= j < |after[i]|
      ensures HashOf(after[i][j].key, |bs|) == i
    {
      if i == h && after != bs {
        var k := if allowDup then 0 else Spot(bs[h], e.key);
        assert after[i][j] == if j < k then bs[h][j] else if j == k then e else bs[h][j - 1];
      } else {
        assert after[i] == bs[i];
      }
    }
  }

  // ----- resizing -----

  /** All elements, bucket by bucket. */
  function Flat(bs: seq<Chain>): Chain {
    if bs == [] then [] else Flat(bs[..|bs| - 1]) + bs[|bs| - 1]
  }

  /** Prepending one by one makes the last entry of a key the first. */
  lemma {:induction false} PrependingFindsLast(n: nat, es: seq<Elem>, key: Key)
    requires n > 0
    ensures Find(InsertedAll(Empty(n), es, true), key) == LastLookup(es, key)
  {
    if es != [] {
      PrependingFindsLast(n, es[..|es| - 1], key);
      var was, e := InsertedAll(Empty(n), es[..|es| - 1], true), es[|es| - 1];
      var c := was[HashOf(e.key, n)];
      assert ([e] + c)[1..] == c;
    }
  }

  lemma {:induction false} LastLookupAppend(c: Chain, d: Chain, key: Key)
    ensures LastLookup(c + d, key) == if LastLookup(d, key) == None then LastLookup(c, key) else LastLookup(d, key)
  {
    if d == [] {
      assert c + d == c;
    } else {
      LastLookupAppend(c, d[..|d| - 1], key);
      assert (c + d)[..|c + d| - 1] == c + d[..|d| - 1];
    }
  }

  lemma {:induction false} LastLookupAbsent(c: Chain, key: Key)
    ensures LastLookup(c, key) == None <==> forall j :: 0 <= j < |c| ==> c[j].key != key
  {
    if c != [] {
      LastLookupAbsent(c[..|c| - 1], key);
    }
  }

  lemma AbsentElsewhere(bs: seq<Chain>, i: nat, key: Key)
    requires Placed(bs) && i < |bs|
    ensures i != HashOf(key, |bs|) ==> LastLookup(bs[i], key) == None
  {
    LastLookupAbsent(bs[i], key);
  }

  /** The last entry of a key among the first k buckets is the one in its own bucket. */
  lemma {:induction false} FlatFindsLast(bs: seq<Chain>, k: nat, key: Key)
    requires bs != [] && Placed(bs) && k <= |bs|
    ensures var h := HashOf(key, |bs|);
            LastLookup(Flat(bs[..k]), key) == if h < k then LastLookup(bs[h], key) else None
  {
    if k > 0 {
      FlatFindsLast(bs, k - 1, key);
      assert bs[..k][..k - 1] == bs[..k - 1];
      LastLookupAppend(Flat(bs[..k - 1]), bs[k - 1], key);
      AbsentElsewhere(bs, k - 1, key);
    }
  }

  function Resized(bs: seq<Chain>, n: nat): (after: seq<Chain>)
    requires n > 0
    ensures |after| == n
  {
    InsertedAll(Empty(n), Flat(bs), true)
  }

  /** After resizing, a key finds its last entry; so it finds what it found before exactly when its first and last
      entries carry the same data. */
  lemma ResizeFindsLast(bs: seq<Chain>, n: nat, key: Key)
    requires bs != [] && Placed(bs) && n > 0
    ensures Find(Resized(bs, n), key) == LastLookup(bs[HashOf(key, |bs|)], key)
    ensures Placed(Resized(bs, n))
  {
    FlatFindsLast(bs, |bs|, key);
    assert bs[..|bs|] == bs;
    PrependingFindsLast(n, Flat(bs), key);
    PlacedAll(Empty(n), Flat(bs), true);
  }

  lemma {:induction false} DistinctFirstIsLast(c: Chain, key: Key)
    requires Ascending(c)
    ensures LastLookup(c, key) == Lookup(c, key)
  {
    if c != [] {
      var n := |c| - 1;
      assert c == c[..n] + [c[n]];
      DistinctFirstIsLast(c[..n], key);
      LookupAppend(c[..n], [c[n]], key);
      assert Lookup([c[n]], key) == if c[n].key == key then Some(c[n].data) else None;
      CmpZero(key, key);
      if c[n].key == key {
        forall j | 0 <= j < n ensures c[..n][j].key != key {
          AscendingAll(c, j, n);
        }
        LookupAbsent(c[..n], key);
      }
    }
  }

  /** A table without duplicates finds the same after resizing, though its chains need not be ascending any more. */
  lemma ResizeKeepsMap(bs: seq<Chain>, n: nat, m: map<Key, int>)
    requires AllAscending(bs) && Placed(bs) && Agrees(bs, m) && n > 0
    ensures Agrees(Resized(bs, n), m)
  {
    forall key ensures Find(Resized(bs, n), key) == Find(bs, key) {
      ResizeFindsLast(bs, n, key);
      DistinctFirstIsLast(bs[HashOf(key, |bs|)], key);
    }
  }

  /** No element is lost or duplicated. */
  lemma {:induction false} ResizeKeepsElements(n: nat, es: seq<Elem>)
    requires n > 0
    ensures multiset(Flat(InsertedAll(Empty(n), es, true))) == multiset(es)
  {
    if es == [] {
      FlatOfEmpty(n);
    } else {
      var k := |es| - 1;
      ResizeKeepsElements(n, es[..k]);
      FlatPrepend(InsertedAll(Empty(n), es[..k], true), HashOf(es[k].key, n), es[k]);
      assert es == es[..k] + [es[k]];
    }
  }

  lemma {:induction false} FlatOfEmpty(n: nat)
    ensures Flat(Empty(n)) == []
  {
    if n > 0 {
      assert Empty(n)[..n - 1] == Empty(n - 1);
      FlatOfEmpty(n - 1);
    }
  }

  lemma {:induction false} FlatPrepend(bs: seq<Chain>, h: nat, e: Elem)
    requires h < |bs|
    ensures multiset(Flat(bs[h := [e] + bs[h]])) == multiset(Flat(bs)) + multiset{e}
  {
    var n, after := |bs| - 1, bs[h := [e] + bs[h]];
    if h == n {
      assert after[..n] == bs[..n];
    } else {
      assert after[..n] == bs[..n][h := [e] + bs[h]];
      FlatPrepend(bs[..n], h, e);
    }
  }

  // ----- deleting -----

  predicate Matches(e: Elem, key: Key, data: int) {
    (data == e.data || data == 0) && e.key == key
  }

  function Kept(c: Chain, key: Key, data: int): Chain {
    if c == [] then [] else (if Matches(c[0], key, data) then [] else [c[0]]) + Kept(c[1..], key, data)
  }

  /** The data handed to the destroy function. */
  function Destroyed(c: Chain, key: Key, data: int): seq<int> {
    if c == [] then [] else (if Matches(c[0], key, data) then [c[0].data] else []) + Destroyed(c[1..], key, data)
  }

  /** Exactly the matching elements go: deleting a key of any data leaves none of it and all others as they were. */
  lemma {:induction false} KeptLookup(c: Chain, key: Key, data: int, other: Key)
    ensures other != key ==> Lookup(Kept(c, key, data), other) == Lookup(c, other)
    ensures data == 0 ==> Lookup(Kept(c, key, data), key) == None
    ensures |Kept(c, key, data)| + |Destroyed(c, key, data)| == |c|
    ensures forall e :: e in Kept(c, key, data) <==> e in c && !(e.key == key && (data == 0 || e.data == data))
  {
    if c != [] {
      KeptLookup(c[1..], key, data, other);
      var rest := Kept(c[1..], key, data);
      assert ([c[0]] + rest)[1..] == rest && [] + rest == rest;
      assert c == [c[0]] + c[1..];
    }
  }

  function Shifted(ks: seq<nat>): (ms: seq<nat>)
    ensures |ms| == |ks| && forall n :: 0 <= n < |ks| ==> ms[n] == ks[n] + 1
  {
    seq(|ks|, n requires 0 <= n < |ks| => ks[n] + 1)
  }

  lemma ShiftedIn(ks: seq<nat>, i: nat)
    ensures i in Shifted(ks) <==> i > 0 && i - 1 in ks
  {
    var ms := Shifted(ks);
    if i in ms {
      var n :| 0 <= n < |ms| && ms[n] == i;
      assert ks[n] == i - 1;
    }
    if i > 0 && i - 1 in ks {
      var n :| 0 <= n < |ks| && ks[n] == i - 1;
      assert ms[n] == i;
    }
  }

  lemma PicksLater<T>(c: seq<T>, ks: seq<nat>, picked: seq<T>)
    requires c != [] && Picks(c[1..], ks, picked)
    ensures Picks(c, Shifted(ks), picked)
  {
    var ms := Shifted(ks);
    forall n | 0 <= n < |ms|
      ensures ms[n] < |c| && picked[n] == c[ms[n]]
    {
      assert ks[n] < |c[1..]| && picked[n] == c[1..][ks[n]];
    }
  }

  function Datas(c: Chain): (ds: seq<int>)
    ensures |ds| == |c| && forall i :: 0 <= i < |c| ==> ds[i] == c[i].data
  {
    if c == [] then [] else [c[0].data] + Datas(c[1..])
  }

  /** The element is of the key, and has the data if any is given. */
  predicate Named(c: Chain, key: Key, data: int, i: nat)
    requires i < |c|
  {
    c[i].key == key && (data == 0 || c[i].data == data)
  }

  /** The places that are listed are those of the elements named. */
  ghost predicate Splits(c: Chain, key: Key, data: int, ks: seq<nat>, ds: seq<nat>) {
    forall i: nat :: i < |c| ==> (i in ds <==> Named(c, key, data, i)) && (i in ks <==> i !in ds)
  }

  lemma SplitsFirst(c: Chain, key: Key, data: int, ks: seq<nat>, ds: seq<nat>)
    requires c != [] && Splits(c[1..], key, data, ks, ds)
    ensures if Named(c, key, data, 0) then Splits(c, key, data, Shifted(ks), [0] + Shifted(ds))
            else Splits(c, key, data, [0] + Shifted(ks), Shifted(ds))
  {
    var ks', ds' := Shifted(ks), Shifted(ds);
    forall i: nat | i < |c|
      ensures i in [0] + ks' <==> i == 0 || i in ks'
      ensures i in [0] + ds' <==> i == 0 || i in ds'
      ensures i == 0 ==> i !in ks' && i !in ds'
      ensures i > 0 ==> (i in ds' <==> Named(c, key, data, i)) && (i in ks' <==> i !in ds')
    {
      ShiftedIn(ks, i);
      ShiftedIn(ds, i);
      if i > 0 {
        assert Named(c[1..], key, data, i - 1) == Named(c, key, data, i);
      }
    }
  }

  lemma KeptFirst(c: Chain, key: Key, data: int)
    requires c != []
    ensures Kept(c, key, data) ==
            if Named(c, key, data, 0) then Kept(c[1..], key, data) else [c[0]] + Kept(c[1..], key, data)
    ensures Destroyed(c, key, data) ==
            if Named(c, key, data, 0) then [c[0].data] + Destroyed(c[1..], key, data)
            else Destroyed(c[1..], key, data)
  {
    assert [] + Kept(c[1..], key, data) == Kept(c[1..], key, data);
    assert [] + Destroyed(c[1..], key, data) == Destroyed(c[1..], key, data);
  }

  /** These are the places of those that stay, and of those that go. */
  ghost predicate Parted(c: Chain, key: Key, data: int, ks: seq<nat>, ds: seq<nat>) {
    Picks(c, ks, Kept(c, key, data)) && Picks(Datas(c), ds, Destroyed(c, key, data)) && Splits(c, key, data, ks, ds)
  }

  lemma PartedLater(c: Chain, key: Key, data: int, ks: seq<nat>, ds: seq<nat>)
    requires c != [] && Parted(c[1..], key, data, ks, ds)
    ensures Picks(c, Shifted(ks), Kept(c[1..], key, data))
    ensures Picks(Datas(c), Shifted(ds), Destroyed(c[1..], key, data))
  {
    assert Datas(c)[1..] == Datas(c[1..]);
    PicksLater(c, ks, Kept(c[1..], key, data));
    PicksLater(Datas(c), ds, Destroyed(c[1..], key, data));
  }

  lemma PartedMore(c: Chain, key: Key, data: int, ks: seq<nat>, ds: seq<nat>)
    requires c != [] && Parted(c[1..], key, data, ks, ds)
    ensures if Named(c, key, data, 0) then Parted(c, key, data, Shifted(ks), [0] + Shifted(ds))
            else Parted(c, key, data, [0] + Shifted(ks), Shifted(ds))
  {
    PartedLater(c, key, data, ks, ds);
    SplitsFirst(c, key, data, ks, ds);
    KeptFirst(c, key, data);
    if Named(c, key, data, 0) {
      PicksFirst(Datas(c), Shifted(ds), Destroyed(c[1..], key, data));
    } else {
      PicksFirst(c, Shifted(ks), Kept(c[1..], key, data));
    }
  }

  /** Those that stay and those that go keep their order; those that go are exactly the ones named. */
  lemma {:induction false} StayAndGo(c: Chain, key: Key, data: int) returns (ks: seq<nat>, ds: seq<nat>)
    ensures Picks(c, ks, Kept(c, key, data)) && Picks(Datas(c), ds, Destroyed(c, key, data))
    ensures Splits(c, key, data, ks, ds)
  {
    ks, ds := [], [];
    if c != [] {
      var ks', ds' := StayAndGo(c[1..], key, data);
      PartedMore(c, key, data, ks', ds');
      ks, ds := Shifted(ks'), Shifted(ds');
      if Named(c, key, data, 0) {
        ds := [0] + ds;
      } else {
        ks := [0] + ks;
      }
    }
  }

  /** The first i elements have been examined; the matching ones have been taken out of the chain c. */
  ghost predicate Swept(c: Chain, now: Chain, i: nat, destroyed: seq<int>, key: Key, data: int) {
    i <= |now| && now[..i] + Kept(now[i..], key, data) == Kept(c, key, data) &&
    destroyed + Destroyed(now[i..], key, data) == Destroyed(c, key, data)
  }

  lemma SweepOne(c: Chain, now: Chain, i: nat, destroyed: seq<int>, key: Key, data: int)
    requires Swept(c, now, i, destroyed, key, data) && i < |now|
    ensures if Matches(now[i], key, data)
            then Swept(c, now[..i] + now[i + 1..], i, destroyed + [now[i].data], key, data)
            else Swept(c, now, i + 1, destroyed, key, data)
  {
    var rest := now[i + 1..];
    assert now[i..][1..] == rest && now[i..][0] == now[i];
    if Matches(now[i], key, data) {
      var after := now[..i] + rest;
      assert after[i..] == rest && after[..i] == now[..i];
      assert Kept(now[i..], key, data) == Kept(rest, key, data);
      assert destroyed + ([now[i].data] + Destroyed(rest, key, data)) ==
             destroyed + [now[i].data] + Destroyed(rest, key, data);
    } else {
      assert now[..i + 1] == now[..i] + [now[i]];
      assert now[..i] + ([now[i]] + Kept(rest, key, data)) == now[..i + 1] + Kept(rest, key, data);
      assert Destroyed(now[i..], key, data) == Destroyed(rest, key, data);
    }
  }

  lemma SweptAll(c: Chain, now: Chain, i: nat, destroyed: seq<int>, key: Key, data: int)
    requires Swept(c, now, i, destroyed, key, data) && i == |now|
    ensures now == Kept(c, key, data) && destroyed == Destroyed(c, key, data)
  {
    assert now[i..] == [] && now[..i] == now && now + [] == now && destroyed + [] == destroyed;
  }

  class Table {
    var nelem: int
    var curnelem: int
    var table: array<Chain>

    ghost predicate Valid()
      reads this
    {
      0 < nelem == table.Length
    }

    /** hash_create: a size of 0 counts as 2. */
    constructor (size: nat)
      ensures Valid() && fresh(table) && nelem == (if size == 0 then 2 else size) && curnelem == 0
      ensures forall i :: 0 <= i < nelem ==> table[i] == []
    {
      var n := if size == 0 then 2 else size;
      nelem, curnelem := n, 0;
      table := new Chain[n](_ => []);
    }

    /** hash_insert: the bucket, or -1 if the key is there and duplicates are not allowed. */
    method Insert(key: Key, data: int, allowDup: bool) returns (r: int)
      requires Valid()
      modifies this`curnelem, table
      ensures Valid() && table[..] == Inserted(old(table[..]), Elem(key, data), allowDup)
      ensures r == (if table[..] == old(table[..]) then -1 else HashOf(key, nelem))
      ensures curnelem == (old(curnelem) + if r == -1 then 0 else 1) && (allowDup ==> r != -1)
    {
      var h := HashString(key, nelem);
      var ptr := Elem(key, data);
      var c := table[h];
      if allowDup {
        assert |[ptr] + c| != |c|;
        table[h] := [ptr] + c;
        curnelem := curnelem + 1;
      } else {
        var i := 0;
        while i < |c| && Cmp(c[i].key, key) < 0
          invariant 0 <= i <= |c| && forall j :: 0 <= j < i ==> Cmp(c[j].key, key) < 0
        {
          i := i + 1;
        }
        SpotIs(c, key, i);
        if i < |c| {
          CmpZero(c[i].key, key);
          if Cmp(c[i].key, key) == 0 {
            return -1;
          }
        }
        assert |With(c, ptr)| != |c|;
        table[h] := c[..i] + [ptr] + c[i..];
        curnelem := curnelem + 1;
      }
      return h;
    }

    /** hash_find. */
    method FindKey(key: Key) returns (data: Option<int>)
      requires Valid()
      ensures data == Find(table[..], key)
    {
      var h := HashString(key, nelem);
      data := FindHash(h, key);
    }

    /** hash_find_hash: the search in a given bucket. */
    method FindHash(h: nat, key: Key) returns (data: Option<int>)
      requires Valid() && h < nelem
      ensures data == Lookup(table[h], key)
    {
      var c := table[h];
      var i := 0;
      while i < |c|
        invariant 0 <= i <= |c| && Lookup(c, key) == Lookup(c[i..], key)
      {
        CmpZero(key, c[i].key);
        if Cmp(key, c[i].key) == 0 {
          return Some(c[i].data);
        }
        assert c[i..][1..] == c[i + 1..];
        i := i + 1;
      }
      return None;
    }

    /** hash_delete. */
    method Delete(key: Key, data: int) returns (destroyed: seq<int>)
      requires Valid()
      modifies table
      ensures var h := HashOf(key, nelem);
              table[..] == old(table[..])[h := Kept(old(table[..])[h], key, data)] &&
              destroyed == Destroyed(old(table[..])[h], key, data)
    {
      var h := HashString(key, nelem);
      destroyed := DeleteHash(h, key, data);
    }

    /** hash_delete_hash: the matching elements of a bucket are unlinked and handed to destroy; curnelem is not
        decremented. */
    method DeleteHash(h: nat, key: Key, data: int) returns (destroyed: seq<int>)
      requires Valid() && h < nelem
      modifies table
      ensures table[..] == old(table[..])[h := Kept(old(table[h]), key, data)]
      ensures destroyed == Destroyed(old(table[h]), key, data)
    {
      ghost var bs, c := table[..], table[h];
      var i := 0;
      destroyed := [];
      while i < |table[h]|
        invariant 0 <= i <= |table[h]| && table[..] == bs[h := table[h]]
        invariant Swept(c, table[h], i, destroyed, key, data)
        decreases |table[h]| - i
      {
        var ptr := table[h][i];
        CmpZero(ptr.key, key);
        SweepOne(c, table[h], i, destroyed, key, data);
        if (data == ptr.data || data == 0) && Cmp(ptr.key, key) == 0 {
          table[h] := table[h][..i] + table[h][i + 1..];
          destroyed := destroyed + [ptr.data];
        } else {
          i := i + 1;
        }
      }
      SweptAll(c, table[h], i, destroyed, key, data);
    }

    /** hash_resize: every element goes into a new table, duplicates allowed. */
    method Resize(size: nat) returns (t: Table)
      requires Valid()
      ensures t.Valid() && fresh(t) && fresh(t.table) && t.nelem == if size == 0 then 2 else size
      ensures t.table[..] == Resized(table[..], t.nelem) && t.curnelem == |Flat(table[..])|
    {
      t := new Table(size);
      ghost var bs := table[..];
      assert t.table[..] == Empty(t.nelem);
      for i := 0 to nelem
        invariant t.Valid() && fresh(t) && fresh(t.table) && t.nelem == if size == 0 then 2 else size
        invariant table[..] == bs && t.table[..] == InsertedAll(Empty(t.nelem), Flat(bs[..i]), true)
        invariant t.curnelem == |Flat(bs[..i])|
      {
        assert bs[..i + 1][..i] == bs[..i];
        t.InsertChain(table[i], Flat(bs[..i]));
      }
      assert bs[..nelem] == bs;
    }

    method InsertChain(chain: Chain, ghost done: seq<Elem>)
      requires Valid() && table[..] == InsertedAll(Empty(nelem), done, true)
      modifies this`curnelem, table
      ensures Valid() && table[..] == InsertedAll(Empty(nelem), done + chain, true)
      ensures curnelem == old(curnelem) + |chain|
    {
      assert done + chain[..0] == done;
      for k := 0 to |chain|
        invariant Valid() && table[..] == InsertedAll(Empty(nelem), done + chain[..k], true)
        invariant curnelem == old(curnelem) + k
      {
        OneMore(Empty(nelem), done, chain, k);
        var _ := Insert(chain[k].key, chain[k].data, true);
      }
      assert done + chain[..|chain|] == done + chain;
    }

    static lemma OneMore(bs: seq<Chain>, done: seq<Elem>, chain: Chain, k: nat)
      requires bs != [] && k < |chain|
      ensures InsertedAll(bs, done + chain[..k + 1], true) ==
              Inserted(InsertedAll(bs, done + chain[..k], true), Elem(chain[k].key, chain[k].data), true)
    {
      var es := done + chain[..k + 1];
      assert es[..|es| - 1] == done + chain[..k] && es[|es| - 1] == chain[k];
    }
  }
}
