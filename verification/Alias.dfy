/** Alias expansion and the duplicate removal after it (alias.c). */
module Alias {
  import opened Ascii
  import opened Options

  datatype Address = Address(personal: Option<string>, mailbox: Option<string>, group: bool)

  /** str_dup: an empty string is duplicated to NULL. */
  function StrDup(s: Option<string>): Option<string> {
    if s == Some("") then None else s
  }

  function Lower(s: string): (r: string)
    ensures |r| == |s|
  {
    seq(|s|, i requires 0 <= i < |s| => LowerChar(s[i]))
  }

  /** The alias list, the password database (gecos names) and $use_domain's host, if set. */
  datatype Env = Env(aliases: seq<(string, seq<Address>)>, gecos: string -> Option<string>, fqdn: Option<string>) {

    /** mutt_lookup_alias: case-insensitive, first match; [] stands for NULL. */
    function Lookup(name: string): seq<Address> {
      LookupIn(aliases, name)
    }

    static function LookupIn(list: seq<(string, seq<Address>)>, name: string): seq<Address> {
      if list == [] then []
      else if Lower(list[0].0) == Lower(name) then list[0].1
      else LookupIn(list[1..], name)
    }

    /** rfc822_cpy_adr of what an alias stands for. */
    function Members(name: string): (r: seq<Address>)
      ensures |r| == |Lookup(name)|
    {
      var list := Lookup(name);
      seq(|list|, i requires 0 <= i < |list| => list[i].(personal := StrDup(list[i].personal),
          mailbox := StrDup(list[i].mailbox)))
    }

    predicate Local(a: Address) {
      !a.group && a.personal.None? && a.mailbox.Some? && '@' !in a.mailbox.value
    }

    predicate IsRef(a: Address) {
      Local(a) && Lookup(a.mailbox.value) != []
    }

    /** What happens to an address that is no alias: a local user gets his gecos name. */
    function Finish(a: Address): Address {
      if Local(a) && gecos(a.mailbox.value).Some? then a.(personal := StrDup(gecos(a.mailbox.value))) else a
    }

    /** rfc822_qualify, for one address. */
    function Qualify(a: Address): Address {
      if fqdn.Some? && !a.group && a.mailbox.Some? && '@' !in a.mailbox.value
      then a.(mailbox := Some(a.mailbox.value + "@" + fqdn.value))
      else a
    }

    function Dress(a: Address): Address {
      Qualify(Finish(a))
    }

    lemma QualifyOnce(a: Address)
      ensures Qualify(Qualify(a)) == Qualify(a)
    {
      if Qualify(a) != a {
        assert Qualify(a).mailbox.value[|a.mailbox.value|] == '@';
      }
    }
  }

  function MapDress(env: Env, s: seq<Address>): (r: seq<Address>)
    ensures |r| == |s|
  {
    seq(|s|, i requires 0 <= i < |s| => env.Dress(s[i]))
  }

  // ----- specification: the addresses that are no aliases, in the order found -----

  ghost function Elements(s: seq<string>): set<string> {
    set x | x in s
  }

  /** Every alias an expansion could meet is spelled as in the input or inside some alias. */
  ghost predicate Spellings(env: Env, universe: set<string>, a: seq<Address>) {
    (forall x :: x in a && x.mailbox.Some? ==> x.mailbox.value in universe) &&
    (forall m, x :: x in env.Members(m) && x.mailbox.Some? ==> x.mailbox.value in universe)
  }

  /** mutt_expand_aliases_r before finishing touches: the leaves, and the aliases expanded so far.
      It ends because every recursion adds a new spelling to expn. */
  ghost function Expand(env: Env, universe: set<string>, a: seq<Address>, expn: seq<string>)
    : (r: (seq<Address>, seq<string>))
    requires Spellings(env, universe, a)
    ensures Elements(expn) <= Elements(r.1)
    decreases |universe - Elements(expn)|, |a|
  {
    if a == [] then ([], expn)
    else
      var head, tail := a[0], a[1..];
      if !env.IsRef(head) then
        var (leaves, expn') := Expand(env, universe, tail, expn);
        ([head] + leaves, expn')
      else if head.mailbox.value in expn then Expand(env, universe, tail, expn)
      else
        var m := head.mailbox.value;
        FewerLeft(universe, [m] + expn, expn);
        var (inner, expn1) := Expand(env, universe, env.Members(m), [m] + expn);
        FewerLeft(universe, expn1, expn);
        var (leaves, expn2) := Expand(env, universe, tail, expn1);
        (inner + leaves, expn2)
  }

  lemma FewerLeft(universe: set<string>, more: seq<string>, fewer: seq<string>)
    requires Elements(fewer) <= Elements(more)
    ensures |universe - Elements(more)| <= |universe - Elements(fewer)|
    ensures forall m :: m in universe && m in more && m !in fewer ==>
                          |universe - Elements(more)| < |universe - Elements(fewer)|
  {
    var left, right := universe - Elements(more), universe - Elements(fewer);
    SubsetSize(left, right);
    forall m | m in universe && m in more && m !in fewer
      ensures |left| < |right|
    {
      SubsetSize(left, right - {m});
    }
  }

  lemma Kept(fewer: seq<string>, more: seq<string>)
    requires Elements(fewer) <= Elements(more)
    ensures forall m :: m in fewer ==> m in more
  {
    forall m | m in fewer
      ensures m in more
    {
      assert m in Elements(fewer);
    }
  }

  lemma SubsetSize<T>(a: set<T>, b: set<T>)
    requires a <= b
    ensures |a| <= |b|
  {
    assert b == a + (b - a);
  }

  function MapQualify(env: Env, s: seq<Address>): (r: seq<Address>)
    ensures |r| == |s|
  {
    seq(|s|, i requires 0 <= i < |s| => env.Qualify(s[i]))
  }

  /** Qualifying again what a recursive call has already dressed changes nothing. */
  lemma QualifyDressed(env: Env, s: seq<Address>)
    ensures MapQualify(env, MapDress(env, s)) == MapDress(env, s)
  {
    forall i | 0 <= i < |s|
      ensures env.Qualify(env.Dress(s[i])) == env.Dress(s[i])
    {
      env.QualifyOnce(env.Finish(s[i]));
    }
  }

  lemma MapAppend(env: Env, head: seq<Address>, w: seq<Address>, leaves: seq<Address>, found: seq<Address>)
    requires MapQualify(env, head) == MapDress(env, leaves) && MapQualify(env, w) == MapDress(env, found)
    ensures MapQualify(env, head + w) == MapDress(env, leaves + found)
  {
    assert MapQualify(env, head + w) == MapQualify(env, head) + MapQualify(env, w);
    assert MapDress(env, leaves + found) == MapDress(env, leaves) + MapDress(env, found);
  }

  class Expander {
    const env: Env
    var expn: seq<string>  // spellings expanded so far, newest first

    constructor (env: Env)
      ensures this.env == env && expn == []
    {
      this.env, expn := env, [];
    }

    /** mutt_expand_aliases_r. */
    method ExpandR(a: seq<Address>, ghost universe: set<string>) returns (head: seq<Address>)
      requires Spellings(env, universe, a)
      modifies this
      ensures var (leaves, expn') := Expand(env, universe, a, old(expn));
              head == MapDress(env, leaves) && expn == expn'
      decreases |universe - Elements(expn)|, 2
    {
      head := [];
      ghost var leaves: seq<Address> := [];
      var i := 0;
      assert a[0..] == a && [] + Expand(env, universe, a, expn).0 == Expand(env, universe, a, expn).0;
      while i < |a|
        invariant 0 <= i <= |a| && Spellings(env, universe, a[i..])
        invariant Elements(old(expn)) <= Elements(expn)
        invariant var (rest, expn') := Expand(env, universe, a[i..], expn);
                  Expand(env, universe, a, old(expn)) == (leaves + rest, expn')
        invariant MapQualify(env, head) == MapDress(env, leaves)
      {
        FewerLeft(universe, expn, old(expn));
        assert a[i..] == [a[i]] + a[i + 1..];
        var w;
        ghost var found;
        w, found := ExpandOne(a[i], universe, a[i + 1..]);
        ghost var rest := Expand(env, universe, a[i + 1..], expn).0;
        assert leaves + (found + rest) == leaves + found + rest;
        MapAppend(env, head, w, leaves, found);
        head, leaves := head + w, leaves + found;
        i := i + 1;
      }
      assert a[i..] == [] && leaves + [] == leaves;
      if env.fqdn.Some? {
        head := MapQualify(env, head);
      } else {
        assert MapQualify(env, head) == head;
      }
    }

    /** One round of its loop: what it appends to the list, and the aliases it adds to expn. */
    method ExpandOne(one: Address, ghost universe: set<string>, ghost rest: seq<Address>)
      returns (w: seq<Address>, ghost found: seq<Address>)
      requires Spellings(env, universe, [one] + rest)
      modifies this
      ensures Elements(old(expn)) <= Elements(expn)
      ensures Spellings(env, universe, rest)
      ensures var (leaves, expn') := Expand(env, universe, rest, expn);
              Expand(env, universe, [one] + rest, old(expn)) == (found + leaves, expn')
      ensures MapQualify(env, w) == MapDress(env, found)
      decreases |universe - Elements(expn)|, 1
    {
      assert ([one] + rest)[1..] == rest;
      found := [];
      if env.IsRef(one) {
        var m := one.mailbox.value;
        if m in expn {
          w := [];
        } else {
          assert one in [one] + rest;
          w, found := ExpandAlias(m, universe);
        }
      } else {
        w, found := [env.Finish(one)], [one];
      }
      assert [] + Expand(env, universe, rest, expn).0 == Expand(env, universe, rest, expn).0;
    }

    /** An alias not expanded before. */
    method ExpandAlias(m: string, ghost universe: set<string>) returns (w: seq<Address>, ghost found: seq<Address>)
      requires Spellings(env, universe, []) && m in universe && m !in expn
      modifies this
      ensures Elements(old(expn)) <= Elements(expn)
      ensures Spellings(env, universe, env.Members(m))
      ensures (found, expn) == Expand(env, universe, env.Members(m), [m] + old(expn))
      ensures MapQualify(env, w) == MapDress(env, found)
      decreases |universe - Elements(expn)|, 0
    {
      FewerLeft(universe, [m] + expn, expn);
      found := Expand(env, universe, env.Members(m), [m] + expn).0;
      expn := [m] + expn;
      w := ExpandR(env.Members(m), universe);
      QualifyDressed(env, found);
    }
  }

  // ----- what the expansion contains -----

  /** A path through the alias graph: every step leaves an alias for one of its members. */
  ghost predicate Path(env: Env, p: seq<Address>) {
    p != [] && forall i :: 0 <= i < |p| - 1 ==> env.IsRef(p[i]) && p[i + 1] in env.Members(p[i].mailbox.value)
  }

  ghost predicate Reaches(env: Env, a: seq<Address>, x: Address) {
    exists p :: Path(env, p) && p[0] in a && p[|p| - 1] == x
  }

  ghost predicate Handled(env: Env, x: Address, leaves: seq<Address>, expn: seq<string>) {
    if env.IsRef(x) then x.mailbox.value in expn else x in leaves
  }

  ghost predicate AllHandled(env: Env, a: seq<Address>, leaves: seq<Address>, expn: seq<string>) {
    forall x :: x in a ==> Handled(env, x, leaves, expn)
  }

  ghost predicate AliasesHandled(env: Env, expn: seq<string>, leaves: seq<Address>, expn': seq<string>) {
    forall m :: m in expn' && m !in expn ==> AllHandled(env, env.Members(m), leaves, expn')
  }

  /** Everything in the input, and in each alias expanded here, has been taken care of. */
  lemma {:induction false} ExpandHandlesAll(env: Env, universe: set<string>, a: seq<Address>, expn: seq<string>)
    requires Spellings(env, universe, a)
    ensures var (leaves, expn') := Expand(env, universe, a, expn);
            AllHandled(env, a, leaves, expn') && AliasesHandled(env, expn, leaves, expn')
    decreases |universe - Elements(expn)|, |a|
  {
    if a != [] {
      var head, tail := a[0], a[1..];
      if env.IsRef(head) && head.mailbox.value !in expn {
        var m := head.mailbox.value;
        FewerLeft(universe, [m] + expn, expn);
        var (inner, expn1) := Expand(env, universe, env.Members(m), [m] + expn);
        FewerLeft(universe, expn1, expn);
        var (leaves, expn2) := Expand(env, universe, tail, expn1);
        ExpandHandlesAll(env, universe, env.Members(m), [m] + expn);
        ExpandHandlesAll(env, universe, tail, expn1);
        Kept([m] + expn, expn1);
        HandledTogether(env, env.Members(m), tail, m, expn, inner, expn1, leaves, expn2);
        assert forall x :: x in a ==> x == head || x in tail;
      } else {
        var (leaves, expn') := Expand(env, universe, tail, expn);
        var leaves' := Expand(env, universe, a, expn).0;
        Kept(expn, expn');
        ExpandHandlesAll(env, universe, tail, expn);
        HandledMore(env, tail, leaves, leaves', expn', expn');
        forall m | m in expn' && m !in expn
          ensures AllHandled(env, env.Members(m), leaves', expn')
        {
          HandledMore(env, env.Members(m), leaves, leaves', expn', expn');
        }
        assert forall x :: x in a ==> x == head || x in tail;
      }
    }
  }

  lemma HandledMore(env: Env, a: seq<Address>, leaves: seq<Address>, leaves': seq<Address>,
                    expn: seq<string>, expn': seq<string>)
    requires AllHandled(env, a, leaves, expn)
    requires (forall x :: x in leaves ==> x in leaves') && (forall m :: m in expn ==> m in expn')
    ensures AllHandled(env, a, leaves', expn')
  {
  }

  lemma HandledTogether(env: Env, members: seq<Address>, tail: seq<Address>, m: string, expn: seq<string>,
                        inner: seq<Address>, expn1: seq<string>, leaves: seq<Address>, expn2: seq<string>)
    requires Elements(expn1) <= Elements(expn2) && members == env.Members(m) && m in expn1
    requires AllHandled(env, members, inner, expn1) && AllHandled(env, tail, leaves, expn2)
    requires AliasesHandled(env, [m] + expn, inner, expn1) && AliasesHandled(env, expn1, leaves, expn2)
    ensures m in expn2
    ensures AllHandled(env, tail, inner + leaves, expn2) && AliasesHandled(env, expn, inner + leaves, expn2)
  {
    Kept(expn1, expn2);
    HandledMore(env, tail, leaves, inner + leaves, expn2, expn2);
    forall k | k in expn2 && k !in expn
      ensures AllHandled(env, env.Members(k), inner + leaves, expn2)
    {
      if k in expn1 {
        assert k == m || k !in [m] + expn;
        HandledMore(env, env.Members(k), inner, inner + leaves, expn1, expn2);
      } else {
        HandledMore(env, env.Members(k), leaves, inner + leaves, expn2, expn2);
      }
    }
  }

  /** Nothing is returned or expanded that the input does not lead to. */
  lemma {:induction false} ExpandOnlyReached(env: Env, universe: set<string>, a: seq<Address>, expn: seq<string>)
    requires Spellings(env, universe, a)
    ensures var (leaves, expn') := Expand(env, universe, a, expn);
            (forall x :: x in leaves ==> Reaches(env, a, x) && !env.IsRef(x)) &&
            (forall m :: m in expn' && m !in expn ==>
                           exists x :: Reaches(env, a, x) && env.IsRef(x) && x.mailbox.value == m)
    decreases |universe - Elements(expn)|, |a|
  {
    if a != [] {
      var head, tail := a[0], a[1..];
      Reached(env, a, head);
      ReachesFromTail(env, a);
      if env.IsRef(head) && head.mailbox.value !in expn {
        var m := head.mailbox.value;
        FewerLeft(universe, [m] + expn, expn);
        var (inner, expn1) := Expand(env, universe, env.Members(m), [m] + expn);
        FewerLeft(universe, expn1, expn);
        ExpandOnlyReached(env, universe, env.Members(m), [m] + expn);
        ExpandOnlyReached(env, universe, tail, expn1);
        ReachesThroughAlias(env, a);
        var (leaves, expn2) := Expand(env, universe, tail, expn1);
        assert Expand(env, universe, a, expn) == (inner + leaves, expn2);
        forall k | k in expn2 && k !in expn
          ensures exists x :: Reaches(env, a, x) && env.IsRef(x) && x.mailbox.value == k
        {
          if k == m {
            assert Reaches(env, a, head);
          } else if k in expn1 {
            assert k !in [m] + expn;
          }
        }
      } else {
        ExpandOnlyReached(env, universe, tail, expn);
      }
    }
  }

  lemma ReachesFromTail(env: Env, a: seq<Address>)
    requires a != []
    ensures forall x :: Reaches(env, a[1..], x) ==> Reaches(env, a, x)
  {
    forall x | Reaches(env, a[1..], x)
      ensures Reaches(env, a, x)
    {
      var p :| Path(env, p) && p[0] in a[1..] && p[|p| - 1] == x;
      assert p[0] in a;
    }
  }

  lemma ReachesThroughAlias(env: Env, a: seq<Address>)
    requires a != [] && env.IsRef(a[0])
    ensures forall x :: Reaches(env, env.Members(a[0].mailbox.value), x) ==> Reaches(env, a, x)
  {
    forall x | Reaches(env, env.Members(a[0].mailbox.value), x)
      ensures Reaches(env, a, x)
    {
      var p :| Path(env, p) && p[0] in env.Members(a[0].mailbox.value) && p[|p| - 1] == x;
      var q := [a[0]] + p;
      assert Path(env, q) && q[0] in a && q[|q| - 1] == x;
    }
  }

  lemma Reached(env: Env, a: seq<Address>, x: Address)
    requires x in a
    ensures Reaches(env, a, x)
  {
    assert Path(env, [x]);
  }

  lemma {:induction false} PathHandled(env: Env, universe: set<string>, a: seq<Address>, p: seq<Address>)
    requires Spellings(env, universe, a) && Path(env, p) && p[0] in a
    ensures var (leaves, expn) := Expand(env, universe, a, []);
            Handled(env, p[|p| - 1], leaves, expn)
    decreases |p|
  {
    ExpandHandlesAll(env, universe, a, []);
    if |p| > 1 {
      PathHandled(env, universe, a, p[..|p| - 1]);
    }
  }

  /** Alias expansion returns exactly the addresses that are no aliases and that the input leads to
      through the alias graph, however cyclic, and expands exactly the spellings on the way. */
  lemma ExpandIsReachability(env: Env, universe: set<string>, a: seq<Address>)
    requires Spellings(env, universe, a)
    ensures var (leaves, expn) := Expand(env, universe, a, []);
            (forall x :: x in leaves <==> Reaches(env, a, x) && !env.IsRef(x)) &&
            (forall m :: m in expn <==> exists x :: Reaches(env, a, x) && env.IsRef(x) && x.mailbox.value == m)
  {
    ExpandOnlyReached(env, universe, a, []);
    var (leaves, expn) := Expand(env, universe, a, []);
    forall x | Reaches(env, a, x)
      ensures Handled(env, x, leaves, expn)
    {
      var p :| Path(env, p) && p[0] in a && p[|p| - 1] == x;
      PathHandled(env, universe, a, p);
    }
  }

  ghost predicate NoRepeats(s: seq<string>) {
    forall i, j :: 0 <= i < j < |s| ==> s[i] != s[j]
  }

  /** No spelling is ever expanded twice. */
  lemma {:induction false} ExpandedOnce(env: Env, universe: set<string>, a: seq<Address>, expn: seq<string>)
    requires Spellings(env, universe, a) && NoRepeats(expn)
    ensures NoRepeats(Expand(env, universe, a, expn).1)
    decreases |universe - Elements(expn)|, |a|
  {
    if a != [] {
      var head, tail := a[0], a[1..];
      if env.IsRef(head) && head.mailbox.value !in expn {
        var m := head.mailbox.value;
        FewerLeft(universe, [m] + expn, expn);
        var expn1 := Expand(env, universe, env.Members(m), [m] + expn).1;
        FewerLeft(universe, expn1, expn);
        ExpandedOnce(env, universe, env.Members(m), [m] + expn);
        ExpandedOnce(env, universe, tail, expn1);
      } else {
        ExpandedOnce(env, universe, tail, expn);
      }
    }
  }

  /** Such a universe exists for every alias list: expansion always ends. */
  ghost function AllSpellings(env: Env, a: seq<Address>): set<string> {
    (set x | x in a && x.mailbox.Some? :: x.mailbox.value) +
    (set i, j | 0 <= i < |env.aliases| && 0 <= j < |env.aliases[i].1| && env.aliases[i].1[j].mailbox.Some? ::
       env.aliases[i].1[j].mailbox.value)
  }

  lemma {:induction false} LookupFromList(list: seq<(string, seq<Address>)>, name: string) returns (i: nat)
    requires Env.LookupIn(list, name) != []
    ensures i < |list| && list[i].1 == Env.LookupIn(list, name)
  {
    if Lower(list[0].0) == Lower(name) {
      i := 0;
    } else {
      i := LookupFromList(list[1..], name);
      i := i + 1;
    }
  }

  lemma AllSpellingsSuffice(env: Env, a: seq<Address>)
    ensures Spellings(env, AllSpellings(env, a), a)
  {
    forall m, x | x in env.Members(m) && x.mailbox.Some?
      ensures x.mailbox.value in AllSpellings(env, a)
    {
      var j :| 0 <= j < |env.Members(m)| && env.Members(m)[j] == x;
      var i := LookupFromList(env.aliases, m);
      assert env.aliases[i].1[j].mailbox == x.mailbox;
    }
  }

  // ----- mutt_remove_duplicates -----

  predicate SameMailbox(x: Address, y: Address) {
    x.mailbox.Some? && y.mailbox.Some? && Lower(x.mailbox.value) == Lower(y.mailbox.value)
  }

  /** The addresses that no earlier one in the list has the mailbox of. */
  function Unique(list: seq<Address>): seq<Address> {
    if list == [] then []
    else
      var front, x := list[..|list| - 1], list[|list| - 1];
      Unique(front) + if exists y :: y in front && SameMailbox(x, y) then [] else [x]
  }

  lemma {:induction false} UniqueCovers(list: seq<Address>)
    ensures forall y :: y in Unique(list) ==> y in list
    ensures forall x :: x in list ==> exists y :: y in Unique(list) && (y == x || SameMailbox(x, y))
    ensures forall i, j :: 0 <= i < j < |Unique(list)| ==> !SameMailbox(Unique(list)[i], Unique(list)[j])
  {
    if list != [] {
      var front, last := list[..|list| - 1], list[|list| - 1];
      UniqueCovers(front);
      forall x | x in list
        ensures exists y :: y in Unique(list) && (y == x || SameMailbox(x, y))
      {
        if x in front {
          var y :| y in Unique(front) && (y == x || SameMailbox(x, y));
          assert y in Unique(list);
        } else {
          assert x == last;
          if exists z :: z in front && SameMailbox(last, z) {
            var z :| z in front && SameMailbox(last, z);
            var y :| y in Unique(front) && (y == z || SameMailbox(z, y));
            assert y in Unique(list);
          } else {
            assert Unique(list)[|Unique(front)|] == last;
            assert last in Unique(list);
          }
        }
      }
      forall i, j | 0 <= i < j < |Unique(list)|
        ensures !SameMailbox(Unique(list)[i], Unique(list)[j])
      {
        assert Unique(list)[i] == Unique(front)[i];
        if j == |Unique(front)| {
          assert Unique(front)[i] in front;
        }
      }
    }
  }

  /** mutt_remove_duplicates: compares with the addresses kept so far only. */
  method RemoveDuplicates(list: seq<Address>) returns (top: seq<Address>)
    ensures top == Unique(list)
  {
    top := [];
    var i := 0;
    while i < |list|
      invariant 0 <= i <= |list| && top == Unique(list[..i])
    {
      var dup, j := false, 0;
      while j < |top| && !dup
        invariant 0 <= j <= |top|
        invariant dup ==> exists y :: y in top && SameMailbox(list[i], y)
        invariant !dup ==> forall k :: 0 <= k < j ==> !SameMailbox(list[i], top[k])
      {
        dup := SameMailbox(list[i], top[j]);
        j := j + 1;
      }
      UniqueCovers(list[..i]);
      assert list[..i + 1][..i] == list[..i];
      forall y | y in list[..i] && SameMailbox(list[i], y)
        ensures dup
      {
        var z :| z in top && (z == y || SameMailbox(y, z));
        assert SameMailbox(list[i], z);
      }
      if !dup {
        top := top + [list[i]];
      }
      i := i + 1;
    }
    assert list[..i] == list;
  }

  // ----- what becomes of an address that is no alias -----

  function BeforeAt(s: string): string {
    if s == "" || s[0] == '@' then "" else [s[0]] + BeforeAt(s[1..])
  }

  function BehindAt(s: string): string {
    if s == "" then "" else if s[0] == '@' then s[1..] else BehindAt(s[1..])
  }

  /** The name of a user of this system. */
  predicate Plain(x: Address) {
    !x.group && x.mailbox.Some? && '@' !in x.mailbox.value
  }

  /** y is the address x as it is returned: the host, if one is set, stands behind the first @ of a plain mailbox, and
      a plain address without a name has the name the password database gives. */
  ghost predicate Dressed(env: Env, x: Address, y: Address) {
    y.group == x.group &&
    (if env.fqdn.Some? && Plain(x)
     then y.mailbox.Some? && '@' in y.mailbox.value &&
          BeforeAt(y.mailbox.value) == x.mailbox.value && BehindAt(y.mailbox.value) == env.fqdn.value
     else y.mailbox == x.mailbox) &&
    if Plain(x) && x.personal.None? && env.gecos(x.mailbox.value).Some? && env.gecos(x.mailbox.value).value != ""
    then y.personal == env.gecos(x.mailbox.value)
    else y.personal == x.personal
  }

  lemma {:induction false} AroundAt(s: string)
    requires '@' in s
    ensures s == BeforeAt(s) + "@" + BehindAt(s)
  {
    if s[0] != '@' {
      AroundAt(s[1..]);
    }
  }

  lemma {:induction false} AtBetween(user: string, host: string)
    requires '@' !in user
    ensures BeforeAt(user + "@" + host) == user && BehindAt(user + "@" + host) == host
  {
    var s := user + "@" + host;
    if user == "" {
      assert s[1..] == host;
    } else {
      assert s[0] == user[0] && s[1..] == user[1..] + "@" + host;
      AtBetween(user[1..], host);
    }
  }

  lemma DressedIff(env: Env, x: Address, y: Address)
    ensures Dressed(env, x, y) <==> y == env.Dress(x)
  {
    if env.fqdn.Some? && Plain(x) {
      var s := x.mailbox.value + "@" + env.fqdn.value;
      AtBetween(x.mailbox.value, env.fqdn.value);
      assert s[|x.mailbox.value|] == '@';
      if y.mailbox.Some? && '@' in y.mailbox.value {
        AroundAt(y.mailbox.value);
      }
    }
  }

  /** mutt_expand_aliases: exactly the addresses that are no aliases and that the input leads to, dressed, one for each
      mailbox. */
  method ExpandAliases(env: Env, a: seq<Address>) returns (r: seq<Address>)
    ensures forall y :: y in r ==> exists x :: Reaches(env, a, x) && !env.IsRef(x) && Dressed(env, x, y)
    ensures forall x, z :: Reaches(env, a, x) && !env.IsRef(x) && Dressed(env, x, z) ==>
              exists y :: y in r && (y == z || SameMailbox(z, y))
    ensures forall i, j :: 0 <= i < j < |r| ==> !SameMailbox(r[i], r[j])
  {
    ghost var universe := AllSpellings(env, a);
    AllSpellingsSuffice(env, a);
    ExpandIsReachability(env, universe, a);
    ghost var leaves := Expand(env, universe, a, []).0;
    var expander := new Expander(env);
    var t := expander.ExpandR(a, universe);
    assert t == MapDress(env, leaves);
    r := RemoveDuplicates(t);
    UniqueCovers(t);
    forall y | y in r
      ensures exists x :: Reaches(env, a, x) && !env.IsRef(x) && Dressed(env, x, y)
    {
      var i :| 0 <= i < |t| && t[i] == y;
      assert leaves[i] in leaves;
      DressedIff(env, leaves[i], y);
    }
    forall x, z | Reaches(env, a, x) && !env.IsRef(x) && Dressed(env, x, z)
      ensures exists y :: y in r && (y == z || SameMailbox(z, y))
    {
      DressedIff(env, x, z);
      var i :| 0 <= i < |leaves| && leaves[i] == x;
      assert t[i] in t;
    }
  }
}
