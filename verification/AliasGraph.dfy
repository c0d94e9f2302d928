/** What an alias expansion means in terms of the list (alias.c). */
module AliasGraph {
  import opened Alias
  import opened Ascii
  import opened Options
  import opened Sequences

  // The alias graph, the order of an expansion, and which duplicates go.

  /** Equal but for the case of letters. */
  ghost predicate SameName(a: string, b: string) {
    |a| == |b| && forall i :: 0 <= i < |a| ==> LowerChar(a[i]) == LowerChar(b[i])
  }

  /** The i-th alias is the first with this name. */
  ghost predicate FirstAlias(aliases: seq<(string, seq<Address>)>, name: string, i: nat) {
    i < |aliases| && SameName(aliases[i].0, name) && forall j :: 0 <= j < i ==> !SameName(aliases[j].0, name)
  }

  /** A copy of the address; empty texts become NULL. */
  predicate CopyOf(x: Address, y: Address) {
    y.group == x.group && y.personal == (if x.personal == Some("") then None else x.personal) &&
    y.mailbox == if x.mailbox == Some("") then None else x.mailbox
  }

  /** x is nothing but the name of an alias, whose list holds an address of which y is a copy. */
  ghost predicate Edge(env: Env, x: Address, y: Address) {
    !x.group && x.personal == None && x.mailbox.Some? && '@' !in x.mailbox.value &&
    exists i: nat :: FirstAlias(env.aliases, x.mailbox.value, i) && exists z :: z in env.aliases[i].1 && CopyOf(z, y)
  }

  lemma SameLower(a: string, b: string)
    ensures Lower(a) == Lower(b) <==> SameName(a, b)
  {
    if Lower(a) == Lower(b) {
      assert |a| == |b|;
      forall i | 0 <= i < |a|
        ensures LowerChar(a[i]) == LowerChar(b[i])
      {
        assert Lower(a)[i] == LowerChar(a[i]) && Lower(b)[i] == LowerChar(b[i]);
      }
    }
  }

  lemma {:induction false} LookupFirst(aliases: seq<(string, seq<Address>)>, name: string)
    ensures forall i: nat :: FirstAlias(aliases, name, i) ==> Env.LookupIn(aliases, name) == aliases[i].1
    ensures Env.LookupIn(aliases, name) != [] ==> exists i: nat :: FirstAlias(aliases, name, i)
  {
    if aliases != [] {
      SameLower(aliases[0].0, name);
      if SameName(aliases[0].0, name) {
        assert FirstAlias(aliases, name, 0);
      } else {
        LookupFirst(aliases[1..], name);
        assert forall i :: 0 < i < |aliases| ==> aliases[i] == aliases[1..][i - 1];
        forall i: nat
          ensures FirstAlias(aliases, name, i + 1) <==> FirstAlias(aliases[1..], name, i)
        {
        }
        forall i: nat | FirstAlias(aliases, name, i)
          ensures Env.LookupIn(aliases, name) == aliases[i].1
        {
          assert i > 0;
          assert FirstAlias(aliases[1..], name, i - 1);
        }
        if Env.LookupIn(aliases, name) != [] {
          var i: nat :| FirstAlias(aliases[1..], name, i);
          assert FirstAlias(aliases, name, i + 1);
        }
      }
    }
  }

  /** The steps of an expansion are the edges: from an alias to a copy of a member of its list. */
  lemma StepIffEdge(env: Env, x: Address, y: Address)
    ensures env.IsRef(x) && y in env.Members(x.mailbox.value) <==> Edge(env, x, y)
    ensures env.IsRef(x) <==> exists z :: Edge(env, x, z)
  {
    if env.Local(x) {
      var name := x.mailbox.value;
      LookupFirst(env.aliases, name);
      MembersAreCopies(env, name, y);
      if env.Lookup(name) != [] {
        MembersAreCopies(env, name, env.Members(name)[0]);
        assert Edge(env, x, env.Members(name)[0]);
      }
    }
  }

  lemma MembersAreCopies(env: Env, name: string, y: Address)
    ensures y in env.Members(name) <==> exists z :: z in env.Lookup(name) && CopyOf(z, y)
  {
    var list := env.Lookup(name);
    forall z | z in list && CopyOf(z, y)
      ensures y in env.Members(name)
    {
      var i :| 0 <= i < |list| && list[i] == z;
      assert env.Members(name)[i] == y;
    }
    if y in env.Members(name) {
      var i :| 0 <= i < |list| && env.Members(name)[i] == y;
      assert list[i] in list && CopyOf(list[i], y);
    }
  }

  // ----- order -----

  /** What comes first in the input comes first in the expansion, and its aliases are expanded first. */
  lemma {:induction false} ExpandInOrder(env: Env, universe: set<string>, a: seq<Address>, b: seq<Address>,
                                         expn: seq<string>)
    requires Spellings(env, universe, a + b)
    ensures Spellings(env, universe, a) && Spellings(env, universe, b)
    ensures var (front, expn1) := Expand(env, universe, a, expn); var (back, expn2) := Expand(env, universe, b, expn1);
            Expand(env, universe, a + b, expn) == (front + back, expn2)
    decreases |universe - Elements(expn)|, |a|
  {
    forall x | x in a || x in b
      ensures x in a + b
    {
    }
    if a == [] {
      assert a + b == b;
      assert [] + Expand(env, universe, b, expn).0 == Expand(env, universe, b, expn).0;
    } else {
      var head, tail := a[0], a[1..];
      assert (a + b)[1..] == tail + b;
      if env.IsRef(head) && head.mailbox.value !in expn {
        var m := head.mailbox.value;
        FewerLeft(universe, [m] + expn, expn);
        var (inner, expn1) := Expand(env, universe, env.Members(m), [m] + expn);
        FewerLeft(universe, expn1, expn);
        ExpandInOrder(env, universe, tail, b, expn1);
        var (front, expn2) := Expand(env, universe, tail, expn1);
        var back := Expand(env, universe, b, expn2).0;
        assert inner + (front + back) == inner + front + back;
      } else {
        ExpandInOrder(env, universe, tail, b, expn);
        var (front, expn1) := Expand(env, universe, tail, expn);
        var back := Expand(env, universe, b, expn1).0;
        assert [head] + (front + back) == [head] + front + back;
      }
    }
  }

  // ----- duplicates -----

  /** No address before the i-th has its mailbox. */
  ghost predicate FirstOfMailbox(list: seq<Address>, i: nat) {
    i < |list| && forall j :: 0 <= j < i ==> !SameMailbox(list[i], list[j])
  }

  lemma FirstInFront(list: seq<Address>, n: nat, i: nat)
    requires i < n <= |list|
    ensures FirstOfMailbox(list[..n], i) <==> FirstOfMailbox(list, i)
  {
  }

  lemma FirstIffUnseen(list: seq<Address>, n: nat)
    requires n < |list|
    ensures FirstOfMailbox(list, n) <==> !(exists y :: y in list[..n] && SameMailbox(list[n], y))
  {
    forall j | 0 <= j < n
      ensures list[j] in list[..n]
    {
      assert list[..n][j] == list[j];
    }
  }

  lemma UniqueMore(list: seq<Address>, n: nat)
    requires |list| == n + 1
    ensures Unique(list) == Unique(list[..n]) + if FirstOfMailbox(list, n) then [list[n]] else []
  {
    FirstIffUnseen(list, n);
  }

  /** These are the places of the addresses that come first of their mailbox. */
  ghost predicate Firsts(list: seq<Address>, ks: seq<nat>) {
    forall i: nat :: i in ks <==> FirstOfMailbox(list, i)
  }

  lemma FirstsMore(list: seq<Address>, n: nat, ks: seq<nat>)
    requires |list| == n + 1 && Firsts(list[..n], ks)
    ensures Firsts(list, ks + if FirstOfMailbox(list, n) then [n] else [])
    ensures forall i :: 0 <= i < |ks| ==> ks[i] < n
  {
    forall i: nat
      ensures i in ks <==> i < n && FirstOfMailbox(list, i)
    {
      if i < n {
        FirstInFront(list, n, i);
      }
    }
    forall i | 0 <= i < |ks|
      ensures ks[i] < n
    {
      assert ks[i] in ks;
    }
  }

  /** The addresses kept are those that come first of their mailbox, in their order. */
  lemma {:induction false} FirstsAreKept(list: seq<Address>) returns (ks: seq<nat>)
    ensures Picks(list, ks, Unique(list)) && Firsts(list, ks)
  {
    ks := [];
    if list != [] {
      var n := |list| - 1;
      ks := FirstsAreKept(list[..n]);
      FirstsMore(list, n, ks);
      UniqueMore(list, n);
      PicksWider(list, n, ks, Unique(list[..n]));
      if FirstOfMailbox(list, n) {
        PicksLast(list, n, ks, Unique(list[..n]));
        ks := ks + [n];
      } else {
        assert ks + [] == ks && Unique(list[..n]) + [] == Unique(list[..n]);
      }
    }
  }
}
