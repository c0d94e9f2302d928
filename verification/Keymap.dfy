/** The sorted list of key bindings of one menu (keymap.c). */
module Keymap {
  import opened KeySequence

  // The list is prefix-free, and threaded with the number of keys each entry shares with its successor.

  datatype Action = Action(op: int, macro: string, descr: string)

  class Node {
    const keys: KeySeq
    const action: Action
    var eq: nat
    var next: Node?

    constructor (keys: KeySeq, action: Action)
      ensures this.keys == keys && this.action == action && eq == 0 && next == null
    {
      this.keys, this.action, eq, next := keys, action, 0, null;
    }
  }

  ghost predicate SortedNodes(nodes: seq<Node>) {
    forall i, j :: 0 <= i < j < |nodes| ==> Before(nodes[i].keys, nodes[j].keys)
  }

  /** Entries i..j are those comparable with keys; the ones before and after sort before and after it. */
  ghost predicate Place(nodes: seq<Node>, keys: KeySeq, i: nat, j: nat) {
    i <= j <= |nodes| &&
    (forall k :: 0 <= k < i ==> Before(nodes[k].keys, keys)) &&
    (forall k :: i <= k < j ==> Comparable(nodes[k].keys, keys)) &&
    (forall k :: j <= k < |nodes| ==> Before(keys, nodes[k].keys))
  }

  /** k is the first entry that starts with prefix. */
  ghost predicate FirstWith(nodes: seq<Node>, prefix: KeySeq, k: nat) {
    k < |nodes| && prefix <= nodes[k].keys && forall i :: 0 <= i < k ==> !(prefix <= nodes[i].keys)
  }

  ghost function Splice(nodes: seq<Node>, node: Node, i: nat, j: nat): (r: seq<Node>)
    requires i <= j <= |nodes|
    ensures |r| == i + 1 + |nodes| - j && r[i] == node
    ensures forall k :: 0 <= k < i ==> r[k] == nodes[k]
    ensures forall k :: i < k < |r| ==> r[k] == nodes[k - i - 1 + j]
  {
    nodes[..i] + [node] + nodes[j..]
  }

  lemma SpliceSorted(nodes: seq<Node>, node: Node, i: nat, j: nat)
    requires SortedNodes(nodes) && Place(nodes, node.keys, i, j)
    ensures SortedNodes(Splice(nodes, node, i, j))
  {
    var r := Splice(nodes, node, i, j);
    forall p, q | 0 <= p < q < |r|
      ensures Before(r[p].keys, r[q].keys)
    {
      if p < i < q {
        assert Before(nodes[p].keys, nodes[q - i - 1 + j].keys);
      }
    }
  }

  // ----- the set of bindings a list denotes -----

  ghost function Table(nodes: seq<Node>): map<KeySeq, Action> {
    if nodes == [] then map[]
    else Table(nodes[..|nodes| - 1])[nodes[|nodes| - 1].keys := nodes[|nodes| - 1].action]
  }

  lemma {:induction false} InTable(nodes: seq<Node>, i: nat)
    requires SortedNodes(nodes) && i < |nodes|
    ensures nodes[i].keys in Table(nodes) && Table(nodes)[nodes[i].keys] == nodes[i].action
    decreases |nodes|
  {
    if i < |nodes| - 1 {
      InTable(nodes[..|nodes| - 1], i);
      Trichotomy(nodes[i].keys, nodes[|nodes| - 1].keys);
    }
  }

  lemma {:induction false} FromTable(nodes: seq<Node>, keys: KeySeq) returns (i: nat)
    requires keys in Table(nodes)
    ensures i < |nodes| && nodes[i].keys == keys
    decreases |nodes|
  {
    if keys == nodes[|nodes| - 1].keys {
      i := |nodes| - 1;
    } else {
      i := FromTable(nodes[..|nodes| - 1], keys);
    }
  }

  /** Binding keys overrides every sequence that is a prefix of it or that it is a prefix of. */
  ghost function Rebound(t: map<KeySeq, Action>, keys: KeySeq, action: Action): map<KeySeq, Action> {
    (map k | k in t && !Comparable(k, keys) :: t[k])[keys := action]
  }

  lemma SpliceTable(nodes: seq<Node>, node: Node, i: nat, j: nat)
    requires SortedNodes(nodes) && Place(nodes, node.keys, i, j) && SortedNodes(Splice(nodes, node, i, j))
    ensures Table(Splice(nodes, node, i, j)) == Rebound(Table(nodes), node.keys, node.action)
  {
    var r := Splice(nodes, node, i, j);
    var t, t' := Table(r), Rebound(Table(nodes), node.keys, node.action);
    InTable(r, i);
    forall k | k in t && k != node.keys
      ensures k in t' && t'[k] == t[k]
    {
      SplicedFrom(nodes, node, i, j, k);
    }
    forall k | k in t' && k != node.keys
      ensures k in t
    {
      SplicedInto(nodes, node, i, j, k);
    }
  }

  lemma SplicedInto(nodes: seq<Node>, node: Node, i: nat, j: nat, k: KeySeq)
    requires SortedNodes(nodes) && Place(nodes, node.keys, i, j) && SortedNodes(Splice(nodes, node, i, j))
    requires k in Table(nodes) && !Comparable(k, node.keys)
    ensures k in Table(Splice(nodes, node, i, j))
  {
    var y := FromTable(nodes, k);
    InTable(Splice(nodes, node, i, j), if y < i then y else y - j + i + 1);
  }

  lemma SplicedFrom(nodes: seq<Node>, node: Node, i: nat, j: nat, k: KeySeq)
    requires SortedNodes(nodes) && Place(nodes, node.keys, i, j) && SortedNodes(Splice(nodes, node, i, j))
    requires k in Table(Splice(nodes, node, i, j)) && k != node.keys
    ensures k in Table(nodes) && !Comparable(k, node.keys) && Table(nodes)[k] == Table(Splice(nodes, node, i, j))[k]
  {
    var r := Splice(nodes, node, i, j);
    var x := FromTable(r, k);
    Trichotomy(k, node.keys);
    InTable(r, x);
    InTable(nodes, if x < i then x else x - i - 1 + j);
  }

  ghost function Bindings(nodes: seq<Node>): seq<(KeySeq, Action)> {
    if nodes == [] then []
    else Bindings(nodes[..|nodes| - 1]) + [(nodes[|nodes| - 1].keys, nodes[|nodes| - 1].action)]
  }

  /** A sorted list is determined by the bindings it denotes (and with it, by Indexed, every eq). */
  lemma {:induction false} TableDeterminesList(a: seq<Node>, b: seq<Node>)
    requires SortedNodes(a) && SortedNodes(b) && Table(a) == Table(b)
    ensures Bindings(a) == Bindings(b)
    decreases |a|
  {
    EmptyTable(a);
    EmptyTable(b);
    if a != [] {
      SameLast(a, b);
      TableWithoutLast(a);
      TableWithoutLast(b);
      TableDeterminesList(a[..|a| - 1], b[..|b| - 1]);
    }
  }

  lemma EmptyTable(a: seq<Node>)
    requires SortedNodes(a)
    ensures a == [] <==> Table(a) == map[]
  {
    if a != [] {
      InTable(a, 0);
    }
  }

  lemma SameLast(a: seq<Node>, b: seq<Node>)
    requires SortedNodes(a) && SortedNodes(b) && Table(a) == Table(b) && a != [] && b != []
    ensures a[|a| - 1].keys == b[|b| - 1].keys && a[|a| - 1].action == b[|b| - 1].action
  {
    InTable(a, |a| - 1);
    InTable(b, |b| - 1);
    LastIsGreatest(a, b[|b| - 1].keys);
    LastIsGreatest(b, a[|a| - 1].keys);
    Trichotomy(a[|a| - 1].keys, b[|b| - 1].keys);
  }

  lemma LastIsGreatest(a: seq<Node>, keys: KeySeq)
    requires SortedNodes(a) && keys in Table(a) && a != []
    ensures keys == a[|a| - 1].keys || Before(keys, a[|a| - 1].keys)
  {
    var i := FromTable(a, keys);
  }

  lemma TableWithoutLast(a: seq<Node>)
    requires SortedNodes(a) && a != []
    ensures Table(a[..|a| - 1]) == Table(a) - {a[|a| - 1].keys}
  {
    LastNotInFront(a);
    PutAndRemove(Table(a[..|a| - 1]), a[|a| - 1].keys, a[|a| - 1].action);
  }

  lemma LastNotInFront(a: seq<Node>)
    requires SortedNodes(a) && a != []
    ensures a[|a| - 1].keys !in Table(a[..|a| - 1])
  {
    var t := Table(a[..|a| - 1]);
    forall k | k in t
      ensures k != a[|a| - 1].keys
    {
      var i := FromTable(a[..|a| - 1], k);
      Trichotomy(a[i].keys, a[|a| - 1].keys);
    }
  }

  lemma PutAndRemove<X, Y>(m: map<X, Y>, x: X, y: Y)
    requires x !in m
    ensures m[x := y] - {x} == m
  {
  }

  // ----- runs of km_bind -----

  /** The bindings after a series of km_bind calls on an empty menu. */
  ghost function AfterBinds(binds: seq<(KeySeq, Action)>): map<KeySeq, Action> {
    if binds == [] then map[]
    else
      var last := binds[|binds| - 1];
      Rebound(AfterBinds(binds[..|binds| - 1]), last.0, last.1)
  }

  /** The i-th call bound keys and no later call bound anything prefix-comparable with it. */
  ghost predicate Survives(binds: seq<(KeySeq, Action)>, keys: KeySeq, i: nat) {
    i < |binds| && binds[i].0 == keys && forall j :: i < j < |binds| ==> !Comparable(keys, binds[j].0)
  }

  /** A sequence is bound after any series of calls exactly when one call for it survives. */
  lemma {:induction false} BoundIffSurvives(binds: seq<(KeySeq, Action)>, keys: KeySeq)
    ensures keys in AfterBinds(binds) <==> exists i: nat :: Survives(binds, keys, i)
    ensures forall i: nat :: Survives(binds, keys, i) ==>
              keys in AfterBinds(binds) && AfterBinds(binds)[keys] == binds[i].1
  {
    if binds != [] {
      var n := |binds| - 1;
      var front, last := binds[..n], binds[n];
      BoundIffSurvives(front, keys);
      if keys == last.0 {
        assert Survives(binds, keys, n);
        assert Comparable(keys, keys);
      } else {
        forall i: nat
          ensures Survives(binds, keys, i) <==> Survives(front, keys, i) && !Comparable(keys, last.0)
        {
          if Survives(binds, keys, i) {
            assert binds[n] == last;
          }
        }
      }
    }
  }

  class Keymap {
    var head: Node?
    ghost var nodes: seq<Node>

    ghost function At(i: int): Node?
      reads this
    {
      if 0 <= i < |nodes| then nodes[i] else null
    }

    ghost predicate Linked()
      reads this, nodes
    {
      head == At(0) &&
      (forall i {:trigger nodes[i].next} :: 0 <= i < |nodes| ==> nodes[i].next == At(i + 1)) &&
      (forall i, j :: 0 <= i < j < |nodes| ==> nodes[i] != nodes[j])
    }

    ghost predicate Sorted()
      reads this
    {
      SortedNodes(nodes)
    }

    /** Every eq is exactly the common-prefix length with the next entry, 0 at the end. */
    ghost predicate Indexed()
      reads this, nodes
    {
      forall i {:trigger nodes[i].eq} :: 0 <= i < |nodes| ==>
        nodes[i].eq == if i + 1 < |nodes| then Shared(nodes[i].keys, nodes[i + 1].keys) else 0
    }

    ghost predicate Valid()
      reads this, nodes
    {
      Linked() && Sorted() && Indexed()
    }

    constructor ()
      ensures Valid() && nodes == []
    {
      head, nodes := null, [];
    }

    lemma RestSortsAfter(keys: KeySeq, j: nat)
      requires Sorted() && (j < |nodes| ==> Before(keys, nodes[j].keys))
      ensures forall k :: j <= k < |nodes| ==> Before(keys, nodes[k].keys)
    {
      forall k | j < k < |nodes|
        ensures Before(keys, nodes[k].keys)
      {
        BeforeTransitive(keys, nodes[j].keys, nodes[k].keys);
      }
    }

    /** The search loop of km_bind, with the inner loop that drops overridden entries. */
    method Locate(keys: KeySeq)
      returns (last: Node?, lastpos: nat, tmp: Node?, eq: nat, ghost i: nat, ghost j: nat)
      requires Valid()
      ensures Place(nodes, keys, i, j) && last == At(i - 1) && tmp == At(j)
      ensures last != null ==> lastpos == Shared(last.keys, keys)
      ensures eq == if tmp != null then Shared(keys, tmp.keys) else 0
    {
      tmp, last, eq := head, null, 0;
      lastpos, i, j := 0, 0, 0;
      var pos: nat := 0;
      while tmp != null
        invariant i <= |nodes| && i == j && tmp == At(i) && last == At(i - 1) && eq == 0
        invariant forall k :: 0 <= k < i ==> Before(nodes[k].keys, keys)
        invariant i > 0 ==> lastpos == Shared(nodes[i - 1].keys, keys)
        invariant i < |nodes| ==> pos <= Shared(keys, nodes[i].keys)
        decreases |nodes| - i, |keys| - pos
      {
        if pos >= |keys| || pos >= |tmp.keys| {
          tmp, eq, j := DropOverridden(keys, tmp, pos, i);
          break;
        }
        CompareAt(keys, tmp.keys, pos);
        if keys[pos] == tmp.keys[pos] {
          pos := pos + 1;
        } else if keys[pos] < tmp.keys[pos] {
          RestSortsAfter(keys, i);
          eq := pos;
          break;
        } else {
          last, lastpos := tmp, pos;
          tmp, pos := MoveOn(keys, tmp, pos, i);
          i, j := i + 1, i + 1;
        }
      }
    }

    /** The new keys sort after tmp, with which they share pos keys: on to the next entry. */
    method MoveOn(keys: KeySeq, tmp: Node, pos: nat, ghost i: nat) returns (next: Node?, pos': nat)
      requires Valid() && i < |nodes| && nodes[i] == tmp && pos <= Shared(keys, tmp.keys)
      ensures next == At(i + 1) && (i + 1 < |nodes| ==> pos' <= Shared(keys, nodes[i + 1].keys))
    {
      next, pos' := tmp.next, pos;
      if pos > tmp.eq {
        pos' := tmp.eq;
      }
      if next != null {
        SharedThrough(keys, tmp.keys, next.keys, pos');
      }
    }

    /** Entries i to j are dropped: all of them if the new keys are a prefix of i, else i alone. */
    ghost predicate Dropping(keys: KeySeq, pos: nat, i: nat, j: nat)
      reads this
    {
      i < j <= |nodes| && (pos < |keys| ==> j == i + 1) &&
      (pos == |keys| ==> forall k :: i <= k < j ==> pos <= Shared(keys, nodes[k].keys))
    }

    lemma DropNext(keys: KeySeq, pos: nat, i: nat, j: nat)
      requires Valid() && Dropping(keys, pos, i, j) && j < |nodes| && nodes[j - 1].eq >= pos
      requires pos <= Shared(keys, nodes[i].keys) && (pos == |keys| || pos == |nodes[i].keys|)
      ensures Dropping(keys, pos, i, j + 1)
    {
      SharedThrough(keys, nodes[j - 1].keys, nodes[j].keys, pos);
    }

    /** km_bind's inner loop: drop tmp and all that still share pos keys with their predecessor. */
    method DropOverridden(keys: KeySeq, first: Node, pos: nat, ghost i: nat)
      returns (tmp: Node?, eq: nat, ghost j: nat)
      requires Valid() && At(i) == first && pos <= Shared(keys, first.keys)
      requires pos == |keys| || pos == |first.keys|
      ensures i < j <= |nodes| && tmp == At(j)
      ensures forall k :: i <= k < j ==> Comparable(nodes[k].keys, keys)
      ensures forall k :: j <= k < |nodes| ==> Before(keys, nodes[k].keys)
      ensures eq == if tmp != null then Shared(keys, tmp.keys) else 0
    {
      eq, tmp, j := first.eq, first.next, i + 1;
      while tmp != null && eq >= pos
        invariant Dropping(keys, pos, i, j) && tmp == At(j) && eq == nodes[j - 1].eq
        decreases |nodes| - j
      {
        DropNext(keys, pos, i, j);
        eq, tmp, j := tmp.eq, tmp.next, j + 1;
      }
      AfterDropping(keys, pos, i, j);
    }

    /** When dropping stops, the rest sorts after the new keys, and the last eq read is what they share with it. */
    lemma AfterDropping(keys: KeySeq, pos: nat, i: nat, j: nat)
      requires Valid() && Dropping(keys, pos, i, j) && (j < |nodes| ==> nodes[j - 1].eq < pos)
      requires pos <= Shared(keys, nodes[i].keys) && (pos == |keys| || pos == |nodes[i].keys|)
      ensures forall k :: i <= k < j ==> Comparable(nodes[k].keys, keys)
      ensures forall k :: j <= k < |nodes| ==> Before(keys, nodes[k].keys)
      ensures nodes[j - 1].eq == if j < |nodes| then Shared(keys, nodes[j].keys) else 0
    {
      OverriddenComparable(keys, pos, i, j);
      if j < |nodes| {
        SortsBeforeSuccessor(keys, nodes[j - 1].keys, nodes[j].keys);
      }
      RestSortsAfter(keys, j);
    }

    lemma OverriddenComparable(keys: KeySeq, pos: nat, i: nat, j: nat)
      requires Dropping(keys, pos, i, j)
      requires pos <= Shared(keys, nodes[i].keys) && (pos == |keys| || pos == |nodes[i].keys|)
      ensures forall k :: i <= k < j ==> Comparable(nodes[k].keys, keys)
    {
      forall k | i <= k < j
        ensures Comparable(nodes[k].keys, keys)
      {
        SharedSymmetric(keys, nodes[k].keys);
        ComparableIffShared(nodes[k].keys, keys);
      }
    }

    /** The pointer updates at the end of km_bind. */
    method Insert(node: Node, last: Node?, lastpos: nat, tmp: Node?, eq: nat, ghost i: nat, ghost j: nat)
      requires Linked() && Indexed() && node !in nodes
      requires i <= j <= |nodes| && last == At(i - 1) && tmp == At(j)
      requires last != null ==> lastpos == Shared(last.keys, node.keys)
      requires eq == if tmp != null then Shared(node.keys, tmp.keys) else 0
      modifies this, node, last
      ensures Linked() && Indexed() && nodes == Splice(old(nodes), node, i, j)
    {
      node.eq, node.next := eq, tmp;
      if last != null {
        last.next := node;
        last.eq := lastpos;
      } else {
        head := node;
      }
      nodes := Splice(nodes, node, i, j);
    }

    /** km_bind. */
    method Bind(keys: KeySeq, action: Action)
      requires Valid()
      modifies this, nodes
      ensures Valid()
      ensures Table(nodes) == Rebound(Table(old(nodes)), keys, action)
    {
      var node := new Node(keys, action);
      var last, lastpos, tmp, eq, i, j := Locate(keys);
      SpliceSorted(nodes, node, i, j);
      SpliceTable(nodes, node, i, j);
      Insert(node, last, lastpos, tmp, eq, i, j);
    }

    /** The inner loop of km_dokey: having typed pos keys of cur, follow ch. */
    method Follow(cur: Node, pos: nat, ch: int, ghost k: nat) returns (at: Node, found: bool, ghost k': nat)
      requires Valid() && At(k) == cur && pos < |cur.keys| && FirstWith(nodes, cur.keys[..pos], k)
      ensures At(k') == at && pos < |at.keys| && at.keys[..pos] == cur.keys[..pos]
      ensures found ==> at.keys[pos] == ch && FirstWith(nodes, cur.keys[..pos] + [ch], k')
      ensures !found ==> forall i :: 0 <= i < |nodes| ==> !(cur.keys[..pos] + [ch] <= nodes[i].keys)
    {
      at, k' := cur, k;
      ghost var typed := cur.keys[..pos] + [ch];
      while ch > at.keys[pos]
        invariant At(k') == at && pos < |at.keys| && at.keys[..pos] == cur.keys[..pos]
        invariant forall i :: 0 <= i < k' ==> !(typed <= nodes[i].keys)
        decreases |nodes| - k'
      {
        if pos > at.eq || at.next == null {
          NoneFurther(nodes, k', typed, pos);
          return at, false, k';
        }
        SharedIsLongest(at.keys, at.next.keys);
        at, k' := at.next, k' + 1;
      }
      found := ch == at.keys[pos];
      if !found {
        NoneFurther(nodes, k', typed, pos);
      }
    }
  }

  /** Once an entry differs from typed at pos and its successor shares no more than typed's first pos
      keys, or it already sorts after typed, no later entry starts with typed. */
  lemma NoneFurther(nodes: seq<Node>, k: nat, typed: KeySeq, pos: nat)
    requires SortedNodes(nodes) && k < |nodes| && |typed| == pos + 1 && pos < |nodes[k].keys|
    requires nodes[k].keys[..pos] == typed[..pos] && nodes[k].keys[pos] != typed[pos]
    requires typed[pos] < nodes[k].keys[pos] || k + 1 == |nodes| || Shared(nodes[k].keys, nodes[k + 1].keys) < pos
    ensures forall i :: k <= i < |nodes| ==> !(typed <= nodes[i].keys)
  {
    var t := nodes[k].keys;
    forall i | k < i < |nodes|
      ensures !(typed <= nodes[i].keys)
    {
      var u := nodes[i].keys;
      SharedIsLongest(t, u);
      if typed <= u {
        assert forall x :: 0 <= x < pos ==> t[x] == typed[x] == u[x];
        assert u[pos] == typed[pos];
        assert Shared(t, u) == pos by {
          SharedIs(t, u, pos);
        }
        if typed[pos] < t[pos] {
          assert false;
        } else if k + 1 < i {
          BeforeTransitive(t, nodes[k + 1].keys, u);
          assert false;
        } else {
          assert false;
        }
      }
    }
  }

  /** Reading off the table from the first entry that starts with keys. */
  lemma FoundInTable(nodes: seq<Node>, keys: KeySeq, k: nat)
    requires SortedNodes(nodes) && FirstWith(nodes, keys, k)
    ensures |nodes[k].keys| == |keys| ==> keys in Table(nodes) && Table(nodes)[keys] == nodes[k].action &&
                                          forall b :: b in Table(nodes) ==> !(keys < b)
    ensures |nodes[k].keys| > |keys| ==> nodes[k].keys in Table(nodes) && keys < nodes[k].keys
  {
    InTable(nodes, k);
    if |nodes[k].keys| == |keys| {
      assert nodes[k].keys == keys;
      forall b | b in Table(nodes)
        ensures !(keys < b)
      {
        var i := FromTable(nodes, b);
        Trichotomy(keys, nodes[i].keys);
      }
    }
  }

  lemma NoneInTable(nodes: seq<Node>, keys: KeySeq)
    requires forall i :: 0 <= i < |nodes| ==> !(keys <= nodes[i].keys)
    ensures forall b :: b in Table(nodes) ==> !(keys <= b)
  {
    forall b | b in Table(nodes)
      ensures !(keys <= b)
    {
      var i := FromTable(nodes, b);
    }
  }
}
