/** The stackless walk over a thread tree (mutt_thread_set_flag in flags.c): down to the first child, on to the next
    sibling, and up again by the parent pointers. */
module Threads {
  import opened Ledger
  import opened Flags

  class Thread {
    var parent: Thread?
    var child: Thread?
    var next: Thread?
    var message: Header?
  }

  /** A list of sibling trees: the first node, the trees below it and the siblings after it. */
  datatype Forest = Nil | Tree(node: Thread, kids: Forest, rest: Forest)

  ghost function Preorder(f: Forest): seq<Thread> {
    match f
    case Nil => []
    case Tree(n, kids, rest) => [n] + Preorder(kids) + Preorder(rest)
  }

  ghost function Nodes(f: Forest): set<Thread> {
    match f
    case Nil => {}
    case Tree(n, kids, rest) => {n} + Nodes(kids) + Nodes(rest)
  }

  ghost function Size(f: Forest): nat {
    match f
    case Nil => 0
    case Tree(_, kids, rest) => 1 + Size(kids) + Size(rest)
  }

  /** The pointers spell out the forest: first child, next sibling, and the parent of each. */
  ghost predicate Linked(f: Forest, first: Thread?, parent: Thread?)
    reads Nodes(f)
  {
    match f
    case Nil => first == null
    case Tree(n, kids, rest) =>
      first == n && n.parent == parent && Linked(kids, n.child, n) && Linked(rest, n.next, parent)
  }

  /** The tree of the forest that starts at t, with the siblings after it. */
  ghost function From(f: Forest, t: Thread): (g: Forest)
    requires t in Nodes(f)
    ensures g.Tree? && g.node == t && Size(g) <= Size(f) && Nodes(g) <= Nodes(f)
  {
    if f.node == t then f else if t in Nodes(f.kids) then From(f.kids, t) else From(f.rest, t)
  }

  /** The pointers determine the forest. */
  lemma {:induction false} Determined(f: Forest, g: Forest, first: Thread?, p: Thread?, q: Thread?)
    requires Linked(f, first, p) && Linked(g, first, q)
    ensures f == g
  {
    if f.Tree? {
      Determined(f.kids, g.kids, f.node.child, f.node, f.node);
      Determined(f.rest, g.rest, f.node.next, p, q);
    }
  }

  lemma {:induction false} FromLinked(f: Forest, first: Thread?, parent: Thread?, t: Thread)
    requires Linked(f, first, parent) && t in Nodes(f)
    ensures Linked(From(f, t), t, t.parent)
  {
    if f.node == t {
    } else if t in Nodes(f.kids) {
      FromLinked(f.kids, f.node.child, f.node, t);
    } else {
      FromLinked(f.rest, f.node.next, parent, t);
    }
  }

  /** No node lies below itself or among its own later siblings. */
  lemma Acyclic(f: Forest, first: Thread?, parent: Thread?)
    requires Linked(f, first, parent) && f.Tree?
    ensures f.node !in Nodes(f.kids) && f.node !in Nodes(f.rest)
  {
    var n := f.node;
    if n in Nodes(f.kids) {
      FromLinked(f.kids, n.child, n, n);
      Determined(f, From(f.kids, n), n, parent, n.parent);
      assert false;
    }
    if n in Nodes(f.rest) {
      FromLinked(f.rest, n.next, parent, n);
      Determined(f, From(f.rest, n), n, parent, n.parent);
      assert false;
    }
  }

  /** A node is at the top of the forest, or its parent is in the forest with a larger tree. */
  lemma {:induction false} Climb(f: Forest, first: Thread?, parent: Thread?, t: Thread)
    requires Linked(f, first, parent) && t in Nodes(f)
    ensures t.parent == parent ||
            (t.parent != null && t.parent in Nodes(f) && Size(From(f, t)) < Size(From(f, t.parent)))
  {
    var n := f.node;
    Acyclic(f, first, parent);
    if n == t {
    } else if t in Nodes(f.kids) {
      Climb(f.kids, n.child, n, t);
    } else {
      Climb(f.rest, n.next, parent, t);
      if t.parent != parent && t.parent in Nodes(f.kids) {
        FromLinked(f.kids, n.child, n, t.parent);
        FromLinked(f.rest, n.next, parent, t.parent);
        Determined(From(f.kids, t.parent), From(f.rest, t.parent), t.parent, t.parent.parent, t.parent.parent);
      }
    }
  }

  ghost predicate Outside(parent: Thread?, f: Forest) {
    parent == null || parent !in Nodes(f)
  }

  /** A node below the first tree is not in a later one. */
  lemma {:induction false} Apart(f: Forest, first: Thread?, parent: Thread?, t: Thread)
    requires Linked(f, first, parent) && f.Tree? && Outside(parent, f) && t in Nodes(f.kids)
    ensures t !in Nodes(f.rest)
    decreases Size(f.kids) - Size(From(f.kids, t))
  {
    var n := f.node;
    Acyclic(f, first, parent);
    if t in Nodes(f.rest) {
      Climb(f.kids, n.child, n, t);
      Climb(f.rest, n.next, parent, t);
      if t.parent != n {
        Apart(f, first, parent, t.parent);
      }
      assert false;
    }
  }

  lemma {:induction false} InPreorder(f: Forest, t: Thread)
    ensures t in Preorder(f) <==> t in Nodes(f)
  {
    if f.Tree? {
      InPreorder(f.kids, t);
      InPreorder(f.rest, t);
    }
  }

  lemma DistinctParts<T>(x: T, a: seq<T>, b: seq<T>)
    requires Distinct(a) && Distinct(b) && x !in a && x !in b
    requires forall t :: t in a ==> t !in b
    ensures Distinct([x] + a + b)
  {
    var s := [x] + a + b;
    forall j, k | 0 <= j < k < |s| ensures s[j] != s[k] {
      if k <= |a| {
        assert s[k] == a[k - 1] && s[k] in a;
        assert 0 < j ==> s[j] == a[j - 1];
      } else {
        assert s[k] == b[k - 1 - |a|] && s[k] in b;
        assert 0 < j <= |a| ==> s[j] == a[j - 1] && s[j] in a;
        assert |a| < j ==> s[j] == b[j - 1 - |a|];
      }
    }
  }

  /** The pre-order of a linked forest lists no node twice. */
  lemma {:induction false} EachOnce(f: Forest, first: Thread?, parent: Thread?)
    requires Linked(f, first, parent) && Outside(parent, f)
    ensures Distinct(Preorder(f))
  {
    if f.Tree? {
      var n := f.node;
      Acyclic(f, first, parent);
      EachOnce(f.kids, n.child, n);
      EachOnce(f.rest, n.next, parent);
      forall t | t in Preorder(f.kids) ensures t !in Preorder(f.rest) {
        InPreorder(f.kids, t);
        Apart(f, first, parent, t);
        InPreorder(f.rest, t);
      }
      InPreorder(f.kids, n);
      InPreorder(f.rest, n);
      DistinctParts(n, Preorder(f.kids), Preorder(f.rest));
    }
  }

  // ----- the messages of a list of threads -----

  /** Every message of the forest is a message of the folder, and no two nodes share one. */
  ghost predicate OwnMessages(hdrs: seq<Header>, ns: set<Thread>)
    reads ns
  {
    (forall t :: t in ns && t.message != null ==> t.message in hdrs) &&
    (forall t, u :: t in ns && u in ns && t != u && t.message != null ==> t.message != u.message)
  }

  ghost function Place(hdrs: seq<Header>, h: Header): (i: nat)
    requires h in hdrs
    ensures i < |hdrs| && hdrs[i] == h
  {
    var i: nat :| i < |hdrs| && hdrs[i] == h;
    i
  }

  /** Where in the folder the messages of the listed threads are; a thread may have none. */
  ghost function Places(hdrs: seq<Header>, ts: seq<Thread>): seq<nat>
    reads ts
  {
    if ts == [] then []
    else
      var t := ts[|ts| - 1];
      Places(hdrs, ts[..|ts| - 1]) +
      if t.message != null && t.message in hdrs then [Place(hdrs, t.message)] else []
  }

  lemma {:induction false} PlacesAre(hdrs: seq<Header>, ns: set<Thread>, ts: seq<Thread>)
    requires OwnMessages(hdrs, ns) && Distinct(ts) && forall t :: t in ts ==> t in ns
    ensures Within(Places(hdrs, ts), |hdrs|)
    ensures forall i: nat :: i in Places(hdrs, ts) ==>
              i < |hdrs| && exists t :: t in ts && t.message != null && hdrs[i] == t.message
    ensures Distinct(Places(hdrs, ts))
  {
    if ts != [] {
      var n := |ts| - 1;
      PlacesAre(hdrs, ns, ts[..n]);
      assert ts == ts[..n] + [ts[n]];
      assert ts[n] !in ts[..n];
    }
  }

  lemma PlacesNext(hdrs: seq<Header>, ns: set<Thread>, ts: seq<Thread>, t: Thread)
    requires OwnMessages(hdrs, ns) && Distinct(ts) && t in ns && t !in ts && forall u :: u in ts ==> u in ns
    ensures Distinct(Places(hdrs, ts)) && Within(Places(hdrs, ts), |hdrs|)
    ensures t.message == null ==> Places(hdrs, ts + [t]) == Places(hdrs, ts)
    ensures t.message != null ==>
              t.message in hdrs && Places(hdrs, ts + [t]) == Places(hdrs, ts) + [Place(hdrs, t.message)] &&
              Place(hdrs, t.message) !in Places(hdrs, ts)
  {
    PlacesAre(hdrs, ns, ts);
    assert (ts + [t])[..|ts|] == ts;
    assert (ts + [t])[|ts|] == t;
  }

  // ----- the walk -----

  /** The folder is what the change has made of the given one at the messages of the visited threads. */
  ghost predicate Visited(ctx: Context, box: Mailbox<Msg>, ts: seq<Thread>, act: Act)
    reads ctx, ctx.hdrs, ts
  {
    ctx.Reached(box, Places(ctx.hdrs, ts), act)
  }

  method Visit(ctx: Context, cur: Thread, flag: Flag, bf: int,
               ghost box: Mailbox<Msg>, ghost ns: set<Thread>, ghost ts: seq<Thread>)
    requires Distinct(ctx.hdrs) && OwnMessages(ctx.hdrs, ns)
    requires Distinct(ts) && cur in ns && cur !in ts && forall u :: u in ts ==> u in ns
    requires Visited(ctx, box, ts, Act(flag, bf))
    modifies ctx, ctx.hdrs
    ensures ctx.hdrs == old(ctx.hdrs) && Visited(ctx, box, ts + [cur], Act(flag, bf))
    ensures OwnMessages(ctx.hdrs, ns)
  {
    PlacesNext(ctx.hdrs, ns, ts, cur);
    if cur.message != null {
      VisitMessage(ctx, cur.message, flag, bf, box, Places(ctx.hdrs, ts), Place(ctx.hdrs, cur.message), ns, ts + [cur]);
    }
  }

  /** Changing a message of the folder leaves the threads, and with them the places of their messages, as they are. */
  method VisitMessage(ctx: Context, h: Header, flag: Flag, bf: int, ghost box: Mailbox<Msg>, ghost order: seq<nat>,
                      ghost i: nat, ghost ns: set<Thread>, ghost ts: seq<Thread>)
    requires Distinct(ctx.hdrs) && Distinct(order) && Within(order, |ctx.hdrs|) && i !in order
    requires i < |ctx.hdrs| && ctx.hdrs[i] == h && ctx.Reached(box, order, Act(flag, bf))
    modifies ctx, ctx.hdrs
    ensures ctx.hdrs == old(ctx.hdrs) && ctx.Reached(box, order + [i], Act(flag, bf))
    ensures OwnMessages(ctx.hdrs, ns) == old(OwnMessages(ctx.hdrs, ns))
    ensures Places(ctx.hdrs, ts) == old(Places(ctx.hdrs, ts))
  {
    ctx.SetNext(h, flag, bf, i, box, order);
  }

  /** What is left to do above the current node: the later siblings of each node between it and the start. */
  datatype Stack = Bottom | Push(node: Thread, rest: Forest, up: Stack)

  ghost function StackNodes(stk: Stack): set<Thread> {
    match stk
    case Bottom => {}
    case Push(n, rest, up) => {n} + Nodes(rest) + StackNodes(up)
  }

  ghost predicate Resumes(stk: Stack, parent: Thread?, start: Thread)
    reads StackNodes(stk)
  {
    match stk
    case Bottom => parent == start
    case Push(n, rest, up) =>
      n == parent && n != start && Linked(rest, n.next, n.parent) && Resumes(up, n.parent, start)
  }

  ghost function Remaining(stk: Stack): seq<Thread> {
    match stk
    case Bottom => []
    case Push(_, rest, up) => Preorder(rest) + Remaining(up)
  }

  /** The node after cur, whose own trees are done: its next sibling, or that of the nearest ancestor that has one;
      none if the climb reaches the start. */
  method Advance(start: Thread, last: Thread, ghost rest0: Forest, ghost stk0: Stack)
    returns (cur: Thread, done: bool, ghost f: Forest, ghost stk: Stack)
    requires last != start && Linked(rest0, last.next, last.parent) && Resumes(stk0, last.parent, start)
    ensures done ==> Preorder(rest0) + Remaining(stk0) == []
    ensures !done ==> f.Tree? && Linked(f, cur, cur.parent) && Resumes(stk, cur.parent, start)
    ensures !done ==> Preorder(f) + Remaining(stk) == Preorder(rest0) + Remaining(stk0)
  {
    cur, f, stk, done := last, rest0, stk0, false;
    while cur.next == null
      invariant cur != start && Linked(f, cur.next, cur.parent) && Resumes(stk, cur.parent, start)
      invariant Preorder(f) + Remaining(stk) == Preorder(rest0) + Remaining(stk0)
      decreases stk
    {
      cur := cur.parent;
      if cur == start {
        done := true;
        return;
      }
      f, stk := stk.rest, stk.up;
    }
    cur := cur.next;
  }

  lemma {:induction false} NodesExist(f: Forest)
    ensures forall t :: t in Nodes(f) ==> allocated(t)
  {
    if f.Tree? {
      NodesExist(f.kids);
      NodesExist(f.rest);
    }
  }

  lemma {:induction false} StackExists(stk: Stack)
    ensures forall t :: t in StackNodes(stk) ==> allocated(t)
  {
    if stk.Push? {
      NodesExist(stk.rest);
      StackExists(stk.up);
    }
  }

  /** The node at hand is the first of a forest whose later siblings and whose ancestors' are still to be walked. */
  ghost predicate Walking(cur: Thread, f: Forest, stk: Stack, start: Thread)
    reads cur, Nodes(f), StackNodes(stk)
  {
    f.Tree? && Linked(f, cur, cur.parent) && Resumes(stk, cur.parent, start)
  }

  /** One move of the walk: down, or else on. */
  method Move(start: Thread, last: Thread, ghost f0: Forest, ghost stk0: Stack)
    returns (cur: Thread, done: bool, ghost f: Forest, ghost stk: Stack)
    requires last != start && Walking(last, f0, stk0, start)
    ensures done ==> Preorder(f0.kids) + (Preorder(f0.rest) + Remaining(stk0)) == []
    ensures !done ==> Walking(cur, f, stk, start)
    ensures !done ==>
              Preorder(f) + Remaining(stk) == Preorder(f0.kids) + (Preorder(f0.rest) + Remaining(stk0))
  {
    if last.child != null {
      assert f0.node == last && Linked(f0.kids, last.child, last);
      cur, done, f, stk := last.child, false, f0.kids, Push(last, f0.rest, stk0);
    } else {
      cur, done, f, stk := Advance(start, last, f0.rest, stk0);
    }
  }

  lemma SplitAt<T>(visited: seq<T>, x: T, a: seq<T>, b: seq<T>, c: seq<T>, total: seq<T>)
    requires Distinct(total) && visited + ([x] + a + b + c) == total
    ensures x !in visited && x in total && Distinct(visited) && visited + [x] + (a + (b + c)) == total
    ensures forall u :: u in visited ==> u in total
  {
    var k := |visited|;
    assert total[k] == x;
    assert forall j :: 0 <= j < k ==> visited[j] == total[j];
  }

  /** The visited nodes and those still to come make up the pre-order of the tree below the start. */
  ghost predicate Halfway(visited: seq<Thread>, todo: seq<Thread>, start: Thread, kids: Forest) {
    visited != [] && visited[0] == start && visited + todo == [start] + Preorder(kids)
  }

  ghost predicate Prepared(ctx: Context, start: Thread, kids: Forest)
    reads ctx, start, Nodes(kids)
  {
    Distinct(ctx.hdrs) && OwnMessages(ctx.hdrs, {start} + Nodes(kids)) && Distinct([start] + Preorder(kids))
  }

  /** The node at hand has not been visited, and lies below the start. */
  lemma NextUnvisited(visited: seq<Thread>, f: Forest, stk: Stack, start: Thread, kids: Forest)
    requires f.Tree? && Halfway(visited, Preorder(f) + Remaining(stk), start, kids)
    requires Distinct([start] + Preorder(kids))
    ensures f.node !in visited && f.node != start && f.node in Nodes(kids) && Distinct(visited)
    ensures forall u :: u in visited ==> u in {start} + Nodes(kids)
    ensures Halfway(visited + [f.node], Preorder(f.kids) + (Preorder(f.rest) + Remaining(stk)), start, kids)
  {
    var total := [start] + Preorder(kids);
    SplitAt(visited, f.node, Preorder(f.kids), Preorder(f.rest), Remaining(stk), total);
    assert start in visited;
    forall u | u in total ensures u in {start} + Nodes(kids) {
      InPreorder(kids, u);
    }
  }

  method VisitNext(ctx: Context, start: Thread, cur: Thread, flag: Flag, bf: int, ghost box: Mailbox<Msg>,
                   ghost kids: Forest, ghost visited: seq<Thread>, ghost f: Forest, ghost stk: Stack)
    requires Prepared(ctx, start, kids) && Visited(ctx, box, visited, Act(flag, bf)) && Walking(cur, f, stk, start)
    requires cur in Nodes(kids) && cur !in visited && Distinct(visited)
    requires forall u :: u in visited ==> u in {start} + Nodes(kids)
    modifies ctx, ctx.hdrs
    ensures ctx.hdrs == old(ctx.hdrs) && Prepared(ctx, start, kids)
    ensures Visited(ctx, box, visited + [cur], Act(flag, bf)) && Walking(cur, f, stk, start)
  {
    NodesExist(kids);
    NodesExist(f);
    StackExists(stk);
    Visit(ctx, cur, flag, bf, box, {start} + Nodes(kids), visited);
  }

  /** Visit the node at hand, then move. */
  method Turn(ctx: Context, start: Thread, last: Thread, flag: Flag, bf: int, ghost box: Mailbox<Msg>,
              ghost kids: Forest, ghost visited: seq<Thread>, ghost f0: Forest, ghost stk0: Stack)
    returns (cur: Thread, done: bool, ghost f: Forest, ghost stk: Stack)
    requires Prepared(ctx, start, kids) && Visited(ctx, box, visited, Act(flag, bf))
    requires Walking(last, f0, stk0, start) && Halfway(visited, Preorder(f0) + Remaining(stk0), start, kids)
    modifies ctx, ctx.hdrs
    ensures ctx.hdrs == old(ctx.hdrs) && Prepared(ctx, start, kids)
    ensures Visited(ctx, box, visited + [last], Act(flag, bf))
    ensures !done ==> Walking(cur, f, stk, start)
    ensures Halfway(visited + [last], if done then [] else Preorder(f) + Remaining(stk), start, kids)
  {
    NextUnvisited(visited, f0, stk0, start, kids);
    VisitNext(ctx, start, last, flag, bf, box, kids, visited, f0, stk0);
    NodesExist(kids);
    cur, done, f, stk := Move(start, last, f0, stk0);
  }

  /** The walk below the start: every node below it, in pre-order. */
  method WalkBelow(ctx: Context, start: Thread, flag: Flag, bf: int, ghost box: Mailbox<Msg>, ghost kids: Forest)
    requires Linked(kids, start.child, start) && Prepared(ctx, start, kids)
    requires Visited(ctx, box, [start], Act(flag, bf))
    modifies ctx, ctx.hdrs
    ensures ctx.hdrs == old(ctx.hdrs) && Visited(ctx, box, [start] + Preorder(kids), Act(flag, bf))
  {
    if start.child == null {
      assert [start] + Preorder(kids) == [start];
      return;
    }
    ghost var visited, f, stk := [start], kids, Bottom;
    var cur: Thread, done := start.child, false;
    assert Preorder(kids) + Remaining(Bottom) == Preorder(kids);
    while !done
      invariant ctx.hdrs == old(ctx.hdrs) && Prepared(ctx, start, kids)
      invariant Visited(ctx, box, visited, Act(flag, bf))
      invariant !done ==> Walking(cur, f, stk, start)
      invariant Halfway(visited, if done then [] else Preorder(f) + Remaining(stk), start, kids)
      decreases !done, 1 + |Preorder(kids)| - |visited|
    {
      ghost var last := cur;
      cur, done, f, stk := Turn(ctx, start, cur, flag, bf, box, kids, visited, f, stk);
      visited := visited + [last];
    }
    assert visited + [] == visited;
  }

  // ----- choosing the start -----

  /** The top-level node whose tree holds t. */
  ghost function ThreadRoot(f: Forest, t: Thread): (root: Thread)
    requires t in Nodes(f)
    ensures root in Nodes(f)
  {
    if f.node == t || t in Nodes(f.kids) then f.node else ThreadRoot(f.rest, t)
  }

  lemma {:induction false} RootOfParent(f: Forest, first: Thread?, parent: Thread?, t: Thread)
    requires Linked(f, first, parent) && Outside(parent, f) && t in Nodes(f)
    ensures t.parent == parent ==> ThreadRoot(f, t) == t
    ensures t.parent != parent ==>
              t.parent != null && t.parent in Nodes(f) && ThreadRoot(f, t.parent) == ThreadRoot(f, t)
  {
    var n := f.node;
    Acyclic(f, first, parent);
    if n == t {
    } else if t in Nodes(f.kids) {
      Climb(f.kids, n.child, n, t);
    } else {
      RootOfParent(f.rest, n.next, parent, t);
      if t.parent != parent && t.parent in Nodes(f.kids) {
        Apart(f, first, parent, t.parent);
      }
    }
  }

  /** The nodes to flag: the tree of the thread itself, or that of its topmost ancestor. */
  ghost function Chosen(f: Forest, t: Thread, subthread: bool): seq<Thread>
    requires t in Nodes(f)
  {
    var start := if subthread then t else ThreadRoot(f, t);
    [start] + Preorder(From(f, start).kids)
  }

  lemma {:induction false} RootHolds(f: Forest, first: Thread?, parent: Thread?, t: Thread)
    requires Linked(f, first, parent) && Outside(parent, f) && t in Nodes(f)
    ensures t == ThreadRoot(f, t) || t in Nodes(From(f, ThreadRoot(f, t)).kids)
  {
    if f.node != t && t !in Nodes(f.kids) {
      var root := ThreadRoot(f.rest, t);
      RootHolds(f.rest, f.node.next, parent, t);
      Acyclic(f, first, parent);
      if root in Nodes(f.kids) {
        Apart(f, first, parent, root);
      }
    }
  }

  /** The chosen nodes are listed once each, and the thread asked for is among them. */
  lemma ChosenOnce(f: Forest, first: Thread?, t: Thread, subthread: bool)
    requires Linked(f, first, null) && t in Nodes(f)
    ensures Distinct(Chosen(f, t, subthread)) && t in Chosen(f, t, subthread)
  {
    var start := if subthread then t else ThreadRoot(f, t);
    StartOnce(f, first, start);
    if !subthread {
      RootHolds(f, first, null, t);
      InPreorder(From(f, start).kids, t);
    }
  }

  // ----- the chosen nodes, by their ancestors -----

  /** t is u, or an ancestor of u. */
  ghost predicate Above(f: Forest, first: Thread?, t: Thread, u: Thread)
    requires Linked(f, first, null) && u in Nodes(f)
    reads Nodes(f)
    decreases Size(f) - Size(From(f, u))
  {
    Climb(f, first, null, u);
    u == t || (u.parent != null && Above(f, first, t, u.parent))
  }

  /** A node is among the children of its parent. */
  lemma {:induction false} ChildBelow(f: Forest, first: Thread?, parent: Thread?, u: Thread)
    requires Linked(f, first, parent) && Outside(parent, f) && u in Nodes(f)
    requires u.parent != null && u.parent in Nodes(f)
    ensures u in Nodes(From(f, u.parent).kids)
  {
    Acyclic(f, first, parent);
    if u in Nodes(f.kids) {
      Climb(f.kids, f.node.child, f.node, u);
      if u.parent != f.node {
        ChildBelow(f.kids, f.node.child, f.node, u);
      }
    } else if u in Nodes(f.rest) {
      Climb(f.rest, f.node.next, parent, u);
      if u.parent in Nodes(f.kids) {
        Apart(f, first, parent, u.parent);
      }
      ChildBelow(f.rest, f.node.next, parent, u);
    }
  }

  /** The nodes below a node below t are below t. */
  lemma BelowBelow(f: Forest, first: Thread?, t: Thread, p: Thread)
    requires Linked(f, first, null) && t in Nodes(f) && p in Nodes(From(f, t).kids)
    ensures p in Nodes(f) && Nodes(From(f, p).kids) <= Nodes(From(f, t).kids)
  {
    var kids := From(f, t).kids;
    FromLinked(f, first, null, t);
    FromLinked(f, first, null, p);
    FromLinked(kids, t.child, t, p);
    Determined(From(f, p), From(kids, p), p, p.parent, p.parent);
  }

  lemma {:induction false} AboveIff(f: Forest, first: Thread?, t: Thread, u: Thread)
    requires Linked(f, first, null) && t in Nodes(f) && u in Nodes(f)
    ensures Above(f, first, t, u) <==> u == t || u in Nodes(From(f, t).kids)
    decreases Size(f) - Size(From(f, u))
  {
    var kids := From(f, t).kids;
    FromLinked(f, first, null, t);
    Climb(f, first, null, u);
    if u.parent != null {
      AboveIff(f, first, t, u.parent);
      ChildBelow(f, first, null, u);
      if u.parent in Nodes(kids) {
        BelowBelow(f, first, t, u.parent);
      }
    }
    if u in Nodes(kids) {
      Climb(kids, t.child, t, u);
    }
  }

  /** The subthread is the thread asked for and all it is an ancestor of; the whole thread is all that has the same
      topmost ancestor. */
  lemma ChosenIff(f: Forest, first: Thread?, t: Thread, subthread: bool) returns (top: Thread)
    requires Linked(f, first, null) && t in Nodes(f)
    ensures top in Nodes(f) && top.parent == null && Above(f, first, top, t)
    ensures forall u :: u in Chosen(f, t, subthread) <==>
              u in Nodes(f) && Above(f, first, if subthread then t else top, u)
  {
    top := ThreadRoot(f, t);
    RootIsTop(f, first, null, t);
    RootHolds(f, first, null, t);
    AboveIff(f, first, top, t);
    var start := if subthread then t else top;
    forall u
      ensures u in Chosen(f, t, subthread) <==> u in Nodes(f) && Above(f, first, start, u)
    {
      InPreorder(From(f, start).kids, u);
      if u in Nodes(f) {
        AboveIff(f, first, start, u);
      }
    }
  }

  lemma {:induction false} RootIsTop(f: Forest, first: Thread?, parent: Thread?, t: Thread)
    requires Linked(f, first, parent) && t in Nodes(f)
    ensures ThreadRoot(f, t).parent == parent
  {
    if t != f.node && t !in Nodes(f.kids) {
      RootIsTop(f.rest, f.node.next, parent, t);
    }
  }

  method FindStart(t: Thread, subthread: bool, ghost f: Forest, ghost first: Thread?) returns (cur: Thread)
    requires Linked(f, first, null) && t in Nodes(f)
    ensures cur in Nodes(f) && cur == if subthread then t else ThreadRoot(f, t)
  {
    cur := t;
    NodesExist(f);
    if !subthread {
      while cur.parent != null
        invariant cur in Nodes(f) && ThreadRoot(f, cur) == ThreadRoot(f, t)
        decreases Size(f) - Size(From(f, cur))
      {
        Climb(f, first, null, cur);
        RootOfParent(f, first, null, cur);
        cur := cur.parent;
      }
      RootOfParent(f, first, null, cur);
    }
  }

  lemma StartOnce(f: Forest, first: Thread?, start: Thread)
    requires Linked(f, first, null) && start in Nodes(f)
    ensures var kids := From(f, start).kids;
            Linked(kids, start.child, start) && Distinct([start] + Preorder(kids))
  {
    var g := From(f, start);
    FromLinked(f, first, null, start);
    Acyclic(g, start, start.parent);
    EachOnce(g.kids, start.child, start);
    InPreorder(g.kids, start);
    DistinctParts(start, Preorder(g.kids), []);
    assert [start] + Preorder(g.kids) + [] == [start] + Preorder(g.kids);
  }

  lemma StartPrepared(ctx: Context, f: Forest, first: Thread?, start: Thread)
    requires Linked(f, first, null) && start in Nodes(f)
    requires Distinct(ctx.hdrs) && OwnMessages(ctx.hdrs, Nodes(f))
    ensures Linked(From(f, start).kids, start.child, start) && Prepared(ctx, start, From(f, start).kids)
  {
    StartOnce(f, first, start);
  }

  /** The start, and then all below it. */
  method FlagTree(ctx: Context, start: Thread, flag: Flag, bf: int, ghost kids: Forest)
    requires Linked(kids, start.child, start) && Prepared(ctx, start, kids)
    modifies ctx, ctx.hdrs
    ensures ctx.hdrs == old(ctx.hdrs) && Visited(ctx, old(ctx.Box()), [start] + Preorder(kids), Act(flag, bf))
  {
    ghost var box := ctx.Box();
    NodesExist(kids);
    Visit(ctx, start, flag, bf, box, {start} + Nodes(kids), []);
    assert [] + [start] == [start];
    WalkBelow(ctx, start, flag, bf, box, kids);
  }

  /** mutt_thread_set_flag: unless threading is off, every message of the chosen tree is changed, each node being
      visited once, in pre-order. */
  method ThreadSetFlag(ctx: Context, thread: Thread, flag: Flag, bf: int, subthread: bool, threading: bool,
                       ghost f: Forest, ghost first: Thread?)
    returns (r: int)
    requires Linked(f, first, null) && thread in Nodes(f)
    requires Distinct(ctx.hdrs) && OwnMessages(ctx.hdrs, Nodes(f))
    modifies ctx, ctx.hdrs
    ensures r == (if threading then 0 else -1) && ctx.hdrs == old(ctx.hdrs)
    ensures Visited(ctx, old(ctx.Box()), if threading then Chosen(f, thread, subthread) else [], Act(flag, bf))
  {
    if !threading {
      return -1;
    }
    NodesExist(f);
    var start := FindStart(thread, subthread, f, first);
    StartPrepared(ctx, f, first, start);
    FlagTree(ctx, start, flag, bf, From(f, start).kids);
    return 0;
  }
}
