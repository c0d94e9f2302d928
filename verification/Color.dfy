/** Allocation of colour pairs (color.c): a list of pairs in use with their counts, and the least index that none of
    them has for a new one. */
module Color {
  import opened Options

  datatype Pair = Pair(fg: int, bg: int)

  datatype Entry = Entry(pair: Pair, index: int, count: int)

  /** ColorList, the newest entry first, UserColors, and the colours init_pair has given to each index. */
  datatype State = State(colors: seq<Entry>, used: int, screen: map<int, Pair>)

  const COLOR_DEFAULT := -2

  /** The default colours are passed to curses as -1. */
  function ForCurses(pair: Pair): Pair {
    Pair(if pair.fg == COLOR_DEFAULT then -1 else pair.fg, if pair.bg == COLOR_DEFAULT then -1 else pair.bg)
  }

  function Where(es: seq<Entry>, pair: Pair): (i: nat)
    ensures i <= |es| && (i < |es| ==> es[i].pair == pair)
    ensures forall j :: 0 <= j < i ==> es[j].pair != pair
  {
    if es == [] || es[0].pair == pair then 0 else Where(es[1..], pair) + 1
  }

  predicate Live(es: seq<Entry>, pair: Pair) {
    Where(es, pair) < |es|
  }

  /** How often a pair is allocated. */
  function Count(es: seq<Entry>, pair: Pair): int {
    if Live(es, pair) then es[Where(es, pair)].count else 0
  }

  function Indices(es: seq<Entry>): (s: set<int>)
    ensures forall i :: i in s <==> exists j :: 0 <= j < |es| && es[j].index == i
    ensures |s| <= |es|
  {
    if es == [] then {}
    else
      assert es == [es[0]] + es[1..];
      {es[0].index} + Indices(es[1..])
  }

  ghost predicate LeastUnused(es: seq<Entry>, i: int) {
    1 <= i && i !in Indices(es) && forall k :: 1 <= k < i ==> k in Indices(es)
  }

  ghost predicate Distinct(es: seq<Entry>) {
    forall j, k :: 0 <= j < k < |es| ==> es[j].pair != es[k].pair && es[j].index != es[k].index
  }

  /** Distinct pairs with distinct indices from 1 to the number of pairs there are, each counted at least once. */
  ghost predicate Sound(es: seq<Entry>, pairs: int) {
    Distinct(es) &&
    (forall j :: 0 <= j < |es| ==> 1 <= es[j].index <= pairs && es[j].count >= 1)
  }

  lemma {:induction false} Segment(n: nat, s: set<int>)
    requires forall k :: 1 <= k <= n ==> k in s
    ensures n <= |s|
  {
    if n > 0 {
      Segment(n - 1, s - {n});
    }
  }

  /** The least unused index is at most one more than the number of entries. */
  lemma Pigeonhole(es: seq<Entry>, i: int)
    requires 1 <= i && forall k :: 1 <= k < i ==> k in Indices(es)
    ensures i <= |es| + 1
  {
    Segment(i - 1, Indices(es));
  }

  // ----- the allocator -----

  class Allocator {
    const pairs: int
    var colors: seq<Entry>
    var used: int
    var screen: map<int, Pair>

    ghost function Value(): State
      reads this
    {
      State(colors, used, screen)
    }

    constructor (pairs: int)
      ensures this.pairs == pairs && Value() == State([], 0, map[])
    {
      this.pairs := pairs;
      colors, used, screen := [], 0, map[];
    }

    method Search(pair: Pair) returns (i: nat)
      ensures i == Where(colors, pair)
    {
      i := 0;
      while i < |colors| && colors[i].pair != pair
        invariant i <= Where(colors, pair)
      {
        i := i + 1;
      }
    }

    /** The smallest available index. */
    method FreeIndex() returns (i: int)
      ensures LeastUnused(colors, i) && i <= |colors| + 1
    {
      i := 1;
      while true
        invariant 1 <= i && forall k :: 1 <= k < i ==> k in Indices(colors)
        decreases |colors| + 1 - i
      {
        Pigeonhole(colors, i);
        var p := 0;
        while p < |colors| && colors[p].index != i
          invariant 0 <= p <= |colors| && forall j :: 0 <= j < p ==> colors[j].index != i
        {
          p := p + 1;
        }
        if p == |colors| {
          return;
        }
        assert colors[p].index in Indices(colors);
        i := i + 1;
        Pigeonhole(colors, i);
      }
    }

    /** mutt_alloc_color: the index of the pair, None for the normal colour when all are used up. */
    method Alloc(pair: Pair) returns (r: Option<int>)
      modifies this
      ensures AllocStep(old(Value()), pair, pairs, Value(), r)
    {
      var i := Search(pair);
      if i < |colors| {
        var p := colors[i];
        colors := colors[i := p.(count := p.count + 1)];
        return Some(p.index);
      }
      used := used + 1;
      if used > pairs {
        return None;
      }
      var index := FreeIndex();
      colors := [Entry(pair, index, 1)] + colors;
      screen := screen[index := ForCurses(pair)];
      return Some(index);
    }

    /** mutt_free_color. */
    method Free(pair: Pair)
      modifies this
      ensures Value() == Freed(old(Value()), pair)
    {
      var i := Search(pair);
      if i < |colors| {
        var p := colors[i];
        if p.count - 1 > 0 {
          colors := colors[i := p.(count := p.count - 1)];
        } else {
          used := used - 1;
          colors := colors[..i] + colors[i + 1..];
        }
      }
    }
  }

  /** What an allocation may do: count a live pair once more; fail, but be counted as used, when all are used up;
      or else add an entry with the least unused index, which is given its colours. */
  ghost predicate AllocStep(s: State, pair: Pair, pairs: int, s': State, r: Option<int>) {
    var i := Where(s.colors, pair);
    if i < |s.colors| then
      r == Some(s.colors[i].index) &&
      s' == s.(colors := s.colors[i := s.colors[i].(count := s.colors[i].count + 1)])
    else if s.used + 1 > pairs then r == None && s' == s.(used := s.used + 1)
    else
      r.Some? && LeastUnused(s.colors, r.value) &&
      s' == State([Entry(pair, r.value, 1)] + s.colors, s.used + 1, s.screen[r.value := ForCurses(pair)])
  }

  function Freed(s: State, pair: Pair): State {
    var i := Where(s.colors, pair);
    if i == |s.colors| then s
    else if s.colors[i].count > 1 then
      s.(colors := s.colors[i := s.colors[i].(count := s.colors[i].count - 1)])
    else s.(colors := s.colors[..i] + s.colors[i + 1..], used := s.used - 1)
  }

  // ----- runs -----

  datatype Event = Allocated(pair: Pair, index: Option<int>) | Released(pair: Pair)

  ghost predicate Step(s: State, e: Event, pairs: int, s': State) {
    match e
    case Allocated(pair, r) => AllocStep(s, pair, pairs, s', r)
    case Released(pair) => s' == Freed(s, pair)
  }

  /** The states of a run that starts with no colours. */
  ghost predicate IsRun(ss: seq<State>, es: seq<Event>, pairs: int) {
    |ss| == |es| + 1 && ss[0] == State([], 0, map[]) &&
    forall i :: 0 <= i < |es| ==> Step(ss[i], es[i], pairs, ss[i + 1])
  }

  /** Successful allocations of a pair less its releases; a release of what is not allocated is not one. */
  function Tally(es: seq<Event>, pair: Pair): nat {
    if es == [] then 0
    else
      var n, e := Tally(es[..|es| - 1], pair), es[|es| - 1];
      if e.pair != pair then n
      else if e.Allocated? then (if e.index.Some? then n + 1 else n)
      else if n == 0 then 0 else n - 1
  }

  function Failures(es: seq<Event>): nat {
    if es == [] then 0
    else Failures(es[..|es| - 1]) + if es[|es| - 1].Allocated? && es[|es| - 1].index == None then 1 else 0
  }

  /** Every live index shows the colours of its pair. */
  ghost predicate Shown(s: State) {
    forall j :: 0 <= j < |s.colors| ==>
      s.colors[j].index in s.screen && s.screen[s.colors[j].index] == ForCurses(s.colors[j].pair)
  }

  ghost predicate Balanced(s: State, es: seq<Event>, pairs: int) {
    Shown(s) && Sound(s.colors, pairs) && s.used == |s.colors| + Failures(es) && forall pair ::
        Count(s.colors, pair) == Tally(es, pair)
  }

  lemma WhereIs(es: seq<Entry>, pair: Pair, i: nat)
    requires i <= |es| && (i < |es| ==> es[i].pair == pair)
    requires forall j :: 0 <= j < i ==> es[j].pair != pair
    ensures Where(es, pair) == i
  {
  }

  lemma CountUpdated(es: seq<Entry>, i: nat, c: int, pair: Pair)
    requires i < |es| && i == Where(es, es[i].pair)
    ensures Count(es[i := es[i].(count := c)], pair) == if pair == es[i].pair then c else Count(es, pair)
  {
    WhereIs(es[i := es[i].(count := c)], pair, Where(es, pair));
  }

  lemma CountPrepended(es: seq<Entry>, e: Entry, pair: Pair)
    ensures Count([e] + es, pair) == if pair == e.pair then e.count else Count(es, pair)
  {
    WhereIs([e] + es, pair, if pair == e.pair then 0 else Where(es, pair) + 1);
  }

  lemma CountRemoved(es: seq<Entry>, i: nat, pair: Pair, pairs: int)
    requires i < |es| && Sound(es, pairs)
    ensures Count(es[..i] + es[i + 1..], pair) == if pair == es[i].pair then 0 else Count(es, pair)
  {
    var w := Where(es, pair);
    var after := es[..i] + es[i + 1..];
    WhereIs(es, es[i].pair, i);
    WhereIs(after, pair, if pair == es[i].pair || w == |es| then |after| else if w < i then w else w - 1);
  }

  lemma PrependSound(es: seq<Entry>, e: Entry, pairs: int)
    requires Sound(es, pairs) && |es| < pairs && !Live(es, e.pair) && LeastUnused(es, e.index) && e.count >= 1
    ensures Sound([e] + es, pairs)
  {
    Pigeonhole(es, e.index);
    forall j | 0 <= j < |es| ensures es[j].index != e.index && es[j].pair != e.pair {
      assert es[j].index in Indices(es);
    }
    PrependDistinct(es, e);
  }

  lemma PrependDistinct(es: seq<Entry>, e: Entry)
    requires Distinct(es) && forall j :: 0 <= j < |es| ==> es[j].index != e.index && es[j].pair != e.pair
    ensures Distinct([e] + es)
  {
    var after := [e] + es;
    forall j, k | 0 <= j < k < |after| ensures after[j].pair != after[k].pair && after[j].index != after[k].index {
      assert after[k] == es[k - 1];
      assert j > 0 ==> after[j] == es[j - 1];
    }
  }

  lemma UpdatedSound(es: seq<Entry>, i: nat, c: int, pairs: int)
    requires Sound(es, pairs) && i < |es| && c >= 1
    ensures Sound(es[i := es[i].(count := c)], pairs)
  {
    var after := es[i := es[i].(count := c)];
    assert forall j :: 0 <= j < |after| ==> after[j].pair == es[j].pair && after[j].index == es[j].index;
  }

  lemma RemovedSound(es: seq<Entry>, i: nat, pairs: int)
    requires Sound(es, pairs) && i < |es|
    ensures Sound(es[..i] + es[i + 1..], pairs)
  {
    var after := es[..i] + es[i + 1..];
    assert forall j :: 0 <= j < |after| ==> after[j] == es[if j < i then j else j + 1];
  }

  /** The count of the pair is now c, and no other has moved. */
  ghost predicate CountSet(before: seq<Entry>, after: seq<Entry>, pair: Pair, c: int) {
    forall p :: Count(after, p) == if p == pair then c else Count(before, p)
  }

  lemma CountLive(es: seq<Entry>, pair: Pair, pairs: int)
    requires Sound(es, pairs)
    ensures if Live(es, pair) then Count(es, pair) == es[Where(es, pair)].count >= 1 else Count(es, pair) == 0
  {
  }

  lemma UpdateSets(es: seq<Entry>, i: nat, c: int)
    requires i < |es| && i == Where(es, es[i].pair)
    ensures CountSet(es, es[i := es[i].(count := c)], es[i].pair, c)
  {
    forall p
      ensures Count(es[i := es[i].(count := c)], p) == if p == es[i].pair then c else Count(es, p)
    {
      CountUpdated(es, i, c, p);
    }
  }

  lemma PrependSets(es: seq<Entry>, e: Entry)
    ensures CountSet(es, [e] + es, e.pair, e.count)
  {
    forall p
      ensures Count([e] + es, p) == if p == e.pair then e.count else Count(es, p)
    {
      CountPrepended(es, e, p);
    }
  }

  lemma RemoveSets(es: seq<Entry>, i: nat, pairs: int)
    requires i < |es| && Sound(es, pairs)
    ensures CountSet(es, es[..i] + es[i + 1..], es[i].pair, 0)
  {
    forall p
      ensures Count(es[..i] + es[i + 1..], p) == if p == es[i].pair then 0 else Count(es, p)
    {
      CountRemoved(es, i, p, pairs);
    }
  }

  lemma AllocSound(s: State, pair: Pair, pairs: int, s': State, r: Option<int>)
    requires Sound(s.colors, pairs) && |s.colors| <= s.used && AllocStep(s, pair, pairs, s', r)
    ensures Sound(s'.colors, pairs)
    ensures CountSet(s.colors, s'.colors, pair, Count(s.colors, pair) + if r.Some? then 1 else 0)
  {
    var es, i := s.colors, Where(s.colors, pair);
    CountLive(es, pair, pairs);
    if i < |es| {
      UpdatedSound(es, i, es[i].count + 1, pairs);
      UpdateSets(es, i, es[i].count + 1);
    } else if r.Some? {
      PrependSound(es, Entry(pair, r.value, 1), pairs);
      PrependSets(es, Entry(pair, r.value, 1));
    }
  }

  lemma FreedSound(s: State, pair: Pair, pairs: int)
    requires Sound(s.colors, pairs)
    ensures Sound(Freed(s, pair).colors, pairs)
    ensures var c := Count(s.colors, pair);
            CountSet(s.colors, Freed(s, pair).colors, pair, if c > 0 then c - 1 else c)
  {
    var es, i := s.colors, Where(s.colors, pair);
    CountLive(es, pair, pairs);
    if i < |es| {
      if es[i].count > 1 {
        UpdatedSound(es, i, es[i].count - 1, pairs);
        UpdateSets(es, i, es[i].count - 1);
      } else {
        RemovedSound(es, i, pairs);
        RemoveSets(es, i, pairs);
      }
    }
  }

  /** The colours of an index are set only when no live pair has it. */
  lemma AllocShown(s: State, pair: Pair, pairs: int, s': State, r: Option<int>)
    requires Shown(s) && AllocStep(s, pair, pairs, s', r)
    ensures Shown(s')
  {
    var es, i := s.colors, Where(s.colors, pair);
    if i < |es| {
      assert forall j :: 0 <= j < |es| ==> s'.colors[j].pair == es[j].pair && s'.colors[j].index == es[j].index;
    } else if r.Some? {
      PrependShown(s, Entry(pair, r.value, 1));
    }
  }

  lemma PrependShown(s: State, e: Entry)
    requires Shown(s) && e.index !in Indices(s.colors)
    ensures Shown(State([e] + s.colors, s.used + 1, s.screen[e.index := ForCurses(e.pair)]))
  {
    var after := [e] + s.colors;
    forall j | 0 < j < |after|
      ensures after[j] == s.colors[j - 1] && after[j].index != e.index
    {
      assert s.colors[j - 1].index in Indices(s.colors);
    }
  }

  lemma FreedShown(s: State, pair: Pair)
    requires Shown(s)
    ensures Shown(Freed(s, pair))
  {
    var es, i, after := s.colors, Where(s.colors, pair), Freed(s, pair).colors;
    forall j | 0 <= j < |after|
      ensures exists k :: 0 <= k < |es| && after[j].pair == es[k].pair && after[j].index == es[k].index
    {
      var k := if |after| == |es| || j < i then j else j + 1;
      assert after[j].pair == es[k].pair && after[j].index == es[k].index;
    }
  }

  lemma Tallied(es: seq<Event>, e: Event, before: seq<Entry>, after: seq<Entry>, c: int)
    requires forall pair :: Count(before, pair) == Tally(es, pair)
    requires CountSet(before, after, e.pair, c) && c == Tally(es + [e], e.pair)
    ensures forall pair :: Count(after, pair) == Tally(es + [e], pair)
  {
    assert (es + [e])[..|es|] == es;
  }

  lemma StepBalanced(s: State, es: seq<Event>, e: Event, pairs: int, s': State)
    requires Balanced(s, es, pairs) && Step(s, e, pairs, s')
    ensures Balanced(s', es + [e], pairs)
  {
    assert (es + [e])[..|es|] == es && (es + [e])[|es|] == e;
    var c := Tally(es + [e], e.pair);
    assert Count(s.colors, e.pair) == Tally(es, e.pair);
    match e {
      case Allocated(pair, r) =>
        AllocSound(s, pair, pairs, s', r);
        AllocShown(s, pair, pairs, s', r);
        Tallied(es, e, s.colors, s'.colors, c);
      case Released(pair) =>
        FreedSound(s, pair, pairs);
        FreedShown(s, pair);
        CountLive(s.colors, pair, pairs);
        Tallied(es, e, s.colors, s'.colors, c);
    }
  }

  /** After any run the live pairs and their indices are distinct and within bounds, every live index shows the
      colours of its pair, each pair is counted as often as it was allocated and not released, and UserColors is the
      number of live pairs plus the failed allocations. */
  lemma {:induction false} RunBalanced(ss: seq<State>, es: seq<Event>, pairs: int)
    requires IsRun(ss, es, pairs)
    ensures Balanced(ss[|es|], es, pairs)
  {
    if es != [] {
      var n := |es| - 1;
      RunBalanced(ss[..n + 1], es[..n], pairs);
      assert Step(ss[n], es[n], pairs, ss[n + 1]);
      StepBalanced(ss[n], es[..n], es[n], pairs, ss[n + 1]);
      assert es == es[..n] + [es[n]];
    }
  }

  /** After any run the index of every live pair shows its foreground and its background, the default colour being
      -1 for curses. */
  lemma LiveShows(ss: seq<State>, es: seq<Event>, pairs: int, j: nat)
    requires IsRun(ss, es, pairs) && j < |ss[|es|].colors|
    ensures var e, screen := ss[|es|].colors[j], ss[|es|].screen;
            e.index in screen && screen[e.index].fg == (if e.pair.fg == -2 then -1 else e.pair.fg) &&
            screen[e.index].bg == if e.pair.bg == -2 then -1 else e.pair.bg
  {
    RunBalanced(ss, es, pairs);
  }

  /** A pair is in the list exactly when it has been allocated more often than released. */
  lemma LiveIff(ss: seq<State>, es: seq<Event>, pairs: int, pair: Pair)
    requires IsRun(ss, es, pairs)
    ensures Live(ss[|es|].colors, pair) <==> Tally(es, pair) > 0
  {
    RunBalanced(ss, es, pairs);
    assert Count(ss[|es|].colors, pair) == Tally(es, pair);
  }

  /** Every failed allocation costs a colour for good: the next one fails exactly when the pair is not live and the
      live pairs and the earlier failures together reach the number of pairs. */
  lemma FailsIff(ss: seq<State>, es: seq<Event>, pairs: int, pair: Pair, s': State, r: Option<int>)
    requires IsRun(ss, es, pairs) && AllocStep(ss[|es|], pair, pairs, s', r)
    ensures r == None <==> Tally(es, pair) == 0 && |ss[|es|].colors| + Failures(es) >= pairs
  {
    RunBalanced(ss, es, pairs);
    LiveIff(ss, es, pairs, pair);
  }
}
