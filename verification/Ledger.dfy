/** Six counters kept incrementally beside a list of messages. */
module Ledger {
  // The bookkeeping of flags.c, for any kind of message.

  datatype Counters = Counters(deleted: int, appended: int, tagged: int, flagged: int, unread: int, new_: int)

  function Plus(a: Counters, b: Counters): Counters {
    Counters(a.deleted + b.deleted, a.appended + b.appended, a.tagged + b.tagged, a.flagged + b.flagged,
             a.unread + b.unread, a.new_ + b.new_)
  }

  function Minus(a: Counters, b: Counters): Counters {
    Counters(a.deleted - b.deleted, a.appended - b.appended, a.tagged - b.tagged, a.flagged - b.flagged,
             a.unread - b.unread, a.new_ - b.new_)
  }

  function Zero(): Counters {
    Counters(0, 0, 0, 0, 0, 0)
  }

  function One(b: bool): int {
    if b then 1 else 0
  }

  /** The same counters with n too many flagged messages. */
  function Surplus(c: Counters, n: int): Counters {
    c.(flagged := c.flagged + n)
  }

  /** What a message contributes to the counters, what a change makes of it, and which changes are miscounted. */
  datatype Rules<!M, !C> = Rules(share: M -> Counters, change: (M, C) -> M, slip: (M, C) -> bool)

  datatype Mailbox<M> = Mailbox(msgs: seq<M>, counts: Counters)

  datatype Request<C> = Request(i: nat, what: C)

  function Census<M>(share: M -> Counters, ms: seq<M>): Counters {
    if ms == [] then Zero() else Plus(Census(share, ms[..|ms| - 1]), share(ms[|ms| - 1]))
  }

  /** How many elements have the property. */
  ghost function Many<T>(s: seq<T>, p: T -> bool): nat {
    |set i | 0 <= i < |s| && p(s[i])|
  }

  lemma ManyMore<T>(s: seq<T>, p: T -> bool)
    ensures s == [] ==> Many(s, p) == 0
    ensures s != [] ==> Many(s, p) == Many(s[..|s| - 1], p) + One(p(s[|s| - 1]))
  {
    var all := set i | 0 <= i < |s| && p(s[i]);
    if s == [] {
      assert all == {};
    } else {
      var n := |s| - 1;
      var front := set i | 0 <= i < n && p(s[..n][i]);
      assert all == front + if p(s[n]) then {n} else {};
    }
  }

  lemma PlusSwap(a: Counters, b: Counters, c: Counters)
    ensures Plus(Plus(a, b), c) == Plus(Plus(a, c), b)
  {
  }

  lemma PlusMinus(a: Counters, b: Counters, c: Counters)
    ensures Plus(a, c) == Plus(Plus(a, b), Minus(c, b))
  {
  }

  /** Replacing one message moves the census by the difference of the two contributions. */
  lemma {:induction false} CensusUpdate<M>(share: M -> Counters, ms: seq<M>, i: nat, m: M)
    requires i < |ms|
    ensures Census(share, ms[i := m]) == Plus(Census(share, ms), Minus(share(m), share(ms[i])))
  {
    var n := |ms| - 1;
    var rest := ms[..n];
    assert ms[i := m][n] == if i == n then m else ms[n];
    if i == n {
      assert ms[i := m][..n] == rest;
      PlusMinus(Census(share, rest), share(ms[n]), share(m));
    } else {
      assert ms[i := m][..n] == rest[i := m];
      CensusUpdate(share, rest, i, m);
      PlusSwap(Census(share, rest), Minus(share(m), share(ms[i])), share(ms[n]));
    }
  }

  /** One change of message i: the counters move by the difference of its contributions, flagged by one more if
      the change is miscounted. */
  function Step<M, C>(rules: Rules<M, C>, box: Mailbox<M>, i: nat, what: C): Mailbox<M>
    requires i < |box.msgs|
  {
    var m := box.msgs[i];
    var m' := rules.change(m, what);
    Mailbox(box.msgs[i := m'],
            Surplus(Plus(box.counts, Minus(rules.share(m'), rules.share(m))), One(rules.slip(m, what))))
  }

  ghost predicate Addressed<C>(n: nat, rs: seq<Request<C>>) {
    forall r :: r in rs ==> r.i < n
  }

  function Run<M, C>(rules: Rules<M, C>, box: Mailbox<M>, rs: seq<Request<C>>): (after: Mailbox<M>)
    requires Addressed(|box.msgs|, rs)
    ensures |after.msgs| == |box.msgs|
    decreases |rs|
  {
    if rs == [] then box
    else
      var n := |rs| - 1;
      Step(rules, Run(rules, box, rs[..n]), rs[n].i, rs[n].what)
  }

  /** How many changes of the run are miscounted. */
  function Slips<M, C>(rules: Rules<M, C>, box: Mailbox<M>, rs: seq<Request<C>>): nat
    requires Addressed(|box.msgs|, rs)
    decreases |rs|
  {
    if rs == [] then 0
    else
      var n := |rs| - 1;
      Slips(rules, box, rs[..n]) + One(rules.slip(Run(rules, box, rs[..n]).msgs[rs[n].i], rs[n].what))
  }

  predicate Counted<M>(share: M -> Counters, box: Mailbox<M>) {
    box.counts == Census(share, box.msgs)
  }

  lemma SurplusAfter(c: Counters, n: int, delta: Counters, e: int)
    ensures Surplus(Plus(Surplus(c, n), delta), e) == Surplus(Plus(c, delta), n + e)
    ensures Surplus(c, n) == c <==> n == 0
  {
  }

  lemma StepDrift<M, C>(rules: Rules<M, C>, box: Mailbox<M>, i: nat, what: C, n: int)
    requires i < |box.msgs| && box.counts == Surplus(Census(rules.share, box.msgs), n)
    ensures var after := Step(rules, box, i, what);
            after.counts == Surplus(Census(rules.share, after.msgs), n + One(rules.slip(box.msgs[i], what)))
  {
    var m := box.msgs[i];
    var m' := rules.change(m, what);
    CensusUpdate(rules.share, box.msgs, i, m');
    SurplusAfter(Census(rules.share, box.msgs), n, Minus(rules.share(m'), rules.share(m)), One(rules.slip(m, what)));
  }

  /** After any run the counters are the counts over the messages, except that flagged is too high by the
      number of miscounted changes. */
  lemma {:induction false} CountersDrift<M, C>(rules: Rules<M, C>, box: Mailbox<M>, rs: seq<Request<C>>)
    requires Addressed(|box.msgs|, rs) && Counted(rules.share, box)
    ensures var after := Run(rules, box, rs);
            after.counts == Surplus(Census(rules.share, after.msgs), Slips(rules, box, rs))
    decreases |rs|
  {
    if rs == [] {
      SurplusAfter(box.counts, 0, Zero(), 0);
    } else {
      var n := |rs| - 1;
      CountersDrift(rules, box, rs[..n]);
      StepDrift(rules, Run(rules, box, rs[..n]), rs[n].i, rs[n].what, Slips(rules, box, rs[..n]));
    }
  }

  /** All six counters are right after a run exactly when no change was miscounted. */
  lemma CountedIff<M, C>(rules: Rules<M, C>, box: Mailbox<M>, rs: seq<Request<C>>)
    requires Addressed(|box.msgs|, rs) && Counted(rules.share, box)
    ensures Counted(rules.share, Run(rules, box, rs)) <==> Slips(rules, box, rs) == 0
  {
    CountersDrift(rules, box, rs);
    SurplusAfter(Census(rules.share, Run(rules, box, rs).msgs), Slips(rules, box, rs), Zero(), 0);
  }

  /** A run of changes of which none can be miscounted, whatever the message, keeps the counters right. */
  lemma {:induction false} NeverSlips<M(!new), C>(rules: Rules<M, C>, box: Mailbox<M>, rs: seq<Request<C>>)
    requires Addressed(|box.msgs|, rs)
    requires forall r, m :: r in rs ==> !rules.slip(m, r.what)
    ensures Slips(rules, box, rs) == 0
    decreases |rs|
  {
    if rs != [] {
      var n := |rs| - 1;
      assert rs[n] in rs;
      NeverSlips(rules, box, rs[..n]);
    }
  }

  // ----- changing every selected message once -----

  ghost predicate Distinct<T>(s: seq<T>) {
    forall j, k :: 0 <= j < k < |s| ==> s[j] != s[k]
  }

  ghost predicate Within(order: seq<nat>, n: nat) {
    forall j :: 0 <= j < |order| ==> order[j] < n
  }

  /** The same change for each listed message. */
  function Each<C>(order: seq<nat>, what: C): (rs: seq<Request<C>>)
    ensures |rs| == |order| && forall k :: 0 <= k < |rs| ==> rs[k] == Request(order[k], what)
  {
    seq(|order|, k requires 0 <= k < |order| => Request(order[k], what))
  }

  /** Changing each listed message once changes exactly the listed messages, by exactly that change. */
  lemma {:induction false} RunEach<M, C>(rules: Rules<M, C>, box: Mailbox<M>, order: seq<nat>, what: C, i: nat)
    requires Addressed(|box.msgs|, Each(order, what)) && Distinct(order) && i < |box.msgs|
    ensures Run(rules, box, Each(order, what)).msgs[i] ==
            if i in order then rules.change(box.msgs[i], what) else box.msgs[i]
    decreases |order|
  {
    var rs := Each(order, what);
    if order != [] {
      var n := |order| - 1;
      assert rs[..n] == Each(order[..n], what);
      RunEach(rules, box, order[..n], what, i);
      assert order[n] !in order[..n];
      assert order == order[..n] + [order[n]];
    }
  }

  /** One more message in a run of the same change: it was untouched so far, and changes next. */
  lemma ExtendRun<M, C>(rules: Rules<M, C>, box: Mailbox<M>, order: seq<nat>, what: C, i: nat)
    requires Addressed(|box.msgs|, Each(order, what)) && Distinct(order) && i < |box.msgs| && i !in order
    ensures Run(rules, box, Each(order, what)).msgs[i] == box.msgs[i]
    ensures Addressed(|box.msgs|, Each(order + [i], what))
    ensures Run(rules, box, Each(order + [i], what)) ==
            Step(rules, Run(rules, box, Each(order, what)), i, what)
  {
    RunEach(rules, box, order, what, i);
    assert Each(order + [i], what)[..|order|] == Each(order, what);
  }

  lemma OneRequest<M, C>(rules: Rules<M, C>, box: Mailbox<M>, i: nat, what: C)
    requires i < |box.msgs|
    ensures var rs := [Request(i, what)];
            Addressed(|box.msgs|, rs) && Run(rules, box, rs) == Step(rules, box, i, what) &&
            Slips(rules, box, rs) == One(rules.slip(box.msgs[i], what))
  {
    var rs := [Request(i, what)];
    assert rs[..0] == [];
  }

  lemma CensusOfOne<M>(share: M -> Counters, m: M)
    ensures Census(share, [m]) == share(m)
  {
    assert [m][..0] == [];
  }
  /** Changing the only message of a folder whose counters are right is one slip, and leaves them wrong. */
  ghost predicate SlipsAlone<M, C>(rules: Rules<M, C>, m: M, what: C) {
    var box, rs := Mailbox([m], rules.share(m)), [Request(0, what)];
    Addressed(1, rs) && Counted(rules.share, box) && Slips(rules, box, rs) == 1 &&
    !Counted(rules.share, Run(rules, box, rs)) && Run(rules, box, rs).msgs == [rules.change(m, what)]
  }

  lemma SlipUncounted<M, C>(rules: Rules<M, C>, m: M, what: C)
    ensures rules.slip(m, what) <==> SlipsAlone(rules, m, what)
  {
    var box := Mailbox([m], rules.share(m));
    CensusOfOne(rules.share, m);
    OneRequest(rules, box, 0, what);
    CountedIff(rules, box, [Request(0, what)]);
  }
}
