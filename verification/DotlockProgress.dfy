/** What the dot-lock protocol achieves (dotlock.c), whoever else takes part. */
module DotlockProgress {
  import opened Dotlock

  // Who a lock file belongs to, that a free lock is granted and given back, that a held one is refused, and what
  // becomes of a stale one.

  // ----- whose lock file it is -----

  /** No crash, and no failing stat, after which dotlock_lock returns without cleaning up. */
  ghost predicate Clean(acts: seq<(nat, Action)>) {
    forall i :: 0 <= i < |acts| ==> !acts[i].1.Crash? && !acts[i].1.StatFails?
  }

  /** A process that holds the lock, or whose private file is linked to the lock file. */
  ghost predicate Owns(s: State, p: nat) {
    p < |s.procs| && (Holds(s.procs[p]) || s.procs[p].at.Cleanup? || LockedBy(s.fs, p))
  }

  /** Between rounds the private file is there and not linked; outside the loop there is none. */
  ghost predicate Tidy(fs: FileSystem, p: nat, proc: Process) {
    (proc.at.LoopTest? || proc.at.LinkLock? || proc.at.GiveUp? ==> Temp(p) in fs.names && !LockedBy(fs, p)) &&
    (proc.at.StatTemp? ==> Temp(p) in fs.names) &&
    (proc.at.Idle? || proc.at.ClearTemp? || proc.at.OpenTemp? || Holds(proc) ==> Temp(p) !in fs.names)
  }

  ghost predicate Owned(cfg: seq<Settings>, s: State) {
    Invariant(cfg, s) && (forall p :: 0 <= p < |cfg| ==> Tidy(s.fs, p, s.procs[p])) &&
    (LockFile in s.fs.names ==> exists p :: Owns(s, p))
  }

  lemma OwnsLock(cfg: seq<Settings>, s: State, p: nat)
    requires Invariant(cfg, s) && Owns(s, p)
    ensures LockFile in s.fs.names
  {
    assert ProcessOk(cfg[p], s.fs, p, s.procs[p]);
  }

  lemma StepTidy(cfg: seq<Settings>, s: State, p: nat, a: Action)
    requires Disciplined(cfg) && Owned(cfg, s) && Enabled(cfg, s, p, a) && !a.Crash? && !a.StatFails?
    ensures Tidy(Step(cfg, s, p, a).fs, p, StepProcess(cfg, s, p, a))
  {
    assert ProcessOk(cfg[p], s.fs, p, s.procs[p]) && Tidy(s.fs, p, s.procs[p]);
    if a.Stat? {
      LinkCountTellsOwner(s.fs, p);
    }
  }

  lemma StepTidyOther(cfg: seq<Settings>, s: State, p: nat, a: Action, q: nat)
    requires Disciplined(cfg) && Owned(cfg, s) && Enabled(cfg, s, p, a) && !a.Crash? && !a.StatFails?
    requires q < |cfg| && q != p
    ensures Tidy(Step(cfg, s, p, a).fs, q, s.procs[q])
  {
    assert ProcessOk(cfg[p], s.fs, p, s.procs[p]) && Tidy(s.fs, p, s.procs[p]);
    assert ProcessOk(cfg[q], s.fs, q, s.procs[q]) && Tidy(s.fs, q, s.procs[q]);
  }

  /** Whoever owned the lock file still does, or the process that moved has taken it over or removed it. */
  lemma StepOwner(cfg: seq<Settings>, s: State, p: nat, a: Action)
    requires Disciplined(cfg) && Owned(cfg, s) && Enabled(cfg, s, p, a) && !a.Crash? && !a.StatFails?
    requires LockFile in Step(cfg, s, p, a).fs.names
    ensures exists q :: Owns(Step(cfg, s, p, a), q)
  {
    var t := Step(cfg, s, p, a);
    assert ProcessOk(cfg[p], s.fs, p, s.procs[p]) && Tidy(s.fs, p, s.procs[p]);
    if LockFile !in s.fs.names {
      assert Owns(t, p);
    } else {
      var q :| Owns(s, q);
      assert Owns(t, q) || Owns(t, p);
    }
  }

  lemma StepOwned(cfg: seq<Settings>, s: State, p: nat, a: Action)
    requires Disciplined(cfg) && Owned(cfg, s) && Enabled(cfg, s, p, a) && !a.Crash? && !a.StatFails?
    ensures Owned(cfg, Step(cfg, s, p, a))
  {
    var t := Step(cfg, s, p, a);
    StepKeepsInvariant(cfg, s, p, a);
    StepTidy(cfg, s, p, a);
    forall q | 0 <= q < |cfg| && q != p
      ensures Tidy(t.fs, q, s.procs[q])
    {
      StepTidyOther(cfg, s, p, a, q);
    }
    if LockFile in t.fs.names {
      StepOwner(cfg, s, p, a);
    }
  }

  lemma {:induction false} CleanRun(cfg: seq<Settings>, init: State, acts: seq<(nat, Action)>, s: State)
    requires Disciplined(cfg) && Initial(cfg, init) && LockFile !in init.fs.names
    requires Run(cfg, init, acts, s) && Clean(acts)
    ensures Owned(cfg, s)
    decreases |acts|
  {
    if acts == [] {
      InitialInvariant(cfg, s);
    } else {
      var (p, a) := acts[|acts| - 1];
      var mid :| Run(cfg, init, acts[..|acts| - 1], mid) && Enabled(cfg, mid, p, a) && s == Step(cfg, mid, p, a);
      CleanRun(cfg, init, acts[..|acts| - 1], mid);
      StepOwned(cfg, mid, p, a);
    }
  }

  /** From a directory without one, and as long as nobody crashes and no stat fails, there is a lock file exactly
      while a process holds the lock or has its private file linked to it: unlocking removes it. */
  lemma LockedIffOwned(cfg: seq<Settings>, init: State, acts: seq<(nat, Action)>, s: State)
    requires Disciplined(cfg) && Initial(cfg, init) && LockFile !in init.fs.names
    requires Run(cfg, init, acts, s) && Clean(acts)
    ensures LockFile in s.fs.names <==> exists p :: Owns(s, p)
  {
    CleanRun(cfg, init, acts, s);
    forall p | Owns(s, p)
      ensures LockFile in s.fs.names
    {
      OwnsLock(cfg, s, p);
    }
  }

  /** The directory without one of its names. */
  function Less(names: map<Name, Inode>, name: Name): map<Name, Inode> {
    names - {name}
  }

  // ----- a process that moves alone -----

  /** The given actions of process p, nobody else moving. */
  function Solo(p: nat, acts: seq<Action>): (r: seq<(nat, Action)>)
    ensures |r| == |acts| && forall i :: 0 <= i < |acts| ==> r[i] == (p, acts[i])
  {
    seq(|acts|, i requires 0 <= i < |acts| => (p, acts[i]))
  }

  /** From s, process p alone takes these actions, and t is where they lead. */
  ghost predicate Leads(cfg: seq<Settings>, s: State, p: nat, acts: seq<Action>, t: State) {
    Run(cfg, s, Solo(p, acts), t)
  }

  lemma Stay(cfg: seq<Settings>, s: State, p: nat)
    ensures Leads(cfg, s, p, [], s)
  {
  }

  lemma Move(cfg: seq<Settings>, s: State, p: nat, acts: seq<Action>, mid: State, a: Action, more: seq<Action>)
    requires Leads(cfg, s, p, acts, mid) && Enabled(cfg, mid, p, a) && more == acts + [a]
    ensures Leads(cfg, s, p, more, Step(cfg, mid, p, a))
  {
    var r, t := Solo(p, more), Step(cfg, mid, p, a);
    assert r[..|r| - 1] == Solo(p, acts) && r[|r| - 1] == (p, a);
    assert Run(cfg, s, r[..|r| - 1], mid) && Enabled(cfg, mid, p, a) && t == Step(cfg, mid, p, a);
  }

  /** The places in dotlock_lock where the private file exists. */
  predicate Locking(proc: Process) {
    proc.at.LoopTest? || proc.at.LinkLock? || proc.at.StatTemp? || proc.at.ForceUnlink? || proc.at.GiveUp?
  }

  ghost predicate PrivateFiles(s: State) {
    FilesOk(s.fs) && forall p :: 0 <= p < |s.procs| && Locking(s.procs[p]) ==> Temp(p) in s.fs.names
  }

  lemma {:induction false} RunPrivateFiles(cfg: seq<Settings>, init: State, acts: seq<(nat, Action)>, s: State)
    requires Disciplined(cfg) && Initial(cfg, init) && Run(cfg, init, acts, s)
    ensures Invariant(cfg, s) && PrivateFiles(s)
    decreases |acts|
  {
    RunInvariant(cfg, init, acts, s);
    if acts != [] {
      var (p, a) := acts[|acts| - 1];
      var mid :| Run(cfg, init, acts[..|acts| - 1], mid) && Enabled(cfg, mid, p, a) && s == Step(cfg, mid, p, a);
      RunPrivateFiles(cfg, init, acts[..|acts| - 1], mid);
      StepPrivateFiles(cfg, mid, p, a);
    }
  }

  lemma StepPrivateFiles(cfg: seq<Settings>, s: State, p: nat, a: Action)
    requires Enabled(cfg, s, p, a) && PrivateFiles(s) && FilesOk(Step(cfg, s, p, a).fs)
    ensures PrivateFiles(Step(cfg, s, p, a))
  {
    var t := Step(cfg, s, p, a);
    forall q | 0 <= q < |cfg| && Locking(t.procs[q])
      ensures Temp(q) in t.fs.names
    {
      assert q != p ==> t.procs[q] == s.procs[q];
    }
  }

  lemma ReachablePrivateFiles(cfg: seq<Settings>, s: State)
    requires Disciplined(cfg) && Reachable(cfg, s)
    ensures Invariant(cfg, s) && PrivateFiles(s)
  {
    var init, acts :| Initial(cfg, init) && Run(cfg, init, acts, s);
    RunPrivateFiles(cfg, init, acts, s);
  }

  /** One round of the loop: the attempt to link, and what stat tells. */
  lemma TryLink(cfg: seq<Settings>, s: State, p: nat) returns (t: State)
    requires |s.procs| == |cfg| && p < |cfg| && s.procs[p].at.LoopTest? && s.procs[p].hardCount < HARDMAXATTEMPTS
    ensures Leads(cfg, s, p, [Test, Link], t)
    ensures t.fs == s.fs.Link(Temp(p), LockFile)
    ensures t.procs == s.procs[p := s.procs[p].(at := StatTemp, hardCount := s.procs[p].hardCount + 1)]
  {
    Stay(cfg, s, p);
    Move(cfg, s, p, [], s, Test, [Test]);
    var mid := Step(cfg, s, p, Test);
    Move(cfg, s, p, [Test], mid, Link, [Test, Link]);
    t := Step(cfg, mid, p, Link);
    assert t.procs == s.procs[p := t.procs[p]];
  }

  /** A free lock is granted: whoever is at the top of the loop and moves alone, no call failing, gets it at the first
      attempt, its private file having become the lock file. */
  lemma FreeLockGranted(cfg: seq<Settings>, s: State, p: nat) returns (t: State)
    requires Disciplined(cfg) && Reachable(cfg, s) && p < |cfg| && |s.procs| == |cfg|
    requires s.procs[p].at.LoopTest? && LockFile !in s.fs.names
    ensures Leads(cfg, s, p, [Test, Link, Stat, Finish], t)
    ensures |t.procs| == |cfg| && t.procs[p].at.Granted? && t.procs[p].returned.Ok?
    ensures t.procs[p].goal == s.procs[p].goal
    ensures t.fs.sizes == s.fs.sizes && Temp(p) in s.fs.names
    ensures t.fs.names == Less(s.fs.names, Temp(p))[LockFile := s.fs.names[Temp(p)]]
  {
    ReachablePrivateFiles(cfg, s);
    assert ProcessOk(cfg[p], s.fs, p, s.procs[p]);
    var mid := TryLink(cfg, s, p);
    t := LinkedGrants(cfg, s, p, mid);
  }

  lemma LinkedGrants(cfg: seq<Settings>, s: State, p: nat, mid: State) returns (t: State)
    requires Leads(cfg, s, p, [Test, Link], mid) && |mid.procs| == |cfg| && p < |cfg| && mid.procs[p].at.StatTemp?
    requires FilesOk(mid.fs) && LockedBy(mid.fs, p)
    ensures Leads(cfg, s, p, [Test, Link, Stat, Finish], t)
    ensures |t.procs| == |cfg| && t.procs[p].at.Granted? && t.procs[p].returned.Ok?
    ensures t.procs[p].goal == mid.procs[p].goal && t.fs.sizes == mid.fs.sizes
    ensures t.fs.names == Less(mid.fs.names, Temp(p))
  {
    LinkCountTellsOwner(mid.fs, p);
    Move(cfg, s, p, [Test, Link], mid, Stat, [Test, Link, Stat]);
    var linked := Step(cfg, mid, p, Stat);
    Move(cfg, s, p, [Test, Link, Stat], linked, Finish, [Test, Link, Stat, Finish]);
    t := Step(cfg, linked, p, Finish);
  }

  lemma {:induction false} LeadsOn(cfg: seq<Settings>, s: State, p: nat, a: seq<Action>, mid: State, b: seq<Action>,
                                   t: State)
    requires Leads(cfg, s, p, a, mid) && Leads(cfg, mid, p, b, t)
    ensures Leads(cfg, s, p, a + b, t)
    decreases |b|
  {
    if b == [] {
      assert a + b == a;
    } else {
      var n := |b| - 1;
      var r := Solo(p, b);
      assert r[..n] == Solo(p, b[..n]) && r[n] == (p, b[n]);
      var before :| Run(cfg, mid, r[..n], before) && Enabled(cfg, before, p, b[n]) &&
                    t == Step(cfg, before, p, b[n]);
      LeadsOn(cfg, s, p, a, mid, b[..n], before);
      Move(cfg, s, p, a + b[..n], before, b[n], a + b);
    }
  }

  /** A held lock is refused: rounds of the loop up to the retry limit, and the private file removed. */
  function Refusal(rounds: nat): seq<Action> {
    if rounds == 0 then [Abandon] else [Test, Link, Stat] + Refusal(rounds - 1)
  }

  /** At the top of the loop after k failed attempts, in front of a lock file that is not p's own. */
  ghost predicate Facing(cfg: seq<Settings>, s: State, p: nat, k: nat) {
    |s.procs| == |cfg| && p < |cfg| && k <= cfg[p].retry < HARDMAXATTEMPTS && !cfg[p].force &&
    s.procs[p].at.LoopTest? && s.procs[p].count == s.procs[p].hardCount == k && (k > 0 ==> s.procs[p].prevSize == 0) &&
    FilesOk(s.fs) && Temp(p) in s.fs.names && LockFile in s.fs.names && !LockedBy(s.fs, p)
  }

  /** One failed round. */
  lemma FailedRound(cfg: seq<Settings>, s: State, p: nat, k: nat) returns (t: State)
    requires Facing(cfg, s, p, k)
    ensures Leads(cfg, s, p, [Test, Link, Stat], t) && t.fs == s.fs && |t.procs| == |cfg|
    ensures if k < cfg[p].retry then Facing(cfg, t, p, k + 1) else t.procs[p].at.GiveUp?
  {
    var mid := TryLink(cfg, s, p);
    LinkCountTellsOwner(mid.fs, p);
    Move(cfg, s, p, [Test, Link], mid, Stat, [Test, Link, Stat]);
    t := Step(cfg, mid, p, Stat);
  }

  lemma {:induction false} FacingRefused(cfg: seq<Settings>, s: State, p: nat, k: nat) returns (t: State)
    requires Facing(cfg, s, p, k)
    ensures Leads(cfg, s, p, Refusal(cfg[p].retry + 1 - k), t)
    ensures t.procs[p].at.Idle? && t.procs[p].returned.Exist? && t.fs.names == Less(s.fs.names, Temp(p))
    decreases cfg[p].retry - k
  {
    var mid := FailedRound(cfg, s, p, k);
    if k < cfg[p].retry {
      t := FacingRefused(cfg, mid, p, k + 1);
      LeadsOn(cfg, s, p, [Test, Link, Stat], mid, Refusal(cfg[p].retry - k), t);
    } else {
      Stay(cfg, mid, p);
      Move(cfg, mid, p, [], mid, Abandon, [Abandon]);
      t := Step(cfg, mid, p, Abandon);
      LeadsOn(cfg, s, p, [Test, Link, Stat], mid, [Abandon], t);
      assert Refusal(1) == [Test, Link, Stat] + Refusal(0);
    }
  }

  /** A lock that somebody else holds is refused: whoever is at the top of the loop and moves alone, no call failing,
      is told so after the attempts that are left, and leaves the lock file where it was and no file of its own. */
  lemma HeldLockRefused(cfg: seq<Settings>, s: State, p: nat) returns (t: State)
    requires Disciplined(cfg) && Reachable(cfg, s) && p < |cfg| && |s.procs| == |cfg|
    requires s.procs[p].at.LoopTest? && LockFile in s.fs.names && !LockedBy(s.fs, p)
    ensures s.procs[p].count <= cfg[p].retry
    ensures Leads(cfg, s, p, Refusal(cfg[p].retry + 1 - s.procs[p].count), t)
    ensures t.procs[p].at.Idle? && t.procs[p].returned.Exist? && t.fs.names == Less(s.fs.names, Temp(p))
  {
    ReachablePrivateFiles(cfg, s);
    assert ProcessOk(cfg[p], s.fs, p, s.procs[p]);
    t := FacingRefused(cfg, s, p, s.procs[p].count);
  }

  // ----- whole calls -----

  lemma {:induction false} FreshInode(used: set<Inode>) returns (ino: Inode)
    ensures forall i :: i in used ==> i < ino
    decreases |used|
  {
    ino := 0;
    if used != {} {
      var i :| i in used;
      var rest := FreshInode(used - {i});
      ino := if rest > i then rest else i + 1;
      assert used == used - {i} + {i};
    }
  }

  lemma NotAValue(names: map<Name, Inode>, name: Name, ino: Inode)
    requires forall i :: i in names.Values ==> i < ino
    ensures ino !in names.Values && ino !in Less(names, name).Values
  {
    forall i | i in (names - {name}).Values
      ensures i in names.Values
    {
      var n :| n in names - {name} && (names - {name})[n] == i;
      assert n in names && names[n] == i;
    }
  }

  /** From idle to the top of the loop, with a private file of its own. */
  lemma CallBegins(cfg: seq<Settings>, s: State, p: nat, goal: Goal) returns (t: State, ino: Inode)
    requires |s.procs| == |cfg| && p < |cfg| && s.procs[p].at.Idle?
    ensures Leads(cfg, s, p, [Begin(goal), Clear, Open(ino)], t)
    ensures ino !in s.fs.names.Values && t.fs.names == s.fs.names[Temp(p) := ino]
    ensures t.procs == s.procs[p := Process(LoopTest, goal, 0, 0, 0, Nothing)]
    ensures forall i :: i in s.fs.names.Values ==> t.fs.Size(i) == s.fs.Size(i)
  {
    ino := FreshInode(s.fs.names.Values);
    Stay(cfg, s, p);
    Move(cfg, s, p, [], s, Begin(goal), [Begin(goal)]);
    var s1 := Step(cfg, s, p, Begin(goal));
    Move(cfg, s, p, [Begin(goal)], s1, Clear, [Begin(goal), Clear]);
    var s2 := Step(cfg, s1, p, Clear);
    assert s2.fs.names == s.fs.names - {Temp(p)};
    NotAValue(s.fs.names, Temp(p), ino);
    Move(cfg, s, p, [Begin(goal), Clear], s2, Open(ino), [Begin(goal), Clear, Open(ino)]);
    t := Step(cfg, s2, p, Open(ino));
    assert t.fs.names == s2.fs.names[Temp(p) := ino] == s.fs.names[Temp(p) := ino];
    assert t.procs == s.procs[p := t.procs[p]];
  }

  lemma {:induction false} LeadsReachable(cfg: seq<Settings>, s: State, p: nat, acts: seq<Action>, t: State)
    requires Reachable(cfg, s) && Leads(cfg, s, p, acts, t)
    ensures Reachable(cfg, t)
    decreases |acts|
  {
    if acts != [] {
      var n, r := |acts| - 1, Solo(p, acts);
      assert r[..n] == Solo(p, acts[..n]) && r[n] == (p, acts[n]);
      var mid :| Run(cfg, s, r[..n], mid) && Enabled(cfg, mid, p, acts[n]) && t == Step(cfg, mid, p, acts[n]);
      LeadsReachable(cfg, s, p, acts[..n], mid);
      StepReachable(cfg, mid, p, acts[n]);
    }
  }

  function Call(goal: Goal, ino: Inode): seq<Action> {
    [Begin(goal), Clear, Open(ino)] + [Test, Link, Stat, Finish]
  }

  /** dotlock_lock on a free lock, by a process that moves alone and whose calls do not fail. */
  lemma CallGranted(cfg: seq<Settings>, s: State, p: nat, goal: Goal) returns (t: State, ino: Inode)
    requires Disciplined(cfg) && Reachable(cfg, s) && p < |cfg| && |s.procs| == |cfg|
    requires s.procs[p].at.Idle? && LockFile !in s.fs.names
    ensures Leads(cfg, s, p, Call(goal, ino), t) && |t.procs| == |cfg|
    ensures t.procs[p].at.Granted? && t.procs[p].goal == goal && t.procs[p].returned.Ok?
    ensures t.fs.names == Less(s.fs.names, Temp(p))[LockFile := ino] && t.fs.MailSize() == s.fs.MailSize()
  {
    var mid;
    mid, ino := CallBegins(cfg, s, p, goal);
    LeadsReachable(cfg, s, p, [Begin(goal), Clear, Open(ino)], mid);
    t := FreeLockGranted(cfg, mid, p);
    LeadsOn(cfg, s, p, [Begin(goal), Clear, Open(ino)], mid, [Test, Link, Stat, Finish], t);
    SameMail(s.fs, t.fs);
  }

  lemma SameMail(before: FileSystem, after: FileSystem)
    requires Mailbox in before.names <==> Mailbox in after.names
    requires Mailbox in before.names ==> after.names[Mailbox] == before.names[Mailbox]
    requires forall i :: i in before.names.Values ==> after.Size(i) == before.Size(i)
    ensures after.MailSize() == before.MailSize()
  {
  }

  /** Locking and unlocking leaves the directory as it was. */
  lemma LockThenUnlock(cfg: seq<Settings>, s: State, p: nat) returns (t: State, ino: Inode)
    requires Disciplined(cfg) && Reachable(cfg, s) && p < |cfg| && |s.procs| == |cfg|
    requires s.procs[p].at.Idle? && LockFile !in s.fs.names
    ensures Leads(cfg, s, p, Call(Deliver, ino) + [Unlock], t)
    ensures t.procs[p].at.Idle? && t.fs.names == Less(s.fs.names, Temp(p))
  {
    var held;
    held, ino := CallGranted(cfg, s, p, Deliver);
    Move(cfg, s, p, Call(Deliver, ino), held, Unlock, Call(Deliver, ino) + [Unlock]);
    t := Step(cfg, held, p, Unlock);
  }

  /** dotlock_unlink removes the mailbox if and only if it is empty, and leaves no lock file behind. */
  lemma UnlinkCall(cfg: seq<Settings>, s: State, p: nat) returns (t: State, ino: Inode)
    requires Disciplined(cfg) && Reachable(cfg, s) && p < |cfg| && |s.procs| == |cfg|
    requires s.procs[p].at.Idle? && LockFile !in s.fs.names
    ensures var empty := Mailbox in s.fs.names && s.fs.MailSize() == 0;
            Leads(cfg, s, p, Call(RemoveIfEmpty, ino) + if empty then [Look, Remove, Unlock] else [Look, Unlock], t) &&
            t.procs[p].at.Idle? && t.fs.names == Less(if empty then Less(s.fs.names, Mailbox) else s.fs.names, Temp(p))
  {
    var held;
    held, ino := CallGranted(cfg, s, p, RemoveIfEmpty);
    t := RemoveAndUnlock(cfg, held, p);
    LeadsOn(cfg, s, p, Call(RemoveIfEmpty, ino), held,
            if Mailbox in held.fs.names && held.fs.MailSize() == 0 then [Look, Remove, Unlock] else [Look, Unlock], t);
  }

  lemma RemoveAndUnlock(cfg: seq<Settings>, s: State, p: nat) returns (t: State)
    requires p < |cfg| && |s.procs| == |cfg| && s.procs[p].at.Granted? && s.procs[p].goal.RemoveIfEmpty?
    ensures var empty := Mailbox in s.fs.names && s.fs.MailSize() == 0;
            Leads(cfg, s, p, if empty then [Look, Remove, Unlock] else [Look, Unlock], t) &&
            t.procs[p].at.Idle? && t.fs.names == Less(if empty then Less(s.fs.names, Mailbox) else s.fs.names, LockFile)
  {
    Stay(cfg, s, p);
    Move(cfg, s, p, [], s, Look, [Look]);
    var seen := Step(cfg, s, p, Look);
    if Mailbox in s.fs.names && s.fs.MailSize() == 0 {
      Move(cfg, s, p, [Look], seen, Remove, [Look, Remove]);
      var removed := Step(cfg, seen, p, Remove);
      Move(cfg, s, p, [Look, Remove], removed, Unlock, [Look, Remove, Unlock]);
      t := Step(cfg, removed, p, Unlock);
    } else {
      Move(cfg, s, p, [Look], seen, Unlock, [Look, Unlock]);
      t := Step(cfg, seen, p, Unlock);
    }
  }

  // ----- stale locks -----

  /** A lock file that belongs to nobody. */
  ghost predicate Stale(s: State) {
    LockedByHolder(s.fs) && forall q :: 0 <= q < |s.procs| ==> !Holds(s.procs[q])
  }

  lemma StepStale(cfg: seq<Settings>, s: State, p: nat, a: Action)
    requires Disciplined(cfg) && Invariant(cfg, s) && Enabled(cfg, s, p, a) && Stale(s)
    ensures Stale(Step(cfg, s, p, a)) && Step(cfg, s, p, a).fs.names[LockFile] == s.fs.names[LockFile]
  {
    assert ProcessOk(cfg[p], s.fs, p, s.procs[p]);
  }

  /** A stale lock stays for ever: whatever happens then, crashes and failing calls included, nobody is granted the
      lock again, and nobody removes it. */
  lemma {:induction false} StaleForEver(cfg: seq<Settings>, s: State, acts: seq<(nat, Action)>, t: State)
    requires Disciplined(cfg) && Invariant(cfg, s) && Stale(s) && Run(cfg, s, acts, t)
    ensures Invariant(cfg, t) && Stale(t) && t.fs.names[LockFile] == s.fs.names[LockFile]
    decreases |acts|
  {
    if acts != [] {
      var (p, a) := acts[|acts| - 1];
      var mid :| Run(cfg, s, acts[..|acts| - 1], mid) && Enabled(cfg, mid, p, a) && t == Step(cfg, mid, p, a);
      StaleForEver(cfg, s, acts[..|acts| - 1], mid);
      StepStale(cfg, mid, p, a);
      StepKeepsInvariant(cfg, mid, p, a);
    }
  }

  /** One failing stat is enough: the process returns without removing what it has linked, and its next call removes
      only its private file. */
  lemma FailedStatLeavesStale(cfg: seq<Settings>, s: State, p: nat) returns (t: State, ino: Inode)
    requires Disciplined(cfg) && Reachable(cfg, s) && p < |cfg| && |s.procs| == |cfg|
    requires s.procs[p].at.Idle? && LockFile !in s.fs.names
    ensures Leads(cfg, s, p, [Begin(Deliver), Clear, Open(ino)] + [Test, Link] + [StatFails, Begin(Deliver), Clear], t)
    ensures Stale(t)
  {
    var mid, linked;
    mid, ino := CallBegins(cfg, s, p, Deliver);
    linked := TryLink(cfg, mid, p);
    LeadsOn(cfg, s, p, [Begin(Deliver), Clear, Open(ino)], mid, [Test, Link], linked);
    LeadsReachable(cfg, s, p, [Begin(Deliver), Clear, Open(ino)] + [Test, Link], linked);
    t := FailAndClear(cfg, linked, p);
    LeadsOn(cfg, s, p, [Begin(Deliver), Clear, Open(ino)] + [Test, Link], linked,
            [StatFails, Begin(Deliver), Clear], t);
    LeadsReachable(cfg, linked, p, [StatFails, Begin(Deliver), Clear], t);
  }

  lemma FailAndClear(cfg: seq<Settings>, s: State, p: nat) returns (t: State)
    requires Disciplined(cfg) && Reachable(cfg, s) && p < |cfg| && |s.procs| == |cfg|
    requires s.procs[p].at.StatTemp? && LockedBy(s.fs, p)
    ensures Leads(cfg, s, p, [StatFails, Begin(Deliver), Clear], t) && Stale(t)
  {
    ReachablePrivateFiles(cfg, s);
    Stay(cfg, s, p);
    Move(cfg, s, p, [], s, StatFails, [StatFails]);
    var s1 := Step(cfg, s, p, StatFails);
    Move(cfg, s, p, [StatFails], s1, Begin(Deliver), [StatFails, Begin(Deliver)]);
    var s2 := Step(cfg, s1, p, Begin(Deliver));
    Move(cfg, s, p, [StatFails, Begin(Deliver)], s2, Clear, [StatFails, Begin(Deliver), Clear]);
    t := Step(cfg, s2, p, Clear);
    forall q | 0 <= q < |cfg|
      ensures !Holds(t.procs[q])
    {
      assert ProcessOk(cfg[q], s.fs, q, s.procs[q]);
    }
  }

  // ----- what may go wrong -----

  /** Wherever it is, a process may crash, leaving everything as it is; and each call may fail. */
  lemma AnythingMayFail(cfg: seq<Settings>, s: State, p: nat)
    requires |s.procs| == |cfg| && p < |cfg|
    ensures Enabled(cfg, s, p, Crash) && Step(cfg, s, p, Crash).fs == s.fs && Step(cfg, s, p, Crash).procs[p].at.Idle?
    ensures s.procs[p].at.OpenTemp? ==> Enabled(cfg, s, p, OpenFails) && Step(cfg, s, p, OpenFails).fs == s.fs &&
                                        Step(cfg, s, p, OpenFails).procs[p].returned.Error?
    ensures s.procs[p].at.LinkLock? ==> Enabled(cfg, s, p, LinkFails) && Step(cfg, s, p, LinkFails).fs == s.fs
    ensures s.procs[p].at.StatTemp? ==> Enabled(cfg, s, p, StatFails) && Step(cfg, s, p, StatFails).fs == s.fs &&
                                        Step(cfg, s, p, StatFails).procs[p].returned.Error?
  {
  }

  /** A holder may deliver any number of bytes, creating the mailbox if need be, and take out any number up to all. */
  lemma HolderMayDo(cfg: seq<Settings>, s: State, p: nat, bytes: nat, spare: Inode)
    requires |s.procs| == |cfg| && p < |cfg| && s.procs[p].at.Granted? && s.procs[p].goal.Deliver?
    requires spare !in s.fs.names.Values
    ensures Enabled(cfg, s, p, Append(bytes, spare)) && Mailbox in Step(cfg, s, p, Append(bytes, spare)).fs.names
    ensures Mailbox in s.fs.names ==>
              Step(cfg, s, p, Append(bytes, spare)).fs.MailSize() == s.fs.MailSize() + bytes
    ensures Mailbox in s.fs.names && bytes <= s.fs.MailSize() ==>
              Enabled(cfg, s, p, Collect(bytes)) &&
              Step(cfg, s, p, Collect(bytes)).fs.MailSize() == s.fs.MailSize() - bytes
  {
  }

  /** A process with -f that has used up its attempts removes the lock file, whoever holds it, and starts over with
      all its attempts. */
  lemma ForceStartsOver(cfg: seq<Settings>, s: State, p: nat) returns (t: State)
    requires |s.procs| == |cfg| && p < |cfg| && FilesOk(s.fs) && Temp(p) in s.fs.names && LockFile in s.fs.names
    requires s.procs[p].at.StatTemp? && cfg[p].force && s.procs[p].count == cfg[p].retry && !LockedBy(s.fs, p)
    requires s.procs[p].count > 0 ==> s.procs[p].prevSize == 0
    ensures Leads(cfg, s, p, [Stat, Force], t)
    ensures t.fs.names == Less(s.fs.names, LockFile) && t.procs[p].at.LoopTest? && t.procs[p].count == 0
  {
    LinkCountTellsOwner(s.fs, p);
    Stay(cfg, s, p);
    Move(cfg, s, p, [], s, Stat, [Stat]);
    var mid := Step(cfg, s, p, Stat);
    Move(cfg, s, p, [Stat], mid, Force, [Stat, Force]);
    t := Step(cfg, mid, p, Force);
  }
}
