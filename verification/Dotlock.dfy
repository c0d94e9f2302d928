/** The dot-lock protocol as a step system (dotlock.c). */
module Dotlock {
  // Processes with distinct temporary names compete for one lock file in one directory. Every system call is one atomic
  // step, steps of different processes interleave in any order, a call may fail for reasons outside the program, and a
  // process may crash anywhere.

  const HARDMAXATTEMPTS := 10

  type Inode = nat

  /** The three kinds of directory entry the protocol touches. */
  datatype Name = Mailbox | LockFile | Temp(pid: nat)

  /** A directory (names to inodes) and the size of each inode. */
  datatype FileSystem = FileSystem(names: map<Name, Inode>, sizes: map<Inode, nat>) {

    function Size(ino: Inode): nat {
      if ino in sizes then sizes[ino] else 0
    }

    /** st_nlink: how many directory entries name the inode. */
    function LinkCount(ino: Inode): nat {
      |set name | name in names && names[name] == ino|
    }

    function Unlink(name: Name): FileSystem {
      this.(names := names - {name})
    }

    /** link(2): refuses a missing source and an existing target. */
    function Link(source: Name, target: Name): FileSystem {
      if source in names && target !in names then this.(names := names[target := names[source]]) else this
    }

    function Create(name: Name, ino: Inode): FileSystem {
      FileSystem(names[name := ino], sizes[ino := 0])
    }

    function Grow(ino: Inode, bytes: nat): FileSystem {
      this.(sizes := sizes[ino := Size(ino) + bytes])
    }

    function Shrink(ino: Inode, bytes: nat): FileSystem
      requires bytes <= Size(ino)
    {
      this.(sizes := sizes[ino := Size(ino) - bytes])
    }

    function MailSize(): nat {
      if Mailbox in names then Size(names[Mailbox]) else 0
    }
  }

  /** What a process wants the lock for: to put mail in or take it out, or dotlock_unlink's removal of an empty
      mailbox. */
  datatype Goal = Deliver | RemoveIfEmpty

  /** Program points of dotlock_lock, followed by those of its callers. */
  datatype Point =
    | Idle
    | ClearTemp | OpenTemp | LoopTest | LinkLock | StatTemp | ForceUnlink | GiveUp | Cleanup
    | Granted | RemoveMailbox | Unlocking

  /** What the latest dotlock_lock call returned. */
  datatype Returned = Nothing | Ok | Exist | Error

  datatype Process = Process(at: Point, goal: Goal, count: nat, hardCount: nat, prevSize: nat, returned: Returned)

  /** Command-line settings of one process: -r and -f. A negative -r is rejected at start-up. */
  datatype Settings = Settings(retry: nat, force: bool)

  /** `delivered` and `collected` are history variables: the bytes ever put into the mailbox, and those taken out by
      a holder of the lock. */
  datatype State = State(fs: FileSystem, procs: seq<Process>, delivered: nat, collected: nat)

  datatype Action =
    | Begin(goal: Goal)
    | Clear
    | Open(ino: Inode) | OpenAgain | OpenFails
    | Test
    | Link | LinkFails
    | Stat | StatFails
    | Force
    | Abandon
    | Finish
    | Append(bytes: nat, spare: Inode)
    | Collect(bytes: nat)
    | Look | Remove
    | Unlock
    | Crash

  predicate Enabled(cfg: seq<Settings>, s: State, p: nat, a: Action) {
    |s.procs| == |cfg| && p < |cfg| &&
    var proc := s.procs[p];
    match a
    case Begin(_) => proc.at.Idle?
    case Clear => proc.at.ClearTemp?
    case Open(ino) => proc.at.OpenTemp? && Temp(p) !in s.fs.names && ino !in s.fs.names.Values
    case OpenAgain => proc.at.OpenTemp?
    case OpenFails => proc.at.OpenTemp?
    case Test => proc.at.LoopTest?
    case Link => proc.at.LinkLock?
    case LinkFails => proc.at.LinkLock?
    case Stat => proc.at.StatTemp? && Temp(p) in s.fs.names
    case StatFails => proc.at.StatTemp?
    case Force => proc.at.ForceUnlink?
    case Abandon => proc.at.GiveUp?
    case Finish => proc.at.Cleanup?
    case Append(_, spare) =>
      proc.at.Granted? && proc.goal.Deliver? && (Mailbox !in s.fs.names ==> spare !in s.fs.names.Values)
    case Collect(bytes) =>
      proc.at.Granted? && proc.goal.Deliver? && Mailbox in s.fs.names && bytes <= s.fs.MailSize()
    case Look => proc.at.Granted? && proc.goal.RemoveIfEmpty?
    case Remove => proc.at.RemoveMailbox?
    case Unlock => (proc.at.Granted? && proc.goal.Deliver?) || proc.at.Unlocking?
    case Crash => true
  }

  /** The loop body after stat(2): decide between success, another round, forcing and giving up. */
  function AfterStat(settings: Settings, proc: Process, links: nat, size: nat): Process {
    if links == 2 then proc.(at := Cleanup)
    else
      var prev := if proc.count == 0 then size else proc.prevSize;
      var count := if prev == size then proc.count + 1 else proc.count;
      if prev == size && count > settings.retry then
        proc.(at := if settings.force then ForceUnlink else GiveUp, count := count, prevSize := prev)
      else
        proc.(at := LoopTest, count := count, prevSize := size)
  }

  function StepProcess(cfg: seq<Settings>, s: State, p: nat, a: Action): Process
    requires Enabled(cfg, s, p, a)
  {
    var proc := s.procs[p];
    match a
    case Begin(goal) => Process(ClearTemp, goal, 0, 0, 0, Nothing)
    case Clear => proc.(at := OpenTemp)
    case Open(_) => proc.(at := LoopTest)
    case OpenAgain => proc
    case OpenFails => proc.(at := Idle, returned := Error)
    case Test =>
      if proc.hardCount < HARDMAXATTEMPTS
      then proc.(at := LinkLock, hardCount := proc.hardCount + 1)
      else proc.(at := Cleanup, hardCount := proc.hardCount + 1)
    case Link => proc.(at := StatTemp)
    case LinkFails => proc.(at := StatTemp)
    case Stat => AfterStat(cfg[p], proc, s.fs.LinkCount(s.fs.names[Temp(p)]), s.fs.Size(s.fs.names[Temp(p)]))
    case StatFails => proc.(at := Idle, returned := Error)
    case Force => proc.(at := LoopTest, count := 0)
    case Abandon => proc.(at := Idle, returned := Exist)
    case Finish => proc.(at := Granted, returned := Ok)
    case Append(_, _) => proc
    case Collect(_) => proc
    case Look =>
      if Mailbox in s.fs.names && s.fs.Size(s.fs.names[Mailbox]) == 0
      then proc.(at := RemoveMailbox)
      else proc.(at := Unlocking)
    case Remove => proc.(at := Unlocking)
    case Unlock => proc.(at := Idle)
    case Crash => proc.(at := Idle, returned := Nothing)
  }

  function StepFiles(cfg: seq<Settings>, s: State, p: nat, a: Action): FileSystem
    requires Enabled(cfg, s, p, a)
  {
    match a
    case Clear => s.fs.Unlink(Temp(p))
    case Open(ino) => s.fs.Create(Temp(p), ino)
    case Link => s.fs.Link(Temp(p), LockFile)
    case Force => s.fs.Unlink(LockFile)
    case Abandon => s.fs.Unlink(Temp(p))
    case Finish => s.fs.Unlink(Temp(p))
    case Append(bytes, spare) =>
      if Mailbox in s.fs.names
      then s.fs.Grow(s.fs.names[Mailbox], bytes)
      else s.fs.Create(Mailbox, spare).Grow(spare, bytes)
    case Collect(bytes) => s.fs.Shrink(s.fs.names[Mailbox], bytes)
    case Remove => s.fs.Unlink(Mailbox)
    case Unlock => s.fs.Unlink(LockFile)
    case _ => s.fs
  }

  function Step(cfg: seq<Settings>, s: State, p: nat, a: Action): State
    requires Enabled(cfg, s, p, a)
  {
    State(StepFiles(cfg, s, p, a), s.procs[p := StepProcess(cfg, s, p, a)],
          if a.Append? then s.delivered + a.bytes else s.delivered,
          if a.Collect? then s.collected + a.bytes else s.collected)
  }

  /** Any directory holding at most a mailbox and a stale lock; nobody is running. */
  ghost predicate Initial(cfg: seq<Settings>, s: State) {
    |s.procs| == |cfg| &&
    (forall p :: 0 <= p < |s.procs| ==> s.procs[p].at.Idle? && s.procs[p].returned.Nothing?) &&
    s.fs.names.Keys <= {Mailbox, LockFile} &&
    (Mailbox in s.fs.names && LockFile in s.fs.names ==> s.fs.names[Mailbox] != s.fs.names[LockFile]) &&
    s.delivered == s.collected + s.fs.MailSize()
  }

  ghost predicate Run(cfg: seq<Settings>, init: State, acts: seq<(nat, Action)>, s: State)
    decreases |acts|
  {
    if acts == [] then s == init
    else
      var (p, a) := acts[|acts| - 1];
      exists mid :: Run(cfg, init, acts[..|acts| - 1], mid) && Enabled(cfg, mid, p, a) && s == Step(cfg, mid, p, a)
  }

  ghost predicate Reachable(cfg: seq<Settings>, s: State) {
    exists init, acts :: Initial(cfg, init) && Run(cfg, init, acts, s)
  }

  // ----- the properties -----

  /** Between dotlock_lock returning OK and the lock file being unlinked. */
  predicate Holds(proc: Process) {
    proc.at.Granted? || proc.at.RemoveMailbox? || proc.at.Unlocking?
  }

  ghost predicate MutualExclusion(s: State) {
    forall p, q :: 0 <= p < |s.procs| && 0 <= q < |s.procs| && Holds(s.procs[p]) && Holds(s.procs[q]) ==> p == q
  }

  ghost predicate NoMailLost(s: State) {
    s.delivered == s.collected + s.fs.MailSize()
  }

  /** No process forces and every retry limit is below the hard limit of the loop. */
  ghost predicate Disciplined(cfg: seq<Settings>) {
    forall p :: 0 <= p < |cfg| ==> !cfg[p].force && cfg[p].retry < HARDMAXATTEMPTS
  }

  // ----- the invariant -----

  ghost predicate FilesOk(fs: FileSystem) {
    (Mailbox in fs.names && LockFile in fs.names ==> fs.names[Mailbox] != fs.names[LockFile]) &&
    (forall p :: Temp(p) in fs.names ==> fs.Size(fs.names[Temp(p)]) == 0) &&
    (forall p :: Temp(p) in fs.names && Mailbox in fs.names ==> fs.names[Temp(p)] != fs.names[Mailbox]) &&
    (forall p, q :: Temp(p) in fs.names && Temp(q) in fs.names && p != q ==> fs.names[Temp(p)] != fs.names[Temp(q)])
  }

  ghost predicate LockedBy(fs: FileSystem, p: nat) {
    Temp(p) in fs.names && LockFile in fs.names && fs.names[LockFile] == fs.names[Temp(p)]
  }

  /** The lock exists and is no process's temporary file. */
  ghost predicate LockedByHolder(fs: FileSystem) {
    LockFile in fs.names && forall q :: Temp(q) in fs.names ==> fs.names[Temp(q)] != fs.names[LockFile]
  }

  ghost predicate ProcessOk(settings: Settings, fs: FileSystem, p: nat, proc: Process) {
    (proc.returned.Ok? || proc.returned.Exist? ==> Temp(p) !in fs.names) &&
    (proc.at.LoopTest? ==> proc.count == proc.hardCount <= settings.retry) &&
    (proc.at.ClearTemp? || proc.at.OpenTemp? ==> proc.count == proc.hardCount == 0) &&
    (proc.at.LinkLock? || proc.at.StatTemp? ==> proc.count + 1 == proc.hardCount && proc.count <= settings.retry) &&
    (proc.at.LoopTest? || proc.at.LinkLock? || proc.at.StatTemp? ==> proc.count > 0 ==> proc.prevSize == 0) &&
    (proc.at.GiveUp? || proc.returned.Exist? ==> proc.hardCount == settings.retry + 1) &&
    !proc.at.ForceUnlink? &&
    (proc.at.Cleanup? ==> LockedBy(fs, p)) &&
    (Holds(proc) ==> proc.returned.Ok? && LockedByHolder(fs)) &&
    (proc.at.Granted? || proc.at.Idle? || proc.at.RemoveMailbox? || proc.at.Unlocking? || proc.returned.Nothing?) &&
    (proc.at.RemoveMailbox? ==> fs.MailSize() == 0)
  }

  ghost predicate Invariant(cfg: seq<Settings>, s: State) {
    |s.procs| == |cfg| && FilesOk(s.fs) && NoMailLost(s) && MutualExclusion(s) &&
    forall p :: 0 <= p < |cfg| ==> ProcessOk(cfg[p], s.fs, p, s.procs[p])
  }

  /** st_nlink is 2 exactly when the lock file is a hard link to this process's temporary file. */
  lemma LinkCountTellsOwner(fs: FileSystem, p: nat)
    requires FilesOk(fs) && Temp(p) in fs.names
    ensures fs.LinkCount(fs.names[Temp(p)]) == 2 <==> LockedBy(fs, p)
  {
    var ino := fs.names[Temp(p)];
    var holders := set name | name in fs.names && fs.names[name] == ino;
    forall name | name in holders
      ensures name == Temp(p) || name == LockFile
    {
      match name
      case Temp(q) =>
      case Mailbox =>
      case LockFile =>
    }
    if LockedBy(fs, p) {
      assert holders == {Temp(p), LockFile};
    } else {
      assert holders == {Temp(p)};
    }
  }

  lemma InitialInvariant(cfg: seq<Settings>, s: State)
    requires Initial(cfg, s)
    ensures Invariant(cfg, s)
  {
  }

  lemma StepKeepsFiles(cfg: seq<Settings>, s: State, p: nat, a: Action)
    requires Disciplined(cfg) && Invariant(cfg, s) && Enabled(cfg, s, p, a)
    ensures FilesOk(Step(cfg, s, p, a).fs) && NoMailLost(Step(cfg, s, p, a))
  {
    assert ProcessOk(cfg[p], s.fs, p, s.procs[p]);
  }

  lemma StepKeepsOwn(cfg: seq<Settings>, s: State, p: nat, a: Action)
    requires Disciplined(cfg) && Invariant(cfg, s) && Enabled(cfg, s, p, a)
    ensures ProcessOk(cfg[p], Step(cfg, s, p, a).fs, p, StepProcess(cfg, s, p, a))
  {
    assert ProcessOk(cfg[p], s.fs, p, s.procs[p]);
    if a.Stat? {
      LinkCountTellsOwner(s.fs, p);
    }
  }

  lemma StepKeepsOther(cfg: seq<Settings>, s: State, p: nat, a: Action, q: nat)
    requires Disciplined(cfg) && Invariant(cfg, s) && Enabled(cfg, s, p, a)
    requires q < |cfg| && q != p
    ensures ProcessOk(cfg[q], Step(cfg, s, p, a).fs, q, s.procs[q])
  {
    assert ProcessOk(cfg[p], s.fs, p, s.procs[p]);
    assert ProcessOk(cfg[q], s.fs, q, s.procs[q]);
  }

  lemma StepKeepsExclusion(cfg: seq<Settings>, s: State, p: nat, a: Action)
    requires Disciplined(cfg) && Invariant(cfg, s) && Enabled(cfg, s, p, a)
    ensures MutualExclusion(Step(cfg, s, p, a))
  {
    if a.Finish? {
      forall q | 0 <= q < |cfg| && q != p
        ensures !Holds(s.procs[q])
      {
        assert ProcessOk(cfg[p], s.fs, p, s.procs[p]);
        assert ProcessOk(cfg[q], s.fs, q, s.procs[q]);
      }
    }
  }

  lemma StepKeepsInvariant(cfg: seq<Settings>, s: State, p: nat, a: Action)
    requires Disciplined(cfg) && Invariant(cfg, s) && Enabled(cfg, s, p, a)
    ensures Invariant(cfg, Step(cfg, s, p, a))
  {
    StepKeepsFiles(cfg, s, p, a);
    StepKeepsOwn(cfg, s, p, a);
    StepKeepsExclusion(cfg, s, p, a);
    forall q | 0 <= q < |cfg| && q != p
      ensures ProcessOk(cfg[q], Step(cfg, s, p, a).fs, q, s.procs[q])
    {
      StepKeepsOther(cfg, s, p, a, q);
    }
  }

  lemma {:induction false} RunInvariant(cfg: seq<Settings>, init: State, acts: seq<(nat, Action)>, s: State)
    requires Disciplined(cfg) && Initial(cfg, init) && Run(cfg, init, acts, s)
    ensures Invariant(cfg, s)
    decreases |acts|
  {
    if acts == [] {
      InitialInvariant(cfg, s);
    } else {
      var (p, a) := acts[|acts| - 1];
      var mid :| Run(cfg, init, acts[..|acts| - 1], mid) && Enabled(cfg, mid, p, a) && s == Step(cfg, mid, p, a);
      RunInvariant(cfg, init, acts[..|acts| - 1], mid);
      StepKeepsInvariant(cfg, mid, p, a);
    }
  }

  /** Safety over whole runs: one holder at a time, every delivered byte is in the mailbox or was taken out by a
      holder, a call that returned OK or EXIST has left no temporary file behind, and EXIST means exactly retry + 1
      failed attempts. */
  lemma DisciplinedIsSafe(cfg: seq<Settings>, s: State)
    requires Disciplined(cfg) && Reachable(cfg, s)
    ensures MutualExclusion(s) && NoMailLost(s) && |s.procs| == |cfg|
    ensures forall p :: 0 <= p < |cfg| && Holds(s.procs[p]) ==> LockFile in s.fs.names
    ensures forall p :: 0 <= p < |cfg| && (s.procs[p].returned.Ok? || s.procs[p].returned.Exist?) ==>
                          Temp(p) !in s.fs.names
    ensures forall p :: 0 <= p < |cfg| && s.procs[p].returned.Exist? ==>
                          s.procs[p].hardCount == cfg[p].retry + 1
  {
    var init, acts :| Initial(cfg, init) && Run(cfg, init, acts, s);
    RunInvariant(cfg, init, acts, s);
    forall p | 0 <= p < |cfg|
      ensures ProcessOk(cfg[p], s.fs, p, s.procs[p])
    {
    }
  }

  /** dotlock_unlink only ever removes a mailbox that is empty at the moment of removal. */
  lemma RemovesOnlyEmptyMailbox(cfg: seq<Settings>, s: State, p: nat)
    requires Disciplined(cfg) && Reachable(cfg, s) && Enabled(cfg, s, p, Remove)
    ensures s.fs.MailSize() == 0
  {
    var init, acts :| Initial(cfg, init) && Run(cfg, init, acts, s);
    RunInvariant(cfg, init, acts, s);
    assert ProcessOk(cfg[p], s.fs, p, s.procs[p]);
  }

  // ----- the converse: one undisciplined process breaks both properties -----

  lemma StepReachable(cfg: seq<Settings>, s: State, p: nat, a: Action)
    requires Reachable(cfg, s) && Enabled(cfg, s, p, a)
    ensures Reachable(cfg, Step(cfg, s, p, a))
  {
    var t := Step(cfg, s, p, a);
    var init, acts :| Initial(cfg, init) && Run(cfg, init, acts, s);
    var longer := acts + [(p, a)];
    assert longer[..|longer| - 1] == acts && longer[|longer| - 1] == (p, a);
    assert Run(cfg, init, acts, s) && Enabled(cfg, s, p, a) && t == Step(cfg, s, p, a);
    assert Run(cfg, init, longer, t);
  }

  lemma Take(cfg: seq<Settings>, s: State, p: nat, a: Action) returns (t: State)
    requires Reachable(cfg, s) && Enabled(cfg, s, p, a)
    ensures Reachable(cfg, t) && |t.procs| == |cfg|
    ensures t.fs == StepFiles(cfg, s, p, a) && t.procs[p] == StepProcess(cfg, s, p, a)
    ensures forall q :: 0 <= q < |cfg| && q != p ==> t.procs[q] == s.procs[q]
    ensures t.delivered == if a.Append? then s.delivered + a.bytes else s.delivered
    ensures t.collected == if a.Collect? then s.collected + a.bytes else s.collected
  {
    t := Step(cfg, s, p, a);
    StepReachable(cfg, s, p, a);
  }

  ghost predicate Untouched(s: State) {
    s.delivered == 0 && s.collected == 0
  }

  /** q holds the lock and has seen an empty mailbox; p has made k failed attempts. */
  ghost predicate Contending(cfg: seq<Settings>, s: State, p: nat, q: nat, k: nat) {
    |s.procs| == |cfg| && p < |cfg| && q < |cfg| && p != q && k <= HARDMAXATTEMPTS && Untouched(s) &&
    s.procs[q].at.RemoveMailbox? && FilesOk(s.fs) &&
    s.fs.names == map[Mailbox := 0, LockFile := 1, Temp(p) := 2] && s.fs.Size(0) == 0 &&
    s.procs[p] == Process(LoopTest, Deliver, k, k, 0, Nothing)
  }

  /** From idle to the top of the retry loop, with a temporary file on a new inode. */
  lemma EnterLoop(cfg: seq<Settings>, s: State, p: nat, goal: Goal, ino: Inode) returns (t: State)
    requires Reachable(cfg, s) && |s.procs| == |cfg| && p < |cfg| && s.procs[p].at.Idle?
    requires Temp(p) !in s.fs.names && ino !in s.fs.names.Values
    ensures Reachable(cfg, t) && |t.procs| == |cfg| && t.delivered == s.delivered && t.collected == s.collected
    ensures t.fs == s.fs.Create(Temp(p), ino) && t.procs[p] == Process(LoopTest, goal, 0, 0, 0, Nothing)
    ensures forall q :: 0 <= q < |cfg| && q != p ==> t.procs[q] == s.procs[q]
  {
    t := Take(cfg, s, p, Begin(goal));
    t := Take(cfg, t, p, Clear);
    assert t.fs.names == s.fs.names;
    t := Take(cfg, t, p, Open(ino));
  }

  /** One round of the loop up to the outcome of stat. */
  lemma Attempt(cfg: seq<Settings>, s: State, p: nat) returns (t: State)
    requires Reachable(cfg, s) && |s.procs| == |cfg| && p < |cfg| && FilesOk(s.fs) && Temp(p) in s.fs.names
    requires s.procs[p].at.LoopTest? && s.procs[p].hardCount < HARDMAXATTEMPTS && s.procs[p].prevSize == 0
    ensures Reachable(cfg, t) && |t.procs| == |cfg| && t.delivered == s.delivered && t.collected == s.collected
    ensures t.fs == s.fs.Link(Temp(p), LockFile)
    ensures var tried := s.procs[p].(hardCount := s.procs[p].hardCount + 1);
            t.procs[p] ==
            if LockedBy(t.fs, p) then tried.(at := Cleanup)
            else tried.(count := tried.count + 1,
                        at := if tried.count + 1 <= cfg[p].retry then LoopTest
                        else if cfg[p].force then ForceUnlink else GiveUp)
    ensures forall q :: 0 <= q < |cfg| && q != p ==> t.procs[q] == s.procs[q]
  {
    t := Take(cfg, s, p, Test);
    t := Take(cfg, t, p, Link);
    LinkCountTellsOwner(t.fs, p);
    t := Take(cfg, t, p, Stat);
  }

  lemma StartEmpty(cfg: seq<Settings>) returns (s: State)
    ensures Reachable(cfg, s) && |s.procs| == |cfg| && Untouched(s)
    ensures s.fs == FileSystem(map[Mailbox := 0], map[])
    ensures forall p :: 0 <= p < |cfg| ==> s.procs[p].at.Idle?
  {
    var idle := Process(Idle, Deliver, 0, 0, 0, Nothing);
    s := State(FileSystem(map[Mailbox := 0], map[]), seq(|cfg|, _ => idle), 0, 0);
    assert Run(cfg, s, [], s);
  }

  lemma ReachHolder(cfg: seq<Settings>, q: nat) returns (s: State)
    requires q < |cfg|
    ensures Reachable(cfg, s) && |s.procs| == |cfg| && Untouched(s)
    ensures s.procs[q].at.Cleanup? && s.procs[q].goal == RemoveIfEmpty
    ensures s.fs.names == map[Mailbox := 0, Temp(q) := 1, LockFile := 1] && s.fs.Size(0) == 0
    ensures forall p :: 0 <= p < |cfg| && p != q ==> s.procs[p].at.Idle?
  {
    var s0 := StartEmpty(cfg);
    var s1 := EnterLoop(cfg, s0, q, RemoveIfEmpty, 1);
    assert s1.fs.names == map[Mailbox := 0, Temp(q) := 1];
    s := Attempt(cfg, s1, q);
  }

  /** A first process takes the lock on an empty mailbox and is about to remove it. */
  lemma ReachRemoving(cfg: seq<Settings>, q: nat) returns (s: State)
    requires q < |cfg|
    ensures Reachable(cfg, s) && |s.procs| == |cfg| && Untouched(s) && s.procs[q].at.RemoveMailbox?
    ensures s.fs.names == map[Mailbox := 0, LockFile := 1] && s.fs.Size(0) == 0
    ensures forall p :: 0 <= p < |cfg| && p != q ==> s.procs[p].at.Idle?
  {
    var s0 := ReachHolder(cfg, q);
    var s1 := Take(cfg, s0, q, Finish);
    assert s1.fs.names == map[Mailbox := 0, LockFile := 1];
    s := Take(cfg, s1, q, Look);
  }

  lemma ReachContending(cfg: seq<Settings>, p: nat, q: nat) returns (s: State)
    requires p < |cfg| && q < |cfg| && p != q
    ensures Reachable(cfg, s) && Contending(cfg, s, p, q, 0)
  {
    s := ReachRemoving(cfg, q);
    s := EnterLoop(cfg, s, p, Deliver, 2);
  }

  ghost predicate DoubleGrant(cfg: seq<Settings>, t: State, p: nat, q: nat)
    requires p < |cfg| && q < |cfg|
  {
    Reachable(cfg, t) && |t.procs| == |cfg| && Untouched(t) && Mailbox in t.fs.names &&
    t.procs[p].at.Granted? && t.procs[p].goal.Deliver? && t.procs[q].at.RemoveMailbox?
  }

  /** After unlinking the lock of q, p either links it again or runs out of rounds. */
  lemma GrantedByForce(cfg: seq<Settings>, s: State, p: nat, q: nat) returns (t: State)
    requires Reachable(cfg, s) && |s.procs| == |cfg| && p < |cfg| && q < |cfg| && p != q && Untouched(s)
    requires s.fs.names == map[Mailbox := 0, LockFile := 1, Temp(p) := 2] && FilesOk(s.fs)
    requires s.procs[q].at.RemoveMailbox? && s.procs[p].at.ForceUnlink? && s.procs[p].goal.Deliver?
    requires s.procs[p].prevSize == 0 && s.procs[p].hardCount <= HARDMAXATTEMPTS
    ensures DoubleGrant(cfg, t, p, q)
  {
    var free := Take(cfg, s, p, Force);
    assert free.fs.names == map[Mailbox := 0, Temp(p) := 2];
    t := GrantedFree(cfg, free, p);
  }

  lemma GrantedFree(cfg: seq<Settings>, s: State, p: nat) returns (t: State)
    requires Reachable(cfg, s) && |s.procs| == |cfg| && p < |cfg| && FilesOk(s.fs)
    requires s.fs.names == map[Mailbox := 0, Temp(p) := 2]
    requires s.procs[p].at.LoopTest? && s.procs[p].prevSize == 0 && s.procs[p].hardCount <= HARDMAXATTEMPTS
    ensures Reachable(cfg, t) && |t.procs| == |cfg| && t.delivered == s.delivered && t.collected == s.collected
    ensures t.procs[p].at.Granted? && t.procs[p].goal == s.procs[p].goal && Mailbox in t.fs.names
    ensures forall q :: 0 <= q < |cfg| && q != p ==> t.procs[q] == s.procs[q]
  {
    if s.procs[p].hardCount < HARDMAXATTEMPTS {
      t := Attempt(cfg, s, p);
    } else {
      t := Take(cfg, s, p, Test);
    }
    t := Take(cfg, t, p, Finish);
  }

  /** p is told OK although q still holds the lock. */
  lemma {:induction false} GrantedTwice(cfg: seq<Settings>, s: State, p: nat, q: nat, k: nat) returns (t: State)
    requires Reachable(cfg, s) && Contending(cfg, s, p, q, k)
    requires cfg[p].force || cfg[p].retry >= HARDMAXATTEMPTS
    ensures DoubleGrant(cfg, t, p, q)
    decreases HARDMAXATTEMPTS - k
  {
    if k == HARDMAXATTEMPTS {
      t := Take(cfg, s, p, Test);
      t := Take(cfg, t, p, Finish);
    } else {
      t := Attempt(cfg, s, p);
      assert t.fs == s.fs;
      if k + 1 <= cfg[p].retry {
        t := GrantedTwice(cfg, t, p, q, k + 1);
      } else {
        t := GrantedByForce(cfg, t, p, q);
      }
    }
  }

  lemma UndisciplinedPair(cfg: seq<Settings>) returns (p: nat, q: nat)
    requires |cfg| >= 2 && !Disciplined(cfg)
    ensures p < |cfg| && q < |cfg| && p != q && (cfg[p].force || cfg[p].retry >= HARDMAXATTEMPTS)
  {
    p :| 0 <= p < |cfg| && (cfg[p].force || cfg[p].retry >= HARDMAXATTEMPTS);
    q := if p == 0 then 1 else 0;
  }

  /** dotlock_lock gives mutual exclusion in every interleaving exactly when nobody passes -f and
      nobody passes -r 10 or more (HARDMAXATTEMPTS falls through to DL_EX_OK). */
  lemma MutualExclusionIff(cfg: seq<Settings>)
    requires |cfg| >= 2
    ensures (forall s :: Reachable(cfg, s) ==> MutualExclusion(s)) <==> Disciplined(cfg)
  {
    if Disciplined(cfg) {
      forall s | Reachable(cfg, s)
        ensures MutualExclusion(s)
      {
        DisciplinedIsSafe(cfg, s);
      }
    } else {
      var p, q := UndisciplinedPair(cfg);
      var s := ReachContending(cfg, p, q);
      var t := GrantedTwice(cfg, s, p, q, 0);
      assert Holds(t.procs[p]) && Holds(t.procs[q]);
    }
  }

  /** The same condition decides whether dotlock_unlink can destroy mail. */
  lemma NoMailLostIff(cfg: seq<Settings>)
    requires |cfg| >= 2
    ensures (forall s :: Reachable(cfg, s) ==> NoMailLost(s)) <==> Disciplined(cfg)
  {
    if Disciplined(cfg) {
      forall s | Reachable(cfg, s)
        ensures NoMailLost(s)
      {
        DisciplinedIsSafe(cfg, s);
      }
    } else {
      var p, q := UndisciplinedPair(cfg);
      var s := ReachContending(cfg, p, q);
      var t := GrantedTwice(cfg, s, p, q, 0);
      t := Take(cfg, t, p, Append(1, 0));
      t := Take(cfg, t, q, Remove);
      assert !NoMailLost(t);
    }
  }
}
