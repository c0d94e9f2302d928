/** Message flags and the mailbox counters kept with them (flags.c). */
module Flags {
  import opened Ledger

  datatype Flag = Delete | Appended | Purged | New | Old | Read | Replied | Flagged | Tag

  /** The flag bits of one message. */
  datatype Msg = Msg(deleted: bool, appended: bool, purged: bool, old_: bool, read: bool, replied: bool,
                     flagged: bool, tagged: bool, changed: bool, trash: bool, searched: bool)

  datatype Magic = Imap | Maildir | OtherFormat

  /** Read-only state, folder format and what its access control list permits. */
  datatype Info = Info(readonly: bool, magic: Magic, aclDelete: bool, aclSeen: bool, aclWrite: bool) {
    predicate Allows(flag: Flag) {
      (!readonly || flag.Tag?) &&
      (flag.Delete? ==> aclDelete) &&
      (flag.New? || flag.Old? || flag.Read? ==> aclSeen) &&
      (flag.Replied? || flag.Flagged? ==> aclWrite)
    }
  }

  /** The value a one-bit field takes when the int bf is assigned to it. */
  predicate Bit(bf: int) {
    bf % 2 == 1
  }

  // ----- what a flag change does to a message -----

  /** Setting or clearing a flag that is not already in that state; "new" is set by clearing read and old. */
  predicate Effective(m: Msg, flag: Flag, on: bool) {
    match flag
    case Delete => m.deleted != on
    case Appended => on && !m.appended
    case Purged => m.purged != on
    case New => if on then m.read || m.old_ else !m.read
    case Old => m.old_ != on
    case Read => m.read != on
    case Replied => m.replied != on
    case Flagged => m.flagged != on
    case Tag => m.tagged != on
  }

  /** The message bits after an effective change, before the cached search result is considered. */
  function Marked(info: Info, m: Msg, flag: Flag, bf: int): Msg {
    var on := bf != 0;
    Msg(if flag.Delete? then on else m.deleted,
        if flag.Appended? then true else if flag.Delete? && !on then false else m.appended,
        if flag.Purged? then on else m.purged,
        if flag.Old? then on else if flag.New? && on then false else m.old_,
        if flag.Read? then on else if flag.New? then !on else m.read || (flag.Replied? && on),
        if flag.Replied? then on else m.replied,
        if flag.Flagged? then on && Bit(bf) else m.flagged,
        if flag.Tag? then on else m.tagged,
        m.changed || flag.New? || flag.Old? || flag.Read? || flag.Replied? || flag.Flagged? ||
          (flag.Delete? && info.magic.Imap?),
        m.trash,
        m.searched)
  }

  /** A change of the changed bit or of the deleted, tagged or flagged count drops the cached search result. */
  function Changed(info: Info, m: Msg, flag: Flag, bf: int, upd: bool): Msg {
    if !info.Allows(flag) || !Effective(m, flag, bf != 0) then m
    else
      var m' := Marked(info, m, flag, bf);
      var dropped := m'.changed != m.changed || (upd && (flag.Delete? || flag.Tag? || flag.Flagged?));
      Recall(m', dropped)
  }

  function Recall(m: Msg, dropped: bool): Msg {
    m.(searched := m.searched && !dropped)
  }

  /** The folder has to be written back: an effective change of a flag that is stored, or, in a maildir folder, of a
      message that is stored as trash and is not any more. */
  predicate Dirties(info: Info, m: Msg, flag: Flag, bf: int) {
    Effective(m, flag, bf != 0) &&
    (flag.New? || flag.Old? || flag.Read? || flag.Replied? || flag.Flagged? ||
     (flag.Delete? && (info.magic.Imap? || (info.magic.Maildir? && bf == 0 && m.trash))))
  }

  /** After a change the flag is as asked for, so that asking again changes nothing, unless it was miscounted. */
  lemma ChangeTakes(info: Info, m: Msg, flag: Flag, bf: int, upd: bool)
    requires info.Allows(flag)
    ensures Effective(Changed(info, m, flag, bf, upd), flag, bf != 0) <==> Miscounts(info, m, flag, bf)
  {
  }

  /** bf is an int, the flagged bit is one bit wide: an even, non-zero bf clears it but is counted as setting it. */
  predicate Miscounts(info: Info, m: Msg, flag: Flag, bf: int) {
    info.Allows(flag) && flag.Flagged? && !m.flagged && bf != 0 && !Bit(bf)
  }

  // ----- who may change what -----

  /** The flag is as asked for: new is neither read nor old, not new is read, and appending is never taken back. */
  predicate AsAsked(m: Msg, flag: Flag, on: bool) {
    match flag
    case Delete => m.deleted == on
    case Appended => on ==> m.appended
    case Purged => m.purged == on
    case New => if on then !m.read && !m.old_ else m.read
    case Old => m.old_ == on
    case Read => m.read == on
    case Replied => m.replied == on
    case Flagged => m.flagged == on
    case Tag => m.tagged == on
  }

  /** The bit of the access control list that the change needs, if any, is set. */
  predicate Granted(info: Info, flag: Flag) {
    match flag
    case Delete => info.aclDelete
    case New => info.aclSeen
    case Old => info.aclSeen
    case Read => info.aclSeen
    case Replied => info.aclWrite
    case Flagged => info.aclWrite
    case Appended => true
    case Purged => true
    case Tag => true
  }

  /** The two ways a change ends: nothing, or the bits set and the cached search result perhaps dropped. */
  lemma ChangedIs(info: Info, m: Msg, flag: Flag, bf: int, upd: bool) returns (dropped: bool)
    ensures Changed(info, m, flag, bf, upd) ==
            if info.Allows(flag) && Effective(m, flag, bf != 0) then Recall(Marked(info, m, flag, bf), dropped) else m
    ensures dropped <==>
            Marked(info, m, flag, bf).changed != m.changed || (upd && (flag.Delete? || flag.Tag? || flag.Flagged?))
  {
    dropped := Marked(info, m, flag, bf).changed != m.changed || (upd && (flag.Delete? || flag.Tag? || flag.Flagged?));
  }

  /** Tagging needs no permission, and touches nothing but the tag and the cached search result. */
  lemma TagAlways(info: Info, m: Msg, bf: int, upd: bool)
    ensures var m' := Changed(info, m, Tag, bf, upd);
            m'.tagged == (bf != 0) && m'.searched == (m.searched && !(upd && m.tagged != (bf != 0))) &&
            SameButTag(m, m')
    ensures info.Allows(Tag) && !Miscounts(info, m, Tag, bf)
  {
    TagOnly(info, m, bf);
    var dropped := ChangedIs(info, m, Tag, bf, upd);
    if m.tagged != (bf != 0) {
      RecallKeeps(m, Marked(info, m, Tag, bf), dropped);
    }
  }

  lemma RecallKeeps(m: Msg, m': Msg, dropped: bool)
    ensures var r := Recall(m', dropped); r.tagged == m'.tagged && r.searched == (m'.searched && !dropped)
    ensures SameButTag(m, Recall(m', dropped)) == SameButTag(m, m')
  {
  }

  lemma TagOnly(info: Info, m: Msg, bf: int)
    ensures info.Allows(Tag) && (Effective(m, Tag, bf != 0) <==> m.tagged != (bf != 0))
    ensures var m' := Marked(info, m, Tag, bf);
            m'.tagged == (bf != 0) && m'.searched == m.searched && SameButTag(m, m')
  {
  }

  predicate SameButTag(m: Msg, m': Msg) {
    m'.deleted == m.deleted && m'.appended == m.appended && m'.purged == m.purged && m'.old_ == m.old_ &&
    m'.read == m.read && m'.replied == m.replied && m'.flagged == m.flagged && m'.changed == m.changed &&
    m'.trash == m.trash
  }

  /** In a read-only folder nothing else changes. */
  lemma ReadonlyKeeps(info: Info, m: Msg, flag: Flag, bf: int, upd: bool)
    requires info.readonly && flag != Tag
    ensures Changed(info, m, flag, bf, upd) == m && !Miscounts(info, m, flag, bf)
  {
  }

  /** In any other the flag ends as asked exactly if it was so, or the change is granted; but for the flagged bit,
      which an even value other than zero does not set. */
  lemma WritableTakes(info: Info, m: Msg, flag: Flag, bf: int, upd: bool)
    requires !info.readonly
    ensures AsAsked(Changed(info, m, flag, bf, upd), flag, bf != 0) <==>
            AsAsked(m, flag, bf != 0) || (Granted(info, flag) && !(flag == Flagged && bf != 0 && bf % 2 == 0))
    ensures !Granted(info, flag) || AsAsked(m, flag, bf != 0) ==> Changed(info, m, flag, bf, upd) == m
  {
    var dropped := ChangedIs(info, m, flag, bf, upd);
    MarkedAsAsked(info, m, flag, bf, dropped);
    assert info.Allows(flag) <==> Granted(info, flag);
  }

  lemma MarkedAsAsked(info: Info, m: Msg, flag: Flag, bf: int, dropped: bool)
    ensures AsAsked(m, flag, bf != 0) <==> !Effective(m, flag, bf != 0)
    ensures Effective(m, flag, bf != 0) ==>
              (AsAsked(Recall(Marked(info, m, flag, bf), dropped), flag, bf != 0) <==>
               !(flag == Flagged && bf != 0 && bf % 2 == 0))
  {
  }

  /** No change touches another flag, */
  lemma OthersStay(info: Info, m: Msg, flag: Flag, bf: int, upd: bool)
    ensures var m' := Changed(info, m, flag, bf, upd);
            m'.trash == m.trash && (flag != Delete ==> m'.deleted == m.deleted) &&
            (flag != Purged ==> m'.purged == m.purged) && (flag != Tag ==> m'.tagged == m.tagged) &&
            (flag != Flagged ==> m'.flagged == m.flagged) && (flag != Replied ==> m'.replied == m.replied)
  {
  }

  /** except that marking as new is marking as not old and unread, marking as not new is marking as read, and
      replying marks as read; */
  lemma ReadAndOldStay(info: Info, m: Msg, flag: Flag, bf: int, upd: bool)
    ensures var m' := Changed(info, m, flag, bf, upd);
            (m'.old_ != m.old_ ==> flag == Old || (flag == New && bf != 0)) &&
            (m'.read != m.read ==> flag == Read || flag == New || (flag == Replied && m'.read)) &&
            (flag == Replied && m'.read != m.read ==> m'.replied && !m.replied) &&
            (flag == Replied && m'.replied && !m.replied ==> m'.read)
  {
  }

  /** and that undeleting takes back appending. */
  lemma AppendedStays(info: Info, m: Msg, flag: Flag, bf: int, upd: bool)
    ensures var m' := Changed(info, m, flag, bf, upd);
            if flag == Delete then m'.appended == (m.appended && (m.deleted ==> m'.deleted))
            else flag != Appended ==> m'.appended == m.appended
  {
    var dropped := ChangedIs(info, m, flag, bf, upd);
    if Effective(m, flag, bf != 0) {
      MarkedAppended(info, m, flag, bf, dropped);
    }
  }

  lemma MarkedAppended(info: Info, m: Msg, flag: Flag, bf: int, dropped: bool)
    requires Effective(m, flag, bf != 0)
    ensures var m' := Recall(Marked(info, m, flag, bf), dropped);
            if flag == Delete then m'.appended == (m.appended && (m.deleted ==> m'.deleted))
            else flag != Appended ==> m'.appended == m.appended
  {
  }

  /** A message is marked as changed whenever what the mailbox stores of it has changed, and only for flags that are
      stored, deletion being one in IMAP folders only. */
  predicate MarkedRightly(info: Info, m: Msg, m': Msg, flag: Flag) {
    (m.changed ==> m'.changed) &&
    (m'.old_ != m.old_ || m'.read != m.read || m'.replied != m.replied || m'.flagged != m.flagged ==> m'.changed) &&
    (m'.deleted != m.deleted && info.magic == Imap ==> m'.changed) &&
    (m'.changed && !m.changed ==>
       flag == New || flag == Old || flag == Read || flag == Replied || flag == Flagged ||
       (flag == Delete && info.magic == Imap))
  }

  lemma MarkTells(info: Info, m: Msg, flag: Flag, bf: int, upd: bool)
    ensures MarkedRightly(info, m, Changed(info, m, flag, bf, upd), flag)
  {
    var dropped := ChangedIs(info, m, flag, bf, upd);
    if Effective(m, flag, bf != 0) {
      MarkedTells(info, m, flag, bf, dropped);
    }
  }

  lemma MarkedTells(info: Info, m: Msg, flag: Flag, bf: int, dropped: bool)
    requires Effective(m, flag, bf != 0)
    ensures MarkedRightly(info, m, Recall(Marked(info, m, flag, bf), dropped), flag)
  {
  }

  /** What a change does to the folder as a whole: it has to be written back when what it stores has changed, which in
      IMAP folders includes deletion, and in maildir folders taking a message out of the trash. */
  lemma DirtiesIff(info: Info, m: Msg, flag: Flag, bf: int)
    requires info.Allows(flag)
    ensures var m' := Changed(info, m, flag, bf, true);
            Dirties(info, m, flag, bf) <==>
            m'.old_ != m.old_ || m'.read != m.read || m'.replied != m.replied || m'.flagged != m.flagged ||
            Miscounts(info, m, flag, bf) ||
            (m'.deleted != m.deleted && (info.magic == Imap || (info.magic == Maildir && m.deleted && m.trash)))
  {
    var dropped := ChangedIs(info, m, flag, bf, true);
    if Effective(m, flag, bf != 0) {
      MarkedDirties(info, m, flag, bf, dropped);
    }
  }

  lemma MarkedDirties(info: Info, m: Msg, flag: Flag, bf: int, dropped: bool)
    requires info.Allows(flag) && Effective(m, flag, bf != 0)
    ensures var m' := Recall(Marked(info, m, flag, bf), dropped);
            Dirties(info, m, flag, bf) <==>
            m'.old_ != m.old_ || m'.read != m.read || m'.replied != m.replied || m'.flagged != m.flagged ||
            Miscounts(info, m, flag, bf) ||
            (m'.deleted != m.deleted && (info.magic == Imap || (info.magic == Maildir && m.deleted && m.trash)))
  {
  }

  /** The cached search result stays unless the message comes to be marked as changed, or one of the counters for
      deleted, tagged and flagged messages moves. */
  lemma SearchedIff(info: Info, m: Msg, flag: Flag, bf: int, upd: bool)
    ensures var m' := Changed(info, m, flag, bf, upd);
            m'.searched <==>
            m.searched && m'.changed == m.changed &&
            !(upd && (m'.deleted != m.deleted || m'.tagged != m.tagged || m'.flagged != m.flagged ||
                      Miscounts(info, m, flag, bf)))
  {
    var dropped := ChangedIs(info, m, flag, bf, upd);
    if Effective(m, flag, bf != 0) && info.Allows(flag) {
      MarkedSearched(info, m, flag, bf, upd, dropped);
    }
  }

  lemma MarkedSearched(info: Info, m: Msg, flag: Flag, bf: int, upd: bool, dropped: bool)
    requires info.Allows(flag) && Effective(m, flag, bf != 0)
    requires dropped <==>
             Marked(info, m, flag, bf).changed != m.changed || (upd && (flag.Delete? || flag.Tag? || flag.Flagged?))
    ensures var m' := Recall(Marked(info, m, flag, bf), dropped);
            m'.searched <==>
            m.searched && m'.changed == m.changed &&
            !(upd && (m'.deleted != m.deleted || m'.tagged != m.tagged || m'.flagged != m.flagged ||
                      Miscounts(info, m, flag, bf)))
  {
  }

  // ----- counting -----

  /** What one message contributes to each counter: unread is not read, new is neither read nor old. */
  function Share(m: Msg): Counters {
    Counters(One(m.deleted), One(m.appended), One(m.tagged), One(m.flagged), One(!m.read), One(!m.read && !m.old_))
  }

  datatype Kind = IsDeleted | IsAppended | IsTagged | IsFlagged | IsUnread | IsNew

  predicate Of(kind: Kind, m: Msg) {
    match kind
    case IsDeleted => m.deleted
    case IsAppended => m.appended
    case IsTagged => m.tagged
    case IsFlagged => m.flagged
    case IsUnread => !m.read
    case IsNew => !m.read && !m.old_
  }

  function Is(kind: Kind): Msg -> bool {
    m => Of(kind, m)
  }

  /** How many messages are of this kind. */
  ghost function HowMany(ms: seq<Msg>, kind: Kind): nat {
    Many(ms, Is(kind))
  }

  ghost function Numbers(ms: seq<Msg>): Counters {
    Counters(HowMany(ms, IsDeleted), HowMany(ms, IsAppended), HowMany(ms, IsTagged),
             HowMany(ms, IsFlagged), HowMany(ms, IsUnread), HowMany(ms, IsNew))
  }

  lemma NumbersMore(ms: seq<Msg>)
    ensures ms == [] ==> Numbers(ms) == Zero()
    ensures ms != [] ==> Numbers(ms) == Plus(Numbers(ms[..|ms| - 1]), Share(ms[|ms| - 1]))
  {
    ManyMore(ms, Is(IsDeleted));
    ManyMore(ms, Is(IsAppended));
    ManyMore(ms, Is(IsTagged));
    ManyMore(ms, Is(IsFlagged));
    ManyMore(ms, Is(IsUnread));
    ManyMore(ms, Is(IsNew));
  }

  /** The counts over the messages are what their names say: new messages are those neither read nor old. */
  lemma {:induction false} CensusCounts(ms: seq<Msg>)
    ensures Census(Share, ms) == Numbers(ms)
  {
    NumbersMore(ms);
    if ms != [] {
      CensusCounts(ms[..|ms| - 1]);
    }
  }

  datatype Act = Act(flag: Flag, bf: int)

  /** The context-updating flag changes of one folder. */
  function FlagRules(info: Info): Rules<Msg, Act> {
    Rules(Share, (m: Msg, act: Act) => Changed(info, m, act.flag, act.bf, true),
          (m: Msg, act: Act) => Miscounts(info, m, act.flag, act.bf))
  }

  lemma SlipIff(info: Info, m: Msg, flag: Flag, bf: int)
    ensures FlagRules(info).slip(m, Act(flag, bf)) <==> Miscounts(info, m, flag, bf)
  {
  }

  /** The flagged counter of a folder holding one message goes wrong on flagging it exactly when the change is
      miscounted: an unflagged message that may be flagged, and a value even and not zero, which no caller passes. */
  lemma EvenValueSlips(info: Info, m: Msg, bf: int)
    ensures Miscounts(info, m, Flagged, bf) <==> SlipsAlone(FlagRules(info), m, Act(Flagged, bf))
  {
    SlipUncounted(FlagRules(info), m, Act(Flagged, bf));
    SlipIff(info, m, Flagged, bf);
  }

  /** Callers that flag a message with an odd value, as all do with 1, keep all six counters right over any run. */
  lemma OddValuesKeepCount(info: Info, box: Mailbox<Msg>, rs: seq<Request<Act>>)
    requires Addressed(|box.msgs|, rs) && Counted(Share, box)
    requires forall r :: r in rs && r.what.flag.Flagged? && r.what.bf != 0 ==> Bit(r.what.bf)
    ensures Counted(Share, Run(FlagRules(info), box, rs))
  {
    NeverSlips(FlagRules(info), box, rs);
    CountedIff(FlagRules(info), box, rs);
  }

  predicate Became(info: Info, m: Msg, m': Msg, flag: Flag, bf: int) {
    m' == if Effective(m, flag, bf != 0) then Marked(info, m, flag, bf) else m
  }

  /** Each counter has moved by exactly what the message's contribution has moved by, plus one for flagged when
      the change is miscounted. */
  predicate Moved(before: Counters, after: Counters, m: Msg, m': Msg, miscounted: bool, upd: bool) {
    if upd then
      after.deleted == before.deleted + One(m'.deleted) - One(m.deleted) &&
      after.appended == before.appended + One(m'.appended) - One(m.appended) &&
      after.tagged == before.tagged + One(m'.tagged) - One(m.tagged) &&
      after.flagged == before.flagged + One(m'.flagged) - One(m.flagged) + One(miscounted) &&
      after.unread == before.unread + One(!m'.read) - One(!m.read) &&
      after.new_ == before.new_ + One(!m'.read && !m'.old_) - One(!m.read && !m.old_)
    else after == before
  }

  /** What the changed bit and the counters before and after say about the cached search result. */
  predicate Dropped(before: Counters, after: Counters, m: Msg, m': Msg) {
    m.changed != m'.changed || before.deleted != after.deleted || before.tagged != after.tagged ||
    before.flagged != after.flagged
  }

  /** Comparing the changed bit and three counters tells exactly the changes that drop the cached search result. */
  lemma Settle(info: Info, before: Counters, after: Counters, m: Msg, m': Msg, flag: Flag, bf: int, upd: bool)
    requires info.Allows(flag) && Became(info, m, m', flag, bf)
    requires Moved(before, after, m, m', Miscounts(info, m, flag, bf), upd)
    ensures Recall(m', Dropped(before, after, m, m')) == Changed(info, m, flag, bf, upd)
    ensures Moved(before, after, m, Changed(info, m, flag, bf, upd), Miscounts(info, m, flag, bf), upd)
  {
  }

  lemma MovedIsStep(info: Info, before: Counters, after: Counters, m: Msg, m': Msg, miscounted: bool)
    requires Moved(before, after, m, m', miscounted, true)
    ensures after == Surplus(Plus(before, Minus(Share(m'), Share(m))), One(miscounted))
  {
  }

  // ----- the objects -----

  class Header {
    var deleted: bool
    var appended: bool
    var purged: bool
    var old_: bool
    var read: bool
    var replied: bool
    var flagged: bool
    var tagged: bool
    var changed: bool
    var trash: bool
    var searched: bool

    ghost function Value(): Msg
      reads this
    {
      Msg(deleted, appended, purged, old_, read, replied, flagged, tagged, changed, trash, searched)
    }
  }

  ghost function Values(hs: seq<Header>): (ms: seq<Msg>)
    reads hs
    ensures |ms| == |hs| && forall k :: 0 <= k < |hs| ==> ms[k] == hs[k].Value()
  {
    if hs == [] then [] else Values(hs[..|hs| - 1]) + [hs[|hs| - 1].Value()]
  }

  /** The listed messages that are tagged, in list order. */
  function Picked(ms: seq<Msg>, order: seq<nat>): seq<nat>
    requires Within(order, |ms|)
  {
    if order == [] then []
    else
      var n := |order| - 1;
      Picked(ms, order[..n]) + if ms[order[n]].tagged then [order[n]] else []
  }

  lemma {:induction false} PickedAre(ms: seq<Msg>, order: seq<nat>)
    requires Within(order, |ms|)
    ensures forall k :: k in Picked(ms, order) <==> k in order && ms[k].tagged
    ensures Distinct(order) ==> Distinct(Picked(ms, order))
  {
    if order != [] {
      var n := |order| - 1;
      PickedAre(ms, order[..n]);
      assert order == order[..n] + [order[n]];
      assert Distinct(order) ==> order[n] !in order[..n];
    }
  }

  /** What changing the tagged messages of the view does to each message of the folder. */
  lemma OnlyPickedChange(info: Info, box: Mailbox<Msg>, order: seq<nat>, act: Act, i: nat)
    requires Within(order, |box.msgs|) && Distinct(order) && i < |box.msgs|
    requires Addressed(|box.msgs|, Each(Picked(box.msgs, order), act))
    ensures Run(FlagRules(info), box, Each(Picked(box.msgs, order), act)).msgs[i] ==
            if i in order && box.msgs[i].tagged then Changed(info, box.msgs[i], act.flag, act.bf, true)
            else box.msgs[i]
  {
    PickedAre(box.msgs, order);
    RunEach(FlagRules(info), box, Picked(box.msgs, order), act, i);
  }

  lemma PickNext(ms: seq<Msg>, order: seq<nat>, i: nat)
    requires Within(order, |ms|) && i < |ms|
    ensures Within(order + [i], |ms|)
    ensures Picked(ms, order + [i]) == if ms[i].tagged then Picked(ms, order) + [i] else Picked(ms, order)
  {
    assert (order + [i])[..|order|] == order;
    assert (order + [i])[|order|] == i;
  }

  lemma NextInView(v2r: seq<nat>, j: nat)
    requires Distinct(v2r) && j < |v2r|
    ensures Distinct(v2r[..j]) && v2r[j] !in v2r[..j] && v2r[..j + 1] == v2r[..j] + [v2r[j]]
  {
  }

  lemma OneReplaced(hs: seq<Header>, ms: seq<Msg>, i: nat, v: Msg)
    requires |ms| == |hs| && i < |hs| && hs[i].Value() == v
    requires forall k :: 0 <= k < |hs| && k != i ==> hs[k].Value() == ms[k]
    ensures Values(hs) == ms[i := v]
  {
    var after := Values(hs);
    forall k | 0 <= k < |hs| ensures after[k] == ms[i := v][k] {
    }
  }

  /** What the counters have become is a step of the ledger. */
  lemma StepOf(info: Info, ms: seq<Msg>, before: Counters, after: Counters, i: nat, flag: Flag, bf: int)
    requires i < |ms|
    requires Moved(before, after, ms[i], Changed(info, ms[i], flag, bf, true), Miscounts(info, ms[i], flag, bf), true)
    ensures Mailbox(ms[i := Changed(info, ms[i], flag, bf, true)], after) ==
            Step(FlagRules(info), Mailbox(ms, before), i, Act(flag, bf))
  {
    MovedIsStep(info, before, after, ms[i], Changed(info, ms[i], flag, bf, true), Miscounts(info, ms[i], flag, bf));
  }

  class Context {
    const info: Info
    var hdrs: seq<Header>
    var deleted: int
    var appended: int
    var tagged: int
    var flagged: int
    var unread: int
    var new_: int
    var changed: bool

    ghost function Counts(): Counters
      reads this
    {
      Counters(deleted, appended, tagged, flagged, unread, new_)
    }

    ghost function Box(): Mailbox<Msg>
      reads this, hdrs
    {
      Mailbox(Values(hdrs), Counts())
    }

    method SetDelete(h: Header, bf: int, upd: bool)
      requires !info.readonly
      modifies `deleted, `appended, `changed, h`deleted, h`appended, h`changed
      ensures h.deleted == (bf != 0) && h.appended == (old(h.appended) && !(bf == 0 && old(h.deleted)))
      ensures h.changed == (old(h.changed) || (info.magic.Imap? && old(h.deleted) != (bf != 0)))
      ensures upd ==> deleted == old(deleted) + One(h.deleted) - One(old(h.deleted))
      ensures upd ==> appended == old(appended) + One(h.appended) - One(old(h.appended))
      ensures !upd ==> deleted == old(deleted) && appended == old(appended)
      ensures changed == (old(changed) || (upd && old(h.deleted) != (bf != 0) &&
                                           (info.magic.Imap? || (info.magic.Maildir? && bf == 0 && h.trash))))
    {
      if bf != 0 {
        if !h.deleted && !info.readonly {
          h.deleted := true;
          deleted := deleted + One(upd);
          if info.magic.Imap? {
            h.changed := true;
            changed := changed || upd;
          }
        }
      } else if h.deleted {
        h.deleted := false;
        if upd {
          deleted := deleted - 1;
          if h.appended {
            appended := appended - 1;
          }
        }
        h.appended := false;
        if info.magic.Imap? {
          h.changed := true;
          changed := changed || upd;
        }
        if info.magic.Maildir? && upd && h.trash {
          changed := true;
        }
      }
    }

    method SetAppended(h: Header, bf: int, upd: bool)
      modifies `appended, h`appended
      ensures h.appended == (old(h.appended) || bf != 0)
      ensures appended == old(appended) + if upd then One(h.appended) - One(old(h.appended)) else 0
    {
      if bf != 0 && !h.appended {
        h.appended := true;
        appended := appended + One(upd);
      }
    }

    method SetPurged(h: Header, bf: int, upd: bool)
      modifies h`purged
      ensures h.purged == (bf != 0)
    {
      if bf != 0 {
        if !h.purged {
          h.purged := true;
        }
      } else if h.purged {
        h.purged := false;
      }
    }

    method SetNew(h: Header, bf: int, upd: bool)
      modifies `unread, `new_, `changed, h`read, h`old_, h`changed
      ensures if bf != 0 then !h.read && !h.old_ else h.read && h.old_ == old(h.old_)
      ensures h.changed == (old(h.changed) || h.read != old(h.read) || h.old_ != old(h.old_))
      ensures upd ==> unread == old(unread) + One(!h.read) - One(!old(h.read))
      ensures upd ==> new_ == old(new_) + One(!h.read && !h.old_) - One(!old(h.read) && !old(h.old_))
      ensures !upd ==> unread == old(unread) && new_ == old(new_)
      ensures changed == (old(changed) || (upd && (h.read != old(h.read) || h.old_ != old(h.old_))))
    {
      if bf != 0 {
        if h.read || h.old_ {
          h.old_ := false;
          new_ := new_ + One(upd);
          if h.read {
            h.read := false;
            unread := unread + One(upd);
          }
          h.changed := true;
          changed := changed || upd;
        }
      } else if !h.read {
        new_ := new_ - One(!h.old_ && upd);
        h.read := true;
        unread := unread - One(upd);
        h.changed := true;
        changed := changed || upd;
      }
    }

    method SetOld(h: Header, bf: int, upd: bool)
      modifies `new_, `changed, h`old_, h`changed
      ensures h.old_ == (bf != 0) && h.changed == (old(h.changed) || h.old_ != old(h.old_))
      ensures upd ==> new_ == old(new_) + One(!h.read && !h.old_) - One(!old(h.read) && !old(h.old_))
      ensures !upd ==> new_ == old(new_)
      ensures changed == (old(changed) || (upd && h.old_ != old(h.old_)))
    {
      if bf != 0 {
        if !h.old_ {
          h.old_ := true;
          new_ := new_ - One(!h.read && upd);
          h.changed := true;
          changed := changed || upd;
        }
      } else if h.old_ {
        h.old_ := false;
        new_ := new_ + One(!h.read && upd);
        h.changed := true;
        changed := changed || upd;
      }
    }

    method SetRead(h: Header, bf: int, upd: bool)
      modifies `unread, `new_, `changed, h`read, h`changed
      ensures h.read == (bf != 0) && h.changed == (old(h.changed) || h.read != old(h.read))
      ensures upd ==> unread == old(unread) + One(!h.read) - One(!old(h.read))
      ensures upd ==> new_ == old(new_) + One(!h.read && !h.old_) - One(!old(h.read) && !old(h.old_))
      ensures !upd ==> unread == old(unread) && new_ == old(new_)
      ensures changed == (old(changed) || (upd && h.read != old(h.read)))
    {
      if bf != 0 {
        if !h.read {
          h.read := true;
          unread := unread - One(upd);
          new_ := new_ - One(!h.old_ && upd);
          h.changed := true;
          changed := changed || upd;
        }
      } else if h.read {
        h.read := false;
        unread := unread + One(upd);
        new_ := new_ + One(!h.old_ && upd);
        h.changed := true;
        changed := changed || upd;
      }
    }

    method SetReplied(h: Header, bf: int, upd: bool)
      modifies `unread, `new_, `changed, h`replied, h`read, h`changed
      ensures h.replied == (bf != 0) && h.changed == (old(h.changed) || h.replied != old(h.replied))
      ensures h.read == (old(h.read) || (bf != 0 && !old(h.replied)))
      ensures upd ==> unread == old(unread) + One(!h.read) - One(!old(h.read))
      ensures upd ==> new_ == old(new_) + One(!h.read && !h.old_) - One(!old(h.read) && !old(h.old_))
      ensures !upd ==> unread == old(unread) && new_ == old(new_)
      ensures changed == (old(changed) || (upd && h.replied != old(h.replied)))
    {
      if bf != 0 {
        if !h.replied {
          h.replied := true;
          if !h.read {
            h.read := true;
            unread := unread - One(upd);
            new_ := new_ - One(!h.old_ && upd);
          }
          h.changed := true;
          changed := changed || upd;
        }
      } else if h.replied {
        h.replied := false;
        h.changed := true;
        changed := changed || upd;
      }
    }

    method SetFlagged(h: Header, bf: int, upd: bool)
      modifies `flagged, `changed, h`flagged, h`changed
      ensures h.flagged == if old(h.flagged) then bf != 0 else bf != 0 && Bit(bf)
      ensures h.changed == (old(h.changed) || old(h.flagged) != (bf != 0))
      ensures flagged == old(flagged) + if upd then One(bf != 0) - One(old(h.flagged)) else 0
      ensures changed == (old(changed) || (upd && old(h.flagged) != (bf != 0)))
    {
      if bf != 0 {
        if !h.flagged {
          h.flagged := Bit(bf);
          flagged := flagged + One(upd);
          h.changed := true;
          changed := changed || upd;
        }
      } else if h.flagged {
        h.flagged := false;
        flagged := flagged - One(upd);
        h.changed := true;
        changed := changed || upd;
      }
    }

    method SetTag(h: Header, bf: int, upd: bool)
      modifies `tagged, h`tagged
      ensures h.tagged == (bf != 0)
      ensures tagged == old(tagged) + if upd then One(h.tagged) - One(old(h.tagged)) else 0
    {
      if bf != 0 {
        if !h.tagged {
          h.tagged := true;
          tagged := tagged + One(upd);
        }
      } else if h.tagged {
        h.tagged := false;
        tagged := tagged - One(upd);
      }
    }

    method ApplyDelete(h: Header, bf: int, upd: bool)
      requires !info.readonly
      modifies this, h
      ensures Became(info, old(h.Value()), h.Value(), Delete, bf)
      ensures Moved(old(Counts()), Counts(), old(h.Value()), h.Value(), false, upd)
      ensures hdrs == old(hdrs) && changed == (old(changed) || (upd && Dirties(info, old(h.Value()), Delete, bf)))
    {
      SetDelete(h, bf, upd);
    }

    method ApplyAppended(h: Header, bf: int, upd: bool)
      modifies this, h
      ensures Became(info, old(h.Value()), h.Value(), Appended, bf)
      ensures Moved(old(Counts()), Counts(), old(h.Value()), h.Value(), false, upd)
      ensures hdrs == old(hdrs) && changed == (old(changed) || (upd && Dirties(info, old(h.Value()), Appended, bf)))
    {
      SetAppended(h, bf, upd);
    }

    method ApplyPurged(h: Header, bf: int, upd: bool)
      modifies this, h
      ensures Became(info, old(h.Value()), h.Value(), Purged, bf)
      ensures Moved(old(Counts()), Counts(), old(h.Value()), h.Value(), false, upd)
      ensures hdrs == old(hdrs) && changed == (old(changed) || (upd && Dirties(info, old(h.Value()), Purged, bf)))
    {
      SetPurged(h, bf, upd);
    }

    method ApplyNew(h: Header, bf: int, upd: bool)
      modifies this, h
      ensures Became(info, old(h.Value()), h.Value(), New, bf)
      ensures Moved(old(Counts()), Counts(), old(h.Value()), h.Value(), false, upd)
      ensures hdrs == old(hdrs) && changed == (old(changed) || (upd && Dirties(info, old(h.Value()), New, bf)))
    {
      SetNew(h, bf, upd);
    }

    method ApplyOld(h: Header, bf: int, upd: bool)
      modifies this, h
      ensures Became(info, old(h.Value()), h.Value(), Old, bf)
      ensures Moved(old(Counts()), Counts(), old(h.Value()), h.Value(), false, upd)
      ensures hdrs == old(hdrs) && changed == (old(changed) || (upd && Dirties(info, old(h.Value()), Old, bf)))
    {
      SetOld(h, bf, upd);
    }

    method ApplyRead(h: Header, bf: int, upd: bool)
      modifies this, h
      ensures Became(info, old(h.Value()), h.Value(), Read, bf)
      ensures Moved(old(Counts()), Counts(), old(h.Value()), h.Value(), false, upd)
      ensures hdrs == old(hdrs) && changed == (old(changed) || (upd && Dirties(info, old(h.Value()), Read, bf)))
    {
      SetRead(h, bf, upd);
    }

    method ApplyReplied(h: Header, bf: int, upd: bool)
      modifies this, h
      ensures Became(info, old(h.Value()), h.Value(), Replied, bf)
      ensures Moved(old(Counts()), Counts(), old(h.Value()), h.Value(), false, upd)
      ensures hdrs == old(hdrs) && changed == (old(changed) || (upd && Dirties(info, old(h.Value()), Replied, bf)))
    {
      assert Effective(h.Value(), Replied, bf != 0) <==> h.replied != (bf != 0);
      SetReplied(h, bf, upd);
    }

    method ApplyFlagged(h: Header, bf: int, upd: bool)
      modifies this, h
      ensures Became(info, old(h.Value()), h.Value(), Flagged, bf)
      ensures Moved(old(Counts()), Counts(), old(h.Value()), h.Value(), !old(h.flagged) && bf != 0 && !Bit(bf), upd)
      ensures hdrs == old(hdrs) && changed == (old(changed) || (upd && Dirties(info, old(h.Value()), Flagged, bf)))
    {
      SetFlagged(h, bf, upd);
    }

    method ApplyTag(h: Header, bf: int, upd: bool)
      modifies this, h
      ensures Became(info, old(h.Value()), h.Value(), Tag, bf)
      ensures Moved(old(Counts()), Counts(), old(h.Value()), h.Value(), false, upd)
      ensures hdrs == old(hdrs) && changed == (old(changed) || (upd && Dirties(info, old(h.Value()), Tag, bf)))
    {
      SetTag(h, bf, upd);
    }

    /** The switch of _mutt_set_flag. */
    method Apply(h: Header, flag: Flag, bf: int, upd: bool)
      requires info.Allows(flag)
      modifies this, h
      ensures Became(info, old(h.Value()), h.Value(), flag, bf)
      ensures Moved(old(Counts()), Counts(), old(h.Value()), h.Value(), Miscounts(info, old(h.Value()), flag, bf), upd)
      ensures hdrs == old(hdrs) && changed == (old(changed) || (upd && Dirties(info, old(h.Value()), flag, bf)))
    {
      match flag {
        case Delete => ApplyDelete(h, bf, upd);
        case Appended => ApplyAppended(h, bf, upd);
        case Purged => ApplyPurged(h, bf, upd);
        case New => ApplyNew(h, bf, upd);
        case Old => ApplyOld(h, bf, upd);
        case Read => ApplyRead(h, bf, upd);
        case Replied => ApplyReplied(h, bf, upd);
        case Flagged => ApplyFlagged(h, bf, upd);
        case Tag => ApplyTag(h, bf, upd);
      }
    }

    /** The cached search result is dropped when what it depends on has changed. */
    method DropSearch(h: Header, changed0: bool, deleted0: int, tagged0: int, flagged0: int)
      modifies h`searched
      ensures h.Value() == Recall(old(h.Value()),
                                  changed0 != h.changed || deleted0 != deleted || tagged0 != tagged ||
                                      flagged0 != flagged)
    {
      if h.searched && (changed0 != h.changed || deleted0 != deleted || tagged0 != tagged || flagged0 != flagged) {
        h.searched := false;
      }
    }

    method ApplyAllowed(h: Header, flag: Flag, bf: int, upd: bool)
      requires info.Allows(flag)
      modifies this, h
      ensures h.Value() == Changed(info, old(h.Value()), flag, bf, upd)
      ensures Moved(old(Counts()), Counts(), old(h.Value()), h.Value(), Miscounts(info, old(h.Value()), flag, bf), upd)
      ensures hdrs == old(hdrs) && changed == (old(changed) || (upd && Dirties(info, old(h.Value()), flag, bf)))
    {
      ghost var m, before := h.Value(), Counts();
      var changed0, deleted0, tagged0, flagged0 := h.changed, deleted, tagged, flagged;
      Apply(h, flag, bf, upd);
      Settle(info, before, Counts(), m, h.Value(), flag, bf, upd);
      DropSearch(h, changed0, deleted0, tagged0, flagged0);
    }

    lemma UpdateRights(m: Msg, flag: Flag, bf: int, upd: bool)
      ensures flag == Tag ==> Changed(info, m, flag, bf, upd).tagged == (bf != 0) && info.Allows(flag)
      ensures info.readonly && flag != Tag ==> Changed(info, m, flag, bf, upd) == m && !info.Allows(flag)
      ensures !info.readonly ==>
                (AsAsked(Changed(info, m, flag, bf, upd), flag, bf != 0) <==>
                 AsAsked(m, flag, bf != 0) ||
                 (Granted(info, flag) && !(flag == Flagged && bf != 0 && bf % 2 == 0)))
    {
      TagAlways(info, m, bf, upd);
      if info.readonly && flag != Tag {
        ReadonlyKeeps(info, m, flag, bf, upd);
      }
      if !info.readonly {
        WritableTakes(info, m, flag, bf, upd);
      }
    }

    /** _mutt_set_flag: a readonly folder or a missing permission leaves everything as it was. */
    method Update(h: Header, flag: Flag, bf: int, upd: bool)
      modifies this, h
      ensures h.Value() == Changed(info, old(h.Value()), flag, bf, upd)
      ensures Moved(old(Counts()), Counts(), old(h.Value()), h.Value(), Miscounts(info, old(h.Value()), flag, bf), upd)
      ensures hdrs == old(hdrs)
      ensures changed == (old(changed) || (upd && info.Allows(flag) && Dirties(info, old(h.Value()), flag, bf)))
      ensures flag == Tag ==> h.tagged == (bf != 0) && changed == old(changed)
      ensures flag == Tag ==> tagged == old(tagged) + if upd then One(bf != 0) - One(old(h.tagged)) else 0
      ensures info.readonly && flag != Tag ==>
                h.Value() == old(h.Value()) && Counts() == old(Counts()) && changed == old(changed)
      ensures !info.readonly ==>
                (AsAsked(h.Value(), flag, bf != 0) <==>
                 AsAsked(old(h.Value()), flag, bf != 0) ||
                 (Granted(info, flag) && !(flag == Flagged && bf != 0 && bf % 2 == 0)))
    {
      UpdateRights(h.Value(), flag, bf, upd);
      if info.Allows(flag) {
        ApplyAllowed(h, flag, bf, upd);
      }
    }

    /** mutt_set_flag: one counted change of a message of the folder. */
    method SetFlag(h: Header, flag: Flag, bf: int, ghost i: nat)
      requires i < |hdrs| && hdrs[i] == h && Distinct(hdrs)
      modifies this, h
      ensures hdrs == old(hdrs) && Box() == Step(FlagRules(info), old(Box()), i, Act(flag, bf))
    {
      ghost var m, before, ms := h.Value(), Counts(), Values(hdrs);
      Update(h, flag, bf, true);
      OneReplaced(hdrs, ms, i, h.Value());
      StepOf(info, ms, before, Counts(), i, flag, bf);
    }

    /** The folder is what the same change of each listed message has made of the given one. */
    ghost predicate Reached(box: Mailbox<Msg>, order: seq<nat>, act: Act)
      reads this, hdrs
    {
      |box.msgs| == |hdrs| && Addressed(|box.msgs|, Each(order, act)) &&
      Box() == Run(FlagRules(info), box, Each(order, act))
    }

    /** One more message of a run of the same change. */
    method SetNext(h: Header, flag: Flag, bf: int, ghost i: nat, ghost box: Mailbox<Msg>, ghost order: seq<nat>)
      requires Distinct(hdrs) && i < |hdrs| && hdrs[i] == h && Distinct(order) && i !in order
      requires Reached(box, order, Act(flag, bf))
      modifies this, h
      ensures hdrs == old(hdrs) && Reached(box, order + [i], Act(flag, bf))
    {
      ExtendRun(FlagRules(info), box, order, Act(flag, bf), i);
      SetFlag(h, flag, bf, i);
    }

    lemma StillTagged(i: nat, act: Act, box: Mailbox<Msg>, order: seq<nat>)
      requires Distinct(order) && i < |hdrs| && i !in order && Reached(box, order, act)
      ensures hdrs[i].tagged == box.msgs[i].tagged
    {
      ExtendRun(FlagRules(info), box, order, act, i);
      assert Box().msgs[i] == hdrs[i].Value();
    }

    method SetIfTagged(i: nat, flag: Flag, bf: int, ghost box: Mailbox<Msg>, ghost seen: seq<nat>)
      requires Distinct(hdrs) && i < |hdrs| && Distinct(seen) && Within(seen, |box.msgs|) && i !in seen
      requires Reached(box, Picked(box.msgs, seen), Act(flag, bf))
      modifies this, hdrs[i]
      ensures hdrs == old(hdrs) && Within(seen + [i], |box.msgs|)
      ensures Reached(box, Picked(box.msgs, seen + [i]), Act(flag, bf))
    {
      PickedAre(box.msgs, seen);
      PickNext(box.msgs, seen, i);
      StillTagged(i, Act(flag, bf), box, Picked(box.msgs, seen));
      if hdrs[i].tagged {
        SetNext(hdrs[i], flag, bf, i, box, Picked(box.msgs, seen));
      }
    }

    /** mutt_tag_set_flag: the tagged messages of the view, each once. */
    method TagSetFlag(v2r: seq<nat>, flag: Flag, bf: int)
      requires Distinct(hdrs) && Distinct(v2r) && Within(v2r, |hdrs|)
      modifies this, hdrs
      ensures hdrs == old(hdrs) && Reached(old(Box()), Picked(old(Values(hdrs)), v2r), Act(flag, bf))
    {
      ghost var box := Box();
      assert v2r[..0] == [];
      for j := 0 to |v2r|
        invariant hdrs == old(hdrs) && Within(v2r[..j], |box.msgs|)
        invariant Reached(box, Picked(box.msgs, v2r[..j]), Act(flag, bf))
      {
        NextInView(v2r, j);
        SetIfTagged(v2r[j], flag, bf, box, v2r[..j]);
      }
      assert v2r[..|v2r|] == v2r;
    }
  }
}
