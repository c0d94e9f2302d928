/** From pending input to an operation: km_dokey (keymap.c). */
module Dokey {
  import opened Options
  import opened KeySequence
  import opened KeyInput
  import K = Keymap

  // The specification works on the plain set of bindings of each menu; the method walks the sorted list and its eq
  // counts, and is proved to give the same answer and leave the same input.

  datatype Menu = Editor | Generic | Pager | Other(id: nat)

  const OP_NULL := 0
  const OP_MACRO := 107
  const MAX_MACROS := 10

  type Bindings = map<KeySeq, K.Action>

  /** The static tables: functions(menu) is km_get_table(menu), menus the order of Menus[]. */
  datatype Env = Env(keyF0: int, keyNames: seq<(string, int)>, functions: Menu -> seq<(string, nat)>, menus: seq<Menu>)
  {
    /** What push_string looks names up in. */
    function Tables(): NameTables {
      NameTables(keyF0, keyNames, seq(|menus|, i requires 0 <= i < |menus| => functions(menus[i])))
    }

    /** get_func */
    function Find(table: seq<(string, nat)>, op: nat): Option<string> {
      if table == [] then None
      else if table[0].1 == op then Some(table[0].0)
      else Find(table[1..], op)
    }

    predicate UsableIn(menu: Menu, op: nat) {
      Find(functions(menu), op).Some? || ((menu.Generic? || menu.Other?) && Find(functions(Generic), op).Some?)
    }

    /** The first name any menu gives the operation. */
    function NameOf(op: nat, from: seq<Menu>): Option<string> {
      if from == [] then None
      else if Find(functions(from[0]), op).Some? then Find(functions(from[0]), op)
      else NameOf(op, from[1..])
    }

    ghost predicate PlainNames() {
      forall op :: NameOf(op, menus).Some? ==> '>' !in NameOf(op, menus).value
    }

    /** <name>, fed back so that it is not recognised as one token. */
    function Literal(name: string): seq<Event> {
      [Event('<' as int, 0)] + Tokens(Names(Tables()), name) + [Event('>' as int, 0)]
    }
  }

  function Level(menu: Menu): nat {
    if menu.Other? then 1 else 0
  }

  function Operations(events: seq<Event>): nat {
    if events == [] then 0 else (if events[0].op != 0 then 1 else 0) + Operations(events[1..])
  }

  lemma {:induction false} OperationsAppend(a: seq<Event>, b: seq<Event>)
    ensures Operations(a + b) == Operations(a) + Operations(b)
  {
    if a == [] {
      assert a + b == b;
    } else {
      assert (a + b)[1..] == a[1..] + b;
      OperationsAppend(a[1..], b);
    }
  }

  lemma {:induction false} OperationsPlain(events: seq<Event>)
    requires forall e :: e in events ==> e.op == 0
    ensures Operations(events) == 0
  {
    if events != [] {
      OperationsPlain(events[1..]);
    }
  }

  /** Text fed back for an operation holds no operation, which is why that can not go on for ever. */
  lemma LiteralIsPlain(env: Env, name: string, rest: seq<Event>)
    requires '>' !in name
    ensures Operations(env.Literal(name) + rest) == Operations(rest)
  {
    TokensWithoutBracket(Names(env.Tables()), name);
    OperationsPlain(env.Literal(name));
    OperationsAppend(env.Literal(name), rest);
  }

  // ----- the specification -----

  ghost predicate Extends(t: Bindings, keys: KeySeq) {
    exists k :: k in t && keys < k
  }

  type Answer = (int, seq<Event>)

  /** km_dokey(menu): the operation and the input left. */
  ghost function Reply(env: Env, tables: Menu -> Bindings, menu: Menu, pending: seq<Event>): Answer
    requires env.PlainNames()
    decreases Level(menu), 2
  {
    if tables(menu) == map[] then Retry(env, tables, menu, [], 0, pending)
    else Read(env, tables, menu, [], 0, pending)
  }

  /** After the keys `typed`, which some longer binding starts with, and n macros. */
  ghost function Read(env: Env, tables: Menu -> Bindings, menu: Menu, typed: KeySeq, n: nat, pending: seq<Event>)
    : Answer
    requires env.PlainNames() && n <= MAX_MACROS
    decreases Level(menu), 1, MAX_MACROS - n, Operations(pending), |pending|, 0
  {
    if pending == [] then (-1, [])
    else
      var e, rest := pending[0], pending[1..];
      if e.ch == -1 then (-1, rest)
      else if e.op != 0 && env.UsableIn(menu, e.op) then (e.op, rest)
      else if e.op != 0 && env.NameOf(e.op, env.menus).Some? then
        var name := env.NameOf(e.op, env.menus).value;
        LiteralIsPlain(env, name, rest);
        Read(env, tables, menu, typed, n, env.Literal(name) + rest)
      else Press(env, tables, menu, typed, n, e.ch, rest)
  }

  /** One more key after those typed. */
  ghost function Press(env: Env, tables: Menu -> Bindings, menu: Menu, typed: KeySeq, n: nat, ch: int, rest: seq<Event>)
    : Answer
    requires env.PlainNames() && n <= MAX_MACROS
    decreases Level(menu), 1, MAX_MACROS - n, Operations(rest), |rest|, 1
  {
    var keys := typed + [ch];
    if Extends(tables(menu), keys) then Read(env, tables, menu, keys, n, rest)
    else if keys !in tables(menu) then Retry(env, tables, menu, typed, ch, rest)
    else if tables(menu)[keys].op != OP_MACRO then (tables(menu)[keys].op, rest)
    else if n == MAX_MACROS then (-1, [])
    else Read(env, tables, menu, [], n + 1, Tokens(Names(env.Tables()), tables(menu)[keys].macro) + rest)
  }

  /** retry_generic: give the keys back and ask the generic menu, or give up. */
  ghost function Retry(env: Env, tables: Menu -> Bindings, menu: Menu, typed: KeySeq, last: int, rest: seq<Event>)
    : Answer
    requires env.PlainNames()
    decreases Level(menu), 0
  {
    if menu.Other? then
      Reply(env, tables, Generic, KeyEvents(typed) + (if last != 0 then [Event(last, 0)] else []) + rest)
    else if menu.Editor? then (OP_NULL, rest)
    else (OP_NULL, [])
  }

  // ----- the list walker refines it -----

  datatype Fetched = Done(op: int) | Key(ch: int)

  /** The top of km_dokey's loop: read events until one is an answer or a plain key. */
  method Fetch(env: Env, ghost tables: Menu -> Bindings, input: Input, menu: Menu, ghost typed: KeySeq, ghost n: nat)
    returns (r: Fetched)
    requires env.PlainNames() && input.Valid() && n <= MAX_MACROS
    modifies input, input.keyEvent
    ensures input.Valid() && (input.keyEvent == old(input.keyEvent) || fresh(input.keyEvent))
    ensures Read(env, tables, menu, typed, n, old(input.Pending())) ==
            match r
            case Done(op) => (op, input.Pending())
            case Key(ch) => Press(env, tables, menu, typed, n, ch, input.Pending())
    ensures r.Key? ==> Operations(input.Pending()) < Operations(old(input.Pending())) ||
                       (Operations(input.Pending()) == Operations(old(input.Pending())) &&
                        |input.Pending()| < |old(input.Pending())|)
  {
    ghost var goal := Read(env, tables, menu, typed, n, input.Pending());
    while true
      invariant input.Valid() && (input.keyEvent == old(input.keyEvent) || fresh(input.keyEvent))
      invariant goal == Read(env, tables, menu, typed, n, input.Pending())
      invariant input.Pending() == old(input.Pending()) ||
              Operations(input.Pending()) < Operations(old(input.Pending()))
      decreases Operations(input.Pending())
    {
      var e := input.Getch();
      if e.ch == -1 {
        return Done(-1);
      }
      if e.op != 0 {
        if env.UsableIn(menu, e.op) {
          return Done(e.op);
        }
        var name := env.NameOf(e.op, env.menus);
        if name.Some? {
          LiteralIsPlain(env, name.value, input.Pending());
          UngetLiteral(env, input, name.value);
          continue;
        }
      }
      return Key(e.ch);
    }
  }

  method UngetLiteral(env: Env, input: Input, name: string)
    requires input.Valid()
    modifies input, input.keyEvent
    ensures input.Valid() && (input.keyEvent == old(input.keyEvent) || fresh(input.keyEvent))
    ensures input.Pending() == env.Literal(name) + old(input.Pending())
  {
    input.Ungetch('>' as int, 0);
    input.PushString(env.Tables(), name);
    input.Ungetch('<' as int, 0);
  }

  /** The list denotes the table; no binding has an empty key sequence (parse_keymap rejects them). */
  ghost predicate Represents(list: K.Keymap, table: Bindings)
    reads list, list.nodes
  {
    list.Valid() && table == K.Table(list.nodes) && [] !in table
  }

  datatype Typed = NoMatch | More | Fired(action: K.Action)

  /** One key on the list, and what the table says about the keys typed so far. */
  method TypeKey(list: K.Keymap, ghost table: Bindings, cur: K.Node, pos: nat, ch: int, ghost k: nat)
    returns (r: Typed, at: K.Node, ghost k': nat)
    requires Represents(list, table) && list.At(k) == cur && pos < |cur.keys|
    requires K.FirstWith(list.nodes, cur.keys[..pos], k)
    ensures var keys := cur.keys[..pos] + [ch];
            match r
            case NoMatch => !Extends(table, keys) && keys !in table && pos < |at.keys| &&
                at.keys[..pos] == cur.keys[..pos]
            case More => Extends(table, keys) && list.At(k') == at && pos + 1 < |at.keys| &&
                         at.keys[..pos + 1] == keys && K.FirstWith(list.nodes, keys, k')
            case Fired(action) => !Extends(table, keys) && keys in table && table[keys] == action
  {
    var found;
    ghost var keys := cur.keys[..pos] + [ch];
    at, found, k' := list.Follow(cur, pos, ch, k);
    if !found {
      K.NoneInTable(list.nodes, keys);
      return NoMatch, at, k';
    }
    K.FoundInTable(list.nodes, keys, k');
    assert at.keys[..pos + 1] == keys;
    r := if pos + 1 == |at.keys| then Fired(at.action) else More;
  }

  /** Where the walk stands: at the first entry starting with the pos keys typed, n macros expanded. */
  ghost predicate Standing(list: K.Keymap, cur: K.Node, pos: nat, n: nat, k: nat)
    reads list
  {
    list.At(k) == cur && pos < |cur.keys| && n <= MAX_MACROS && K.FirstWith(list.nodes, cur.keys[..pos], k)
  }

  method KmDokey(env: Env, maps: map<Menu, K.Keymap>, ghost tables: Menu -> Bindings, input: Input, menu: Menu)
    returns (op: int)
    requires env.PlainNames() && input.Valid() && menu in maps && Generic in maps
    requires Represents(maps[menu], tables(menu)) && Represents(maps[Generic], tables(Generic))
    modifies input, input.keyEvent
    ensures input.Valid() && (input.keyEvent == old(input.keyEvent) || fresh(input.keyEvent))
    ensures (op, input.Pending()) == Reply(env, tables, menu, old(input.Pending()))
    decreases Level(menu), 5
  {
    K.EmptyTable(maps[menu].nodes);
    if maps[menu].head == null {
      op := RetryGeneric(env, maps, tables, input, menu, [], 0);
    } else {
      op := Listen(env, maps, tables, input, menu);
    }
  }

  /** What a round has come to: an answer, or whatever reading on will bring. */
  ghost function Outcome(env: Env, tables: Menu -> Bindings, menu: Menu, result: Option<int>, typed: KeySeq, n: nat,
                         pending: seq<Event>): Answer
    requires env.PlainNames() && n <= MAX_MACROS
  {
    match result
    case None => Read(env, tables, menu, typed, n, pending)
    case Some(op) => (op, pending)
  }

  /** km_dokey's loop. */
  method Listen(env: Env, maps: map<Menu, K.Keymap>, ghost tables: Menu -> Bindings, input: Input, menu: Menu)
    returns (op: int)
    requires env.PlainNames() && input.Valid() && menu in maps && Generic in maps
    requires Represents(maps[menu], tables(menu)) && Represents(maps[Generic], tables(Generic))
    requires maps[menu].nodes != []
    modifies input, input.keyEvent
    ensures input.Valid() && (input.keyEvent == old(input.keyEvent) || fresh(input.keyEvent))
    ensures (op, input.Pending()) == Read(env, tables, menu, [], 0, old(input.Pending()))
    decreases Level(menu), 4
  {
    var list := maps[menu];
    var n: nat, result := 0, None;
    var cur, pos, k := Restart(list, tables(menu));
    ghost var goal := Read(env, tables, menu, cur.keys[..pos], n, input.Pending());
    while result.None?
      invariant input.Valid() && (input.keyEvent == old(input.keyEvent) || fresh(input.keyEvent))
      invariant Standing(list, cur, pos, n, k)
      invariant goal == Outcome(env, tables, menu, result, cur.keys[..pos], n, input.Pending())
      decreases result.None?, MAX_MACROS - n, Operations(input.Pending()), |input.Pending()|
    {
      result, cur, pos, n, k := Turn(env, maps, tables, input, menu, cur, pos, n, k);
    }
    op := result.value;
  }

  /** One round of km_dokey's loop. */
  method Turn(env: Env, maps: map<Menu, K.Keymap>, ghost tables: Menu -> Bindings, input: Input, menu: Menu,
              cur: K.Node, pos: nat, n: nat, ghost k: nat)
    returns (result: Option<int>, cur': K.Node, pos': nat, n': nat, ghost k': nat)
    requires env.PlainNames() && input.Valid() && menu in maps && Generic in maps
    requires Represents(maps[menu], tables(menu)) && Represents(maps[Generic], tables(Generic))
    requires Standing(maps[menu], cur, pos, n, k)
    modifies input, input.keyEvent
    ensures input.Valid() && (input.keyEvent == old(input.keyEvent) || fresh(input.keyEvent))
    ensures Standing(maps[menu], cur', pos', n', k')
    ensures Read(env, tables, menu, cur.keys[..pos], n, old(input.Pending())) ==
            Outcome(env, tables, menu, result, cur'.keys[..pos'], n', input.Pending())
    ensures result.None? ==>
              n < n' || (n == n' && (Operations(input.Pending()) < Operations(old(input.Pending())) ||
                                     (Operations(input.Pending()) == Operations(old(input.Pending())) &&
                                      |input.Pending()| < |old(input.Pending())|)))
    decreases Level(menu), 3
  {
    cur', pos', n', k' := cur, pos, n, k;
    var event := Fetch(env, tables, input, menu, cur.keys[..pos], n);
    if event.Done? {
      result := Some(event.op);
    } else {
      result, cur', pos', n', k' := PressKey(env, maps, tables, input, menu, cur, pos, n, event.ch, k);
    }
  }

  /** The rest of the round, for a plain key. */
  method PressKey(env: Env, maps: map<Menu, K.Keymap>, ghost tables: Menu -> Bindings, input: Input, menu: Menu,
                  cur: K.Node, pos: nat, n: nat, ch: int, ghost k: nat)
    returns (result: Option<int>, cur': K.Node, pos': nat, n': nat, ghost k': nat)
    requires env.PlainNames() && input.Valid() && menu in maps && Generic in maps
    requires Represents(maps[menu], tables(menu)) && Represents(maps[Generic], tables(Generic))
    requires Standing(maps[menu], cur, pos, n, k)
    modifies input, input.keyEvent
    ensures input.Valid() && (input.keyEvent == old(input.keyEvent) || fresh(input.keyEvent))
    ensures Standing(maps[menu], cur', pos', n', k')
    ensures Press(env, tables, menu, cur.keys[..pos], n, ch, old(input.Pending())) ==
            match result
            case None => Read(env, tables, menu, cur'.keys[..pos'], n', input.Pending())
            case Some(op) => (op, input.Pending())
    ensures result.None? ==> n < n' || (n == n' && input.Pending() == old(input.Pending()))
    decreases Level(menu), 2
  {
    cur', pos', n', k' := cur, pos, n, k;
    var r, at;
    ghost var k1;
    r, at, k1 := TypeKey(maps[menu], tables(menu), cur, pos, ch, k);
    match r
    case NoMatch =>
      var op := Miss(env, maps, tables, input, menu, at.keys[..pos], n, ch);
      result := Some(op);
    case More =>
      result, cur', pos', k' := None, at, pos + 1, k1;
    case Fired(action) =>
      cur', pos', k' := Restart(maps[menu], tables(menu));
      result := Fire(env, tables, input, menu, cur.keys[..pos], n, ch, action);
      n' := if result.None? then n + 1 else n;
  }

  /** No binding starts with the keys typed. */
  method Miss(env: Env, maps: map<Menu, K.Keymap>, ghost tables: Menu -> Bindings, input: Input, menu: Menu,
              typed: KeySeq, ghost n: nat, ch: int)
    returns (op: int)
    requires env.PlainNames() && input.Valid() && n <= MAX_MACROS
    requires Generic in maps && Represents(maps[Generic], tables(Generic))
    requires !Extends(tables(menu), typed + [ch]) && typed + [ch] !in tables(menu)
    modifies input, input.keyEvent
    ensures input.Valid() && (input.keyEvent == old(input.keyEvent) || fresh(input.keyEvent))
    ensures (op, input.Pending()) == Press(env, tables, menu, typed, n, ch, old(input.Pending()))
    decreases Level(menu), 1
  {
    op := RetryGeneric(env, maps, tables, input, menu, typed, ch);
  }

  /** A complete binding: its operation, or its macro fed back as input. */
  method Fire(env: Env, ghost tables: Menu -> Bindings, input: Input, menu: Menu,
              ghost typed: KeySeq, n: nat, ghost ch: int, action: K.Action)
    returns (result: Option<int>)
    requires env.PlainNames() && input.Valid() && n <= MAX_MACROS
    requires !Extends(tables(menu), typed + [ch])
    requires typed + [ch] in tables(menu) && tables(menu)[typed + [ch]] == action
    modifies input, input.keyEvent
    ensures input.Valid() && (input.keyEvent == old(input.keyEvent) || fresh(input.keyEvent))
    ensures result.None? ==> n < MAX_MACROS
    ensures Press(env, tables, menu, typed, n, ch, old(input.Pending())) ==
            match result
            case None => Read(env, tables, menu, [], n + 1, input.Pending())
            case Some(op) => (op, input.Pending())
  {
    if action.op != OP_MACRO {
      result := Some(action.op);
    } else if n == MAX_MACROS {
      input.Flushinp();
      result := Some(-1);
    } else {
      input.PushString(env.Tables(), action.macro);
      result := None;
    }
  }

  method Restart(list: K.Keymap, ghost table: Bindings) returns (cur: K.Node, pos: nat, ghost k: nat)
    requires Represents(list, table) && list.nodes != []
    ensures pos == 0 && forall n :: 0 <= n <= MAX_MACROS ==> Standing(list, cur, 0, n, k)
  {
    cur, pos, k := list.head, 0, 0;
    K.InTable(list.nodes, 0);
  }

  /** retry_generic. */
  method RetryGeneric(env: Env, maps: map<Menu, K.Keymap>, ghost tables: Menu -> Bindings, input: Input, menu: Menu,
                      typed: KeySeq, last: int)
    returns (op: int)
    requires env.PlainNames() && input.Valid() && Generic in maps && Represents(maps[Generic], tables(Generic))
    modifies input, input.keyEvent
    ensures input.Valid() && (input.keyEvent == old(input.keyEvent) || fresh(input.keyEvent))
    ensures (op, input.Pending()) == Retry(env, tables, menu, typed, last, old(input.Pending()))
    decreases Level(menu), 0
  {
    if menu.Other? {
      if last != 0 {
        input.Ungetch(last, 0);
      }
      input.UngetKeys(typed);
      Regroup(KeyEvents(typed), Event(last, 0), old(input.Pending()));
      assert KeyEvents(typed) + [] == KeyEvents(typed);
      op := KmDokey(env, maps, tables, input, Generic);
    } else if menu.Editor? {
      op := OP_NULL;
    } else {
      input.Flushinp();
      op := OP_NULL;
    }
  }

  // ----- what that means for plain keys -----

  ghost predicate PrefixFree(t: Bindings) {
    forall a, b :: a in t && b in t && a != b ==> !Comparable(a, b)
  }

  lemma TableIsPrefixFree(nodes: seq<K.Node>)
    requires K.SortedNodes(nodes)
    ensures PrefixFree(K.Table(nodes))
  {
    var t := K.Table(nodes);
    forall a, b | a in t && b in t && a != b
      ensures !Comparable(a, b)
    {
      var i := K.FromTable(nodes, a);
      var j := K.FromTable(nodes, b);
      Trichotomy(nodes[i].keys, nodes[j].keys);
    }
  }

  /** Real key presses: no errors (-1) and no NUL. */
  predicate PlainKeys(keys: KeySeq) {
    forall i :: 0 <= i < |keys| ==> keys[i] != 0 && keys[i] != -1
  }

  /** The keys of a bound sequence, from any point inside it, lead to its action. */
  lemma {:induction false} ReadBound(env: Env, tables: Menu -> Bindings, menu: Menu, typed: KeySeq, n: nat,
                                     keys: KeySeq,
                                     rest: seq<Event>)
    requires env.PlainNames() && n <= MAX_MACROS && PlainKeys(keys) && keys != []
    requires PrefixFree(tables(menu)) && typed + keys in tables(menu)
    ensures var action := tables(menu)[typed + keys];
            Read(env, tables, menu, typed, n, KeyEvents(keys) + rest) ==
            if action.op != OP_MACRO then (action.op, rest)
            else if n == MAX_MACROS then (-1, [])
            else Read(env, tables, menu, [], n + 1, Tokens(Names(env.Tables()), action.macro) + rest)
    decreases |keys|
  {
    var one := typed + [keys[0]];
    assert typed + keys == one + keys[1..];
    assert (KeyEvents(keys) + rest)[1..] == KeyEvents(keys[1..]) + rest;
    if keys[1..] == [] {
      assert one == typed + keys;
      assert KeyEvents(keys[1..]) + rest == rest;
      assert !Extends(tables(menu), one);
    } else {
      assert one < typed + keys;
      ReadBound(env, tables, menu, one, n, keys[1..], rest);
    }
  }

  /** Keys that no binding is a prefix of and that start no binding are all given back, in order. */
  lemma {:induction false} ReadUnbound(env: Env, tables: Menu -> Bindings, menu: Menu, typed: KeySeq, n: nat,
                                       keys: KeySeq,
                                       rest: seq<Event>)
    requires env.PlainNames() && n <= MAX_MACROS && PlainKeys(typed + keys) && keys != []
    requires forall k :: k in tables(menu) ==> !Comparable(k, typed + keys)
    requires menu.Other?
    ensures Read(env, tables, menu, typed, n, KeyEvents(keys) + rest) ==
            Reply(env, tables, Generic, KeyEvents(typed + keys) + rest)
    decreases |keys|
  {
    var one := typed + [keys[0]];
    assert typed + keys == one + keys[1..] && (typed + keys)[|typed|] == keys[0];
    if keys[1..] == [] {
      assert one == typed + keys;
      assert !Extends(tables(menu), one);
    }
    if Extends(tables(menu), one) {
      assert (KeyEvents(keys) + rest)[1..] == KeyEvents(keys[1..]) + rest;
      ReadUnbound(env, tables, menu, one, n, keys[1..], rest);
    } else {
      assert one <= typed + keys;
      SplitKeys(typed, keys, rest);
      GivenBack(env, tables, menu, typed, n, keys[0], KeyEvents(keys[1..]) + rest);
    }
  }

  lemma SplitKeys(typed: KeySeq, keys: KeySeq, rest: seq<Event>)
    requires keys != []
    ensures KeyEvents(keys) + rest == [Event(keys[0], 0)] + (KeyEvents(keys[1..]) + rest)
    ensures KeyEvents(typed) + [Event(keys[0], 0)] + (KeyEvents(keys[1..]) + rest) == KeyEvents(typed + keys) + rest
  {
  }

  lemma GivenBack(env: Env, tables: Menu -> Bindings, menu: Menu, typed: KeySeq, n: nat, key: int, rest: seq<Event>)
    requires env.PlainNames() && n <= MAX_MACROS && menu.Other? && key != 0 && key != -1
    requires !Extends(tables(menu), typed + [key]) && typed + [key] !in tables(menu)
    ensures Read(env, tables, menu, typed, n, [Event(key, 0)] + rest) ==
            Reply(env, tables, Generic, KeyEvents(typed) + [Event(key, 0)] + rest)
  {
    assert ([Event(key, 0)] + rest)[1..] == rest;
    assert Press(env, tables, menu, typed, n, key, rest) == Retry(env, tables, menu, typed, key, rest);
  }

  /** Keys that only begin a binding when the input ends are swallowed: the read error is the answer. */
  lemma {:induction false} ReadUnfinished(env: Env, tables: Menu -> Bindings, menu: Menu, typed: KeySeq, n: nat,
                                          keys: KeySeq)
    requires env.PlainNames() && n <= MAX_MACROS && PlainKeys(keys) && Extends(tables(menu), typed + keys)
    ensures Read(env, tables, menu, typed, n, KeyEvents(keys)) == (-1, [])
    decreases |keys|
  {
    if keys != [] {
      var one := typed + [keys[0]];
      assert typed + keys == one + keys[1..];
      assert KeyEvents(keys)[1..] == KeyEvents(keys[1..]);
      var k :| k in tables(menu) && typed + keys < k;
      assert one < k;
      ReadUnfinished(env, tables, menu, one, n, keys[1..]);
    }
  }

  /** The answer on a stream of plain keys: the operation of the unique bound sequence it starts with,
      consuming exactly that sequence. */
  lemma PlainStreamHit(env: Env, tables: Menu -> Bindings, menu: Menu, keys: KeySeq, bound: KeySeq)
    requires env.PlainNames() && PrefixFree(tables(menu)) && PlainKeys(keys)
    requires bound in tables(menu) && bound <= keys && bound != [] && tables(menu)[bound].op != OP_MACRO
    ensures Reply(env, tables, menu, KeyEvents(keys)) == (tables(menu)[bound].op, KeyEvents(keys[|bound|..]))
    ensures forall k :: k in tables(menu) && k <= keys ==> k == bound
  {
    var rest := keys[|bound|..];
    assert [] + bound == bound && KeyEvents(keys) == KeyEvents(bound) + KeyEvents(rest);
    ReadBound(env, tables, menu, [], 0, bound, KeyEvents(rest));
    forall k | k in tables(menu) && k <= keys
      ensures k == bound
    {
      if |k| <= |bound| {
        assert k == bound[..|k|];
      } else {
        assert bound == k[..|bound|];
      }
    }
  }

  /** Otherwise the generic menu answers as if it had been asked first. */
  lemma PlainStreamMiss(env: Env, tables: Menu -> Bindings, menu: Menu, keys: KeySeq)
    requires env.PlainNames() && PlainKeys(keys) && menu.Other? && keys != []
    requires forall k :: k in tables(menu) ==> !Comparable(k, keys)
    ensures Reply(env, tables, menu, KeyEvents(keys)) == Reply(env, tables, Generic, KeyEvents(keys))
  {
    assert [] + keys == keys;
    if tables(menu) == map[] {
      assert KeyEvents([]) + [] + KeyEvents(keys) == KeyEvents(keys);
    } else {
      assert KeyEvents(keys) + [] == KeyEvents(keys);
      ReadUnbound(env, tables, menu, [], 0, keys, []);
    }
  }
}
