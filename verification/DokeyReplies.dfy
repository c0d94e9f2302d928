/** What km_dokey (keymap.c) answers to operations, macros and keys that are not bound. */
module DokeyReplies {
  import opened Ascii
  import opened Numerals
  import opened Options
  import opened KeySequence
  import opened KeyInput
  import opened Dokey
  import K = Keymap

  /** The table of functions lists the operation. */
  ghost predicate Lists(table: seq<(string, nat)>, op: nat) {
    exists i :: 0 <= i < |table| && table[i].1 == op
  }

  /** The first entry of the table for the operation gives it this name. */
  ghost predicate FirstNames(table: seq<(string, nat)>, op: nat, name: string) {
    exists i :: 0 <= i < |table| && table[i] == (name, op) && forall j :: 0 <= j < i ==> table[j].1 != op
  }

  /** An operation of the menu itself, or of the generic menu unless this is the editor or the pager. */
  ghost predicate Usable(env: Env, menu: Menu, op: nat) {
    Lists(env.functions(menu), op) ||
    (menu != Editor && menu != Pager && Lists(env.functions(Generic), op))
  }

  lemma {:induction false} FindLists(env: Env, table: seq<(string, nat)>, op: nat)
    ensures env.Find(table, op).Some? <==> Lists(table, op)
    ensures env.Find(table, op).Some? ==> FirstNames(table, op, env.Find(table, op).value)
  {
    if table != [] {
      FindLists(env, table[1..], op);
      if table[0].1 == op {
        assert FirstNames(table, op, table[0].0) && Lists(table, op);
      } else {
        FindListsRest(env, table, op);
      }
    }
  }

  lemma FindListsRest(env: Env, table: seq<(string, nat)>, op: nat)
    requires table != [] && table[0].1 != op
    ensures Lists(table, op) <==> Lists(table[1..], op)
    ensures forall name :: FirstNames(table[1..], op, name) ==> FirstNames(table, op, name)
  {
    assert forall i :: 0 < i < |table| ==> table[i] == table[1..][i - 1];
    if Lists(table, op) {
      var i :| 0 <= i < |table| && table[i].1 == op;
      assert table[1..][i - 1].1 == op;
    }
    if Lists(table[1..], op) {
      var i :| 0 <= i < |table[1..]| && table[1..][i].1 == op;
      assert table[i + 1].1 == op;
    }
    forall name | FirstNames(table[1..], op, name)
      ensures FirstNames(table, op, name)
    {
      var i :| 0 <= i < |table[1..]| && table[1..][i] == (name, op) && forall j :: 0 <= j < i ==> table[1..][j].1 != op;
      assert table[i + 1] == (name, op);
      assert forall j :: 0 < j < i + 1 ==> table[j].1 == table[1..][j - 1].1;
    }
  }

  lemma UsableIff(env: Env, menu: Menu, op: nat)
    ensures env.UsableIn(menu, op) <==> Usable(env, menu, op)
  {
    FindLists(env, env.functions(menu), op);
    FindLists(env, env.functions(Generic), op);
  }

  /** The first of these menus that lists the operation names it. */
  ghost predicate Named(env: Env, menus: seq<Menu>, op: nat, name: string) {
    exists m :: 0 <= m < |menus| && FirstNames(env.functions(menus[m]), op, name) &&
                forall k :: 0 <= k < m ==> !Lists(env.functions(menus[k]), op)
  }

  ghost predicate Unnamed(env: Env, menus: seq<Menu>, op: nat) {
    forall m :: 0 <= m < |menus| ==> !Lists(env.functions(menus[m]), op)
  }

  lemma {:induction false} NameOfNames(env: Env, menus: seq<Menu>, op: nat)
    ensures env.NameOf(op, menus).None? <==> Unnamed(env, menus, op)
    ensures env.NameOf(op, menus).Some? ==> Named(env, menus, op, env.NameOf(op, menus).value)
  {
    if menus != [] {
      FindLists(env, env.functions(menus[0]), op);
      NameOfNames(env, menus[1..], op);
      assert forall m :: 0 < m < |menus| ==> menus[m] == menus[1..][m - 1];
      if env.Find(env.functions(menus[0]), op).Some? {
        assert Named(env, menus, op, env.NameOf(op, menus).value);
      } else if env.NameOf(op, menus).Some? {
        NamedLater(env, menus, op, env.NameOf(op, menus).value);
      }
    }
  }

  lemma NamedLater(env: Env, menus: seq<Menu>, op: nat, name: string)
    requires menus != [] && !Lists(env.functions(menus[0]), op) && Named(env, menus[1..], op, name)
    ensures Named(env, menus, op, name)
  {
    var m :| 0 <= m < |menus[1..]| && FirstNames(env.functions(menus[1..][m]), op, name) &&
             forall k :: 0 <= k < m ==> !Lists(env.functions(menus[1..][k]), op);
    assert menus[m + 1] == menus[1..][m];
    forall k | 0 <= k < m + 1
      ensures !Lists(env.functions(menus[k]), op)
    {
      assert k > 0 ==> menus[k] == menus[1..][k - 1];
    }
  }

  // ----- operations -----

  /** A pending operation that the menu can use is the answer, and nothing else is read. */
  lemma UsableOperation(env: Env, tables: Menu -> Bindings, menu: Menu, e: Event, rest: seq<Event>)
    requires env.PlainNames() && tables(menu) != map[] && e.op != 0 && e.ch != -1 && Usable(env, menu, e.op)
    ensures Reply(env, tables, menu, [e] + rest) == (e.op, rest)
  {
    UsableIff(env, menu, e.op);
    assert ([e] + rest)[0] == e && ([e] + rest)[1..] == rest;
  }

  /** Any other operation is read as its name, typed key by key in angle brackets. */
  lemma NamedOperation(env: Env, tables: Menu -> Bindings, menu: Menu, e: Event, name: string, rest: seq<Event>)
    requires env.PlainNames() && tables(menu) != map[] && e.op != 0 && e.ch != -1
    requires !Usable(env, menu, e.op) && Named(env, env.menus, e.op, name)
    ensures Reply(env, tables, menu, [e] + rest) == Reply(env, tables, menu, Plain("<" + name + ">") + rest)
  {
    UsableIff(env, menu, e.op);
    NameOfNames(env, env.menus, e.op);
    NamedOnce(env, env.menus, e.op, name);
    assert ([e] + rest)[0] == e && ([e] + rest)[1..] == rest;
    TypedLiteral(env, name);
  }

  lemma NamedOnce(env: Env, menus: seq<Menu>, op: nat, name: string)
    requires Named(env, menus, op, name)
    ensures env.NameOf(op, menus) == Some(name)
  {
    NameOfNames(env, menus, op);
    var m :| 0 <= m < |menus| && FirstNames(env.functions(menus[m]), op, name) &&
             forall k :: 0 <= k < m ==> !Lists(env.functions(menus[k]), op);
    assert Lists(env.functions(menus[m]), op);
    var other := env.NameOf(op, menus).value;
    var n :| 0 <= n < |menus| && FirstNames(env.functions(menus[n]), op, other) &&
             forall k :: 0 <= k < n ==> !Lists(env.functions(menus[k]), op);
    assert Lists(env.functions(menus[n]), op);
    assert m == n;
  }

  lemma TypedLiteral(env: Env, name: string)
    requires '>' !in name
    ensures env.Literal(name) == Plain("<" + name + ">")
  {
    TokensWithoutBracket(Names(env.Tables()), name);
  }

  /** An operation that no menu lists is read as the key it came with. */
  lemma UnnamedOperation(env: Env, tables: Menu -> Bindings, menu: Menu, e: Event, rest: seq<Event>)
    requires env.PlainNames() && tables(menu) != map[] && e.op != 0 && e.ch != -1
    requires !Usable(env, menu, e.op) && Unnamed(env, env.menus, e.op)
    ensures Reply(env, tables, menu, [e] + rest) == Reply(env, tables, menu, [Event(e.ch, 0)] + rest)
  {
    UsableIff(env, menu, e.op);
    NameOfNames(env, env.menus, e.op);
    assert ([e] + rest)[0] == e && ([e] + rest)[1..] == rest;
    assert ([Event(e.ch, 0)] + rest)[1..] == rest;
  }

  /** A menu without bindings: the editor gives up, the generic menu and the pager drop all input, and any other menu
      leaves it to the generic menu. */
  lemma NoBindings(env: Env, tables: Menu -> Bindings, menu: Menu, pending: seq<Event>)
    requires env.PlainNames() && tables(menu) == map[]
    ensures menu == Editor ==> Reply(env, tables, menu, pending) == (0, pending)
    ensures menu == Generic || menu == Pager ==> Reply(env, tables, menu, pending) == (0, [])
    ensures menu.Other? ==> Reply(env, tables, menu, pending) == Reply(env, tables, Generic, pending)
  {
    assert KeyEvents([]) + [] + pending == pending;
  }

  // ----- the end of the input -----

  lemma {:induction false} ReadOn(env: Env, tables: Menu -> Bindings, menu: Menu, typed: KeySeq, n: nat, keys: KeySeq,
                                  rest: seq<Event>)
    requires env.PlainNames() && n <= MAX_MACROS && PlainKeys(keys)
    requires keys != [] ==> Extends(tables(menu), typed + keys)
    ensures Read(env, tables, menu, typed, n, KeyEvents(keys) + rest) ==
            Read(env, tables, menu, typed + keys, n, rest)
    decreases |keys|
  {
    if keys == [] {
      assert typed + keys == typed && KeyEvents(keys) + rest == rest;
    } else {
      var one := typed + [keys[0]];
      assert one + keys[1..] == typed + keys;
      assert (KeyEvents(keys) + rest)[0] == Event(keys[0], 0);
      assert (KeyEvents(keys) + rest)[1..] == KeyEvents(keys[1..]) + rest;
      var k :| k in tables(menu) && typed + keys < k;
      assert one < k;
      ReadOn(env, tables, menu, one, n, keys[1..], rest);
    }
  }

  /** An error, or the end of the input, within a binding is the answer -1; what follows is left. */
  lemma InputError(env: Env, tables: Menu -> Bindings, menu: Menu, keys: KeySeq, op: nat, rest: seq<Event>)
    requires env.PlainNames() && tables(menu) != map[] && PlainKeys(keys)
    requires keys != [] ==> exists k :: k in tables(menu) && keys < k
    ensures Reply(env, tables, menu, KeyEvents(keys) + ([Event(-1, op)] + rest)) == (-1, rest)
    ensures Reply(env, tables, menu, KeyEvents(keys) + []) == (-1, [])
  {
    assert [] + keys == keys;
    ReadOn(env, tables, menu, [], 0, keys, [Event(-1, op)] + rest);
    ReadOn(env, tables, menu, [], 0, keys, []);
    assert ([Event(-1, op)] + rest)[1..] == rest;
  }

  // ----- keys that are not bound -----

  lemma {:induction false} ReadMismatch(env: Env, tables: Menu -> Bindings, menu: Menu, typed: KeySeq, n: nat,
                                        keys: KeySeq, rest: seq<Event>)
    requires env.PlainNames() && n <= MAX_MACROS && PlainKeys(keys) && keys != []
    requires |keys| > 1 ==> Extends(tables(menu), typed + keys[..|keys| - 1])
    requires !Extends(tables(menu), typed + keys) && typed + keys !in tables(menu)
    ensures menu == Editor ==> Read(env, tables, menu, typed, n, KeyEvents(keys) + rest) == (0, rest)
    ensures menu == Generic || menu == Pager ==> Read(env, tables, menu, typed, n, KeyEvents(keys) + rest) == (0, [])
    decreases |keys|
  {
    var one := typed + [keys[0]];
    assert (KeyEvents(keys) + rest)[0] == Event(keys[0], 0);
    assert (KeyEvents(keys) + rest)[1..] == KeyEvents(keys[1..]) + rest;
    if |keys| == 1 {
      assert one == typed + keys && KeyEvents(keys[1..]) + rest == rest;
      assert Press(env, tables, menu, typed, n, keys[0], rest) == Retry(env, tables, menu, typed, keys[0], rest);
    } else {
      var k :| k in tables(menu) && typed + keys[..|keys| - 1] < k;
      assert one <= typed + keys[..|keys| - 1] < k;
      assert one + keys[1..] == typed + keys;
      assert |keys[1..]| > 1 ==> one + keys[1..][..|keys| - 2] == typed + keys[..|keys| - 1];
      ReadMismatch(env, tables, menu, one, n, keys[1..], rest);
    }
  }

  /** Keys of which the last one leads away from every binding: the editor takes exactly these keys and gives up, the
      generic menu and the pager drop all input. */
  lemma UnboundKeys(env: Env, tables: Menu -> Bindings, menu: Menu, keys: KeySeq, rest: seq<Event>)
    requires env.PlainNames() && tables(menu) != map[] && PlainKeys(keys) && keys != []
    requires |keys| > 1 ==> exists k :: k in tables(menu) && keys[..|keys| - 1] < k
    requires forall k :: k in tables(menu) ==> !(keys <= k)
    ensures menu == Editor ==> Reply(env, tables, menu, KeyEvents(keys) + rest) == (0, rest)
    ensures menu == Generic || menu == Pager ==> Reply(env, tables, menu, KeyEvents(keys) + rest) == (0, [])
  {
    assert [] + keys == keys && [] + keys[..|keys| - 1] == keys[..|keys| - 1];
    ReadMismatch(env, tables, menu, [], 0, keys, rest);
  }

  // ----- macros -----

  lemma OneCharacter(names: Naming, c: char)
    ensures Tokens(names, [c]) == [Event(c as int, 0)]
  {
    assert [c][..0] == [] && Tokens(names, []) == [];
  }

  /** Keys bound to a macro are answered with what follows for the text of the macro, as one macro more. */
  lemma BoundMacro(env: Env, tables: Menu -> Bindings, menu: Menu, keys: KeySeq, rest: seq<Event>)
    requires env.PlainNames() && PrefixFree(tables(menu)) && PlainKeys(keys) && keys != []
    requires keys in tables(menu) && tables(menu)[keys].op == OP_MACRO
    ensures Reply(env, tables, menu, KeyEvents(keys) + rest) ==
            Read(env, tables, menu, [], 1, Tokens(Names(env.Tables()), tables(menu)[keys].macro) + rest)
  {
    assert [] + keys == keys;
    ReadBound(env, tables, menu, [], 0, keys, rest);
  }

  /** Each key but the last is bound to the macro that types the next one; the last is bound to op. */
  ghost predicate Chained(table: Bindings, keys: string, op: int) {
    keys != "" && (forall i :: 0 <= i < |keys| ==> keys[i] as int != 0 && [keys[i] as int] in table) &&
    (forall i :: 0 <= i < |keys| - 1 ==> table[[keys[i] as int]].op == OP_MACRO &&
                                         table[[keys[i] as int]].macro == [keys[i + 1]]) &&
    op != OP_MACRO && table[[keys[|keys| - 1] as int]].op == op
  }

  lemma {:induction false} ReadChain(env: Env, tables: Menu -> Bindings, menu: Menu, keys: string, n: nat, op: int,
                                     rest: seq<Event>)
    requires env.PlainNames() && PrefixFree(tables(menu)) && Chained(tables(menu), keys, op) && n <= MAX_MACROS
    ensures Read(env, tables, menu, [], n, [Event(keys[0] as int, 0)] + rest) ==
            if n + |keys| - 1 <= 10 then (op, rest) else (-1, [])
    decreases |keys|
  {
    var key := [keys[0] as int];
    assert [] + key == key && KeyEvents(key) == [Event(keys[0] as int, 0)];
    ReadBound(env, tables, menu, [], n, key, rest);
    if |keys| > 1 && n < MAX_MACROS {
      assert Chained(tables(menu), keys[1..], op) by {
        assert forall i :: 0 <= i < |keys| - 1 ==> keys[1..][i] == keys[i + 1];
      }
      OneCharacter(Names(env.Tables()), keys[1]);
      ReadChain(env, tables, menu, keys[1..], n + 1, op, rest);
    }
  }

  /** A key that leads through up to ten macros to an operation is answered with the operation; after more, macros are
      taken to loop: the answer is an error, and all input is dropped. */
  lemma MacroChain(env: Env, tables: Menu -> Bindings, menu: Menu, keys: string, op: int, rest: seq<Event>)
    requires env.PlainNames() && PrefixFree(tables(menu)) && Chained(tables(menu), keys, op)
    ensures Reply(env, tables, menu, [Event(keys[0] as int, 0)] + rest) ==
            if |keys| <= 11 then (op, rest) else (-1, [])
  {
    ReadChain(env, tables, menu, keys, 0, op, rest);
  }

  lemma {:induction false} ReadLoop(env: Env, tables: Menu -> Bindings, menu: Menu, key: char, n: nat, rest: seq<Event>)
    requires env.PlainNames() && PrefixFree(tables(menu)) && n <= MAX_MACROS && key as int != 0
    requires [key as int] in tables(menu) && tables(menu)[[key as int]].op == OP_MACRO
    requires tables(menu)[[key as int]].macro == [key]
    ensures Read(env, tables, menu, [], n, [Event(key as int, 0)] + rest) == (-1, [])
    decreases MAX_MACROS - n
  {
    var keys := [key as int];
    assert [] + keys == keys && KeyEvents(keys) == [Event(key as int, 0)];
    ReadBound(env, tables, menu, [], n, keys, rest);
    if n < MAX_MACROS {
      OneCharacter(Names(env.Tables()), key);
      ReadLoop(env, tables, menu, key, n + 1, rest);
    }
  }

  /** A macro that types its own key ends in an error. */
  lemma MacroLoop(env: Env, tables: Menu -> Bindings, menu: Menu, key: char, rest: seq<Event>)
    requires env.PlainNames() && PrefixFree(tables(menu)) && key as int != 0
    requires [key as int] in tables(menu) && tables(menu)[[key as int]].op == OP_MACRO
    requires tables(menu)[[key as int]].macro == [key]
    ensures Reply(env, tables, menu, [Event(key as int, 0)] + rest) == (-1, [])
  {
    ReadLoop(env, tables, menu, key, 0, rest);
  }

  // ----- macros that name an operation -----

  /** Not f and a number from 1 on. */
  predicate NoFunctionKey(name: string) {
    name == "" || LowerChar(name[0]) != 'f' || (exists i :: 0 < i < |name| && !IsDecimal(name[i])) ||
    (AllDecimal(name[1..]) && Reading(name[1..], 0) == 0)
  }

  lemma NotFkey(name: string)
    requires NoFunctionKey(name) && '>' !in name
    ensures FunctionKey("<" + name + ">") <= 0
  {
    var s := "<" + name + ">";
    if name != "" && LowerChar(s[1]) == 'f' {
      if i :| 0 < i < |name| && !IsDecimal(name[i]) {
        assert s[i + 1] == name[i];
        var e := DigitsEnd(s, 2);
        assert e <= i + 1;
        assert s[e] == name[e - 1];
      } else {
        FunctionKeyZero(name);
      }
    }
  }

  lemma FunctionKeyZero(name: string)
    requires name != "" && AllDecimal(name[1..]) && Reading(name[1..], 0) == 0
    ensures FunctionKey("<" + name + ">") <= 0
  {
    var s, e := "<" + name + ">", 1 + |name|;
    assert forall k :: 2 <= k < e ==> s[k] == name[1..][k - 2];
    DigitsToEnd(s, 2, e);
    assert s[2..e] == name[1..];
  }

  /** The functions of the menus called name, in whatever case, all are op, and there is one. */
  ghost predicate OnlyMeans(menus: seq<seq<(string, nat)>>, name: string, op: nat) {
    (forall m, i :: 0 <= m < |menus| && 0 <= i < |menus[m]| && SameLetters(name, menus[m][i].0) ==>
                      menus[m][i].1 == op) &&
    exists m, i :: 0 <= m < |menus| && 0 <= i < |menus[m]| && SameLetters(name, menus[m][i].0)
  }

  lemma {:induction false} OpInIs(table: seq<(string, nat)>, name: string, op: nat)
    requires forall i :: 0 <= i < |table| && SameLetters(name, table[i].0) ==> table[i].1 == op
    ensures OpIn(table, name) == op || OpIn(table, name) == 0
    ensures (exists i :: 0 <= i < |table| && SameLetters(name, table[i].0)) ==> OpIn(table, name) == op
  {
    if table != [] {
      assert forall i :: 0 < i < |table| ==> table[i] == table[1..][i - 1];
      OpInIs(table[1..], name, op);
    }
  }

  lemma {:induction false} OpInMenusIs(menus: seq<seq<(string, nat)>>, name: string, op: nat)
    requires OnlyMeans(menus, name, op) && op != 0
    ensures OpInMenus(menus, name) == op
  {
    var m, i :| 0 <= m < |menus| && 0 <= i < |menus[m]| && SameLetters(name, menus[m][i].0);
    OpInIs(menus[0], name, op);
    if OpIn(menus[0], name) == 0 {
      assert m > 0;
      assert menus[1..][m - 1] == menus[m];
      assert OnlyMeans(menus[1..], name, op) by {
        assert forall k :: 0 < k < |menus| ==> menus[k] == menus[1..][k - 1];
      }
      OpInMenusIs(menus[1..], name, op);
    }
  }

  lemma {:induction false} NoNamedKey(keyNames: seq<(string, int)>, token: string)
    requires forall i :: 0 <= i < |keyNames| ==> !Abbreviates(token, keyNames[i].0)
    ensures NamedKey(keyNames, token) == None
  {
    if keyNames != [] {
      assert forall i :: 0 < i < |keyNames| ==> keyNames[i] == keyNames[1..][i - 1];
      NoNamedKey(keyNames[1..], token);
    }
  }

  lemma {:induction false} OpenBefore(s: string, name: string, i: nat)
    requires '<' !in name && i <= |name|
    ensures OpenBracket(s + ("<" + name + ">"), |s| + i) == |s|
  {
    var text := s + ("<" + name + ">");
    if i == 0 {
      assert text[|s|] == '<';
    } else {
      assert text[|s| + i] == name[i - 1];
      OpenBefore(s, name, i - 1);
    }
  }

  /** A name in angle brackets, whatever is before it, is one token if it means something. */
  lemma NameToken(names: Naming, s: string, name: string)
    requires '<' !in name && '>' !in name && names("<" + name + ">").Some?
    ensures Tokens(names, s + ("<" + name + ">")) == Tokens(names, s) + [names("<" + name + ">").value]
  {
    var token := "<" + name + ">";
    var text := s + token;
    OpenBefore(s, name, |name|);
    assert text[|text| - 1] == '>' && text[|s|..] == token && text[..|s|] == s;
    assert LastToken(names, text) == (names(token).value, |s|);
  }

  lemma {:induction false} PlainBehind(names: Naming, s: string, t: string)
    requires '>' !in t
    ensures Tokens(names, s + t) == Tokens(names, s) + Plain(t)
  {
    if t == "" {
      assert s + t == s;
    } else {
      var front, c := t[..|t| - 1], t[|t| - 1];
      PlainBehind(names, s, front);
      assert (s + t)[..|s + t| - 1] == s + front && Plain(t) == Plain(front) + [Event(c as int, 0)];
      assert LastToken(names, s + t) == (Event(c as int, 0), |s + t| - 1);
      assert Tokens(names, s) + Plain(front) + [Event(c as int, 0)] ==
             Tokens(names, s) + (Plain(front) + [Event(c as int, 0)]);
    }
  }

  lemma UnknownLast(names: Naming, s: string, name: string)
    requires '<' !in name && '>' !in name && names("<" + name + ">").None?
    ensures Tokens(names, s + ("<" + name + ">")) == Tokens(names, s + ("<" + name)) + [Event('>' as int, 0)]
  {
    var text := s + ("<" + name + ">");
    OpenBefore(s, name, |name|);
    assert text[|text| - 1] == '>' && text[|s|..] == "<" + name + ">" && text[..|text| - 1] == s + ("<" + name);
    assert LastToken(names, text) == (Event('>' as int, 0), |text| - 1);
  }

  /** One that means nothing is read character by character. */
  lemma UnknownToken(names: Naming, s: string, name: string)
    requires '<' !in name && '>' !in name && names("<" + name + ">").None?
    ensures Tokens(names, s + ("<" + name + ">")) == Tokens(names, s) + Plain("<" + name + ">")
  {
    var open, last := "<" + name, Event('>' as int, 0);
    UnknownLast(names, s, name);
    PlainBehind(names, s, open);
    assert Plain("<" + name + ">") == Plain(open) + [last];
    assert Tokens(names, s) + Plain(open) + [last] == Tokens(names, s) + (Plain(open) + [last]);
  }

  /** A name in angle brackets, of no key but of an operation, is read as this operation. */
  lemma OperationToken(t: NameTables, s: string, name: string, op: nat)
    requires '<' !in name && '>' !in name && NoFunctionKey(name) && OnlyMeans(t.menus, name, op) && op != 0
    requires forall i :: 0 <= i < |t.keyNames| ==> !Abbreviates("<" + name + ">", t.keyNames[i].0)
    ensures Tokens(Names(t), s + ("<" + name + ">")) == Tokens(Names(t), s) + [Event(0, op)]
  {
    var token := "<" + name + ">";
    NotFkey(name);
    NoNamedKey(t.keyNames, token);
    assert Inner(token) == name;
    OpInMenusIs(t.menus, name, op);
    NameToken(Names(t), s, name);
  }

  lemma {:induction false} NoOp(table: seq<(string, nat)>, name: string)
    requires forall i :: 0 <= i < |table| ==> !SameLetters(name, table[i].0)
    ensures OpIn(table, name) == 0
  {
    if table != [] {
      assert forall i :: 0 < i < |table| ==> table[i] == table[1..][i - 1];
      NoOp(table[1..], name);
    }
  }

  lemma {:induction false} NoOpInMenus(menus: seq<seq<(string, nat)>>, name: string)
    requires forall m, i :: 0 <= m < |menus| && 0 <= i < |menus[m]| ==> !SameLetters(name, menus[m][i].0)
    ensures OpInMenus(menus, name) == 0
  {
    if menus != [] {
      NoOp(menus[0], name);
      assert forall m :: 0 < m < |menus| ==> menus[m] == menus[1..][m - 1];
      NoOpInMenus(menus[1..], name);
    }
  }

  /** The name of no key and of no operation is typed as it stands. */
  lemma MeaninglessToken(t: NameTables, s: string, name: string)
    requires '<' !in name && '>' !in name && NoFunctionKey(name)
    requires forall i :: 0 <= i < |t.keyNames| ==> !Abbreviates("<" + name + ">", t.keyNames[i].0)
    requires forall m, i :: 0 <= m < |t.menus| && 0 <= i < |t.menus[m]| ==> !SameLetters(name, t.menus[m][i].0)
    ensures Tokens(Names(t), s + ("<" + name + ">")) == Tokens(Names(t), s) + Plain("<" + name + ">")
  {
    var token := "<" + name + ">";
    NotFkey(name);
    NoNamedKey(t.keyNames, token);
    assert Inner(token) == name;
    NoOpInMenus(t.menus, name);
    UnknownToken(Names(t), s, name);
  }

  lemma {:induction false} FirstNamedKey(keyNames: seq<(string, int)>, token: string, k: nat)
    requires k < |keyNames| && SameLetters(token, keyNames[k].0)
    requires forall i :: 0 <= i < k ==> !Abbreviates(token, keyNames[i].0)
    ensures NamedKey(keyNames, token) == Some(keyNames[k].1)
  {
    if k == 0 {
      assert keyNames[0].0[..|token|] == keyNames[0].0;
    } else {
      assert forall i :: 0 < i < |keyNames| ==> keyNames[i] == keyNames[1..][i - 1];
      FirstNamedKey(keyNames[1..], token, k - 1);
    }
  }

  /** The name of a key, in any case of letters, is read as the key: the first in the table that it fits. */
  lemma KeyToken(t: NameTables, s: string, name: string, k: nat)
    requires '<' !in name && '>' !in name && NoFunctionKey(name)
    requires k < |t.keyNames| && SameLetters("<" + name + ">", t.keyNames[k].0)
    requires forall i :: 0 <= i < k ==> !Abbreviates("<" + name + ">", t.keyNames[i].0)
    ensures Tokens(Names(t), s + ("<" + name + ">")) == Tokens(Names(t), s) + [Event(t.keyNames[k].1, 0)]
  {
    NotFkey(name);
    FirstNamedKey(t.keyNames, "<" + name + ">", k);
    NameToken(Names(t), s, name);
  }

  lemma {:induction false} DigitsToEnd(s: string, i: nat, e: nat)
    requires i <= e < |s| && !IsDecimal(s[e]) && forall k :: i <= k < e ==> IsDecimal(s[k])
    ensures DigitsEnd(s, i) == e
    decreases e - i
  {
    if i < e {
      DigitsToEnd(s, i + 1, e);
    }
  }

  lemma FunctionKeyName(f: char, n: nat)
    requires n > 0 && (f == 'f' || f == 'F')
    ensures FunctionKey("<" + ([f] + Decimal(n)) + ">") == n
  {
    var token := "<" + ([f] + Decimal(n)) + ">";
    ReadingDecimal(n);
    var e := 2 + |Decimal(n)|;
    assert forall k :: 2 <= k < e ==> token[k] == Decimal(n)[k - 2];
    DigitsToEnd(token, 2, e);
    assert token[2..e] == Decimal(n);
  }

  lemma FunctionKeyMeant(t: NameTables, token: string, n: nat)
    requires FunctionKey(token) == n > 0
    ensures Names(t)(token) == Some(Event(t.keyF0 + n, 0))
  {
  }

  lemma NoBrackets(f: char, n: nat)
    requires f == 'f' || f == 'F'
    ensures '<' !in [f] + Decimal(n) && '>' !in [f] + Decimal(n)
  {
    var name := [f] + Decimal(n);
    ReadingDecimal(n);
    forall k | 0 <= k < |name|
      ensures name[k] != '<' && name[k] != '>'
    {
      assert k > 0 ==> name[k] == Decimal(n)[k - 1];
    }
  }

  /** f, or F, and a number from 1 on in angle brackets is read as that function key. */
  lemma FunctionKeyToken(t: NameTables, s: string, f: char, n: nat)
    requires n > 0 && (f == 'f' || f == 'F')
    ensures Tokens(Names(t), s + ("<" + ([f] + Decimal(n)) + ">")) == Tokens(Names(t), s) + [Event(t.keyF0 + n, 0)]
  {
    var name := [f] + Decimal(n);
    FunctionKeyName(f, n);
    NoBrackets(f, n);
    FunctionKeyMeant(t, "<" + name + ">", n);
    NameToken(Names(t), s, name);
  }

  /** Keys bound to a macro that is the name of an operation the menu can use are answered with the operation. */
  lemma MacroNamesOperation(env: Env, tables: Menu -> Bindings, menu: Menu, keys: KeySeq, name: string, op: nat,
                            rest: seq<Event>)
    requires env.PlainNames() && PrefixFree(tables(menu)) && PlainKeys(keys) && keys != []
    requires keys in tables(menu) && tables(menu)[keys].op == OP_MACRO && tables(menu)[keys].macro == "<" + name + ">"
    requires '<' !in name && '>' !in name && NoFunctionKey(name) && op != 0 && Usable(env, menu, op)
    requires OnlyMeans(env.Tables().menus, name, op)
    requires forall i :: 0 <= i < |env.keyNames| ==> !Abbreviates("<" + name + ">", env.keyNames[i].0)
    ensures Reply(env, tables, menu, KeyEvents(keys) + rest) == (op, rest)
  {
    BoundMacro(env, tables, menu, keys, rest);
    OperationToken(env.Tables(), "", name, op);
    assert "" + ("<" + name + ">") == "<" + name + ">" && Tokens(Names(env.Tables()), "") == [];
    UsableIff(env, menu, op);
    assert ([Event(0, op)] + rest)[0] == Event(0, op) && ([Event(0, op)] + rest)[1..] == rest;
  }
}
