/** The push-back stack of input events (curs_lib.c), and the texts that push_string (keymap.c) makes events of. */
module KeyInput {
  import opened Ascii
  import opened Numerals
  import opened Options

  /** A key (op 0) or an already resolved operation. */
  datatype Event = Event(ch: int, op: nat)

  const NO_INPUT := Event(-1, 0)

  function KeyEvents(keys: seq<int>): (r: seq<Event>)
    ensures |r| == |keys|
  {
    seq(|keys|, i requires 0 <= i < |keys| => Event(keys[i], 0))
  }

  // ----- what <...> stands for -----

  /** KEY_F (0), KeyNames[], and the table of functions of each menu in the order of Menus[]. */
  datatype NameTables = NameTables(keyF0: int, keyNames: seq<(string, int)>, menus: seq<seq<(string, nat)>>)

  predicate SameLetters(a: string, b: string) {
    |a| == |b| && forall i :: 0 <= i < |a| ==> LowerChar(a[i]) == LowerChar(b[i])
  }

  /** ascii_strncasecmp (token, name, strlen (token)) == 0 */
  predicate Abbreviates(token: string, name: string) {
    |token| <= |name| && SameLetters(token, name[..|token|])
  }

  function DigitsEnd(s: string, i: nat): (e: nat)
    requires i <= |s|
    ensures i <= e <= |s| && (e < |s| ==> !IsDecimal(s[e])) && forall j :: i <= j < e ==> IsDecimal(s[j])
    decreases |s| - i
  {
    if i < |s| && IsDecimal(s[i]) then DigitsEnd(s, i + 1) else i
  }

  /** The number of the function key that <fN> stands for, or -1. */
  function FunctionKey(s: string): int {
    if |s| < 2 || s[0] != '<' || LowerChar(s[1]) != 'f' then -1
    else
      var e := DigitsEnd(s, 2);
      if e < |s| && s[e] == '>' then Reading(s[2..e], 0) else -1
  }

  function NamedKey(keyNames: seq<(string, int)>, token: string): Option<int> {
    if keyNames == [] then None
    else if Abbreviates(token, keyNames[0].0) then Some(keyNames[0].1)
    else NamedKey(keyNames[1..], token)
  }

  /** The operation of the first function with this name, 0 (OP_NULL) if there is none. */
  function OpIn(table: seq<(string, nat)>, name: string): nat {
    if table == [] then 0 else if SameLetters(name, table[0].0) then table[0].1 else OpIn(table[1..], name)
  }

  /** The first menu that has the function decides. */
  function OpInMenus(menus: seq<seq<(string, nat)>>, name: string): nat {
    if menus == [] then 0 else if OpIn(menus[0], name) != 0 then OpIn(menus[0], name) else OpInMenus(menus[1..], name)
  }

  function Inner(token: string): string {
    if |token| < 2 then "" else token[1..|token| - 1]
  }

  type Naming = string -> Option<Event>

  /** A function key comes first, then a named key, then a function of some menu. */
  function Meaning(t: NameTables, token: string): Option<Event> {
    if FunctionKey(token) > 0 then Some(Event(t.keyF0 + FunctionKey(token), 0))
    else if NamedKey(t.keyNames, token).Some? then Some(Event(NamedKey(t.keyNames, token).value, 0))
    else if OpInMenus(t.menus, Inner(token)) != 0 then Some(Event(0, OpInMenus(t.menus, Inner(token))))
    else None
  }

  function Names(t: NameTables): Naming {
    token => Meaning(t, token)
  }

  /** Letters aside, characters that are the same but for case are the same. */
  lemma SameUnlessLetter(a: string, b: string, i: nat)
    requires SameLetters(a, b) && i < |a|
    ensures IsDecimal(a[i]) || a[i] == '<' || a[i] == '>' ==> b[i] == a[i]
  {
  }

  lemma {:induction false} SameDigits(a: string, b: string, i: nat)
    requires SameLetters(a, b) && i <= |a|
    ensures DigitsEnd(a, i) == DigitsEnd(b, i) && a[i..DigitsEnd(a, i)] == b[i..DigitsEnd(b, i)]
    decreases |a| - i
  {
    if i < |a| {
      SameUnlessLetter(a, b, i);
      SameUnlessLetter(b, a, i);
      if IsDecimal(a[i]) {
        SameDigits(a, b, i + 1);
        var e := DigitsEnd(a, i);
        assert a[i..e] == [a[i]] + a[i + 1..e] && b[i..e] == [b[i]] + b[i + 1..e];
      }
    }
  }

  lemma FunctionKeyIgnoresCase(a: string, b: string)
    requires SameLetters(a, b)
    ensures FunctionKey(a) == FunctionKey(b)
  {
    if |a| >= 2 {
      SameUnlessLetter(a, b, 0);
      SameUnlessLetter(b, a, 0);
      SameDigits(a, b, 2);
      var e := DigitsEnd(a, 2);
      if e < |a| {
        SameUnlessLetter(a, b, e);
        SameUnlessLetter(b, a, e);
      }
    }
  }

  lemma {:induction false} NamedKeyIgnoresCase(keyNames: seq<(string, int)>, a: string, b: string)
    requires SameLetters(a, b)
    ensures NamedKey(keyNames, a) == NamedKey(keyNames, b)
  {
    if keyNames != [] {
      NamedKeyIgnoresCase(keyNames[1..], a, b);
    }
  }

  lemma {:induction false} OpInIgnoresCase(table: seq<(string, nat)>, a: string, b: string)
    requires SameLetters(a, b)
    ensures OpIn(table, a) == OpIn(table, b)
  {
    if table != [] {
      OpInIgnoresCase(table[1..], a, b);
    }
  }

  lemma {:induction false} OpInMenusIgnoresCase(menus: seq<seq<(string, nat)>>, a: string, b: string)
    requires SameLetters(a, b)
    ensures OpInMenus(menus, a) == OpInMenus(menus, b)
  {
    if menus != [] {
      OpInIgnoresCase(menus[0], a, b);
      OpInMenusIgnoresCase(menus[1..], a, b);
    }
  }

  lemma InnerIgnoresCase(a: string, b: string)
    requires SameLetters(a, b)
    ensures SameLetters(Inner(a), Inner(b))
  {
    forall i | 0 <= i < |Inner(a)|
      ensures LowerChar(Inner(a)[i]) == LowerChar(Inner(b)[i])
    {
      assert Inner(a)[i] == a[i + 1] && Inner(b)[i] == b[i + 1];
    }
  }

  /** What is written in angle brackets may be written in any case. */
  lemma MeaningIgnoresCase(t: NameTables, a: string, b: string)
    requires SameLetters(a, b)
    ensures Meaning(t, a) == Meaning(t, b)
  {
    FunctionKeyIgnoresCase(a, b);
    NamedKeyIgnoresCase(t.keyNames, a, b);
    InnerIgnoresCase(a, b);
    OpInMenusIgnoresCase(t.menus, Inner(a), Inner(b));
  }

  /** parse_fkey. */
  method ParseFkey(s: string) returns (n: int)
    ensures n == FunctionKey(s)
  {
    if |s| < 2 || s[0] != '<' || LowerChar(s[1]) != 'f' {
      return -1;
    }
    n := 0;
    var i := 2;
    while i < |s| && IsDecimal(s[i])
      invariant 2 <= i <= DigitsEnd(s, 2) == DigitsEnd(s, i) && n == Reading(s[2..i], 0)
    {
      assert s[2..i + 1] == s[2..i] + [s[i]];
      ReadingMore(s[2..i], s[i], 0);
      n := n * 10 + (s[i] - '0') as int;
      i := i + 1;
    }
    if i == |s| || s[i] != '>' {
      n := -1;
    }
  }

  /** The search in KeyNames[]. */
  method FindKeyName(keyNames: seq<(string, int)>, token: string) returns (key: Option<int>)
    ensures key == NamedKey(keyNames, token)
  {
    var i := 0;
    while i < |keyNames|
      invariant 0 <= i <= |keyNames| && NamedKey(keyNames, token) == NamedKey(keyNames[i..], token)
    {
      if Abbreviates(token, keyNames[i].0) {
        return Some(keyNames[i].1);
      }
      assert keyNames[i..][1..] == keyNames[i + 1..];
      i := i + 1;
    }
    key := None;
  }

  /** get_op. */
  method GetOp(table: seq<(string, nat)>, name: string) returns (op: nat)
    ensures op == OpIn(table, name)
  {
    var i := 0;
    while i < |table|
      invariant 0 <= i <= |table| && OpIn(table, name) == OpIn(table[i..], name)
    {
      if SameLetters(name, table[i].0) {
        return table[i].1;
      }
      assert table[i..][1..] == table[i + 1..];
      i := i + 1;
    }
    op := 0;
  }

  method FindFunction(menus: seq<seq<(string, nat)>>, name: string) returns (op: nat)
    ensures op == OpInMenus(menus, name)
  {
    var i := 0;
    op := 0;
    while i < |menus| && op == 0
      invariant 0 <= i <= |menus|
      invariant OpInMenus(menus, name) == if op != 0 then op else OpInMenus(menus[i..], name)
      decreases |menus| - i
    {
      assert menus[i..][1..] == menus[i + 1..];
      op := GetOp(menus[i], name);
      i := i + 1;
    }
  }

  /** What push_string makes of a token in angle brackets. */
  method LookUp(t: NameTables, token: string) returns (e: Option<Event>)
    ensures e == Meaning(t, token)
  {
    var n := ParseFkey(token);
    if n > 0 {
      return Some(Event(t.keyF0 + n, 0));
    }
    var key := FindKeyName(t.keyNames, token);
    if key.Some? {
      return Some(Event(key.value, 0));
    }
    var op := FindFunction(t.menus, Inner(token));
    e := if op != 0 then Some(Event(0, op)) else None;
  }

  // ----- the tokens of a text -----

  /** Index of the nearest '<' at or before i, or -1. */
  function OpenBracket(s: string, i: int): (r: int)
    requires i < |s|
    ensures -1 <= r <= i || (i < -1 && r == -1)
    ensures 0 <= r ==> s[r] == '<'
    decreases i + 1
  {
    if i < 0 then -1 else if s[i] == '<' then i else OpenBracket(s, i - 1)
  }

  /** The last token of text, a <name> or else a single character, and where it begins. */
  function LastToken(names: Naming, s: string): (r: (Event, nat))
    requires s != []
    ensures r.1 < |s|
  {
    var p := |s| - 1;
    var pp := if s[p] == '>' then OpenBracket(s, p - 1) else -1;
    if pp >= 0 && names(s[pp..]).Some? then (names(s[pp..]).value, pp) else (Event(s[p] as int, 0), p)
  }

  /** The events text stands for, reading tokens from the right as push_string does. */
  function Tokens(names: Naming, s: string): seq<Event>
    decreases |s|
  {
    if s == [] then []
    else
      var (e, q) := LastToken(names, s);
      Tokens(names, s[..q]) + [e]
  }

  function Plain(s: string): (r: seq<Event>)
    ensures |r| == |s|
  {
    seq(|s|, i requires 0 <= i < |s| => Event(s[i] as int, 0))
  }

  /** Text without '>' is never taken for an operation. */
  lemma {:induction false} TokensWithoutBracket(names: Naming, s: string)
    requires '>' !in s
    ensures Tokens(names, s) == Plain(s)
  {
    if s != [] {
      TokensWithoutBracket(names, s[..|s| - 1]);
    }
  }

  // ----- the keyboard -----

  const ESC := 27
  const CTRL_G := 7

  /** What a key read from the terminal stands for: ERR and ctrl-G are errors, and with $meta_key a key with its
      eighth bit set is an escape and the key without it. */
  function Keystroke(metaKey: bool, ch: int): seq<Event> {
    if ch == -1 then [NO_INPUT]
    else if metaKey && ch / 128 % 2 == 1 then [Event(ESC, 0), Event(ch - 128, 0)]
    else if ch == CTRL_G then [NO_INPUT]
    else [Event(ch, 0)]
  }

  function Keystrokes(metaKey: bool, tty: seq<int>): seq<Event> {
    if tty == [] then [] else Keystroke(metaKey, tty[0]) + Keystrokes(metaKey, tty[1..])
  }

  /** With $meta_key, a key with its eighth bit is the same as typing escape and the key without the bit. */
  lemma MetaIsEscape(ch: nat, tty: seq<int>)
    requires ch / 128 % 2 == 0 && ch != CTRL_G
    ensures Keystrokes(true, [ch + 128] + tty) == Keystrokes(true, [27, ch] + tty)
  {
    assert (ch + 128) / 128 % 2 == 1;
    assert ([ch + 128] + tty)[1..] == tty && ([27, ch] + tty)[1..] == [ch] + tty && ([ch] + tty)[1..] == tty;
    assert Keystroke(true, 27) == [Event(27, 0)] && Keystroke(true, ch) == [Event(ch, 0)];
    var rest := Keystrokes(true, tty);
    assert [Event(27, 0), Event(ch, 0)] + rest == [Event(27, 0)] + ([Event(ch, 0)] + rest);
  }

  /** An error, or a key without the eighth bit. */
  predicate KeyCode(ch: int) {
    ch == -1 || ch / 128 % 2 == 0
  }

  /** Any other key is itself, but that ctrl-G is an error like ERR. */
  lemma KeysAreThemselves(keys: seq<int>, metaKey: bool, k: nat)
    requires k < |keys| && forall i :: 0 <= i < |keys| ==> keys[i] >= -1 && (metaKey ==> KeyCode(keys[i]))
    ensures |Keystrokes(metaKey, keys)| == |keys|
    ensures Keystrokes(metaKey, keys)[k] == Event(if keys[k] == 7 then -1 else keys[k], 0)
  {
    if |keys| > 1 {
      KeysAreThemselves(keys[1..], metaKey, if k > 0 then k - 1 else 0);
    }
  }

  /** The order in which a stack, its top last, is popped. */
  function Popped(stack: seq<Event>): seq<Event> {
    if stack == [] then [] else [stack[|stack| - 1]] + Popped(stack[..|stack| - 1])
  }

  class Input {
    var keyEvent: array<Event>
    var ungetCount: nat
    var tty: seq<int>  // keys typed but not yet read
    const metaKey: bool

    ghost predicate Valid()
      reads this
    {
      ungetCount <= keyEvent.Length
    }

    /** The events that the coming calls of Getch deliver, first one first. */
    ghost function Pending(): seq<Event>
      reads this, keyEvent
      requires Valid()
    {
      Popped(keyEvent[..ungetCount]) + Keystrokes(metaKey, tty)
    }

    constructor (tty: seq<int>, metaKey: bool)
      ensures Valid() && Pending() == Keystrokes(metaKey, tty) && fresh(keyEvent)
    {
      keyEvent, ungetCount, this.tty, this.metaKey := new Event[0], 0, tty, metaKey;
    }

    /** mutt_ungetch. */
    method Ungetch(ch: int, op: nat)
      requires Valid()
      modifies this, keyEvent
      ensures Valid() && (keyEvent == old(keyEvent) || fresh(keyEvent))
      ensures Pending() == [Event(ch, op)] + old(Pending())
    {
      if ungetCount >= keyEvent.Length {
        var grown := new Event[keyEvent.Length + 128](_ => NO_INPUT);
        for i := 0 to ungetCount
          modifies grown
          invariant forall k :: 0 <= k < i ==> grown[k] == keyEvent[k]
        {
          grown[i] := keyEvent[i];
        }
        keyEvent := grown;
      }
      ghost var stack := keyEvent[..ungetCount];
      assert stack == old(keyEvent[..ungetCount]);
      keyEvent[ungetCount] := Event(ch, op);
      ungetCount := ungetCount + 1;
      assert keyEvent[..ungetCount][..ungetCount - 1] == stack;
    }

    /** mutt_getch. */
    method Getch() returns (e: Event)
      requires Valid()
      modifies this, keyEvent
      ensures Valid() && (keyEvent == old(keyEvent) || fresh(keyEvent))
      ensures if old(Pending()) == [] then e == NO_INPUT && Pending() == []
              else e == old(Pending())[0] && Pending() == old(Pending())[1..]
    {
      if ungetCount > 0 {
        assert keyEvent[..ungetCount][..ungetCount - 1] == keyEvent[..ungetCount - 1];
        ungetCount := ungetCount - 1;
        e := keyEvent[ungetCount];
      } else if tty != [] {
        e := ReadKey();
      } else {
        e := NO_INPUT;
      }
    }

    lemma NothingPushed()
      requires Valid() && ungetCount == 0
      ensures Pending() == Keystrokes(metaKey, tty)
    {
    }

    /** The next key of the terminal. */
    method ReadKey() returns (e: Event)
      requires Valid() && ungetCount == 0 && tty != []
      modifies this, keyEvent
      ensures Valid() && (keyEvent == old(keyEvent) || fresh(keyEvent))
      ensures [e] + Pending() == old(Pending())
    {
      NothingPushed();
      var ch := tty[0];
      tty := tty[1..];
      NothingPushed();
      if ch == -1 {
        e := NO_INPUT;
      } else if metaKey && ch / 128 % 2 == 1 {
        OneByOne(Event(ESC, 0), Event(ch - 128, 0), Pending());
        Ungetch(ch - 128, 0);
        e := Event(ESC, 0);
      } else {
        e := if ch == CTRL_G then NO_INPUT else Event(ch, 0);
      }
    }

    /** mutt_flushinp. */
    method Flushinp()
      requires Valid()
      modifies this
      ensures Valid() && keyEvent == old(keyEvent) && Pending() == []
    {
      ungetCount := 0;
      tty := [];
    }

    /** Give keys back so that they are read again in their order (the loop of retry_generic). */
    method UngetKeys(keys: seq<int>)
      requires Valid()
      modifies this, keyEvent
      ensures Valid() && (keyEvent == old(keyEvent) || fresh(keyEvent))
      ensures Pending() == KeyEvents(keys) + old(Pending())
    {
      var keyslen: nat := |keys|;
      assert keys[..keyslen] == keys;
      while keyslen > 0
        invariant keyslen <= |keys| && Valid() && (keyEvent == old(keyEvent) || fresh(keyEvent))
        invariant KeyEvents(keys[..keyslen]) + Pending() == KeyEvents(keys) + old(Pending())
      {
        Regroup(KeyEvents(keys[..keyslen - 1]), Event(keys[keyslen - 1], 0), Pending());
        assert KeyEvents(keys[..keyslen]) == KeyEvents(keys[..keyslen - 1]) + [Event(keys[keyslen - 1], 0)];
        Ungetch(keys[keyslen - 1], 0);
        keyslen := keyslen - 1;
      }
    }

    /** push_string: the pushed text is read back token by token, in order, before what was pending. */
    method PushString(t: NameTables, s: string)
      requires Valid()
      modifies this, keyEvent
      ensures Valid() && (keyEvent == old(keyEvent) || fresh(keyEvent))
      ensures Pending() == Tokens(Names(t), s) + old(Pending())
    {
      var p: nat := |s|;
      ghost var goal := Tokens(Names(t), s) + Pending();
      assert s[..p] == s;
      while p > 0
        invariant p <= |s| && Valid() && (keyEvent == old(keyEvent) || fresh(keyEvent))
        invariant goal == Tokens(Names(t), s[..p]) + Pending()
      {
        p := PushLastToken(t, s, p);
      }
      assert s[..p] == [];
    }

    method PushLastToken(t: NameTables, s: string, p: nat) returns (q: nat)
      requires Valid() && 0 < p <= |s|
      modifies this, keyEvent
      ensures Valid() && (keyEvent == old(keyEvent) || fresh(keyEvent))
      ensures q < p && Tokens(Names(t), s[..q]) + Pending() == Tokens(Names(t), s[..p]) + old(Pending())
    {
      var e;
      e, q := FindLastToken(t, s, p);
      Ungetch(e.ch, e.op);
      assert s[..p][..q] == s[..q];
      Regroup(Tokens(Names(t), s[..q]), e, old(Pending()));
    }
  }

  lemma OneByOne<T>(a: T, b: T, rest: seq<T>)
    ensures [a, b] + rest == [a] + ([b] + rest)
  {
  }

  lemma Regroup<T>(a: seq<T>, e: T, b: seq<T>)
    ensures a + [e] + b == a + ([e] + b)
  {
  }

  /** The token that ends at p, and where it begins. */
  method FindLastToken(t: NameTables, s: string, p: nat) returns (e: Event, q: nat)
    requires 0 < p <= |s|
    ensures (e, q) == LastToken(Names(t), s[..p])
  {
    ghost var text := s[..p];
    if s[p - 1] == '>' {
      var pp := p - 2;
      while pp >= 0 && s[pp] != '<'
        invariant -1 <= pp < p - 1
        invariant OpenBracket(text, p - 2) == OpenBracket(text, pp)
      {
        pp := pp - 1;
      }
      if pp >= 0 {
        assert text[pp..] == s[pp..p];
        var named := LookUp(t, s[pp..p]);
        if named.Some? {
          return named.value, pp;
        }
      }
    }
    e, q := Event(s[p - 1] as int, 0), p - 1;
  }
}
