/** What mutt_copy_hdr (copy.c) makes of a header, in terms of its text. A header is a series of fields of any length,
    each with the lines that go on with it, and a blank line. */
module HeaderText {
  import opened Ascii
  import opened CopyHeader
  import opened HeaderFields
  import opened HeaderLines
  import opened HeaderNames
  import opened Options
  import opened Sequences

  // ----- fields of a text -----

  predicate White(c: char) {
    c == ' ' || c == '\t'
  }

  /** If a line begins at i, it begins with space. */
  predicate GoesOn(s: string, i: nat) {
    0 < i < |s| && s[i - 1] == '\n' ==> White(s[i])
  }

  ghost predicate AllGoOn(s: string, from: nat, to: nat) {
    forall i :: from <= i < to ==> GoesOn(s, i)
  }

  /** Lines, of which the first is neither blank nor begins with space, and all others do. */
  ghost predicate IsField(t: string) {
    t != "" && t[|t| - 1] == '\n' && !White(t[0]) && t[0] != '\n' && !("\r\n" <= t) && AllGoOn(t, 0, |t|)
  }

  /** The first line of a field, or the first 255 characters of it. */
  ghost predicate Begins(line: string, t: string) {
    line <= t && 0 < |line| <= 255 && '\n' !in line[..|line| - 1] && (|line| == 255 || line[|line| - 1] == '\n')
  }

  /** The text from pos to q is a field, or what is left of one after the characters before pos. */
  ghost predicate Ends(data: string, pos: nat, q: nat) {
    0 < pos <= q < |data| && data[q - 1] == '\n' && !White(data[q]) && AllGoOn(data, pos, q)
  }

  lemma {:induction false} StopsAtNewline(data: string, pos: nat, n: nat, j: nat)
    requires n < STRING && pos + n <= j < |data| && data[j] == '\n'
    ensures pos + LineLength(data, pos, n) <= j + 1
    decreases STRING - n
  {
    if n + 1 < STRING && data[pos + n] != '\n' {
      StopsAtNewline(data, pos, n + 1, j);
    }
  }

  lemma BufferEnds(data: string, pos: nat, q: nat)
    requires pos < q <= |data| && data[q - 1] == '\n'
    ensures var r := pos + |Fgets(data, pos)|;
            pos < r <= q && (HasNewline(Fgets(data, pos)) <==> data[r - 1] == '\n')
  {
    StopsAtNewline(data, pos, 0, q - 1);
    BufferIs(data, pos);
    var buf := Fgets(data, pos);
    assert buf == buf[..|buf| - 1] + [buf[|buf| - 1]] && buf[|buf| - 1] == data[pos + |buf| - 1];
  }

  lemma ChunksStep(data: string, pos: nat, end: nat)
    requires pos < |data| && pos < end
    ensures var buf, all := Fgets(data, pos), Chunks(data, pos, end);
            all == [buf] + Chunks(data, pos + |buf|, end) && all[1..] == Chunks(data, pos + |buf|, end)
  {
  }

  /** How many of the buffers from pos on belong to the field at hand. */
  ghost function TailAt(data: string, pos: nat, end: nat): nat
    requires 0 < pos <= |data|
  {
    Tail(Chunks(data, pos, end), data[pos - 1] == '\n')
  }

  /** The first k buffers from pos on reach up to q. */
  ghost predicate Reach(data: string, pos: nat, end: nat, q: nat, k: nat)
    requires pos <= q <= |data|
  {
    var chunks := Chunks(data, pos, end);
    k <= |chunks| && Joined(chunks[..k]) == data[pos..q] && chunks[k..] == Chunks(data, q, end)
  }

  lemma TailOnce(data: string, pos: nat, end: nat, q: nat)
    requires Ends(data, pos, q) && pos < q < end
    ensures var r := pos + |Fgets(data, pos)|; Ends(data, r, q) && TailAt(data, pos, end) == 1 + TailAt(data, r, end)
  {
    BufferEnds(data, pos, q);
    assert GoesOn(data, pos);
    var buf := Fgets(data, pos);
    assert buf[0] == data[pos];
    ChunksStep(data, pos, end);
    TailMore(Chunks(data, pos, end), data[pos - 1] == '\n');
  }

  lemma TailMore(chunks: seq<string>, atLine: bool)
    requires chunks != [] && (atLine ==> Continuation(chunks[0]))
    ensures Tail(chunks, atLine) == 1 + Tail(chunks[1..], HasNewline(chunks[0]))
  {
  }

  lemma TailNone(data: string, pos: nat, end: nat)
    requires Ends(data, pos, pos) && pos < end
    ensures TailAt(data, pos, end) == 0
  {
    ChunksStep(data, pos, end);
    var buf := Fgets(data, pos);
    assert buf[0] == data[pos];
  }

  lemma ReachNone(data: string, pos: nat, end: nat)
    requires pos <= |data|
    ensures Reach(data, pos, end, pos, 0)
  {
    var chunks := Chunks(data, pos, end);
    assert chunks[..0] == [] && data[pos..pos] == [] && chunks[0..] == chunks;
  }

  lemma ReachOnce(data: string, pos: nat, end: nat, q: nat, k: nat)
    requires pos < |data| && pos < end
    requires var r := pos + |Fgets(data, pos)|; r <= q <= |data| && Reach(data, r, end, q, k)
    ensures Reach(data, pos, end, q, k + 1)
  {
    var r := pos + |Fgets(data, pos)|;
    ChunksStep(data, pos, end);
    TailStep(Chunks(data, pos, end), k + 1);
    assert data[pos..q] == data[pos..r] + data[r..q];
  }

  /** The buffers up to the end of the field are those that go on with it. */
  lemma {:induction false} TailEnds(data: string, pos: nat, end: nat, q: nat)
    requires Ends(data, pos, q) && q < end
    ensures Reach(data, pos, end, q, TailAt(data, pos, end))
    decreases q - pos
  {
    if pos == q {
      TailNone(data, pos, end);
      ReachNone(data, pos, end);
    } else {
      TailOnce(data, pos, end, q);
      TailEnds(data, pos + |Fgets(data, pos)|, end, q);
      ReachOnce(data, pos, end, q, TailAt(data, pos, end) - 1);
    }
  }

  lemma FieldEnds(data: string, pos: nat, q: nat)
    requires pos < q < |data| && IsField(data[pos..q]) && !White(data[q])
    ensures var r := pos + |Fgets(data, pos)|;
            Ends(data, r, q) && (HasNewline(Fgets(data, pos)) <==> data[r - 1] == '\n')
    ensures Begins(Fgets(data, pos), data[pos..q])
  {
    var t, buf := data[pos..q], Fgets(data, pos);
    assert data[q - 1] == t[|t| - 1];
    BufferEnds(data, pos, q);
    BufferIs(data, pos);
    assert buf <= t;
    forall i | pos + |buf| <= i < q
      ensures GoesOn(data, i)
    {
      assert GoesOn(t, i - pos) && t[i - pos] == data[i] && t[i - pos - 1] == data[i - 1];
    }
  }

  lemma ExtentIs(data: string, pos: nat, end: nat, q: nat)
    requires pos < q <= |data| && data[q - 1] == '\n' && q < end
    ensures Extent(Chunks(data, pos, end)) == 1 + TailAt(data, pos + |Fgets(data, pos)|, end)
  {
    BufferEnds(data, pos, q);
    ChunksStep(data, pos, end);
  }

  lemma ItemsFirst(chunks: seq<string>, k: nat)
    requires chunks != [] && k == Extent(chunks)
    ensures Items(chunks) == [Item(chunks[0], Joined(chunks[..k]))] + Items(chunks[k..])
  {
  }

  lemma RestReaches(data: string, pos: nat, end: nat, q: nat)
    requires pos < q < |data| && IsField(data[pos..q]) && !White(data[q]) && q < end
    ensures var r := pos + |Fgets(data, pos)|; 0 < r <= q && Reach(data, r, end, q, TailAt(data, r, end))
  {
    FieldEnds(data, pos, q);
    TailEnds(data, pos + |Fgets(data, pos)|, end, q);
  }

  lemma ExtentReaches(data: string, pos: nat, end: nat, q: nat)
    requires pos < q < |data| && IsField(data[pos..q]) && !White(data[q]) && q < end
    ensures Reach(data, pos, end, q, Extent(Chunks(data, pos, end)))
  {
    RestReaches(data, pos, end, q);
    var r := pos + |Fgets(data, pos)|;
    ReachOnce(data, pos, end, q, TailAt(data, r, end));
    LastNewline(data, pos, q);
    ExtentIs(data, pos, end, q);
  }

  lemma LastNewline(data: string, pos: nat, q: nat)
    requires pos < q <= |data| && IsField(data[pos..q])
    ensures data[q - 1] == '\n'
  {
    var t := data[pos..q];
    assert data[q - 1] == t[|t| - 1];
  }

  /** The first field of a text, and the others. */
  lemma FirstItem(data: string, pos: nat, end: nat, q: nat)
    requires pos < q < |data| && IsField(data[pos..q]) && !White(data[q]) && q < end
    ensures Items(Chunks(data, pos, end)) ==
            [Item(Fgets(data, pos), data[pos..q])] + Items(Chunks(data, q, end))
  {
    ExtentReaches(data, pos, end, q);
    ItemsFirst(Chunks(data, pos, end), Extent(Chunks(data, pos, end)));
  }

  /** A header and what follows it: the texts of the fields, and then a blank line. */
  ghost predicate IsHeader(data: string, pos: nat, end: nat, texts: seq<string>)
    decreases |texts|
  {
    if texts == [] then pos < |data| && pos < end && ("\n" <= data[pos..] || "\r\n" <= data[pos..])
    else
      var q := pos + |texts[0]|;
      pos < end && q < |data| && data[pos..q] == texts[0] && IsField(texts[0]) && IsHeader(data, q, end, texts[1..])
  }

  /** These are the fields with these texts. */
  ghost predicate Fields(items: seq<Item>, texts: seq<string>) {
    |items| == |texts| &&
    forall i :: 0 <= i < |texts| ==> IsField(texts[i]) && items[i].text == texts[i] && Begins(items[i].line, texts[i])
  }

  lemma BlankBuffer(data: string, pos: nat)
    requires pos < |data|
    ensures Blank(Fgets(data, pos)) <==> "\n" <= data[pos..] || "\r\n" <= data[pos..]
  {
    BufferIs(data, pos);
    var buf, rest := Fgets(data, pos), data[pos..];
    assert buf[0] == rest[0];
    if |buf| == 1 {
      assert rest[0] == '\n' || |rest| == 1;
    } else {
      assert buf[1] == rest[1];
    }
  }

  lemma NoFields(data: string, pos: nat, end: nat)
    requires IsHeader(data, pos, end, [])
    ensures Header(Items(Chunks(data, pos, end))) == []
  {
    ChunksStep(data, pos, end);
    BlankBuffer(data, pos);
  }

  lemma OneField(data: string, pos: nat, end: nat, q: nat)
    requires pos < q < |data| && IsField(data[pos..q]) && !White(data[q]) && q < end
    ensures Header(Items(Chunks(data, pos, end))) ==
            [Item(Fgets(data, pos), data[pos..q])] + Header(Items(Chunks(data, q, end)))
  {
    FirstItem(data, pos, end, q);
    BlankBuffer(data, pos);
    NotBlank(data, pos, q);
    var first, rest := Item(Fgets(data, pos), data[pos..q]), Items(Chunks(data, q, end));
    assert ([first] + rest)[0] == first && ([first] + rest)[1..] == rest;
  }

  lemma FieldsMore(first: Item, rest: seq<Item>, texts: seq<string>)
    requires texts != [] && IsField(texts[0]) && first.text == texts[0] && Begins(first.line, texts[0])
    requires Fields(rest, texts[1..])
    ensures Fields([first] + rest, texts)
  {
    var items := [first] + rest;
    forall i | 0 <= i < |texts|
      ensures IsField(texts[i]) && items[i].text == texts[i] && Begins(items[i].line, texts[i])
    {
      assert i > 0 ==> items[i] == rest[i - 1] && texts[i] == texts[1..][i - 1];
    }
  }

  /** The fields of a header are found whole, however long their lines are. */
  lemma {:induction false} HeaderIs(data: string, pos: nat, end: nat, texts: seq<string>)
    requires IsHeader(data, pos, end, texts)
    ensures Fields(Header(Items(Chunks(data, pos, end))), texts)
    decreases |texts|
  {
    if texts == [] {
      NoFields(data, pos, end);
    } else {
      var q := pos + |texts[0]|;
      NextStarts(data, q, end, texts[1..]);
      FieldEnds(data, pos, q);
      OneField(data, pos, end, q);
      HeaderIs(data, q, end, texts[1..]);
      FieldsMore(Item(Fgets(data, pos), data[pos..q]), Header(Items(Chunks(data, q, end))), texts);
    }
  }

  lemma NextStarts(data: string, q: nat, end: nat, texts: seq<string>)
    requires IsHeader(data, q, end, texts)
    ensures q < |data| && q < end && !White(data[q])
  {
    if texts == [] {
      assert data[q..][0] == data[q];
    } else {
      assert texts[0][0] == data[q];
    }
  }

  lemma NotBlank(data: string, pos: nat, q: nat)
    requires pos < q < |data| && IsField(data[pos..q])
    ensures !("\n" <= data[pos..]) && !("\r\n" <= data[pos..])
  {
    var t, rest := data[pos..q], data[pos..];
    assert t[0] == rest[0];
  }

  // ----- what is copied -----

  /** The i-th line is the first that begins with "From ". */
  ghost predicate FirstFromLine(lines: seq<string>, i: nat) {
    i < |lines| && "From " <= lines[i] && forall k :: 0 <= k < i ==> !("From " <= lines[k])
  }

  /** No flag calls for anything but leaving out fields by name. */
  predicate ByNameOnly(f: Flags) {
    !f.reorder && !f.weed && !f.mime && !f.weedDelivered && !f.prefixed && !f.decode
  }

  /** Is the field that begins with the i-th line left out? "From " lines unless they are to be retained; quoted ones if
      asked to, but only if fields are left out by name alone; weeded fields, but for the first "From " line if that is
      forced; and fields of these names. */
  ghost predicate LeftOut(cfg: Config, lines: seq<string>, i: nat)
    requires i < |lines|
  {
    var f, line := cfg.flags, lines[i];
    ("From " <= line && !f.from) ||
    (f.noQFrom && ByNameOnly(f) && StartsCase(line, ">From ")) ||
    (f.weed && cfg.weeded(line) && !(f.from && f.forceFrom && FirstFromLine(lines, i))) ||
    (f.weedDelivered && Named(line, "delivered-to")) ||
    (f.mime && (Named(line, "content-transfer-encoding") || Named(line, "content-type") ||
                Named(line, "mime-version"))) ||
    Rewritten(f, line)
  }

  /** The other fields, from the i-th on, decoded if asked for. */
  ghost function Output(cfg: Config, texts: seq<string>, lines: seq<string>, i: nat): string
    requires |lines| == |texts|
    decreases |texts| - i
  {
    if i >= |texts| then ""
    else
      (if LeftOut(cfg, lines, i) then "" else if cfg.flags.decode then cfg.decoded(texts[i]) else texts[i]) +
      Output(cfg, texts, lines, i + 1)
  }

  /** A "From " line that is retained has been met before the i-th line. */
  ghost predicate MetBefore(retained: bool, lines: seq<string>, i: nat)
    requires i <= |lines|
  {
    retained && exists k :: 0 <= k < i && "From " <= lines[k]
  }

  lemma MetNext(retained: bool, lines: seq<string>, i: nat)
    requires i < |lines|
    ensures Met(retained, MetBefore(retained, lines, i), lines[i]) == MetBefore(retained, lines, i + 1)
  {
  }

  function Lines(items: seq<Item>): (lines: seq<string>)
    ensures |lines| == |items| && forall i :: 0 <= i < |items| ==> lines[i] == items[i].line
  {
    if items == [] then [] else [items[0].line] + Lines(items[1..])
  }

  lemma BeginsPlain(line: string, t: string)
    requires IsField(t) && Begins(line, t)
    ensures !Continuation(line)
  {
    assert line[0] == t[0];
  }

  lemma CollectLeftOut(cfg: Config, lines: seq<string>, i: nat)
    requires i < |lines| && !Continuation(lines[i]) && !ByNameOnly(cfg.flags)
    ensures CollectKeeps(cfg, MetBefore(cfg.flags.from, lines, i), lines[i]) <==> !LeftOut(cfg, lines, i)
  {
    CollectingLeavesOut(cfg, MetBefore(cfg.flags.from, lines, i), lines[i]);
  }

  lemma FastLeftOut(cfg: Config, lines: seq<string>, i: nat)
    requires i < |lines| && ByNameOnly(cfg.flags)
    ensures FastKeeps(cfg.flags, lines[i]) <==> !LeftOut(cfg, lines, i)
  {
    FastLeavesOut(cfg.flags, lines[i]);
  }

  /** The wanted fields, one by one. */
  lemma ChosenOne(items: seq<Item>, wanted: (bool, string) -> bool, retained: bool, from: bool, i: nat)
    requires i < |items|
    ensures Chosen(items[i..], wanted, retained, from) ==
            (if wanted(from, items[i].line) then [items[i]] else []) +
            Chosen(items[i + 1..], wanted, retained, Met(retained, from, items[i].line))
  {
    assert items[i..][1..] == items[i + 1..];
  }

  lemma TextOne(first: seq<Item>, rest: seq<Item>)
    requires |first| <= 1
    ensures Text(first + rest) == (if first == [] then "" else first[0].text) + Text(rest)
  {
    if first == [] {
      assert first + rest == rest;
    } else {
      assert (first + rest)[1..] == rest;
    }
  }

  lemma {:induction false} FastOutput(cfg: Config, items: seq<Item>, texts: seq<string>, i: nat)
    requires ByNameOnly(cfg.flags) && Fields(items, texts) && i <= |texts|
    ensures Text(Chosen(items[i..], FastWanted(cfg.flags), cfg.flags.from, MetBefore(cfg.flags.from, Lines(items), i)))
            == Output(cfg, texts, Lines(items), i)
    decreases |texts| - i
  {
    if i < |texts| {
      var lines, retained := Lines(items), cfg.flags.from;
      var met := MetBefore(retained, lines, i);
      ChosenOne(items, FastWanted(cfg.flags), retained, met, i);
      MetNext(retained, lines, i);
      FastLeftOut(cfg, lines, i);
      FastOutput(cfg, items, texts, i + 1);
      TextOne(if FastKeeps(cfg.flags, lines[i]) then [items[i]] else [],
              Chosen(items[i + 1..], FastWanted(cfg.flags), retained, MetBefore(retained, lines, i + 1)));
    }
  }

  lemma TextsOne(cfg: Config, first: seq<Item>, rest: seq<Item>)
    requires |first| <= 1
    ensures Texts(Placed(CollectPolicy(cfg), first + rest)) ==
            (if first == [] then "" else if cfg.flags.decode then cfg.decoded(first[0].text) else first[0].text) +
            Texts(Placed(CollectPolicy(cfg), rest))
  {
    if first == [] {
      assert first + rest == rest;
    } else {
      assert (first + rest)[1..] == rest;
      var f := Placed(CollectPolicy(cfg), first + rest)[0];
      TextsAppend([f], Placed(CollectPolicy(cfg), rest));
      OneText(f);
    }
  }

  lemma {:induction false} CollectOutput(cfg: Config, items: seq<Item>, texts: seq<string>, i: nat)
    requires !ByNameOnly(cfg.flags) && Fields(items, texts) && i <= |texts|
    ensures Texts(Placed(CollectPolicy(cfg),
                         Chosen(items[i..], CollectWanted(cfg), cfg.flags.from,
                                MetBefore(cfg.flags.from, Lines(items), i)))) ==
            Output(cfg, texts, Lines(items), i)
    decreases |texts| - i
  {
    if i < |texts| {
      var lines, retained := Lines(items), cfg.flags.from;
      var met := MetBefore(retained, lines, i);
      ChosenOne(items, CollectWanted(cfg), retained, met, i);
      MetNext(retained, lines, i);
      BeginsPlain(lines[i], texts[i]);
      CollectLeftOut(cfg, lines, i);
      CollectOutput(cfg, items, texts, i + 1);
      TextsOne(cfg, if CollectKeeps(cfg, met, lines[i]) then [items[i]] else [],
               Chosen(items[i + 1..], CollectWanted(cfg), retained, MetBefore(retained, lines, i + 1)));
    }
  }

  lemma {:induction false} AllAtZero(cfg: Config, items: seq<Item>)
    requires !cfg.flags.reorder
    ensures forall f :: f in Placed(CollectPolicy(cfg), items) ==> f.slot == 0
  {
    if items != [] {
      AllAtZero(cfg, items[1..]);
    }
  }

  lemma OneEntry(cfg: Config, fields: seq<Field>)
    requires !cfg.flags.reorder && forall f :: f in fields ==> f.slot == 0
    ensures Entries(cfg, fields, HdrCount(cfg)) ==
            if cfg.flags.prefixed then Prefixed(cfg.prefix, Texts(fields), true) else Texts(fields)
  {
    AtAll(fields, 0);
    assert Entries(cfg, fields, 1) == Entries(cfg, fields, 0) + Entry(cfg, fields, 0);
    assert "" + Entry(cfg, fields, 0) == Entry(cfg, fields, 0);
  }

  lemma FromStart(items: seq<Item>, retained: bool)
    ensures items[0..] == items && !MetBefore(retained, Lines(items), 0)
  {
  }

  lemma CopiedByName(cfg: Config, data: string, pos: nat, end: nat, items: seq<Item>, texts: seq<string>)
    requires pos <= |data| && items == Header(Items(Chunks(data, pos, end))) && Fields(items, texts)
    requires ByNameOnly(cfg.flags)
    ensures Copied(cfg, data, pos, end) == Output(cfg, texts, Lines(items), 0)
  {
    assert cfg.flags.(prefixed := false) == cfg.flags;
    FastPathWrites(cfg.flags, Chunks(data, pos, end));
    FromStart(items, cfg.flags.from);
    FastOutput(cfg, items, texts, 0);
  }

  lemma CopiedFields(cfg: Config, data: string, pos: nat, end: nat, items: seq<Item>, texts: seq<string>)
    requires pos <= |data| && items == Header(Items(Chunks(data, pos, end))) && Fields(items, texts)
    requires !ByNameOnly(cfg.flags) && !cfg.flags.reorder && Unabbreviated(cfg)
    ensures var out := Output(cfg, texts, Lines(items), 0);
            Copied(cfg, data, pos, end) == if cfg.flags.prefixed then Prefixed(cfg.prefix, out, true) else out
  {
    CollectingPathKeeps(cfg, data, pos, end);
    FromStart(items, cfg.flags.from);
    CollectOutput(cfg, items, texts, 0);
    AllAtZero(cfg, Kept(cfg, data, pos, end));
    OneEntry(cfg, FieldsOf(CollectPolicy(cfg), data, pos, end));
  }

  /** mutt_copy_hdr, unless fields are reordered or lists of recipients abbreviated: of a header it writes the fields
      that are not left out, whole and in order, each line behind the prefix if there is one; and nothing of what
      follows the header. */
  lemma HeaderCopied(cfg: Config, data: string, pos: nat, end: nat, texts: seq<string>) returns (lines: seq<string>)
    requires IsHeader(data, pos, end, texts) && pos <= |data| && !cfg.flags.reorder && Unabbreviated(cfg)
    ensures |lines| == |texts| && forall i :: 0 <= i < |texts| ==> Begins(lines[i], texts[i])
    ensures var out := Output(cfg, texts, lines, 0);
            Copied(cfg, data, pos, end) == if cfg.flags.prefixed then Prefixed(cfg.prefix, out, true) else out
  {
    HeaderIs(data, pos, end, texts);
    var items := Header(Items(Chunks(data, pos, end)));
    lines := Lines(items);
    if ByNameOnly(cfg.flags) {
      CopiedByName(cfg, data, pos, end, items, texts);
    } else {
      CopiedFields(cfg, data, pos, end, items, texts);
    }
  }
}
