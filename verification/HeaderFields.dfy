/** The fields of a message header (copy.c). */
module HeaderFields {
  import opened CopyHeader
  import opened Options
  import opened Sequences

  // They are defined without regard to any flag; then what the two copying paths of mutt_copy_hdr make of them.

  /** A field: the line (or first buffer of the line) that begins it, and its whole text with the lines that go on
      with it. Continuation lines ahead of the first field count as one. */
  datatype Item = Item(line: string, text: string)

  function Joined(chunks: seq<string>): string {
    if chunks == [] then "" else chunks[0] + Joined(chunks[1..])
  }

  /** How many of the buffers still belong to the field at hand: all up to the next line that is no continuation. */
  function Tail(chunks: seq<string>, atLine: bool): (k: nat)
    ensures k <= |chunks|
    ensures k < |chunks| ==> !Continuation(chunks[k])
  {
    if chunks == [] || (atLine && !Continuation(chunks[0])) then 0
    else 1 + Tail(chunks[1..], HasNewline(chunks[0]))
  }

  /** How many buffers make up the first field. */
  function Extent(chunks: seq<string>): (k: nat)
    requires chunks != []
    ensures 0 < k <= |chunks|
    ensures k < |chunks| ==> !Continuation(chunks[k])
  {
    1 + Tail(chunks[1..], HasNewline(chunks[0]))
  }

  function Items(chunks: seq<string>): seq<Item> {
    if chunks == [] then []
    else
      var k := Extent(chunks);
      [Item(chunks[0], Joined(chunks[..k]))] + Items(chunks[k..])
  }

  /** The fields of the header: those before the first blank line. */
  function Header(items: seq<Item>): seq<Item> {
    if items == [] || Blank(items[0].line) then [] else [items[0]] + Header(items[1..])
  }

  /** Has a "From " line that is to be retained been met? */
  predicate Met(retained: bool, from: bool, line: string) {
    from || (retained && "From " <= line)
  }

  /** The wanted fields; whether a field is wanted may depend on whether a "From " line has been met before. */
  function Chosen(items: seq<Item>, wanted: (bool, string) -> bool, retained: bool, from: bool): seq<Item> {
    if items == [] then []
    else
      (if wanted(from, items[0].line) then [items[0]] else []) +
      Chosen(items[1..], wanted, retained, Met(retained, from, items[0].line))
  }

  function Text(items: seq<Item>): string {
    if items == [] then "" else items[0].text + Text(items[1..])
  }

  /** Where a field goes: continuation lines ahead of the first field go to place 0. */
  function Place(p: Policy, line: string): nat {
    if Continuation(line) then 0 else p.slot(line)
  }

  /** Each field, decoded if the policy says so, under the place its first line asks for. */
  function Placed(p: Policy, items: seq<Item>): seq<Field> {
    if items == [] then []
    else [Field(Place(p, items[0].line), p.decoded(items[0].text))] + Placed(p, items[1..])
  }

  // ----- the fields are the text -----

  lemma {:induction false} JoinedAppend(a: seq<string>, b: seq<string>)
    ensures Joined(a + b) == Joined(a) + Joined(b)
  {
    if a == [] {
      assert a + b == b;
    } else {
      assert (a + b)[1..] == a[1..] + b;
      JoinedAppend(a[1..], b);
      Reassociate(a[0], Joined(a[1..]), Joined(b));
    }
  }

  /** Nothing is lost between the fields. */
  lemma {:induction false} ItemsAreText(chunks: seq<string>)
    ensures Text(Items(chunks)) == Joined(chunks)
  {
    if chunks != [] {
      var k := Extent(chunks);
      var first := Item(chunks[0], Joined(chunks[..k]));
      ItemsAreText(chunks[k..]);
      assert chunks[..k] + chunks[k..] == chunks;
      JoinedAppend(chunks[..k], chunks[k..]);
      assert ([first] + Items(chunks[k..]))[1..] == Items(chunks[k..]);
    }
  }

  /** The buffers are the data, read on to the end asked for or the end there is. */
  lemma {:induction false} ChunksAreData(data: string, pos: nat, end: nat)
    requires pos <= |data|
    ensures Joined(Chunks(data, pos, end)) <= data[pos..]
    ensures pos + |Joined(Chunks(data, pos, end))| >= if end < |data| then end else |data|
    decreases |data| - pos
  {
    if pos < end && pos < |data| {
      var buf := Fgets(data, pos);
      ChunksAreData(data, pos + |buf|, end);
      assert ([buf] + Chunks(data, pos + |buf|, end))[1..] == Chunks(data, pos + |buf|, end);
      assert data[pos..] == buf + data[pos + |buf|..];
    }
  }

  // ----- policies that judge a field by its first line -----

  /** The verdict depends on the line, and on whether a "From " line has been met: a blank line stops, any other field
      is kept if it is wanted. A continuation line is always wanted. */
  ghost predicate ByLine(p: Policy, retained: bool, wanted: (bool, string) -> bool) {
    (forall from, buf :: Continuation(buf) ==> wanted(from, buf)) &&
    forall from, buf :: (from ==> retained) && !Continuation(buf) ==>
      p.seen(from, buf) == Met(retained, from, buf) &&
      p.verdict(from, buf) == if Blank(buf) then Stop else if wanted(from, buf) then Keep else Skip
  }

  /** The rest of a field is copied if the field is, and then the next field is judged. */
  lemma {:induction false} CopyTail(p: Policy, chunks: seq<string>, atLine: bool, from: bool, ignore: bool)
    ensures var k := Tail(chunks, atLine);
            FastCopy(p, chunks, atLine, from, ignore) ==
            (if ignore then "" else Joined(chunks[..k])) + FastCopy(p, chunks[k..], true, from, ignore)
  {
    var k := Tail(chunks, atLine);
    if k == 0 {
      assert chunks[..k] == [] && chunks[k..] == chunks;
    } else {
      CopyTail(p, chunks[1..], HasNewline(chunks[0]), from, ignore);
      TailStep(chunks, k);
      Reassociate(chunks[0], Joined(chunks[1..][..k - 1]), FastCopy(p, chunks[k..], true, from, ignore));
    }
  }

  lemma TailStep(chunks: seq<string>, k: nat)
    requires 0 < k <= |chunks|
    ensures chunks[1..][k - 1..] == chunks[k..]
    ensures Joined(chunks[..k]) == chunks[0] + Joined(chunks[1..][..k - 1])
  {
    assert chunks[..k][1..] == chunks[1..][..k - 1];
  }

  /** The first field, and the wanted fields after it. */
  lemma ChosenStep(chunks: seq<string>, wanted: (bool, string) -> bool, retained: bool, from: bool)
    requires chunks != []
    ensures var k, met := Extent(chunks), Met(retained, from, chunks[0]);
            Text(Chosen(Header(Items(chunks)), wanted, retained, from)) ==
            if Blank(chunks[0]) then ""
            else (if wanted(from, chunks[0]) then Joined(chunks[..k]) else "") +
                 Text(Chosen(Header(Items(chunks[k..])), wanted, retained, met))
  {
    var k, met := Extent(chunks), Met(retained, from, chunks[0]);
    var first, rest := Item(chunks[0], Joined(chunks[..k])), Header(Items(chunks[k..]));
    assert ([first] + Items(chunks[k..]))[1..] == Items(chunks[k..]);
    assert ([first] + rest)[1..] == rest;
    assert ([first] + Chosen(rest, wanted, retained, met))[1..] == Chosen(rest, wanted, retained, met);
    assert [] + Chosen(rest, wanted, retained, met) == Chosen(rest, wanted, retained, met);
  }

  lemma CopyItem(p: Policy, retained: bool, wanted: (bool, string) -> bool, chunks: seq<string>, from: bool,
                 ignore: bool)
    requires ByLine(p, retained, wanted) && (from ==> retained) && chunks != [] && !Continuation(chunks[0])
    ensures var k := Extent(chunks);
            FastCopy(p, chunks, true, from, ignore) ==
            if Blank(chunks[0]) then ""
            else (if wanted(from, chunks[0]) then Joined(chunks[..k]) else "") +
                 FastCopy(p, chunks[k..], true, p.seen(from, chunks[0]), !wanted(from, chunks[0]))
  {
    var buf, k, seen := chunks[0], Extent(chunks), p.seen(from, chunks[0]);
    var rest := FastCopy(p, chunks[k..], true, seen, !wanted(from, buf));
    CopyTail(p, chunks[1..], HasNewline(buf), seen, !wanted(from, buf));
    TailStep(chunks, k);
    Reassociate(buf, Joined(chunks[1..][..k - 1]), rest);
  }

  lemma {:induction false} CopyItems(p: Policy, retained: bool, wanted: (bool, string) -> bool, chunks: seq<string>,
                                     from: bool, ignore: bool)
    requires ByLine(p, retained, wanted) && (from ==> retained)
    requires chunks != [] ==> !Continuation(chunks[0])
    ensures FastCopy(p, chunks, true, from, ignore) == Text(Chosen(Header(Items(chunks)), wanted, retained, from))
    decreases |chunks|
  {
    if chunks != [] {
      CopyItem(p, retained, wanted, chunks, from, ignore);
      ChosenStep(chunks, wanted, retained, from);
      if !Blank(chunks[0]) {
        var k := Extent(chunks);
        CopyItems(p, retained, wanted, chunks[k..], p.seen(from, chunks[0]), !wanted(from, chunks[0]));
      }
    }
  }

  /** Line-by-line copying writes the wanted fields of the header. */
  lemma CopiedItems(p: Policy, retained: bool, wanted: (bool, string) -> bool, chunks: seq<string>)
    requires ByLine(p, retained, wanted)
    ensures FastCopy(p, chunks, true, false, false) ==
            Text(Chosen(Header(Items(chunks)), wanted, retained, false))
  {
    if chunks != [] && Continuation(chunks[0]) {
      var k := Extent(chunks);
      CopyTail(p, chunks, true, false, false);
      ChosenStep(chunks, wanted, retained, false);
      CopyItems(p, retained, wanted, chunks[k..], false, false);
    } else {
      CopyItems(p, retained, wanted, chunks, false, false);
    }
  }

  // ----- collecting -----

  /** Long recipient lists are not abbreviated: no limit is set, or no field is to be limited. */
  ghost predicate Unlimited(p: Policy, curline: nat) {
    p.maxRecips == 0 || (curline == 0 && forall buf :: p.curline(buf) == 0)
  }

  /** The rest of a field is collected with it. */
  lemma {:induction false} CollectTail(p: Policy, chunks: seq<string>, atLine: bool, from: bool, ignore: bool,
                                       open: Option<Field>, curline: nat)
    requires (ignore || open.Some?) && Unlimited(p, curline)
    ensures var k := Tail(chunks, atLine);
            Collect(p, chunks, atLine, from, ignore, open, curline) ==
            Collect(p, chunks[k..], true, from, ignore, Grown(open, ignore, Joined(chunks[..k])), curline)
  {
    var k := Tail(chunks, atLine);
    if k == 0 {
      assert chunks[..k] == [] && chunks[k..] == chunks;
      assert open.Some? ==> open.value.text + "" == open.value.text;
    } else {
      CollectTail(p, chunks[1..], HasNewline(chunks[0]), from, ignore, Grown(open, ignore, chunks[0]), curline);
      TailStep(chunks, k);
      GrownTwice(open, ignore, chunks[0], Joined(chunks[1..][..k - 1]));
    }
  }

  function Grown(open: Option<Field>, ignore: bool, text: string): (grown: Option<Field>)
    ensures grown.Some? <==> open.Some?
  {
    if ignore || open.None? then open else Some(Field(open.value.slot, open.value.text + text))
  }

  lemma GrownTwice(open: Option<Field>, ignore: bool, a: string, b: string)
    ensures Grown(Grown(open, ignore, a), ignore, b) == Grown(open, ignore, a + b)
  {
    if open.Some? {
      Reassociate(open.value.text, a, b);
    }
  }

  /** The field that a line begins, if it is wanted. */
  function Begun(p: Policy, line: string, text: string, wanted: bool): Option<Field> {
    if wanted then Some(Field(p.slot(line), text)) else None
  }

  lemma CollectItem(p: Policy, retained: bool, wanted: (bool, string) -> bool, chunks: seq<string>,
                    from: bool, ignore: bool, open: Option<Field>, curline: nat)
    requires ByLine(p, retained, wanted) && (from ==> retained) && chunks != [] && !Continuation(chunks[0])
    requires Unlimited(p, curline)
    ensures var k, buf := Extent(chunks), chunks[0];
            Collect(p, chunks, true, from, ignore, open, curline) ==
            if Blank(buf) then Done(p, open)
            else Done(p, open) +
                 Collect(p, chunks[k..], true, p.seen(from, buf), !wanted(from, buf),
                         Begun(p, buf, Joined(chunks[..k]), wanted(from, buf)), p.curline(buf))
  {
    var buf, k := chunks[0], Extent(chunks);
    CollectTail(p, chunks[1..], HasNewline(buf), p.seen(from, buf), !wanted(from, buf),
                Begun(p, buf, buf, wanted(from, buf)), p.curline(buf));
    TailStep(chunks, k);
  }

  lemma PlacedStep(p: Policy, chunks: seq<string>, wanted: (bool, string) -> bool, retained: bool, from: bool)
    requires chunks != []
    ensures var k, met := Extent(chunks), Met(retained, from, chunks[0]);
            Placed(p, Chosen(Header(Items(chunks)), wanted, retained, from)) ==
            if Blank(chunks[0]) then []
            else (if wanted(from, chunks[0]) then [Field(Place(p, chunks[0]), p.decoded(Joined(chunks[..k])))]
                  else []) +
                 Placed(p, Chosen(Header(Items(chunks[k..])), wanted, retained, met))
  {
    var k, met := Extent(chunks), Met(retained, from, chunks[0]);
    var first, rest := Item(chunks[0], Joined(chunks[..k])), Header(Items(chunks[k..]));
    assert ([first] + Items(chunks[k..]))[1..] == Items(chunks[k..]);
    assert ([first] + rest)[1..] == rest;
    assert ([first] + Chosen(rest, wanted, retained, met))[1..] == Chosen(rest, wanted, retained, met);
    assert [] + Chosen(rest, wanted, retained, met) == Chosen(rest, wanted, retained, met);
    assert [] + Placed(p, Chosen(rest, wanted, retained, met)) == Placed(p, Chosen(rest, wanted, retained, met));
  }

  lemma {:induction false} CollectItems(p: Policy, retained: bool, wanted: (bool, string) -> bool, chunks: seq<string>,
                                        from: bool, ignore: bool, open: Option<Field>, curline: nat)
    requires ByLine(p, retained, wanted) && (from ==> retained) && Unlimited(p, curline)
    requires chunks != [] ==> !Continuation(chunks[0])
    ensures Collect(p, chunks, true, from, ignore, open, curline) ==
            Done(p, open) + Placed(p, Chosen(Header(Items(chunks)), wanted, retained, from))
    decreases |chunks|
  {
    if chunks == [] {
      assert Done(p, open) + [] == Done(p, open);
    } else {
      var k, buf := Extent(chunks), chunks[0];
      CollectItem(p, retained, wanted, chunks, from, ignore, open, curline);
      PlacedStep(p, chunks, wanted, retained, from);
      if Blank(buf) {
        assert Done(p, open) + [] == Done(p, open);
      } else {
        CollectItems(p, retained, wanted, chunks[k..], p.seen(from, buf), !wanted(from, buf),
                     Begun(p, buf, Joined(chunks[..k]), wanted(from, buf)), p.curline(buf));
      }
    }
  }

  /** Continuation lines ahead of the first field are a field of their own. */
  lemma CollectLeading(p: Policy, chunks: seq<string>)
    requires chunks != [] && Continuation(chunks[0]) && Unlimited(p, 0)
    ensures var k := Extent(chunks);
            Collect(p, chunks, true, false, false, None, 0) ==
            Collect(p, chunks[k..], true, false, false, Some(Field(0, Joined(chunks[..k]))), 0)
  {
    CollectTail(p, chunks[1..], HasNewline(chunks[0]), false, false, Some(Field(0, chunks[0])), 0);
    TailStep(chunks, Extent(chunks));
  }

  /** Collecting without abbreviating yields the wanted fields of the header, each under its place. */
  lemma CollectedItems(p: Policy, retained: bool, wanted: (bool, string) -> bool, chunks: seq<string>)
    requires ByLine(p, retained, wanted) && Unlimited(p, 0)
    ensures Collect(p, chunks, true, false, false, None, 0) ==
            Placed(p, Chosen(Header(Items(chunks)), wanted, retained, false))
  {
    if chunks != [] && Continuation(chunks[0]) {
      var k := Extent(chunks);
      CollectLeading(p, chunks);
      PlacedStep(p, chunks, wanted, retained, false);
      CollectItems(p, retained, wanted, chunks[k..], false, false, Some(Field(0, Joined(chunks[..k]))), 0);
    } else {
      CollectItems(p, retained, wanted, chunks, false, false, None, 0);
    }
  }

  // ----- the two paths -----

  /** A "From " line that is not to be retained, or a field both paths drop. */
  predicate Unwanted(f: Flags, line: string) {
    ("From " <= line && !f.from) || DroppedByBoth(f, line)
  }

  /** The fields the fast path copies: not those its flags name. */
  predicate FastKeeps(f: Flags, line: string) {
    !(Unwanted(f, line) || (f.noQFrom && StartsCase(line, ">From ")))
  }

  function FastWanted(f: Flags): (bool, string) -> bool {
    (_, line) => FastKeeps(f, line)
  }

  /** The first "From " line is retained against weeding. */
  predicate Forced(f: Flags, from: bool, line: string) {
    f.from && f.forceFrom && !from && "From " <= line
  }

  /** The fields the collecting path keeps. */
  predicate CollectKeeps(cfg: Config, from: bool, line: string) {
    Continuation(line) ||
    !(Unwanted(cfg.flags, line) || (cfg.flags.weed && cfg.weeded(line) && !Forced(cfg.flags, from, line)) ||
      (cfg.flags.weedDelivered && StartsCase(line, "Delivered-To:")) || (cfg.flags.mime && IsMime(line)))
  }

  function CollectWanted(cfg: Config): (bool, string) -> bool {
    (from, line) => CollectKeeps(cfg, from, line)
  }

  /** Blank lines, continuation lines and lines starting with "From " are none of the fields that are dropped. */
  lemma PlainLine(f: Flags, line: string)
    requires Blank(line) || Continuation(line) || "From " <= line
    ensures !DroppedByBoth(f, line) && !StartsCase(line, ">From ")
    ensures "From " <= line ==> !Blank(line) && !Continuation(line)
    ensures Blank(line) ==> !Continuation(line)
  {
    assert line[0] in {' ', '\t', '\n', '\r', 'F'};
    NotStarts(line, "Status:");
    NotStarts(line, "X-Status:");
    NotStarts(line, "Content-Length:");
    NotStarts(line, "Lines:");
    NotStarts(line, "References:");
    NotStarts(line, "In-Reply-To:");
    NotStarts(line, ">From ");
  }

  lemma FastLine(f: Flags, from: bool, buf: string)
    requires from ==> f.from
    ensures Continuation(buf) ==> FastKeeps(f, buf)
    ensures FastVerdict(f, from, buf) == if Blank(buf) then Stop else if FastKeeps(f, buf) then Keep else Skip
  {
    if Blank(buf) || Continuation(buf) || "From " <= buf {
      PlainLine(f, buf);
    }
  }

  lemma FastByLine(f: Flags)
    ensures ByLine(FastPolicy(f), f.from, FastWanted(f))
  {
    forall buf
      ensures Continuation(buf) ==> FastKeeps(f, buf)
    {
      FastLine(f, false, buf);
    }
    forall from, buf | from ==> f.from
      ensures FastVerdict(f, from, buf) == if Blank(buf) then Stop else if FastKeeps(f, buf) then Keep else Skip
    {
      FastLine(f, from, buf);
    }
  }

  lemma CollectLine(cfg: Config, from: bool, buf: string)
    requires (from ==> cfg.flags.from) && !Continuation(buf)
    ensures CollectVerdict(cfg, from, buf) ==
            if Blank(buf) then Stop else if CollectKeeps(cfg, from, buf) then Keep else Skip
  {
    if Blank(buf) || "From " <= buf {
      PlainLine(cfg.flags, buf);
    }
  }

  lemma CollectByLine(cfg: Config)
    ensures ByLine(CollectPolicy(cfg), cfg.flags.from, CollectWanted(cfg))
  {
    forall from, buf | (from ==> cfg.flags.from) && !Continuation(buf)
      ensures CollectVerdict(cfg, from, buf) ==
              if Blank(buf) then Stop else if CollectKeeps(cfg, from, buf) then Keep else Skip
    {
      CollectLine(cfg, from, buf);
    }
  }

  /** The fast path writes the fields of the header that its flags do not name, whole and in order. */
  lemma FastPathWrites(f: Flags, chunks: seq<string>)
    ensures FastCopy(FastPolicy(f), chunks, true, false, false) ==
            Text(Chosen(Header(Items(chunks)), FastWanted(f), f.from, false))
  {
    FastByLine(f);
    CopiedItems(FastPolicy(f), f.from, FastWanted(f), chunks);
  }

  /** What the collecting path is to collect. */
  function Kept(cfg: Config, data: string, start: nat, end: nat): seq<Item>
    requires start <= |data|
  {
    Chosen(Header(Items(Chunks(data, start, end))), CollectWanted(cfg), cfg.flags.from, false)
  }

  predicate Unabbreviated(cfg: Config) {
    cfg.maxRecips == 0 || !cfg.flags.weed
  }

  /** The collecting path collects the fields of the header that it is to keep, whole and in order. */
  lemma CollectingPathKeeps(cfg: Config, data: string, start: nat, end: nat)
    requires start <= |data| && Unabbreviated(cfg)
    ensures FieldsOf(CollectPolicy(cfg), data, start, end) == Placed(CollectPolicy(cfg), Kept(cfg, data, start, end))
  {
    CollectByLine(cfg);
    assert Unlimited(CollectPolicy(cfg), 0) by {
      assert !cfg.flags.weed ==> forall buf :: StartCurline(cfg, buf) == 0;
    }
    CollectedItems(CollectPolicy(cfg), cfg.flags.from, CollectWanted(cfg), Chunks(data, start, end));
  }

  /** x is the first entry of the order list the line starts with, or the place after all of them. */
  ghost predicate FirstMatch(order: seq<string>, line: string, x: nat) {
    x <= |order| && (x < |order| ==> StartsCase(line, order[x])) &&
    forall y :: 0 <= y < x ==> !StartsCase(line, order[y])
  }

  /** The field is the item, decoded if asked for, under the place of the first entry of $hdr_order it matches. */
  ghost predicate Represents(cfg: Config, item: Item, field: Field) {
    field.text == (if cfg.flags.decode then cfg.decoded(item.text) else item.text) &&
    if cfg.flags.reorder && !Continuation(item.line) then FirstMatch(cfg.order, item.line, field.slot)
    else field.slot == 0
  }

  lemma {:induction false} PlacedRepresents(cfg: Config, items: seq<Item>)
    ensures var fields := Placed(CollectPolicy(cfg), items);
            |fields| == |items| && forall i :: 0 <= i < |items| ==> Represents(cfg, items[i], fields[i])
  {
    if items != [] {
      PlacedRepresents(cfg, items[1..]);
      var rest := Placed(CollectPolicy(cfg), items[1..]);
      var first := Field(Place(CollectPolicy(cfg), items[0].line), CollectPolicy(cfg).decoded(items[0].text));
      forall i | 0 <= i < |items|
        ensures Represents(cfg, items[i], ([first] + rest)[i])
      {
        assert i > 0 ==> items[i] == items[1..][i - 1] && ([first] + rest)[i] == rest[i - 1];
      }
    }
  }

  /** Without a prefix the output is the texts of the kept fields, sorted stably by the first entry of $hdr_order each
      of them matches. */
  lemma ReorderedOutput(cfg: Config, data: string, start: nat, end: nat)
    requires start <= |data| && Unabbreviated(cfg) && !cfg.flags.prefixed
    ensures var items, n := Kept(cfg, data, start, end), HdrCount(cfg);
            var fields := Placed(CollectPolicy(cfg), items);
            Collected(cfg, data, start, end) == Texts(Sorted(fields, n)) &&
            |fields| == |items| && (forall i :: 0 <= i < |items| ==> Represents(cfg, items[i], fields[i])) &&
            multiset(Sorted(fields, n)) == multiset(fields) && Ascending(Sorted(fields, n)) &&
            forall x :: 0 <= x < n ==> At(Sorted(fields, n), x) == At(fields, x)
  {
    var items, n := Kept(cfg, data, start, end), HdrCount(cfg);
    var fields := Placed(CollectPolicy(cfg), items);
    CollectingPathKeeps(cfg, data, start, end);
    EntriesAreSorted(cfg, fields, n);
    PlacedRepresents(cfg, items);
    SlotsBelow(cfg, items, fields);
    SortedIsStablePartition(fields, n);
  }

  lemma SlotsBelow(cfg: Config, items: seq<Item>, fields: seq<Field>)
    requires |fields| == |items| && forall i :: 0 <= i < |items| ==> Represents(cfg, items[i], fields[i])
    ensures forall f :: f in fields ==> f.slot < HdrCount(cfg)
  {
    forall f | f in fields
      ensures f.slot < HdrCount(cfg)
    {
      var i :| 0 <= i < |fields| && fields[i] == f;
      assert Represents(cfg, items[i], fields[i]);
    }
  }
}
