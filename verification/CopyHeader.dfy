/** Copying a message header: mutt_copy_hdr (copy.c). */
module CopyHeader {
  import opened Ascii
  import opened Options
  import opened Sequences

  // It is copied line by line, or its fields are collected first to filter, reorder and prefix them.

  const STRING := 256

  datatype Flags = Flags(
    from: bool, forceFrom: bool, noQFrom: bool,
    dropStatus: bool,      // CH_UPDATE, CH_XMIT or CH_NOSTATUS
    dropLength: bool,      // CH_UPDATE_LEN, CH_XMIT or CH_NOLEN
    dropRefs: bool, dropIrt: bool,
    reorder: bool, weed: bool, mime: bool, weedDelivered: bool, prefixed: bool, decode: bool)
  {
    predicate Simple() {
      !reorder && !weed && !mime && !weedDelivered && !prefixed && !decode
    }
  }

  /** Flags, the prefix, $hdr_order, the ignore/unignore decision, $max_display_recips, and what address or RFC 2047
      decoding makes of a field. */
  datatype Config = Config(flags: Flags, prefix: string, order: seq<string>, weeded: string -> bool, maxRecips: nat,
                           decoded: string -> string)

  // ----- lines -----

  predicate HasNewline(buf: string) {
    '\n' in buf
  }

  /** Length of what fgets puts into a buffer of STRING bytes, reading from pos. */
  function LineLength(data: string, pos: nat, n: nat): (r: nat)
    requires n < STRING && pos + n <= |data|
    ensures n <= r < STRING && pos + r <= |data|
    ensures n + 1 < STRING && pos + n < |data| ==> r > n
    decreases STRING - n
  {
    if n + 1 == STRING || pos + n == |data| then n
    else if data[pos + n] == '\n' then n + 1
    else LineLength(data, pos, n + 1)
  }

  function Fgets(data: string, pos: nat): (buf: string)
    requires pos < |data|
    ensures buf != "" && pos + |buf| <= |data|
  {
    data[pos..pos + LineLength(data, pos, 0)]
  }

  /** The buffers read between pos and end. */
  function Chunks(data: string, pos: nat, end: nat): seq<string>
    requires pos <= |data|
    decreases |data| - pos
  {
    if pos >= end || pos == |data| then []
    else [Fgets(data, pos)] + Chunks(data, pos + |Fgets(data, pos)|, end)
  }

  /** ascii_strncasecmp (buf, key, strlen (key)) == 0 */
  predicate StartsCase(buf: string, key: string) {
    |key| <= |buf| && forall i :: 0 <= i < |key| ==> LowerChar(buf[i]) == LowerChar(key[i])
  }

  predicate Continuation(buf: string) {
    buf != "" && (buf[0] == ' ' || buf[0] == '\t')
  }

  predicate Blank(buf: string) {
    "\n" <= buf || "\r\n" <= buf
  }

  // ----- what happens to the line that begins a field -----

  datatype Verdict = Stop | Skip | Keep

  predicate DroppedByBoth(f: Flags, buf: string) {
    (f.dropStatus && (StartsCase(buf, "Status:") || StartsCase(buf, "X-Status:"))) ||
    (f.dropLength && (StartsCase(buf, "Content-Length:") || StartsCase(buf, "Lines:"))) ||
    (f.dropRefs && StartsCase(buf, "References:")) ||
    (f.dropIrt && StartsCase(buf, "In-Reply-To:"))
  }

  predicate IsMime(buf: string) {
    (StartsCase(buf, "content-") &&
     (StartsCase(buf[8..], "transfer-encoding:") || StartsCase(buf[8..], "type:"))) ||
    StartsCase(buf, "mime-version:")
  }

  /** Is this the first "From " line, not seen before? */
  predicate FirstFrom(from: bool, buf: string) {
    !from && "From " <= buf
  }

  function FastVerdict(f: Flags, from: bool, buf: string): Verdict {
    if FirstFrom(from, buf) then
      if !f.from then Skip else if DroppedByBoth(f, buf) then Skip else Keep
    else if f.noQFrom && StartsCase(buf, ">From ") then Skip
    else if Blank(buf) then Stop
    else if DroppedByBoth(f, buf) then Skip
    else Keep
  }

  function CollectVerdict(cfg: Config, from: bool, buf: string): Verdict {
    var f := cfg.flags;
    if FirstFrom(from, buf) && !f.from then Skip
    else if !FirstFrom(from, buf) && Blank(buf) then Stop
    else if !(f.from && f.forceFrom && FirstFrom(from, buf)) && f.weed && cfg.weeded(buf) then Skip
    else if f.weedDelivered && StartsCase(buf, "Delivered-To:") then Skip
    else if f.mime && IsMime(buf) then Skip
    else if DroppedByBoth(f, buf) then Skip
    else Keep
  }

  function SeenFrom(f: Flags, from: bool, buf: string): bool {
    from || (FirstFrom(from, buf) && f.from)
  }

  /** The decisions about the lines that begin a field: keep it, where to collect it, whether to
      abbreviate it, and whether the "From " line has now been seen; and what becomes of a complete field. */
  datatype Policy = Policy(verdict: (bool, string) -> Verdict, seen: (bool, string) -> bool,
                           slot: string -> nat, curline: string -> nat, maxRecips: nat, decoded: string -> string)

  // ----- specification: copying, and collecting -----

  function FastCopy(p: Policy, chunks: seq<string>, atLine: bool, from: bool, ignore: bool): string {
    if chunks == [] then ""
    else
      var buf, rest := chunks[0], chunks[1..];
      if atLine && !Continuation(buf) then
        match p.verdict(from, buf)
        case Stop => ""
        case Skip => FastCopy(p, rest, HasNewline(buf), p.seen(from, buf), true)
        case Keep => buf + FastCopy(p, rest, HasNewline(buf), p.seen(from, buf), false)
      else if ignore then FastCopy(p, rest, HasNewline(buf), from, ignore)
      else buf + FastCopy(p, rest, HasNewline(buf), from, ignore)
  }

  /** A field with its continuation lines, and the place in the order list it is collected under. */
  datatype Field = Field(slot: nat, text: string)

  /** The first entry of the order list the line starts with; the place after the last if there is none. */
  function SlotOf(order: seq<string>, buf: string): (x: nat)
    ensures x <= |order|
    ensures x < |order| ==> StartsCase(buf, order[x])
    ensures forall y :: 0 <= y < x ==> !StartsCase(buf, order[y])
  {
    if order == [] || StartsCase(buf, order[0]) then 0 else 1 + SlotOf(order[1..], buf)
  }

  function Slot(cfg: Config, buf: string): nat {
    if cfg.flags.reorder then SlotOf(cfg.order, buf) else 0
  }

  function StartCurline(cfg: Config, buf: string): nat {
    if cfg.flags.weed && ("To:" <= buf || "Cc:" <= buf || "Bcc:" <= buf) then 1 else 0
  }

  /** Appending a continuation line, long recipient lists being abbreviated; and the new line count. */
  function Continue(maxRecips: nat, text: string, curline: nat, buf: string): (string, nat) {
    if curline == 0 || maxRecips == 0 then (text + buf, curline)
    else if curline + 1 <= maxRecips then (text + buf, curline + 1)
    else if curline + 1 == maxRecips + 1 then (text + " ...", curline + 1)
    else (text, curline + 1)
  }

  function Done(p: Policy, open: Option<Field>): seq<Field> {
    if open.None? then [] else [Field(open.value.slot, p.decoded(open.value.text))]
  }

  /** The kept fields in the order they are met; lines before the first field count as one, at place 0. */
  function Collect(p: Policy, chunks: seq<string>, atLine: bool, from: bool, ignore: bool,
                   open: Option<Field>, curline: nat): seq<Field>
  {
    if chunks == [] then Done(p, open)
    else
      var buf, rest := chunks[0], chunks[1..];
      if atLine && !Continuation(buf) then
        match p.verdict(from, buf)
        case Stop => Done(p, open)
        case Skip => Done(p, open) + Collect(p, rest, HasNewline(buf), p.seen(from, buf), true, None, p.curline(buf))
        case Keep => Done(p, open) + Collect(p, rest, HasNewline(buf), p.seen(from, buf), false,
                                          Some(Field(p.slot(buf), buf)), p.curline(buf))
      else if ignore then Collect(p, rest, HasNewline(buf), from, ignore, open, curline)
      else if open.None? then Collect(p, rest, HasNewline(buf), from, ignore, Some(Field(0, buf)), curline)
      else
        var (text, curline') := Continue(p.maxRecips, open.value.text, curline, buf);
        Collect(p, rest, HasNewline(buf), from, ignore, Some(Field(open.value.slot, text)), curline')
  }

  function FastPolicy(f: Flags): Policy {
    Policy((from, buf) => FastVerdict(f, from, buf), (from, buf) => SeenFrom(f, from, buf), _ => 0, _ => 0, 0,
           text => text)
  }

  function CollectPolicy(cfg: Config): Policy {
    Policy((from, buf) => CollectVerdict(cfg, from, buf), (from, buf) => SeenFrom(cfg.flags, from, buf),
           buf => Slot(cfg, buf), buf => StartCurline(cfg, buf), cfg.maxRecips,
           text => if cfg.flags.decode then cfg.decoded(text) else text)
  }

  function FieldsOf(p: Policy, data: string, start: nat, end: nat): seq<Field>
    requires start <= |data|
  {
    Collect(p, Chunks(data, start, end), true, false, false, None, 0)
  }

  function Texts(fields: seq<Field>): string {
    if fields == [] then "" else Texts(fields[..|fields| - 1]) + fields[|fields| - 1].text
  }

  /** The fields collected under place x, in the order met. */
  function At(fields: seq<Field>, x: nat): seq<Field> {
    if fields == [] then []
    else At(fields[..|fields| - 1], x) + if fields[|fields| - 1].slot == x then [fields[|fields| - 1]] else []
  }

  /** All fields, those of places 0..n one place after the other. */
  function Sorted(fields: seq<Field>, n: nat): seq<Field> {
    if n == 0 then [] else Sorted(fields, n - 1) + At(fields, n - 1)
  }

  /** The prefix goes before every line of a collected entry. */
  function Prefixed(prefix: string, text: string, due: bool): string {
    if text == "" then ""
    else
      (if due then prefix else "") + [text[0]] +
      Prefixed(prefix, text[1..], text[0] == '\n' && |text| > 1)
  }

  function Entry(cfg: Config, fields: seq<Field>, x: nat): string {
    var text := Texts(At(fields, x));
    if cfg.flags.prefixed then Prefixed(cfg.prefix, text, true) else text
  }

  function Entries(cfg: Config, fields: seq<Field>, n: nat): string {
    if n == 0 then "" else Entries(cfg, fields, n - 1) + Entry(cfg, fields, n - 1)
  }

  function HdrCount(cfg: Config): nat {
    1 + if cfg.flags.reorder then |cfg.order| else 0
  }

  // ----- mutt_copy_hdr -----

  function Fast(cfg: Config, data: string, start: nat, end: nat): string
    requires start <= |data|
  {
    FastCopy(FastPolicy(cfg.flags.(prefixed := false)), Chunks(data, start, end), true, false, false)
  }

  function Collected(cfg: Config, data: string, start: nat, end: nat): string
    requires start <= |data|
  {
    Entries(cfg, FieldsOf(CollectPolicy(cfg), data, start, end), HdrCount(cfg))
  }

  function Copied(cfg: Config, data: string, start: nat, end: nat): string
    requires start <= |data|
  {
    if cfg.flags.Simple() then Fast(cfg, data, start, end) else Collected(cfg, data, start, end)
  }

  method CopyHdr(cfg: Config, data: string, start: nat, end: nat) returns (out: string)
    requires start <= |data|
    ensures out == Copied(cfg, data, start, end)
  {
    if cfg.flags.Simple() {
      out := CopyLines(FastPolicy(cfg.flags), data, start, end);
    } else {
      var headers := new Option<string>[HdrCount(cfg)](_ => None);
      CollectFields(CollectPolicy(cfg), data, start, end, headers);
      out := PutEntries(cfg, headers, FieldsOf(CollectPolicy(cfg), data, start, end));
    }
  }

  /** What has been written, followed by the copy of the chunks still to come, is the goal. */
  ghost predicate Copying(p: Policy, chunks: seq<string>, nl: bool, from: bool, ignore: bool, out: string,
                          goal: string)
  {
    out + FastCopy(p, chunks, nl, from, ignore) == goal
  }

  /** The next buffer: the first of the chunks still to come. */
  method ReadLine(data: string, pos: nat, ghost end: nat) returns (buf: string, ghost rest: seq<string>)
    requires pos < end && pos < |data|
    ensures buf != "" && pos + |buf| <= |data|
    ensures rest == Chunks(data, pos + |buf|, end) && Chunks(data, pos, end) == [buf] + rest
  {
    buf := Fgets(data, pos);
    rest := Chunks(data, pos + |buf|, end);
  }

  /** One chunk: a field begins and its fate is decided, or the field at hand goes on. */
  method CopyLine(p: Policy, buf: string, ghost rest: seq<string>, nl: bool, from0: bool, ignore0: bool,
                  out0: string, ghost goal: string)
    returns (out: string, from: bool, ignore: bool, stop: bool)
    requires Copying(p, [buf] + rest, nl, from0, ignore0, out0, goal)
    ensures if stop then out == goal else Copying(p, rest, HasNewline(buf), from, ignore, out, goal)
  {
    CopyStep(p, buf, rest, nl, from0, ignore0, out0, goal);
    out, from, ignore, stop := out0, from0, ignore0, false;
    if nl && !Continuation(buf) {
      var verdict := p.verdict(from, buf);
      from, ignore := p.seen(from, buf), verdict != Keep;
      if verdict == Stop {
        stop := true;
        return;
      }
    }
    if !ignore {
      out := out + buf;
    }
  }

  /** The fast path. */
  method CopyLines(p: Policy, data: string, start: nat, end: nat) returns (out: string)
    requires start <= |data|
    ensures out == FastCopy(p, Chunks(data, start, end), true, false, false)
  {
    out := "";
    var pos, from, ignore, nl, stop := start, false, false, true, false;
    ghost var goal := FastCopy(p, Chunks(data, start, end), true, false, false);
    CopyBegins(p, Chunks(data, start, end));
    while !stop && pos < end && pos < |data|
      invariant pos <= |data|
      invariant if stop then out == goal else Copying(p, Chunks(data, pos, end), nl, from, ignore, out, goal)
      decreases |data| - pos
    {
      var buf, rest := ReadLine(data, pos, end);
      out, from, ignore, stop := CopyLine(p, buf, rest, nl, from, ignore, out, goal);
      pos, nl := pos + |buf|, HasNewline(buf);
    }
    if !stop {
      CopyEnds(p, Chunks(data, pos, end), nl, from, ignore, out, goal);
    }
  }

  lemma CopyBegins(p: Policy, chunks: seq<string>)
    ensures Copying(p, chunks, true, false, false, "", FastCopy(p, chunks, true, false, false))
  {
  }

  lemma CopyEnds(p: Policy, chunks: seq<string>, nl: bool, from: bool, ignore: bool, out: string, goal: string)
    requires chunks == [] && Copying(p, chunks, nl, from, ignore, out, goal)
    ensures out == goal
  {
  }

  lemma CopyStep(p: Policy, buf: string, rest: seq<string>, nl: bool, from: bool, ignore: bool, out: string,
                 goal: string)
    requires Copying(p, [buf] + rest, nl, from, ignore, out, goal)
    ensures if nl && !Continuation(buf) then
              var verdict, seen := p.verdict(from, buf), p.seen(from, buf);
              match verdict
              case Stop => out == goal
              case Skip => Copying(p, rest, HasNewline(buf), seen, true, out, goal)
              case Keep => Copying(p, rest, HasNewline(buf), seen, false, out + buf, goal)
            else Copying(p, rest, HasNewline(buf), from, ignore, if ignore then out else out + buf, goal)
  {
    assert ([buf] + rest)[1..] == rest;
    if nl && !Continuation(buf) {
      Reassociate(out, buf, FastCopy(p, rest, HasNewline(buf), p.seen(from, buf), false));
    } else {
      Reassociate(out, buf, FastCopy(p, rest, HasNewline(buf), from, ignore));
    }
  }

  function HeldAt(fields: seq<Field>, x: nat): Option<string> {
    if At(fields, x) == [] then None else Some(Texts(At(fields, x)))
  }

  ghost predicate Holds(headers: array<Option<string>>, fields: seq<Field>)
    reads headers
  {
    forall x :: 0 <= x < headers.Length ==> headers[x] == HeldAt(fields, x)
  }

  /** Add the pending field to its entry. */
  method Flush(headers: array<Option<string>>, x: nat, thisOne: Option<string>, ghost fields: seq<Field>)
    requires Holds(headers, fields) && x < headers.Length
    modifies headers
    ensures Holds(headers, fields + if thisOne.None? then [] else [Field(x, thisOne.value)])
  {
    if thisOne.Some? {
      HeldAfter(fields, Field(x, thisOne.value));
      if headers[x].None? {
        headers[x] := thisOne;
      } else {
        headers[x] := Some(headers[x].value + thisOne.value);
      }
    } else {
      assert fields + [] == fields;
    }
  }

  lemma HeldAfter(fields: seq<Field>, f: Field)
    ensures forall x: nat :: HeldAt(fields + [f], x) ==
              if x != f.slot then HeldAt(fields, x)
              else if HeldAt(fields, x).None? then Some(f.text) else Some(HeldAt(fields, x).value + f.text)
  {
    forall x: nat
      ensures HeldAt(fields + [f], x) ==
              if x != f.slot then HeldAt(fields, x)
              else if HeldAt(fields, x).None? then Some(f.text) else Some(HeldAt(fields, x).value + f.text)
    {
      HeldAtAfter(fields, f, x);
    }
  }

  lemma HeldAtAfter(fields: seq<Field>, f: Field, x: nat)
    ensures HeldAt(fields + [f], x) ==
            if x != f.slot then HeldAt(fields, x)
            else if HeldAt(fields, x).None? then Some(f.text) else Some(HeldAt(fields, x).value + f.text)
  {
    assert (fields + [f])[..|fields|] == fields;
    if x == f.slot {
      assert (At(fields, x) + [f])[..|At(fields, x)|] == At(fields, x);
      assert "" + f.text == f.text;
    } else {
      assert At(fields, x) + [] == At(fields, x);
    }
  }

  ghost function Open(thisOne: Option<string>, x: nat): Option<Field> {
    if thisOne.None? then None else Some(Field(x, thisOne.value))
  }

  /** The collecting loop at some line: `done` has been collected, thisOne is pending for place x. */
  ghost predicate Reading(p: Policy, chunks: seq<string>, nl: bool, from: bool, ignore: bool, thisOne: Option<string>,
                          x: nat, curline: nat, done: seq<Field>, goal: seq<Field>)
  {
    (thisOne.None? && !ignore ==> x == 0) &&
    done + Collect(p, chunks, nl, from, ignore, Open(thisOne, x), curline) == goal
  }

  lemma BeginLine(p: Policy, buf: string, rest: seq<string>, from: bool, ignore: bool, thisOne: Option<string>,
                  x: nat, curline: nat, done: seq<Field>, goal: seq<Field>)
    requires Reading(p, [buf] + rest, true, from, ignore, thisOne, x, curline, done, goal) && !Continuation(buf)
    ensures var done', seen := done + Done(p, Open(thisOne, x)), p.seen(from, buf);
            match p.verdict(from, buf)
            case Stop => done' == goal
            case Skip => Reading(p, rest, HasNewline(buf), seen, true, None, x, p.curline(buf), done', goal)
            case Keep => Reading(p, rest, HasNewline(buf), seen, false, Some(buf), p.slot(buf), p.curline(buf),
                done', goal)
  {
    assert ([buf] + rest)[1..] == rest;
    var open, seen := Open(thisOne, x), p.seen(from, buf);
    Reassociate(done, Done(p, open), Collect(p, rest, HasNewline(buf), seen, true, None, p.curline(buf)));
    Reassociate(done, Done(p, open), Collect(p, rest, HasNewline(buf), seen, false, Some(Field(p.slot(buf), buf)),
                p.curline(buf)));
  }

  lemma ContinueLine(p: Policy, buf: string, rest: seq<string>, nl: bool, from: bool, ignore: bool,
                     thisOne: Option<string>, x: nat, curline: nat, done: seq<Field>, goal: seq<Field>)
    requires Reading(p, [buf] + rest, nl, from, ignore, thisOne, x, curline, done, goal) && (!nl || Continuation(buf))
    ensures if ignore then Reading(p, rest, HasNewline(buf), from, ignore, thisOne, x, curline, done, goal)
            else if thisOne.None? then Reading(p, rest, HasNewline(buf), from, ignore, Some(buf), x, curline, done,
                goal)
            else
              var (text, curline') := Continue(p.maxRecips, thisOne.value, curline, buf);
              Reading(p, rest, HasNewline(buf), from, ignore, Some(text), x, curline', done, goal)
  {
    assert ([buf] + rest)[1..] == rest;
  }

  /** The collecting path. */
  method CollectFields(p: Policy, data: string, start: nat, end: nat, headers: array<Option<string>>)
    requires start <= |data| && headers.Length > 0 && Holds(headers, [])
    requires forall buf: string :: p.slot(buf) < headers.Length
    modifies headers
    ensures Holds(headers, FieldsOf(p, data, start, end))
  {
    var pos, from, ignore, nl := start, false, false, true;
    var x: nat, curline: nat := 0, 0;
    var thisOne: Option<string> := None;
    ghost var done: seq<Field> := [];
    ghost var goal := FieldsOf(p, data, start, end);
    CollectBegins(p, Chunks(data, start, end));
    while pos < end && pos < |data|
      invariant pos <= |data| && x < headers.Length && Holds(headers, done)
      invariant Reading(p, Chunks(data, pos, end), nl, from, ignore, thisOne, x, curline, done, goal)
      decreases |data| - pos
    {
      var buf, rest := ReadLine(data, pos, end);
      if nl && !Continuation(buf) {
        var stop;
        stop, ignore, thisOne, x, done :=
          BeginField(p, buf, rest, from, ignore, thisOne, x, curline, headers, done, goal);
        if stop {
          return;
        }
        from, curline := p.seen(from, buf), p.curline(buf);
      } else {
        thisOne, curline := GoOn(p, buf, rest, nl, from, ignore, thisOne, x, curline, done, goal);
      }
      pos, nl := pos + |buf|, HasNewline(buf);
    }
    CollectEnds(p, Chunks(data, pos, end), nl, from, ignore, thisOne, x, curline, done, goal);
    Flush(headers, x, Decoded(p, thisOne), done);
  }

  lemma CollectBegins(p: Policy, chunks: seq<string>)
    ensures Reading(p, chunks, true, false, false, None, 0, 0, [], Collect(p, chunks, true, false, false, None, 0))
  {
    Neutral(Collect(p, chunks, true, false, false, None, 0));
  }

  lemma CollectEnds(p: Policy, chunks: seq<string>, nl: bool, from: bool, ignore: bool, thisOne: Option<string>,
                    x: nat, curline: nat, done: seq<Field>, goal: seq<Field>)
    requires chunks == [] && Reading(p, chunks, nl, from, ignore, thisOne, x, curline, done, goal)
    ensures done + Done(p, Open(thisOne, x)) == goal
  {
  }

  function Decoded(p: Policy, thisOne: Option<string>): Option<string> {
    if thisOne.None? then None else Some(p.decoded(thisOne.value))
  }

  /** A line that goes on with the field at hand, if that is kept. */
  method GoOn(p: Policy, buf: string, ghost rest: seq<string>, ghost nl: bool, ghost from: bool, ignore: bool,
              thisOne0: Option<string>, ghost x: nat, curline0: nat, ghost done: seq<Field>, ghost goal: seq<Field>)
    returns (thisOne: Option<string>, curline: nat)
    requires Reading(p, [buf] + rest, nl, from, ignore, thisOne0, x, curline0, done, goal) && (!nl || Continuation(buf))
    ensures Reading(p, rest, HasNewline(buf), from, ignore, thisOne, x, curline, done, goal)
  {
    ContinueLine(p, buf, rest, nl, from, ignore, thisOne0, x, curline0, done, goal);
    thisOne, curline := thisOne0, curline0;
    if !ignore {
      if thisOne.None? {
        thisOne := Some(buf);
      } else {
        var (text, line) := Continue(p.maxRecips, thisOne.value, curline, buf);
        thisOne, curline := Some(text), line;
      }
    }
  }

  /** A line that begins a field: the pending field goes to its entry, and the new one is judged. */
  method BeginField(p: Policy, buf: string, ghost rest: seq<string>, from: bool, ghost ignore: bool,
                    thisOne: Option<string>, x: nat, ghost curline: nat, headers: array<Option<string>>,
                    ghost before: seq<Field>, ghost goal: seq<Field>)
    returns (stop: bool, ignore': bool, thisOne': Option<string>, x': nat, ghost done: seq<Field>)
    requires !Continuation(buf) && x < headers.Length && p.slot(buf) < headers.Length && Holds(headers, before)
    requires Reading(p, [buf] + rest, true, from, ignore, thisOne, x, curline, before, goal)
    modifies headers
    ensures Holds(headers, done) && x' < headers.Length
    ensures if stop then done == goal
            else Reading(p, rest, HasNewline(buf), p.seen(from, buf), ignore', thisOne', x', p.curline(buf), done, goal)
  {
    BeginLine(p, buf, rest, from, ignore, thisOne, x, curline, before, goal);
    Flush(headers, x, Decoded(p, thisOne), before);
    done := before + Done(p, Open(thisOne, x));
    stop, ignore', thisOne', x' := false, true, None, x;
    match p.verdict(from, buf)
    case Stop =>
      stop := true;
    case Skip =>
    case Keep =>
      ignore', thisOne', x' := false, Some(buf), p.slot(buf);
  }

  /** The output loop. */
  method PutEntries(cfg: Config, headers: array<Option<string>>, ghost fields: seq<Field>) returns (out: string)
    requires Holds(headers, fields) && headers.Length == HdrCount(cfg)
    ensures out == Entries(cfg, fields, HdrCount(cfg))
  {
    out := "";
    var x := 0;
    while x < headers.Length
      invariant 0 <= x <= headers.Length && out == Entries(cfg, fields, x)
    {
      if headers[x].Some? {
        if cfg.flags.prefixed {
          var text := PutPrefixed(cfg.prefix, headers[x].value);
          out := out + text;
        } else {
          out := out + headers[x].value;
        }
      } else {
        assert Entry(cfg, fields, x) == "";
      }
      x := x + 1;
    }
  }

  method PutPrefixed(prefix: string, text: string) returns (out: string)
    ensures out == Prefixed(prefix, text, true)
  {
    out := "";
    var due, i := true, 0;
    ghost var goal := Prefixed(prefix, text, true);
    assert text[0..] == text;
    while i < |text|
      invariant 0 <= i <= |text| && out + Prefixed(prefix, text[i..], due) == goal
    {
      PrefixedStep(prefix, text, i, due);
      ghost var rest := Prefixed(prefix, text[i + 1..], text[i] == '\n' && i + 1 < |text|);
      Reassociate(out, Lead(prefix, due) + [text[i]], rest);
      Reassociate(out, Lead(prefix, due), [text[i]]);
      out := out + Lead(prefix, due);
      due := text[i] == '\n' && i + 1 < |text|;
      out := out + [text[i]];
      i := i + 1;
    }
    assert text[i..] == "" && out + "" == out;
  }

  function Lead(prefix: string, due: bool): string {
    if due then prefix else ""
  }

  lemma PrefixedStep(prefix: string, text: string, i: nat, due: bool)
    requires i < |text|
    ensures Prefixed(prefix, text[i..], due) ==
            Lead(prefix, due) + [text[i]] + Prefixed(prefix, text[i + 1..], text[i] == '\n' && i + 1 < |text|)
  {
    assert text[i..][1..] == text[i + 1..];
  }

  // ----- reordering is a stable partition -----

  lemma {:induction false} AtAppend(a: seq<Field>, b: seq<Field>, x: nat)
    ensures At(a + b, x) == At(a, x) + At(b, x)
  {
    if b == [] {
      assert a + b == a;
    } else {
      assert (a + b)[..|a + b| - 1] == a + b[..|b| - 1];
      AtAppend(a, b[..|b| - 1], x);
    }
  }

  lemma {:induction false} AtSlots(fields: seq<Field>, x: nat)
    ensures forall f :: f in At(fields, x) ==> f.slot == x
  {
    if fields != [] {
      AtSlots(fields[..|fields| - 1], x);
    }
  }

  lemma {:induction false} AtAll(fields: seq<Field>, x: nat)
    requires forall f :: f in fields ==> f.slot == x
    ensures At(fields, x) == fields
  {
    if fields != [] {
      AtAll(fields[..|fields| - 1], x);
    }
  }

  lemma {:induction false} AtNone(fields: seq<Field>, x: nat)
    requires forall f :: f in fields ==> f.slot != x
    ensures At(fields, x) == []
  {
    if fields != [] {
      AtNone(fields[..|fields| - 1], x);
    }
  }

  ghost predicate Ascending(s: seq<Field>) {
    forall i, j :: 0 <= i < j < |s| ==> s[i].slot <= s[j].slot
  }

  /** Nothing lost, nothing duplicated, places ascending, and fields of one place in their old order. */
  lemma {:induction false} SortedIsStablePartition(fields: seq<Field>, n: nat)
    requires forall f :: f in fields ==> f.slot < n
    ensures multiset(Sorted(fields, n)) == multiset(fields)
    ensures Ascending(Sorted(fields, n))
    ensures forall x :: 0 <= x < n ==> At(Sorted(fields, n), x) == At(fields, x)
  {
    SortedKeepsAll(fields, n);
    SortedAscends(fields, n);
    forall x | 0 <= x < n
      ensures At(Sorted(fields, n), x) == At(fields, x)
    {
      SortedAt(fields, n, x);
    }
  }

  /** The fields of place x are all there if x is below n, and none is otherwise. */
  ghost predicate GroupBelow(sorted: seq<Field>, fields: seq<Field>, n: nat, x: nat) {
    At(sorted, x) == if x < n then At(fields, x) else []
  }

  lemma {:induction false} SortedAt(fields: seq<Field>, n: nat, x: nat)
    ensures GroupBelow(Sorted(fields, n), fields, n, x)
  {
    if n == 0 {
      NoGroups(fields, x);
    } else {
      SortedAt(fields, n - 1, x);
      JoinAt(Sorted(fields, n - 1), fields, n - 1, x);
      SortedStep(fields, n);
    }
  }

  lemma NoGroups(fields: seq<Field>, x: nat)
    ensures GroupBelow([], fields, 0, x)
  {
  }

  lemma SortedStep(fields: seq<Field>, n: nat)
    requires n > 0
    ensures Sorted(fields, n) == Sorted(fields, n - 1) + At(fields, n - 1)
  {
  }

  lemma JoinAt(sorted: seq<Field>, fields: seq<Field>, y: nat, x: nat)
    requires GroupBelow(sorted, fields, y, x)
    ensures GroupBelow(sorted + At(fields, y), fields, y + 1, x)
  {
    AtAppend(sorted, At(fields, y), x);
    GroupAt(fields, y, x);
    Neutral(At(sorted, x));
    Neutral(At(fields, y));
  }

  lemma Neutral(s: seq<Field>)
    ensures s + [] == s && [] + s == s
  {
  }

  lemma GroupAt(fields: seq<Field>, y: nat, x: nat)
    ensures At(At(fields, y), x) == if x == y then At(fields, y) else []
  {
    AtSlots(fields, y);
    if x == y {
      AtAll(At(fields, y), x);
    } else {
      AtNone(At(fields, y), x);
    }
  }

  lemma {:induction false} SortedAscends(fields: seq<Field>, n: nat)
    ensures forall i :: 0 <= i < |Sorted(fields, n)| ==> Sorted(fields, n)[i].slot < n
    ensures Ascending(Sorted(fields, n))
  {
    if n > 0 {
      SortedAscends(fields, n - 1);
      AtSlots(fields, n - 1);
      JoinAscending(Sorted(fields, n - 1), At(fields, n - 1), n - 1);
    }
  }

  lemma JoinAscending(a: seq<Field>, b: seq<Field>, n: nat)
    requires Ascending(a) && (forall i :: 0 <= i < |a| ==> a[i].slot < n) && forall f :: f in b ==> f.slot == n
    ensures Ascending(a + b) && forall i :: 0 <= i < |a + b| ==> (a + b)[i].slot <= n
  {
    forall i | 0 <= i < |b|
      ensures b[i].slot == n
    {
    }
  }

  lemma SortedKeepsAll(fields: seq<Field>, n: nat)
    requires forall f :: f in fields ==> f.slot < n
    ensures multiset(Sorted(fields, n)) == multiset(fields)
  {
    forall f
      ensures multiset(Sorted(fields, n))[f] == multiset(fields)[f]
    {
      SortedCounts(fields, n, f);
      TallyIsMultiplicity(Sorted(fields, n), f);
      TallyIsMultiplicity(fields, f);
      assert f in multiset(fields) ==> f in fields;
    }
  }

  /** The field f occurs as often as it should if its place is below n, and not otherwise. */
  ghost predicate CountBelow(sorted: seq<Field>, fields: seq<Field>, n: nat, f: Field) {
    Tally(sorted, f) == if f.slot < n then Tally(fields, f) else 0
  }

  lemma {:induction false} SortedCounts(fields: seq<Field>, n: nat, f: Field)
    ensures CountBelow(Sorted(fields, n), fields, n, f)
  {
    if n > 0 {
      SortedCounts(fields, n - 1, f);
      JoinCounts(Sorted(fields, n - 1), fields, n - 1, f);
    }
  }

  lemma JoinCounts(sorted: seq<Field>, fields: seq<Field>, y: nat, f: Field)
    requires CountBelow(sorted, fields, y, f)
    ensures CountBelow(sorted + At(fields, y), fields, y + 1, f)
  {
    AtCounts(fields, y, f);
    TallyAppend(sorted, At(fields, y), f);
  }

  lemma {:induction false} AtCounts(fields: seq<Field>, x: nat, f: Field)
    ensures Tally(At(fields, x), f) == if f.slot == x then Tally(fields, f) else 0
  {
    if fields != [] {
      var front, last := fields[..|fields| - 1], fields[|fields| - 1];
      AtCounts(front, x, f);
      TallyAppend(At(front, x), if last.slot == x then [last] else [], f);
    }
  }

  lemma {:induction false} TextsAppend(a: seq<Field>, b: seq<Field>)
    ensures Texts(a + b) == Texts(a) + Texts(b)
  {
    if b == [] {
      assert a + b == a;
    } else {
      assert (a + b)[..|a + b| - 1] == a + b[..|b| - 1];
      TextsAppend(a, b[..|b| - 1]);
    }
  }

  /** Without a prefix the output is the texts of the sorted fields. */
  lemma {:induction false} EntriesAreSorted(cfg: Config, fields: seq<Field>, n: nat)
    requires !cfg.flags.prefixed
    ensures Entries(cfg, fields, n) == Texts(Sorted(fields, n))
  {
    if n > 0 {
      EntriesAreSorted(cfg, fields, n - 1);
      TextsAppend(Sorted(fields, n - 1), At(fields, n - 1));
    }
  }

  // ----- the two paths agree -----

  /** The two policies choose alike, and neither decodes. */
  ghost predicate SameChoices(p: Policy, fast: Policy) {
    (forall text :: p.decoded(text) == text) &&
    forall from, buf :: p.verdict(from, buf) == fast.verdict(from, buf) && p.seen(from, buf) == fast.seen(from, buf)
  }

  /** Collecting without reordering or abbreviating gives the text that line-by-line copying gives. */
  lemma {:induction false} CollectedIsCopied(p: Policy, fast: Policy, chunks: seq<string>, atLine: bool, from: bool,
                                             ignore: bool, open: Option<Field>, curline: nat)
    requires SameChoices(p, fast)
    requires curline == 0 && forall buf :: p.curline(buf) == 0
    ensures Texts(Collect(p, chunks, atLine, from, ignore, open, curline)) ==
            Texts(Done(p, open)) + FastCopy(fast, chunks, atLine, from, ignore)
    decreases |chunks|, 1
  {
    if chunks != [] {
      var buf, rest := chunks[0], chunks[1..];
      if atLine && !Continuation(buf) {
        CollectedIsCopiedBegin(p, fast, chunks, from, ignore, open);
      } else {
        CollectedIsCopiedOn(p, fast, buf, rest, HasNewline(buf), from, ignore, open);
      }
    }
  }

  lemma {:induction false} CollectedIsCopiedBegin(p: Policy, fast: Policy, chunks: seq<string>, from: bool,
                                                  ignore: bool,
                                                  open: Option<Field>)
    requires SameChoices(p, fast)
    requires forall buf :: p.curline(buf) == 0
    requires chunks != [] && !Continuation(chunks[0])
    ensures Texts(Collect(p, chunks, true, from, ignore, open, 0)) ==
            Texts(Done(p, open)) + FastCopy(fast, chunks, true, from, ignore)
    decreases |chunks|, 0
  {
    var buf := chunks[0];
    CollectedIsCopiedNext(p, fast, buf, chunks[1..], HasNewline(buf), p.seen(from, buf), open);
  }

  lemma {:induction false} CollectedIsCopiedNext(p: Policy, fast: Policy, buf: string, rest: seq<string>, nl: bool,
                                                 seen: bool, open: Option<Field>)
    requires SameChoices(p, fast)
    requires forall buf :: p.curline(buf) == 0
    ensures Texts(Done(p, open) + Collect(p, rest, nl, seen, true, None, 0)) ==
            Texts(Done(p, open)) + FastCopy(fast, rest, nl, seen, true)
    ensures Texts(Done(p, open) + Collect(p, rest, nl, seen, false, Some(Field(p.slot(buf), buf)), 0)) ==
            Texts(Done(p, open)) + (buf + FastCopy(fast, rest, nl, seen, false))
    decreases |rest|, 2
  {
    var next := Field(p.slot(buf), buf);
    CollectedIsCopied(p, fast, rest, nl, seen, true, None, 0);
    CollectedIsCopied(p, fast, rest, nl, seen, false, Some(next), 0);
    OneText(next);
    TextsAppend(Done(p, open), Collect(p, rest, nl, seen, true, None, 0));
    TextsAppend(Done(p, open), Collect(p, rest, nl, seen, false, Some(next), 0));
  }

  lemma {:induction false} CollectedIsCopiedOn(p: Policy, fast: Policy, buf: string, rest: seq<string>, nl: bool,
                                               from: bool,
                                               ignore: bool, open: Option<Field>)
    requires SameChoices(p, fast)
    requires forall buf :: p.curline(buf) == 0
    ensures var joined := if open.None? then Field(0, buf) else Field(open.value.slot, open.value.text + buf);
            Texts(Collect(p, rest, nl, from, ignore, if ignore then open else Some(joined), 0)) ==
            Texts(Done(p, open)) + ((if ignore then "" else buf) + FastCopy(fast, rest, nl, from, ignore))
    decreases |rest|, 2
  {
    if ignore {
      CollectedIsCopied(p, fast, rest, nl, from, ignore, open, 0);
    } else {
      var joined := if open.None? then Field(0, buf) else Field(open.value.slot, open.value.text + buf);
      CollectedIsCopied(p, fast, rest, nl, from, ignore, Some(joined), 0);
      OneText(joined);
      if open.Some? {
        OneText(open.value);
        Reassociate(open.value.text, buf, FastCopy(fast, rest, nl, from, ignore));
      }
    }
  }

  lemma OneText(f: Field)
    ensures Texts([f]) == f.text
  {
    assert [f][..0] == [];
  }

  lemma {:induction false} EmptyPrefix(text: string, due: bool)
    ensures Prefixed("", text, due) == text
  {
    if text != "" {
      EmptyPrefix(text[1..], text[0] == '\n' && |text| > 1);
      assert text == [text[0]] + text[1..];
    }
  }

  lemma {:induction false} SlotsInRange(p: Policy, n: nat, chunks: seq<string>, atLine: bool, from: bool, ignore: bool,
                                        open: Option<Field>, curline: nat)
    requires n > 0 && (forall buf :: p.slot(buf) < n) && (open.Some? ==> open.value.slot < n)
    ensures forall f :: f in Collect(p, chunks, atLine, from, ignore, open, curline) ==> f.slot < n
    decreases |chunks|
  {
    if chunks != [] {
      var buf, rest := chunks[0], chunks[1..];
      var nl, seen := HasNewline(buf), p.seen(from, buf);
      if atLine && !Continuation(buf) {
        SlotsInRange(p, n, rest, nl, seen, true, None, p.curline(buf));
        SlotsInRange(p, n, rest, nl, seen, false, Some(Field(p.slot(buf), buf)), p.curline(buf));
      } else if ignore {
        SlotsInRange(p, n, rest, nl, from, ignore, open, curline);
      } else if open.None? {
        SlotsInRange(p, n, rest, nl, from, ignore, Some(Field(0, buf)), curline);
      } else {
        var (text, curline') := Continue(p.maxRecips, open.value.text, curline, buf);
        SlotsInRange(p, n, rest, nl, from, ignore, Some(Field(open.value.slot, text)), curline');
      }
    }
  }

  ghost predicate EmptyPrefixOnly(cfg: Config) {
    cfg.flags.prefixed && cfg.prefix == "" &&
    !cfg.flags.reorder && !cfg.flags.weed && !cfg.flags.mime && !cfg.flags.weedDelivered && !cfg.flags.decode
  }

  lemma PathsAgree(cfg: Config, data: string, start: nat, end: nat)
    requires start <= |data| && EmptyPrefixOnly(cfg) && !cfg.flags.noQFrom
    ensures Collected(cfg, data, start, end) == Fast(cfg, data, start, end)
  {
    CollectedAsUnquoted(cfg, data, start, end);
    assert cfg.flags.(prefixed := false, noQFrom := false) == cfg.flags.(prefixed := false);
  }

  /** The collecting path with an empty prefix writes exactly what the fast path writes, for every
      header, if and only if CH_NOQFROM is unset: only the fast path looks at that flag. */
  lemma PathsAgreeIff(cfg: Config)
    requires EmptyPrefixOnly(cfg)
    ensures (forall data: string, start: nat, end: nat :: start <= |data| ==>
            Collected(cfg, data, start, end) == Fast(cfg, data, start, end))
            <==> !cfg.flags.noQFrom
  {
    if cfg.flags.noQFrom {
      QuotedFromDiffers(cfg);
    } else {
      forall data: string, start: nat, end: nat | start <= |data|
        ensures Collected(cfg, data, start, end) == Fast(cfg, data, start, end)
      {
        PathsAgree(cfg, data, start, end);
      }
    }
  }

  lemma QuotedFromDiffers(cfg: Config)
    requires EmptyPrefixOnly(cfg) && cfg.flags.noQFrom
    ensures Collected(cfg, ">From ", 0, 6) != Fast(cfg, ">From ", 0, 6)
  {
    QuotedFromLine();
    CollectedAsUnquoted(cfg, ">From ", 0, 6);
    QuotedFromCopied(cfg.flags.(prefixed := false, noQFrom := false));
    QuotedFromCopied(cfg.flags.(prefixed := false));
  }

  lemma QuotedFromLine()
    ensures Chunks(">From ", 0, 6) == [">From "]
  {
    var line: string := ">From ";
    assert LineLength(line, 0, 5) == 6;
    assert LineLength(line, 0, 3) == 6;
    assert LineLength(line, 0, 1) == 6;
    assert Fgets(line, 0) == line;
    assert Chunks(line, 6, 6) == [];
  }

  lemma NotStarts(buf: string, key: string)
    requires key != "" && buf != "" && LowerChar(buf[0]) != LowerChar(key[0])
    ensures !StartsCase(buf, key)
  {
  }

  lemma QuotedFromCopied(f: Flags)
    ensures FastCopy(FastPolicy(f), [">From "], true, false, false) == if f.noQFrom then "" else ">From "
  {
    var line: string := ">From ";
    assert [line][1..] == [];
    NotStarts(line, "Status:");
    NotStarts(line, "X-Status:");
    NotStarts(line, "Content-Length:");
    NotStarts(line, "Lines:");
    NotStarts(line, "References:");
    NotStarts(line, "In-Reply-To:");
    assert line[0] == '>' && "\n"[0] == '\n' && "\r\n"[0] == '\r' && "From "[0] == 'F';
    assert StartsCase(line, ">From ");
    assert FastVerdict(f, false, line) == if f.noQFrom then Skip else Keep;
  }

  /** The collecting path never looks at CH_NOQFROM. */
  lemma CollectedAsUnquoted(cfg: Config, data: string, start: nat, end: nat)
    requires start <= |data| && EmptyPrefixOnly(cfg)
    ensures Collected(cfg, data, start, end) ==
            FastCopy(FastPolicy(cfg.flags.(prefixed := false, noQFrom := false)), Chunks(data, start, end), true,
                false, false)
  {
    var p := CollectPolicy(cfg);
    var fields := FieldsOf(p, data, start, end);
    SlotsInRange(p, 1, Chunks(data, start, end), true, false, false, None, 0);
    AtAll(fields, 0);
    CollectedIsCopied(p, FastPolicy(cfg.flags.(prefixed := false, noQFrom := false)), Chunks(data, start, end),
                      true, false, false, None, 0);
    EmptyPrefix(Texts(fields), true);
    assert Entries(cfg, fields, 1) == Entries(cfg, fields, 0) + Entry(cfg, fields, 0);
  }
}
