/** Details of mutt_copy_hdr (copy.c): the buffers it reads, abbreviated lists of recipients, and prefixed lines. */
module HeaderLines {
  import opened CopyHeader
  import opened HeaderFields
  import opened Options
  import opened Sequences

  // ----- buffers -----

  lemma {:induction false} LineLengthIs(data: string, pos: nat, n: nat)
    requires n < STRING && pos + n <= |data|
    ensures var r := LineLength(data, pos, n);
            (forall k :: pos + n <= k < pos + r - 1 ==> data[k] != '\n') &&
            (r == STRING - 1 || pos + r == |data| || (r > n && data[pos + r - 1] == '\n'))
    decreases STRING - n
  {
    if n + 1 < STRING && pos + n < |data| && data[pos + n] != '\n' {
      LineLengthIs(data, pos, n + 1);
    }
  }

  /** A buffer is the next at most 255 characters, up to a newline: it ends earlier only with one or with the data. */
  lemma BufferIs(data: string, pos: nat)
    requires pos < |data|
    ensures var buf := Fgets(data, pos);
            0 < |buf| <= 255 && buf <= data[pos..] && '\n' !in buf[..|buf| - 1] &&
            (|buf| == 255 || pos + |buf| == |data| || buf[|buf| - 1] == '\n')
  {
    LineLengthIs(data, pos, 0);
    var buf := Fgets(data, pos);
    var front := buf[..|buf| - 1];
    forall k | 0 <= k < |front|
      ensures front[k] != '\n'
    {
      var i := pos + k;
      assert front[k] == data[i];
    }
  }

  // ----- abbreviated recipient lists -----

  /** Whole continuation lines. */
  ghost predicate Continuations(lines: seq<string>) {
    forall i :: 0 <= i < |lines| ==> Continuation(lines[i]) && HasNewline(lines[i])
  }

  /** What is made of a list of which `count` lines are there as more follow: no more than the limit, and dots. */
  function Abbreviated(text: string, count: nat, lines: seq<string>, limit: nat): string {
    if count > limit then text
    else if |lines| <= limit - count then text + Joined(lines)
    else text + Joined(lines[..limit - count]) + " ..."
  }

  lemma AbbreviateOne(text: string, count: nat, lines: seq<string>, limit: nat)
    requires lines != [] && limit > 0 && count > 0
    ensures var (text', count') := Continue(limit, text, count, lines[0]);
            count' == count + 1 &&
            Abbreviated(text', count', lines[1..], limit) == Abbreviated(text, count, lines, limit)
  {
    if count < limit {
      Reassociate(text, lines[0], Joined(lines[1..]));
      if |lines| > limit - count {
        TailStep(lines, limit - count);
        Reassociate(text, lines[0], Joined(lines[1..][..limit - count - 1]));
      }
    } else if count == limit {
      assert lines[..0] == [] && text + "" == text;
    }
  }

  /** When recipients are limited, a list of recipients keeps the lines up to the limit, and if there are more, dots;
      whatever follows is glued to the dots, for the newline is not kept. */
  lemma {:induction false} RecipientsAbbreviated(p: Policy, lines: seq<string>, rest: seq<string>, from: bool,
                                                 field: Field, count: nat)
    requires Continuations(lines) && p.maxRecips > 0 && count > 0
    ensures Collect(p, lines + rest, true, from, false, Some(field), count) ==
            Collect(p, rest, true, from, false,
                    Some(Field(field.slot, Abbreviated(field.text, count, lines, p.maxRecips))), count + |lines|)
    decreases |lines|
  {
    if lines == [] {
      assert lines + rest == rest && field.text + "" == field.text;
    } else {
      assert (lines + rest)[1..] == lines[1..] + rest;
      AbbreviateOne(field.text, count, lines, p.maxRecips);
      var (text, count') := Continue(p.maxRecips, field.text, count, lines[0]);
      RecipientsAbbreviated(p, lines[1..], rest, from, Field(field.slot, text), count');
    }
  }

  /** The text before the first colon. */
  function BeforeColon(line: string): string {
    if line == "" || line[0] == ':' then "" else [line[0]] + BeforeColon(line[1..])
  }

  /** A line that begins a list of recipients; case matters here. */
  predicate Lists(line: string) {
    ':' in line && BeforeColon(line) in ["To", "Cc", "Bcc"]
  }

  lemma {:induction false} StartsIff(line: string, name: string)
    requires ':' !in name
    ensures name + ":" <= line <==> ':' in line && BeforeColon(line) == name
    decreases |name|
  {
    if line != "" && name != "" {
      StartsIff(line[1..], name[1..]);
      assert name + ":" == [name[0]] + (name[1..] + ":") && line == [line[0]] + line[1..];
    } else if line != "" {
      assert name + ":" == ":";
    }
  }

  lemma CountedIff(cfg: Config, line: string)
    ensures StartCurline(cfg, line) == if cfg.flags.weed && Lists(line) then 1 else 0
  {
    StartsIff(line, "To");
    StartsIff(line, "Cc");
    StartsIff(line, "Bcc");
    assert "To" + ":" == "To:" && "Cc" + ":" == "Cc:" && "Bcc" + ":" == "Bcc:";
  }

  lemma {:induction false} LinesCollected(p: Policy, lines: seq<string>, rest: seq<string>, from: bool, field: Field,
                                          count: nat)
    requires Continuations(lines) && (p.maxRecips == 0 || count == 0)
    ensures Collect(p, lines + rest, true, from, false, Some(field), count) ==
            Collect(p, rest, true, from, false, Some(Field(field.slot, field.text + Joined(lines))), count)
    decreases |lines|
  {
    if lines == [] {
      assert lines + rest == rest && field.text + "" == field.text;
    } else {
      assert (lines + rest)[1..] == lines[1..] + rest;
      Reassociate(field.text, lines[0], Joined(lines[1..]));
      LinesCollected(p, lines[1..], rest, from, Field(field.slot, field.text + lines[0]), count);
    }
  }

  /** A kept field of whole lines is collected whole, but for a list of recipients when headers are weeded and a limit
      is set: it counts as one line, and goes on as long as there are no more lines than the limit. */
  lemma FieldCollected(cfg: Config, first: string, lines: seq<string>, rest: seq<string>, from: bool)
    returns (count: nat)
    requires !Continuation(first) && HasNewline(first) && Continuations(lines)
    requires CollectVerdict(cfg, from, first) == Keep
    ensures var limited, seen := cfg.flags.weed && cfg.maxRecips > 0 && Lists(first), SeenFrom(cfg.flags, from, first);
            var text := if limited then Abbreviated(first, 1, lines, cfg.maxRecips) else first + Joined(lines);
            Collect(CollectPolicy(cfg), [first] + (lines + rest), true, from, true, None, 0) ==
            Collect(CollectPolicy(cfg), rest, true, seen, false, Some(Field(Slot(cfg, first), text)), count)
  {
    var p, field, seen := CollectPolicy(cfg), Field(Slot(cfg, first), first), SeenFrom(cfg.flags, from, first);
    assert ([first] + (lines + rest))[1..] == lines + rest;
    CountedIff(cfg, first);
    var after := Collect(p, lines + rest, true, seen, false, Some(field), p.curline(first));
    assert [] + after == after;
    if cfg.flags.weed && cfg.maxRecips > 0 && Lists(first) {
      RecipientsAbbreviated(p, lines, rest, seen, field, 1);
      count := 1 + |lines|;
    } else {
      LinesCollected(p, lines, rest, seen, field, p.curline(first));
      count := p.curline(first);
    }
  }

  // ----- prefixes -----

  lemma {:induction false} PrefixedWithin(prefix: string, line: string, rest: string)
    requires '\n' !in line
    ensures Prefixed(prefix, line + rest, false) == line + Prefixed(prefix, rest, false)
  {
    if line == "" {
      assert line + rest == rest && "" + Prefixed(prefix, rest, false) == Prefixed(prefix, rest, false);
    } else {
      assert (line + rest)[0] == line[0] && (line + rest)[1..] == line[1..] + rest;
      PrefixedWithin(prefix, line[1..], rest);
      Reassociate([line[0]], line[1..], Prefixed(prefix, rest, false));
      assert line == [line[0]] + line[1..];
    }
  }

  lemma PrefixedDue(prefix: string, text: string)
    requires text != ""
    ensures Prefixed(prefix, text, true) == prefix + Prefixed(prefix, text, false)
  {
    Reassociate(prefix, [text[0]], Prefixed(prefix, text[1..], text[0] == '\n' && |text| > 1));
    assert "" + [text[0]] == [text[0]];
  }

  /** Every line of an entry is written behind the prefix: the first, and each one after a newline. */
  lemma PrefixedLine(prefix: string, line: string, rest: string)
    requires '\n' !in line
    ensures Prefixed(prefix, line + "\n" + rest, true) ==
            prefix + line + "\n" + if rest == "" then "" else Prefixed(prefix, rest, true)
    ensures line != "" ==> Prefixed(prefix, line, true) == prefix + line
  {
    var text := line + ("\n" + rest);
    assert line + "\n" + rest == text;
    PrefixedDue(prefix, text);
    PrefixedWithin(prefix, line, "\n" + rest);
    assert ("\n" + rest)[1..] == rest;
    assert Prefixed(prefix, "\n" + rest, false) == "" + "\n" + Prefixed(prefix, rest, rest != "");
    if line != "" {
      PrefixedDue(prefix, line);
      PrefixedWithin(prefix, line, "");
      assert line + "" == line;
    }
  }
}
