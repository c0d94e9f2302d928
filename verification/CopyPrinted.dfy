/** The numbers that copying a message prints (copy.c). */
module CopyPrinted {
  import opened CopyAttach
  import opened Numerals
  import opened Options

  // They are read as a reader of the output of _mutt_copy_message and copy_delete_attach finds them.

  /** The number at the beginning of the text, up to the first character that is no digit. */
  function Leading(s: string, n: nat): nat {
    if s == "" || !IsDecimal(s[0]) then n else Leading(s[1..], 10 * n + (s[0] - '0') as int)
  }

  lemma {:induction false} LeadingDigits(digits: string, rest: string, n: nat)
    requires AllDecimal(digits) && (rest == "" || !IsDecimal(rest[0]))
    ensures Leading(digits + rest, n) == Reading(digits, n)
  {
    if digits == "" {
      assert digits + rest == rest;
    } else {
      assert IsDecimal(digits[0]) && (digits + rest)[1..] == digits[1..] + rest;
      LeadingDigits(digits[1..], rest, 10 * n + (digits[0] - '0') as int);
    }
  }

  /** The text behind its first line. */
  function NextLine(s: string): string {
    if s == "" then "" else if s[0] == '\n' then s[1..] else NextLine(s[1..])
  }

  lemma {:induction false} NextLineOf(line: string, rest: string)
    requires '\n' !in line
    ensures NextLine(line + "\n" + rest) == rest
  {
    if line == "" {
      assert (line + "\n" + rest)[1..] == rest;
    } else {
      assert (line + "\n" + rest)[1..] == line[1..] + "\n" + rest;
      NextLineOf(line[1..], rest);
    }
  }

  lemma {:induction false} NextLineShorter(s: string)
    requires s != ""
    ensures |NextLine(s)| < |s|
  {
    if s[0] != '\n' && s[1..] != "" {
      NextLineShorter(s[1..]);
    }
  }

  /** The number in the first line of a header that begins with the name; the header ends with a blank line, or with
      the text. */
  function FieldNumber(s: string, name: string): Option<nat>
    decreases |s|
  {
    if s == "" || s[0] == '\n' then None
    else if name <= s then Some(Leading(s[|name|..], 0))
    else
      NextLineShorter(s);
      FieldNumber(NextLine(s), name)
  }

  /** Complete lines, none blank and none beginning with the name, as CH_NOLEN leaves them. */
  ghost predicate Without(header: string, name: string)
    decreases |header|
  {
    header == "" ||
    (header[0] != '\n' && '\n' in header && !(name <= header) &&
     (NextLineShorter(header); Without(NextLine(header), name)))
  }

  lemma {:induction false} NextLineBefore(header: string, rest: string)
    requires '\n' in header
    ensures NextLine(header + rest) == NextLine(header) + rest
  {
    assert (header + rest)[1..] == header[1..] + rest;
    if header[0] != '\n' {
      NextLineBefore(header[1..], rest);
    }
  }

  lemma NotAcross(header: string, rest: string, name: string)
    requires '\n' in header && '\n' !in name
    ensures name <= header + rest ==> name <= header
  {
    var i :| 0 <= i < |header| && header[i] == '\n';
    var s := header + rest;
    assert s[i] == '\n';
    if name <= s {
      assert forall k :: 0 <= k < |name| ==> s[k] == name[k] && s[k] != '\n';
      assert name == s[..|name|] == header[..|name|];
    }
  }

  lemma {:induction false} FieldBehind(header: string, rest: string, name: string)
    requires Without(header, name) && '\n' !in name
    ensures FieldNumber(header + rest, name) == FieldNumber(rest, name)
    decreases |header|
  {
    if header == "" {
      assert header + rest == rest;
    } else {
      NextLineShorter(header);
      NextLineBefore(header, rest);
      NotAcross(header, rest, name);
      FieldBehind(NextLine(header), rest, name);
    }
  }

  lemma PrintedField(name: string, n: nat, rest: string)
    requires name != "" && name[0] != '\n' && (rest == "" || !IsDecimal(rest[0]))
    ensures FieldNumber(name + Decimal(n) + rest, name) == Some(n)
  {
    var s := name + Decimal(n) + rest;
    assert s[|name|..] == Decimal(n) + rest;
    ReadingDecimal(n);
    LeadingDigits(Decimal(n), rest, 0);
  }

  const LENGTH := "Content-Length: "
  const LINES := "Lines: "

  /** A reader of the output finds the new length behind Content-Length, and the new line count behind Lines. */
  lemma PrintedNumbers(header: string, newLength: nat, newLines: nat, body: string)
    requires Without(header, LENGTH) && Without(header, LINES)
    ensures FieldNumber(HeaderText(header, newLength, newLines) + body, LENGTH) == Some(newLength)
    ensures newLines > 0 ==> FieldNumber(HeaderText(header, newLength, newLines) + body, LINES) == Some(newLines)
  {
    var after := LinesHeader(newLines) + body;
    assert HeaderText(header, newLength, newLines) + body == header + (LENGTH + Decimal(newLength) + ("\n" + after));
    FieldBehind(header, LENGTH + Decimal(newLength) + ("\n" + after), LENGTH);
    PrintedField(LENGTH, newLength, "\n" + after);
    if newLines > 0 {
      FieldBehind(header, LENGTH + Decimal(newLength) + ("\n" + after), LINES);
      SecondField(newLength, newLines, body);
    }
  }

  lemma SecondField(newLength: nat, newLines: nat, body: string)
    requires newLines > 0
    ensures FieldNumber(LENGTH + Decimal(newLength) + ("\n" + (LinesHeader(newLines) + body)), LINES) == Some(newLines)
  {
    var first, after := LENGTH + Decimal(newLength), LinesHeader(newLines) + body;
    assert first + ("\n" + after) == first + "\n" + after;
    NextLineOf(first, after);
    assert first[0] == 'C' && LINES[0] == 'L';
    assert after == LINES + Decimal(newLines) + ("\n" + "\n" + body);
    PrintedField(LINES, newLines, "\n" + "\n" + body);
  }

  /** For a live root, the length that the header announces is that of the body behind it. */
  lemma AnnouncedLengthExact(header: string, data: string, date: string, b: Body, newLines: nat)
    requires Copyable(b, data) && |date| >= 5 && '\n' !in date && !b.deleted
    requires Without(header, LENGTH) && Without(header, LINES)
    ensures NewLength(|date|, b) >= 0
    ensures FieldNumber(HeaderText(header, NewLength(|date|, b), newLines) + BodyCopy(data, date, b), LENGTH) ==
            Some(|BodyCopy(data, date, b)|)
  {
    PredictionExactIff(data, date, b);
    PrintedNumbers(header, NewLength(|date|, b), newLines, BodyCopy(data, date, b));
  }

  /** A stub gives the date from its sixth character on, and the length of the deleted part in digits. */
  ghost predicate Announces(stub: string, date: string, length: nat)
    requires |date| >= 5
  {
    exists digits :: digits != "" && AllDecimal(digits) && Reading(digits, 0) == length &&
      stub == "Content-Type: message/external-body; " + ("access-type=x-mutt-deleted;" + "\n") +
              ("\texpiration=" + date[5..] + "; length=" + digits) + "\n\n"
  }

  lemma StubAnnounces(date: string, length: nat)
    requires |date| >= 5
    ensures Announces(Stub(date, length), date, length)
  {
    var digits := Decimal(length);
    ReadingDecimal(length);
    assert Stub(date, length) ==
           "Content-Type: message/external-body; " + ("access-type=x-mutt-deleted;" + "\n") +
           ("\texpiration=" + date[5..] + "; length=" + digits) + "\n\n";
  }

  // ----- where the stubs stand -----

  lemma {:induction false} SplitOrder(ds: seq<Body>, lo: nat, hi: nat, k: nat)
    requires InOrder(ds, lo, hi) && k < |ds|
    ensures InOrder(ds[..k], lo, ds[k].hdrOffset) && InOrder(ds[k + 1..], ds[k].End(), hi)
    ensures ds[k].hdrOffset <= ds[k].offset && ds[k].End() <= hi
    decreases |ds|
  {
    InOrderBounds(ds[1..], ds[0].End(), hi);
    if k > 0 {
      SplitOrder(ds[1..], ds[0].End(), hi, k - 1);
      assert ds[..k][1..] == ds[1..][..k - 1] && ds[k + 1..] == ds[1..][k..];
      InOrderBounds(ds[..k][1..], ds[0].End(), ds[k].hdrOffset);
    }
  }

  /** The k-th deleted part becomes its stub, followed by its own header and by what follows its body. */
  lemma {:induction false} StubThenHeader(data: string, stub: nat -> string, lo: nat, hi: nat, ds: seq<Body>, k: nat)
    requires InOrder(ds, lo, hi) && hi <= |data| && k < |ds|
    requires InOrder(ds[..k], lo, ds[k].hdrOffset) && InOrder(ds[k + 1..], ds[k].End(), hi)
    requires ds[k].hdrOffset <= ds[k].offset && ds[k].End() <= hi
    ensures Written(data, stub, lo, hi, ds) ==
            Written(data, stub, lo, ds[k].hdrOffset, ds[..k]) +
            (stub(ds[k].length) + data[ds[k].hdrOffset..ds[k].offset]) +
            Written(data, stub, ds[k].End(), hi, ds[k + 1..])
  {
    var d, a, b := ds[k], ds[..k], ds[k + 1..];
    assert ds == a + ([d] + b) && ([d] + b)[1..] == b;
    InOrderBounds(b, d.End(), hi);
    assert InOrder([d] + b, d.hdrOffset, hi);
    WrittenAppend(data, stub, lo, d.hdrOffset, hi, a, [d] + b);
    assert data[d.hdrOffset..d.hdrOffset] == "";
    Around(Written(data, stub, lo, d.hdrOffset, a), stub(d.length), data[d.hdrOffset..d.offset],
           Written(data, stub, d.End(), hi, b));
  }

  lemma Around(before: string, stub: string, header: string, after: string)
    ensures before + ("" + stub + header + after) == before + (stub + header) + after
  {
  }

  /** In the copy of a body, each outermost deleted part stands as a stub that announces its length, followed by its own
      header, between the copies of what was before and behind it. */
  lemma PartReplaced(data: string, date: string, b: Body, k: nat) returns (before: string, stub: string, after: string)
    requires Copyable(b, data) && |date| >= 5 && k < |Deleted(b.parts)|
    ensures var d := Deleted(b.parts)[k];
            b.offset <= d.hdrOffset <= d.offset <= d.End() <= b.End() <= |data| && Announces(stub, date, d.length) &&
            BodyCopy(data, date, b) == before + (stub + data[d.hdrOffset..d.offset]) + after
    ensures k == 0 ==> before == data[b.offset..Deleted(b.parts)[0].hdrOffset]
    ensures k == |Deleted(b.parts)| - 1 ==> after == data[Deleted(b.parts)[k].End()..b.End()]
  {
    var ds := Deleted(b.parts);
    NestedInOrder(b.parts, b.offset, b.End());
    SplitOrder(ds, b.offset, b.End(), k);
    InOrderBounds(ds[..k], b.offset, ds[k].hdrOffset);
    StubThenHeader(data, Stubs(date), b.offset, b.End(), ds, k);
    StubAnnounces(date, ds[k].length);
    before := Written(data, Stubs(date), b.offset, ds[k].hdrOffset, ds[..k]);
    stub := Stub(date, ds[k].length);
    after := Written(data, Stubs(date), ds[k].End(), b.End(), ds[k + 1..]);
  }
}
