/** Serialisation of message headers for the header cache (hcache.c). */
module Hcache {
  import opened Bytes
  import opened Options
  import opened Sequences

  // Encodings are written with the bytes that follow as an argument: EncX(x, rest) is the dump of x and then rest. A
  // dump method turns "dumped so far, then EncX(x, rest)" into "dumped so far, then rest"; a restore method turns "to
  // read: EncX(x, rest)" into x and "to read: rest".

  /** A C string without its terminating NUL. */
  type CString = s: seq<Byte> | 0 !in s

  const LIMIT := 0x8000_0000       // offsets are C ints
  const MODULUS := 0x1_0000_0000   // numbers are dumped as 32-bit words

  function Word(i: int): seq<Byte> {
    [i % 256, i / 256 % 256, i / 65536 % 256, i / 16777216 % 256]
  }

  function FromWord(b: seq<Byte>): (i: int)
    requires |b| == 4
    ensures 0 <= i < MODULUS
  {
    b[0] as int + 256 * b[1] as int + 65536 * b[2] as int + 16777216 * b[3] as int
  }

  /** The same word read as a signed int. */
  function Signed(i: int): int
    requires 0 <= i < MODULUS
  {
    if i < LIMIT then i else i - MODULUS
  }

  lemma WordRoundTrip(i: int)
    ensures |Word(i)| == 4 && FromWord(Word(i)) == i % MODULUS
    ensures -LIMIT <= i < LIMIT ==> Signed(FromWord(Word(i))) == i
  {
    var a := i / 256;
    var b := a / 256;
    var c := b / 256;
    assert i / 65536 == b && i / 16777216 == c;
    assert i == i % 256 + 256 * (a % 256) + 65536 * (b % 256) + 16777216 * (c % 256) + MODULUS * (c / 256);
  }

  // ----- what is serialised -----

  datatype Address = Address(personal: Option<CString>, mailbox: Option<CString>, group: int)

  datatype Parameter = Parameter(attribute: Option<CString>, value: Option<CString>)

  /** realSubj is the offset of the real subject inside the subject, if it is set. */
  datatype Envelope = Envelope(
    returnPath: seq<Address>, from: seq<Address>, to: seq<Address>, cc: seq<Address>, bcc: seq<Address>,
    sender: seq<Address>, replyTo: seq<Address>, mailFollowupTo: seq<Address>,
    subject: Option<CString>, realSubj: Option<nat>, messageId: Option<CString>, supersedes: Option<CString>,
    date: Option<CString>, xLabel: Option<CString>, listPost: Option<CString>,
    newsgroups: Option<CString>, xref: Option<CString>, followupTo: Option<CString>, xCommentTo: Option<CString>,
    references: seq<Option<CString>>, inReplyTo: seq<Option<CString>>, userhdrs: seq<Option<CString>>)

  /** `raw` is the struct itself, copied as a block; its pointers are rebuilt from the other fields. */
  datatype Body = Body(raw: seq<Byte>, xtype: Option<CString>, subtype: Option<CString>, parameter: seq<Parameter>,
                       description: Option<CString>, formName: Option<CString>, filename: Option<CString>,
                       dFilename: Option<CString>)

  datatype Header = Header(raw: seq<Byte>, env: Envelope, content: Body, maildirFlags: Option<CString>)

  ghost predicate GroupsFit(list: seq<Address>) {
    forall i :: 0 <= i < |list| ==> -LIMIT <= list[i].group < LIMIT
  }

  /** Values that C ints can hold; realSubj points into the subject. */
  ghost predicate EnvelopeFits(e: Envelope) {
    GroupsFit(e.returnPath) && GroupsFit(e.from) && GroupsFit(e.to) && GroupsFit(e.cc) && GroupsFit(e.bcc) &&
    GroupsFit(e.sender) && GroupsFit(e.replyTo) && GroupsFit(e.mailFollowupTo) &&
    (e.realSubj.Some? ==> e.realSubj.value < LIMIT)
  }

  // ----- the format -----

  function EncInt(i: int, rest: seq<Byte>): seq<Byte> {
    Word(i) + rest
  }

  function EncChar(c: Option<CString>, rest: seq<Byte>): seq<Byte> {
    if c.None? then EncInt(0, rest) else EncInt(|c.value| + 1, c.value + [0] + rest)
  }

  function EncAddressItems(list: seq<Address>, rest: seq<Byte>): seq<Byte> {
    if list == [] then rest
    else EncOneAddress(list[0], EncAddressItems(list[1..], rest))
  }

  function EncOneAddress(a: Address, rest: seq<Byte>): seq<Byte> {
    EncChar(a.personal, EncChar(a.mailbox, EncInt(a.group, rest)))
  }

  function EncAddress(list: seq<Address>, rest: seq<Byte>): seq<Byte> {
    EncInt(|list|, EncAddressItems(list, rest))
  }

  function EncListItems(list: seq<Option<CString>>, rest: seq<Byte>): seq<Byte> {
    if list == [] then rest else EncChar(list[0], EncListItems(list[1..], rest))
  }

  function EncList(list: seq<Option<CString>>, rest: seq<Byte>): seq<Byte> {
    EncInt(|list|, EncListItems(list, rest))
  }

  function EncParameterItems(list: seq<Parameter>, rest: seq<Byte>): seq<Byte> {
    if list == [] then rest
    else EncOneParameter(list[0], EncParameterItems(list[1..], rest))
  }

  function EncOneParameter(p: Parameter, rest: seq<Byte>): seq<Byte> {
    EncChar(p.attribute, EncChar(p.value, rest))
  }

  function EncParameter(list: seq<Parameter>, rest: seq<Byte>): seq<Byte> {
    EncInt(|list|, EncParameterItems(list, rest))
  }

  function EncBody(b: Body, rest: seq<Byte>): seq<Byte> {
    b.raw + EncChar(b.xtype, EncChar(b.subtype, EncParameter(b.parameter,
      EncChar(b.description, EncChar(b.formName, EncChar(b.filename, EncChar(b.dFilename, rest)))))))
  }

  function EncRecipients(e: Envelope, rest: seq<Byte>): seq<Byte> {
    EncAddress(e.returnPath, EncAddress(e.from, EncAddress(e.to, EncAddress(e.cc, EncAddress(e.bcc,
      EncAddress(e.sender, EncAddress(e.replyTo, EncAddress(e.mailFollowupTo, rest))))))))
  }

  function EncTexts(e: Envelope, rest: seq<Byte>): seq<Byte> {
    EncChar(e.subject, EncInt(if e.realSubj.Some? then e.realSubj.value else -1,
      EncChar(e.messageId, EncChar(e.supersedes, EncChar(e.date, EncChar(e.xLabel, EncChar(e.listPost,
        EncChar(e.newsgroups, EncChar(e.xref, EncChar(e.followupTo, EncChar(e.xCommentTo, rest)))))))))))
  }

  function EncEnvelope(e: Envelope, rest: seq<Byte>): seq<Byte> {
    EncRecipients(e, EncTexts(e, EncList(e.references, EncList(e.inReplyTo, EncList(e.userhdrs, rest)))))
  }

  function EncRecord(h: Header): seq<Byte> {
    h.raw + EncEnvelope(h.env, EncBody(h.content, EncChar(h.maildirFlags, [])))
  }

  function EncHeader(validate: seq<Byte>, crc: int, h: Header): seq<Byte> {
    validate + EncInt(crc, EncRecord(h))
  }

  lemma AddressItemsStep(list: seq<Address>, i: nat, rest: seq<Byte>)
    requires i < |list|
    ensures EncAddressItems(list[i..], rest) == EncOneAddress(list[i], EncAddressItems(list[i + 1..], rest))
  {
    assert list[i..][1..] == list[i + 1..];
  }

  lemma ListItemsStep(list: seq<Option<CString>>, i: nat, rest: seq<Byte>)
    requires i < |list|
    ensures EncListItems(list[i..], rest) == EncChar(list[i], EncListItems(list[i + 1..], rest))
  {
    assert list[i..][1..] == list[i + 1..];
  }

  lemma ParameterItemsStep(list: seq<Parameter>, i: nat, rest: seq<Byte>)
    requires i < |list|
    ensures EncParameterItems(list[i..], rest) == EncOneParameter(list[i], EncParameterItems(list[i + 1..], rest))
  {
    assert list[i..][1..] == list[i + 1..];
  }

  lemma Adjoin(d: array<Byte>, a: nat, b: nat)
    requires a <= b <= d.Length
    ensures d[..b] == d[..a] + d[a..b]
  {
  }

  lemma Slices<T>(list: seq<T>)
    ensures list[..0] == [] && list[0..] == list == list[..|list|] && list[|list|..] == []
  {
  }

  // ----- dumping into a growing buffer -----

  class Dump {
    var d: array<Byte>
    var off: nat

    ghost predicate Valid()
      reads this
    {
      off <= d.Length && 4096 <= d.Length
    }

    ghost function Contents(): seq<Byte>
      requires Valid()
      reads this, d
    {
      d[..off]
    }

    /** lazy_malloc: never fewer than 4096 bytes. */
    constructor (size: nat)
      requires size > 0
      ensures Valid() && Contents() == [] && fresh(d)
    {
      d := new Byte[if size < 4096 then 4096 else size](_ => 0);
      off := 0;
    }

    /** lazy_realloc: small requests are ignored, larger ones are granted exactly. */
    method LazyRealloc(size: nat)
      requires Valid() && off <= size && 0 < size
      modifies this`d
      ensures Valid() && size <= d.Length && off == old(off) && (d == old(d) || fresh(d))
      ensures Contents() == old(Contents())
    {
      if 0 < size < 4096 {
        return;
      }
      var grown := new Byte[size](_ => 0);
      for i := 0 to off
        modifies grown
        invariant grown[..i] == d[..i]
      {
        grown[i] := d[i];
      }
      d := grown;
    }

    /** lazy_realloc, memcpy, and the new offset. */
    method Put(bytes: seq<Byte>)
      requires Valid() && bytes != []
      modifies this, d
      ensures Valid() && (d == old(d) || fresh(d)) && Contents() == old(Contents()) + bytes
    {
      LazyRealloc(off + |bytes|);
      CopyIn(bytes);
      Adjoin(d, off, off + |bytes|);
      off := off + |bytes|;
    }

    /** memcpy (d + off, bytes, n) */
    method CopyIn(bytes: seq<Byte>)
      requires off + |bytes| <= d.Length
      modifies d
      ensures d[..off] == old(d[..off]) && d[off..off + |bytes|] == bytes
    {
      for i := 0 to |bytes|
        invariant d[..off] == old(d[..off]) && d[off..off + i] == bytes[..i]
      {
        d[off + i] := bytes[i];
      }
    }

    /** memcpy (d + start, &i, sizeof (int)) */
    method Patch(start: nat, i: int)
      requires Valid() && start + 4 <= off
      modifies d
      ensures Valid() && Contents() == old(Contents())[..start] + Word(i) + old(Contents())[start + 4..]
    {
      d[start], d[start + 1] := i % 256, i / 256 % 256;
      d[start + 2], d[start + 3] := i / 65536 % 256, i / 16777216 % 256;
    }

    /** Everything dumped so far and the encoding of what is to come. */
    ghost predicate Onto(total: seq<Byte>, rest: seq<Byte>)
      reads this, d
    {
      Valid() && Contents() + rest == total
    }

    method DumpInt(i: int, ghost rest: seq<Byte>, ghost total: seq<Byte>)
      requires Onto(total, EncInt(i, rest))
      modifies this, d
      ensures Onto(total, rest) && (d == old(d) || fresh(d)) && off == old(off) + 4
    {
      Put(Word(i));
      assert old(Contents()) + (Word(i) + rest) == old(Contents()) + Word(i) + rest;
    }

    method DumpChar(c: Option<CString>, ghost rest: seq<Byte>, ghost total: seq<Byte>)
      requires Onto(total, EncChar(c, rest)) && |total| < LIMIT
      modifies this, d
      ensures Onto(total, rest) && (d == old(d) || fresh(d)) && off >= old(off)
    {
      if c.None? {
        DumpInt(0, rest, total);
      } else {
        DumpText(c.value, rest, total);
      }
    }

    /** The size word, and the text with its terminating NUL. */
    method DumpText(text: CString, ghost rest: seq<Byte>, ghost total: seq<Byte>)
      requires Onto(total, EncInt(|text| + 1, text + [0] + rest))
      modifies this, d
      ensures Onto(total, rest) && (d == old(d) || fresh(d)) && off >= old(off)
    {
      DumpInt(|text| + 1, text + [0] + rest, total);
      DumpRaw(text + [0], rest, total);
    }

    /** The counter is written first as a placeholder and patched when the list has been dumped. */
    method DumpAddress(list: seq<Address>, ghost rest: seq<Byte>, ghost total: seq<Byte>)
      requires Onto(total, EncAddress(list, rest)) && |total| < LIMIT
      modifies this, d
      ensures Onto(total, rest) && (d == old(d) || fresh(d)) && off >= old(off)
    {
      var start := off;
      ghost var before, items := Contents(), EncAddressItems(list, rest);
      ghost var draft := before + EncInt(0xdeadbeef, items);
      DumpInt(0xdeadbeef, items, draft);
      var counter := DumpAddressItems(list, rest, draft);
      PatchCounter(start, counter, before, items, rest, total);
    }

    method DumpAddressItems(list: seq<Address>, ghost rest: seq<Byte>, ghost total: seq<Byte>) returns (counter: nat)
      requires Onto(total, EncAddressItems(list, rest)) && |total| < LIMIT
      modifies this, d
      ensures Onto(total, rest) && (d == old(d) || fresh(d)) && off >= old(off) && counter == |list|
    {
      counter := 0;
      while counter < |list|
        invariant 0 <= counter <= |list| && off >= old(off)
        invariant Onto(total, EncAddressItems(list[counter..], rest)) && (d == old(d) || fresh(d))
      {
        ghost var tail := EncAddressItems(list[counter + 1..], rest);
        AddressItemsStep(list, counter, rest);
        DumpOneAddress(list[counter], tail, total);
        counter := counter + 1;
      }
    }

    /** The counter is written first as a placeholder and patched when the list has been dumped. */
    method DumpList(list: seq<Option<CString>>, ghost rest: seq<Byte>, ghost total: seq<Byte>)
      requires Onto(total, EncList(list, rest)) && |total| < LIMIT
      modifies this, d
      ensures Onto(total, rest) && (d == old(d) || fresh(d)) && off >= old(off)
    {
      var start := off;
      ghost var before, items := Contents(), EncListItems(list, rest);
      ghost var draft := before + EncInt(0xdeadbeef, items);
      DumpInt(0xdeadbeef, items, draft);
      var counter := DumpListItems(list, rest, draft);
      PatchCounter(start, counter, before, items, rest, total);
    }

    method DumpListItems(list: seq<Option<CString>>, ghost rest: seq<Byte>, ghost total: seq<Byte>)
      returns (counter: nat)
      requires Onto(total, EncListItems(list, rest)) && |total| < LIMIT
      modifies this, d
      ensures Onto(total, rest) && (d == old(d) || fresh(d)) && off >= old(off) && counter == |list|
    {
      counter := 0;
      while counter < |list|
        invariant 0 <= counter <= |list| && off >= old(off)
        invariant Onto(total, EncListItems(list[counter..], rest)) && (d == old(d) || fresh(d))
      {
        ghost var tail := EncListItems(list[counter + 1..], rest);
        ListItemsStep(list, counter, rest);
        DumpChar(list[counter], tail, total);
        counter := counter + 1;
      }
    }

    /** The counter is written first as a placeholder and patched when the list has been dumped. */
    method DumpParameter(list: seq<Parameter>, ghost rest: seq<Byte>, ghost total: seq<Byte>)
      requires Onto(total, EncParameter(list, rest)) && |total| < LIMIT
      modifies this, d
      ensures Onto(total, rest) && (d == old(d) || fresh(d)) && off >= old(off)
    {
      var start := off;
      ghost var before, items := Contents(), EncParameterItems(list, rest);
      ghost var draft := before + EncInt(0xdeadbeef, items);
      DumpInt(0xdeadbeef, items, draft);
      var counter := DumpParameterItems(list, rest, draft);
      PatchCounter(start, counter, before, items, rest, total);
    }

    method DumpParameterItems(list: seq<Parameter>, ghost rest: seq<Byte>, ghost total: seq<Byte>)
      returns (counter: nat)
      requires Onto(total, EncParameterItems(list, rest)) && |total| < LIMIT
      modifies this, d
      ensures Onto(total, rest) && (d == old(d) || fresh(d)) && off >= old(off) && counter == |list|
    {
      counter := 0;
      while counter < |list|
        invariant 0 <= counter <= |list| && off >= old(off)
        invariant Onto(total, EncParameterItems(list[counter..], rest)) && (d == old(d) || fresh(d))
      {
        ghost var tail := EncParameterItems(list[counter + 1..], rest);
        ParameterItemsStep(list, counter, rest);
        DumpOneParameter(list[counter], tail, total);
        counter := counter + 1;
      }
    }

    /** The placeholder at start becomes the counter. */
    method PatchCounter(start: nat, counter: nat, ghost before: seq<Byte>, ghost items: seq<Byte>,
                        ghost rest: seq<Byte>, ghost total: seq<Byte>)
      requires Onto(before + EncInt(0xdeadbeef, items), rest) && start == |before| && start + 4 <= off
      requires total == before + EncInt(counter, items)
      modifies d
      ensures Onto(total, rest)
    {
      Patched(before, Word(0xdeadbeef), Word(counter), items, Contents(), rest);
      Patch(start, counter);
    }

    method DumpOneAddress(a: Address, ghost rest: seq<Byte>, ghost total: seq<Byte>)
      requires Onto(total, EncOneAddress(a, rest)) && |total| < LIMIT
      modifies this, d
      ensures Onto(total, rest) && (d == old(d) || fresh(d)) && off >= old(off)
    {
      DumpChar(a.personal, EncChar(a.mailbox, EncInt(a.group, rest)), total);
      DumpChar(a.mailbox, EncInt(a.group, rest), total);
      DumpInt(a.group, rest, total);
    }

    method DumpOneParameter(p: Parameter, ghost rest: seq<Byte>, ghost total: seq<Byte>)
      requires Onto(total, EncOneParameter(p, rest)) && |total| < LIMIT
      modifies this, d
      ensures Onto(total, rest) && (d == old(d) || fresh(d)) && off >= old(off)
    {
      DumpChar(p.attribute, EncChar(p.value, rest), total);
      DumpChar(p.value, rest, total);
    }

    method DumpRecipients(e: Envelope, ghost rest: seq<Byte>, ghost total: seq<Byte>)
      requires Onto(total, EncRecipients(e, rest)) && |total| < LIMIT
      modifies this, d
      ensures Onto(total, rest) && (d == old(d) || fresh(d)) && off >= old(off)
    {
      ghost var r7 := EncAddress(e.mailFollowupTo, rest);
      ghost var r6 := EncAddress(e.replyTo, r7);
      ghost var r5 := EncAddress(e.sender, r6);
      ghost var r4 := EncAddress(e.bcc, r5);
      ghost var r3 := EncAddress(e.cc, r4);
      ghost var r2 := EncAddress(e.to, r3);
      ghost var r1 := EncAddress(e.from, r2);
      DumpAddress(e.returnPath, r1, total);
      DumpAddress(e.from, r2, total);
      DumpAddress(e.to, r3, total);
      DumpAddress(e.cc, r4, total);
      DumpAddress(e.bcc, r5, total);
      DumpAddress(e.sender, r6, total);
      DumpAddress(e.replyTo, r7, total);
      DumpAddress(e.mailFollowupTo, rest, total);
    }

    method DumpTexts(e: Envelope, ghost rest: seq<Byte>, ghost total: seq<Byte>)
      requires Onto(total, EncTexts(e, rest)) && |total| < LIMIT
      modifies this, d
      ensures Onto(total, rest) && (d == old(d) || fresh(d)) && off >= old(off)
    {
      ghost var r10 := EncChar(e.xCommentTo, rest);
      ghost var r9 := EncChar(e.followupTo, r10);
      ghost var r8 := EncChar(e.xref, r9);
      ghost var r7 := EncChar(e.newsgroups, r8);
      ghost var r6 := EncChar(e.listPost, r7);
      ghost var r5 := EncChar(e.xLabel, r6);
      ghost var r4 := EncChar(e.date, r5);
      ghost var r3 := EncChar(e.supersedes, r4);
      ghost var r2 := EncChar(e.messageId, r3);
      ghost var r1 := EncInt(if e.realSubj.Some? then e.realSubj.value else -1, r2);
      DumpChar(e.subject, r1, total);
      DumpInt(if e.realSubj.Some? then e.realSubj.value else -1, r2, total);
      DumpChar(e.messageId, r3, total);
      DumpChar(e.supersedes, r4, total);
      DumpChar(e.date, r5, total);
      DumpChar(e.xLabel, r6, total);
      DumpChar(e.listPost, r7, total);
      DumpChar(e.newsgroups, r8, total);
      DumpChar(e.xref, r9, total);
      DumpChar(e.followupTo, r10, total);
      DumpChar(e.xCommentTo, rest, total);
    }

    method DumpEnvelope(e: Envelope, ghost rest: seq<Byte>, ghost total: seq<Byte>)
      requires Onto(total, EncEnvelope(e, rest)) && |total| < LIMIT
      modifies this, d
      ensures Onto(total, rest) && (d == old(d) || fresh(d)) && off >= old(off)
    {
      ghost var r4 := EncList(e.userhdrs, rest);
      ghost var r3 := EncList(e.inReplyTo, r4);
      ghost var r2 := EncList(e.references, r3);
      ghost var r1 := EncTexts(e, r2);
      DumpRecipients(e, r1, total);
      DumpTexts(e, r2, total);
      DumpList(e.references, r3, total);
      DumpList(e.inReplyTo, r4, total);
      DumpList(e.userhdrs, rest, total);
    }

    method DumpRaw(raw: seq<Byte>, ghost rest: seq<Byte>, ghost total: seq<Byte>)
      requires raw != [] && Onto(total, raw + rest)
      modifies this, d
      ensures Onto(total, rest) && (d == old(d) || fresh(d)) && off >= old(off)
    {
      ghost var before := Contents();
      Put(raw);
      assert before + (raw + rest) == before + raw + rest;
    }

    method DumpBody(b: Body, ghost rest: seq<Byte>, ghost total: seq<Byte>)
      requires b.raw != [] && Onto(total, EncBody(b, rest)) && |total| < LIMIT
      modifies this, d
      ensures Onto(total, rest) && (d == old(d) || fresh(d)) && off >= old(off)
    {
      ghost var r7 := EncChar(b.dFilename, rest);
      ghost var r6 := EncChar(b.filename, r7);
      ghost var r5 := EncChar(b.formName, r6);
      ghost var r4 := EncChar(b.description, r5);
      ghost var r3 := EncParameter(b.parameter, r4);
      ghost var r2 := EncChar(b.subtype, r3);
      ghost var r1 := EncChar(b.xtype, r2);
      DumpRaw(b.raw, r1, total);
      DumpChar(b.xtype, r2, total);
      DumpChar(b.subtype, r3, total);
      DumpParameter(b.parameter, r4, total);
      DumpChar(b.description, r5, total);
      DumpChar(b.formName, r6, total);
      DumpChar(b.filename, r7, total);
      DumpChar(b.dFilename, rest, total);
    }

    method DumpRecord(h: Header, ghost total: seq<Byte>)
      requires h.raw != [] && h.content.raw != [] && Onto(total, EncRecord(h)) && |total| < LIMIT
      modifies this, d
      ensures Onto(total, []) && (d == old(d) || fresh(d))
    {
      ghost var r1 := EncChar(h.maildirFlags, []);
      ghost var r2 := EncBody(h.content, r1);
      DumpRaw(h.raw, EncEnvelope(h.env, r2), total);
      DumpEnvelope(h.env, r2, total);
      DumpBody(h.content, r1, total);
      DumpChar(h.maildirFlags, [], total);
    }
  }

  lemma Patched(before: seq<Byte>, draft: seq<Byte>, word: seq<Byte>, items: seq<Byte>, contents: seq<Byte>,
                rest: seq<Byte>)
    requires |draft| == 4 == |word| && contents + rest == before + (draft + items) && |before| + 4 <= |contents|
    ensures contents[..|before|] + word + contents[|before| + 4..] + rest == before + (word + items)
  {
    var n := |before|;
    assert (contents + rest)[..n] == before == contents[..n];
    assert (contents + rest)[n + 4..] == items == contents[n + 4..] + rest;
  }

  /** mutt_hcache_dump: the record is exactly the format, whatever was reallocated on the way. */
  method HcacheDump(validate: seq<Byte>, crc: int, h: Header) returns (dump: Dump)
    requires validate != [] && h.raw != [] && h.content.raw != []
    requires |EncHeader(validate, crc, h)| < LIMIT
    ensures fresh(dump) && dump.Valid() && dump.Contents() == EncHeader(validate, crc, h)
  {
    ghost var total := EncHeader(validate, crc, h);
    dump := new Dump(|validate|);
    assert dump.Contents() + total == total;
    dump.DumpRaw(validate, EncInt(crc, EncRecord(h)), total);
    dump.DumpInt(crc, EncRecord(h), total);
    dump.DumpRecord(h, total);
    assert dump.Contents() + [] == dump.Contents();
  }

  // ----- restoring -----

  /** The bytes up to the first NUL. */
  function CStr(b: seq<Byte>): (s: CString) {
    if b == [] || b[0] == 0 then [] else [b[0]] + CStr(b[1..])
  }

  lemma {:induction false} CStrTerminated(c: CString)
    ensures CStr(c + [0]) == c
  {
    if c != [] {
      assert (c + [0])[1..] == c[1..] + [0];
      CStrTerminated(c[1..]);
    }
  }

  class Restore {
    const d: seq<Byte>
    var off: nat

    constructor (d: seq<Byte>, off: nat)
      ensures this.d == d && this.off == off
    {
      this.d, this.off := d, off;
    }

    /** What is still to be read. */
    ghost predicate Ahead(rest: seq<Byte>)
      reads this
    {
      off <= |d| && d[off..] == rest
    }

    method Take(n: nat, ghost block: seq<Byte>, ghost rest: seq<Byte>) returns (b: seq<Byte>)
      requires Ahead(block + rest) && |block| == n
      modifies this
      ensures Ahead(rest) && b == block && off == old(off) + n
    {
      b := d[off..off + n];
      assert b == d[off..][..n];
      off := off + n;
      assert d[off..] == d[old(off)..][n..];
    }

    method RestoreInt(ghost i: int, ghost rest: seq<Byte>) returns (r: int)
      requires Ahead(EncInt(i, rest))
      modifies this
      ensures Ahead(rest) && r == i % MODULUS && off == old(off) + 4
      ensures -LIMIT <= i < LIMIT ==> Signed(r) == i
    {
      WordRoundTrip(i);
      var b := Take(4, Word(i), rest);
      r := FromWord(b);
    }

    method RestoreChar(ghost c: Option<CString>, ghost rest: seq<Byte>) returns (r: Option<CString>)
      requires Ahead(EncChar(c, rest)) && |d| < LIMIT
      modifies this
      ensures Ahead(rest) && r == c
    {
      ghost var tail := if c.None? then rest else c.value + [0] + rest;
      var size := RestoreInt(if c.None? then 0 else |c.value| + 1, tail);
      if size == 0 {
        return None;
      }
      var b := Take(size, c.value + [0], rest);
      CStrTerminated(c.value);
      r := Some(CStr(b));
    }

    method RestoreAddress(ghost list: seq<Address>, ghost rest: seq<Byte>) returns (r: seq<Address>)
      requires Ahead(EncAddress(list, rest)) && |d| < LIMIT && GroupsFit(list)
      modifies this
      ensures Ahead(rest) && r == list
    {
      AddressItemsLonger(list, rest);
      var counter := RestoreInt(|list|, EncAddressItems(list, rest));
      r := RestoreAddressItems(counter, list, rest);
    }

    method RestoreAddressItems(counter: nat, ghost list: seq<Address>, ghost rest: seq<Byte>) returns (r: seq<Address>)
      requires Ahead(EncAddressItems(list, rest)) && |d| < LIMIT && counter == |list| && GroupsFit(list)
      modifies this
      ensures Ahead(rest) && r == list
    {
      r := [];
      var left := counter;
      ghost var i := 0;
      Slices(list);
      while left > 0
        invariant 0 <= i <= |list| && left == |list| - i && r == list[..i]
        invariant Ahead(EncAddressItems(list[i..], rest))
        decreases left
      {
        var one := RestoreNextAddress(i, list, rest);
        PrefixStep(list, i);
        r := r + [one];
        left, i := left - 1, i + 1;
      }
    }

    method RestoreNextAddress(ghost i: nat, ghost list: seq<Address>, ghost rest: seq<Byte>) returns (one: Address)
      requires i < |list| && Ahead(EncAddressItems(list[i..], rest)) && |d| < LIMIT && GroupsFit(list)
      modifies this
      ensures Ahead(EncAddressItems(list[i + 1..], rest)) && one == list[i]
    {
      AddressItemsStep(list, i, rest);
      one := RestoreOneAddress(list[i], EncAddressItems(list[i + 1..], rest));
    }

    method RestoreList(ghost list: seq<Option<CString>>, ghost rest: seq<Byte>) returns (r: seq<Option<CString>>)
      requires Ahead(EncList(list, rest)) && |d| < LIMIT
      modifies this
      ensures Ahead(rest) && r == list
    {
      ListItemsLonger(list, rest);
      var counter := RestoreInt(|list|, EncListItems(list, rest));
      r := RestoreListItems(counter, list, rest);
    }

    method RestoreListItems(counter: nat, ghost list: seq<Option<CString>>, ghost rest: seq<Byte>)
      returns (r: seq<Option<CString>>)
      requires Ahead(EncListItems(list, rest)) && |d| < LIMIT && counter == |list|
      modifies this
      ensures Ahead(rest) && r == list
    {
      r := [];
      var left := counter;
      ghost var i := 0;
      Slices(list);
      while left > 0
        invariant 0 <= i <= |list| && left == |list| - i && r == list[..i]
        invariant Ahead(EncListItems(list[i..], rest))
        decreases left
      {
        var one := RestoreNextList(i, list, rest);
        PrefixStep(list, i);
        r := r + [one];
        left, i := left - 1, i + 1;
      }
    }

    method RestoreNextList(ghost i: nat, ghost list: seq<Option<CString>>, ghost rest: seq<Byte>)
      returns (one: Option<CString>)
      requires i < |list| && Ahead(EncListItems(list[i..], rest)) && |d| < LIMIT
      modifies this
      ensures Ahead(EncListItems(list[i + 1..], rest)) && one == list[i]
    {
      ListItemsStep(list, i, rest);
      one := RestoreChar(list[i], EncListItems(list[i + 1..], rest));
    }

    method RestoreParameter(ghost list: seq<Parameter>, ghost rest: seq<Byte>) returns (r: seq<Parameter>)
      requires Ahead(EncParameter(list, rest)) && |d| < LIMIT
      modifies this
      ensures Ahead(rest) && r == list
    {
      ParameterItemsLonger(list, rest);
      var counter := RestoreInt(|list|, EncParameterItems(list, rest));
      r := RestoreParameterItems(counter, list, rest);
    }

    method RestoreParameterItems(counter: nat, ghost list: seq<Parameter>, ghost rest: seq<Byte>)
      returns (r: seq<Parameter>)
      requires Ahead(EncParameterItems(list, rest)) && |d| < LIMIT && counter == |list|
      modifies this
      ensures Ahead(rest) && r == list
    {
      r := [];
      var left := counter;
      ghost var i := 0;
      Slices(list);
      while left > 0
        invariant 0 <= i <= |list| && left == |list| - i && r == list[..i]
        invariant Ahead(EncParameterItems(list[i..], rest))
        decreases left
      {
        var one := RestoreNextParameter(i, list, rest);
        PrefixStep(list, i);
        r := r + [one];
        left, i := left - 1, i + 1;
      }
    }

    method RestoreNextParameter(ghost i: nat, ghost list: seq<Parameter>, ghost rest: seq<Byte>)
      returns (one: Parameter)
      requires i < |list| && Ahead(EncParameterItems(list[i..], rest)) && |d| < LIMIT
      modifies this
      ensures Ahead(EncParameterItems(list[i + 1..], rest)) && one == list[i]
    {
      ParameterItemsStep(list, i, rest);
      one := RestoreOneParameter(list[i], EncParameterItems(list[i + 1..], rest));
    }

    method RestoreOneAddress(ghost a: Address, ghost rest: seq<Byte>) returns (r: Address)
      requires Ahead(EncOneAddress(a, rest)) && |d| < LIMIT
      requires -LIMIT <= a.group < LIMIT
      modifies this
      ensures Ahead(rest) && r == a
    {
      var personal := RestoreChar(a.personal, EncChar(a.mailbox, EncInt(a.group, rest)));
      var mailbox := RestoreChar(a.mailbox, EncInt(a.group, rest));
      var group := RestoreInt(a.group, rest);
      r := Address(personal, mailbox, Signed(group));
    }

    method RestoreOneParameter(ghost p: Parameter, ghost rest: seq<Byte>) returns (r: Parameter)
      requires Ahead(EncOneParameter(p, rest)) && |d| < LIMIT
      modifies this
      ensures Ahead(rest) && r == p
    {
      var attribute := RestoreChar(p.attribute, EncChar(p.value, rest));
      var value := RestoreChar(p.value, rest);
      r := Parameter(attribute, value);
    }

    method RestoreRecipients(ghost e: Envelope, ghost rest: seq<Byte>) returns (r: seq<seq<Address>>)
      requires Ahead(EncRecipients(e, rest)) && |d| < LIMIT && EnvelopeFits(e)
      modifies this
      ensures Ahead(rest) && r == [e.returnPath, e.from, e.to, e.cc, e.bcc, e.sender, e.replyTo, e.mailFollowupTo]
    {
      ghost var r7 := EncAddress(e.mailFollowupTo, rest);
      ghost var r6 := EncAddress(e.replyTo, r7);
      ghost var r5 := EncAddress(e.sender, r6);
      ghost var r4 := EncAddress(e.bcc, r5);
      ghost var r3 := EncAddress(e.cc, r4);
      ghost var r2 := EncAddress(e.to, r3);
      ghost var r1 := EncAddress(e.from, r2);
      var returnPath := RestoreAddress(e.returnPath, r1);
      var from := RestoreAddress(e.from, r2);
      var to := RestoreAddress(e.to, r3);
      var cc := RestoreAddress(e.cc, r4);
      var bcc := RestoreAddress(e.bcc, r5);
      var sender := RestoreAddress(e.sender, r6);
      var replyTo := RestoreAddress(e.replyTo, r7);
      var mailFollowupTo := RestoreAddress(e.mailFollowupTo, rest);
      r := [returnPath, from, to, cc, bcc, sender, replyTo, mailFollowupTo];
    }

    method RestoreTexts(ghost e: Envelope, ghost rest: seq<Byte>) returns (subject: Option<CString>,
                        realSubj: Option<nat>, others: seq<Option<CString>>)
      requires Ahead(EncTexts(e, rest)) && |d| < LIMIT && EnvelopeFits(e)
      modifies this
      ensures Ahead(rest) && subject == e.subject && realSubj == e.realSubj &&
        others == [e.messageId, e.supersedes, e.date, e.xLabel, e.listPost, e.newsgroups, e.xref, e.followupTo,
            e.xCommentTo]
    {
      ghost var r10 := EncChar(e.xCommentTo, rest);
      ghost var r9 := EncChar(e.followupTo, r10);
      ghost var r8 := EncChar(e.xref, r9);
      ghost var r7 := EncChar(e.newsgroups, r8);
      ghost var r6 := EncChar(e.listPost, r7);
      ghost var r5 := EncChar(e.xLabel, r6);
      ghost var r4 := EncChar(e.date, r5);
      ghost var r3 := EncChar(e.supersedes, r4);
      ghost var r2 := EncChar(e.messageId, r3);
      ghost var r1 := EncInt(if e.realSubj.Some? then e.realSubj.value else -1, r2);
      subject := RestoreChar(e.subject, r1);
      var offset := RestoreInt(if e.realSubj.Some? then e.realSubj.value else -1, r2);
      var messageId := RestoreChar(e.messageId, r3);
      var supersedes := RestoreChar(e.supersedes, r4);
      var date := RestoreChar(e.date, r5);
      var xLabel := RestoreChar(e.xLabel, r6);
      var listPost := RestoreChar(e.listPost, r7);
      var newsgroups := RestoreChar(e.newsgroups, r8);
      var xref := RestoreChar(e.xref, r9);
      var followupTo := RestoreChar(e.followupTo, r10);
      var xCommentTo := RestoreChar(e.xCommentTo, rest);
      realSubj := if 0 <= Signed(offset) then Some(Signed(offset)) else None;
      others := [messageId, supersedes, date, xLabel, listPost, newsgroups, xref, followupTo, xCommentTo];
    }

    method RestoreEnvelope(ghost e: Envelope, ghost rest: seq<Byte>) returns (r: Envelope)
      requires Ahead(EncEnvelope(e, rest)) && |d| < LIMIT && EnvelopeFits(e)
      modifies this
      ensures Ahead(rest) && r == e
    {
      ghost var r3 := EncList(e.userhdrs, rest);
      ghost var r2 := EncList(e.inReplyTo, r3);
      ghost var r1 := EncList(e.references, r2);
      var a := RestoreRecipients(e, EncTexts(e, r1));
      var subject, realSubj, t := RestoreTexts(e, r1);
      var references := RestoreList(e.references, r2);
      var inReplyTo := RestoreList(e.inReplyTo, r3);
      var userhdrs := RestoreList(e.userhdrs, rest);
      r := Envelope(a[0], a[1], a[2], a[3], a[4], a[5], a[6], a[7], subject, realSubj,
                    t[0], t[1], t[2], t[3], t[4], t[5], t[6], t[7], t[8], references, inReplyTo, userhdrs);
    }

    method RestoreBody(size: nat, ghost b: Body, ghost rest: seq<Byte>) returns (r: Body)
      requires Ahead(EncBody(b, rest)) && |d| < LIMIT && |b.raw| == size
      modifies this
      ensures Ahead(rest) && r == b
    {
      ghost var r7 := EncChar(b.dFilename, rest);
      ghost var r6 := EncChar(b.filename, r7);
      ghost var r5 := EncChar(b.formName, r6);
      ghost var r4 := EncChar(b.description, r5);
      ghost var r3 := EncParameter(b.parameter, r4);
      ghost var r2 := EncChar(b.subtype, r3);
      ghost var r1 := EncChar(b.xtype, r2);
      var raw := Take(size, b.raw, r1);
      var xtype := RestoreChar(b.xtype, r2);
      var subtype := RestoreChar(b.subtype, r3);
      var parameter := RestoreParameter(b.parameter, r4);
      var description := RestoreChar(b.description, r5);
      var formName := RestoreChar(b.formName, r6);
      var filename := RestoreChar(b.filename, r7);
      var dFilename := RestoreChar(b.dFilename, rest);
      r := Body(raw, xtype, subtype, parameter, description, formName, filename, dFilename);
    }
  }

  lemma {:induction false} AddressItemsLonger(list: seq<Address>, rest: seq<Byte>)
    ensures |EncAddressItems(list, rest)| >= |list| + |rest|
  {
    if list != [] {
      AddressItemsLonger(list[1..], rest);
    }
  }

  lemma {:induction false} ListItemsLonger(list: seq<Option<CString>>, rest: seq<Byte>)
    ensures |EncListItems(list, rest)| >= |list| + |rest|
  {
    if list != [] {
      ListItemsLonger(list[1..], rest);
    }
  }

  lemma {:induction false} ParameterItemsLonger(list: seq<Parameter>, rest: seq<Byte>)
    ensures |EncParameterItems(list, rest)| >= |list| + |rest|
  {
    if list != [] {
      ParameterItemsLonger(list[1..], rest);
    }
  }

  lemma Behind(a: seq<Byte>, b: seq<Byte>)
    ensures (a + b)[|a|..] == b
  {
  }

  /** mutt_hcache_restore. */
  method HcacheRestore(d: seq<Byte>, validateSize: nat, headerSize: nat, bodySize: nat,
                       ghost validate: seq<Byte>, ghost crc: int, ghost h: Header)
    returns (r: Header)
    requires d == EncHeader(validate, crc, h) && |d| < LIMIT && EnvelopeFits(h.env)
    requires |validate| == validateSize && |h.raw| == headerSize && |h.content.raw| == bodySize
    ensures r == h
  {
    ghost var r1 := EncChar(h.maildirFlags, []);
    ghost var r2 := EncBody(h.content, r1);
    ghost var r3 := EncEnvelope(h.env, r2);
    Behind(validate, EncInt(crc, h.raw + r3));
    Behind(Word(crc), h.raw + r3);
    assert d[validateSize + 4..] == d[validateSize..][4..];
    var restore := new Restore(d, validateSize + 4);
    var raw := restore.Take(headerSize, h.raw, r3);
    var env := restore.RestoreEnvelope(h.env, r2);
    var content := restore.RestoreBody(bodySize, h.content, r1);
    var maildirFlags := restore.RestoreChar(h.maildirFlags, []);
    r := Header(raw, env, content, maildirFlags);
  }

  /** The checksum word of a record. */
  function CrcOf(d: seq<Byte>, validateSize: nat): int
    requires |d| >= validateSize + 4
  {
    FromWord(d[validateSize..validateSize + 4])
  }

  /** In a dumped record that is the checksum dumped. */
  lemma CrcDumped(validate: seq<Byte>, crc: int, h: Header)
    ensures var d := EncHeader(validate, crc, h);
            |d| >= |validate| + 4 && CrcOf(d, |validate|) == crc % MODULUS
  {
    WordRoundTrip(crc);
    Behind(validate, EncInt(crc, EncRecord(h)));
    assert EncHeader(validate, crc, h)[|validate|..|validate| + 4] == Word(crc);
  }

  /** crc32_matches: a record that is not there never matches, any other if its checksum word does. */
  method Crc32Matches(d: Option<seq<Byte>>, validateSize: nat, crc: int) returns (matches: bool)
    requires d.Some? ==> |d.value| >= validateSize + 4
    ensures matches <==> d.Some? && crc == CrcOf(d.value, validateSize)
  {
    if d.None? {
      return false;
    }
    var restore := new Restore(d.value, validateSize);
    var word := restore.Take(4, d.value[validateSize..validateSize + 4], d.value[validateSize + 4..]);
    return crc == FromWord(word);
  }

  /** What is restored from a dumped header is the header. */
  method DumpThenRestore(validate: seq<Byte>, crc: int, h: Header) returns (r: Header)
    requires validate != [] && h.raw != [] && h.content.raw != [] && EnvelopeFits(h.env)
    requires |EncHeader(validate, crc, h)| < LIMIT
    ensures r == h
  {
    var dump := HcacheDump(validate, crc, h);
    r := HcacheRestore(dump.d[..dump.off], |validate|, |h.raw|, |h.content.raw|, validate, crc, h);
  }
}
