/** Copying a message without its deleted attachments (copy.c). */
module CopyAttach {
  import opened Numerals
  import opened Sequences

  // One recursive walk (count_delete_lines) predicts the length and line count that go into the header; a different one
  // (copy_delete_attach) then writes the body.

  /** A MIME part: where its header starts, where its body starts, and how long the body is. */
  datatype Body = Body(hdrOffset: nat, offset: nat, length: nat, deleted: bool, parts: seq<Body>) {
    function End(): nat {
      offset + length
    }
  }

  /** Parts follow one another inside lo..hi, each header before its body, and nest likewise. */
  ghost predicate Nested(parts: seq<Body>, lo: nat, hi: nat)
    decreases parts
  {
    if parts == [] then lo <= hi
    else
      var p := parts[0];
      lo <= p.hdrOffset <= p.offset && p.End() <= hi &&
      (p.deleted || Nested(p.parts, p.offset, p.End())) &&
      Nested(parts[1..], p.End(), hi)
  }

  function Newlines(s: string): nat {
    if s == "" then 0 else Newlines(s[..|s| - 1]) + if s[|s| - 1] == '\n' then 1 else 0
  }

  lemma {:induction false} NewlinesAppend(a: string, b: string)
    ensures Newlines(a + b) == Newlines(a) + Newlines(b)
  {
    if b == "" {
      assert a + b == a;
    } else {
      assert (a + b)[..|a + b| - 1] == a + b[..|b| - 1];
      NewlinesAppend(a, b[..|b| - 1]);
    }
  }

  /** The external-body header put in place of a deleted attachment. */
  function Stub(date: string, length: nat): string
    requires |date| >= 5
  {
    "Content-Type: message/external-body; " + "access-type=x-mutt-deleted;" + "\n" +
    "\texpiration=" + date[5..] + "; length=" + Decimal(length) + "\n" +
    "\n"
  }

  // ----- specification: the flat layout of the output -----

  /** The outermost deleted parts, in order. */
  function Deleted(parts: seq<Body>): seq<Body>
    decreases parts, 0
  {
    if parts == [] then [] else Outermost(parts[0]) + Deleted(parts[1..])
  }

  function Outermost(part: Body): seq<Body>
    decreases part, 1
  {
    if part.deleted then [part] else Deleted(part.parts)
  }

  /** Deleted parts lie one after the other inside lo..hi. */
  ghost predicate InOrder(ds: seq<Body>, lo: nat, hi: nat) {
    if ds == [] then lo <= hi
    else lo <= ds[0].hdrOffset <= ds[0].offset && ds[0].End() <= hi && InOrder(ds[1..], ds[0].End(), hi)
  }

  /** Bytes lo..hi of the message with each body of ds replaced by a stub before its header. */
  function Written(data: string, stub: nat -> string, lo: nat, hi: nat, ds: seq<Body>): string
    requires InOrder(ds, lo, hi) && hi <= |data|
    decreases |ds|
  {
    if ds == [] then data[lo..hi]
    else
      InOrderBounds(ds[1..], ds[0].End(), hi);
      data[lo..ds[0].hdrOffset] + stub(ds[0].length) + data[ds[0].hdrOffset..ds[0].offset] +
      Written(data, stub, ds[0].End(), hi, ds[1..])
  }

  lemma {:induction false} InOrderAppend(a: seq<Body>, b: seq<Body>, lo: nat, mid: nat, hi: nat)
    requires InOrder(a, lo, mid) && InOrder(b, mid, hi)
    ensures InOrder(a + b, lo, hi)
  {
    if a == [] {
      assert a + b == b;
      InOrderFrom(b, lo, mid, hi);
    } else {
      assert (a + b)[1..] == a[1..] + b;
      InOrderAppend(a[1..], b, a[0].End(), mid, hi);
      InOrderBounds(b, mid, hi);
      InOrderBounds(a, lo, mid);
    }
  }

  lemma {:induction false} InOrderBounds(ds: seq<Body>, lo: nat, hi: nat)
    requires InOrder(ds, lo, hi)
    ensures lo <= hi
  {
    if ds != [] {
      InOrderBounds(ds[1..], ds[0].End(), hi);
    }
  }

  lemma {:induction false} NestedBounds(parts: seq<Body>, lo: nat, hi: nat)
    requires Nested(parts, lo, hi)
    ensures lo <= hi
    decreases |parts|
  {
    if parts != [] {
      NestedBounds(parts[1..], parts[0].End(), hi);
    }
  }

  lemma InOrderFrom(ds: seq<Body>, lo: nat, mid: nat, hi: nat)
    requires lo <= mid && InOrder(ds, mid, hi)
    ensures InOrder(ds, lo, hi)
  {
  }

  /** The two halves of a region can be written one after the other. */
  lemma {:induction false} WrittenAppend(data: string, stub: nat -> string, lo: nat, mid: nat, hi: nat, a: seq<Body>,
                                         b: seq<Body>)
    requires InOrder(a, lo, mid) && InOrder(b, mid, hi) && hi <= |data| && mid <= |data|
    requires InOrder(a + b, lo, hi)
    ensures Written(data, stub, lo, hi, a + b) == Written(data, stub, lo, mid, a) + Written(data, stub, mid, hi, b)
    decreases |a|
  {
    if a == [] {
      assert a + b == b;
      WrittenFrom(data, stub, lo, mid, hi, b);
    } else {
      assert (a + b)[1..] == a[1..] + b;
      WrittenAppend(data, stub, a[0].End(), mid, hi, a[1..], b);
    }
  }

  lemma WrittenFrom(data: string, stub: nat -> string, lo: nat, mid: nat, hi: nat, ds: seq<Body>)
    requires lo <= mid && InOrder(ds, mid, hi) && InOrder(ds, lo, hi) && hi <= |data|
    ensures mid <= hi
    ensures Written(data, stub, lo, hi, ds) == data[lo..mid] + Written(data, stub, mid, hi, ds)
  {
    InOrderBounds(ds, mid, hi);
    if ds == [] {
      assert data[lo..hi] == data[lo..mid] + data[mid..hi];
    } else {
      var d := ds[0];
      assert data[lo..d.hdrOffset] == data[lo..mid] + data[mid..d.hdrOffset];
      ReassociateFive(data[lo..mid], data[mid..d.hdrOffset], stub(d.length), data[d.hdrOffset..d.offset],
                      Written(data, stub, d.End(), hi, ds[1..]));
    }
  }

  lemma {:induction false} NestedInOrder(parts: seq<Body>, lo: nat, hi: nat)
    requires Nested(parts, lo, hi)
    ensures InOrder(Deleted(parts), lo, hi)
    decreases parts
  {
    if parts != [] {
      var p := parts[0];
      NestedInOrder(parts[1..], p.End(), hi);
      if p.deleted {
        assert InOrder([p], lo, p.End());
        InOrderAppend([p], Deleted(parts[1..]), lo, p.End(), hi);
      } else {
        NestedInOrder(p.parts, p.offset, p.End());
        InOrderFrom(Deleted(p.parts), lo, p.offset, p.End());
        InOrderAppend(Deleted(p.parts), Deleted(parts[1..]), lo, p.End(), hi);
      }
    }
  }

  ghost predicate Joined(done: seq<Body>, todo: seq<Body>, all: seq<Body>) {
    done + todo == all
  }

  lemma JoinedFurther(done: seq<Body>, more: seq<Body>, todo: seq<Body>, all: seq<Body>)
    requires Joined(done, more + todo, all)
    ensures Joined(done + more, todo, all)
  {
    assert done + more + todo == done + (more + todo);
  }

  /** Appending the next region to what has been written since `before`. */
  lemma WrittenFurther(data: string, stub: nat -> string, lo: nat, mid: nat, hi: nat, a: seq<Body>, b: seq<Body>,
                       before: string, middle: string, after: string)
    requires InOrder(a, lo, mid) && InOrder(b, mid, hi) && hi <= |data| && mid <= |data|
    requires middle == before + Written(data, stub, lo, mid, a) && after == middle + Written(data, stub, mid, hi, b)
    ensures InOrder(a + b, lo, hi) && after == before + Written(data, stub, lo, hi, a + b)
  {
    InOrderAppend(a, b, lo, mid, hi);
    WrittenAppend(data, stub, lo, mid, hi, a, b);
    var x, y := Written(data, stub, lo, mid, a), Written(data, stub, mid, hi, b);
    assert before + x + y == before + (x + y);
  }

  /** Plain text up to mid, then the region from mid on. */
  lemma WrittenAfter(data: string, stub: nat -> string, lo: nat, mid: nat, hi: nat, ds: seq<Body>,
                     before: string, middle: string, after: string)
    requires lo <= mid && InOrder(ds, mid, hi) && hi <= |data| && mid <= |data|
    requires middle == before + data[lo..mid] && after == middle + Written(data, stub, mid, hi, ds)
    ensures InOrder(ds, lo, hi) && after == before + Written(data, stub, lo, hi, ds)
  {
    InOrderFrom(ds, lo, mid, hi);
    WrittenFrom(data, stub, lo, mid, hi, ds);
    assert before + data[lo..mid] + Written(data, stub, mid, hi, ds)
        == before + (data[lo..mid] + Written(data, stub, mid, hi, ds));
  }

  // ----- copy_delete_attach -----

  class InFile {
    const data: string
    var pos: nat

    constructor (data: string)
      ensures this.data == data && pos == 0
    {
      this.data, pos := data, 0;
    }
  }

  class OutFile {
    var data: string

    constructor ()
      ensures data == ""
    {
      data := "";
    }

    method Puts(s: string)
      modifies this
      ensures data == old(data) + s
    {
      data := data + s;
    }
  }

  /** mutt_copy_bytes: the size is unsigned, so a negative one copies all there is. */
  method CopyBytes(fpin: InFile, fpout: OutFile, size: int)
    requires fpin.pos <= |fpin.data|
    modifies fpin, fpout
    ensures fpin.pos == if 0 <= size <= |fpin.data| - old(fpin.pos) then old(fpin.pos) + size else |fpin.data|
    ensures fpout.data == old(fpout.data) + fpin.data[old(fpin.pos)..fpin.pos]
  {
    var end := if 0 <= size <= |fpin.data| - fpin.pos then fpin.pos + size else |fpin.data|;
    fpout.Puts(fpin.data[fpin.pos..end]);
    fpin.pos := end;
  }

  method CopyDeleteAttach(b: Body, fpin: InFile, fpout: OutFile, stub: nat -> string)
    requires fpin.pos <= b.offset && Nested(b.parts, b.offset, b.End()) && b.End() <= |fpin.data|
    modifies fpin, fpout
    ensures fpin.pos == b.End() && InOrder(Deleted(b.parts), old(fpin.pos), b.End())
    ensures fpout.data == old(fpout.data) + Written(fpin.data, stub, old(fpin.pos), b.End(), Deleted(b.parts))
    decreases b, 1
  {
    ghost var start, before := fpin.pos, fpout.data;
    ghost var done: seq<Body>, lo := [], b.offset;
    var i := 0;
    assert b.parts[0..] == b.parts;
    while i < |b.parts|
      invariant 0 <= i <= |b.parts| && Nested(b.parts[i..], lo, b.End()) && fpin.pos <= lo
      invariant Joined(done, Deleted(b.parts[i..]), Deleted(b.parts))
      invariant InOrder(done, start, fpin.pos) && fpin.pos <= |fpin.data|
      invariant fpout.data == before + Written(fpin.data, stub, start, fpin.pos, done)
    {
      assert b.parts[i..][1..] == b.parts[i + 1..];
      NestedBounds(b.parts[i + 1..], b.parts[i].End(), b.End());
      CopyPart(b.parts[i], fpin, fpout, stub, lo, start, before, done);
      JoinedFurther(done, Outermost(b.parts[i]), Deleted(b.parts[i + 1..]), Deleted(b.parts));
      done, lo, i := done + Outermost(b.parts[i]), b.parts[i].End(), i + 1;
    }
    assert b.parts[i..] == [] && done == Deleted(b.parts);
    CopyRest(fpin, fpout, stub, b.End(), start, before, done);
  }

  /** What follows the last part. */
  method CopyRest(fpin: InFile, fpout: OutFile, ghost stub: nat -> string, end: nat, ghost start: nat,
                  ghost before: string, ghost done: seq<Body>)
    requires fpin.pos <= end <= |fpin.data| && InOrder(done, start, fpin.pos)
    requires fpout.data == before + Written(fpin.data, stub, start, fpin.pos, done)
    modifies fpin, fpout
    ensures fpin.pos == end && InOrder(done, start, end)
    ensures fpout.data == before + Written(fpin.data, stub, start, end, done)
  {
    ghost var pos, written := fpin.pos, fpout.data;
    CopyBytes(fpin, fpout, end - fpin.pos);
    WrittenFurther(fpin.data, stub, start, pos, end, done, [], before, written, fpout.data);
    assert done + [] == done;
  }

  /** What copy_delete_attach does about one part (stub it, descend into it, or leave it for later), after
      the parts `done` since `start`. */
  method CopyPart(part: Body, fpin: InFile, fpout: OutFile, stub: nat -> string,
                  ghost lo: nat, ghost start: nat, ghost before: string, ghost done: seq<Body>)
    requires fpin.pos <= lo <= part.hdrOffset <= part.offset && part.End() <= |fpin.data|
    requires part.deleted || Nested(part.parts, part.offset, part.End())
    requires InOrder(done, start, fpin.pos) && fpout.data == before + Written(fpin.data, stub, start, fpin.pos, done)
    modifies fpin, fpout
    ensures old(fpin.pos) <= fpin.pos <= part.End() && InOrder(done + Outermost(part), start, fpin.pos)
    ensures fpout.data == before + Written(fpin.data, stub, start, fpin.pos, done + Outermost(part))
    decreases part, 3
  {
    ghost var pos, middle := fpin.pos, fpout.data;
    if part.deleted {
      CopyReplaced(part, fpin, fpout, stub);
      WrittenFurther(fpin.data, stub, start, pos, fpin.pos, done, [part], before, middle, fpout.data);
    } else if part.parts != [] {
      CopyNested(part, fpin, fpout, stub);
      WrittenFurther(fpin.data, stub, start, pos, fpin.pos, done, Deleted(part.parts), before, middle, fpout.data);
    } else {
      assert done + Outermost(part) == done;
    }
  }

  method CopyNested(part: Body, fpin: InFile, fpout: OutFile, stub: nat -> string)
    requires fpin.pos <= part.hdrOffset <= part.offset && part.End() <= |fpin.data|
    requires Nested(part.parts, part.offset, part.End())
    modifies fpin, fpout
    ensures fpin.pos == part.End() && InOrder(Deleted(part.parts), old(fpin.pos), fpin.pos)
    ensures fpout.data == old(fpout.data) + Written(fpin.data, stub, old(fpin.pos), fpin.pos, Deleted(part.parts))
    decreases part, 2
  {
    ghost var start, before := fpin.pos, fpout.data;
    CopyBytes(fpin, fpout, part.hdrOffset - fpin.pos);
    ghost var middle := fpout.data;
    CopyDeleteAttach(part, fpin, fpout, stub);
    WrittenAfter(fpin.data, stub, start, part.hdrOffset, part.End(), Deleted(part.parts), before, middle, fpout.data);
  }

  method CopyReplaced(part: Body, fpin: InFile, fpout: OutFile, stub: nat -> string)
    requires fpin.pos <= part.hdrOffset <= part.offset && part.End() <= |fpin.data|
    modifies fpin, fpout
    ensures fpin.pos == part.End() && InOrder([part], old(fpin.pos), fpin.pos)
    ensures fpout.data == old(fpout.data) + Written(fpin.data, stub, old(fpin.pos), fpin.pos, [part])
  {
    ghost var start, before := fpin.pos, fpout.data;
    CopyBytes(fpin, fpout, part.hdrOffset - fpin.pos);
    ReplaceBody(part, fpin, fpout, stub(part.length));
    OneWritten(fpin.data, stub, start, part);
    ReassociateFive(before, fpin.data[start..part.hdrOffset], stub(part.length),
                    fpin.data[part.hdrOffset..part.offset], "");
  }

  /** The stub, the original MIME header, and no body. */
  method ReplaceBody(part: Body, fpin: InFile, fpout: OutFile, stub: string)
    requires fpin.pos == part.hdrOffset <= part.offset && part.End() <= |fpin.data|
    modifies fpin, fpout
    ensures fpin.pos == part.End()
    ensures fpout.data == old(fpout.data) + stub + fpin.data[part.hdrOffset..part.offset]
  {
    fpout.Puts(stub);
    CopyBytes(fpin, fpout, part.offset - fpin.pos);
    fpin.pos := part.offset + part.length;
  }

  lemma OneWritten(data: string, stub: nat -> string, lo: nat, d: Body)
    requires lo <= d.hdrOffset <= d.offset && d.End() <= |data|
    ensures InOrder([d], lo, d.End())
    ensures Written(data, stub, lo, d.End(), [d]) ==
            data[lo..d.hdrOffset] + stub(d.length) + data[d.hdrOffset..d.offset]
  {
    assert [d][1..] == [];
    assert Written(data, stub, d.End(), d.End(), []) == "";
  }

  function Stubs(date: string): nat -> string
    requires |date| >= 5
  {
    (length: nat) => Stub(date, length)
  }

  // ----- count_delete_lines -----

  function Pow10(k: nat): (p: nat)
    ensures p > 0
  {
    if k == 0 then 1 else 10 * Pow10(k - 1)
  }

  lemma {:induction false} DecimalLength(n: nat, k: nat)
    requires (k == 0 || Pow10(k) <= n) && n < Pow10(k + 1)
    ensures |Decimal(n)| == k + 1
  {
    if k > 0 {
      DecimalLength(n / 10, k - 1);
    }
  }

  /** By how much stubbing the parts of ds changes the length of the message. */
  function LengthChange(datelen: nat, ds: seq<Body>): int {
    if ds == [] then 0
    else 83 + datelen + |Decimal(ds[0].length)| - ds[0].length + LengthChange(datelen, ds[1..])
  }

  function LinesGone(data: string, ds: seq<Body>): int
    requires forall d :: d in ds ==> d.End() <= |data|
  {
    if ds == [] then 0
    else
      assert ds[0] in ds && ds[0].offset <= ds[0].End() <= |data|;
      Newlines(data[ds[0].offset..ds[0].End()]) - 3 + LinesGone(data, ds[1..])
  }

  lemma {:induction false} SumsAppend(data: string, datelen: nat, a: seq<Body>, b: seq<Body>)
    requires forall d :: d in a + b ==> d.End() <= |data|
    ensures LengthChange(datelen, a + b) == LengthChange(datelen, a) + LengthChange(datelen, b)
    ensures LinesGone(data, a + b) == LinesGone(data, a) + LinesGone(data, b)
  {
    if a == [] {
      assert a + b == b;
    } else {
      assert (a + b)[1..] == a[1..] + b;
      SumsAppend(data, datelen, a[1..], b);
    }
  }

  /** Counting the newlines of one deleted body; a short file ends the count. */
  method CountNewlines(fp: InFile, offset: nat, length: nat) returns (n: nat)
    requires offset <= |fp.data|
    modifies fp
    ensures n == Newlines(fp.data[offset..if offset + length <= |fp.data| then offset + length else |fp.data|])
  {
    fp.pos := offset;
    n := 0;
    var l := length;
    while l > 0
      invariant 0 <= l <= length && fp.pos == offset + (length - l) && fp.pos <= |fp.data|
      invariant n == Newlines(fp.data[offset..fp.pos])
    {
      if fp.pos == |fp.data| {
        break;
      }
      assert fp.data[offset..fp.pos + 1][..fp.pos - offset] == fp.data[offset..fp.pos];
      if fp.data[fp.pos] == '\n' {
        n := n + 1;
      }
      fp.pos := fp.pos + 1;
      l := l - 1;
    }
  }

  /** The number of digits exceeding the first one. */
  method ExtraDigits(n: nat) returns (extra: nat)
    ensures extra == |Decimal(n)| - 1
  {
    extra := 0;
    var l: nat := 10;
    assert Pow10(1) == 10 * Pow10(0);
    while n >= l
      invariant l == Pow10(extra + 1) && (extra == 0 || Pow10(extra) <= n)
      decreases n - l
    {
      extra, l := extra + 1, l * 10;
    }
    DecimalLength(n, extra);
  }

  method CountDeleteLines(fp: InFile, b: Body, length: int, datelen: nat) returns (dellines: int, length': int)
    requires forall d :: d in Outermost(b) ==> d.End() <= |fp.data|
    modifies fp
    ensures dellines == LinesGone(fp.data, Outermost(b))
    ensures length' == length + LengthChange(datelen, Outermost(b))
    decreases b
  {
    dellines, length' := 0, length;
    if b.deleted {
      assert b in Outermost(b);
      dellines := CountNewlines(fp, b.offset, b.length);
      dellines := dellines - 3;
      length' := length' - (b.length - (84 + datelen));
      var extra := ExtraDigits(b.length);
      length' := length' + extra;
      assert [b][1..] == [];
    } else {
      var i := 0;
      ghost var done: seq<Body> := [];
      assert b.parts[0..] == b.parts;
      while i < |b.parts|
        invariant 0 <= i <= |b.parts| && Joined(done, Deleted(b.parts[i..]), Deleted(b.parts))
        invariant forall d :: d in done ==> d.End() <= |fp.data|
        invariant forall d :: d in Deleted(b.parts[i..]) ==> d.End() <= |fp.data|
        invariant dellines == LinesGone(fp.data, done) && length' == length + LengthChange(datelen, done)
      {
        ghost var more := Outermost(b.parts[i]);
        assert b.parts[i..][1..] == b.parts[i + 1..];
        var lines;
        lines, length' := CountDeleteLines(fp, b.parts[i], length', datelen);
        dellines := dellines + lines;
        SumsAppend(fp.data, datelen, done, more);
        JoinedFurther(done, more, Deleted(b.parts[i + 1..]), Deleted(b.parts));
        done := done + more;
        i := i + 1;
      }
      assert b.parts[i..] == [] && done + [] == done;
    }
  }

  // ----- the prediction is exact -----

  lemma {:induction false} NoNewlines(s: string)
    requires '\n' !in s
    ensures Newlines(s) == 0
  {
    if s != "" {
      NoNewlines(s[..|s| - 1]);
    }
  }

  lemma EndLine(s: string)
    requires '\n' !in s
    ensures Newlines(s + "\n") == 1
  {
    NoNewlines(s);
    NewlinesAppend(s, "\n");
    assert "\n"[..0] == "";
  }

  /** 84 bytes, the date line, and the digits of the length beyond the first; three lines. */
  lemma StubSize(date: string, length: nat)
    requires |date| >= 5 && '\n' !in date
    ensures |Stub(date, length)| == 83 + |date| + |Decimal(length)| && Newlines(Stub(date, length)) == 3
  {
    var first := "Content-Type: message/external-body; " + "access-type=x-mutt-deleted;";
    var second := "\texpiration=" + date[5..] + "; length=" + Decimal(length);
    ThreeLines(first, second);
    assert Stub(date, length) == first + "\n" + (second + "\n") + "\n";
  }

  lemma ThreeLines(first: string, second: string)
    requires '\n' !in first && '\n' !in second
    ensures Newlines(first + "\n" + (second + "\n") + "\n") == 3
  {
    EndLine(first);
    EndLine(second);
    EndLine("");
    assert "" + "\n" == "\n";
    NewlinesAppend(first + "\n", second + "\n");
    NewlinesAppend(first + "\n" + (second + "\n"), "\n");
  }

  lemma {:induction false} InOrderInFile(ds: seq<Body>, lo: nat, hi: nat)
    requires InOrder(ds, lo, hi)
    ensures forall d :: d in ds ==> d.End() <= hi
  {
    if ds != [] {
      InOrderInFile(ds[1..], ds[0].End(), hi);
      InOrderBounds(ds[1..], ds[0].End(), hi);
      assert forall d :: d in ds ==> d == ds[0] || d in ds[1..];
    }
  }

  /** What count_delete_lines predicts is what copy_delete_attach writes. */
  lemma {:induction false} WrittenSize(data: string, stub: nat -> string, datelen: nat, lo: nat, hi: nat, ds: seq<Body>)
    requires InOrder(ds, lo, hi) && hi <= |data| && lo <= hi && forall d :: d in ds ==> d.End() <= |data|
    requires forall n: nat :: |stub(n)| == 83 + datelen + |Decimal(n)| && Newlines(stub(n)) == 3
    ensures |Written(data, stub, lo, hi, ds)| == hi - lo + LengthChange(datelen, ds)
    ensures Newlines(Written(data, stub, lo, hi, ds)) == Newlines(data[lo..hi]) - LinesGone(data, ds)
    decreases |ds|
  {
    if ds != [] {
      var d := ds[0];
      InOrderBounds(ds[1..], d.End(), hi);
      WrittenSize(data, stub, datelen, d.End(), hi, ds[1..]);
      var head, mime, body, tail := data[lo..d.hdrOffset], data[d.hdrOffset..d.offset], data[d.offset..d.End()],
          data[d.End()..hi];
      FourSlices(data, lo, d.hdrOffset, d.offset, d.End(), hi);
      NewlinesOfFour(head, mime, body, tail);
      NewlinesOfFour(head, stub(d.length), mime, Written(data, stub, d.End(), hi, ds[1..]));
    }
  }

  lemma FourSlices(data: string, a: nat, b: nat, c: nat, d: nat, e: nat)
    requires a <= b <= c <= d <= e <= |data|
    ensures data[a..e] == data[a..b] + data[b..c] + data[c..d] + data[d..e]
  {
    assert data[a..b] + data[b..c] == data[a..c];
    assert data[a..c] + data[c..d] == data[a..d];
  }

  lemma NewlinesOfFour(a: string, b: string, c: string, d: string)
    ensures Newlines(a + b + c + d) == Newlines(a) + Newlines(b) + Newlines(c) + Newlines(d)
  {
    NewlinesAppend(a, b);
    NewlinesAppend(a + b, c);
    NewlinesAppend(a + b + c, d);
  }

  // ----- what survives -----

  /** Byte i belongs to the body of a deleted part. */
  ghost predicate Erased(parts: seq<Body>, i: nat)
    decreases parts
  {
    exists k :: 0 <= k < |parts| &&
      if parts[k].deleted then parts[k].offset <= i < parts[k].End() else Erased(parts[k].parts, i)
  }

  /** Bytes lo..hi without the erased ones. */
  ghost function Survivors(data: string, parts: seq<Body>, lo: nat, hi: nat): string
    requires hi <= |data|
    decreases hi - lo
  {
    if lo >= hi then ""
    else (if Erased(parts, lo) then "" else [data[lo]]) + Survivors(data, parts, lo + 1, hi)
  }

  ghost predicate Covered(ds: seq<Body>, i: nat) {
    exists d :: d in ds && d.offset <= i < d.End()
  }

  lemma {:induction false} ErasedIffCovered(parts: seq<Body>, i: nat)
    ensures Erased(parts, i) <==> Covered(Deleted(parts), i)
    decreases parts
  {
    if parts != [] {
      var p, rest := parts[0], parts[1..];
      ErasedIffCovered(rest, i);
      if !p.deleted {
        ErasedIffCovered(p.parts, i);
      }
      assert Deleted(parts) == Outermost(p) + Deleted(rest);
      assert Covered(Deleted(parts), i) <==> Covered(Outermost(p), i) || Covered(Deleted(rest), i);
      if Erased(rest, i) {
        var k :| 0 <= k < |rest| &&
          if rest[k].deleted then rest[k].offset <= i < rest[k].End() else Erased(rest[k].parts, i);
        assert parts[k + 1] == rest[k];
      }
      if Erased(parts, i) {
        var k :| 0 <= k < |parts| &&
          if parts[k].deleted then parts[k].offset <= i < parts[k].End() else Erased(parts[k].parts, i);
        if k > 0 {
          assert rest[k - 1] == parts[k];
        }
      }
    }
  }

  lemma {:induction false} SurvivorsRun(data: string, parts: seq<Body>, lo: nat, mid: nat, hi: nat, erased: bool)
    requires lo <= mid <= hi <= |data| && forall i :: lo <= i < mid ==> Erased(parts, i) == erased
    ensures Survivors(data, parts, lo, hi) ==
            (if erased then "" else data[lo..mid]) + Survivors(data, parts, mid, hi)
    decreases mid - lo
  {
    if lo < mid {
      SurvivorsRun(data, parts, lo + 1, mid, hi, erased);
      assert data[lo..mid] == [data[lo]] + data[lo + 1..mid];
    }
  }

  lemma SurvivorsSkip(data: string, parts: seq<Body>, lo: nat, mid: nat, end: nat, hi: nat)
    requires lo <= mid <= end <= hi <= |data|
    requires forall i :: lo <= i < end ==> (Erased(parts, i) <==> mid <= i)
    ensures Survivors(data, parts, lo, hi) == data[lo..mid] + Survivors(data, parts, end, hi)
  {
    SurvivorsRun(data, parts, lo, mid, hi, false);
    SurvivorsRun(data, parts, mid, end, hi, true);
  }

  lemma {:induction false} SurvivorsOfLayout(data: string, parts: seq<Body>, lo: nat, hi: nat, ds: seq<Body>)
    requires InOrder(ds, lo, hi) && hi <= |data|
    requires forall i :: lo <= i < hi ==> (Erased(parts, i) <==> Covered(ds, i))
    ensures lo <= hi && Written(data, _ => "", lo, hi, ds) == Survivors(data, parts, lo, hi)
    decreases |ds|
  {
    InOrderBounds(ds, lo, hi);
    if ds == [] {
      SurvivorsRun(data, parts, lo, hi, hi, false);
    } else {
      var d := ds[0];
      InOrderBounds(ds[1..], d.End(), hi);
      CoveredByFirst(ds, lo, hi);
      SurvivorsOfLayout(data, parts, d.End(), hi, ds[1..]);
      SurvivorsSkip(data, parts, lo, d.offset, d.End(), hi);
      TwoSlices(data, lo, d.hdrOffset, d.offset, Written(data, _ => "", d.End(), hi, ds[1..]));
    }
  }

  lemma TwoSlices(data: string, a: nat, b: nat, c: nat, rest: string)
    requires a <= b <= c <= |data|
    ensures data[a..b] + "" + data[b..c] + rest == data[a..c] + rest
  {
    assert data[a..b] + "" + data[b..c] == data[a..c];
  }

  lemma {:induction false} CoveredByFirst(ds: seq<Body>, lo: nat, hi: nat)
    requires InOrder(ds, lo, hi) && ds != []
    ensures forall i: nat :: i < ds[0].offset ==> !Covered(ds, i)
    ensures forall i: nat :: ds[0].offset <= i < ds[0].End() ==> Covered(ds, i)
    ensures forall i: nat :: ds[0].End() <= i ==> (Covered(ds, i) <==> Covered(ds[1..], i))
    decreases |ds|
  {
    if |ds| > 1 {
      CoveredByFirst(ds[1..], ds[0].End(), hi);
    }
    assert ds[0] in ds;
    forall i: nat
      ensures Covered(ds, i) <==> ds[0].offset <= i < ds[0].End() || Covered(ds[1..], i)
    {
      assert forall d :: d in ds <==> d == ds[0] || d in ds[1..];
    }
  }

  /** With the stubs left out (their text is arbitrary), what is written is exactly the bytes of the body
      that belong to no deleted part, in order. */
  lemma AllElseSurvives(data: string, b: Body)
    requires Nested(b.parts, b.offset, b.End()) && b.End() <= |data|
    ensures InOrder(Deleted(b.parts), b.offset, b.End())
    ensures Written(data, _ => "", b.offset, b.End(), Deleted(b.parts)) ==
            Survivors(data, b.parts, b.offset, b.End())
  {
    NestedInOrder(b.parts, b.offset, b.End());
    forall i: nat
      ensures Erased(b.parts, i) <==> Covered(Deleted(b.parts), i)
    {
      ErasedIffCovered(b.parts, i);
    }
    SurvivorsOfLayout(data, b.parts, b.offset, b.End(), Deleted(b.parts));
  }

  // ----- _mutt_copy_message, when attachments are deleted -----

  function LengthHeader(n: int): string
    requires n >= 0
  {
    "Content-Length: " + Decimal(n) + "\n"
  }

  /** The blank line that ends the header is printed together with the line count. */
  function LinesHeader(n: int): string {
    if n <= 0 then "" else "Lines: " + Decimal(n) + "\n" + "\n"
  }

  /** HEADER, as far as the copy reads and updates it. */
  class Message {
    var attachDel: bool
    var lines: int
    var body: Body

    constructor (lines: int, body: Body)
      ensures attachDel && this.lines == lines && this.body == body
    {
      attachDel, this.lines, this.body := true, lines, body;
    }
  }

  /** The sizes of the open mailbox, and of what is visible of it. */
  class Mailbox {
    var size: int
    var vsize: int

    constructor (size: int, vsize: int)
      ensures this.size == size && this.vsize == vsize
    {
      this.size, this.vsize := size, vsize;
    }
  }

  /** The line count that is printed: the stored one less the lines gone, and none if that is not positive. */
  function NewLines(hdrLines: int, gone: int): int {
    if hdrLines - gone <= 0 then 0 else hdrLines - gone
  }

  function NewLength(datelen: nat, b: Body): int {
    b.length + LengthChange(datelen, Outermost(b))
  }

  /** A part tree that can be copied: well nested, inside the file. */
  ghost predicate Copyable(b: Body, data: string) {
    Nested(b.parts, b.offset, b.End()) && b.End() <= |data|
  }

  /** The header of the copy, its length and line count included. */
  function HeaderText(header: string, newLength: int, newLines: int): string
    requires newLength >= 0
  {
    header + LengthHeader(newLength) + LinesHeader(newLines)
  }

  method CountSizes(hdrLines: int, body: Body, fpin: InFile, date: string) returns (newLength: int, newLines: int)
    requires Copyable(body, fpin.data) && |date| >= 5 && '\n' !in date
    modifies fpin
    ensures InFileBelow(Outermost(body), |fpin.data|)
    ensures newLength == NewLength(|date|, body) && newLength >= 0
    ensures newLines == NewLines(hdrLines, LinesGone(fpin.data, Outermost(body)))
  {
    Walkable(fpin.data, date, body);
    var gone;
    gone, newLength := CountDeleteLines(fpin, body, body.length, |date|);
    newLines := hdrLines - gone;
    if newLines <= 0 {
      newLines := 0;
    }
  }

  method CopyBody(body: Body, fpin: InFile, fpout: OutFile, date: string)
    requires Copyable(body, fpin.data) && |date| >= 5
    modifies fpin, fpout
    ensures fpin.pos == body.End() && fpout.data == old(fpout.data) + BodyCopy(fpin.data, date, body)
  {
    fpin.pos := body.offset;
    CopyDeleteAttach(body, fpin, fpout, Stubs(date));
  }

  /** _mutt_copy_message, for a message with deleted attachments. With update the message and the mailbox then
      describe the copy: what the new offset and length delimit in the output is exactly the written body, if the
      root is live. */
  method CopyMessage(header: string, hdr: Message, fpin: InFile, fpout: OutFile, date: string, update: bool,
                     ctx: Mailbox, visible: bool)
    returns (newLength: int, newLines: int, newOffset: nat)
    requires Copyable(hdr.body, fpin.data) && |date| >= 5 && '\n' !in date
    modifies fpin, fpout, hdr, ctx
    ensures InFileBelow(Outermost(old(hdr.body)), |fpin.data|) && fpin.pos == old(hdr.body).End()
    ensures newLength == NewLength(|date|, old(hdr.body)) && newLength >= 0
    ensures newLines == NewLines(old(hdr.lines), LinesGone(fpin.data, Outermost(old(hdr.body))))
    ensures fpout.data == old(fpout.data) + HeaderText(header, newLength, newLines) +
                          BodyCopy(fpin.data, date, old(hdr.body))
    ensures newOffset == |old(fpout.data) + HeaderText(header, newLength, newLines)|
    ensures LinesHeader(newLines) != "" <==> old(hdr.lines) > LinesGone(fpin.data, Outermost(old(hdr.body)))
    ensures if update then
              !hdr.attachDel && hdr.lines == newLines &&
              hdr.body == old(hdr.body).(offset := newOffset, length := newLength, parts := []) &&
              ctx.size == old(ctx.size) - (old(hdr.body).length - newLength) &&
              ctx.vsize == old(ctx.vsize) - if visible then old(hdr.body).length - newLength else 0
            else unchanged(hdr, ctx)
  {
    var body := hdr.body;
    newLength, newLines := CountSizes(hdr.lines, body, fpin, date);
    HeaderEndedIff(hdr.lines, LinesGone(fpin.data, Outermost(body)));
    PutHeader(header, newLength, newLines, fpout);
    newOffset := |fpout.data|;
    CopyBody(body, fpin, fpout, date);
    if update {
      Update(hdr, newLength, newLines, newOffset, ctx, visible);
    }
  }

  /** The original message and its mailbox come to describe the copy. */
  method Update(hdr: Message, newLength: nat, newLines: int, newOffset: nat, ctx: Mailbox, visible: bool)
    modifies hdr, ctx
    ensures !hdr.attachDel && hdr.lines == newLines
    ensures hdr.body == old(hdr.body).(offset := newOffset, length := newLength, parts := [])
    ensures ctx.size == old(ctx.size) - (old(hdr.body).length - newLength)
    ensures ctx.vsize == old(ctx.vsize) - if visible then old(hdr.body).length - newLength else 0
  {
    hdr.attachDel := false;
    hdr.lines := newLines;
    ctx.size := ctx.size - (hdr.body.length - newLength);
    if visible {
      ctx.vsize := ctx.vsize - (hdr.body.length - newLength);
    }
    hdr.body := hdr.body.(offset := newOffset, length := newLength, parts := []);
  }

  ghost predicate InFileBelow(ds: seq<Body>, size: nat) {
    forall d :: d in ds ==> d.End() <= size
  }

  /** What copy_delete_attach writes for the root. */
  ghost function BodyCopy(data: string, date: string, b: Body): string
    requires Copyable(b, data) && |date| >= 5
  {
    NestedInOrder(b.parts, b.offset, b.End());
    Written(data, Stubs(date), b.offset, b.End(), Deleted(b.parts))
  }

  /** The copy of the body has the length and the lines of the original, changed by the outermost deleted parts below
      the root. */
  lemma CopySize(data: string, date: string, b: Body)
    requires Copyable(b, data) && |date| >= 5 && '\n' !in date
    ensures InFileBelow(Deleted(b.parts), |data|) && InFileBelow(Outermost(b), |data|)
    ensures |BodyCopy(data, date, b)| == b.length + LengthChange(|date|, Deleted(b.parts))
    ensures Newlines(BodyCopy(data, date, b)) ==
            Newlines(data[b.offset..b.End()]) - LinesGone(data, Deleted(b.parts))
  {
    NestedInOrder(b.parts, b.offset, b.End());
    InOrderInFile(Deleted(b.parts), b.offset, b.End());
    StubSizes(date);
    WrittenSize(data, Stubs(date), |date|, b.offset, b.End(), Deleted(b.parts));
  }

  lemma DeletedRootLength(datelen: nat, b: Body)
    requires b.deleted
    ensures NewLength(datelen, b) == 83 + datelen + |Decimal(b.length)|
  {
    var ds := Outermost(b);
    assert ds[0] == b && ds[1..] == [] && LengthChange(datelen, []) == 0;
  }

  /** The printed length is that of the copy, for every live root. A root marked deleted, which no caller has, is
      counted as stubbed but copied whole, and then the length is right only if the one size happens to be the other. */
  lemma PredictionExactIff(data: string, date: string, b: Body)
    requires Copyable(b, data) && |date| >= 5 && '\n' !in date
    ensures NewLength(|date|, b) == |BodyCopy(data, date, b)| <==>
            !b.deleted ||
            83 + |date| + |Decimal(b.length)| == b.length + LengthChange(|date|, Deleted(b.parts))
  {
    CopySize(data, date, b);
    if b.deleted {
      DeletedRootLength(|date|, b);
    }
  }

  /** The printed line count is that of the copy, for a live root, exactly when the stored count was that of the
      body, or both the printed count and the copy have no lines left. */
  lemma LinesExactIff(data: string, date: string, b: Body, hdrLines: int)
    requires Copyable(b, data) && |date| >= 5 && '\n' !in date && !b.deleted
    ensures InFileBelow(Outermost(b), |data|)
    ensures var printed, copied := NewLines(hdrLines, LinesGone(data, Outermost(b))), Newlines(BodyCopy(data, date, b));
            printed == copied <==>
            hdrLines == Newlines(data[b.offset..b.End()]) ||
            (copied == 0 && hdrLines <= Newlines(data[b.offset..b.End()]))
  {
    CopySize(data, date, b);
  }

  /** After the update, what the new offset and length delimit in the output is exactly the copied body, unless the
      root was marked deleted. */
  lemma UpdatedBodyLocated(before: string, data: string, date: string, b: Body)
    requires Copyable(b, data) && |date| >= 5 && '\n' !in date && !b.deleted
    ensures var output := before + BodyCopy(data, date, b); var newLength := NewLength(|date|, b);
            newLength >= 0 && |before| + newLength == |output| &&
            output[|before|..|before| + newLength] == BodyCopy(data, date, b)
  {
    PredictionExactIff(data, date, b);
  }

  /** The blank line that ends the header is printed if and only if the stored line count exceeds the lines gone. */
  lemma HeaderEndedIff(hdrLines: int, gone: int)
    ensures LinesHeader(NewLines(hdrLines, gone)) != "" <==> hdrLines > gone
  {
    var n := hdrLines - gone;
    if n > 0 {
      assert "Lines: "[0] == 'L';
    }
  }

  /** So with the true line count stored, and anything deleted, the header is ended: every stub has three lines. */
  lemma HeaderEndedIfCounted(data: string, date: string, b: Body)
    requires Copyable(b, data) && |date| >= 5 && '\n' !in date && !b.deleted && Deleted(b.parts) != []
    ensures InFileBelow(Outermost(b), |data|)
    ensures LinesHeader(NewLines(Newlines(data[b.offset..b.End()]), LinesGone(data, Outermost(b)))) != ""
  {
    CopySize(data, date, b);
    HeaderEndedIff(Newlines(data[b.offset..b.End()]), LinesGone(data, Outermost(b)));
    StubLinesLeft(data, date, b);
  }

  lemma StubLinesLeft(data: string, date: string, b: Body)
    requires Copyable(b, data) && |date| >= 5 && '\n' !in date && Deleted(b.parts) != []
    ensures Newlines(BodyCopy(data, date, b)) >= 3
  {
    var ds := Deleted(b.parts);
    NestedInOrder(b.parts, b.offset, b.End());
    var d := ds[0];
    InOrderBounds(ds[1..], d.End(), b.End());
    StubSizes(date);
    NewlinesOfFour(data[b.offset..d.hdrOffset], Stubs(date)(d.length), data[d.hdrOffset..d.offset],
                   Written(data, Stubs(date), d.End(), b.End(), ds[1..]));
  }

  /** A message whose line count is not stored, as without a Lines field: the three lines of its one part are
      replaced by a stub of three lines, and its header is left without an end. */
  lemma UncountedHeaderUnended()
    ensures var data := "h\na\nb\nc\n";
            var b := Body(0, 0, 8, false, [Body(0, 2, 6, true, [])]);
            Copyable(b, data) && InFileBelow(Outermost(b), |data|) &&
            LinesGone(data, Outermost(b)) == 0 && LinesHeader(NewLines(0, LinesGone(data, Outermost(b)))) == ""
  {
    var data := "h\na\nb\nc\n";
    var part := Body(0, 2, 6, true, []);
    var b := Body(0, 0, 8, false, [part]);
    assert b.parts[1..] == [] && Outermost(part) == [part] && Deleted([]) == [];
    assert Deleted(b.parts) == [part] + [] == [part];
    assert [part][1..] == [] && LinesGone(data, []) == 0;
    var t := data[2..8];
    assert t == "a\nb\nc\n";
    EndLine("a");
    EndLine("b");
    EndLine("c");
    NewlinesAppend("a" + "\n", "b" + "\n");
    NewlinesAppend("a" + "\n" + ("b" + "\n"), "c" + "\n");
    assert t == "a" + "\n" + ("b" + "\n") + ("c" + "\n");
  }

  method PutHeader(header: string, newLength: int, newLines: int, fpout: OutFile)
    requires newLength >= 0
    modifies fpout
    ensures fpout.data == old(fpout.data) + HeaderText(header, newLength, newLines)
  {
    fpout.Puts(header);
    fpout.Puts(LengthHeader(newLength));
    fpout.Puts(LinesHeader(newLines));
  }

  lemma StubSizes(date: string)
    requires |date| >= 5 && '\n' !in date
    ensures forall n: nat :: |Stubs(date)(n)| == 83 + |date| + |Decimal(n)| && Newlines(Stubs(date)(n)) == 3
  {
    forall n: nat
      ensures |Stubs(date)(n)| == 83 + |date| + |Decimal(n)| && Newlines(Stubs(date)(n)) == 3
    {
      StubSize(date, n);
    }
  }

  /** The walks are defined on what is copied. */
  lemma Walkable(data: string, date: string, b: Body)
    requires Copyable(b, data) && |date| >= 5 && '\n' !in date
    ensures InOrder(Deleted(b.parts), b.offset, b.End()) && InFileBelow(Outermost(b), |data|)
    ensures NewLength(|date|, b) >= 0
  {
    NestedInOrder(b.parts, b.offset, b.End());
    CopySize(data, date, b);
    if b.deleted {
      DeletedRootLength(|date|, b);
    }
  }
}
