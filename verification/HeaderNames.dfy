/** Which fields mutt_copy_hdr leaves out, by name (copy.c). */
module HeaderNames {
  import opened Ascii
  import opened CopyHeader
  import opened HeaderFields

  /** The text before the first colon, in small letters. */
  function NameOf(line: string): string {
    if line == "" || line[0] == ':' then "" else [LowerChar(line[0])] + NameOf(line[1..])
  }

  /** The line begins a field of this name, given in small letters. */
  predicate Named(line: string, name: string) {
    ':' in line && NameOf(line) == name
  }

  lemma {:induction false} StartsIffNamed(line: string, key: string, name: string)
    requires key != "" && key[|key| - 1] == ':' && ':' !in key[..|key| - 1]
    requires |name| == |key| - 1 && forall i :: 0 <= i < |name| ==> name[i] == LowerChar(key[i])
    ensures StartsCase(line, key) <==> Named(line, name)
    decreases |key|
  {
    assert |key| > 1 ==> key[..|key| - 1][0] == key[0];
    if |key| > 1 && line != "" && line[0] != ':' {
      assert key[1..][..|key| - 2] == key[..|key| - 1][1..];
      StartsIffNamed(line[1..], key[1..], name[1..]);
      StartsRest(line, key);
      assert name == [name[0]] + name[1..];
    }
  }

  lemma StartsRest(line: string, key: string)
    requires |key| > 1 && line != ""
    ensures StartsCase(line, key) <==> LowerChar(line[0]) == LowerChar(key[0]) && StartsCase(line[1..], key[1..])
  {
    assert forall i :: 0 < i < |key| && i < |line| ==> key[i] == key[1..][i - 1] && line[i] == line[1..][i - 1];
  }

  lemma StartsAfter(line: string, first: string, rest: string)
    ensures StartsCase(line, first + rest) <==> StartsCase(line, first) && StartsCase(line[|first|..], rest)
    decreases |first|
  {
    if |line| >= |first| {
      var key := first + rest;
      assert forall i :: 0 <= i < |first| ==> key[i] == first[i];
      if StartsCase(line, key) {
        forall i | 0 <= i < |rest|
          ensures LowerChar(line[|first|..][i]) == LowerChar(rest[i])
        {
          var k := |first| + i;
          assert line[k] == line[|first|..][i] && key[k] == rest[i];
        }
      }
      if StartsCase(line, first) && StartsCase(line[|first|..], rest) {
        forall i | 0 <= i < |key|
          ensures LowerChar(line[i]) == LowerChar(key[i])
        {
          assert i >= |first| ==> line[i] == line[|first|..][i - |first|] && key[i] == rest[i - |first|];
        }
      }
    }
  }

  /** The fields that are rewritten or not to be copied, by name and in any case of letters. */
  predicate Rewritten(f: Flags, line: string) {
    (f.dropStatus && (Named(line, "status") || Named(line, "x-status"))) ||
    (f.dropLength && (Named(line, "content-length") || Named(line, "lines"))) ||
    (f.dropRefs && Named(line, "references")) || (f.dropIrt && Named(line, "in-reply-to"))
  }

  lemma DroppedIffRewritten(f: Flags, line: string)
    ensures DroppedByBoth(f, line) <==> Rewritten(f, line)
  {
    StartsIffNamed(line, "Status:", "status");
    StartsIffNamed(line, "X-Status:", "x-status");
    StartsIffNamed(line, "Content-Length:", "content-length");
    StartsIffNamed(line, "Lines:", "lines");
    StartsIffNamed(line, "References:", "references");
    StartsIffNamed(line, "In-Reply-To:", "in-reply-to");
  }

  lemma MimeIffNamed(line: string)
    ensures IsMime(line) <==>
            Named(line, "content-transfer-encoding") || Named(line, "content-type") || Named(line, "mime-version")
  {
    StartsAfter(line, "content-", "transfer-encoding:");
    StartsAfter(line, "content-", "type:");
    StartsIffNamed(line, "content-" + "transfer-encoding:", "content-" + "transfer-encoding");
    StartsIffNamed(line, "content-" + "type:", "content-" + "type");
    StartsIffNamed(line, "mime-version:", "mime-version");
    assert "content-" + "transfer-encoding" == "content-transfer-encoding";
    assert "content-" + "type" == "content-type";
  }

  /** The fast path leaves out a "From " line unless it is to be retained, a quoted one if asked to, and the fields
      that are rewritten. */
  lemma FastLeavesOut(f: Flags, line: string)
    ensures !FastKeeps(f, line) <==>
            ("From " <= line && !f.from) || (f.noQFrom && StartsCase(line, ">From ")) || Rewritten(f, line)
  {
    DroppedIffRewritten(f, line);
  }

  /** The collecting path leaves out, besides, what is weeded, Delivered-To and MIME fields if asked to; and it never
      looks at quoted "From " lines. The first "From " line is not weeded if it is forced. */
  lemma CollectingLeavesOut(cfg: Config, from: bool, line: string)
    requires !Continuation(line)
    ensures !CollectKeeps(cfg, from, line) <==>
            ("From " <= line && !cfg.flags.from) ||
            (cfg.flags.weed && cfg.weeded(line) &&
             (from || !("From " <= line && cfg.flags.from && cfg.flags.forceFrom))) ||
            (cfg.flags.weedDelivered && Named(line, "delivered-to")) ||
            (cfg.flags.mime &&
             (Named(line, "content-transfer-encoding") || Named(line, "content-type") ||
              Named(line, "mime-version"))) ||
            Rewritten(cfg.flags, line)
  {
    DroppedIffRewritten(cfg.flags, line);
    MimeIffNamed(line);
    StartsIffNamed(line, "Delivered-To:", "delivered-to");
  }
}
