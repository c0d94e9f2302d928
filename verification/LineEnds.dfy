/** Line ends: CR LF on the wire, LF in text. */
module LineEnds {
  import opened Bytes
  import opened Sextets

  // ----- line ends -----

  /** Every CR LF pair becomes LF. */
  function Lines(s: seq<int>): seq<int> {
    if s == [] then []
    else if |s| >= 2 && s[0] == CR && s[1] == LF then [LF] + Lines(s[2..])
    else [s[0]] + Lines(s[1..])
  }

  predicate EndsInCr(s: seq<int>) {
    s != [] && s[|s| - 1] == CR
  }

  /** A further character joins the last line end or stands for itself. */
  lemma {:induction false} LinesMore(s: seq<int>, c: int)
    ensures EndsInCr(s) ==> EndsInCr(Lines(s))
    ensures Lines(s + [c]) == (if EndsInCr(s) && c == LF then Lines(s)[..|Lines(s)| - 1] else Lines(s)) + [c]
  {
    if |s| >= 2 {
      var k := if s[0] == CR && s[1] == LF then 2 else 1;
      LinesMore(s[k..], c);
      assert (s + [c])[k..] == s[k..] + [c];
      if k == 2 && s[2..] == [] {
        assert Lines(s) == [LF];
      }
    } else if |s| == 1 {
      assert (s + [c])[1..] == [c] && (s + [c])[2..] == [];
      assert Lines([c]) == [c];
    } else {
      assert s + [c] == [c];
    }
  }

  /** A CR before every LF that has none; after tells whether a CR has just gone by. */
  function Canonical(s: seq<Byte>, after: bool): seq<Byte> {
    if s == [] then []
    else (if s[0] == LF && !after then [CR, LF] else [s[0]]) + Canonical(s[1..], s[0] == CR)
  }

  /** Every LF follows a CR. */
  predicate IsCanonical(s: seq<Byte>, after: bool) {
    s == [] || ((s[0] == LF ==> after) && IsCanonical(s[1..], s[0] == CR))
  }

  lemma {:induction false} CanonicalResult(s: seq<Byte>, after: bool)
    ensures IsCanonical(Canonical(s, after), after)
  {
    if s != [] {
      CanonicalResult(s[1..], s[0] == CR);
      var rest := Canonical(s[1..], s[0] == CR);
      if s[0] == LF && !after {
        assert ([CR, LF] + rest)[1..] == [LF] + rest;
      }
    }
  }

  lemma {:induction false} CanonicalFixes(s: seq<Byte>, after: bool)
    ensures Canonical(s, after) == s <==> IsCanonical(s, after)
  {
    if s != [] {
      CanonicalFixes(s[1..], s[0] == CR);
      if s[0] == LF && !after {
        assert Canonical(s, after)[0] == CR;
      } else {
        assert Canonical(s, after)[1..] == Canonical(s[1..], s[0] == CR);
      }
    }
  }

  /** Canonical line ends are canonical already, and only those: canonicalising twice is canonicalising once. */
  lemma CanonicalTwice(s: seq<Byte>)
    ensures Canonical(Canonical(s, false), false) == Canonical(s, false)
    ensures Canonical(s, false) == s <==> IsCanonical(s, false)
  {
    CanonicalResult(s, false);
    CanonicalFixes(Canonical(s, false), false);
    CanonicalFixes(s, false);
  }

  /** The line decoding does not see canonicalisation. */
  lemma {:induction false} CanonicalInvisible(s: seq<Byte>)
    ensures Lines(Canonical(s, false)) == Lines(s)
  {
    if s != [] {
      var rest := Canonical(s[1..], s[0] == CR);
      if s[0] == LF {
        CanonicalInvisible(s[1..]);
        assert ([CR, LF] + rest)[2..] == rest;
      } else if s[0] == CR && |s| >= 2 && s[1] == LF {
        CanonicalInvisible(s[2..]);
        assert s[1..][1..] == s[2..];
        assert Canonical(s, false) == [CR] + ([LF] + Canonical(s[2..], false));
        assert ([CR] + ([LF] + Canonical(s[2..], false)))[2..] == Canonical(s[2..], false);
      } else {
        AfterOther(s[1..], s[0] == CR);
        CanonicalInvisible(s[1..]);
        assert ([s[0]] + rest)[1..] == rest;
        if s[0] == CR && |s| >= 2 {
          assert rest[0] != LF;
        }
      }
    }
  }

  /** What follows a CR, unless it is LF, is canonicalised as it would be anywhere. */
  lemma AfterOther(s: seq<Byte>, after: bool)
    requires after ==> s == [] || s[0] != LF
    ensures Canonical(s, after) == Canonical(s, false)
  {
  }

  predicate HasPair(s: seq<int>) {
    |s| >= 2 && ((s[0] == CR && s[1] == LF) || HasPair(s[1..]))
  }

  lemma {:induction false} LinesShorten(s: seq<int>)
    ensures |Lines(s)| <= |s| && (|Lines(s)| == |s| <==> !HasPair(s))
  {
    if |s| >= 2 && s[0] == CR && s[1] == LF {
      LinesShorten(s[2..]);
    } else if s != [] {
      LinesShorten(s[1..]);
    }
  }

  /** Line decoding leaves a text as it is exactly when it has no CR LF. */
  lemma {:induction false} LinesFixes(s: seq<int>)
    ensures Lines(s) == s <==> !HasPair(s)
  {
    LinesShorten(s);
    if s != [] && !HasPair(s) {
      LinesFixes(s[1..]);
    }
  }
}
