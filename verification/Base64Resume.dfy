/**
 Calling `base64_filter` (`openpgp/src/armor/base64_utils.rs`) again on the rest of a
 text, with the offset and the remainder of the quoting prefix that it returned.
 */
module Base64Resume {
  import opened Bytes
  import opened Base64
  import opened Base64Filter

  /** What the filter promises about a call. */
  ghost predicate Filtered(s: Octets, max: nat, remaining: nat, prefix: nat, data: Octets, consumed: nat, left: nat) {
    var quads := Quads(Visible(s, remaining, prefix));
    && data == quads[..Min(|quads|, max / 4 * 4)]
    && EndsAt(s, remaining, prefix, data, consumed)
    && consumed <= StopOffset(s, max, remaining, prefix)
    && left == Remaining(s[..StopOffset(s, max, remaining, prefix)], remaining, prefix)
  }

  predicate IsPadded(data: Octets) {
    data != [] && data[|data| - 1] == PAD
  }

  /**
   `s` is the part of the text that was filtered, and `more` is the rest. Resuming
   behind the consumed part sees the same characters as one pass over the whole text.
   */
  ghost predicate SeesTheSame(
    s: Octets, more: Octets, remaining: nat, prefix: nat, data: Octets, consumed: nat, left: nat)
    requires consumed <= |s|
  {
    Visible(s + more, remaining, prefix) == data + Visible((s + more)[consumed..], left, prefix)
  }

  /** Resuming yields the quads that one pass would have yielded next, up to the first padded one. */
  ghost predicate Resumes(
    s: Octets, more: Octets, remaining: nat, prefix: nat, data: Octets, consumed: nat, left: nat)
    requires consumed <= |s|
  {
    Quads(Visible(s + more, remaining, prefix))
    == data + if IsPadded(data) then [] else Quads(Visible((s + more)[consumed..], left, prefix))
  }

  /** Two states of the scan that some text does not tell apart. */
  ghost predicate Alike(x: Octets, a: nat, b: nat, prefix: nat) {
    Visible(x, a, prefix) == Visible(x, b, prefix) && Remaining(x, a, prefix) == Remaining(x, b, prefix)
  }

  // ----- When resuming is right

  lemma SplitText(s: Octets, more: Octets, remaining: nat, prefix: nat, data: Octets, consumed: nat)
    requires EndsAt(s, remaining, prefix, data, consumed)
    ensures var left := Remaining(s[..consumed], remaining, prefix);
            && Visible(s + more, remaining, prefix) == data + Visible(s[consumed..] + more, left, prefix)
            && (s + more)[consumed..] == s[consumed..] + more
  {
    hide Visible, Remaining;
    assert s + more == s[..consumed] + (s[consumed..] + more);
    VisibleAppend(s[..consumed], s[consumed..] + more, remaining, prefix);
  }

  /** A text of base64 characters as long as the longer of two prefixes tells them apart. */
  lemma {:induction false} Plain(n: nat, remaining: nat, prefix: nat)
    ensures var t := seq(n, _ => 65);
            && |Visible(t, remaining, prefix)| == Max(n - remaining, 0)
            && Remaining(t, remaining, prefix) == Max(remaining - n, 0)
    decreases n
  {
    if n > 0 {
      var t := seq(n, _ => 65 as byte);
      assert t[1..] == seq(n - 1, _ => 65);
      Plain(n - 1, if remaining > 0 then remaining - 1 else 0, prefix);
    }
  }

  /**
   With any remainder, resuming sees the same characters whatever follows exactly if
   the text that was not consumed does not tell this remainder from that of the
   consumed offset.
   */
  lemma ResumeIff(s: Octets, remaining: nat, prefix: nat, data: Octets, consumed: nat, left: nat)
    requires EndsAt(s, remaining, prefix, data, consumed)
    ensures (forall more :: SeesTheSame(s, more, remaining, prefix, data, consumed, left))
       <==> Alike(s[consumed..], Remaining(s[..consumed], remaining, prefix), left, prefix)
  {
    hide Visible, Remaining;
    var x, right := s[consumed..], Remaining(s[..consumed], remaining, prefix);
    forall more
      ensures SeesTheSame(s, more, remaining, prefix, data, consumed, left)
         <==> GoesOnAlike(x, more, right, left, prefix)
    {
      SplitText(s, more, remaining, prefix, data, consumed);
      VisibleAppend(x, more, right, prefix);
      VisibleAppend(x, more, left, prefix);
      Cancel(data, Visible(x + more, right, prefix), Visible(x + more, left, prefix));
    }
    if forall more :: SeesTheSame(s, more, remaining, prefix, data, consumed, left) {
      var n := Max(Remaining(x, right, prefix), Remaining(x, left, prefix));
      assert SeesTheSame(s, [], remaining, prefix, data, consumed, left);
      assert SeesTheSame(s, seq(n, _ => 65), remaining, prefix, data, consumed, left);
      ToldApart(x, right, left, prefix, n);
    }
  }

  ghost predicate GoesOnAlike(x: Octets, more: Octets, a: nat, b: nat, prefix: nat) {
    Visible(x, a, prefix) + Visible(more, Remaining(x, a, prefix), prefix)
    == Visible(x, b, prefix) + Visible(more, Remaining(x, b, prefix), prefix)
  }

  lemma ToldApart(x: Octets, a: nat, b: nat, prefix: nat, n: nat)
    requires GoesOnAlike(x, [], a, b, prefix) && GoesOnAlike(x, seq(n, _ => 65), a, b, prefix)
    requires n >= Remaining(x, a, prefix) && n >= Remaining(x, b, prefix)
    ensures Alike(x, a, b, prefix)
  {
    hide Visible, Remaining;
    NothingYet(Remaining(x, a, prefix), prefix);
    NothingYet(Remaining(x, b, prefix), prefix);
    assert Visible(x, a, prefix) + [] == Visible(x, a, prefix) && Visible(x, b, prefix) + [] == Visible(x, b, prefix);
    Plain(n, Remaining(x, a, prefix), prefix);
    Plain(n, Remaining(x, b, prefix), prefix);
  }

  /** The same characters give the same quads. */
  lemma SameQuads(
    s: Octets, more: Octets, max: nat, remaining: nat, prefix: nat, data: Octets, consumed: nat, left: nat)
    requires Filtered(s, max, remaining, prefix, data, consumed, left)
    requires SeesTheSame(s, more, remaining, prefix, data, consumed, left)
    ensures Resumes(s, more, remaining, prefix, data, consumed, left)
  {
    hide Visible, Remaining, Quads, StopOffset;
    var d, all := Visible(s, remaining, prefix), Visible(s + more, remaining, prefix);
    VisibleAppend(s, more, remaining, prefix);
    assert d <= all;
    QuadsAreLongest(d, |data|);
    assert d[..|data|] == all[..|data|] == data;
    QuadsAreLongest(all, |data|);
    QuadsCut(all, |data|);
    assert all[|data|..] == Visible((s + more)[consumed..], left, prefix);
  }

  // ----- Quoted text

  /** The quads of text that is all base64 are found at its end. */
  lemma NeverStops(s: Octets, max: nat, remaining: nat, prefix: nat)
    requires |Visible(s, remaining, prefix)| < max / 4 * 4
    requires forall b :: b in Visible(s, remaining, prefix) ==> IsBase64Char(b)
    ensures StopOffset(s, max, remaining, prefix) == |s|
  {
    hide Visible, Remaining, IsBase64Char, IsWhitespace;
    PadIsNoDigit();
    var d := Visible(s, remaining, prefix);
    forall at: nat | at < |s| ensures !Exhausted(s, at, remaining, prefix, max / 4 * 4) {
      var kept := Visible(s[..at], remaining, prefix);
      assert s == s[..at] + s[at..];
      VisibleAppend(s[..at], s[at..], remaining, prefix);
      assert kept <= d;
      assert forall b :: b in kept ==> b in d;
      if Remaining(s[..at], remaining, prefix) == 0 && !IsWhitespace(s[at]) {
        NextVisible(s, at, remaining, prefix);
        var next := kept + [s[at]];
        assert forall b :: b in next ==> b in d;
        assert Legal(next);
      }
    }
  }

  /** The consumed offset is determined by the quads, if there are any. */
  lemma EndsAtOnce(s: Octets, remaining: nat, prefix: nat, data: Octets, a: nat, b: nat)
    requires data != [] && EndsAt(s, remaining, prefix, data, a) && EndsAt(s, remaining, prefix, data, b)
    ensures a == b
  {
    hide Visible, Remaining;
    var lo, hi := Min(a, b), Max(a, b);
    if lo < hi {
      assert s[..hi - 1] == s[..lo] + s[lo..hi - 1];
      VisibleAppend(s[..lo], s[lo..hi - 1], remaining, prefix);
    }
  }

  const QUOTE: byte := 62
  const QUAD: Octets := [81, 85, 74, 68]

  function Quotes(n: nat): Octets {
    seq(n, _ => QUOTE)
  }

  lemma {:induction false} SkipQuotes(n: nat, left: nat, s: Octets, prefix: nat)
    requires n <= left
    ensures Visible(Quotes(n) + s, left, prefix) == Visible(s, left - n, prefix)
    ensures Remaining(Quotes(n) + s, left, prefix) == Remaining(s, left - n, prefix)
    decreases n
  {
    if n == 0 {
      assert Quotes(n) + s == s;
    } else {
      assert (Quotes(n) + s)[1..] == Quotes(n - 1) + s;
      SkipQuotes(n - 1, left - 1, s, prefix);
    }
  }

  lemma {:induction false} VisibleQuad(q: Octets, s: Octets, prefix: nat)
    requires forall b :: b in q ==> IsBase64Char(b)
    ensures Visible(q + s, 0, prefix) == q + Visible(s, 0, prefix)
    ensures Remaining(q + s, 0, prefix) == Remaining(s, 0, prefix)
    decreases |q|
  {
    if q == [] {
      assert q + s == s;
    } else {
      assert q[0] in q && (q + s)[1..] == q[1..] + s;
      VisibleQuad(q[1..], s, prefix);
    }
  }

  /** The end of a quoted line: what is left of the prefix, one quad, and the newline. */
  function EndOfLine(remaining: nat): Octets {
    Quotes(remaining) + (QUAD + [NEWLINE])
  }

  /** The next line, quoted. */
  function NextLine(prefix: nat): Octets {
    Quotes(prefix) + (QUAD + [])
  }

  lemma AfterNewline(prefix: nat)
    ensures Visible([NEWLINE], 0, prefix) == [] && Remaining([NEWLINE], 0, prefix) == prefix
  {
    assert [NEWLINE][1..] == [];
  }

  lemma EndOfLineFiltered(remaining: nat, prefix: nat)
    requires remaining <= prefix
    ensures Filtered(EndOfLine(remaining), 64, remaining, prefix, QUAD, remaining + 4, prefix)
  {
    hide Visible, Remaining, Exhausted, Legal;
    var s := EndOfLine(remaining);
    SkipQuotes(remaining, remaining, QUAD + [NEWLINE], prefix);
    VisibleQuad(QUAD, [NEWLINE], prefix);
    AfterNewline(prefix);
    assert Visible(s, remaining, prefix) == QUAD;
    NeverStops(s, 64, remaining, prefix);
    assert s[..|s|] == s;
    PartOfLine(remaining, prefix, 4);
    PartOfLine(remaining, prefix, 3);
    assert Quads(QUAD) == QUAD by { assert QUAD[..4] == QUAD && QUAD[4..] == []; }
  }

  lemma PartOfLine(remaining: nat, prefix: nat, n: nat)
    requires n <= 4
    ensures Visible(EndOfLine(remaining)[..remaining + n], remaining, prefix) == QUAD[..n]
  {
    hide Visible, Remaining;
    assert EndOfLine(remaining)[..remaining + n] == Quotes(remaining) + (QUAD[..n] + []);
    SkipQuotes(remaining, remaining, QUAD[..n] + [], prefix);
    assert forall b :: b in QUAD[..n] ==> b in QUAD;
    VisibleQuad(QUAD[..n], [], prefix);
    NothingYet(0, prefix);
  }

  /**
   Behind the newline the remainder is the whole prefix, but the newline is not
   consumed: resuming takes it for part of the prefix, and a quoting character for data.
   */
  lemma QuoteTakenForData(remaining: nat, prefix: nat)
    requires remaining <= prefix && prefix > 0
    ensures !Resumes(EndOfLine(remaining), NextLine(prefix), remaining, prefix, QUAD, remaining + 4, prefix)
  {
    hide Visible, Remaining, Quads;
    var s, more := EndOfLine(remaining), NextLine(prefix);
    var newline: Octets := [NEWLINE];
    // One pass.
    assert s + more == Quotes(remaining) + (QUAD + (newline + more));
    SkipQuotes(remaining, remaining, QUAD + (newline + more), prefix);
    VisibleQuad(QUAD, newline + more, prefix);
    VisibleAppend(newline, more, 0, prefix);
    AfterNewline(prefix);
    SkipQuotes(prefix, prefix, QUAD + [], prefix);
    VisibleQuad(QUAD, [], prefix);
    NothingYet(0, prefix);
    assert Visible(s + more, remaining, prefix) == QUAD + QUAD;
    assert Quads(QUAD + QUAD) == QUAD + QUAD by { TwoQuads(); }
    // Resuming.
    var rest := (s + more)[remaining + 4..];
    assert rest == newline + more;
    OneQuoteLeft(prefix);
  }

  lemma TwoQuads()
    ensures Quads(QUAD + QUAD) == QUAD + QUAD
  {
    var two := QUAD + QUAD;
    assert two[..4] == QUAD && two[4..] == QUAD && QUAD[..4] == QUAD && QUAD[4..] == [];
  }

  lemma OneQuoteLeft(prefix: nat)
    requires prefix > 0
    ensures Quads(Visible([NEWLINE] + NextLine(prefix), prefix, prefix)) == []
  {
    hide Visible, Remaining;
    var rest := [NEWLINE] + NextLine(prefix);
    var line: Octets := [QUOTE] + (QUAD + []);
    assert NextLine(prefix) == Quotes(prefix - 1) + line;
    SkippedFirst(rest, prefix);
    assert rest[1..] == NextLine(prefix);
    SkipQuotes(prefix - 1, prefix - 1, line, prefix);
    QuoteSeen(line, prefix);
  }

  lemma SkippedFirst(s: Octets, left: nat)
    requires s != [] && left > 0
    ensures forall prefix :: Visible(s, left, prefix) == Visible(s[1..], left - 1, prefix)
  {
  }

  lemma QuoteSeen(line: Octets, prefix: nat)
    requires line != [] && line[0] == QUOTE
    ensures Quads(Visible(line, 0, prefix)) == []
  {
    assert Visible(line, 0, prefix)[0] == QUOTE;
  }

  /** The remainder and the offset can be used to resume, whatever the text is and where it is cut. */
  ghost predicate AlwaysResumes(remaining: nat, prefix: nat) {
    forall s, more, max, data, consumed, left ::
      Filtered(s, max, remaining, prefix, data, consumed, left)
      ==> Resumes(s, more, remaining, prefix, data, consumed, left)
  }

  /** Resuming with what the filter returns is right for all texts and limits exactly without a quoting prefix. */
  lemma AlwaysResumesIff(remaining: nat, prefix: nat)
    requires remaining <= prefix
    ensures AlwaysResumes(remaining, prefix) <==> prefix == 0
  {
    hide Quads, Visible, Remaining;
    if prefix == 0 {
      forall s, more, max, data, consumed, left | Filtered(s, max, 0, 0, data, consumed, left)
        ensures Resumes(s, more, 0, 0, data, consumed, left)
      {
        NothingRemains(s[..consumed]);
        NothingRemains(s[..StopOffset(s, max, 0, 0)]);
        SplitText(s, more, 0, 0, data, consumed);
        SameQuads(s, more, max, 0, 0, data, consumed, left);
      }
    } else {
      EndOfLineFiltered(remaining, prefix);
      QuoteTakenForData(remaining, prefix);
    }
  }

  /** A call that goes wrong: the filter itself returns the stale remainder. */
  method StaleRemainder(remaining: nat, prefix: nat) returns (data: Octets, consumed: nat, left: nat)
    requires remaining <= prefix && prefix > 0
    ensures data == QUAD && consumed == remaining + 4 && left == prefix
    ensures Remaining(EndOfLine(remaining)[..consumed], remaining, prefix) == 0
    ensures !Resumes(EndOfLine(remaining), NextLine(prefix), remaining, prefix, data, consumed, left)
  {
    hide Quads, Visible, Remaining, StopOffset, EndsAt;
    EndOfLineFiltered(remaining, prefix);
    data, consumed, left := Filter(EndOfLine(remaining), 64, remaining, prefix);
    EndsAtOnce(EndOfLine(remaining), remaining, prefix, QUAD, consumed, remaining + 4);
    QuoteTakenForData(remaining, prefix);
    LineConsumed(remaining, prefix);
  }

  lemma LineConsumed(remaining: nat, prefix: nat)
    ensures Remaining(EndOfLine(remaining)[..remaining + 4], remaining, prefix) == 0
  {
    hide Visible, Remaining;
    assert EndOfLine(remaining)[..remaining + 4] == Quotes(remaining) + (QUAD + []);
    SkipQuotes(remaining, remaining, QUAD + [], prefix);
    VisibleQuad(QUAD, [], prefix);
    NothingYet(0, prefix);
  }
}
