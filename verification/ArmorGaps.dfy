/**
 Armored text that is spread out by white space, and what the reader of
 `openpgp/src/armor.rs` makes of it.
 */
module ArmorGaps {
  import opened Bytes
  import opened Base64
  import opened Base64Filter
  import opened ArmorText
  import opened ArmorWriter
  import opened ArmorBody
  import opened ArmorFraming
  import opened ArmorHeaders
  import opened ArmorReading
  import opened ArmorReadBack
  import opened ArmorRoundTrip
  import opened GenericReader
  import opened Readers

  // ----- White space

  function Spaces(n: nat): Octets {
    seq(n, _ => 32)
  }

  lemma {:induction false} SpacesStripped(n: nat)
    ensures Stripped(Spaces(n)) == []
    decreases n
  {
    if n > 0 {
      assert Spaces(n)[1..] == Spaces(n - 1);
      SpacesStripped(n - 1);
    }
  }

  /** The encoding of `p` and `q`, with white space between two quads. */
  function Gapped(p: Octets, q: Octets, gap: nat): Octets {
    Encode(p) + Spaces(gap) + Encode(q)
  }

  /** The visible part of what precedes an offset. */
  lemma GappedFront(p: Octets, q: Octets, gap: nat, n: nat)
    requires n <= |Gapped(p, q, gap)|
    ensures var a, b := Encode(p), Encode(q);
            Stripped(Gapped(p, q, gap)[..n]) ==
            if n <= |a| then a[..n] else if n <= |a| + gap then a else a + b[..n - |a| - gap]
  {
    hide Stripped, Encode, EncodedSize;
    var a, b, front := Encode(p), Encode(q), Gapped(p, q, gap)[..n];
    EncodingIsSolid(p);
    EncodingIsSolid(q);
    if n <= |a| {
      assert front == a[..n];
      StrippedSolid(a[..n]);
    } else {
      var m := Min(n - |a|, gap);
      StrippedSolid(a);
      SpacesStripped(m);
      StrippedAppend(a, Spaces(m));
      assert a + Spaces(m) + b[..n - |a| - m] == front;
      assert forall i :: 0 <= i < n - |a| - m ==> b[..n - |a| - m][i] == b[i];
      StrippedSolid(b[..n - |a| - m]);
      StrippedAppend(a + Spaces(m), b[..n - |a| - m]);
    }
  }

  lemma GappedEncodes(p: Octets, q: Octets, gap: nat)
    requires |p| % 3 == 0
    ensures Stripped(Gapped(p, q, gap)) == Encode(p + q)
  {
    hide Stripped, Encode, EncodedSize;
    var body, b := Gapped(p, q, gap), Encode(q);
    assert body[..|body|] == body && b[..|b|] == b && Encode(p)[..|Encode(p)|] == Encode(p);
    GappedFront(p, q, gap, |body|);
    EncodeAppend(p, q);
    EncodeUnfold(q);
    assert Encode(p) + [] == Encode(p);
  }

  /** The visible part of a slice of the body. */
  lemma GappedSlice(p: Octets, q: Octets, gap: nat, from: nat, to: nat)
    requires from <= to <= |Gapped(p, q, gap)|
    ensures |Stripped(Gapped(p, q, gap)[from..to])|
         == |Stripped(Gapped(p, q, gap)[..to])| - |Stripped(Gapped(p, q, gap)[..from])|
  {
    hide Stripped, Encode;
    SplitBody(Gapped(p, q, gap), from, to);
  }

  /** The number of visible octets in front of an offset, if there are `c` in front of the gap. */
  function Shown(c: nat, gap: nat, n: nat): nat {
    if n <= c then n else if n <= c + gap then c else n - gap
  }

  lemma GappedCount(p: Octets, q: Octets, gap: nat, n: nat)
    requires n <= |Gapped(p, q, gap)|
    ensures |Stripped(Gapped(p, q, gap)[..n])| == Shown(|Encode(p)|, gap, n)
  {
    hide Stripped, Encode, EncodedSize;
    GappedFront(p, q, gap, n);
  }

  lemma GappedLength(p: Octets, q: Octets, gap: nat)
    ensures |Gapped(p, q, gap)| == |Encode(p)| + gap + |Encode(q)|
    ensures p != [] ==> |Encode(p)| >= 4
    ensures q != [] ==> |Encode(q)| >= 4
  {
    hide Encode;
  }

  /** Quads end at multiples of four on either side of the gap. */
  lemma BoundaryOfGap(p: Octets, q: Octets, gap: nat, b: nat)
    requires IsBoundary(Gapped(p, q, gap), b)
    ensures var c := |Encode(p)|; (b <= c && b % 4 == 0) || (b > c + gap && (b - c - gap) % 4 == 0)
  {
    hide Stripped, Encode, EncodedSize, Gapped;
    EncodedInQuads(p);
    GappedLength(p, q, gap);
    GappedCount(p, q, gap, b);
    if b > 0 {
      GappedCount(p, q, gap, b - 1);
    }
  }

  /** Of all windows in front of a quad, only the one in front of the gap can be starved. */
  lemma GapWindow(p: Octets, q: Octets, gap: nat, t: nat, b: nat)
    requires q != [] && t >= 4 && IsBoundary(Gapped(p, q, gap), b) && b < |Gapped(p, q, gap)|
    ensures Starved(Gapped(p, q, gap)[b..], t) <==> b == |Encode(p)| && t < gap + 4
  {
    hide Stripped, Encode, EncodedSize, Gapped, IsBoundary, Shown;
    var body := Gapped(p, q, gap);
    EncodedInQuads(p);
    EncodedInQuads(q);
    GappedLength(p, q, gap);
    BoundaryOfGap(p, q, gap, b);
    ShownInWindow(|Encode(p)|, gap, |Encode(q)|, b, t);
    if b + t <= |body| {
      assert body[b..][..t] == body[b..b + t];
      GappedSlice(p, q, gap, b, b + t);
      GappedCount(p, q, gap, b);
      GappedCount(p, q, gap, b + t);
    }
  }

  lemma ShownInWindow(c: nat, gap: nat, e: nat, b: nat, t: nat)
    requires c % 4 == 0 && e % 4 == 0 && e >= 4 && t >= 4 && b < c + gap + e
    requires (b <= c && b % 4 == 0) || (b > c + gap && (b - c - gap) % 4 == 0)
    ensures b + t <= c + gap + e && Shown(c, gap, b + t) - Shown(c, gap, b) < 4 <==> b == c && t < gap + 4
  {
  }

  lemma GapBoundary(p: Octets, q: Octets, gap: nat)
    requires p != [] && q != []
    ensures var body, c := Gapped(p, q, gap), |Encode(p)|;
            c < |body| && IsBoundary(body, c) && |Stripped(body[..c])| < |Stripped(body)|
  {
    hide Stripped, Encode, EncodedSize, Gapped;
    var body, c := Gapped(p, q, gap), |Encode(p)|;
    EncodedInQuads(p);
    GappedLength(p, q, gap);
    GappedCount(p, q, gap, c);
    GappedCount(p, q, gap, c - 1);
    GappedCount(p, q, gap, |body|);
    assert body[..|body|] == body;
  }

  /** A body with one gap starves the reader exactly if the window does not reach across it. */
  lemma GapIff(p: Octets, q: Octets, gap: nat, t: nat)
    requires p != [] && q != [] && t >= 4
    ensures Nourished(Gapped(p, q, gap), t) <==> gap + 4 <= t
  {
    hide Stripped, Encode, EncodedSize, Gapped, IsBoundary, Starved;
    var body, c := Gapped(p, q, gap), |Encode(p)|;
    forall b: nat | IsBoundary(body, b) && |Stripped(body[..b])| < |Stripped(body)|
      ensures Starved(body[b..], t) <==> b == c && t < gap + 4
    {
      assert body[..|body|] == body;
      GapWindow(p, q, gap, t, b);
    }
    GapBoundary(p, q, gap);
  }

  /** Behind whole quads, a window of a body with one gap is starved only in front of the gap. */
  lemma StarvedAtGap(p: Octets, q: Octets, gap: nat, t: nat, at: nat)
    requires t >= 4 && at <= |Gapped(p, q, gap)| && Starved(Gapped(p, q, gap)[at..], t)
    requires |Stripped(Gapped(p, q, gap)[..at])| % 4 == 0
    ensures |Encode(p)| <= at <= |Encode(p)| + gap
  {
    hide Stripped, Encode, EncodedSize, Gapped, Shown;
    var body := Gapped(p, q, gap);
    EncodedInQuads(p);
    GappedLength(p, q, gap);
    assert body[at..][..t] == body[at..at + t];
    GappedCount(p, q, gap, at);
    GappedCount(p, q, gap, at + t);
    GappedSlice(p, q, gap, at, at + t);
    FewInWindow(|Encode(p)|, gap, at, t);
  }

  lemma FewInWindow(c: nat, gap: nat, at: nat, t: nat)
    requires c % 4 == 0 && Shown(c, gap, at) % 4 == 0 && t >= 4 && Shown(c, gap, at + t) < Shown(c, gap, at) + 4
    ensures c <= at <= c + gap
  {
  }

  /** There, the first part of the payload was read. */
  lemma GapStop(p: Octets, q: Octets, gap: nat, t: nat, at: nat, k: nat)
    requires |p| % 3 == 0 && t >= 4 && at <= |Gapped(p, q, gap)| && k <= |p + q|
    requires Starved(Gapped(p, q, gap)[at..], t) && Stripped(Gapped(p, q, gap)[at..]) == Encode((p + q)[k..])
    ensures |Encode(p)| <= at <= |Encode(p)| + gap && k == |p|
  {
    hide Stripped, Encode, EncodedSize, Gapped, Starved;
    var body, data := Gapped(p, q, gap), p + q;
    EncodedInQuads(data);
    EncodedInQuads(data[k..]);
    GappedEncodes(p, q, gap);
    SplitBody(body, at, |body|);
    StarvedAtGap(p, q, gap, t, at);
    FrontOfGap(p, q, gap, at);
    EncodeAppend(p, q);
    EncodeUnfold(q);
    assert q == [] ==> Encode(p) + Encode(q) == Encode(p) && data == p;
    Cancel(Encode(p), Encode(data[k..]), Encode(q));
    DecodeIff(Encode(q), q);
    DecodeIff(Encode(q), data[k..]);
  }

  lemma FrontOfGap(p: Octets, q: Octets, gap: nat, at: nat)
    requires |Encode(p)| <= at <= |Encode(p)| + gap && at <= |Gapped(p, q, gap)|
    ensures Stripped(Gapped(p, q, gap)[..at]) == Encode(p)
  {
    hide Stripped, Encode, EncodedSize, Gapped;
    GappedFront(p, q, gap, at);
  }

  /** Where a body goes on, there is no footer. */
  lemma BodyHidesFooter(kind: Kind, q: Octets, tail: Octets)
    requires q != []
    ensures FooterOf(kind, Encode(q) + tail).None?
  {
    hide Blurb, DashPrefix, Encode;
    var s := Encode(q) + tail;
    EncodingStarts(q);
    assert s[0] == Encode(q)[0] && s[3] == Encode(q)[3];
    assert AfterChecksum(s) == s;
    var seen := Take(s, FOOTER_LOOKAHEAD);
    assert seen[0] == s[0] && seen[3] == s[3];
    NoDash(seen);
    assert Ascii("END PGP ")[3] == 32;
  }

  lemma EncodingStarts(q: Octets)
    requires q != []
    ensures |Encode(q)| >= 4 && IsBase64Char(Encode(q)[0]) && !IsWhitespace(Encode(q)[3])
  {
    EncodeUnfold(q);
    EncodingIsSolid(q);
  }

  /** Stopping in front of the gap finds no footer. */
  lemma GapHidesFooter(kind: Kind, p: Octets, q: Octets, gap: nat, tail: Octets, at: nat)
    requires q != [] && |Encode(p)| <= at <= |Encode(p)| + gap
    ensures at <= |Gapped(p, q, gap)| && FooterOf(kind, Gapped(p, q, gap)[at..] + tail).None?
  {
    hide Stripped, Encode, FooterOf;
    var n := |Encode(p)| + gap - at;
    assert Gapped(p, q, gap)[at..] + tail == Spaces(n) + (Encode(q) + tail);
    SpacesStripped(n);
    FooterBehindSpace(kind, Spaces(n), Encode(q) + tail);
    BodyHidesFooter(kind, q, tail);
  }

  lemma GapOwes(kind: Kind, p: Octets, q: Octets, gap: nat)
    requires |p| % 3 == 0
    ensures Owes(Gapped(p, q, gap), Trailer(kind, None, p + q), p + q, [])
  {
    hide Stripped, Encode, Stops, Trailer, Gapped;
    var data := p + q;
    var tail := Trailer(kind, None, data);
    GappedEncodes(p, q, gap);
    assert tail[..|tail|] == tail && data[0..] == data;
    TrailerStops(kind, None, data, |tail|);
  }

  /** What enough reads make of the body and the trailer. */
  lemma GapRun(s: Stand, kind: Kind, p: Octets, q: Octets, gap: nat, rooms: seq<nat>, t: nat)
    requires |p| % 3 == 0 && p != [] && q != [] && t >= 4
    requires s.Inside? && s.kind == Some(kind) && s.buffer == []
    requires s.text == Gapped(p, q, gap) + Trailer(kind, None, p + q)
    requires Positive(rooms) && AlikeWindows(rooms, t) && |rooms| > |p + q|
    ensures Run(s, Some(kind), rooms) == if gap + 4 <= t then Outcome(p + q, true, false) else Outcome(p, false, true)
  {
    hide Stripped, Encode, Nourished, Starved, Owes, FooterOf, Trailer, Gapped, Run, Positive, AlikeWindows;
    var data, body, tail := p + q, Gapped(p, q, gap), Trailer(kind, None, p + q);
    GapOwes(kind, p, q, gap);
    GapIff(p, q, gap, t);
    TrailerCloses(kind, None, data);
    var at := RunOfBody(s, Some(kind), body, tail, data, rooms, t);
    var out := Run(s, Some(kind), rooms).out;
    assert data[..|p|] == p && data[..|out|] == out;
    if out != data {
      GapStop(p, q, gap, t, at, |out|);
      GapHidesFooter(kind, p, q, gap, tail, at);
    } else {
      assert data[|data|..] == [];
      EncodeUnfold([]);
      FooterBehindSpace(kind, body[at..], tail);
    }
  }

  /**
   Of text with a run of white space between two quads, all of the payload is read
   exactly if the window reaches across the run. Otherwise the reader fails in front of
   the run, where it looks for a footer and finds more of the body.
   */
  method ReadAcrossGap(kind: Kind, p: Octets, q: Octets, gap: nat, chunkSize: nat, room: nat, bufSize: nat)
    returns (out: Octets, failed: bool)
    requires |p| % 3 == 0 && p != [] && q != [] && room > 0
    ensures out == if gap + 4 <= ToRead(room) then p + q else p
    ensures failed <==> ToRead(room) < gap + 4
  {
    hide Preamble, Trailer, Open, Pending, ErrorFree, ToRead, Gapped, Pieces, Run, FoundHeaders, LeftOver;
    var data, body := p + q, Gapped(p, q, gap);
    var tail := Trailer(kind, None, data);
    var text := Preamble(kind, []) + (body + tail);
    var rooms := seq(|data| + 1, _ => room);
    NothingLeftOver([]);
    PreambleOpens(kind, [], body + tail, Some(kind), rooms);
    GapRun(Inside(Some(kind), FoundHeaders([]), body + tail, []), kind, p, q, gap, rooms, ToRead(room));
    PiecesPending(text, []);
    var ended, found;
    out, ended, failed, found := ReadAll(Pieces(text, []), chunkSize, Some(kind), rooms, bufSize);
  }
}
