/**
 What an armored body means to the reader: how a window onto the text, cut at an
 arbitrary place, relates to the payload the text encodes.
 */
module ArmorBody {
  import opened Bytes
  import opened Base64
  import opened Base64Filter
  import opened ArmorText

  const THRESHOLD: nat := 64

  /** The shortest window the reader ever looks at. */
  const WINDOW: nat := 66

  /** The text without its whitespace. */
  function Stripped(s: Octets): Octets {
    Visible(s, 0, 0)
  }

  lemma StrippedAppend(a: Octets, b: Octets)
    ensures Stripped(a + b) == Stripped(a) + Stripped(b)
  {
    VisibleAppend(a, b, 0, 0);
    NothingRemains(a);
  }

  /** Nothing that follows the body is a quad: less than four characters, or others than base64. */
  predicate Stops(tail: Octets) {
    Quads(Stripped(tail)) == []
  }

  /** A window of `t` octets shows only body, and no whole quad of it. */
  predicate Starved(body: Octets, t: nat) {
    t <= |body| && |Stripped(body[..t])| < 4
  }

  /** The start of the body, or an offset right behind a whole quad. */
  predicate IsBoundary(body: Octets, c: nat)
    ensures IsBoundary(body, c) ==> c <= |body|
  {
    && c <= |body| && |Stripped(body[..c])| % 4 == 0
    && (c > 0 ==> |Stripped(body[..c - 1])| < |Stripped(body[..c])|)
  }

  /** As long as there are quads left, the next one ends within the next `t` octets. */
  ghost predicate Nourished(body: Octets, t: nat) {
    forall c: nat :: IsBoundary(body, c) && |Stripped(body[..c])| < |Stripped(body)| ==> !Starved(body[c..], t)
  }

  // ----- Quads of encodings

  /** The octets that the first `j` quads of an encoding stand for. */
  function Cut(d: Octets, j: nat): (k: nat)
    ensures k <= |d|
  {
    if 3 * j <= |d| then 3 * j else |d|
  }

  lemma EncodeUnfold(d: Octets)
    ensures d == [] ==> Encode(d) == []
    ensures 1 <= |d| <= 3 ==> Encode(d) == EncodeQuad(d)
    ensures |d| > 3 ==> Encode(d) == EncodeQuad(d[..3]) + Encode(d[3..])
  {
  }

  lemma {:induction false} EncodeCut(d: Octets, j: nat)
    requires 4 * j <= |Encode(d)|
    ensures Encode(d)[..4 * j] == Encode(d[..Cut(d, j)])
    ensures Encode(d)[4 * j..] == Encode(d[Cut(d, j)..])
    decreases j
  {
    hide Encode, EncodeQuad, EncodedSize;
    EncodeUnfold(d);
    EncodeUnfold([]);
    if j == 0 {
      assert d[..0] == [] && d[0..] == d;
    } else if |d| <= 3 {
      assert d[..|d|] == d && d[|d|..] == [];
    } else {
      var head, rest := d[..3], d[3..];
      EncodeCut(rest, j - 1);
      var k := Cut(rest, j - 1);
      assert d[..3 + k] == head + rest[..k] && d[3 + k..] == rest[k..];
      EncodeAppend(head, rest[..k]);
      EncodeUnfold(head);
      assert Encode(d)[..4 * j] == EncodeQuad(head) + Encode(rest)[..4 * (j - 1)];
      assert Encode(d)[4 * j..] == Encode(rest)[4 * (j - 1)..];
    }
  }

  /** Cutting an encoding anywhere leaves the whole quads before the cut. */
  lemma {:induction false} QuadsOfCut(d: Octets, m: nat)
    requires m <= |Encode(d)|
    ensures Quads(Encode(d)[..m]) == Encode(d)[..m - m % 4]
    decreases |d|
  {
    hide Encode, EncodedSize, Quads;
    var e := Encode(d);
    if m < 4 {
      FewHaveNoQuad(e[..m]);
    } else {
      EncodeUnfold(d);
      QuadInFront(d, e[4..m]);
      if |d| <= 3 {
        assert e[..m] == e && m == 4 && e[4..m] == [];
        assert EncodeQuad(d) + [] == e;
        FewHaveNoQuad([]);
      } else {
        assert e[4..] == Encode(d[3..]) && e[4..m] == e[4..][..m - 4];
        QuadsOfCut(d[3..], m - 4);
        assert e[..m] == EncodeQuad(d[..3]) + e[4..m];
        assert e[..m - m % 4] == EncodeQuad(d[..3]) + e[4..][..m - 4 - (m - 4) % 4];
      }
    }
  }

  lemma FewHaveNoQuad(d: Octets)
    requires |d| < 4
    ensures Quads(d) == []
  {
  }

  /** The quad of three octets, or fewer and padded, comes first. */
  lemma QuadInFront(d: Octets, rest: Octets)
    requires d != []
    ensures |d| >= 3 ==> Quads(EncodeQuad(d[..3]) + rest) == EncodeQuad(d[..3]) + Quads(rest)
    ensures |d| < 3 ==> Quads(EncodeQuad(d) + rest) == EncodeQuad(d)
    ensures |d| <= 3 && Quads(rest) == [] ==> Quads(EncodeQuad(d) + rest) == EncodeQuad(d)
  {
    hide IsBase64Char, EncodeQuad;
    PadIsNoDigit();
    var q := EncodeQuad(if |d| >= 3 then d[..3] else d);
    assert |d| == 3 ==> d[..3] == d;
    assert (q + rest)[..4] == q && (q + rest)[4..] == rest && q[..4] == q;
  }

  /** What follows an encoding and has no quad adds none. */
  lemma {:induction false} QuadsOfWhole(d: Octets, after: Octets)
    requires Quads(after) == []
    ensures Quads(Encode(d) + after) == Encode(d)
    decreases |d|
  {
    hide Encode, EncodedSize, IsBase64Char;
    EncodeUnfold(d);
    PadIsNoDigit();
    var e := Encode(d);
    if d != [] {
      assert (e + after)[..4] == e[..4] && (e + after)[3] == e[3];
      if |d| <= 3 {
        assert e[..4] == e && (e + after)[4..] == after;
      } else {
        assert e[..4] == EncodeQuad(d[..3]) && (e + after)[4..] == Encode(d[3..]) + after;
        QuadsOfWhole(d[3..], after);
      }
    } else {
      assert e + after == after;
    }
  }

  lemma NoQuadsInFront(a: Octets, b: Octets)
    requires Quads(a + b) == []
    ensures Quads(a) == []
  {
    if |a| >= 4 {
      assert (a + b)[..4] == a[..4];
    }
  }

  // ----- Looking through a window

  /** A window of the text holds the first quads of the body; none if the body is over, or the window is starved. */
  lemma WindowQuads(body: Octets, tail: Octets, p: Octets, t: nat) returns (j: nat)
    requires Stripped(body) == Encode(p) && Stops(tail)
    ensures 4 * j <= |Encode(p)| && (j == 0 <==> p == [] || Starved(body, t))
    ensures Quads(Stripped((body + tail)[..Min(|body + tail|, t)])) == Encode(p)[..4 * j]
  {
    hide Encode, Stripped, Quads, EncodedSize;
    var w := (body + tail)[..Min(|body + tail|, t)];
    EncodeUnfold(p);
    EncodedInQuads(p);
    if t <= |body| {
      assert w == body[..t] && body == body[..t] + body[t..];
      StrippedAppend(body[..t], body[t..]);
      var m := |Stripped(w)|;
      assert Stripped(w) == Encode(p)[..m];
      QuadsOfCut(p, m);
      j := m / 4;
    } else {
      var x := w[|body|..];
      assert w == body + x && tail == x + tail[|x|..];
      StrippedAppend(body, x);
      StrippedAppend(x, tail[|x|..]);
      NoQuadsInFront(Stripped(x), Stripped(tail[|x|..]));
      QuadsOfWhole(p, Stripped(x));
      j := QuadCount(|p|);
      assert Encode(p)[..4 * j] == Encode(p);
    }
  }

  lemma EncodedInQuads(d: Octets)
    ensures |Encode(d)| == 4 * QuadCount(|d|) && |Encode(d)| % 4 == 0
  {
    hide Encode, QuadCount;
  }

  /** After the quads handed out, the rest of the body encodes the rest of the payload. */
  lemma RestOfBody(body: Octets, tail: Octets, p: Octets, w: Octets, j: nat, c: nat)
    requires Stripped(body) == Encode(p) && w <= body + tail && 0 < 4 * j <= |Encode(p)|
    requires EndsAt(w, 0, 0, Encode(p)[..4 * j], c)
    ensures c <= |body| && Stripped(body[c..]) == Encode(p[Cut(p, j)..])
    ensures 0 < c <= |w| && IsBoundary(body, c)
  {
    hide Encode, Visible;
    if c > |body| {
      assert w[..c - 1] == body + w[|body|..c - 1];
      StrippedAppend(body, w[|body|..c - 1]);
    }
    assert w[..c] == body[..c] && body == body[..c] + body[c..];
    assert w[..c - 1] == body[..c - 1];
    StrippedAppend(body[..c], body[c..]);
    EncodeCut(p, j);
  }

  // ----- Bodies that never starve the reader

  lemma SplitBody(body: Octets, a: nat, b: nat)
    requires a <= b <= |body|
    ensures Stripped(body[..b]) == Stripped(body[..a]) + Stripped(body[a..b])
    ensures Stripped(body) == Stripped(body[..a]) + Stripped(body[a..])
  {
    assert body[..b] == body[..a] + body[a..b] && body == body[..a] + body[a..];
    StrippedAppend(body[..a], body[a..b]);
    StrippedAppend(body[..a], body[a..]);
  }

  /** The offsets behind the quads of the rest are those of the body. */
  lemma BoundaryBehind(body: Octets, c: nat, i: nat)
    requires IsBoundary(body, c) && c + i <= |body|
    ensures IsBoundary(body[c..], i) <==> IsBoundary(body, c + i)
    ensures |Stripped(body[c..][..i])| < |Stripped(body[c..])| <==> |Stripped(body[..c + i])| < |Stripped(body)|
    ensures body[c..][i..] == body[c + i..]
  {
    hide Stripped;
    var rest := body[c..];
    SplitBody(body, c, c + i);
    assert rest[..i] == body[c..c + i];
    SplitBody(body, c, |body|);
    if i > 0 {
      SplitBody(body, c, c + i - 1);
      assert rest[..i - 1] == body[c..c + i - 1];
    } else {
      EmptyStripped();
      assert rest[..0] == [];
    }
  }

  lemma EmptyStripped()
    ensures Stripped([]) == []
  {
  }

  /** A window that shows a later quad starves at no quad before it. */
  lemma NotStarvedBefore(body: Octets, b: nat, c: nat, t: nat)
    requires IsBoundary(body, b) && IsBoundary(body, c) && b < c <= t
    ensures !Starved(body[b..], t)
  {
    hide Stripped;
    var rest := body[b..];
    SplitBody(body, b, c);
    SplitBody(body, b, c - 1);
    assert |Stripped(body[b..c])| >= 4;
    if t <= |rest| {
      assert rest[..t][..c - b] == body[b..c];
      SplitBody(rest[..t], c - b, t);
    }
  }

  /** Going on behind a quad that the window shows changes nothing. */
  lemma NourishedRest(body: Octets, c: nat, t: nat)
    requires IsBoundary(body, c) && c <= t
    ensures Nourished(body, t) <==> Nourished(body[c..], t)
  {
    hide Stripped, Starved, IsBoundary;
    if Nourished(body, t) {
      forall i: nat | IsBoundary(body[c..], i) && |Stripped(body[c..][..i])| < |Stripped(body[c..])|
        ensures !Starved(body[c..][i..], t)
      {
        BoundaryBehind(body, c, i);
      }
    }
    if Nourished(body[c..], t) {
      forall b: nat | IsBoundary(body, b) && |Stripped(body[..b])| < |Stripped(body)| ensures !Starved(body[b..], t) {
        if b < c {
          NotStarvedBefore(body, b, c, t);
        } else {
          BoundaryBehind(body, c, b - c);
        }
      }
    }
  }

  /** At its start, a nourished body shows a quad if it has one. */
  lemma NourishedStart(body: Octets, t: nat)
    requires Nourished(body, t)
    ensures Stripped(body) != [] ==> !Starved(body, t)
    ensures Starved(body, t) ==> Stripped(body) == []
  {
    hide Stripped;
    EmptyStripped();
    assert body[..0] == [] && body[0..] == body;
    assert IsBoundary(body, 0);
  }

  /** Conversely, a body that starves the reader at its start is not nourished. */
  lemma StarvedStart(body: Octets, t: nat)
    requires Starved(body, t) && Stripped(body) != []
    ensures !Nourished(body, t)
  {
    if Nourished(body, t) {
      NourishedStart(body, t);
    }
  }

  /** A longer window starves less. */
  lemma FewerStarve(body: Octets, t: nat, t': nat)
    requires t <= t'
    ensures Starved(body, t') ==> Starved(body, t)
    ensures Nourished(body, t) ==> Nourished(body, t')
  {
    hide Stripped;
    ShorterStarves(body, t, t');
    forall c: nat | Nourished(body, t) && IsBoundary(body, c) && |Stripped(body[..c])| < |Stripped(body)|
      ensures !Starved(body[c..], t')
    {
      ShorterStarves(body[c..], t, t');
    }
  }

  lemma ShorterStarves(body: Octets, t: nat, t': nat)
    requires t <= t'
    ensures Starved(body, t') ==> Starved(body, t)
  {
    hide Stripped;
    if t' <= |body| {
      SplitBody(body[..t'], t, t');
      assert body[..t'][..t] == body[..t];
    }
  }

  lemma NothingLeft(body: Octets, t: nat)
    requires Stripped(body) == []
    ensures Nourished(body, t)
  {
    hide Stripped;
  }

  function WindowAt(body: Octets, i: nat): Octets
    requires i + WINDOW <= |body|
  {
    body[i..i + WINDOW]
  }

  /** Every window of the body holds at least one whole quad. */
  ghost predicate Flowing(body: Octets) {
    forall i: nat :: i + WINDOW <= |body| ==> |Stripped(WindowAt(body, i))| >= 4
  }

  lemma FlowingIsNourished(body: Octets, t: nat)
    requires Flowing(body) && t >= WINDOW
    ensures Nourished(body, t)
  {
    hide Stripped;
    forall c: nat | IsBoundary(body, c) && |Stripped(body[..c])| < |Stripped(body)| ensures !Starved(body[c..], t) {
      if c + t <= |body| {
        assert body[c..][..t][..WINDOW] == WindowAt(body, c);
        SplitBody(body[c..][..t], WINDOW, t);
      }
    }
  }

  // ----- The writer's body is such a body

  ghost predicate NoWhitespace(s: Octets) {
    forall i :: 0 <= i < |s| ==> !IsWhitespace(s[i])
  }

  lemma {:induction false} StrippedSolid(s: Octets)
    requires NoWhitespace(s)
    ensures Stripped(s) == s
    decreases |s|
  {
    if s != [] {
      StrippedSolid(s[1..]);
    }
  }

  lemma {:induction false} EncodingIsSolid(d: Octets)
    ensures NoWhitespace(Encode(d))
    decreases |d|
  {
    if |d| > 3 {
      EncodingIsSolid(d[3..]);
    }
  }

  lemma {:induction false} StrippedWrapped(t: Octets)
    requires NoWhitespace(t)
    ensures Stripped(Wrapped(t)) == t
    decreases |t|
  {
    var nl: Octets := [NEWLINE];
    assert nl[1..] == [] && Visible([], 0, 0) == [];
    assert Stripped(nl) == [];
    if |t| < LINE_LENGTH {
      StrippedSolid(t);
      StrippedAppend(t, nl);
    } else {
      var line, rest := t[..LINE_LENGTH], t[LINE_LENGTH..];
      StrippedSolid(line);
      StrippedWrapped(rest);
      WrappedUnfold(t);
      StrippedAppend(line, nl);
      StrippedAppend(line + nl, Wrapped(rest));
    }
  }

  lemma WrappedUnfold(t: Octets)
    requires |t| >= LINE_LENGTH
    ensures Wrapped(t) == t[..LINE_LENGTH] + [NEWLINE] + Wrapped(t[LINE_LENGTH..])
  {
    assert Column(|t[LINE_LENGTH..]|) == Column(|t|);
  }

  /** Line breaks at least five octets apart. */
  ghost predicate Spaced(s: Octets) {
    forall i, j :: 0 <= i < j < |s| && IsWhitespace(s[i]) && IsWhitespace(s[j]) ==> j - i >= 5
  }

  ghost predicate StartsSolid(s: Octets) {
    forall i :: 0 <= i < 4 && i < |s| ==> !IsWhitespace(s[i])
  }

  lemma {:induction false} WrappedSpaced(t: Octets)
    requires NoWhitespace(t) && |t| % 4 == 0
    ensures Spaced(Wrapped(t)) && StartsSolid(Wrapped(t))
    decreases |t|
  {
    if |t| >= LINE_LENGTH {
      var line, rest := t[..LINE_LENGTH], t[LINE_LENGTH..];
      WrappedSpaced(rest);
      WrappedUnfold(t);
      SpacedAppend(line, Wrapped(rest));
    } else if t != [] {
      assert |t| >= 4 && Wrapped(t) == t + [NEWLINE];
    }
  }

  lemma SpacedAppend(line: Octets, rest: Octets)
    requires NoWhitespace(line) && |line| >= 4 && Spaced(rest) && StartsSolid(rest)
    ensures Spaced(line + [NEWLINE] + rest) && StartsSolid(line + [NEWLINE] + rest)
  {
    var s := line + [NEWLINE] + rest;
    assert forall i :: 0 <= i < |line| ==> s[i] == line[i];
    assert forall i :: |line| < i < |s| ==> s[i] == rest[i - |line| - 1];
  }

  lemma {:induction false} FewLost(s: Octets)
    requires |s| <= 5 && Spaced(s)
    ensures |Stripped(s)| >= |s| - 1
    decreases |s|
  {
    if s != [] {
      var rest := s[1..];
      if IsWhitespace(s[0]) {
        forall i | 0 <= i < |rest| ensures !IsWhitespace(rest[i]) {
          assert rest[i] == s[i + 1];
        }
        StrippedSolid(rest);
      } else {
        SpacedSlice(s, 1, |s|);
        FewLost(rest);
      }
    }
  }

  lemma SpacedSlice(s: Octets, from: nat, to: nat)
    requires Spaced(s) && from <= to <= |s|
    ensures Spaced(s[from..to])
  {
    var r := s[from..to];
    forall i, j | 0 <= i < j < |r| && IsWhitespace(r[i]) && IsWhitespace(r[j]) ensures j - i >= 5 {
      assert r[i] == s[from + i] && r[j] == s[from + j];
    }
  }

  lemma SpacedIsFlowing(s: Octets)
    requires Spaced(s)
    ensures Flowing(s)
  {
    hide Stripped;
    forall i: nat | i + WINDOW <= |s| ensures |Stripped(WindowAt(s, i))| >= 4 {
      var w := WindowAt(s, i);
      assert w == w[..5] + w[5..] && w[..5] == s[i..i + 5];
      StrippedAppend(w[..5], w[5..]);
      SpacedSlice(s, i, i + 5);
      FewLost(w[..5]);
    }
  }

  /** The body the writer produces encodes the data, and its line breaks are far apart. */
  lemma WrittenBody(d: Octets)
    ensures Stripped(Wrapped(Encode(d))) == Encode(d)
    ensures Spaced(Wrapped(Encode(d)))
  {
    hide Encode, Stripped, Wrapped, EncodedSize;
    EncodingIsSolid(d);
    StrippedWrapped(Encode(d));
    EncodedInQuads(d);
    WrappedSpaced(Encode(d));
  }

  /** No part of the writer's body starves the reader, whatever the size of the window. */
  lemma WrittenNourishes(d: Octets, n: nat, t: nat)
    requires n <= |Wrapped(Encode(d))| && t >= WINDOW
    ensures Nourished(Wrapped(Encode(d))[..n], t)
  {
    hide Encode, Stripped, Wrapped, EncodedSize, Flowing, Nourished;
    WrittenBody(d);
    SpacedSlice(Wrapped(Encode(d)), 0, n);
    SpacedIsFlowing(Wrapped(Encode(d))[..n]);
    FlowingIsNourished(Wrapped(Encode(d))[..n], t);
  }
}
