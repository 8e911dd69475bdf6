/**
 What the `Reader` of `openpgp/src/armor.rs` makes of any text: which octets a sequence
 of reads yields, and how it ends.
 */
module ArmorReading {
  import opened Bytes
  import opened Base64
  import opened Base64Filter
  import opened ArmorText
  import opened ArmorBody
  import opened ArmorFraming
  import opened ArmorHeaders
  import opened Readers

  // ----- What follows the body

  function SkipSpace(s: Octets): Octets {
    if s != [] && IsWhitespace(s[0]) then SkipSpace(s[1..]) else s
  }

  /** A checksum line: `=` and four base64 characters. */
  predicate HasChecksum(s: Octets) {
    |s| >= 5 && s[0] == PAD && forall i :: 1 <= i < 5 ==> IsBase64Char(s[i])
  }

  function SkipChecksum(s: Octets): Octets {
    if HasChecksum(s) then s[5..] else s
  }

  const FOOTER_LOOKAHEAD: nat := 128

  function AfterChecksum(tail: Octets): Octets {
    SkipSpace(SkipChecksum(SkipSpace(tail)))
  }

  /** The length of the footer, when `tail` is white space, perhaps a checksum, and a footer. */
  function FooterOf(kind: Kind, tail: Octets): Option<nat> {
    DetectFooter(kind, Take(AfterChecksum(tail), FOOTER_LOOKAHEAD))
  }

  /** Without a header, no footer is required. */
  function FooterFor(kind: Option<Kind>, tail: Octets): Option<nat> {
    if kind.Some? then FooterOf(kind.value, tail) else Some(0)
  }

  lemma SameFooter(kind: Option<Kind>, a: Octets, b: Octets)
    ensures SkipSpace(a) == SkipSpace(b) ==> FooterFor(kind, a) == FooterFor(kind, b)
  {
  }

  lemma {:induction false} SkipSpaceAfter(blank: Octets, s: Octets)
    requires Stripped(blank) == []
    ensures SkipSpace(blank + s) == SkipSpace(s)
    decreases |blank|
  {
    if blank == [] {
      assert blank + s == s;
    } else {
      assert IsWhitespace(blank[0]) && (blank + s)[1..] == blank[1..] + s;
      SkipSpaceAfter(blank[1..], s);
    }
  }

  // ----- One piece of the body

  /** How many octets of text a read of `room` octets looks at. */
  function ToRead(room: nat): (t: nat)
    ensures t >= WINDOW
  {
    Max(THRESHOLD + 2, EncodedSize(room) + 2 * ((room + 63) / 64))
  }

  /** How many base64 characters it decodes at most. */
  function MaxData(room: nat): (m: nat)
    ensures m >= THRESHOLD
  {
    Max(THRESHOLD, room / 3 * 4)
  }

  /** The base64 characters that a read of `room` octets decodes. */
  function WindowData(s: Octets, room: nat): (data: Octets)
  {
    var quads := Quads(Stripped(Take(s, ToRead(room))));
    quads[..Min(|quads|, MaxData(room) / 4 * 4)]
  }

  // ----- Where the characters of a window end

  /** The offset right behind the first `k` octets that are not white space. */
  function EndOf(s: Octets, k: nat): (c: nat)
    ensures c <= |s|
  {
    if k == 0 || s == [] then 0 else 1 + EndOf(s[1..], if IsWhitespace(s[0]) then k else k - 1)
  }

  lemma StrippedFirst(s: Octets, n: nat)
    requires 0 < n <= |s|
    ensures Stripped(s[..n]) == (if IsWhitespace(s[0]) then [] else [s[0]]) + Stripped(s[1..][..n - 1])
  {
    assert s[..n][1..] == s[1..][..n - 1];
  }

  lemma {:induction false} EndOfEnds(s: Octets, k: nat)
    requires 0 < k <= |Stripped(s)|
    ensures 0 < EndOf(s, k) && Stripped(s[..EndOf(s, k)]) == Stripped(s)[..k]
    ensures |Stripped(s[..EndOf(s, k) - 1])| == k - 1
    decreases |s|
  {
    hide Stripped;
    EmptyStripped();
    var c := EndOf(s, k);
    assert s[..|s|] == s && s[1..][..|s| - 1] == s[1..];
    StrippedFirst(s, |s|);
    StrippedFirst(s, c);
    var k' := if IsWhitespace(s[0]) then k else k - 1;
    if k' > 0 {
      EndOfEnds(s[1..], k');
      StrippedFirst(s, c - 1);
    } else {
      assert s[..0] == [] && s[1..][..0] == [];
    }
  }

  /** There is only one such offset. */
  lemma {:induction false} EndOfIs(s: Octets, c: nat)
    requires 0 < c <= |s| && |Stripped(s[..c - 1])| < |Stripped(s[..c])|
    ensures EndOf(s, |Stripped(s[..c])|) == c
    decreases |s|
  {
    hide Stripped;
    EmptyStripped();
    StrippedFirst(s, c);
    if c > 1 {
      StrippedFirst(s, c - 1);
      EndOfIs(s[1..], c - 1);
    } else {
      assert s[1..][..0] == [];
    }
  }

  /** What the filter consumes of a window. */
  lemma EndOfWindow(s: Octets, w: Octets, data: Octets)
    requires w <= s && data != [] && data <= Stripped(w)
    ensures EndsAt(w, 0, 0, data, EndOf(s, |data|))
  {
    hide Visible, EndOf;
    EndOfEnds(w, |data|);
    var c := EndOf(w, |data|);
    assert w[..c] == s[..c] && w[..c - 1] == s[..c - 1];
    EndOfIs(s, c);
    assert Stripped(w)[..|data|] == data;
  }

  lemma EndIsEndOf(s: Octets, w: Octets, data: Octets, c: nat)
    requires w <= s && data != [] && EndsAt(w, 0, 0, data, c)
    ensures c == EndOf(s, |data|)
  {
    hide EndOf;
    assert w[..c] == s[..c] && w[..c - 1] == s[..c - 1];
    EndOfIs(s, c);
  }

  // ----- One piece of the payload

  lemma WindowDataShown(s: Octets, room: nat)
    ensures WindowData(s, room) <= Stripped(Take(s, ToRead(room))) && Take(s, ToRead(room)) <= s
  {
    hide Quads, Stripped, ToRead, MaxData;
  }

  /**
   What a read decodes is the next piece of the payload, and the text behind it
   encodes the rest. There is none if the payload is over, or the window is starved.
   */
  lemma NextPiece(body: Octets, tail: Octets, p: Octets, room: nat) returns (k: nat, c: nat)
    requires Stripped(body) == Encode(p) && Stops(tail)
    ensures k <= |p| && Decode(WindowData(body + tail, room)) == Valid(p[..k])
    ensures k == 0 <==> p == [] || Starved(body, ToRead(room))
    ensures k > 0 ==> c == EndOf(body + tail, |WindowData(body + tail, room)|)
    ensures k > 0 ==> c <= |body| && Stripped(body[c..]) == Encode(p[k..])
    ensures k > 0 ==> c <= ToRead(room) && IsBoundary(body, c)
  {
    hide Stripped, Encode, Quads, Starved, Stops, Decode, EncodedSize, EndsAt, IsBoundary, ToRead, EndOf;
    var w, data := Take(body + tail, ToRead(room)), WindowData(body + tail, room);
    var j := WindowQuads(body, tail, p, ToRead(room));
    var j' := Min(j, MaxData(room) / 4);
    assert data == Encode(p)[..4 * j'];
    EncodeCut(p, j');
    k, c := Cut(p, j'), 0;
    DecodeIff(data, p[..k]);
    if j' > 0 {
      EncodeUnfold(p);
      c := EndOf(body + tail, |data|);
      WindowDataShown(body + tail, room);
      EndOfWindow(body + tail, w, data);
      RestOfBody(body, tail, p, w, j', c);
    }
  }

  /** Of the next piece of the payload, some octets are returned and the others are buffered. */
  lemma PieceTaken(payload: Octets, k: nat, taken: Octets, kept: Octets)
    requires k <= |payload| && taken + kept == payload[..k]
    ensures taken <= payload && kept <= payload[|taken|..]
    ensures payload[|taken|..][|kept|..] == payload[k..]
  {
    assert payload == payload[..k] + payload[k..];
  }

  lemma TakenFromBuffer(payload: Octets, buffer: Octets, amount: nat)
    requires buffer <= payload && amount <= |buffer|
    ensures buffer[..amount] <= payload && buffer[amount..] <= payload[amount..]
    ensures payload[amount..][|buffer[amount..]|..] == payload[|buffer|..]
  {
  }

  lemma DropWithin(body: Octets, tail: Octets, c: nat)
    requires c <= |body|
    ensures Dropped(body + tail, c) == body[c..] + tail
  {
  }

  // ----- Reads

  /** Where a reader stands: in front of the armor, in its body, or behind it. */
  datatype Stand =
    | Outside(text: Octets)
    | Inside(kind: Option<Kind>, headers: Headers, text: Octets, buffer: Octets)
    | Over(kind: Option<Kind>, headers: Headers)

  /** What a read returns, `None` being an error, and where it leaves the reader. */
  datatype Move = Move(got: Option<Octets>, next: Stand)

  /** A read in the body: from the buffer, or from the next window of the text. */
  function Within(s: Stand, room: nat): Move
    requires s.Inside? && room > 0
  {
    if s.buffer != [] then
      var n := Min(room, |s.buffer|);
      Move(Some(s.buffer[..n]), s.(buffer := s.buffer[n..]))
    else
      var data := WindowData(s.text, room);
      var decoded := Decode(data);
      if decoded.Invalid? then Move(None, s)
      else if decoded.data == [] then
        Move(if FooterFor(s.kind, s.text).Some? then Some([]) else None, Over(s.kind, s.headers))
      else
        var n := Min(room, |decoded.data|);
        Move(Some(decoded.data[..n]), s.(text := Dropped(s.text, EndOf(s.text, |data|)), buffer := decoded.data[n..]))
  }

  /** The first read goes through the headers. */
  function Opened(s: Stand, expected: Option<Kind>): Stand {
    if !s.Outside? then s
    else
      var opening := Open(s.text, expected);
      if opening.None? then s
      else Inside(Some(opening.value.kind), opening.value.headers, opening.value.text, [])
  }

  function Step(s: Stand, expected: Option<Kind>, room: nat): Move {
    var stand := Opened(s, expected);
    if stand.Outside? then Move(None, s)
    else if room == 0 || stand.Over? then Move(Some([]), stand)
    else Within(stand, room)
  }

  /**
   What reads yield together, whether an empty read marked the end, and whether one
   failed before that.
   */
  datatype Outcome = Outcome(out: Octets, ended: bool, failed: bool)

  function Run(s: Stand, expected: Option<Kind>, rooms: seq<nat>): Outcome
    decreases |rooms|
  {
    if rooms == [] then Outcome([], false, false)
    else
      var move := Step(s, expected, rooms[0]);
      var rest := Run(move.next, expected, rooms[1..]);
      if move.got.None? then Outcome(rest.out, false, true)
      else Outcome(move.got.value + rest.out, move.got.value == [] || rest.ended, rest.failed)
  }

  predicate Positive(rooms: seq<nat>) {
    forall i :: 0 <= i < |rooms| ==> rooms[i] > 0
  }

  /** All reads look at the same number of octets. */
  predicate AlikeWindows(rooms: seq<nat>, t: nat) {
    forall i :: 0 <= i < |rooms| ==> ToRead(rooms[i]) == t
  }

  lemma RunUnfold(s: Stand, expected: Option<Kind>, rooms: seq<nat>)
    requires rooms != []
    ensures var move, o := Step(s, expected, rooms[0]), Run(s, expected, rooms);
            var rest := Run(move.next, expected, rooms[1..]);
            o == if move.got.None? then Outcome(rest.out, false, true)
                 else Outcome(move.got.value + rest.out, move.got.value == [] || rest.ended, rest.failed)
  {
  }

  lemma RunNone(s: Stand, expected: Option<Kind>)
    ensures Run(s, expected, []) == Outcome([], false, false)
  {
  }

  /** Behind the end, there is nothing. */
  lemma {:induction false} RunOver(s: Stand, expected: Option<Kind>, rooms: seq<nat>)
    requires s.Over?
    ensures Run(s, expected, rooms) == Outcome([], rooms != [], false)
    decreases |rooms|
  {
    if rooms != [] {
      RunOver(s, expected, rooms[1..]);
    }
  }

  /** Opening is part of the first read. */
  lemma RunOpens(s: Stand, expected: Option<Kind>, rooms: seq<nat>)
    ensures Run(s, expected, rooms) == Run(Opened(s, expected), expected, rooms)
  {
    hide Open, Within;
  }

  /** Text that does not open yields only errors. */
  lemma {:induction false} RunOutside(s: Stand, expected: Option<Kind>, rooms: seq<nat>)
    requires Opened(s, expected).Outside?
    ensures Run(s, expected, rooms) == Outcome([], false, rooms != [])
    decreases |rooms|
  {
    hide Open, Within;
    if rooms != [] {
      RunOutside(s, expected, rooms[1..]);
    }
  }

  // ----- What reads make of a body

  /** A window onto the body shows nothing of the payload. */
  predicate IsNone(body: Octets, payload: Octets, room: nat) {
    payload == [] || Starved(body, ToRead(room))
  }

  /** The reader owes `payload`: it has some of it in its buffer, and `body` encodes the rest. */
  predicate Owes(body: Octets, tail: Octets, payload: Octets, buffer: Octets) {
    buffer <= payload && Stripped(body) == Encode(payload[|buffer|..]) && Stops(tail)
  }

  lemma BufferStep(s: Stand, body: Octets, tail: Octets, payload: Octets, room: nat)
    requires s.Inside? && s.text == body + tail && Owes(body, tail, payload, s.buffer) && room > 0 && s.buffer != []
    ensures var move := Within(s, room);
            && move.next.Inside? && move.next == s.(buffer := move.next.buffer)
            && move.got.Some? && move.got.value != [] && |move.got.value| <= room && move.got.value <= payload
            && Owes(body, tail, payload[|move.got.value|..], move.next.buffer)
  {
    hide Stripped, Encode, Stops;
    TakenFromBuffer(payload, s.buffer, Min(room, |s.buffer|));
  }

  lemma TextStep(s: Stand, body: Octets, tail: Octets, payload: Octets, room: nat) returns (c: nat)
    requires s.Inside? && s.text == body + tail && Owes(body, tail, payload, s.buffer) && room > 0 && s.buffer == []
    requires !IsNone(body, payload, room)
    ensures var move := Within(s, room);
            && IsBoundary(body, c) && c <= ToRead(room)
            && move.next.Inside? && move.next == s.(text := body[c..] + tail, buffer := move.next.buffer)
            && move.got.Some? && move.got.value != [] && |move.got.value| <= room && move.got.value <= payload
            && Owes(body[c..], tail, payload[|move.got.value|..], move.next.buffer)
  {
    hide Stripped, Encode, Stops, Starved, Decode, WindowData, EndOf, ToRead, IsBoundary, FooterFor, Dropped;
    assert payload[0..] == payload;
    var k;
    k, c := NextPiece(body, tail, payload, room);
    var move := Within(s, room);
    DropWithin(body, tail, c);
    PieceTaken(payload, k, move.got.value, move.next.buffer);
  }

  lemma LastStep(s: Stand, body: Octets, tail: Octets, payload: Octets, room: nat)
    requires s.Inside? && s.text == body + tail && Owes(body, tail, payload, s.buffer) && room > 0 && s.buffer == []
    requires IsNone(body, payload, room)
    ensures Stripped(body) == Encode(payload)
    ensures Within(s, room)
         == Move(if FooterFor(s.kind, body + tail).Some? then Some([]) else None, Over(s.kind, s.headers))
  {
    hide Stripped, Encode, Stops, Starved, Decode, WindowData, EndOf, ToRead, IsBoundary, FooterFor, Dropped;
    assert payload[0..] == payload;
    var k, _ := NextPiece(body, tail, payload, room);
  }

  lemma AtStart(body: Octets)
    ensures IsBoundary(body, 0) && body[0..] == body
  {
  }

  /**
   A read returns the next octets of the payload. Once it is over, or white space
   starves the reader, it returns nothing if a footer follows, and fails otherwise.
   */
  lemma StepOfBody(s: Stand, body: Octets, tail: Octets, payload: Octets, room: nat) returns (c: nat)
    requires s.Inside? && s.text == body + tail && Owes(body, tail, payload, s.buffer) && room > 0
    ensures IsBoundary(body, c) && c <= ToRead(room)
    ensures var move := Within(s, room);
            if s.buffer == [] && IsNone(body, payload, room) then
              && Stripped(body) == Encode(payload)
              && move == Move(if FooterFor(s.kind, body + tail).Some? then Some([]) else None, Over(s.kind, s.headers))
            else
              && move.next.Inside? && move.next == s.(text := body[c..] + tail, buffer := move.next.buffer)
              && move.got.Some? && move.got.value != [] && |move.got.value| <= room && move.got.value <= payload
              && Owes(body[c..], tail, payload[|move.got.value|..], move.next.buffer)
  {
    hide Owes, IsNone, Within, ToRead, IsBoundary, FooterFor, Stripped, Encode;
    AtStart(body);
    c := 0;
    if s.buffer != [] {
      BufferStep(s, body, tail, payload, room);
    } else if IsNone(body, payload, room) {
      LastStep(s, body, tail, payload, room);
    } else {
      c := TextStep(s, body, tail, payload, room);
    }
  }

  /** What is known of the rest of the body, once a read with a window of `t` octets found nothing in it. */
  lemma Exhausted(left: Octets, owed: Octets, t: nat)
    requires Stripped(left) == Encode(owed) && (owed == [] || Starved(left, t))
    ensures owed == [] <==> Nourished(left, t)
  {
    hide Stripped, Encode, Starved, Nourished;
    EncodeUnfold(owed);
    if owed == [] {
      NothingLeft(left, t);
    } else {
      StarvedStart(left, t);
    }
  }

  /** The rest of a body that never starves the reader never does, and conversely behind a quad that is shown. */
  lemma StillNourished(body: Octets, c: nat, t: nat)
    requires IsBoundary(body, c)
    ensures Nourished(body, t) ==> Nourished(body[c..], t)
    ensures c <= t ==> (Nourished(body, t) <==> Nourished(body[c..], t))
  {
    hide Stripped, Starved, IsBoundary;
    if c <= t {
      NourishedRest(body, c, t);
    }
    if Nourished(body, t) {
      forall i: nat | IsBoundary(body[c..], i) && |Stripped(body[c..][..i])| < |Stripped(body[c..])|
        ensures !Starved(body[c..][i..], t)
      {
        BoundaryBehind(body, c, i);
      }
    }
  }

  /**
   What is promised of reads: `at` is where reading the body stops.

   The output is a prefix of the payload, and each read makes progress. It is all of the
   payload if no window of 66 octets starves the reader; with reads that look at `t`
   octets each, exactly if no window of that size does, and otherwise reading stops at
   one that does. At the end there is an empty read if the text goes on with a footer
   of the right kind, and an error otherwise.
   */
  ghost predicate Delivered(kind: Option<Kind>, body: Octets, tail: Octets, payload: Octets, rooms: seq<nat>, t: nat,
                            o: Outcome, at: nat)
  {
    && o.out <= payload && !(o.ended && o.failed) && at <= |body|
    && (!o.ended && !o.failed ==> |o.out| >= |rooms|)
    && (o.ended ==> FooterFor(kind, body[at..] + tail).Some?)
    && (o.failed ==> FooterFor(kind, body[at..] + tail).None?)
    && (o.ended || o.failed ==>
          && Stripped(body[at..]) == Encode(payload[|o.out|..])
          && (Nourished(body, WINDOW) ==> o.out == payload)
          && (AlikeWindows(rooms, t) ==>
                (o.out == payload <==> Nourished(body, t)) && (o.out == payload || Starved(body[at..], t))))
  }

  lemma DeliveredNone(kind: Option<Kind>, body: Octets, tail: Octets, payload: Octets, t: nat)
    ensures Delivered(kind, body, tail, payload, [], t, Outcome([], false, false), 0)
  {
  }

  lemma DeliveredLast(
    kind: Option<Kind>, body: Octets, tail: Octets, payload: Octets, rooms: seq<nat>, t: nat, ended: bool)
    requires rooms != [] && Stripped(body) == Encode(payload) && IsNone(body, payload, rooms[0])
    requires ended <==> FooterFor(kind, body + tail).Some?
    ensures Delivered(kind, body, tail, payload, rooms, t, Outcome([], ended, !ended), 0)
  {
    hide Nourished, ToRead, FooterFor, Stripped, Encode, Starved;
    Exhausted(body, payload, ToRead(rooms[0]));
    FewerStarve(body, WINDOW, ToRead(rooms[0]));
    assert body[0..] == body && payload[0..] == payload;
  }

  lemma DeliveredNext(kind: Option<Kind>, body: Octets, tail: Octets, payload: Octets, rooms: seq<nat>, t: nat,
                      o: Outcome, at: nat, c: nat, got: Octets)
    requires rooms != [] && IsBoundary(body, c) && c <= ToRead(rooms[0]) && got != [] && got <= payload
    requires Delivered(kind, body[c..], tail, payload[|got|..], rooms[1..], t, o, at)
    ensures Delivered(kind, body, tail, payload, rooms, t, o.(out := got + o.out), c + at)
  {
    hide Nourished, ToRead, FooterFor, Stripped, Encode, Starved, IsBoundary;
    StillNourished(body, c, WINDOW);
    StillNourished(body, c, ToRead(rooms[0]));
    assert payload == got + payload[|got|..];
    assert body[c..][at..] == body[c + at..];
    assert payload[|got|..][|o.out|..] == payload[|got + o.out|..];
    assert AlikeWindows(rooms, t) ==> AlikeWindows(rooms[1..], t);
  }

  lemma {:induction false} RunOfBody(
    s: Stand, expected: Option<Kind>, body: Octets, tail: Octets, payload: Octets, rooms: seq<nat>, t: nat)
    returns (at: nat)
    requires s.Inside? && s.text == body + tail && Owes(body, tail, payload, s.buffer) && Positive(rooms)
    ensures Delivered(s.kind, body, tail, payload, rooms, t, Run(s, expected, rooms), at)
    decreases |rooms|
  {
    hide Owes, IsNone, Within, ToRead, IsBoundary, FooterFor, Stripped, Encode, Delivered, Run;
    if rooms == [] {
      at := 0;
      DeliveredNone(s.kind, body, tail, payload, t);
      RunNone(s, expected);
    } else {
      var room := rooms[0];
      var c := StepOfBody(s, body, tail, payload, room);
      var move := Within(s, room);
      RunUnfold(s, expected, rooms);
      if s.buffer == [] && IsNone(body, payload, room) {
        at := 0;
        RunOver(move.next, expected, rooms[1..]);
        assert move.got.Some? ==> move.got.value + [] == [];
        DeliveredLast(s.kind, body, tail, payload, rooms, t, move.got.Some?);
      } else {
        var got := move.got.value;
        at := RunOfBody(move.next, expected, body[c..], tail, payload[|got|..], rooms[1..], t);
        DeliveredNext(s.kind, body, tail, payload, rooms, t, Run(move.next, expected, rooms[1..]), at, c, got);
        at := c + at;
      }
    }
  }
}
