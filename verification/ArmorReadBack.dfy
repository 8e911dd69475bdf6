/** For which headers what the writer makes is read back, whatever the payload is. */
module ArmorReadBack {
  import opened Bytes
  import opened Base64
  import opened Base64Filter
  import opened Crc24
  import opened ArmorText
  import opened ArmorBody
  import opened ArmorFraming
  import opened ArmorHeaders
  import opened ArmorWriter
  import opened ArmorReading
  import opened Readers

  // ----- What follows the written body

  lemma TrailerStops(kind: Kind, profile: Option<Profile>, data: Octets, n: nat)
    requires n <= |Trailer(kind, profile, data)|
    ensures Stops(Trailer(kind, profile, data)[..n])
  {
    hide Encode, Checksum, Ascii, Blurb;
    var t := Trailer(kind, profile, data)[..n];
    if n > 0 {
      assert t[0] in {PAD, 45} && t == [t[0]] + t[1..];
      StrippedSolid([t[0]]);
      StrippedAppend([t[0]], t[1..]);
    }
  }

  lemma TrailerCloses(kind: Kind, profile: Option<Profile>, data: Octets)
    ensures FooterOf(kind, Trailer(kind, profile, data)).Some?
  {
    hide Encode, Checksum, End, FooterOf, EncodedSize, ChecksumOctets, SkipSpace, DetectFooter, Take;
    var footer := End(kind) + [NEWLINE];
    FooterCloses(kind);
    if profile != Some(RFC9580) {
      var sum := Encode(ChecksumOctets(Checksum(data)));
      FourDigits(ChecksumOctets(Checksum(data)));
      ChecksumThenFooter(kind, sum);
      assert Trailer(kind, profile, data) == [PAD] + sum + [NEWLINE] + footer;
    } else {
      assert Trailer(kind, profile, data) == footer;
    }
  }

  lemma FooterCloses(kind: Kind)
    ensures FooterOf(kind, End(kind) + [NEWLINE]).Some?
    ensures SkipSpace(End(kind) + [NEWLINE]) == End(kind) + [NEWLINE]
    ensures DetectFooter(kind, Take(End(kind) + [NEWLINE], FOOTER_LOOKAHEAD)).Some?
  {
    hide DetectFooter, End;
    FooterDetected(kind, [NEWLINE]);
    FooterStarts(kind);
    var footer := End(kind) + [NEWLINE];
    assert Take(footer, FOOTER_LOOKAHEAD) == footer;
  }

  lemma ChecksumThenFooter(kind: Kind, sum: Octets)
    requires |sum| == 4 && forall i :: 0 <= i < 4 ==> IsBase64Char(sum[i])
    ensures FooterOf(kind, [PAD] + sum + [NEWLINE] + (End(kind) + [NEWLINE])).Some?
    ensures [PAD] + sum + [NEWLINE] + (End(kind) + [NEWLINE]) == [PAD] + sum + [NEWLINE] + End(kind) + [NEWLINE]
  {
    hide DetectFooter, End, Take, IsBase64Char;
    FooterCloses(kind);
    var footer := End(kind) + [NEWLINE];
    var t, rest := [PAD] + sum + [NEWLINE] + footer, [NEWLINE] + footer;
    assert SkipSpace(t) == t && HasChecksum(t);
    assert SkipChecksum(t) == rest && rest[1..] == footer;
  }

  lemma FourDigits(d: Octets)
    requires |d| == 3
    ensures |Encode(d)| == 4 && forall i :: 0 <= i < 4 ==> IsBase64Char(Encode(d)[i])
  {
  }

  lemma FooterStarts(kind: Kind)
    ensures End(kind) != [] && End(kind)[0] == 45
  {
  }

  /** No part of the body is visible in white space, so it does not hide the footer. */
  lemma FooterBehindSpace(kind: Kind, left: Octets, tail: Octets)
    requires Stripped(left) == []
    ensures FooterOf(kind, left + tail) == FooterOf(kind, tail)
  {
    hide Stripped, SkipSpace;
    SkipSpaceAfter(left, tail);
    SameFooter(Some(kind), left + tail, tail);
  }

  // ----- What the reader finds behind the headers

  /** The text that the reader takes for body and trailer. */
  function BodyText(headers: Headers, profile: Option<Profile>, kind: Kind, data: Octets): Octets {
    LeftOver(headers) + (Wrapped(Encode(data)) + Trailer(kind, profile, data))
  }

  lemma ArmoredOpens(
    kind: Kind, headers: Headers, profile: Option<Profile>, data: Octets, expected: Option<Kind>, rooms: seq<nat>)
    requires expected == None || expected == Some(kind)
    ensures Run(Outside(Armored(kind, headers, profile, data)), expected, rooms)
         == Run(Inside(Some(kind), FoundHeaders(headers), BodyText(headers, profile, kind, data), []), expected, rooms)
    ensures Open(Armored(kind, headers, profile, data), expected)
         == Some(Opening(kind, FoundHeaders(headers), BodyText(headers, profile, kind, data)))
  {
    hide Preamble, Wrapped, Encode, Trailer, FoundHeaders, LeftOver, Run, Open;
    var after := Wrapped(Encode(data)) + Trailer(kind, profile, data);
    assert Armored(kind, headers, profile, data) == Preamble(kind, headers) + after;
    WrittenOpens(kind, headers, after, expected);
    RunOpens(Outside(Armored(kind, headers, profile, data)), expected, rooms);
  }

  /** If nothing is left of the headers, reading goes on with the body. */
  lemma PreambleOpens(kind: Kind, headers: Headers, after: Octets, expected: Option<Kind>, rooms: seq<nat>)
    requires LeftOver(headers) == [] && (expected == None || expected == Some(kind))
    ensures Run(Outside(Preamble(kind, headers) + after), expected, rooms)
         == Run(Inside(Some(kind), FoundHeaders(headers), after, []), expected, rooms)
  {
    hide Preamble, FoundHeaders, LeftOver, Run, Open;
    WrittenOpens(kind, headers, after, expected);
    assert [] + after == after;
    RunOpens(Outside(Preamble(kind, headers) + after), expected, rooms);
  }

  // ----- White space in front of the body

  lemma BehindSpace(blank: Octets, body: Octets, n: nat)
    requires Stripped(blank) == [] && n <= |blank + body|
    ensures Stripped((blank + body)[..n]) == if n <= |blank| then [] else Stripped(body[..n - |blank|])
    ensures n > |blank| ==> (blank + body)[n..] == body[n - |blank|..]
    ensures Stripped(blank + body) == Stripped(body)
  {
    hide Visible;
    StrippedAppend(blank, body);
    if n <= |blank| {
      SplitBody(blank, n, |blank|);
      assert (blank + body)[..n] == blank[..n];
    } else {
      StrippedAppend(blank, body[..n - |blank|]);
      assert (blank + body)[..n] == blank + body[..n - |blank|];
    }
    assert [] + Stripped(body) == Stripped(body);
  }

  /** White space starves the reader only at the start of the body. */
  lemma SpaceNourishes(blank: Octets, body: Octets, t: nat)
    requires Stripped(blank) == [] && Nourished(body, t) && (Stripped(body) != [] ==> !Starved(blank + body, t))
    ensures Nourished(blank + body, t)
  {
    hide Stripped, Starved;
    var all := blank + body;
    EmptyStripped();
    forall c: nat | IsBoundary(all, c) && |Stripped(all[..c])| < |Stripped(all)| ensures !Starved(all[c..], t) {
      BehindSpace(blank, body, c);
      if c == 0 {
        assert all[0..] == all;
      } else {
        BehindSpace(blank, body, c - 1);
        assert body[..0] == [];
        assert IsBoundary(body, c - |blank|);
      }
    }
  }

  /** Of the reader's shortest window, this much can be white space in front of the body. */
  const SLACK: nat := WINDOW - 4

  lemma StartIsSolid(data: Octets)
    requires data != []
    ensures |Wrapped(Encode(data))| >= 4 && NoWhitespace(Wrapped(Encode(data))[..4])
  {
    hide Encode, EncodedSize, Wrapped;
    EncodingIsSolid(data);
    EncodedInQuads(data);
    WrappedSpaced(Encode(data));
    StrippedWrapped(Encode(data));
    VisibleNoLonger(Wrapped(Encode(data)), 0, 0);
  }

  lemma SpaceShowsQuad(blank: Octets, data: Octets)
    requires Stripped(blank) == [] && data != [] && |blank| <= SLACK
    ensures !Starved(blank + Wrapped(Encode(data)), WINDOW)
  {
    hide Stripped, Encode, EncodedSize, Wrapped;
    var w := Wrapped(Encode(data));
    StartIsSolid(data);
    if WINDOW <= |blank + w| {
      var n := WINDOW - |blank|;
      BehindSpace(blank, w, WINDOW);
      SplitBody(w[..n], 4, n);
      assert w[..n][..4] == w[..4];
      StrippedSolid(w[..4]);
    }
  }

  lemma SpaceHidesQuad(blank: Octets, data: Octets)
    requires Stripped(blank) == [] && |data| == 1 && |blank| > SLACK
    ensures Starved(blank + Wrapped(Encode(data)), WINDOW)
  {
    hide Visible, Encode, EncodedSize, Wrapped;
    var w := Wrapped(Encode(data));
    ShortBody(data);
    BehindSpace(blank, w, WINDOW);
    if |blank| < WINDOW {
      VisibleNoLonger(w[..WINDOW - |blank|], 0, 0);
    }
  }

  lemma ShortBody(data: Octets)
    requires |data| == 1
    ensures |Wrapped(Encode(data))| == 5
  {
  }

  // ----- When the payload comes back

  /** All of what the block leaves of the headers is white space, and little enough. */
  predicate Harmless(headers: Headers) {
    Stripped(LeftOver(headers)) == [] && |LeftOver(headers)| <= SLACK
  }

  lemma SingleLinesAreHarmless(headers: Headers)
    requires SingleLines(headers)
    ensures Harmless(headers)
  {
    hide LeftOver, Stripped;
    NothingLeftOver(headers);
    EmptyStripped();
  }

  /** Reads deliver the payload, and an empty read marks its end. */
  predicate ComesBack(data: Octets, rooms: seq<nat>, o: Outcome) {
    o.out <= data && !o.failed && (if o.ended then o.out == data else |o.out| >= |rooms|)
  }

  function ReadOf(kind: Kind, headers: Headers, profile: Option<Profile>, data: Octets, rooms: seq<nat>): Outcome {
    Run(Outside(Armored(kind, headers, profile, data)), Some(kind), rooms)
  }

  lemma HarmlessOwes(kind: Kind, headers: Headers, profile: Option<Profile>, data: Octets)
    requires Stripped(LeftOver(headers)) == []
    ensures var body := LeftOver(headers) + Wrapped(Encode(data));
            && Owes(body, Trailer(kind, profile, data), data, []) && Stripped(body) == Encode(data)
            && body + Trailer(kind, profile, data) == BodyText(headers, profile, kind, data)
  {
    hide Stripped, Encode, Wrapped, Trailer, LeftOver, Stops;
    var w, tail := Wrapped(Encode(data)), Trailer(kind, profile, data);
    BehindSpace(LeftOver(headers), w, 0);
    WrittenBody(data);
    assert tail[..|tail|] == tail && data[0..] == data;
    TrailerStops(kind, profile, data, |tail|);
  }

  lemma HarmlessNourishes(headers: Headers, data: Octets)
    requires Harmless(headers)
    ensures Nourished(LeftOver(headers) + Wrapped(Encode(data)), WINDOW)
  {
    hide Stripped, Encode, Wrapped, LeftOver, Nourished, Starved;
    var w := Wrapped(Encode(data));
    assert w[..|w|] == w;
    WrittenBody(data);
    WrittenNourishes(data, |w|, WINDOW);
    EncodeUnfold(data);
    if data != [] {
      SpaceShowsQuad(LeftOver(headers), data);
    }
    SpaceNourishes(LeftOver(headers), w, WINDOW);
  }

  lemma ReadBack(
    kind: Kind, headers: Headers, profile: Option<Profile>, data: Octets, expected: Option<Kind>, rooms: seq<nat>)
    requires Harmless(headers) && Positive(rooms) && (expected == None || expected == Some(kind))
    ensures ComesBack(data, rooms, Run(Outside(Armored(kind, headers, profile, data)), expected, rooms))
  {
    hide Stripped, Encode, Wrapped, Trailer, LeftOver, FoundHeaders, Armored, Run, Nourished, FooterOf, Owes, BodyText;
    hide Positive;
    var body, tail := LeftOver(headers) + Wrapped(Encode(data)), Trailer(kind, profile, data);
    ArmoredOpens(kind, headers, profile, data, expected, rooms);
    HarmlessOwes(kind, headers, profile, data);
    HarmlessNourishes(headers, data);
    var s := Inside(Some(kind), FoundHeaders(headers), BodyText(headers, profile, kind, data), []);
    var at := RunOfBody(s, expected, body, tail, data, rooms, WINDOW);
    TrailerCloses(kind, profile, data);
    EncodeUnfold([]);
    assert data[|data|..] == [];
    if Stripped(body[at..]) == [] {
      FooterBehindSpace(kind, body[at..], tail);
    }
  }

  // ----- When it does not

  lemma FirstRead(s: Stand, expected: Option<Kind>, rooms: seq<nat>)
    requires s.Inside? && s.buffer == [] && Positive(rooms) && rooms != []
    ensures var o, decoded := Run(s, expected, rooms), Decode(WindowData(s.text, rooms[0]));
            && (decoded.Invalid? ==> o.failed)
            && (decoded == Valid([]) ==>
                  o == Outcome([], FooterFor(s.kind, s.text).Some?, FooterFor(s.kind, s.text).None?))
            && (decoded.Valid? && decoded.data != [] ==> o.out != [] && o.out[0] == decoded.data[0])
  {
    hide Decode, WindowData, FooterFor, Run, EndOf;
    RunUnfold(s, expected, rooms);
    var move := Within(s, rooms[0]);
    if move.next.Over? {
      RunOver(move.next, expected, rooms[1..]);
      assert move.got.Some? ==> move.got.value + [] == [];
    }
  }

  /** The first sextet is in the first octet. */
  lemma FirstSextet(data: Octets, d: Octets)
    requires Decode(data) == Valid(d) && d != []
    ensures data != [] && IsBase64Char(data[0]) && d[0] / 4 == Undigit(data[0])
  {
    hide Decode, Encode;
    DecodeIff(data, d);
    EncodeUnfold(d);
    FirstDigit(if |d| > 3 then d[..3] else d);
  }

  lemma FirstDigit(d: Octets)
    requires 1 <= |d| <= 3
    ensures |EncodeQuad(d)| == 4 && IsBase64Char(EncodeQuad(d)[0]) && Undigit(EncodeQuad(d)[0]) == d[0] / 4
  {
  }

  /** An octet that no quad starts with that starts with the given character. */
  function OtherOctet(c: byte): (b: byte)
    ensures IsBase64Char(c) ==> b / 4 != Undigit(c)
  {
    if c == 65 then 255 else 0
  }

  lemma VisibleFirst(left: Octets, rest: Octets, room: nat)
    requires Stripped(left) != []
    ensures var data := WindowData(left + rest, room); data != [] ==> data[0] == Stripped(left)[0]
  {
    hide Stripped, ToRead, WindowData;
    var s := left + rest;
    WindowDataShown(s, room);
    var data, w := WindowData(s, room), Take(s, ToRead(room));
    assert s == w + s[|w|..];
    StrippedAppend(w, s[|w|..]);
    StrippedAppend(left, rest);
    if data != [] {
      assert data[0] == Stripped(w)[0] == Stripped(s)[0];
    }
  }

  /** Characters in front of the body spoil a payload that starts with another octet. */
  lemma FirstIsOther(s: Stand, expected: Option<Kind>, left: Octets, rest: Octets, rooms: seq<nat>)
    requires s.Inside? && s.buffer == [] && s.text == left + rest && Stripped(left) != []
    requires Positive(rooms) && rooms != []
    ensures var data := [OtherOctet(Stripped(left)[0])]; !ComesBack(data, rooms, Run(s, expected, rooms))
  {
    hide Stripped, Decode, WindowData, FooterFor, Run, OtherOctet;
    FirstRead(s, expected, rooms);
    VisibleFirst(left, rest, rooms[0]);
    var window := WindowData(s.text, rooms[0]);
    if Decode(window).Valid? && Decode(window).data != [] {
      FirstSextet(window, Decode(window).data);
    }
  }

  lemma LeftOverSpoils(kind: Kind, headers: Headers, profile: Option<Profile>)
    requires Stripped(LeftOver(headers)) != []
    ensures var data := [OtherOctet(Stripped(LeftOver(headers))[0])];
            !ComesBack(data, [1, 1], ReadOf(kind, headers, profile, data, [1, 1]))
  {
    hide Stripped, Encode, Wrapped, Trailer, LeftOver, FoundHeaders, Armored, Run, OtherOctet, ComesBack, Open;
    var data := [OtherOctet(Stripped(LeftOver(headers))[0])];
    ArmoredOpens(kind, headers, profile, data, Some(kind), [1, 1]);
    var s := Inside(Some(kind), FoundHeaders(headers), BodyText(headers, profile, kind, data), []);
    FirstIsOther(s, Some(kind), LeftOver(headers), Wrapped(Encode(data)) + Trailer(kind, profile, data), [1, 1]);
  }

  /** Much white space starves the reader. */
  lemma LeftOverStarves(kind: Kind, headers: Headers, profile: Option<Profile>)
    requires Stripped(LeftOver(headers)) == [] && |LeftOver(headers)| > SLACK
    ensures !ComesBack([0], [1, 1], ReadOf(kind, headers, profile, [0], [1, 1]))
  {
    hide Stripped, Encode, Wrapped, Trailer, LeftOver, FoundHeaders, Armored, Run, FooterFor, Owes, Starved, BodyText;
    hide Within;
    var data, rooms := [0], [1, 1];
    var body, tail := LeftOver(headers) + Wrapped(Encode(data)), Trailer(kind, profile, data);
    ArmoredOpens(kind, headers, profile, data, Some(kind), rooms);
    HarmlessOwes(kind, headers, profile, data);
    SpaceHidesQuad(LeftOver(headers), data);
    var s := Inside(Some(kind), FoundHeaders(headers), BodyText(headers, profile, kind, data), []);
    SmallestWindow();
    var c := StepOfBody(s, body, tail, data, 1);
    RunUnfold(s, Some(kind), rooms);
    RunOver(Within(s, 1).next, Some(kind), rooms[1..]);
  }

  lemma SmallestWindow()
    ensures ToRead(1) == WINDOW
  {
  }

  /** What the writer makes is read back, for all payloads and reads, exactly if the headers are harmless. */
  lemma HeadersIff(kind: Kind, headers: Headers, profile: Option<Profile>)
    ensures (forall data, rooms :: Positive(rooms) ==>
               ComesBack(data, rooms, ReadOf(kind, headers, profile, data, rooms)))
       <==> Harmless(headers)
  {
    hide Stripped, LeftOver, Armored, Run, ComesBack;
    if Harmless(headers) {
      forall data, rooms | Positive(rooms) ensures ComesBack(data, rooms, ReadOf(kind, headers, profile, data, rooms)) {
        ReadBack(kind, headers, profile, data, Some(kind), rooms);
      }
    } else {
      assert Positive([1, 1]);
      if Stripped(LeftOver(headers)) != [] {
        LeftOverSpoils(kind, headers, profile);
      } else {
        LeftOverStarves(kind, headers, profile);
      }
    }
  }

  // ----- A header that is not harmless

  /** An empty line in a value ends the block, and what follows it is left. */
  lemma BlankLineInValue(key: Octets, start: Octets, rest: Octets)
    requires NEWLINE !in key && NEWLINE !in start
    ensures LeftOver([(key, start + [NEWLINE, NEWLINE] + rest)]) == rest + [NEWLINE, NEWLINE]
  {
    hide ParseBlock, AllRepresentable;
    var whole: Headers, front: Headers := [(key, start + [NEWLINE, NEWLINE] + rest)], [(key, start)];
    var after := rest + [NEWLINE, NEWLINE];
    WrittenBlock(front, after, true);
    assert front[1..] == [] && whole[1..] == [];
    assert HeaderLines(whole) + [NEWLINE] == HeaderLines(front) + ([NEWLINE] + after);
  }

  lemma FirstOfBody(s: Stand, expected: Option<Kind>, body: Octets, tail: Octets, payload: Octets)
    requires s.Inside? && s.buffer == [] && s.text == body + tail && Owes(body, tail, payload, [])
    requires payload != [] && !Starved(body, WINDOW)
    ensures Run(s, expected, [1]) == Outcome([payload[0]], false, false)
  {
    hide Owes, Starved, Within, Run, IsBoundary;
    SmallestWindow();
    var c := StepOfBody(s, body, tail, payload, 1);
    var move := Within(s, 1);
    var rooms: seq<nat> := [1];
    assert rooms[1..] == [];
    RunUnfold(s, expected, rooms);
    RunNone(move.next, expected);
    assert move.got.value == [payload[0]] && move.got.value + [] == move.got.value;
  }

  lemma InsertedOwes(d: Octets, kind: Kind, profile: Option<Profile>, data: Octets)
    requires d != [] && |d| % 3 == 0
    ensures var left := Encode(d) + [NEWLINE, NEWLINE];
            Stripped(left) != [] && Owes(left + Wrapped(Encode(data)), Trailer(kind, profile, data), d + data, [])
  {
    hide Stripped, Encode, EncodedSize, Wrapped, Trailer, Stops, Starved;
    var tail := Trailer(kind, profile, data);
    assert tail[..|tail|] == tail && (d + data)[0..] == d + data;
    TrailerStops(kind, profile, data, |tail|);
    InsertedBody(d, data);
  }

  /** If that is base64 data, it is read in front of the payload. */
  lemma ValueIsRead(kind: Kind, key: Octets, start: Octets, d: Octets, profile: Option<Profile>, data: Octets)
    requires NEWLINE !in key && NEWLINE !in start && d != [] && |d| % 3 == 0
    ensures var headers := [(key, start + [NEWLINE, NEWLINE] + Encode(d))];
            && !Harmless(headers)
            && ReadOf(kind, headers, profile, data, [1]) == Outcome([d[0]], false, false)
  {
    hide Stripped, Encode, Wrapped, Trailer, LeftOver, FoundHeaders, Armored, Run, Open, Starved, Owes;
    var headers := [(key, start + [NEWLINE, NEWLINE] + Encode(d))];
    BlankLineInValue(key, start, Encode(d));
    var body, tail := LeftOver(headers) + Wrapped(Encode(data)), Trailer(kind, profile, data);
    InsertedBody(d, data);
    InsertedOwes(d, kind, profile, data);
    ArmoredOpens(kind, headers, profile, data, Some(kind), [1]);
    var s := Inside(Some(kind), FoundHeaders(headers), BodyText(headers, profile, kind, data), []);
    assert s.text == body + tail;
    FirstOfBody(s, Some(kind), body, tail, d + data);
  }

  lemma InsertedBody(d: Octets, data: Octets)
    requires d != [] && |d| % 3 == 0
    ensures var left := Encode(d) + [NEWLINE, NEWLINE];
            && Stripped(left) != [] && Stripped(left + Wrapped(Encode(data))) == Encode(d + data)
            && !Starved(left + Wrapped(Encode(data)), WINDOW)
  {
    hide Encode, EncodedSize, Visible, Wrapped;
    var left, w := Encode(d) + [NEWLINE, NEWLINE], Wrapped(Encode(data));
    EncodingIsSolid(d);
    EncodedInQuads(d);
    StrippedSolid(Encode(d));
    TwoNewlines();
    StrippedAppend(Encode(d), [NEWLINE, NEWLINE]);
    assert Encode(d) + [] == Encode(d);
    WrittenBody(data);
    StrippedAppend(left, w);
    EncodeAppend(d, data);
    EncodeUnfold(data);
    assert data == [] ==> d + data == d && Encode(d) + Encode(data) == Encode(d);
    var body := left + w;
    if WINDOW <= |body| {
      assert body[..WINDOW][..4] == Encode(d)[..4];
      StrippedSolid(Encode(d)[..4]);
      SplitBody(body[..WINDOW], 4, WINDOW);
    }
  }

  lemma TwoNewlines()
    ensures Stripped([NEWLINE, NEWLINE]) == []
  {
    assert [NEWLINE, NEWLINE][1..] == [NEWLINE] && [NEWLINE][1..] == [];
    assert Visible([], 0, 0) == [] && Visible([NEWLINE], 0, 0) == [];
  }
}
