/**
 Armored text that is cut off, and what the reader of `openpgp/src/armor.rs` makes
 of it.
 */
module ArmorCuts {
  import opened Bytes
  import opened Crc24
  import opened Base64
  import opened Base64Filter
  import opened ArmorText
  import opened ArmorWriter
  import opened ArmorBody
  import opened ArmorFraming
  import opened ArmorHeaders
  import opened ArmorReading
  import opened ArmorReadBack
  import opened ArmorRoundTrip
  import opened GenericReader
  import opened Readers
  import ReaderLoops

  // ----- Footers that are cut off

  ghost predicate NoSpace(s: Octets) {
    forall i :: 0 <= i < |s| ==> s[i] != 32
  }

  lemma {:induction false} SkippedSpaceIsSuffix(s: Octets) returns (n: nat)
    ensures n <= |s| && SkipSpace(s) == s[n..]
    decreases |s|
  {
    n := 0;
    if s != [] && IsWhitespace(s[0]) {
      n := SkippedSpaceIsSuffix(s[1..]);
      n := n + 1;
    }
  }

  lemma AfterChecksumIsSuffix(s: Octets) returns (n: nat)
    ensures n <= |s| && AfterChecksum(s) == s[n..]
  {
    hide SkipSpace;
    var a := SkippedSpaceIsSuffix(s);
    var t := SkipChecksum(SkipSpace(s));
    n := SkippedSpaceIsSuffix(t);
    n := n + a + if HasChecksum(SkipSpace(s)) then 5 else 0;
  }

  /** A footer has spaces in it. */
  lemma NoSpaceNoFooter(kind: Kind, s: Octets)
    requires NoSpace(s)
    ensures FooterOf(kind, s).None?
  {
    hide AfterChecksum, Blurb, DashPrefix;
    var n := AfterChecksumIsSuffix(s);
    var seen := Take(s[n..], FOOTER_LOOKAHEAD);
    assert forall i :: 0 <= i < |seen| ==> seen[i] == s[n + i];
    NoSpaceNoEnd(kind, seen);
  }

  lemma NoSpaceNoEnd(kind: Kind, seen: Octets)
    requires NoSpace(seen)
    ensures DetectFooter(kind, seen).None?
  {
    hide Blurb, DashPrefix;
    var rest := seen[DashPrefix(seen)..];
    if Ascii("END PGP ") <= rest {
      assert Ascii("END PGP ")[3] == 32;
      assert rest[3] == seen[DashPrefix(seen) + 3];
    }
  }

  /** What a footer starts with: up to its label. */
  function FooterLabel(kind: Kind): (s: Octets)
    ensures |s| == 13 + |Blurb(kind)|
  {
    DASHES + (Ascii("END PGP ") + Blurb(kind))
  }

  lemma FooterParts(kind: Kind)
    ensures End(kind) == FooterLabel(kind) + DASHES && |End(kind)| == |FooterLabel(kind)| + 5
  {
    hide Ascii, Blurb;
  }

  lemma {:induction false} AllDashes(n: nat, s: Octets)
    requires |s| == n && forall i :: 0 <= i < n ==> s[i] == 45
    ensures DashPrefix(s) == n
    decreases n
  {
    if n > 0 {
      AllDashes(n - 1, s[1..]);
    }
  }

  /** A footer that is cut off is detected exactly if its label is complete. */
  lemma FooterCut(kind: Kind, k: nat)
    requires k <= |End(kind)|
    ensures DetectFooter(kind, End(kind)[..k]).Some? <==> k >= |FooterLabel(kind)|
  {
    hide Blurb, DashPrefix, DashLength;
    FooterParts(kind);
    var s := End(kind)[..k];
    if k <= 5 {
      assert forall i :: 0 <= i < k ==> s[i] == 45;
      AllDashes(k, s);
    } else {
      var words := Ascii("END PGP ") + Blurb(kind) + DASHES;
      var rest := words[..k - 5];
      assert End(kind) == DASHES + words;
      assert s == DASHES + rest;
      assert rest[0] == Ascii("END PGP ")[0] == 69;
      NoDash(rest);
      FiveDashes(rest);
      if k >= |FooterLabel(kind)| {
        FrontParts(Ascii("END PGP "), Blurb(kind), DASHES, k - 5);
      }
    }
  }

  lemma FrontParts(a: Octets, b: Octets, c: Octets, n: nat)
    requires |a| + |b| <= n <= |a + b + c|
    ensures a <= (a + b + c)[..n] && b <= (a + b + c)[..n][|a|..]
  {
  }

  lemma FooterLineCut(kind: Kind, k: nat)
    requires k <= |End(kind)| + 1
    ensures var s := (End(kind) + [NEWLINE])[..k];
            && SkipSpace(s) == s && !HasChecksum(s)
            && (DetectFooter(kind, Take(s, FOOTER_LOOKAHEAD)).Some? <==> k >= |FooterLabel(kind)|)
  {
    hide DetectFooter, End;
    var line := End(kind) + [NEWLINE];
    FooterParts(kind);
    FooterStarts(kind);
    FooterDetected(kind, [NEWLINE]);
    var s := line[..k];
    assert Take(s, FOOTER_LOOKAHEAD) == s;
    if k <= |End(kind)| {
      assert s == End(kind)[..k];
      FooterCut(kind, k);
    } else {
      assert s == line;
    }
  }

  /** The trailer is taken for a footer exactly if it is cut behind the label of its footer. */
  lemma TrailerCut(kind: Kind, profile: Option<Profile>, data: Octets, k: nat)
    requires k <= |Trailer(kind, profile, data)|
    ensures |Trailer(kind, profile, data)| > 6
    ensures FooterOf(kind, Trailer(kind, profile, data)[..k]).Some? <==> k + 6 >= |Trailer(kind, profile, data)|
  {
    hide DetectFooter, End, Encode, Checksum, EncodedSize, ChecksumOctets, Take, FooterLabel;
    var footer := End(kind) + [NEWLINE];
    FooterParts(kind);
    if profile == Some(RFC9580) {
      assert Trailer(kind, profile, data) == footer;
      FooterLineCut(kind, k);
    } else {
      var sum := Encode(ChecksumOctets(Checksum(data)));
      FourDigits(ChecksumOctets(Checksum(data)));
      var t := [PAD] + sum + [NEWLINE] + footer;
      assert Trailer(kind, profile, data) == t;
      if k <= 6 {
        DigitsAreNoSpace(sum);
        assert forall i :: 0 <= i < k ==> t[..k][i] == ([PAD] + sum + [NEWLINE])[i];
        NoSpaceNoFooter(kind, t[..k]);
      } else {
        FooterLineCut(kind, k - 6);
        BehindChecksum(sum, footer, k);
      }
    }
  }

  lemma DigitsAreNoSpace(sum: Octets)
    requires forall i :: 0 <= i < |sum| ==> IsBase64Char(sum[i])
    ensures NoSpace(sum)
  {
  }

  lemma BehindChecksum(sum: Octets, footer: Octets, k: nat)
    requires |sum| == 4 && (forall i :: 0 <= i < 4 ==> IsBase64Char(sum[i])) && 6 <= k <= 6 + |footer|
    requires SkipSpace(footer[..k - 6]) == footer[..k - 6]
    ensures AfterChecksum(([PAD] + sum + [NEWLINE] + footer)[..k]) == footer[..k - 6]
  {
    hide IsBase64Char;
    var t := ([PAD] + sum + [NEWLINE] + footer)[..k];
    assert SkipSpace(t) == t && HasChecksum(t);
    var rest := t[5..];
    assert rest[0] == NEWLINE && rest[1..] == footer[..k - 6];
  }

  // ----- Bodies that are cut off

  lemma {:induction false} WrappedNoSpace(t: Octets)
    requires NoWhitespace(t)
    ensures NoSpace(Wrapped(t))
    decreases |t|
  {
    if |t| >= LINE_LENGTH {
      var line, rest := t[..LINE_LENGTH], t[LINE_LENGTH..];
      WrappedNoSpace(rest);
      WrappedUnfold(t);
      var s := line + [NEWLINE] + Wrapped(rest);
      assert forall i :: 0 <= i < |line| ==> s[i] == line[i] && !IsWhitespace(line[i]);
      assert forall i :: |line| < i < |s| ==> s[i] == Wrapped(rest)[i - |line| - 1];
    } else {
      assert forall i :: 0 <= i < |t| ==> Wrapped(t)[i] == t[i];
    }
  }

  /**
   A body that is cut off is the body of the first octets of the data, and less than
   a quad that is no footer.
   */
  lemma BodyCut(kind: Kind, data: Octets, m: nat) returns (c: nat, k: nat)
    requires m <= |Wrapped(Encode(data))|
    ensures c <= m && k <= |data|
    ensures var text := Wrapped(Encode(data))[..m];
            && Stripped(text[..c]) == Encode(data[..k]) && Nourished(text[..c], WINDOW)
            && Stops(text[c..]) && FooterOf(kind, text[c..]).None?
  {
    hide Stripped, Encode, Wrapped, EncodedSize, Nourished, FooterOf, Quads, EndOf;
    var body := Wrapped(Encode(data));
    var text := body[..m];
    WrittenBody(data);
    SplitBody(body, m, |body|);
    var v := |Stripped(text)|;
    assert Stripped(text) == Encode(data)[..v];
    var j := v / 4;
    c := WholeQuads(text, j);
    EncodeCut(data, j);
    k := Cut(data, j);
    SplitBody(text, c, m);
    assert Stripped(text[..c]) == Encode(data)[..4 * j];
    assert text[..c] == body[..c];
    WrittenNourishes(data, c, WINDOW);
    FewHaveNoQuad(Stripped(text[c..]));
    EncodingIsSolid(data);
    WrappedNoSpace(Encode(data));
    assert forall i :: 0 <= i < |text[c..]| ==> text[c..][i] == body[c + i];
    NoSpaceNoFooter(kind, text[c..]);
  }

  lemma WholeQuads(s: Octets, j: nat) returns (c: nat)
    requires 4 * j <= |Stripped(s)|
    ensures c <= |s| && Stripped(s[..c]) == Stripped(s)[..4 * j]
  {
    hide Stripped, EndOf;
    c := EndOf(s, 4 * j);
    if j > 0 {
      EndOfEnds(s, 4 * j);
    } else {
      c := 0;
      EmptyStripped();
      assert s[..0] == [];
    }
  }

  // ----- Headers that are cut off

  /** The start of a header line, up to its label. */
  function HeaderLabel(kind: Kind): (s: Octets)
    ensures |s| == 15 + |Blurb(kind)|
  {
    DASHES + (Ascii("BEGIN PGP ") + Blurb(kind))
  }

  lemma HeaderParts(kind: Kind)
    ensures Begin(kind) == HeaderLabel(kind) + DASHES && |Begin(kind)| == |HeaderLabel(kind)| + 5
  {
    hide Ascii, Blurb;
  }

  /** No label is found in a part of one. */
  lemma LabelCut(kind: Kind, j: nat)
    requires j < |Blurb(kind)|
    ensures DetectLabel(Blurb(kind)[..j]).None?
  {
    hide Blurb, Ascii;
    var s := Blurb(kind)[..j];
    forall other: Kind ensures !(Blurb(other) <= s) {
      OneBlurb(Blurb(kind), kind, other);
    }
    OneBlurb(Blurb(kind), kind, kind);
  }

  /** A header line that is cut off in front of the end of its label is not recognized. */
  lemma HeaderCut(kind: Kind, n: nat)
    requires n < |HeaderLabel(kind)|
    ensures DetectHeader(Begin(kind)[..n]).None?
  {
    hide Blurb, DashPrefix, DashLength, DetectLabel;
    HeaderParts(kind);
    var s := Begin(kind)[..n];
    if n <= 5 {
      assert forall i :: 0 <= i < n ==> s[i] == 45;
      AllDashes(n, s);
    } else {
      var rest := (Ascii("BEGIN PGP ") + Blurb(kind))[..n - 5];
      assert s == DASHES + rest;
      assert rest[0] == Ascii("BEGIN PGP ")[0] == 66;
      NoDash(rest);
      FiveDashes(rest);
      if n >= 15 {
        assert rest[10..] == Blurb(kind)[..n - 15];
        LabelCut(kind, n - 15);
      }
    }
  }

  /** With its label, it is; what is left is the end of the line, if there is any. */
  lemma HeaderSeen(kind: Kind, n: nat)
    requires |HeaderLabel(kind)| <= n <= |Begin(kind)|
    ensures DetectHeader(Begin(kind)[..n]) == Some((Block(kind), n))
  {
    hide Blurb, DashPrefix, DashLength, DetectLabel;
    HeaderParts(kind);
    var dashes := DASHES[..n - |HeaderLabel(kind)|];
    var rest := Ascii("BEGIN PGP ") + (Blurb(kind) + dashes);
    assert Begin(kind)[..n] == DASHES + rest;
    assert rest[0] == Ascii("BEGIN PGP ")[0] == 66;
    NoDash(rest);
    FiveDashes(rest);
    BlurbsDiffer(kind, dashes);
    AllDashes(|dashes|, dashes);
    assert rest[10..] == Blurb(kind) + dashes && rest[10 + |Blurb(kind)|..] == dashes;
  }

  lemma NothingToParse(first: bool)
    ensures ParseBlock([], first) == HeaderBlock([], []) && AfterHeaderLine([]) == []
  {
    hide ParseBlock, RoleOf, LineOf;
    NoLine(first);
    ParseUnfold([], first);
  }

  lemma NoLine(first: bool)
    ensures LineOf([]) == [] && RoleOf([], first) == Last(0)
  {
    assert ValidUtf8([]) && Chomp([]) == [] && Colon([]) == 0 && TrimStart([]) == [];
  }

  /** A line that is neither a key and a value nor blank; as the first of the block, it is taken for the body. */
  predicate LooksLikeBody(line: Octets) {
    ValidUtf8(line) && Colon(line) == |line| && TrimStart(line) != []
  }

  lemma RoleOfPart(line: Octets, first: bool)
    requires NEWLINE !in line
    ensures var role := RoleOf(line, first);
            if first && LooksLikeBody(line) then role == Last(0) else role.Last? ==> role.consumed == |line|
  {
    hide Colon, ValidUtf8, TrimStart;
    assert line != [] ==> line[|line| - 1] in line;
    assert |line| >= 2 ==> line[|line| - 2..][1] == line[|line| - 1];
    assert Chomp(line) == line;
  }

  lemma PartIsLine(line: Octets)
    requires NEWLINE !in line
    ensures LineOf(line) == line && Dropped(line, 0) == line && Dropped(line, |line|) == []
  {
    hide ReaderLoops.Until;
    ReaderLoops.UntilIsUnique(line, [NEWLINE], |line|);
  }

  /** A block of one line without its end. */
  lemma ParsePart(line: Octets, first: bool)
    requires NEWLINE !in line
    ensures var block, role := ParseBlock(line, first), RoleOf(line, first);
            if role.Last? then block == HeaderBlock([], Dropped(line, role.consumed)) else block.after == []
  {
    hide ParseBlock, RoleOf, LineOf, Extended, Dropped;
    PartIsLine(line);
    ParseUnfold(line, first);
    NothingToParse(false);
  }

  /** A line that the text ends with. */
  lemma LineCut(line: Octets, first: bool)
    requires NEWLINE !in line
    ensures ParseBlock(line, first).after == if first && LooksLikeBody(line) then line else []
    ensures first && LooksLikeBody(line) ==> ParseBlock(line, first).headers == []
  {
    hide ParseBlock, RoleOf, LineOf, LooksLikeBody, Dropped;
    PartIsLine(line);
    RoleOfPart(line, first);
    ParsePart(line, first);
  }

  /** The cut is in the key of the first header. */
  predicate IsKeyCut(headers: Headers, m: nat) {
    headers != [] && m < |HeaderLine(headers[0])| && LooksLikeBody(HeaderLine(headers[0])[..m])
  }

  /** A header block is cut in its first line, or behind it. */
  lemma BlockParts(headers: Headers, m: nat)
    requires SingleLines(headers) && headers != [] && m <= |HeaderLines(headers)|
    ensures NEWLINE !in headers[0].0 && NEWLINE !in headers[0].1 && SingleLines(headers[1..])
    ensures var line, part := HeaderLine(headers[0]), HeaderLines(headers)[..m];
            if m < |line| then part == line[..m] && NEWLINE !in part
            else m - |line| <= |HeaderLines(headers[1..])| && part == line + HeaderLines(headers[1..])[..m - |line|]
  {
    hide HeaderLine;
    var h := headers[0];
    var line := HeaderLine(h);
    assert h in headers && forall x :: x in headers[1..] ==> x in headers;
    HeaderLineParts(h);
    assert line[..|line| - 1] == h.0 + [58, 32] + h.1;
    if m < |line| {
      assert forall i :: 0 <= i < m ==> line[..m][i] == line[..|line| - 1][i];
    }
  }

  lemma BlockStep(headers: Headers, m: nat, first: bool)
    requires SingleLines(headers) && headers != [] && m <= |HeaderLines(headers)|
    requires var rest := m - |HeaderLine(headers[0])|;
             0 <= rest <= |HeaderLines(headers[1..])| ==>
               ParseBlock(HeaderLines(headers[1..])[..rest], false).after == []
    ensures var part := HeaderLines(headers)[..m];
            ParseBlock(part, first).after == if first && IsKeyCut(headers, m) then part else []
  {
    hide ParseBlock, LooksLikeBody, HeaderLine, HeaderLines, SingleLines, Representable;
    BlockParts(headers, m);
    var line := HeaderLine(headers[0]);
    if m < |line| {
      LineCut(line[..m], first);
    } else {
      WrittenLine(headers[0], HeaderLines(headers[1..])[..m - |line|], first);
    }
  }

  /** A header block that is cut off ends with the text, unless its first line is taken for the body. */
  lemma {:induction false} BlockCut(headers: Headers, m: nat, first: bool)
    requires SingleLines(headers) && m <= |HeaderLines(headers)|
    ensures var part := HeaderLines(headers)[..m];
            ParseBlock(part, first).after == if first && IsKeyCut(headers, m) then part else []
    decreases |headers|
  {
    hide ParseBlock, HeaderLine, HeaderLines, SingleLines, IsKeyCut;
    if headers == [] {
      EmptyBlock(headers, m, first);
    } else {
      BlockParts(headers, m);
      var rest := m - |HeaderLine(headers[0])|;
      if rest >= 0 {
        BlockCut(headers[1..], rest, false);
      }
      BlockStep(headers, m, first);
    }
  }

  lemma EmptyBlock(headers: Headers, m: nat, first: bool)
    requires headers == [] && m <= |HeaderLines(headers)|
    ensures ParseBlock(HeaderLines(headers)[..m], first).after == [] && !IsKeyCut(headers, m)
  {
    hide ParseBlock;
    NothingToParse(first);
  }

  /** What is left for the body of a preamble that is cut off behind its first `n` octets. */
  function Remnant(kind: Kind, headers: Headers, n: nat): Octets
    requires n < |Preamble(kind, headers)|
  {
    if n <= |Begin(kind)| then [] else ParseBlock(HeaderLines(headers)[..n - |Begin(kind)| - 1], true).after
  }

  /** Without line breaks in headers, that is nothing, except for a cut in the key of the first header. */
  lemma RemnantIs(kind: Kind, headers: Headers, n: nat)
    requires n < |Preamble(kind, headers)| && SingleLines(headers)
    ensures var m := n - |Begin(kind)| - 1;
            Remnant(kind, headers, n) == if m >= 0 && IsKeyCut(headers, m) then HeaderLine(headers[0])[..m] else []
  {
    hide ParseBlock, HeaderLines, LooksLikeBody, HeaderLine, Begin, SingleLines;
    var m := n - |Begin(kind)| - 1;
    if m >= 0 {
      BlockCut(headers, m, true);
      if headers != [] {
        BlockParts(headers, m);
      }
    }
  }

  /** A preamble that is cut off opens exactly if its label is complete. */
  lemma PreambleCut(kind: Kind, headers: Headers, n: nat)
    requires n < |Preamble(kind, headers)|
    ensures var opening := Open(Preamble(kind, headers)[..n], Some(kind));
            && (opening.Some? <==> n >= |HeaderLabel(kind)|)
            && (opening.Some? ==> opening.value.kind == kind && opening.value.text == Remnant(kind, headers, n))
  {
    hide DetectHeader, ParseBlock, AfterHeaderLine, HeaderLabel, HeaderLines, Begin;
    HeaderParts(kind);
    var begin, s, m := Begin(kind), Preamble(kind, headers)[..n], n - |Begin(kind)| - 1;
    if m < 0 {
      assert s == begin[..n];
      PartOfBegin(kind, n);
    } else {
      var part := HeaderLines(headers)[..m];
      assert s == begin + ([NEWLINE] + part);
      PreambleDetected(kind, [NEWLINE] + part);
      EndOfHeaderLine(part);
    }
  }

  lemma PartOfBegin(kind: Kind, n: nat)
    requires n <= |Begin(kind)|
    ensures Open(Begin(kind)[..n], Some(kind)) ==
            if n < |HeaderLabel(kind)| then None else Some(Opening(kind, [], []))
  {
    hide DetectHeader, ParseBlock, AfterHeaderLine, HeaderLabel, Begin;
    HeaderDetected(kind, []);
    NothingToParse(true);
    assert Take(Begin(kind)[..n], HEADER_LOOKAHEAD) == Begin(kind)[..n];
    if n < |HeaderLabel(kind)| {
      HeaderCut(kind, n);
    } else {
      HeaderSeen(kind, n);
    }
  }

  // ----- What is read of a remnant

  /** A read of `room` octets takes the text for data, or for the end of the armor. */
  predicate Shows(kind: Kind, text: Octets, room: nat) {
    var decoded := Decode(WindowData(text, room));
    decoded.Valid? && (decoded.data != [] || FooterOf(kind, text).Some?)
  }

  /** Some read does; larger ones than these see no more of the text. */
  predicate Misleads(kind: Kind, text: Octets) {
    exists room :: 0 < room <= |text| + 1 && Shows(kind, text, room)
  }

  lemma LargestWindow(text: Octets, room: nat)
    requires room > |text|
    ensures ToRead(room) >= |text| && MaxData(room) / 4 * 4 >= |text|
  {
    assert EncodedSize(room) >= room;
    assert room / 3 * 3 + 2 >= room;
  }

  lemma SameWindow(text: Octets, room: nat)
    requires room > |text|
    ensures WindowData(text, room) == Quads(Stripped(text))
  {
    hide Visible, Quads, ToRead, MaxData;
    LargestWindow(text, room);
    assert Take(text, ToRead(room)) == text;
    VisibleNoLonger(text, 0, 0);
    var quads := Quads(Stripped(text));
    assert quads[..|quads|] == quads;
  }

  lemma MisleadsIff(kind: Kind, text: Octets)
    ensures Misleads(kind, text) <==> exists room: nat :: room > 0 && Shows(kind, text, room)
  {
    hide WindowData, FooterOf, Decode;
    forall room: nat | room > 0 && Shows(kind, text, room) ensures Misleads(kind, text) {
      if room > |text| + 1 {
        SameWindow(text, room);
        SameWindow(text, |text| + 1);
        assert Shows(kind, text, |text| + 1);
      }
    }
  }

  /** Text that does not mislead yields nothing but an error. */
  lemma {:induction false} RunQuiet(s: Stand, kind: Kind, rooms: seq<nat>)
    requires s.Inside? && s.kind == Some(kind) && s.buffer == [] && !Misleads(kind, s.text) && Positive(rooms)
    ensures Run(s, Some(kind), rooms) == Outcome([], false, rooms != [])
    decreases |rooms|
  {
    hide WindowData, FooterOf, Decode, Misleads, Run, EndOf;
    if rooms == [] {
      RunNone(s, Some(kind));
    } else {
      MisleadsIff(kind, s.text);
      assert !Shows(kind, s.text, rooms[0]);
      RunUnfold(s, Some(kind), rooms);
      var next := Within(s, rooms[0]).next;
      if next.Over? {
        RunOver(next, Some(kind), rooms[1..]);
      } else {
        RunQuiet(s, kind, rooms[1..]);
      }
    }
  }

  /** What is read is a prefix of the data, and all of it if an empty read marks the end. */
  predicate IsHonest(data: Octets, o: Outcome) {
    o.out <= data && (o.ended ==> o.out == data)
  }

  /** Text that misleads yields octets that are not there, or an end that is none. */
  lemma RunMisled(s: Stand, kind: Kind, room: nat)
    requires s.Inside? && s.kind == Some(kind) && s.buffer == [] && room > 0 && Shows(kind, s.text, room)
    ensures var o := Run(s, Some(kind), [room]); !IsHonest([], o) || !IsHonest([0], o)
  {
    hide WindowData, FooterOf, Decode, Run;
    FirstRead(s, Some(kind), [room]);
  }

  /** Text without a quad yields nothing, and ends exactly if it is a footer. */
  lemma RunOfTail(s: Stand, kind: Kind, rooms: seq<nat>)
    requires s.Inside? && s.kind == Some(kind) && s.buffer == [] && Stops(s.text) && Positive(rooms) && rooms != []
    ensures var footer := FooterOf(kind, s.text); Run(s, Some(kind), rooms) == Outcome([], footer.Some?, footer.None?)
  {
    hide FooterOf, Run, Stops, Within, Stripped, Encode;
    EmptyStripped();
    EncodeUnfold([]);
    assert [] + s.text == s.text;
    LastStep(s, [], s.text, [], rooms[0]);
    RunUnfold(s, Some(kind), rooms);
    RunOver(Within(s, rooms[0]).next, Some(kind), rooms[1..]);
  }

  lemma EmptyIsQuiet(kind: Kind)
    ensures !Misleads(kind, [])
  {
    hide FooterOf, WindowData, Decode;
    forall room: nat | room > 0 ensures !Shows(kind, [], room) {
      SameWindow([], room);
      EmptyStripped();
      FewHaveNoQuad([]);
      DecodeIff([], []);
      EncodeUnfold([]);
      NoSpaceNoFooter(kind, []);
    }
  }

  // ----- Armored text that is cut off

  /** What reads make of the first `n` octets of armored text. */
  function CutRead(
    kind: Kind, headers: Headers, profile: Option<Profile>, data: Octets, n: nat, rooms: seq<nat>): Outcome
  {
    Run(Outside(Take(Armored(kind, headers, profile, data), n)), Some(kind), rooms)
  }

  /** The cut is in the headers, and what is left of them misleads. */
  predicate IsMisleading(kind: Kind, headers: Headers, n: nat) {
    n < |Preamble(kind, headers)| && Misleads(kind, Remnant(kind, headers, n))
  }

  /**
   What a cut promises: reading ends without an error exactly if the text is cut
   behind the label of the footer line, and then with all of the data.
   */
  predicate IsFaithful(kind: Kind, headers: Headers, profile: Option<Profile>, data: Octets, n: nat, rooms: seq<nat>,
                       o: Outcome)
  {
    var complete := n + 6 >= |Armored(kind, headers, profile, data)|;
    && IsHonest(data, o)
    && (o.ended ==> complete) && (o.failed ==> !complete)
    && (|rooms| > |data| ==> o.ended || o.failed)
  }

  lemma PreambleTaken(kind: Kind, headers: Headers, profile: Option<Profile>, data: Octets, n: nat)
    requires n < |Preamble(kind, headers)|
    ensures Take(Armored(kind, headers, profile, data), n) == Preamble(kind, headers)[..n]
    ensures n + 6 < |Armored(kind, headers, profile, data)|
  {
    hide Preamble, Wrapped, Encode, Trailer;
    var trailer := Trailer(kind, profile, data);
    assert trailer[..|trailer|] == trailer;
    TrailerCut(kind, profile, data, |trailer|);
  }

  /** What is read of the headers does not depend on the data. */
  lemma PreambleRead(kind: Kind, headers: Headers, profile: Option<Profile>, data: Octets, n: nat, rooms: seq<nat>)
    returns (s: Stand)
    requires n < |Preamble(kind, headers)|
    ensures s == Opened(Outside(Preamble(kind, headers)[..n]), Some(kind))
    ensures s.Inside? <==> n >= |HeaderLabel(kind)|
    ensures s.Inside? ==> s.kind == Some(kind) && s.buffer == [] && s.text == Remnant(kind, headers, n)
    ensures s.Inside? ==> CutRead(kind, headers, profile, data, n, rooms) == Run(s, Some(kind), rooms)
    ensures !s.Inside? ==> CutRead(kind, headers, profile, data, n, rooms) == Outcome([], false, rooms != [])
  {
    hide Preamble, Remnant, HeaderLabel, Open, Run, Armored;
    PreambleTaken(kind, headers, profile, data, n);
    PreambleCut(kind, headers, n);
    var start := Outside(Preamble(kind, headers)[..n]);
    s := Opened(start, Some(kind));
    RunOpens(start, Some(kind), rooms);
    if s.Outside? {
      RunOutside(start, Some(kind), rooms);
    }
  }

  /** A cut in the headers that does not mislead yields nothing but an error. */
  lemma HeadersCut(kind: Kind, headers: Headers, profile: Option<Profile>, data: Octets, n: nat, rooms: seq<nat>)
    requires n < |Preamble(kind, headers)| && !IsMisleading(kind, headers, n) && Positive(rooms)
    ensures IsFaithful(kind, headers, profile, data, n, rooms, CutRead(kind, headers, profile, data, n, rooms))
  {
    hide Preamble, Remnant, Run, Armored, Misleads, CutRead, HeaderLabel;
    PreambleTaken(kind, headers, profile, data, n);
    var s := PreambleRead(kind, headers, profile, data, n, rooms);
    if s.Inside? {
      RunQuiet(s, kind, rooms);
    }
  }

  /** The parts of the text, `tail` being the part that is not read as the body. */
  ghost predicate AreParts(kind: Kind, data: Octets, complete: bool, body: Octets, tail: Octets, k: nat) {
    && k <= |data| && Stripped(body) == Encode(data[..k]) && Nourished(body, WINDOW) && Stops(tail)
    && (FooterOf(kind, tail).Some? <==> complete)
    && (complete ==> k == |data|)
  }

  /** What is left of the body and the trailer, if they are cut off. */
  lemma BodyParts(kind: Kind, profile: Option<Profile>, data: Octets, m: nat)
    returns (body: Octets, tail: Octets, k: nat)
    requires m <= |Wrapped(Encode(data)) + Trailer(kind, profile, data)|
    ensures var all := Wrapped(Encode(data)) + Trailer(kind, profile, data);
            body + tail == all[..m] && AreParts(kind, data, m + 6 >= |all|, body, tail, k)
  {
    hide Stripped, Encode, Nourished, Stops, FooterOf, Trailer, Wrapped;
    var whole, trailer := Wrapped(Encode(data)), Trailer(kind, profile, data);
    assert trailer[..|trailer|] == trailer;
    TrailerCut(kind, profile, data, |trailer|);
    if m < |whole| {
      var c;
      c, k := BodyCut(kind, data, m);
      body, tail := whole[..m][..c], whole[..m][c..];
    } else {
      var t := m - |whole|;
      body, tail, k := whole, trailer[..t], |data|;
      assert data[..k] == data && whole[..|whole|] == whole;
      WrittenBody(data);
      WrittenNourishes(data, |whole|, WINDOW);
      TrailerStops(kind, profile, data, t);
      TrailerCut(kind, profile, data, t);
    }
  }

  /** What is read of these parts. */
  lemma RunOfParts(
    s: Stand, kind: Kind, data: Octets, complete: bool, body: Octets, tail: Octets, k: nat, rooms: seq<nat>)
    requires s.Inside? && s.kind == Some(kind) && s.buffer == [] && s.text == body + tail && Positive(rooms)
    requires AreParts(kind, data, complete, body, tail, k)
    ensures var o := Run(s, Some(kind), rooms);
            && IsHonest(data, o) && (o.ended ==> complete) && (o.failed ==> !complete)
            && (|rooms| > |data| ==> o.ended || o.failed)
  {
    hide Stripped, Encode, Nourished, Stops, FooterOf, Run;
    assert data[..k][0..] == data[..k];
    var at := RunOfBody(s, Some(kind), body, tail, data[..k], rooms, WINDOW);
    var o := Run(s, Some(kind), rooms);
    assert complete ==> data[..k] == data;
    if o.ended || o.failed {
      assert data[..k][|o.out|..] == [];
      EncodeUnfold([]);
      FooterBehindSpace(kind, body[at..], tail);
    }
  }

  /** A cut behind the headers. */
  lemma TextCut(kind: Kind, headers: Headers, profile: Option<Profile>, data: Octets, n: nat, rooms: seq<nat>)
    requires n >= |Preamble(kind, headers)| && LeftOver(headers) == [] && Positive(rooms)
    ensures IsFaithful(kind, headers, profile, data, n, rooms, CutRead(kind, headers, profile, data, n, rooms))
  {
    hide Preamble, Wrapped, Encode, Trailer, Run, AreParts, LeftOver, FoundHeaders, IsHonest, Positive;
    var all, preamble := Armored(kind, headers, profile, data), Preamble(kind, headers);
    var rest := Wrapped(Encode(data)) + Trailer(kind, profile, data);
    assert all == preamble + rest;
    var m := Min(n, |all|) - |preamble|;
    var body, tail, k := BodyParts(kind, profile, data, m);
    assert Take(all, n) == preamble + rest[..m];
    PreambleOpens(kind, headers, rest[..m], Some(kind), rooms);
    var s := Inside(Some(kind), FoundHeaders(headers), rest[..m], []);
    RunOfParts(s, kind, data, m + 6 >= |rest|, body, tail, k, rooms);
  }

  /**
   For all data and reads, what is read of the first `n` octets of armored text is a
   prefix of the data, and all of it if reading ends without an error, exactly if the cut
   does not leave a part of the headers that misleads the reader.
   */
  lemma CutIff(kind: Kind, headers: Headers, profile: Option<Profile>, n: nat)
    requires n < |Preamble(kind, headers)| || LeftOver(headers) == []
    ensures (forall data, rooms :: Positive(rooms) ==> IsHonest(data, CutRead(kind, headers, profile, data, n, rooms)))
       <==> !IsMisleading(kind, headers, n)
  {
    hide Preamble, Remnant, LeftOver, Misleads, CutRead, Armored;
    if IsMisleading(kind, headers, n) {
      CutMisleads(kind, headers, profile, n);
    } else {
      forall data, rooms | Positive(rooms) ensures IsHonest(data, CutRead(kind, headers, profile, data, n, rooms)) {
        if n < |Preamble(kind, headers)| {
          HeadersCut(kind, headers, profile, data, n, rooms);
        } else {
          TextCut(kind, headers, profile, data, n, rooms);
        }
      }
    }
  }

  lemma CutMisleads(kind: Kind, headers: Headers, profile: Option<Profile>, n: nat)
    requires IsMisleading(kind, headers, n)
    ensures exists data, rooms :: Positive(rooms) && !IsHonest(data, CutRead(kind, headers, profile, data, n, rooms))
  {
    hide Preamble, Remnant, Shows, CutRead, Run, HeaderLabel, IsHonest;
    var text := Remnant(kind, headers, n);
    var room :| 0 < room <= |text| + 1 && Shows(kind, text, room);
    var s := PreambleRead(kind, headers, profile, [], n, [room]);
    var _ := PreambleRead(kind, headers, profile, [0], n, [room]);
    if !s.Inside? {
      NoRemnant(kind, headers, n);
      EmptyIsQuiet(kind);
    } else {
      RunMisled(s, kind, room);
      assert Positive([room]);
    }
  }

  lemma NoRemnant(kind: Kind, headers: Headers, n: nat)
    requires n < |HeaderLabel(kind)| && n < |Preamble(kind, headers)|
    ensures Remnant(kind, headers, n) == []
  {
    hide HeaderLabel, Begin, ParseBlock;
    HeaderParts(kind);
  }

  /** Reads armored text of which only the first `n` octets are left. */
  method ReadCut(kind: Kind, headers: Headers, profile: Option<Profile>, data: Octets, n: nat,
                 pieces: seq<nat>, chunkSize: nat, rooms: seq<nat>, bufSize: nat)
    returns (out: Octets, ended: bool, failed: bool)
    requires (n < |Preamble(kind, headers)| || LeftOver(headers) == []) && Positive(rooms)
    ensures Outcome(out, ended, failed) == CutRead(kind, headers, profile, data, n, rooms)
    ensures !IsMisleading(kind, headers, n) ==>
              IsFaithful(kind, headers, profile, data, n, rooms, Outcome(out, ended, failed))
  {
    hide Armored, Preamble, Pending, ErrorFree, Pieces, Run, Open, IsMisleading, IsFaithful, LeftOver;
    var text := Take(Armored(kind, headers, profile, data), n);
    PiecesPending(text, pieces);
    var found;
    out, ended, failed, found := ReadAll(Pieces(text, pieces), chunkSize, Some(kind), rooms, bufSize);
    if !IsMisleading(kind, headers, n) {
      if n < |Preamble(kind, headers)| {
        HeadersCut(kind, headers, profile, data, n, rooms);
      } else {
        TextCut(kind, headers, profile, data, n, rooms);
      }
    }
  }

  // ----- Cuts that mislead

  /** What is left of a key of which the cut leaves `part`. */
  lemma KeyCut(kind: Kind, key: Octets, value: Octets, m: nat)
    requires m <= |key| && NEWLINE !in key && LooksLikeBody(key[..m])
    ensures var n := |Begin(kind)| + 1 + m;
            n < |Preamble(kind, [(key, value)])| && Remnant(kind, [(key, value)], n) == key[..m]
  {
    hide ParseBlock, LooksLikeBody, Begin;
    var headers: Headers := [(key, value)];
    assert headers[1..] == [];
    HeaderLineParts(headers[0]);
    assert HeaderLines(headers)[..m] == key[..m];
    LineCut(key[..m], true);
  }

  lemma {:induction false} AsciiIsUtf8(s: Octets)
    requires forall i :: 0 <= i < |s| ==> s[i] < 128
    ensures ValidUtf8(s)
    decreases |s|
  {
    if s != [] {
      AsciiIsUtf8(s[1..]);
    }
  }

  lemma {:induction false} NoColon(line: Octets)
    requires 58 !in line
    ensures Colon(line) == |line|
    decreases |line|
  {
    if line != [] {
      assert |line| >= 2 ==> line[..2][0] == line[0];
      NoColon(line[1..]);
    }
  }

  lemma WordLooksLikeBody(line: Octets)
    requires line != [] && 32 < line[0] && 58 !in line && forall i :: 0 <= i < |line| ==> line[i] < 128
    ensures LooksLikeBody(line)
  {
    hide ValidUtf8, Colon;
    AsciiIsUtf8(line);
    NoColon(line);
  }

  /** The first characters of `Comment`, which are base64. */
  const COMM: Octets := [67, 111, 109, 109]
  const DECODED_COMM: Octets := [10, 137, 166]

  lemma CommDecodes()
    ensures Owes(COMM, [], DECODED_COMM, []) && Nourished(COMM, WINDOW)
  {
    hide Stripped, Encode, EncodeQuad, Nourished, Quads;
    StrippedSolid(COMM);
    EncodeUnfold(DECODED_COMM);
    CommQuad();
    assert Flowing(COMM);
    FlowingIsNourished(COMM, WINDOW);
    EmptyStripped();
    FewHaveNoQuad([]);
    assert DECODED_COMM[0..] == DECODED_COMM;
  }

  lemma CommQuad()
    ensures EncodeQuad(DECODED_COMM) == COMM
  {
    hide IsBase64Char, Undigit;
    assert Digit(2) == 67;
    assert Digit(40) == 111;
    assert Digit(38) == 109;
  }

  lemma CommIsRead(s: Stand, kind: Kind)
    requires s.Inside? && s.kind == Some(kind) && s.buffer == [] && s.text == COMM
    ensures Run(s, Some(kind), [1, 1, 1, 1]).out == DECODED_COMM
  {
    hide Nourished, Owes, Run, FooterFor, Stripped, Encode;
    CommDecodes();
    assert COMM + [] == COMM;
    var at := RunOfBody(s, Some(kind), COMM, [], DECODED_COMM, [1, 1, 1, 1], WINDOW);
  }

  lemma CommIsKey(kind: Kind, value: Octets)
    ensures var n := |Begin(kind)| + 5; var headers := [(Ascii("Comment"), value)];
            n < |Preamble(kind, headers)| && Remnant(kind, headers, n) == COMM && n >= |HeaderLabel(kind)|
  {
    hide Remnant, Preamble, Begin, LooksLikeBody, HeaderLabel;
    assert Ascii("Comment")[..4] == COMM;
    WordLooksLikeBody(COMM);
    KeyCut(kind, Ascii("Comment"), value, 4);
    HeaderParts(kind);
  }

  /** A key that is cut off is taken for the body: what is read has nothing to do with the data. */
  method CutHeader(kind: Kind, value: Octets, profile: Option<Profile>, data: Octets, chunkSize: nat, bufSize: nat)
    returns (out: Octets)
    ensures out == DECODED_COMM
  {
    hide Armored, Preamble, Pending, ErrorFree, Pieces, Run, Open, CutRead, Remnant, Ascii, Begin, HeaderLabel;
    hide IsMisleading, IsFaithful, LeftOver;
    var headers, n := [(Ascii("Comment"), value)], |Begin(kind)| + 5;
    CommIsKey(kind, value);
    ghost var s := PreambleRead(kind, headers, profile, data, n, [1, 1, 1, 1]);
    CommIsRead(s, kind);
    var ended, failed;
    out, ended, failed := ReadCut(kind, headers, profile, data, n, [], chunkSize, [1, 1, 1, 1], bufSize);
  }

  lemma FooterIsKey(kind: Kind, value: Octets)
    ensures var n := |Begin(kind)| + 1 + |End(kind)|; var headers := [(End(kind), value)];
            n < |Preamble(kind, headers)| && Remnant(kind, headers, n) == End(kind) && n >= |HeaderLabel(kind)|
  {
    hide Remnant, Preamble, Begin, LooksLikeBody, HeaderLabel, End;
    assert End(kind)[..|End(kind)|] == End(kind);
    EndIsWord(kind);
    WordLooksLikeBody(End(kind));
    KeyCut(kind, End(kind), value, |End(kind)|);
    HeaderParts(kind);
  }

  lemma EndIsWord(kind: Kind)
    ensures End(kind) != [] && End(kind)[0] == 45 && 58 !in End(kind) && NEWLINE !in End(kind)
    ensures forall i :: 0 <= i < |End(kind)| ==> End(kind)[i] < 128
  {
    hide Blurb, Ascii;
    BlurbIsPlain(kind);
    EndIsPlain();
    assert IsPlain(DASHES);
    var s := End(kind);
    assert forall i :: 0 <= i < |s| ==> s[i] in DASHES || s[i] in Ascii("END PGP ") || s[i] in Blurb(kind);
  }

  predicate IsPlain(s: Octets) {
    forall b :: b in s ==> b < 128 && b != 58 && b != NEWLINE
  }

  lemma EndIsPlain()
    ensures IsPlain(Ascii("END PGP "))
  {
  }

  lemma BlurbIsPlain(kind: Kind)
    ensures IsPlain(Blurb(kind))
  {
    match kind
    case Message => assert IsPlain(Ascii("MESSAGE"));
    case PublicKey => assert IsPlain(Ascii("PUBLIC KEY BLOCK"));
    case SecretKey => assert IsPlain(Ascii("PRIVATE KEY BLOCK"));
    case Signature => assert IsPlain(Ascii("SIGNATURE"));
    case File => assert IsPlain(Ascii("ARMORED FILE"));
  }

  lemma FooterIsRead(s: Stand, kind: Kind, rooms: seq<nat>)
    requires s.Inside? && s.kind == Some(kind) && s.buffer == [] && s.text == End(kind)
    requires Positive(rooms) && rooms != []
    ensures Run(s, Some(kind), rooms) == Outcome([], true, false)
  {
    hide Run, End, Stops, DetectFooter, Positive;
    EndStops(kind);
    RunOfTail(s, kind, rooms);
  }

  lemma EndStops(kind: Kind)
    ensures Stops(End(kind)) && FooterOf(kind, End(kind)).Some?
  {
    hide End, Stops, DetectFooter;
    var trailer := Trailer(kind, Some(RFC9580), []);
    assert trailer[..|End(kind)|] == End(kind);
    TrailerStops(kind, Some(RFC9580), [], |End(kind)|);
    TrailerCut(kind, Some(RFC9580), [], |End(kind)|);
  }

  /** A key that looks like a footer is taken for one: reading ends without an error, and with nothing. */
  method CutFooterKey(kind: Kind, value: Octets, profile: Option<Profile>, data: Octets,
                      chunkSize: nat, rooms: seq<nat>, bufSize: nat)
    returns (out: Octets, ended: bool, failed: bool)
    requires Positive(rooms) && rooms != []
    ensures out == [] && ended && !failed
  {
    hide Armored, Preamble, Pending, ErrorFree, Pieces, Run, Open, CutRead, Remnant, End, Begin, HeaderLabel;
    hide IsMisleading, IsFaithful, LeftOver, Positive;
    var headers, n := [(End(kind), value)], |Begin(kind)| + 1 + |End(kind)|;
    FooterIsKey(kind, value);
    ghost var s := PreambleRead(kind, headers, profile, data, n, rooms);
    FooterIsRead(s, kind, rooms);
    out, ended, failed := ReadCut(kind, headers, profile, data, n, [], chunkSize, rooms, bufSize);
  }
}
