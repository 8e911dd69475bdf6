/**
 What the armor reader makes of the text in front of the body: the header line, the
 key-value headers, and the blank line (`initialize` and `read_headers` of
 `openpgp/src/armor.rs`).
 */
module ArmorHeaders {
  import opened Bytes
  import opened Base64Filter
  import opened ArmorText
  import opened ArmorFraming
  import opened Readers
  import opened ReaderLoops

  datatype Role = Unusable | KeyValue(key: Octets, value: Octets) | Last(consumed: nat)

  /** What a line of the header block is; a first line that is no header belongs to the body. */
  function RoleOf(line: Octets, first: bool): (r: Role)
    ensures r.Last? ==> r.consumed <= |line|
    ensures line == [] ==> r.Last?
  {
    if !ValidUtf8(line) then Unusable
    else
      var text := Chomp(line);
      var colon := Colon(text);
      if colon < |text| then KeyValue(TrimStart(text[..colon]), text[colon + 2..])
      else if TrimStart(text) == [] then Last(|line|)
      else if first then Last(0)
      else Unusable
  }

  function Extended(headers: Headers, role: Role): Headers {
    if role.KeyValue? then headers + [(role.key, role.value)] else headers
  }

  /** The headers of a block, and the text behind it. */
  datatype HeaderBlock = HeaderBlock(headers: Headers, after: Octets)

  function LineOf(s: Octets): (line: Octets)
    ensures line <= s
  {
    s[..Through(s, NEWLINE)]
  }

  function ParseBlock(s: Octets, first: bool): HeaderBlock
    decreases |s|
  {
    var role := RoleOf(LineOf(s), first);
    if role.Last? then HeaderBlock([], s[role.consumed..])
    else
      var rest := ParseBlock(s[|LineOf(s)|..], false);
      HeaderBlock(Extended([], role) + rest.headers, rest.after)
  }

  lemma ParseUnfold(s: Octets, first: bool)
    ensures var line := LineOf(s);
            var role := RoleOf(line, first);
            if role.Last? then ParseBlock(s, first) == HeaderBlock([], Dropped(s, role.consumed))
            else
              var rest := ParseBlock(Dropped(s, |line|), false);
              line != [] && ParseBlock(s, first) == HeaderBlock(Extended([], role) + rest.headers, rest.after)
  {
  }

  /** The number of ASCII white space octets at the start of a line. */
  function LeadingSpace(line: Octets): (n: nat)
    ensures n <= |line|
  {
    if line != [] && IsWhitespace(line[0]) then 1 + LeadingSpace(line[1..]) else 0
  }

  /** The text behind the white space at the end of the header line. */
  function AfterHeaderLine(s: Octets): Octets {
    s[LeadingSpace(LineOf(s))..]
  }

  const HEADER_LOOKAHEAD: nat := 128

  datatype Opening = Opening(kind: Kind, headers: Headers, text: Octets)

  predicate IsExpected(label': Label, expected: Option<Kind>) {
    label'.Block? && (expected == None || expected == Some(label'.kind))
  }

  /** What armored text starts with, if it is of the expected kind, and what follows. */
  function Open(s: Octets, expected: Option<Kind>): Option<Opening> {
    var header := DetectHeader(Take(s, HEADER_LOOKAHEAD));
    if header.None? || !IsExpected(header.value.0, expected) then None
    else
      var block := ParseBlock(AfterHeaderLine(Dropped(s, header.value.1)), true);
      Some(Opening(header.value.0.kind, block.headers, block.after))
  }

  // ----- What the writer writes

  lemma HeaderLineParts(h: (Octets, Octets))
    ensures HeaderLine(h) == h.0 + [58, 32] + h.1 + [NEWLINE]
  {
    assert Ascii(": ") == [58, 32];
  }

  lemma LineIs(content: Octets, tail: Octets)
    requires NEWLINE !in content
    ensures var s := content + [NEWLINE] + tail; LineOf(s) == content + [NEWLINE] && Dropped(s, |LineOf(s)|) == tail
  {
    hide Until;
    UntilAfter(content, NEWLINE, tail);
  }

  /** A written header line comes back exactly if a line can represent the header; it never ends the block. */
  lemma RoleOfHeader(h: (Octets, Octets), first: bool)
    ensures !RoleOf(HeaderLine(h), first).Last?
    ensures RoleOf(HeaderLine(h), first) == KeyValue(h.0, h.1) <==> Representable(h)
  {
    hide Colon, TrimStart, Chomp, HeaderLine, ValidUtf8, Representable;
    HeaderParsed(h);
  }

  lemma BlankLine(first: bool)
    ensures RoleOf([NEWLINE], first) == Last(1)
  {
    var line: Octets := [NEWLINE];
    assert line[1..] == [] && ValidUtf8([]);
    assert ValidUtf8(line) && Chomp(line) == [] && TrimStart([]) == [];
  }

  /** One header line of the block. */
  lemma WrittenLine(h: (Octets, Octets), rest: Octets, first: bool)
    requires NEWLINE !in h.0 && NEWLINE !in h.1
    ensures ParseBlock(HeaderLine(h) + rest, first).after == ParseBlock(rest, false).after
    ensures ParseBlock(HeaderLine(h) + rest, first).headers
         == Extended([], RoleOf(HeaderLine(h), first)) + ParseBlock(rest, false).headers
  {
    hide RoleOf, Representable, ParseBlock, LineOf, HeaderLine;
    HeaderLineParts(h);
    LineIs(h.0 + [58, 32] + h.1, rest);
    RoleOfHeader(h, first);
    ParseUnfold(HeaderLine(h) + rest, first);
  }

  lemma LastLine(after: Octets, first: bool)
    ensures ParseBlock([NEWLINE] + after, first) == HeaderBlock([], after)
  {
    hide RoleOf, ParseBlock, LineOf;
    var text := [] + [NEWLINE] + after;
    assert text == [NEWLINE] + after && [] + [NEWLINE] == [NEWLINE];
    LineIs([], after);
    BlankLine(first);
    ParseUnfold(text, first);
  }

  lemma FoundFirst(h: (Octets, Octets), hs: Headers, first: bool, rest: Headers)
    requires |rest| <= |hs|
    ensures var found := Extended([], RoleOf(HeaderLine(h), first)) + rest;
            |found| <= |hs| + 1 && (found == [h] + hs <==> Representable(h) && rest == hs)
  {
    hide RoleOf, HeaderLine, Representable;
    RoleOfHeader(h, first);
    var role := RoleOf(HeaderLine(h), first);
    if role.KeyValue? {
      var found := [(role.key, role.value)] + rest;
      assert found[0] == (role.key, role.value) && found[1..] == rest;
      assert ([h] + hs)[0] == h && ([h] + hs)[1..] == hs;
      assert h == (h.0, h.1);
    }
  }

  /**
   The block that the writer writes stops at the body, and yields the headers exactly
   if lines can represent all of them.
   */
  lemma {:induction false} WrittenBlock(hs: Headers, after: Octets, first: bool)
    requires SingleLines(hs)
    ensures var block := ParseBlock(HeaderLines(hs) + ([NEWLINE] + after), first);
            block.after == after && |block.headers| <= |hs| && (block.headers == hs <==> AllRepresentable(hs))
    decreases |hs|
  {
    hide ParseBlock, Representable, HeaderLine, RoleOf;
    var end := [NEWLINE] + after;
    if hs == [] {
      assert HeaderLines(hs) + end == end;
      LastLine(after, first);
    } else {
      var rest := HeaderLines(hs[1..]) + end;
      assert HeaderLines(hs) + end == HeaderLine(hs[0]) + rest;
      assert hs[0] in hs && forall h :: h in hs[1..] ==> h in hs;
      WrittenLine(hs[0], rest, first);
      WrittenBlock(hs[1..], after, false);
      assert hs == [hs[0]] + hs[1..];
      FoundFirst(hs[0], hs[1..], first, ParseBlock(rest, false).headers);
      assert AllRepresentable(hs) <==> Representable(hs[0]) && AllRepresentable(hs[1..]);
    }
  }

  // ----- Headers that are not single lines

  predicate AllRepresentable(hs: Headers) {
    forall h :: h in hs ==> Representable(h)
  }

  /** The text ends with an empty line. */
  predicate EndsBlank(s: Octets) {
    s != [] && s[|s| - 1] == NEWLINE && (|s| > 1 ==> s[|s| - 2] == NEWLINE)
  }

  lemma LineBefore(s: Octets, after: Octets)
    requires EndsBlank(s)
    ensures LineOf(s + after) == LineOf(s) && LineOf(s) != []
    ensures |LineOf(s)| < |s| ==> EndsBlank(s[|LineOf(s)|..])
    ensures |LineOf(s)| == |s| ==> s == [NEWLINE]
  {
    hide Until;
    var n := Until(s, [NEWLINE]);
    assert s[|s| - 1] in [NEWLINE];
    if n >= |s| {
      assert false;
    }
    assert forall i :: 0 <= i < n ==> (s + after)[i] == s[i];
    UntilIsUnique(s + after, [NEWLINE], n);
    assert LineOf(s) == s[..n + 1] && LineOf(s + after) == s[..n + 1];
    assert |s| > 1 ==> s[|s| - 2] in [NEWLINE];
  }

  /** A block ends with its empty line at the latest, whatever follows. */
  lemma {:induction false} ParseBefore(s: Octets, after: Octets, first: bool)
    requires EndsBlank(s)
    ensures var block := ParseBlock(s, first);
            ParseBlock(s + after, first) == HeaderBlock(block.headers, block.after + after)
    decreases |s|
  {
    hide ParseBlock, RoleOf, LineOf, EndsBlank;
    LineBefore(s, after);
    ParseUnfold(s, first);
    ParseUnfold(s + after, first);
    var line := LineOf(s);
    var role := RoleOf(line, first);
    if role.Last? {
      assert Dropped(s + after, role.consumed) == Dropped(s, role.consumed) + after;
    } else {
      BlankLine(first);
      assert |line| == |s| ==> line == [NEWLINE];
      ParseBefore(s[|line|..], after, false);
      assert Dropped(s, |line|) == s[|line|..] && Dropped(s + after, |line|) == s[|line|..] + after;
    }
  }

  lemma {:induction false} BlockEndsBlank(hs: Headers)
    ensures EndsBlank(HeaderLines(hs) + [NEWLINE])
    decreases |hs|
  {
    if hs != [] {
      BlockEndsBlank(hs[1..]);
      var line, rest := HeaderLine(hs[0]), HeaderLines(hs[1..]) + [NEWLINE];
      assert HeaderLines(hs) + [NEWLINE] == line + rest;
      assert line[|line| - 1] == NEWLINE;
    }
  }

  /** The headers that the reader finds in a written block. */
  function FoundHeaders(hs: Headers): Headers {
    ParseBlock(HeaderLines(hs) + [NEWLINE], true).headers
  }

  /** What the reader leaves of a written block, and takes for the start of the body. */
  function LeftOver(hs: Headers): Octets {
    ParseBlock(HeaderLines(hs) + [NEWLINE], true).after
  }

  /** Nothing is left of headers without line breaks. */
  lemma NothingLeftOver(hs: Headers)
    requires SingleLines(hs)
    ensures LeftOver(hs) == []
  {
    hide ParseBlock, HeaderLines, AllRepresentable;
    WrittenBlock(hs, [], true);
    assert [NEWLINE] + [] == [NEWLINE];
  }

  lemma RoleIsSingle(line: Octets, first: bool)
    requires NEWLINE !in Chomp(line)
    ensures SingleLines(Extended([], RoleOf(line, first)))
  {
    hide Chomp, Colon, ValidUtf8, TrimStart;
    var role := RoleOf(line, first);
    if role.KeyValue? {
      var text := Chomp(line);
      assert forall b :: b in text[..Colon(text)] || b in text[Colon(text) + 2..] ==> b in text;
      TrimStartWithin(text[..Colon(text)]);
    }
  }

  lemma {:induction false} TrimStartWithin(d: Octets)
    ensures forall b :: b in TrimStart(d) ==> b in d
    decreases |d|
  {
    var n := SpaceLength(d);
    if n > 0 {
      TrimStartWithin(d[n..]);
    }
  }

  lemma LineIsSingle(s: Octets)
    ensures NEWLINE !in Chomp(LineOf(s))
  {
    hide Until;
    var line, n := LineOf(s), Until(s, [NEWLINE]);
    assert forall i :: 0 <= i < n ==> s[i] !in [NEWLINE];
    assert forall i :: 0 <= i < |Chomp(line)| ==> Chomp(line)[i] == s[i];
    assert n < |s| ==> line[|line| - 1] == NEWLINE;
    assert |line| >= 2 && line[|line| - 2..] == [13, 10] ==> line[|line| - 2..][1] == line[|line| - 1];
  }

  /** The reader never finds a header with a line break. */
  lemma {:induction false} FoundAreSingle(s: Octets, first: bool)
    ensures SingleLines(ParseBlock(s, first).headers)
    decreases |s|
  {
    hide ParseBlock, RoleOf, LineOf, Extended;
    ParseUnfold(s, first);
    var line := LineOf(s);
    if !RoleOf(line, first).Last? {
      FoundAreSingle(Dropped(s, |line|), false);
      LineIsSingle(s);
      RoleIsSingle(line, first);
    }
  }

  /** Headers come back exactly if they have no line breaks and lines can represent them. */
  lemma FoundIff(hs: Headers)
    ensures FoundHeaders(hs) == hs <==> SingleLines(hs) && AllRepresentable(hs)
  {
    hide ParseBlock, HeaderLines, AllRepresentable;
    FoundAreSingle(HeaderLines(hs) + [NEWLINE], true);
    if SingleLines(hs) {
      WrittenBlock(hs, [], true);
      assert [NEWLINE] + [] == [NEWLINE];
    }
  }

  lemma EndOfHeaderLine(block: Octets)
    ensures AfterHeaderLine([NEWLINE] + block) == block
  {
    hide Until;
    var s := [] + [NEWLINE] + block;
    assert s == [NEWLINE] + block && [] + [NEWLINE] == [NEWLINE];
    LineIs([], block);
    assert [NEWLINE][1..] == [];
  }

  /** The look-ahead shows the whole header line of a written preamble. */
  lemma PreambleDetected(k: Kind, rest: Octets)
    requires rest != [] ==> rest[0] == NEWLINE
    ensures DetectHeader(Take(Begin(k) + rest, HEADER_LOOKAHEAD)) == Some((Block(k), |Begin(k)|))
    ensures Dropped(Begin(k) + rest, |Begin(k)|) == rest
  {
    hide DetectHeader, Begin;
    var text := Begin(k) + rest;
    HeaderDetected(k, []);
    var seen := Take(text, HEADER_LOOKAHEAD);
    assert seen == Begin(k) + seen[|Begin(k)|..];
    assert seen[|Begin(k)|..] != [] ==> seen[|Begin(k)|..][0] == NEWLINE;
    HeaderDetected(k, seen[|Begin(k)|..]);
  }

  /** Written text opens with its kind and what is found of its headers, and goes on with what is left of them. */
  lemma WrittenOpens(k: Kind, hs: Headers, after: Octets, expected: Option<Kind>)
    requires expected == None || expected == Some(k)
    ensures Open(Preamble(k, hs) + after, expected) == Some(Opening(k, FoundHeaders(hs), LeftOver(hs) + after))
  {
    hide DetectHeader, ParseBlock, AfterHeaderLine, HeaderLines, Begin, EndsBlank;
    var lines := HeaderLines(hs) + [NEWLINE];
    var rest := [NEWLINE] + (lines + after);
    assert Preamble(k, hs) + after == Begin(k) + rest;
    PreambleDetected(k, rest);
    EndOfHeaderLine(lines + after);
    BlockEndsBlank(hs);
    ParseBefore(lines, after, true);
  }
}
