/**
 The text loop of `read_clearsigned_message` in `openpgp/src/armor.rs`, on unquoted
 messages: it undoes the dash escaping of section 7.2 of RFC 9580, up to the
 signature marker.
 */
module Cleartext {
  import opened Bytes
  import opened Base64Filter
  import opened ArmorText
  import opened ArmorFraming
  import opened GenericReader
  import opened Readers
  import opened ReaderLoops

  const CR: byte := 13

  function FirstLine(s: Octets): (n: nat)
    ensures n <= |s| && (s != [] ==> n > 0)
  {
    Through(s, NEWLINE)
  }

  /** More than two octets of dashes and the words that introduce a signature. */
  predicate IsMarker(line: Octets) {
    DashPrefix(line) > 2 && Ascii("BEGIN PGP SIGNATURE") <= line[DashPrefix(line)..]
  }

  function Undash(line: Octets): Octets {
    if [45, 32] <= line then line[2..] else line
  }

  predicate EndsWithCrLf(line: Octets) {
    |line| >= 2 && line[|line| - 2..] == [CR, NEWLINE]
  }

  predicate IsBlank(b: byte) {
    b == 32 || b == 9
  }

  function TrimEnd(s: Octets): (r: Octets)
    ensures r <= s
    ensures r == [] || !IsBlank(r[|r| - 1])
    ensures forall i :: |r| <= i < |s| ==> IsBlank(s[i])
  {
    if s != [] && IsBlank(s[|s| - 1]) then TrimEnd(s[..|s| - 1]) else s
  }

  /** A line as it goes into the literal text. */
  function Unescaped(line: Octets): (r: Octets)
    ensures r != []
  {
    var l := Undash(line);
    var crlf := EndsWithCrLf(l);
    var content := l[..Max(|l| - if crlf then 2 else 1, 0)];
    TrimEnd(content) + if crlf then [CR, NEWLINE] else [NEWLINE]
  }

  /** The text up to the marker. */
  function Text(s: Octets): Octets
    decreases |s|
  {
    if s == [] || IsMarker(s[..FirstLine(s)]) then []
    else Unescaped(s[..FirstLine(s)]) + Text(s[FirstLine(s)..])
  }

  /** What follows the marker line. */
  function AfterMarker(s: Octets): Octets
    decreases |s|
  {
    if s == [] then []
    else if IsMarker(s[..FirstLine(s)]) then s[FirstLine(s)..]
    else AfterMarker(s[FirstLine(s)..])
  }

  /** The text without the newline that separates it from the marker. */
  function Chopped(text: Octets): Octets {
    if text == [] then []
    else
      var t := text[..|text| - 1];
      if t != [] && t[|t| - 1] == CR then t[..|t| - 1] else t
  }

  lemma TextUnfold(s: Octets)
    ensures s == [] ==> Text(s) == [] && AfterMarker(s) == []
    ensures s != [] && IsMarker(s[..FirstLine(s)]) ==> Text(s) == [] && AfterMarker(s) == Dropped(s, FirstLine(s))
    ensures s != [] && !IsMarker(s[..FirstLine(s)]) ==>
              && Text(s) == Unescaped(s[..FirstLine(s)]) + Text(Dropped(s, FirstLine(s)))
              && AfterMarker(s) == AfterMarker(Dropped(s, FirstLine(s)))
  {
  }

  method ReadText(source: Reader, bufSize: nat) returns (r: Result<Octets>)
    requires source.Valid()
    modifies source.Repr
    ensures source.Valid()
    ensures old(source.Clean()) ==>
              && source.Clean() && r == Ok(Chopped(Text(old(source.Rest()))))
              && source.Rest() == AfterMarker(old(source.Rest()))
  {
    hide Reader.Valid, Reader.Buffer, Reader.Rest, Reader.Clean, Reader.InnerRest;
    hide IsMarker, Unescaped, Until, Dropped, Text, AfterMarker;
    var text: Octets, more := [], true;
    ghost var all := source.Rest();
    while more
      invariant source.Valid()
      invariant old(source.Clean()) ==> source.Clean()
      invariant old(source.Clean()) && more ==>
                  text + Text(source.Rest()) == Text(all) && AfterMarker(source.Rest()) == AfterMarker(all)
      invariant old(source.Clean()) && !more ==> text == Text(all) && source.Rest() == AfterMarker(all)
      decreases more, |source.Rest()|
    {
      var found := ReadTo(source, NEWLINE, bufSize);
      if found.Err? {
        return found;
      }
      var line := found.value;
      TextUnfold(source.Rest());
      assert old(source.Clean()) ==> line == source.Rest()[..FirstLine(source.Rest())];
      if line == [] {
        more := false;
      } else {
        if IsMarker(line) {
          more := false;
        } else {
          var l := Unescape(line);
          assert text + (l + Text(Dropped(source.Rest(), |line|))) == text + l + Text(Dropped(source.Rest(), |line|));
          text := text + l;
        }
        var _ := source.Consume(|line|);
      }
    }
    if text != [] {
      text := text[..|text| - 1];
      if text != [] && text[|text| - 1] == CR {
        text := text[..|text| - 1];
      }
    }
    r := Ok(text);
  }

  method Unescape(line: Octets) returns (r: Octets)
    ensures r == Unescaped(line)
  {
    hide TrimEnd, Undash, EndsWithCrLf;
    var l := Undash(line);
    var crlf := EndsWithCrLf(l);
    l := l[..Max(|l| - if crlf then 2 else 1, 0)];
    l := TrimTrailing(l);
    r := l + if crlf then [CR, NEWLINE] else [NEWLINE];
  }

  method TrimTrailing(s: Octets) returns (r: Octets)
    ensures r == TrimEnd(s)
  {
    r := s;
    while r != [] && (r[|r| - 1] == 32 || r[|r| - 1] == 9)
      invariant TrimEnd(r) == TrimEnd(s)
    {
      r := r[..|r| - 1];
    }
  }

  // ----- Undoing the escaping

  /** A line of a signed text as it is sent, with or without an escape. */
  function Sent(line: Octets, escape: bool): Octets {
    (if escape then [45, 32] else []) + line + [NEWLINE]
  }

  function SentText(lines: seq<Octets>, escapes: seq<bool>): Octets
    requires |lines| == |escapes|
  {
    if lines == [] then [] else Sent(lines[0], escapes[0]) + SentText(lines[1..], escapes[1..])
  }

  /** The lines without trailing spaces and tabs, each terminated. */
  function TrimmedText(lines: seq<Octets>): Octets {
    if lines == [] then [] else TrimEnd(lines[0]) + [NEWLINE] + TrimmedText(lines[1..])
  }

  predicate IsTextLine(line: Octets) {
    NEWLINE !in line && (line != [] ==> line[|line| - 1] != CR)
  }

  /** Every line that starts with a dash is escaped; any other line may be. */
  predicate ProperlyEscaped(lines: seq<Octets>, escapes: seq<bool>)
    ensures ProperlyEscaped(lines, escapes) ==> |lines| == |escapes|
  {
    && |lines| == |escapes|
    && (forall l :: l in lines ==> IsTextLine(l))
    && (forall i :: 0 <= i < |lines| && lines[i] != [] && lines[i][0] == 45 ==> escapes[i])
  }

  /** A line that is sent as it is, but reads like a signature marker. */
  ghost predicate LooksLikeMarker(lines: seq<Octets>, escapes: seq<bool>, i: nat)
    requires i < |lines| == |escapes|
  {
    !escapes[i] && IsMarker(lines[i] + [NEWLINE])
  }

  lemma SentLine(line: Octets, escape: bool, rest: Octets)
    requires IsTextLine(line)
    ensures var s := Sent(line, escape) + rest;
            FirstLine(s) == |Sent(line, escape)| && s[..FirstLine(s)] == Sent(line, escape) && s[FirstLine(s)..] == rest
  {
    hide Until;
    var content := (if escape then [45, 32] else []) + line;
    UntilAfter(content, NEWLINE, rest);
    assert Sent(line, escape) + rest == content + [NEWLINE] + rest;
  }

  lemma EscapedIsNoMarker(line: Octets)
    ensures !IsMarker(Sent(line, true))
  {
    var sent := Sent(line, true);
    assert sent[1..][0] == 32;
    assert DashPrefix(sent) == 1;
  }

  lemma SentUnescaped(line: Octets, escape: bool)
    requires IsTextLine(line) && (line != [] && line[0] == 45 ==> escape)
    ensures Unescaped(Sent(line, escape)) == TrimEnd(line) + [NEWLINE]
  {
    hide TrimEnd, EndsWithCrLf;
    var l := line + [NEWLINE];
    assert Undash(Sent(line, escape)) == l by { UndashSent(line, escape); }
    NoCrLf(line);
    assert l[..|line|] == line && |l| - 1 == |line|;
  }

  lemma UndashSent(line: Octets, escape: bool)
    requires line != [] && line[0] == 45 ==> escape
    ensures Undash(Sent(line, escape)) == line + [NEWLINE]
  {
    var sent := Sent(line, escape);
    if escape {
      assert sent[2..] == line + [NEWLINE];
    } else {
      assert sent == line + [NEWLINE] && sent[0] != 45;
    }
  }

  lemma NoCrLf(line: Octets)
    requires IsTextLine(line)
    ensures !EndsWithCrLf(line + [NEWLINE])
  {
    var l := line + [NEWLINE];
    if line != [] {
      assert l[|l| - 2..][0] == line[|line| - 1];
    }
  }

  /**
   Properly escaped text followed by a marker line is recovered, trailing blanks
   aside, exactly when no line that is sent unescaped reads like a marker.
   */
  lemma {:induction false} UnescapeIff(lines: seq<Octets>, escapes: seq<bool>, marker: Octets, rest: Octets)
    requires ProperlyEscaped(lines, escapes) && NEWLINE !in marker && IsMarker(marker + [NEWLINE])
    ensures (&& Text(SentText(lines, escapes) + (marker + [NEWLINE] + rest)) == TrimmedText(lines)
             && AfterMarker(SentText(lines, escapes) + (marker + [NEWLINE] + rest)) == rest)
       <==> (forall i: nat :: i < |lines| ==> !LooksLikeMarker(lines, escapes, i))
    decreases |lines|
  {
    hide Text, AfterMarker, IsMarker, Unescaped, TrimEnd, FirstLine;
    var end := marker + [NEWLINE] + rest;
    var s := SentText(lines, escapes) + end;
    TextUnfold(s);
    if lines == [] {
      assert s == end;
      MarkerLine(marker, rest);
    } else {
      var more := SentText(lines[1..], escapes[1..]) + end;
      assert s == Sent(lines[0], escapes[0]) + more;
      assert lines[0] in lines;
      SentLine(lines[0], escapes[0], more);
      SentUnescaped(lines[0], escapes[0]);
      EscapedIsNoMarker(lines[0]);
      if LooksLikeMarker(lines, escapes, 0) {
        assert [] + lines[0] + [NEWLINE] == lines[0] + [NEWLINE];
      } else {
        assert !escapes[0] ==> Sent(lines[0], escapes[0]) == lines[0] + [NEWLINE];
        assert forall l :: l in lines[1..] ==> l in lines;
        UnescapeIff(lines[1..], escapes[1..], marker, rest);
        Cancel(TrimEnd(lines[0]) + [NEWLINE], Text(more), TrimmedText(lines[1..]));
        ShiftMarkers(lines, escapes);
      }
    }
  }

  lemma MarkerLine(marker: Octets, rest: Octets)
    requires NEWLINE !in marker
    ensures var s := marker + [NEWLINE] + rest;
            s[..FirstLine(s)] == marker + [NEWLINE] && Dropped(s, FirstLine(s)) == rest
  {
    UntilAfter(marker, NEWLINE, rest);
  }

  lemma ShiftMarkers(lines: seq<Octets>, escapes: seq<bool>)
    requires 0 < |lines| == |escapes| && !LooksLikeMarker(lines, escapes, 0)
    ensures (forall i: nat :: i < |lines| ==> !LooksLikeMarker(lines, escapes, i))
       <==> (forall i: nat :: i < |lines| - 1 ==> !LooksLikeMarker(lines[1..], escapes[1..], i))
  {
    forall i: nat | i < |lines| - 1
      ensures LooksLikeMarker(lines[1..], escapes[1..], i) <==> LooksLikeMarker(lines, escapes, i + 1)
    {
    }
    if forall i: nat :: i < |lines| - 1 ==> !LooksLikeMarker(lines[1..], escapes[1..], i) {
      forall i: nat | i < |lines| ensures !LooksLikeMarker(lines, escapes, i) {
        if i > 0 {
          assert !LooksLikeMarker(lines[1..], escapes[1..], i - 1);
        }
      }
    }
  }

  /** In ASCII text, proper escaping is enough. */
  lemma AsciiNeverLooksLikeMarker(lines: seq<Octets>, escapes: seq<bool>, i: nat)
    requires ProperlyEscaped(lines, escapes) && i < |lines|
    requires forall b :: b in lines[i] ==> b < 128
    ensures !LooksLikeMarker(lines, escapes, i)
  {
    var line := lines[i] + [NEWLINE];
    if lines[i] != [] {
      assert lines[i][0] in lines[i];
    }
    assert !escapes[i] ==> DashLength(line) == 0;
  }

  /** An em dash followed by the words of a marker is not escaped, and ends the text early. */
  lemma EmDashLooksLikeMarker(line: Octets)
    requires line == [0xE2, 0x80, 0x94] + Ascii("BEGIN PGP SIGNATURE")
    ensures ProperlyEscaped([line], [false]) && LooksLikeMarker([line], [false], 0)
  {
    var sent := line + [NEWLINE];
    var words := Ascii("BEGIN PGP SIGNATURE");
    assert sent[3..] == words + [NEWLINE];
    assert words[0] == 66 && sent[3..][0] == 66;
    assert DashPrefix(sent) == 3;
    assert forall i :: 0 <= i < |words| ==> words[i] != NEWLINE;
    assert line[|line| - 1] == words[|words| - 1];
    assert words[|words| - 1] == 69;
  }

  /** The literal is the text without its final newline, unless trimming uncovers a carriage return. */
  lemma LiteralIff(lines: seq<Octets>)
    requires lines != []
    ensures var last := TrimEnd(lines[|lines| - 1]);
            Chopped(TrimmedText(lines)) + [NEWLINE] == TrimmedText(lines)
            <==> !(last != [] && last[|last| - 1] == CR)
  {
    hide TrimEnd, TrimmedText, Chopped;
    LastLine(lines);
    TrimmedEnds(lines[..|lines| - 1]);
    ChopIff(TrimmedText(lines[..|lines| - 1]), TrimEnd(lines[|lines| - 1]));
  }

  lemma ChopIff(front: Octets, last: Octets)
    requires front != [] ==> front[|front| - 1] == NEWLINE
    ensures Chopped(front + last + [NEWLINE]) + [NEWLINE] == front + last + [NEWLINE]
       <==> !(last != [] && last[|last| - 1] == CR)
  {
    var t := front + last;
    assert (t + [NEWLINE])[..|t|] == t;
    assert t != [] ==> t[|t| - 1] == if last == [] then front[|front| - 1] else last[|last| - 1];
  }

  lemma {:induction false} LastLine(lines: seq<Octets>)
    requires lines != []
    ensures TrimmedText(lines) == TrimmedText(lines[..|lines| - 1]) + TrimEnd(lines[|lines| - 1]) + [NEWLINE]
  {
    hide TrimEnd;
    if |lines| > 1 {
      LastLine(lines[1..]);
      var middle := lines[1..|lines| - 1];
      assert lines[1..][..|lines| - 2] == middle && lines[..|lines| - 1][1..] == middle;
      Regrouped(TrimEnd(lines[0]) + [NEWLINE], TrimmedText(middle), TrimEnd(lines[|lines| - 1]), [NEWLINE]);
    } else {
      assert TrimmedText(lines[1..]) == [] && TrimmedText(lines[..0]) == [];
    }
  }

  lemma Regrouped(a: Octets, b: Octets, c: Octets, d: Octets)
    ensures a + (b + c + d) == a + b + c + d
  {
  }

  lemma TrimmedEnds(lines: seq<Octets>)
    ensures TrimmedText(lines) != [] ==> TrimmedText(lines)[|TrimmedText(lines)| - 1] == NEWLINE
  {
    hide TrimEnd;
    if lines != [] {
      LastLine(lines);
    }
  }

  // ----- From the signed message to the literal

  /** The lines without trailing blanks, with newlines between them. */
  function Literal(lines: seq<Octets>): Octets {
    var text := TrimmedText(lines);
    if text == [] then [] else text[..|text| - 1]
  }

  /** Trimming uncovers a carriage return at the end of the last line. */
  predicate UncoversCr(lines: seq<Octets>) {
    lines != [] && var last := TrimEnd(lines[|lines| - 1]); last != [] && last[|last| - 1] == CR
  }

  ghost predicate NoneLooksLikeMarker(lines: seq<Octets>, escapes: seq<bool>)
    requires |lines| == |escapes|
  {
    forall i: nat :: i < |lines| ==> !LooksLikeMarker(lines, escapes, i)
  }

  lemma MarkersAreNotBlank(line: Octets)
    requires IsMarker(line + [NEWLINE])
    ensures TrimEnd(line) != []
  {
    hide TrimEnd;
    assert DashLength(line + [NEWLINE]) > 0;
    assert line != [] && (line + [NEWLINE])[0] == line[0];
    assert !IsBlank(line[0]);
  }

  /** A line that looks like a marker cuts the text short. */
  lemma {:induction false} CutShort(lines: seq<Octets>, escapes: seq<bool>, end: Octets)
    requires ProperlyEscaped(lines, escapes) && !NoneLooksLikeMarker(lines, escapes)
    ensures |Text(SentText(lines, escapes) + end)| < |TrimmedText(lines)| && |TrimmedText(lines)| >= 2
    decreases |lines|
  {
    hide Text, AfterMarker, IsMarker, Unescaped, TrimEnd;
    var s := SentText(lines, escapes) + end;
    var more := SentText(lines[1..], escapes[1..]) + end;
    TextUnfold(s);
    assert s == Sent(lines[0], escapes[0]) + more;
    assert lines[0] in lines;
    SentLine(lines[0], escapes[0], more);
    SentUnescaped(lines[0], escapes[0]);
    EscapedIsNoMarker(lines[0]);
    assert !escapes[0] ==> Sent(lines[0], escapes[0]) == lines[0] + [NEWLINE];
    if LooksLikeMarker(lines, escapes, 0) {
      MarkersAreNotBlank(lines[0]);
    } else {
      assert forall l :: l in lines[1..] ==> l in lines;
      ShiftMarkers(lines, escapes);
      CutShort(lines[1..], escapes[1..], end);
    }
  }

  /** The literal is the text, exactly if no line is taken for the marker and no carriage return is uncovered. */
  lemma ChoppedIff(lines: seq<Octets>, escapes: seq<bool>, marker: Octets, rest: Octets)
    requires ProperlyEscaped(lines, escapes) && NEWLINE !in marker && IsMarker(marker + [NEWLINE])
    ensures var s := SentText(lines, escapes) + (marker + [NEWLINE] + rest);
            Chopped(Text(s)) == Literal(lines) && AfterMarker(s) == rest
            <==> NoneLooksLikeMarker(lines, escapes) && !UncoversCr(lines)
  {
    hide Text, AfterMarker, IsMarker, SentText, ProperlyEscaped, Chopped, Literal, UncoversCr, TrimmedText;
    hide NoneLooksLikeMarker;
    var end := marker + [NEWLINE] + rest;
    UnescapeIff(lines, escapes, marker, rest);
    AllLines(lines, escapes);
    LiteralOfText(lines);
    if !NoneLooksLikeMarker(lines, escapes) {
      CutShort(lines, escapes, end);
      TooShort(Text(SentText(lines, escapes) + end), lines);
    }
  }

  lemma AllLines(lines: seq<Octets>, escapes: seq<bool>)
    requires |lines| == |escapes|
    ensures NoneLooksLikeMarker(lines, escapes)
       <==> forall i: nat :: i < |lines| ==> !LooksLikeMarker(lines, escapes, i)
  {
  }

  lemma LiteralOfText(lines: seq<Octets>)
    ensures Chopped(TrimmedText(lines)) == Literal(lines) <==> !UncoversCr(lines)
  {
    hide TrimEnd, TrimmedText, Chopped;
    if lines == [] {
      NoLines();
    } else {
      LastLine(lines);
      LiteralIff(lines);
      var t := TrimmedText(lines);
      assert t == t[..|t| - 1] + [NEWLINE];
    }
  }

  lemma TooShort(text: Octets, lines: seq<Octets>)
    requires |text| < |TrimmedText(lines)| && |TrimmedText(lines)| >= 2
    ensures Chopped(text) != Literal(lines)
  {
    hide TrimmedText;
    assert |Chopped(text)| <= Max(|text| - 1, 0);
  }

  lemma NoLines()
    ensures TrimmedText([]) == [] && Chopped(TrimmedText([])) == []
  {
  }

  /**
   Reads the text of a signed message, properly escaped as in section 7.2 of RFC 9580,
   from any reader, up to the signature.
   */
  method ReadSigned(source: Reader, bufSize: nat,
                    ghost lines: seq<Octets>, ghost escapes: seq<bool>, ghost marker: Octets, ghost rest: Octets)
    returns (r: Result<Octets>)
    requires source.Valid() && source.Clean()
    requires ProperlyEscaped(lines, escapes) && NEWLINE !in marker && IsMarker(marker + [NEWLINE])
    requires source.Rest() == SentText(lines, escapes) + (marker + [NEWLINE] + rest)
    modifies source.Repr
    ensures source.Valid() && source.Clean() && r.Ok?
    ensures r.value == Literal(lines) && source.Rest() == rest
       <==> NoneLooksLikeMarker(lines, escapes) && !UncoversCr(lines)
  {
    hide Reader.Valid, Reader.Buffer, Reader.Rest, Reader.Clean, Reader.InnerRest;
    hide Text, AfterMarker, SentText, IsMarker, Chopped, Literal, NoneLooksLikeMarker, UncoversCr, ProperlyEscaped;
    r := ReadText(source, bufSize);
    ChoppedIff(lines, escapes, marker, rest);
  }
}
