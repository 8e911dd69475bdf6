/**
 The `Reader` of `openpgp/src/armor.rs` on unquoted armor: header line, headers,
 the double-buffered body, checksum line and footer, over any buffered reader.
 */
module ArmorReader {
  import opened Bytes
  import opened Base64
  import opened Base64Filter
  import opened ArmorText
  import opened ArmorBody
  import opened ArmorFraming
  import opened ArmorHeaders
  import opened ArmorReading
  import opened GenericReader
  import opened Readers
  import opened ReaderLoops

  lemma DecodedSize(data: Octets, d: Octets)
    requires Decode(data) == Valid(d)
    ensures |d| <= |data| / 4 * 3
  {
    hide Decode, Encode;
    DecodeIff(data, d);
  }

  /** A look-ahead shows the same octets however much more is buffered. */
  lemma LookAhead(value: Octets, rest: Octets, n: nat)
    requires value <= rest && |value| >= Min(n, |rest|)
    ensures Take(value, n) == Take(rest, n)
  {
  }

  lemma SplitAt(s: Octets, c: nat)
    requires c <= |s|
    ensures s == s[..c] + Dropped(s, c)
  {
  }

  /** What the filter skips without finding anything is white space. */
  lemma SpaceSkipped(text: Octets, c: nat)
    requires c <= |text| && Stripped(text[..c]) == []
    ensures SkipSpace(Dropped(text, c)) == SkipSpace(text)
  {
    hide Stripped, SkipSpace;
    SkipSpaceAfter(text[..c], Dropped(text, c));
    SplitAt(text, c);
  }

  lemma EndsWithin(w: Octets, data: Octets, c: nat)
    requires EndsAt(w, 0, 0, data, c)
    ensures c <= |w|
  {
  }

  lemma HasRoom(s: Octets)
    ensures HasChecksum(s) ==> |s| >= 5
  {
  }

  lemma ChecksumLookAhead(s: Octets)
    ensures HasChecksum(Take(s, 5)) <==> HasChecksum(s)
    ensures SkipChecksum(s) == if HasChecksum(s) then Dropped(s, 5) else s
  {
  }

  /** The loop `while !data(1)?.is_empty() && buffer()[0].is_ascii_whitespace() { consume(1) }` */
  method SkipWhitespace(source: Reader, bufSize: nat) returns (r: Result<bool>)
    requires source.Valid()
    modifies source.Repr
    ensures source.Valid()
    ensures old(source.Clean()) ==> r.Ok? && source.Clean() && source.Rest() == SkipSpace(old(source.Rest()))
  {
    hide Reader.Valid, Reader.Buffer, Reader.Rest, Reader.Clean, Reader.InnerRest;
    while true
      invariant source.Valid()
      invariant old(source.Clean()) ==> source.Clean() && SkipSpace(source.Rest()) == SkipSpace(old(source.Rest()))
      decreases |source.Rest()|
    {
      var data := source.Data(1, bufSize);
      if data.Err? {
        return Err(data.error);
      }
      if data.value == [] || !IsWhitespace(source.Buffer()[0]) {
        break;
      }
      var _ := source.Consume(1);
    }
    return Ok(true);
  }

  lemma FilteredWindow(s: Octets, room: nat, w: Octets, data: Octets)
    requires w == Take(s, ToRead(room))
    requires var quads := Quads(Visible(w, 0, 0)); data == quads[..Min(|quads|, MaxData(room) / 4 * 4)]
    ensures data == WindowData(s, room)
  {
    hide Quads, Visible, ToRead, MaxData;
  }

  /** What `DecodeMore` leaves of the text. */
  lemma Consumed(s: Octets, room: nat, w: Octets, data: Octets, c: nat)
    requires w == Take(s, ToRead(room)) && data == WindowData(s, room) && EndsAt(w, 0, 0, data, c)
    ensures c <= |w| <= |s|
    ensures data != [] ==> c == EndOf(s, |data|)
    ensures data == [] ==> SkipSpace(Dropped(s, c)) == SkipSpace(s)
  {
    hide Visible, EndOf, WindowData, SkipSpace, ToRead;
    if data != [] {
      EndIsEndOf(s, w, data, c);
    } else {
      assert s[..c] == w[..c];
      SpaceSkipped(s, c);
    }
  }

  lemma NothingDecoded(data: Octets)
    ensures Decode(data) == Valid([]) <==> data == []
  {
    hide Decode, Encode;
    DecodeIff(data, []);
    EncodeUnfold([]);
  }

  class Dearmorer {
    const source: Reader
    /** `ReaderMode::Tolerant(expected)` */
    const expected: Option<Kind>
    var kind: Option<Kind>
    var headers: Headers
    var initialized: bool
    var decodeBuffer: Octets
    var finalized: bool

    ghost predicate Valid()
      reads this, source.Repr
    {
      source.Valid() && this !in source.Repr && (finalized ==> decodeBuffer == [])
    }

    constructor (source: Reader, expected: Option<Kind>)
      requires source.Valid()
      ensures Valid() && this.source == source && this.expected == expected
      ensures !initialized && !finalized && decodeBuffer == [] && headers == []
    {
      this.source, this.expected := source, expected;
      kind, headers, initialized, decodeBuffer, finalized := None, [], false, [], false;
    }

    // ----- The body

    /** The next octets of the text, as many as the window shows. */
    method NextWindow(toRead: nat, bufSize: nat) returns (r: Result<Octets>)
      requires Valid()
      modifies source.Repr
      ensures Valid() && (r.Ok? ==> r.value <= source.Buffer())
      ensures old(source.Clean()) ==>
                source.Clean() && source.Rest() == old(source.Rest()) && r == Ok(Take(source.Rest(), toRead))
    {
      hide Reader.Valid, Reader.Buffer, Reader.Rest, Reader.Clean, Reader.InnerRest;
      ghost var clean := source.Clean();
      r := source.Data(toRead, bufSize);
      if r.Ok? {
        if clean {
          LookAhead(r.value, source.Rest(), toRead);
        }
        r := Ok(Take(r.value, toRead));
      }
    }

    /** Decodes the quads of one window, into the caller's buffer or through `decodeBuffer`. */
    method DecodeMore(room: nat, bufSize: nat) returns (r: Result<Octets>)
      requires Valid() && room > 0 && decodeBuffer == [] && !finalized
      modifies this`decodeBuffer, source.Repr
      ensures Valid() && (r.Ok? && r.value == [] ==> decodeBuffer == [])
      ensures old(source.Clean()) ==>
                var s := old(source.Rest());
                var data := WindowData(s, room);
                var decoded := Decode(data);
                && source.Clean() && (r.Ok? <==> decoded.Valid?)
                && (r.Err? ==> source.Rest() == s && decodeBuffer == [])
                && (r.Ok? ==> r.value + decodeBuffer == decoded.data && |r.value| == Min(room, |decoded.data|))
                && (r.Ok? && decoded.data == [] ==> SkipSpace(source.Rest()) == SkipSpace(s))
                && (r.Ok? && decoded.data != [] ==> source.Rest() == Dropped(s, EndOf(s, |data|)))
    {
      hide Reader.Valid, Reader.Buffer, Reader.Rest, Reader.Clean, Reader.InnerRest;
      hide Visible, Quads, Decode, EndsAt, ToRead, MaxData, WindowData, Take, Dropped, StopOffset, EndOf, SkipSpace;
      ghost var clean := source.Clean();
      var found := NextWindow(ToRead(room), bufSize);
      if found.Err? {
        return found;
      }
      ghost var s := source.Rest();
      var w := found.value;
      var data, consumed, _ := Filter(w, MaxData(room), 0, 0);
      EndsWithin(w, data, consumed);
      if clean {
        FilteredWindow(s, room, w, data);
        Consumed(s, room, w, data, consumed);
      }
      var decoded := Decode(data);
      if decoded.Invalid? {
        return Err(InvalidData);
      }
      DecodedSize(data, decoded.data);
      NothingDecoded(data);
      var _ := source.Consume(consumed);
      if |data| / 4 * 3 > room {
        var copied := Min(room, |decoded.data|);
        r := Ok(decoded.data[..copied]);
        decodeBuffer := decoded.data[copied..];
      } else {
        r := Ok(decoded.data);
      }
    }

    /** Nothing went wrong so far. */
    ghost predicate Ready()
      requires Valid()
      reads this, source.Repr
    {
      source.Clean() && (!initialized ==> headers == [] && decodeBuffer == [] && !finalized)
    }

    /** Where the reader stands, as a value. */
    ghost function State(): Stand
      requires Valid()
      reads this, source.Repr
    {
      if !initialized then Outside(source.Rest())
      else if finalized then Over(kind, headers)
      else Inside(kind, headers, source.Rest(), decodeBuffer)
    }

    /** `read_armored_data` */
    method ReadArmoredData(room: nat, bufSize: nat) returns (r: Result<Octets>)
      requires Valid() && room > 0 && initialized && !finalized
      modifies this`decodeBuffer, this`finalized, source.Repr
      ensures Valid()
      ensures old(Ready()) ==>
                var move := Within(old(State()), room);
                && Ready() && State() == move.next
                && (if r.Ok? then move.got == Some(r.value) else move.got == None)
    {
      hide Reader.Valid, Reader.Buffer, Reader.Rest, Reader.Clean, Reader.InnerRest;
      hide Decode, WindowData, EndOf, Dropped, SkipSpace, FooterFor, AfterChecksum;
      if decodeBuffer != [] {
        var amount := Min(room, |decodeBuffer|);
        r := Ok(decodeBuffer[..amount]);
        decodeBuffer := decodeBuffer[amount..];
        return;
      }
      r := DecodeMore(room, bufSize);
      if r.Ok? && r.value == [] {
        finalized := true;
        SameFooter(kind, source.Rest(), old(source.Rest()));
        var finished := Finish(bufSize);
        if finished.Err? {
          r := Err(finished.error);
        }
      } else if r.Ok? {
        Parts(r.value, decodeBuffer);
      }
    }

    /** Skips an optional checksum line, and demands a footer if there was a header. */
    method Finish(bufSize: nat) returns (r: Result<bool>)
      requires Valid()
      modifies source.Repr
      ensures Valid()
      ensures old(source.Clean()) ==>
                var rest, footer := AfterChecksum(old(source.Rest())), FooterFor(kind, old(source.Rest()));
                && source.Clean() && (r.Ok? <==> footer.Some?)
                && source.Rest() == Dropped(rest, if footer.Some? then footer.value else 0)
    {
      hide Reader.Valid, Reader.Buffer, Reader.Rest, Reader.Clean, Reader.InnerRest;
      hide SkipSpace, HasChecksum, SkipChecksum, DetectFooter, Take, Dropped;
      ghost var clean := source.Clean();
      r := SkipWhitespace(source, bufSize);
      if r.Err? {
        return;
      }
      var data := source.Data(5, bufSize);
      if data.Err? {
        return Err(data.error);
      }
      if clean {
        LookAhead(data.value, source.Rest(), 5);
        ChecksumLookAhead(source.Rest());
      }
      HasRoom(Take(data.value, 5));
      if HasChecksum(Take(data.value, 5)) {
        var _ := source.Consume(5);
      }
      r := SkipWhitespace(source, bufSize);
      if r.Err? {
        return;
      }
      if kind.Some? {
        var got := source.Data(FOOTER_LOOKAHEAD, bufSize);
        if got.Err? {
          return Err(got.error);
        }
        if clean {
          LookAhead(got.value, source.Rest(), FOOTER_LOOKAHEAD);
        }
        var footer := DetectFooter(kind.value, Take(got.value, FOOTER_LOOKAHEAD));
        if footer.None? {
          return Err(InvalidInput);
        }
        var _ := source.Consume(footer.value);
      }
    }

    // ----- The header

    /** `initialize`, from the header line on. */
    method Initialize(bufSize: nat) returns (r: Result<bool>)
      requires Valid()
      modifies this, source.Repr
      ensures Valid() && decodeBuffer == old(decodeBuffer) && finalized == old(finalized)
      ensures r.Ok? ==> initialized
      ensures old(source.Clean()) ==>
                var opening := Open(old(source.Rest()), expected);
                && source.Clean() && (r.Ok? <==> opening.Some?)
                && (r.Ok? ==> kind == Some(opening.value.kind)
                              && headers == old(headers) + opening.value.headers && source.Rest() == opening.value.text)
                && (r.Err? ==> initialized == old(initialized) && kind == old(kind) && headers == old(headers)
                               && source.Rest() == old(source.Rest()))
    {
      hide Reader.Valid, Reader.Buffer, Reader.Rest, Reader.Clean, Reader.InnerRest;
      hide DetectHeader, Take, Dropped, ParseBlock, AfterHeaderLine;
      ghost var clean := source.Clean();
      var input := source.Data(HEADER_LOOKAHEAD, bufSize);
      if input.Err? {
        return Err(input.error);
      }
      if clean {
        LookAhead(input.value, source.Rest(), HEADER_LOOKAHEAD);
      }
      var header := DetectHeader(Take(input.value, HEADER_LOOKAHEAD));
      if header.None? {
        return Err(InvalidInput);
      }
      var (label', len) := header.value;
      if !IsExpected(label', expected) {
        return Err(InvalidInput);
      }
      kind := Some(label'.kind);
      var _ := source.Consume(len);
      r := ReadHeaders(bufSize);
    }

    /** `read_headers`: the rest of the header line, key-value lines, and a blank line. */
    method ReadHeaders(bufSize: nat) returns (r: Result<bool>)
      requires Valid()
      modifies this`headers, this`initialized, source.Repr
      ensures Valid() && (r.Ok? ==> initialized)
      ensures old(source.Clean()) ==>
                var block := ParseBlock(AfterHeaderLine(old(source.Rest())), true);
                && r.Ok? && source.Clean()
                && headers == old(headers) + block.headers && source.Rest() == block.after
    {
      hide Reader.Valid, Reader.Buffer, Reader.Rest, Reader.Clean, Reader.InnerRest;
      hide Until, ParseBlock, LeadingSpace;
      var line := ReadTo(source, NEWLINE, bufSize);
      if line.Err? {
        return Err(line.error);
      }
      assert old(source.Clean()) ==> line.value == LineOf(source.Rest());
      var _ := source.Consume(LeadingSpace(line.value));
      r := ReadHeaderLines(bufSize);
      if r.Ok? {
        initialized := true;
      }
    }

    method ReadHeaderLines(bufSize: nat) returns (r: Result<bool>)
      requires Valid()
      modifies this`headers, source.Repr
      ensures Valid()
      ensures old(source.Clean()) ==>
                var block := ParseBlock(old(source.Rest()), true);
                && r.Ok? && source.Clean()
                && headers == old(headers) + block.headers && source.Rest() == block.after
    {
      hide Reader.Valid, Reader.Buffer, Reader.Rest, Reader.Clean, Reader.InnerRest;
      hide ParseBlock, RoleOf, LineOf, Dropped;
      ghost var clean, block := source.Clean(), ParseBlock(source.Rest(), true);
      var n: nat, lines: nat, more := 0, 0, true;
      while more
        invariant Valid() && n <= |source.Buffer()|
        invariant clean ==> source.Clean()
        invariant clean ==> InBlock(block, old(headers), headers, Dropped(source.Rest(), n), lines == 0, more)
        decreases more, |source.Rest()| - n
      {
        if clean {
          NextHeader(block, old(headers), headers, Dropped(source.Rest(), n), lines == 0);
        }
        r, n, more := ReadHeaderLine(bufSize, n, lines);
        if r.Err? {
          return;
        }
        lines := lines + 1;
      }
      var _ := source.Consume(n);
      r := Ok(true);
    }

    /** Consumes the line before, and reads the next one. */
    method ReadHeaderLine(bufSize: nat, n: nat, lines: nat) returns (r: Result<bool>, n': nat, more: bool)
      requires Valid() && n <= |source.Buffer()|
      modifies this`headers, source.Repr
      ensures Valid() && n' <= |source.Buffer()|
      ensures r.Ok? ==> source.Rest() == Dropped(old(source.Rest()), n) && (more ==> n' > 0)
      ensures old(source.Clean()) ==>
                var line := LineOf(source.Rest());
                var role := RoleOf(line, lines == 0);
                && r.Ok? && source.Clean() && more == !role.Last?
                && n' == (if role.Last? then role.consumed else |line|)
                && headers == Extended(old(headers), role)
    {
      hide Reader.Valid, Reader.Buffer, Reader.Rest, Reader.Clean, Reader.InnerRest;
      hide Until, Dropped, RoleOf;
      var _ := source.Consume(n);
      var line := ReadTo(source, NEWLINE, bufSize);
      if line.Err? {
        return Err(line.error), 0, false;
      }
      assert old(source.Clean()) ==> line.value == LineOf(source.Rest());
      r, n', more := Ok(true), |line.value|, true;
      var role := RoleOf(line.value, lines == 0);
      if role.Last? {
        n', more := role.consumed, false;
      } else {
        headers := Extended(headers, role);
        var buffered := source.DataHard(n', bufSize);
        if buffered.Err? {
          r := Err(buffered.error);
        }
      }
    }

    // ----- `do_read`

    method DoRead(room: nat, bufSize: nat) returns (r: Result<Octets>)
      requires Valid()
      modifies this, source.Repr
      ensures Valid()
      ensures old(Ready()) ==>
                var move := Step(old(State()), expected, room);
                && Ready() && State() == move.next
                && (if r.Ok? then move.got == Some(r.value) else move.got == None)
    {
      hide Reader.Valid, Reader.Buffer, Reader.Rest, Reader.Clean, Reader.InnerRest, Open, Within;
      if !initialized {
        var ready := Initialize(bufSize);
        if ready.Err? {
          return Err(ready.error);
        }
        assert old(Ready()) ==> headers == Open(old(source.Rest()), expected).value.headers;
      }
      if room == 0 {
        return Ok([]);
      }
      if finalized {
        assert |decodeBuffer| == 0;
        return Ok([]);
      }
      r := ReadArmoredData(room, bufSize);
    }
  }

  lemma Parts(a: Octets, b: Octets)
    ensures (a + b)[..|a|] == a && (a + b)[|a|..] == b
  {
  }

  /** Where the loop over the header lines stands: `s` is the text behind the lines read so far. */
  ghost predicate InBlock(block: HeaderBlock, before: Headers, headers: Headers, s: Octets, first: bool, more: bool) {
    if more
    then before + block.headers == headers + ParseBlock(s, first).headers && block.after == ParseBlock(s, first).after
    else before + block.headers == headers && block.after == s
  }

  lemma NextHeader(block: HeaderBlock, before: Headers, headers: Headers, s: Octets, first: bool)
    ensures InBlock(block, before, headers, s, first, true) ==>
              var line := LineOf(s);
              var role := RoleOf(line, first);
              InBlock(block, before, Extended(headers, role),
                      Dropped(s, if role.Last? then role.consumed else |line|), false, !role.Last?)
  {
    hide ParseBlock, RoleOf, LineOf;
    ParseUnfold(s, first);
    var role := RoleOf(LineOf(s), first);
    if !role.Last? {
      assert Extended(headers, role) == headers + Extended([], role);
      var rest := ParseBlock(Dropped(s, |LineOf(s)|), false).headers;
      assert headers + Extended([], role) + rest == headers + (Extended([], role) + rest);
    }
  }
}
