/** Through the writer and back through the reader: armor loses nothing. */
module ArmorRoundTrip {
  import opened Bytes
  import opened Base64
  import opened Base64Filter
  import opened ArmorText
  import opened ArmorFraming
  import opened ArmorHeaders
  import opened ArmorWriter
  import opened ArmorReading
  import opened ArmorReader
  import opened ArmorReadBack
  import opened GenericReader
  import opened Readers

  /** Streaming equals one-shot: any sequence of writes, empty ones included. */
  method Enarmor(kind: Kind, headers: Headers, profile: Option<Profile>, chunks: seq<Octets>) returns (text: Octets)
    ensures text == if chunks == [] then [] else Armored(kind, headers, profile, Concat(chunks))
  {
    hide Armored;
    var w := new Writer([], kind, headers);
    if profile.Some? {
      var _ := w.SetProfile(profile.value);
    }
    for i := 0 to |chunks|
      invariant w.Valid() && fresh(w) && fresh(w.crc) && w.profile == profile
      invariant w.written == Concat(chunks[..i]) && (w.dirty <==> i > 0)
      invariant w.base == [] && w.kind == kind && w.headers == headers
    {
      ConcatOne(chunks, i);
      var _ := w.Write(chunks[i]);
    }
    assert chunks[..|chunks|] == chunks;
    text := w.Finalize();
    assert [] + Armored(kind, headers, profile, Concat(chunks)) == Armored(kind, headers, profile, Concat(chunks));
  }

  // ----- Reading

  /** How the outcome of all reads is put together from that of the reads so far and that of the others. */
  predicate SoFar(whole: Outcome, out: Octets, ended: bool, failed: bool, rest: Outcome) {
    whole == Outcome(out + rest.out, ended || (!failed && rest.ended), failed || rest.failed)
  }

  lemma OneMore(s: Stand, expected: Option<Kind>, rooms: seq<nat>, i: nat,
                whole: Outcome, out: Octets, ended: bool, failed: bool)
    requires i < |rooms| && SoFar(whole, out, ended, failed, Run(s, expected, rooms[i..]))
    ensures var move := Step(s, expected, rooms[i]);
            var rest := Run(move.next, expected, rooms[i + 1..]);
            if move.got.None? then SoFar(whole, out, ended, true, rest)
            else SoFar(whole, out + move.got.value, ended || (!failed && move.got.value == []), failed, rest)
  {
    hide Run, Step;
    assert rooms[i..][1..] == rooms[i + 1..];
    RunUnfold(s, expected, rooms[i..]);
    var move := Step(s, expected, rooms[i]);
    var rest := Run(move.next, expected, rooms[i + 1..]);
    assert move.got.Some? ==> out + (move.got.value + rest.out) == out + move.got.value + rest.out;
  }

  /** The headers are found by the first read, and kept. */
  lemma SameHeaders(s: Stand, expected: Option<Kind>, room: nat)
    ensures var stand, next := Opened(s, expected), Step(s, expected, room).next;
            if stand.Outside? then next == s else !next.Outside? && next.headers == stand.headers
  {
    hide Open, WindowData, EndOf, FooterFor;
  }

  /** What is known of the headers after `i` reads. */
  predicate Found(start: Stand, expected: Option<Kind>, s: Stand, i: nat) {
    if i == 0 || Opened(start, expected).Outside? then s == start
    else !s.Outside? && s.headers == Opened(start, expected).headers
  }

  lemma FoundNext(start: Stand, expected: Option<Kind>, s: Stand, i: nat, room: nat)
    requires Found(start, expected, s, i)
    ensures Found(start, expected, Step(s, expected, room).next, i + 1)
  {
    hide Open, Step;
    SameHeaders(s, expected, room);
  }

  /** A dearmorer in front of the text that a script delivers. */
  method FromScript(script: Script, chunkSize: nat, expected: Option<Kind>) returns (d: Dearmorer)
    requires ErrorFree(script)
    ensures d.Valid() && fresh(d) && fresh(d.source.Repr) && d.expected == expected
    ensures d.Ready() && d.headers == [] && d.State() == Outside(Pending(script))
  {
    hide Pending, ErrorFree;
    var g := new Generic(script, chunkSize);
    var source := new Reader.OfGeneric(g);
    d := new Dearmorer(source, expected);
  }

  /**
   Reads a text, whatever pieces the source delivers it in: the outcome is determined by
   the text and the sizes of the reads.
   */
  method ReadAll(script: Script, chunkSize: nat, expected: Option<Kind>, rooms: seq<nat>, bufSize: nat)
    returns (out: Octets, ended: bool, failed: bool, found: Headers)
    requires ErrorFree(script)
    ensures Outcome(out, ended, failed) == Run(Outside(Pending(script)), expected, rooms)
    ensures var opening := Open(Pending(script), expected);
            found == if rooms == [] || opening.None? then [] else opening.value.headers
  {
    hide Reader.Valid, Reader.Rest, Reader.Clean, Pending, ErrorFree, Open, Step, Run, Found;
    var d := FromScript(script, chunkSize, expected);
    ghost var start := Outside(Pending(script));
    ghost var whole := Run(start, expected, rooms);
    out, ended, failed, found := [], false, false, [];
    assert rooms[0..] == rooms && [] + whole.out == whole.out;
    StartsOut(start, expected);
    for i := 0 to |rooms|
      invariant d.Valid() && fresh(d) && fresh(d.source.Repr) && d.Ready() && d.expected == expected
      invariant SoFar(whole, out, ended, failed, Run(d.State(), expected, rooms[i..]))
      invariant Found(start, expected, d.State(), i)
    {
      OneMore(d.State(), expected, rooms, i, whole, out, ended, failed);
      FoundNext(start, expected, d.State(), i, rooms[i]);
      var r := d.DoRead(rooms[i], bufSize);
      if r.Err? {
        failed := true;
      } else {
        out := out + r.value;
        ended := ended || (!failed && r.value == []);
      }
    }
    found := d.headers;
    RunNone(d.State(), expected);
    assert out + [] == out && rooms[|rooms|..] == [];
    FoundAll(start, expected, d.State(), |rooms|);
  }

  lemma StartsOut(start: Stand, expected: Option<Kind>)
    ensures Found(start, expected, start, 0)
  {
  }

  lemma FoundAll(start: Stand, expected: Option<Kind>, s: Stand, i: nat)
    requires Found(start, expected, s, i) && start.Outside?
    ensures var opening := Open(start.text, expected);
            if i == 0 || opening.None? then s == start else !s.Outside? && s.headers == opening.value.headers
  {
    hide Open;
  }

  // ----- There and back

  /** What the writer makes is read back, unless what the reader leaves of the headers spoils the body. */
  method Dearmor(script: Script, chunkSize: nat, expected: Option<Kind>, rooms: seq<nat>, bufSize: nat,
                 ghost kind: Kind, ghost headers: Headers, ghost profile: Option<Profile>, ghost data: Octets)
    returns (out: Octets, ended: bool, failed: bool, found: Headers)
    requires ErrorFree(script) && Pending(script) == Armored(kind, headers, profile, data)
    requires (expected == None || expected == Some(kind)) && Positive(rooms)
    ensures Harmless(headers) ==> ComesBack(data, rooms, Outcome(out, ended, failed))
    ensures rooms != [] ==> found == FoundHeaders(headers)
  {
    hide Pending, ErrorFree, Armored, Run, Open, Harmless, ComesBack, FoundHeaders, BodyText;
    ArmoredOpens(kind, headers, profile, data, expected, rooms);
    out, ended, failed, found := ReadAll(script, chunkSize, expected, rooms, bufSize);
    if Harmless(headers) {
      ReadBack(kind, headers, profile, data, expected, rooms);
    }
  }

  /** From the writer through a source that cuts the text into any pieces to the reader. */
  method RoundTrip(kind: Kind, headers: Headers, profile: Option<Profile>, writes: seq<Octets>,
                   pieces: seq<nat>, chunkSize: nat, rooms: seq<nat>, bufSize: nat)
    returns (out: Octets, ended: bool, failed: bool, found: Headers)
    requires writes != [] && Positive(rooms)
    ensures Harmless(headers) ==>
              && out <= Concat(writes) && !failed && (ended ==> out == Concat(writes))
              && (|rooms| > |Concat(writes)| ==> ended)
    ensures rooms != [] ==> (found == headers <==> SingleLines(headers) && AllRepresentable(headers))
    ensures SingleLines(headers) ==> Harmless(headers)
  {
    hide Pending, ErrorFree, Pieces, Armored, Concat, Harmless, FoundHeaders, SingleLines, AllRepresentable;
    var text := Enarmor(kind, headers, profile, writes);
    PiecesPending(text, pieces);
    out, ended, failed, found := Dearmor(Pieces(text, pieces), chunkSize, Some(kind), rooms, bufSize,
                                         kind, headers, profile, Concat(writes));
    FoundIff(headers);
    if SingleLines(headers) {
      SingleLinesAreHarmless(headers);
    }
  }

  /** A value with an empty line in it: what follows the line is read in front of the payload, whatever that is. */
  method ValueBecomesBody(kind: Kind, key: Octets, start: Octets, d: Octets, profile: Option<Profile>,
                          writes: seq<Octets>, chunkSize: nat, bufSize: nat)
    returns (out: Octets)
    requires NEWLINE !in key && NEWLINE !in start && d != [] && |d| % 3 == 0 && writes != []
    ensures out == [d[0]]
  {
    hide Pending, ErrorFree, Pieces, Armored, Concat, Encode, Run, Open, Harmless;
    var text := Enarmor(kind, [(key, start + [NEWLINE, NEWLINE] + Encode(d))], profile, writes);
    PiecesPending(text, []);
    var ended, failed, found;
    out, ended, failed, found := ReadAll(Pieces(text, []), chunkSize, Some(kind), [1], bufSize);
    ValueIsRead(kind, key, start, d, profile, Concat(writes));
  }
}
