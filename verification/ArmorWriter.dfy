/** The streaming `Writer` of `openpgp/src/armor.rs`, over a sink that does not fail. */
module ArmorWriter {
  import opened Bytes
  import opened Base64
  import opened Base64Filter
  import opened Crc24
  import opened ArmorText

  /** The checksum line: `=` and the base64 of the three checksum octets, high octet first. */
  function CrcLine(sum: seq<bool>): Octets
    requires |sum| == 24
  {
    [PAD] + Encode(ChecksumOctets(sum)) + [NEWLINE]
  }

  function ChecksumOctets(sum: seq<bool>): (r: Octets)
    requires |sum| == 24
    ensures |r| == 3
  {
    assert Pow2(8) == 256;
    [Value(sum[16..24]), Value(sum[8..16]), Value(sum[..8])]
  }

  /** The one-shot armor of `data`. */
  function Armored(kind: Kind, headers: Headers, profile: Option<Profile>, data: Octets): Octets {
    Preamble(kind, headers) + Wrapped(Encode(data)) + Trailer(kind, profile, data)
  }

  function Trailer(kind: Kind, profile: Option<Profile>, data: Octets): Octets {
    (if profile == Some(RFC9580) then [] else CrcLine(Checksum(data))) + End(kind) + [NEWLINE]
  }

  /** The header line, the headers, and the blank line. */
  method HeaderText(kind: Kind, headers: Headers) returns (text: Octets)
    ensures text == Preamble(kind, headers)
  {
    hide Begin, HeaderLine, HeaderLines;
    NoHeaders();
    text := Begin(kind) + [NEWLINE];
    for i := 0 to |headers|
      invariant text == Begin(kind) + [NEWLINE] + HeaderLines(headers[..i])
    {
      assert headers[..i + 1] == headers[..i] + [headers[i]];
      HeaderLinesAppend(headers[..i], headers[i]);
      text := text + HeaderLine(headers[i]);
    }
    assert headers[..|headers|] == headers;
    text := text + [NEWLINE];
  }

  lemma WholeBlocks(done: nat, n: nat)
    requires done % 3 == 0
    ensures n / 3 * 3 <= n < n / 3 * 3 + 3 && (done + n / 3 * 3) % 3 == 0 && n / 3 * 3 % 3 == 0
  {
  }

  class Writer {
    var sink: Octets
    var profile: Option<Profile>
    const kind: Kind
    var stash: Octets
    var column: nat
    const crc: Crc
    var header: Octets
    var dirty: bool

    ghost const headers: Headers
    ghost const base: Octets
    ghost var written: Octets

    /** The data already encoded into the sink. */
    ghost function Encoded(): Octets
      reads this
      requires |stash| <= |written|
    {
      written[..|written| - |stash|]
    }

    /** The sink holds everything up to the body text `sofar`, and `column` says where it ends. */
    ghost predicate Emitted(sofar: Octets)
      reads this`sink, this`column
    {
      && sink == base + Preamble(kind, headers) + Broken(sofar)
      && column == Column(|sofar|)
    }

    ghost predicate Valid()
      reads this, crc
    {
      && |stash| <= 3 && |stash| <= |written| && written == Encoded() + stash
      && |Encoded()| % 3 == 0
      && column % 4 == 0
      && (profile != Some(RFC9580) ==> Same24(crc.n, Bitwise(CRC24_INIT, written)))
      && (!dirty ==> written == [] && sink == base && column == 0 && header == Preamble(kind, headers))
      && (dirty ==> Emitted(Encode(Encoded())))
    }

    constructor (inner: Octets, kind: Kind, headers: Headers)
      ensures Valid() && fresh(crc) && !dirty && profile == None
      ensures written == [] && base == inner && this.kind == kind && this.headers == headers
    {
      hide Bitwise, Same24, CRC24_INIT, Encode, Broken, Column, Preamble;
      NoDataYet();
      sink, base, profile, this.kind, this.headers := inner, inner, None, kind, headers;
      stash, column, dirty, written := [], 0, false, [];
      var text := HeaderText(kind, headers);
      header := text;
      crc := new Crc();
      new;
      assert Encoded() == [];
    }

    method SetProfile(p: Profile) returns (ok: bool)
      requires Valid()
      modifies this`profile
      ensures Valid()
      ensures ok == old(profile).None?
      ensures profile == if ok then Some(p) else old(profile)
    {
      if profile.Some? {
        return false;
      }
      profile := Some(p);
      return true;
    }

    method FinalizeHeaders()
      requires Valid()
      modifies this`sink, this`header, this`dirty
      ensures Valid() && dirty
    {
      hide Bitwise, Same24, CRC24_INIT, Encode, Broken, Preamble;
      NoDataYet();
      if !dirty {
        dirty := true;
        sink := sink + header;
        header := [];
        assert Encoded() == [];
      }
    }

    /** Appends text that stays within the current line, then breaks the line if it is full. */
    method Emit(ghost sofar: Octets, text: Octets)
      requires Emitted(sofar) && 0 < |text| <= LINE_LENGTH - column
      modifies this`sink, this`column
      ensures Emitted(sofar + text)
    {
      hide Preamble, Broken, Column;
      BrokenExtend(sofar, text);
      ColumnAdd(|sofar|, |text|);
      sink := sink + text;
      column := column + |text|;
      if column == LINE_LENGTH {
        sink := sink + [NEWLINE];
        column := 0;
      }
    }

    /** Encodes whole blocks of three octets. */
    method EncodeBlocks(ghost done: Octets, input: Octets)
      requires Emitted(Encode(done)) && |done| % 3 == 0
      modifies this`sink, this`column
      ensures Emitted(Encode(done + input))
    {
      hide Encode, Preamble, Broken, Column;
      var scratch := Encode(input);
      EncodeAppend(done, input);
      ghost var before := Encode(done);
      var at := 0;
      assert before + scratch[..0] == before;
      while at < |scratch|
        invariant at <= |scratch|
        invariant Emitted(before + scratch[..at])
      {
        var m := Min(|scratch| - at, LINE_LENGTH - column);
        Emit(before + scratch[..at], scratch[at..at + m]);
        assert before + scratch[..at] + scratch[at..at + m] == before + scratch[..at + m];
        at := at + m;
      }
      assert scratch[..at] == scratch;
    }

    method EmitStash(ghost done: Octets) returns (ghost done': Octets)
      requires Emitted(Encode(done)) && |done| % 3 == 0 && |stash| == 3
      modifies this`sink, this`column, this`stash
      ensures Emitted(Encode(done')) && stash == [] && done' == done + old(stash)
    {
      hide Encode, Emitted, QuadCount;
      EncodeAppend(done, stash);
      EncodeShort(stash);
      RoomForQuad(done);
      Emit(Encode(done), Encode(stash));
      done' := done + stash;
      stash := [];
    }

    /** Fills and encodes the stash, encodes whole blocks, and stashes the rest. */
    method Absorb(ghost done: Octets, buf: Octets) returns (n: nat, ghost done': Octets)
      requires Emitted(Encode(done)) && |done| % 3 == 0 && |stash| <= 3
      modifies this`sink, this`column, this`stash
      ensures Emitted(Encode(done')) && |done'| % 3 == 0 && |stash| <= 3
      ensures done' + stash == done + old(stash) + buf && n == |buf|
    {
      hide Encode, Emitted, QuadCount;
      var input := buf;
      n := 0;
      done' := done;
      if stash != [] {
        var k := Min(3 - |stash|, |input|);
        stash := stash + input[..k];
        input := input[k..];
        n := n + k;
        CutStash(done, old(stash), buf, k);
        if input == [] {
          return;
        }
        done' := EmitStash(done);
      }
      assert done' + input == done + old(stash) + buf;
      done' := AbsorbBlocks(done', input);
      n := n + |input|;
    }

    /** Encodes whole blocks, and stashes the rest. */
    method AbsorbBlocks(ghost done: Octets, input: Octets) returns (ghost done': Octets)
      requires Emitted(Encode(done)) && |done| % 3 == 0 && stash == []
      modifies this`sink, this`column, this`stash
      ensures Emitted(Encode(done')) && |done'| % 3 == 0 && |stash| <= 3
      ensures done' + stash == done + input
    {
      hide Encode, Emitted, QuadCount;
      done' := done;
      var blocks := |input| / 3 * 3;
      WholeBlocks(|done|, |input|);
      if blocks > 0 {
        EncodeBlocks(done, input[..blocks]);
        done' := done + input[..blocks];
      }
      stash := stash + input[blocks..];
      assert done' + stash == done + input by {
        assert input == input[..blocks] + input[blocks..];
      }
    }

    method Write(buf: Octets) returns (n: nat)
      requires Valid()
      modifies this, crc
      ensures Valid() && dirty
      ensures n == |buf| && written == old(written) + buf
      ensures profile == old(profile)
    {
      hide Bitwise, Same24, CRC24_INIT, Encode, Emitted;
      FinalizeHeaders();
      if profile != Some(RFC9580) {
        ghost var before := crc.n;
        crc.Update(buf);
        ChecksumExtends(before, old(written), buf, crc.n);
      }
      ghost var done;
      n, done := Absorb(Encoded(), buf);
      written := written + buf;
      assert written == done + stash;
      assert Encoded() == done;
      RoomForQuad(done);
    }

    lemma RoomForQuad(d: Octets)
      requires Emitted(Encode(d))
      ensures column % 4 == 0 && column + 4 <= LINE_LENGTH
    {
      hide Encode, QuadCount, Broken, Preamble, Column;
      ColumnOfQuads(QuadCount(|d|));
    }

    method Finalize() returns (out: Octets)
      requires Valid()
      modifies this
      ensures out == if old(dirty) then base + Armored(kind, headers, old(profile), old(written)) else base
    {
      hide Bitwise, CRC24_INIT, Encode, Preamble, Wrapped, End, Emitted, Checksum, Same24, Crc.Finalize;
      if !dirty {
        return sink;
      }
      FinalizeBody();
      ghost var line: Octets := [];
      if profile != Some(RFC9580) {
        var sum := crc.Finalize();
        SumOfWritten(crc, written);
        sink := sink + ([PAD] + Encode(ChecksumOctets(sum[..24])) + [NEWLINE]);
        line := CrcLine(Checksum(written));
      }
      sink := sink + End(kind) + [NEWLINE];
      Assembled(base, Preamble(kind, headers), Wrapped(Encode(written)), line, End(kind));
      dirty := false;
      out := sink;
    }

    /** Encodes and pads the stash, and ends the last line. */
    method FinalizeBody()
      requires Valid() && dirty
      modifies this`sink, this`column
      ensures sink == base + Preamble(kind, headers) + Wrapped(Encode(written))
    {
      hide Encode, Preamble, Broken, Column, Same24, Bitwise, CRC24_INIT, QuadCount;
      ghost var done := Encoded();
      assert written == done + stash;
      EncodeAppend(done, stash);
      RoomForQuad(done);
      if stash != [] {
        EncodeShort(stash);
        Emit(Encode(done), Encode(stash));
      } else {
        NoDataYet();
        assert Encode(written) == Encode(done);
      }
      if column > 0 {
        sink := sink + [NEWLINE];
      }
    }
  }

  lemma EncodeShort(d: Octets)
    requires 1 <= |d| <= 3
    ensures |Encode(d)| == 4
  {
  }

  lemma NoHeaders()
    ensures HeaderLines([]) == []
  {
  }

  lemma NoDataYet()
    ensures Same24(CRC24_INIT, Bitwise(CRC24_INIT, []))
    ensures Encode([]) == [] && Broken([]) == []
  {
  }

  lemma CutStash(done: Octets, stash: Octets, buf: Octets, k: nat)
    requires k <= |buf|
    ensures done + (stash + buf[..k]) + buf[k..] == done + stash + buf
    ensures buf[k..] == [] ==> stash + buf[..k] == stash + buf
  {
    assert buf == buf[..k] + buf[k..];
  }

  lemma SumOfWritten(crc: Crc, written: Octets)
    requires Same24(crc.n, Bitwise(CRC24_INIT, written))
    ensures |crc.Finalize()| == 32 && crc.Finalize()[..24] == Checksum(written)
  {
    hide Bitwise, CRC24_INIT;
  }

  lemma Assembled(base: Octets, preamble: Octets, body: Octets, line: Octets, end: Octets)
    ensures base + preamble + body + end + [NEWLINE] == base + (preamble + body + ([] + end + [NEWLINE]))
    ensures base + preamble + body + line + end + [NEWLINE] == base + (preamble + body + (line + end + [NEWLINE]))
  {
  }
}
