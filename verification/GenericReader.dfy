/**
 `Generic` of `buffered-reader/src/generic.rs`: buffers an arbitrary `io::Read`,
 whose future answers are a script of short reads, interruptions and errors.
 */
module GenericReader {
  import opened Bytes

  datatype Error = UnexpectedEof | InvalidInput | InvalidData | Io(code: nat)

  datatype Result<T> = Ok(value: T) | Err(error: Error)

  /** One answer of the source: octets (none means end of file), `EINTR`, or an error. */
  datatype Event = Chunk(data: Octets) | Interrupted | Failure(code: nat)

  type Script = seq<Event>

  /** The octets the source still has to give before its end of file. */
  function Pending(script: Script): Octets {
    if script == [] then []
    else match script[0]
      case Chunk(data) => if data == [] then [] else data + Pending(script[1..])
      case _ => Pending(script[1..])
  }

  predicate ErrorFree(script: Script) {
    forall e :: e in script ==> !e.Failure?
  }

  /** Answers one `read` into `room` octets; an exhausted source is at end of file. */
  function Answer(script: Script, room: nat): (r: (Event, Script))
    requires room > 0
    ensures r.0.Chunk? ==> |r.0.data| <= room
    ensures r.0.Chunk? && r.0.data != [] ==> Pending(script) == r.0.data + Pending(r.1)
    ensures r.0.Chunk? && r.0.data == [] ==> Pending(script) == []
    ensures !r.0.Chunk? ==> Pending(script) == Pending(r.1) && |r.1| < |script|
    ensures |r.1| <= |script|
    ensures ErrorFree(script) ==> ErrorFree(r.1) && !r.0.Failure?
  {
    if script == [] then (Chunk([]), [])
    else match script[0]
      case Chunk(data) =>
        if |data| <= room then (Chunk(data), script[1..])
        else
          assert script[0 := Chunk(data[room..])][1..] == script[1..];
          (Chunk(data[..room]), script[0 := Chunk(data[room..])])
      case event => (event, script[1..])
  }

  /** Octets that arrive in pieces of the given sizes, and the rest at once. */
  function Pieces(b: Octets, sizes: seq<nat>): (script: Script)
    ensures forall e :: e in script ==> e.Chunk?
    decreases |sizes|
  {
    if b == [] then []
    else if sizes == [] then [Chunk(b)]
    else if sizes[0] == 0 || sizes[0] >= |b| then Pieces(b, sizes[1..])
    else [Chunk(b[..sizes[0]])] + Pieces(b[sizes[0]..], sizes[1..])
  }

  lemma PieceInFront(front: Octets, rest: Script)
    requires front != []
    ensures Pending([Chunk(front)] + rest) == front + Pending(rest)
  {
    assert ([Chunk(front)] + rest)[1..] == rest;
  }

  lemma {:induction false} PiecesPending(b: Octets, sizes: seq<nat>)
    ensures Pending(Pieces(b, sizes)) == b && ErrorFree(Pieces(b, sizes))
    decreases |sizes|
  {
    hide Pending;
    if b == [] {
      NothingPending();
    } else if sizes == [] {
      NothingPending();
      PieceInFront(b, []);
      assert [Chunk(b)] + [] == [Chunk(b)] && b + [] == b;
    } else if sizes[0] == 0 || sizes[0] >= |b| {
      PiecesPending(b, sizes[1..]);
    } else {
      PiecesPending(b[sizes[0]..], sizes[1..]);
      PieceInFront(b[..sizes[0]], Pieces(b[sizes[0]..], sizes[1..]));
      assert b == b[..sizes[0]] + b[sizes[0]..];
    }
  }

  lemma NothingPending()
    ensures Pending([]) == []
  {
  }

  /** `v[at..at + |data|].copy_from_slice(data)` */
  function Splice(v: Octets, at: nat, data: Octets): (r: Octets)
    requires at + |data| <= |v|
    ensures |r| == |v|
  {
    v[..at] + data + v[at + |data|..]
  }

  /** `vec_resize` */
  function Resized(v: Octets, size: nat): (r: Octets)
    ensures |r| == size
  {
    if |v| < size then v + seq(size - |v|, _ => 0) else v[..size]
  }

  /** Of the octets `before`, `got` have arrived in `v` at `at`; `after` are still to come. */
  ghost predicate Arrived(v: Octets, at: nat, got: nat, before: Octets, after: Octets)
    requires at + got <= |v|
  {
    before == v[at..at + got] + after
  }

  lemma NothingArrived(v: Octets, at: nat, before: Octets)
    requires at <= |v|
    ensures Arrived(v, at, 0, before, before)
  {
    assert v[at..at] == [];
  }

  lemma MoreArrived(v: Octets, at: nat, got: nat, before: Octets, mid: Octets, data: Octets, after: Octets)
    requires at + got + |data| <= |v|
    requires Arrived(v, at, got, before, mid) && mid == data + after
    ensures Arrived(Splice(v, at + got, data), at, got + |data|, before, after)
  {
    var v' := Splice(v, at + got, data);
    assert v'[at..at + got + |data|] == v[at..at + got] + data;
  }

  /** Copying the old buffer to the front yields the old octets followed by the new ones. */
  lemma Rebuffered(v: Octets, buffer: Octets, got: nat, before: Octets, after: Octets)
    requires |buffer| + got <= |v| && Arrived(v, |buffer|, got, before, after)
    ensures var grown := Splice(v, 0, buffer)[..|buffer| + got];
            buffer <= grown && buffer + before == grown + after
    ensures got == 0 ==> before == after
  {
    var grown := Splice(v, 0, buffer)[..|buffer| + got];
    assert grown == buffer + v[|buffer|..|buffer| + got];
  }

  lemma DropFront(a: Octets, b: Octets, k: nat)
    requires k <= |a|
    ensures (a + b)[k..] == a[k..] + b
  {
  }

  class Generic {
    var buffer: Option<Octets>
    var cursor: nat
    var unusedBuffer: Option<Octets>
    const preferredChunkSize: nat
    var script: Script
    var error: Option<Error>
    var eof: bool

    ghost predicate Valid()
      reads this
    {
      match buffer
      case None => cursor == 0
      case Some(b) => cursor <= |b|
    }

    function Buffer(): Octets
      requires Valid()
      reads this
    {
      if buffer.Some? then buffer.value[cursor..] else []
    }

    ghost function Unread(): Octets
      reads this
    {
      if eof then [] else Pending(script)
    }

    /** Everything the reader will still deliver. */
    ghost function Rest(): Octets
      requires Valid()
      reads this
    {
      Buffer() + Unread()
    }

    ghost predicate Clean()
      reads this
    {
      error == None && ErrorFree(script)
    }

    constructor (script: Script, preferredChunkSize: nat)
      ensures Valid() && Buffer() == [] && Rest() == Pending(script)
      ensures ErrorFree(script) ==> Clean()
    {
      buffer, cursor, unusedBuffer, error, eof := None, 0, None, None, false;
      this.script, this.preferredChunkSize := script, preferredChunkSize;
    }

    /**
     Reads into `v` from offset `at` until it holds `amount` octets, or the source
     stops; returns how many octets arrived.
     */
    method Poll(v: Octets, at: nat, amount: nat) returns (v': Octets, got: nat)
      requires at < amount <= |v|
      modifies this`script, this`eof, this`error
      ensures |v'| == |v| && at + got <= |v|
      ensures Arrived(v', at, got, old(Unread()), Unread())
      ensures at + got >= amount || eof || error.Some?
      ensures old(eof) ==> eof
      ensures old(error).Some? ==> error == old(error) && got == 0 && script == old(script)
      ensures old(Clean()) ==> Clean()
    {
      hide Answer, Pending, ErrorFree, Splice, Arrived;
      v', got := v, 0;
      NothingArrived(v, at, Unread());
      while at + got < amount && !eof && error.None?
        invariant |v'| == |v| && at + got <= |v|
        invariant Arrived(v', at, got, old(Unread()), Unread())
        invariant old(eof) ==> eof
        invariant old(error).Some? ==> error == old(error) && got == 0 && script == old(script)
        invariant old(Clean()) ==> Clean()
        decreases |script|, amount - got, !eof
      {
        ghost var before := Unread();
        var (event, next) := Answer(script, |v| - (at + got));
        script := next;
        match event
        case Chunk(data) =>
          if data == [] {
            eof := true;
          } else {
            MoreArrived(v', at, got, old(Unread()), before, data, Unread());
            v' := Splice(v', at + got, data);
            got := got + |data|;
          }
        case Interrupted =>
        case Failure(code) =>
          error := Some(Io(code));
      }
    }

    /** Replaces the buffer by a larger one, when polling the source yields anything. */
    method Fill(amount: nat, defaultBufSize: nat)
      requires Valid() && |Buffer()| < amount
      modifies this
      ensures Valid()
      ensures old(Buffer()) <= Buffer() && Rest() == old(Rest())
      ensures |Buffer()| >= amount || eof || error.Some?
      ensures old(eof) ==> eof
      ensures old(error).Some? ==> error == old(error) && Buffer() == old(Buffer()) && script == old(script)
      ensures old(Clean()) ==> Clean()
    {
      hide Pending, ErrorFree, Splice, Resized, Arrived;
      var buffered := |Buffer()|;
      var capacity := amount + Max(defaultBufSize, 2 * preferredChunkSize);
      var bufferNew := Resized(if unusedBuffer.Some? then unusedBuffer.value else [], capacity);
      unusedBuffer := None;
      var got;
      bufferNew, got := Poll(bufferNew, buffered, amount);
      Rebuffered(bufferNew, Buffer(), got, old(Unread()), Unread());
      if got > 0 {
        bufferNew := Splice(bufferNew, 0, Buffer());
        unusedBuffer := buffer;
        buffer := Some(bufferNew[..buffered + got]);
        cursor := 0;
      }
    }

    method DataHelper(amount: nat, hard: bool, andConsume: bool, defaultBufSize: nat)
      returns (r: Result<Octets>, ghost full: Octets)
      requires Valid()
      modifies this
      ensures Valid()
      // Filling: the buffer only grows, and no octet is lost.
      ensures old(Buffer()) <= full && full + Unread() == old(Rest())
      ensures amount <= |old(Buffer())| ==> full == old(Buffer()) && script == old(script)
      // Consuming.
      ensures var taken := if r.Ok? && andConsume then Min(|full|, amount) else 0;
              Buffer() == full[taken..] && Rest() == old(Rest())[taken..]
      // What is returned.
      ensures r.Ok? ==> r.value == if amount == 0 then [] else full
      ensures r.Ok? && hard ==> |full| >= amount
      ensures r.Err? && !hard ==> full == []
      ensures r.Err? && hard ==> |full| < amount
      // A stashed error stops the polling and is handed out exactly once.
      ensures old(error).Some? ==> full == old(Buffer()) && script == old(script)
      ensures old(error).Some? && r.Ok? ==> error == old(error)
      ensures r.Err? ==> error == None && (old(error).Some? ==> r.error == old(error).value)
      // Without errors.
      ensures old(Clean()) ==> Clean() && |full| >= Min(amount, |old(Rest())|)
      ensures old(Clean()) ==> (r.Err? <==> hard && |old(Rest())| < amount)
      ensures old(Clean()) && r.Err? ==> r.error == UnexpectedEof
    {
      hide Pending, ErrorFree;
      if amount > |Buffer()| {
        Fill(amount, defaultBufSize);
      }
      full := Buffer();
      assert full[0..] == full && Rest()[0..] == Rest();
      r := HandOut(amount, hard, andConsume);
    }

    /** What `data_helper` does once the buffer is filled. */
    method HandOut(amount: nat, hard: bool, andConsume: bool) returns (r: Result<Octets>)
      requires Valid()
      modifies this`cursor, this`error
      ensures Valid()
      ensures var full := old(Buffer());
              var short := if hard then |full| < amount else |full| == 0 && old(error).Some?;
              var taken := if !short && andConsume then Min(|full|, amount) else 0;
              && (r.Err? <==> short)
              && Buffer() == full[taken..] && Rest() == old(Rest())[taken..]
              && (r.Ok? ==> r.value == (if amount == 0 then [] else full) && error == old(error))
              && (r.Err? ==> error == None
                             && r.error == if old(error).Some? then old(error).value else UnexpectedEof)
    {
      hide Pending, ErrorFree;
      ghost var full := Buffer();
      assert full[0..] == full && Rest()[0..] == Rest();
      var buffered := |Buffer()|;
      if error.Some? {
        if hard && amount > buffered {
          r := Err(error.value);
          error := None;
          return;
        }
        if !hard && buffered == 0 {
          r := Err(error.value);
          error := None;
          return;
        }
      }
      if hard && buffered < amount {
        r := Err(UnexpectedEof);
      } else if amount == 0 || buffered == 0 {
        r := Ok([]);
      } else {
        r := Ok(Buffer());
        if andConsume {
          DropFront(full, Unread(), Min(buffered, amount));
          cursor := cursor + Min(buffered, amount);
        }
      }
    }

    method Consume(amount: nat) returns (r: Octets)
      requires Valid() && amount <= |Buffer()|
      modifies this`cursor
      ensures Valid() && r == old(Buffer())
      ensures Buffer() == old(Buffer())[amount..] && Rest() == old(Rest())[amount..]
    {
      r := Buffer();
      if buffer.Some? {
        cursor := cursor + amount;
      }
    }
  }
}
