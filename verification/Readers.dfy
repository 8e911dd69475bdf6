/**
 The `BufferedReader` trait and the readers that stack: `Memory`, `Generic`,
 `Limitor`, `Reserve` and `Dup` of `buffered-reader/src`.

 A wrapper owns the reader it wraps, so a stack is a chain that never changes
 shape; the trait's dynamic dispatch is a match on `layer`.  Every method below
 carries the trait's contract, and holds for every stack.
 */
module Readers {
  import opened Bytes
  import opened GenericReader

  datatype Layer =
    | Memory
    | Buffered(generic: Generic)
    | Limitor(reader: Reader)
    | Reserve(reader: Reader, reserve: nat)
    | Dup(reader: Reader)

  // ----- The views: take the first n, drop the last n

  function Take(s: Octets, n: nat): (r: Octets)
    ensures |r| == Min(|s|, n) && r <= s
  {
    s[..Min(|s|, n)]
  }

  function DropLast(s: Octets, n: nat): (r: Octets)
    ensures |r| == Max(|s| - n, 0) && r <= s
  {
    if |s| > n then s[..|s| - n] else []
  }

  function Dropped(s: Octets, n: nat): (r: Octets)
    ensures |r| == Max(|s| - n, 0)
    ensures n == 0 ==> r == s
  {
    if n <= |s| then s[n..] else []
  }

  lemma DroppedTwice(s: Octets, a: nat, b: nat)
    ensures Dropped(Dropped(s, a), b) == Dropped(s, a + b)
  {
  }

  lemma DroppedPrefix(a: Octets, b: Octets, n: nat)
    requires a <= b
    ensures Dropped(a, n) <= Dropped(b, n)
  {
  }

  lemma ViewPrefix(a: Octets, b: Octets, n: nat)
    requires a <= b
    ensures Take(a, n) <= Take(b, n)
    ensures DropLast(a, n) <= DropLast(b, n)
  {
  }

  lemma TakeAfter(s: Octets, n: nat, k: nat)
    requires k <= n && k <= |s|
    ensures Take(Dropped(s, k), n - k) == Dropped(Take(s, n), k)
  {
  }

  lemma DropLastAfter(s: Octets, n: nat, k: nat)
    requires k + n <= |s|
    ensures DropLast(Dropped(s, k), n) == Dropped(DropLast(s, n), k)
  {
  }

  /** What consuming through a limit of `limit` octets does to the view. */
  lemma LimitedTake(rest: Octets, value: Octets, limit: nat, taken: nat)
    requires value <= rest && taken <= limit && taken <= |value|
    ensures Take(value, limit) <= Take(rest, limit)
    ensures taken <= |Take(value, limit)|
    ensures Take(Dropped(rest, taken), limit - taken) == Dropped(Take(rest, limit), taken)
    ensures value[..taken] == Take(rest, limit)[..taken]
  {
  }

  lemma LimitedAmount(rest: Octets, value: Octets, limit: nat, amount: nat)
    ensures Min(amount, |Take(value, limit)|) == Min(Min(amount, limit), |value|)
    ensures Min(Min(amount, limit), |value|) <= limit && Min(Min(amount, limit), |value|) <= |value|
    ensures |value| >= Min(Min(amount, limit), |rest|) ==> |Take(value, limit)| >= Min(amount, |Take(rest, limit)|)
  {
  }

  /** The slice `Reserve::consume` returns is its own buffer. */
  lemma ReservedSlice(buffer: Octets, reserve: nat, amount: nat)
    requires amount <= |DropLast(buffer, reserve)|
    ensures amount <= |buffer|
    ensures DropLast(buffer, reserve)
         == if |buffer| > amount + reserve then buffer[..|buffer| - reserve] else buffer[..amount]
  {
  }

  class Reader {
    const layer: Layer
    /** Memory: the octets. */
    const memory: Octets
    /** Memory, Dup: octets consumed. */
    var cursor: nat
    /** Limitor: octets still allowed. */
    var limit: nat

    ghost const Repr: set<object>
    ghost const depth: nat

    ghost predicate Valid()
      reads Repr
      decreases depth, 0
    {
      && this in Repr
      && match layer
         case Memory => cursor <= |memory|
         case Buffered(g) => g in Repr && g.Valid()
         case Limitor(r) => Owns(r) && r.Valid()
         case Reserve(r, _) => Owns(r) && r.Valid()
         case Dup(r) => Owns(r) && r.Valid() && cursor <= |r.Buffer()|
    }

    ghost predicate Owns(r: Reader) {
      r in Repr && r.Repr <= Repr && this !in r.Repr && r.depth < depth
    }

    /** `buffer` */
    function Buffer(): Octets
      requires Valid()
      reads Repr
      decreases depth, 1
    {
      match layer
      case Memory => memory[cursor..]
      case Buffered(g) => g.Buffer()
      case Limitor(r) => Take(r.Buffer(), limit)
      case Reserve(r, reserve) => DropLast(r.Buffer(), reserve)
      case Dup(r) => r.Buffer()[cursor..]
    }

    /** Everything the reader will still deliver. */
    ghost function Rest(): (s: Octets)
      requires Valid()
      reads Repr
      ensures Buffer() <= s
      decreases depth, 2
    {
      match layer
      case Memory => memory[cursor..]
      case Buffered(g) => g.Rest()
      case Limitor(r) => ViewPrefix(r.Buffer(), r.Rest(), limit); Take(r.Rest(), limit)
      case Reserve(r, reserve) => ViewPrefix(r.Buffer(), r.Rest(), reserve); DropLast(r.Rest(), reserve)
      case Dup(r) => r.Rest()[cursor..]
    }

    /** No error is stashed, and the source will not report any. */
    ghost predicate Clean()
      requires Valid()
      reads Repr
      decreases depth, 2
    {
      match layer
      case Memory => true
      case Buffered(g) => g.Clean()
      case Limitor(r) => r.Clean()
      case Reserve(r, _) => r.Clean()
      case Dup(r) => r.Clean()
    }

    // ----- Building a stack

    constructor OfMemory(octets: Octets)
      ensures Valid() && layer == Memory && Repr == {this}
      ensures Rest() == octets && Clean()
    {
      layer, memory, cursor, limit := Memory, octets, 0, 0;
      Repr, depth := {this}, 0;
    }

    constructor OfGeneric(g: Generic)
      requires g.Valid()
      ensures Valid() && layer == Buffered(g) && Repr == {this, g}
      ensures Rest() == g.Rest() && (Clean() <==> g.Clean())
    {
      layer, memory, cursor, limit := Buffered(g), [], 0, 0;
      Repr, depth := {this, g}, 0;
    }

    constructor OfLimitor(r: Reader, limit: nat)
      requires r.Valid()
      ensures Valid() && layer == Limitor(r) && Repr == {this} + r.Repr
      ensures Rest() == Take(r.Rest(), limit) && (Clean() <==> r.Clean())
    {
      layer, memory, cursor, this.limit := Limitor(r), [], 0, limit;
      Repr, depth := {this} + r.Repr, r.depth + 1;
    }

    constructor OfReserve(r: Reader, reserve: nat)
      requires r.Valid()
      ensures Valid() && layer == Reserve(r, reserve) && Repr == {this} + r.Repr
      ensures Rest() == DropLast(r.Rest(), reserve) && (Clean() <==> r.Clean())
    {
      layer, memory, cursor, limit := Reserve(r, reserve), [], 0, 0;
      Repr, depth := {this} + r.Repr, r.depth + 1;
    }

    constructor OfDup(r: Reader)
      requires r.Valid()
      ensures Valid() && layer == Dup(r) && Repr == {this} + r.Repr
      ensures Rest() == r.Rest() && (Clean() <==> r.Clean())
    {
      layer, memory, cursor, limit := Dup(r), [], 0, 0;
      Repr, depth := {this} + r.Repr, r.depth + 1;
    }

    // ----- The trait's contract

    /** What the wrapped reader, if any, will still deliver. */
    ghost function InnerRest(): Octets
      requires Valid()
      reads Repr
    {
      match layer
      case Memory => []
      case Buffered(_) => []
      case Limitor(r) => r.Rest()
      case Reserve(r, _) => r.Rest()
      case Dup(r) => r.Rest()
    }

    /** The view a wrapper gives of the reader it wraps. */
    lemma WrapperView(inner: Reader)
      requires Valid() && (layer == Limitor(inner) || layer == Dup(inner) || (layer.Reserve? && layer.reader == inner))
      ensures this in Repr && Owns(inner) && inner.Valid() && InnerRest() == inner.Rest()
      ensures Clean() <==> inner.Clean()
      ensures layer.Limitor? ==> Buffer() == Take(inner.Buffer(), limit) && Rest() == Take(inner.Rest(), limit)
      ensures layer.Reserve? ==> Buffer() == DropLast(inner.Buffer(), layer.reserve)
      ensures layer.Reserve? ==> Rest() == DropLast(inner.Rest(), layer.reserve)
      ensures layer.Dup? ==> cursor <= |inner.Buffer()| <= |inner.Rest()|
      ensures layer.Dup? ==> Buffer() == Dropped(inner.Buffer(), cursor) && Rest() == Dropped(inner.Rest(), cursor)
    {
    }

    lemma WrapperValid(inner: Reader)
      requires layer == Limitor(inner) || layer == Dup(inner) || (layer.Reserve? && layer.reader == inner)
      requires this in Repr && Owns(inner) && inner.Valid()
      requires layer.Dup? ==> cursor <= |inner.Buffer()|
      ensures Valid()
    {
    }

    /** Consuming `taken` octets advances the wrapped reader by as many, or not at all under a `Dup`. */
    twostate predicate InnerAdvanced(taken: nat)
      requires old(Valid()) && Valid()
      reads Repr
    {
      InnerRest() == Dropped(old(InnerRest()), if layer.Dup? then 0 else taken)
    }

    /** `data(amount)`: the buffer only grows, up to `amount` octets unless the stream is shorter. */
    twostate predicate DataDone(amount: nat, new r: Result<Octets>)
      requires old(Valid()) && Valid()
      reads Repr
    {
      && old(Buffer()) <= Buffer() && Rest() == old(Rest())
      && (r.Ok? ==> r.value <= Buffer() && (amount > 0 ==> r.value == Buffer()))
      && (r.Err? ==> Buffer() == [])
      && (old(Clean()) ==> Clean() && r.Ok? && |r.value| >= Min(amount, |Rest()|))
      && InnerAdvanced(0)
    }

    /** `data_hard(amount)`: like `data`, but having too little is an error. */
    twostate predicate HardDone(amount: nat, new r: Result<Octets>)
      requires old(Valid()) && Valid()
      reads Repr
    {
      && old(Buffer()) <= Buffer() && Rest() == old(Rest())
      && (r.Ok? ==> |r.value| >= amount && r.value <= Buffer() && (amount > 0 ==> r.value == Buffer()))
      && (old(Clean()) ==> Clean() && (r.Ok? <==> |Rest()| >= amount))
      && InnerAdvanced(0)
    }

    /** `consume(amount)`: drops the front of the buffer, and returns what the buffer was. */
    twostate predicate ConsumeDone(amount: nat, new r: Octets)
      requires old(Valid()) && Valid()
      reads Repr
    {
      && r == old(Buffer())
      && amount <= |r| && Buffer() == Dropped(r, amount) && Rest() == Dropped(old(Rest()), amount)
      && (Clean() <==> old(Clean()))
      && InnerAdvanced(amount)
    }

    /** `data_consume(amount)`: consumes what it returns, but at most `amount`; an error consumes nothing. */
    twostate predicate DataConsumeDone(amount: nat, new r: Result<Octets>)
      requires old(Valid()) && Valid()
      reads Repr
    {
      && (r.Ok? ==>
            && r.value <= old(Rest())
            && Rest() == Dropped(old(Rest()), Min(amount, |r.value|))
            && InnerAdvanced(Min(amount, |r.value|)))
      && (r.Err? ==> Rest() == old(Rest()) && InnerAdvanced(0))
      && (old(Clean()) ==> Clean() && r.Ok? && |r.value| >= Min(amount, |old(Rest())|))
    }

    /** `data_consume_hard(amount)`: consumes exactly `amount`, or fails and consumes nothing. */
    twostate predicate DataConsumeHardDone(amount: nat, new r: Result<Octets>)
      requires old(Valid()) && Valid()
      reads Repr
    {
      && (r.Ok? ==>
            && |r.value| >= amount && r.value <= old(Rest())
            && Rest() == Dropped(old(Rest()), amount)
            && InnerAdvanced(amount))
      && (r.Err? ==> Rest() == old(Rest()) && InnerAdvanced(0))
      && (old(Clean()) ==> Clean() && (r.Ok? <==> |old(Rest())| >= amount))
    }

    /** `read` into a buffer of `room` octets; reading nothing means end of file. */
    twostate predicate ReadDone(room: nat, new r: Result<Octets>)
      requires old(Valid()) && Valid()
      reads Repr
    {
      && (r.Ok? ==>
            && |r.value| <= room && r.value <= old(Rest())
            && Rest() == Dropped(old(Rest()), |r.value|)
            && InnerAdvanced(|r.value|))
      && (r.Err? ==> Rest() == old(Rest()) && InnerAdvanced(0))
      && (old(Clean()) ==> Clean() && r.Ok? && (r.value == [] ==> room == 0 || old(Rest()) == []))
    }

    // ----- `data`

    method Data(amount: nat, bufSize: nat) returns (r: Result<Octets>)
      requires Valid()
      modifies Repr
      ensures Valid() && DataDone(amount, r)
      decreases depth, 1
    {
      match layer
      case Memory =>
        r := Ok(memory[cursor..]);
      case Buffered(g) =>
        ghost var full;
        r, full := g.DataHelper(amount, false, false, bufSize);
      case Limitor(inner) =>
        r := LimitorData(inner, amount, bufSize);
      case Reserve(inner, reserve) =>
        r := ReserveData(inner, reserve, amount, bufSize);
      case Dup(inner) =>
        r := DupData(inner, amount, bufSize);
    }

    method LimitorData(inner: Reader, amount: nat, bufSize: nat) returns (r: Result<Octets>)
      requires Valid() && layer == Limitor(inner)
      modifies Repr
      ensures Valid() && DataDone(amount, r)
      decreases depth, 0
    {
      hide Valid, Buffer, Rest, Clean, InnerRest, Take, DropLast, Owns;
      WrapperView(inner);
      r := inner.Data(Min(amount, limit), bufSize);
      WrapperValid(inner);
      WrapperView(inner);
      ViewPrefix(old(inner.Buffer()), inner.Buffer(), limit);
      if r.Ok? {
        ViewPrefix(r.value, inner.Buffer(), limit);
        r := Ok(Take(r.value, limit));
      }
    }

    method ReserveData(inner: Reader, reserve: nat, amount: nat, bufSize: nat) returns (r: Result<Octets>)
      requires Valid() && layer == Reserve(inner, reserve)
      modifies Repr
      ensures Valid() && DataDone(amount, r)
      decreases depth, 0
    {
      hide Valid, Buffer, Rest, Clean, InnerRest, Take, DropLast, Owns;
      WrapperView(inner);
      r := inner.Data(amount + reserve, bufSize);
      WrapperValid(inner);
      WrapperView(inner);
      ViewPrefix(old(inner.Buffer()), inner.Buffer(), reserve);
      if r.Ok? {
        ViewPrefix(r.value, inner.Buffer(), reserve);
        r := Ok(DropLast(r.value, reserve));
      }
    }

    method DupData(inner: Reader, amount: nat, bufSize: nat) returns (r: Result<Octets>)
      requires Valid() && layer == Dup(inner)
      modifies Repr
      ensures Valid() && DataDone(amount, r)
      decreases depth, 0
    {
      hide Valid, Buffer, Rest, Clean, InnerRest, Dropped, Owns;
      WrapperView(inner);
      r := inner.Data(cursor + amount, bufSize);
      WrapperValid(inner);
      WrapperView(inner);
      DroppedPrefix(old(inner.Buffer()), inner.Buffer(), cursor);
      if r.Ok? {
        assert |r.value| >= cursor;
        DroppedPrefix(r.value, inner.Buffer(), cursor);
        r := Ok(Dropped(r.value, cursor));
      }
    }

    /** `data_hard`: overridden by `Generic`, the default elsewhere. */
    method DataHard(amount: nat, bufSize: nat) returns (r: Result<Octets>)
      requires Valid()
      modifies Repr
      ensures Valid() && HardDone(amount, r)
    {
      if layer.Buffered? {
        ghost var full;
        r, full := layer.generic.DataHelper(amount, true, false, bufSize);
      } else {
        r := Data(amount, bufSize);
        if r.Ok? && |r.value| < amount {
          r := Err(UnexpectedEof);
        }
      }
    }

    // ----- `consume`

    method Consume(amount: nat) returns (r: Octets)
      requires Valid() && amount <= |Buffer()|
      modifies Repr
      ensures Valid() && ConsumeDone(amount, r)
      decreases depth, 1
    {
      match layer
      case Memory =>
        r := memory[cursor..];
        cursor := cursor + amount;
      case Buffered(g) =>
        r := g.Consume(amount);
      case Limitor(inner) =>
        r := LimitorConsume(inner, amount);
      case Reserve(inner, reserve) =>
        r := ReserveConsume(inner, reserve, amount);
      case Dup(inner) =>
        r := inner.Buffer()[cursor..];
        cursor := cursor + amount;
    }

    /** `rewind`: a `Dup` starts over with everything the wrapped reader has. */
    method Rewind(inner: Reader)
      requires Valid() && layer == Dup(inner)
      modifies this`cursor
      ensures Valid() && inner.Valid() && inner.Rest() == old(inner.Rest())
      ensures Buffer() == inner.Buffer() && Rest() == inner.Rest()
    {
      hide Valid, Buffer, Rest, Clean, InnerRest, Owns;
      WrapperView(inner);
      cursor := 0;
      WrapperValid(inner);
      WrapperView(inner);
    }

    method LimitorConsume(inner: Reader, amount: nat) returns (r: Octets)
      requires Valid() && layer == Limitor(inner) && amount <= |Buffer()|
      modifies Repr
      ensures Valid() && ConsumeDone(amount, r)
      decreases depth, 0
    {
      hide Valid, Buffer, Rest, Clean, InnerRest, Dropped, Take, DropLast, Owns;
      WrapperView(inner);
      TakeAfter(inner.Buffer(), limit, amount);
      TakeAfter(inner.Rest(), limit, amount);
      limit := limit - amount;
      r := inner.Consume(amount);
      WrapperValid(inner);
      WrapperView(inner);
      r := Take(r, limit + amount);
    }

    method ReserveConsume(inner: Reader, reserve: nat, amount: nat) returns (r: Octets)
      requires Valid() && layer == Reserve(inner, reserve) && amount <= |Buffer()|
      modifies Repr
      ensures Valid() && ConsumeDone(amount, r)
      decreases depth, 0
    {
      hide Valid, Buffer, Rest, Clean, InnerRest, Dropped, DropLast, Owns;
      WrapperView(inner);
      if amount > 0 {
        DropLastAfter(inner.Buffer(), reserve, amount);
        DropLastAfter(inner.Rest(), reserve, amount);
      }
      ReservedSlice(inner.Buffer(), reserve, amount);
      r := inner.Consume(amount);
      WrapperValid(inner);
      WrapperView(inner);
      if |r| > amount && |r| > amount + reserve {
        r := r[..|r| - reserve];
      } else {
        r := r[..amount];
      }
    }

    // ----- `data_consume` and `data_consume_hard`

    method DataConsume(amount: nat, bufSize: nat) returns (r: Result<Octets>)
      requires Valid()
      modifies Repr
      ensures Valid() && DataConsumeDone(amount, r)
      decreases depth, 1
    {
      hide Valid, Buffer, Rest, Clean, InnerRest, Owns;
      match layer
      case Memory =>
        r := MemoryDataConsume(amount);
      case Buffered(g) =>
        r := GenericDataConsume(g, amount, bufSize);
      case Limitor(inner) =>
        r := LimitorDataConsume(inner, amount, bufSize);
      case Reserve(_, _) =>
        r := ReserveDataConsume(amount, bufSize);
      case Dup(inner) =>
        r := DupDataConsume(inner, amount, bufSize);
    }

    method MemoryDataConsume(amount: nat) returns (r: Result<Octets>)
      requires Valid() && layer.Memory?
      modifies Repr
      ensures Valid() && DataConsumeDone(amount, r)
      decreases depth, 0
    {
      r := Ok(memory[cursor..]);
      cursor := cursor + Min(amount, |memory| - cursor);
    }

    method GenericDataConsume(g: Generic, amount: nat, bufSize: nat) returns (r: Result<Octets>)
      requires Valid() && layer == Buffered(g)
      modifies Repr
      ensures Valid() && DataConsumeDone(amount, r)
      decreases depth, 0
    {
      hide Pending, ErrorFree;
      ghost var full;
      r, full := g.DataHelper(amount, false, true, bufSize);
      if r.Ok? && amount > 0 {
        assert r.value == full;
      }
    }

    method ReserveDataConsume(amount: nat, bufSize: nat) returns (r: Result<Octets>)
      requires Valid() && layer.Reserve?
      modifies Repr
      ensures Valid() && DataConsumeDone(amount, r)
      decreases depth, 0
    {
      r := Data(amount, bufSize);
      if r.Ok? {
        var data := Consume(Min(amount, |r.value|));
        r := Ok(data);
      }
    }

    method DupDataConsume(inner: Reader, amount: nat, bufSize: nat) returns (r: Result<Octets>)
      requires Valid() && layer == Dup(inner)
      modifies Repr
      ensures Valid() && DataConsumeDone(amount, r)
      decreases depth, 0
    {
      hide Valid, Buffer, Rest, Clean, InnerRest, Dropped, Owns;
      WrapperView(inner);
      r := inner.Data(cursor + amount, bufSize);
      WrapperValid(inner);
      WrapperView(inner);
      if r.Ok? {
        assert |r.value| >= cursor;
        DroppedPrefix(r.value, inner.Rest(), cursor);
        var data := Dropped(r.value, cursor);
        DroppedTwice(inner.Rest(), cursor, Min(|data|, amount));
        cursor := cursor + Min(|data|, amount);
        WrapperValid(inner);
        WrapperView(inner);
        r := Ok(data);
      }
    }

    method LimitorDataConsume(inner: Reader, amount: nat, bufSize: nat) returns (r: Result<Octets>)
      requires Valid() && layer == Limitor(inner)
      modifies Repr
      ensures Valid() && DataConsumeDone(amount, r)
      decreases depth, 0
    {
      hide Valid, Buffer, Rest, Clean, InnerRest, Dropped, Take, Owns, Min;
      WrapperView(inner);
      ghost var rest := inner.Rest();
      var wanted := Min(amount, limit);
      r := inner.DataConsume(wanted, bufSize);
      WrapperValid(inner);
      WrapperView(inner);
      if r.Err? {
        return;
      }
      var taken := Min(wanted, |r.value|);
      LimitedAmount(rest, r.value, limit, amount);
      LimitedTake(rest, r.value, limit, taken);
      limit := limit - taken;
      WrapperValid(inner);
      WrapperView(inner);
      r := Ok(Take(r.value, limit + taken));
    }

    method DataConsumeHard(amount: nat, bufSize: nat) returns (r: Result<Octets>)
      requires Valid()
      modifies Repr
      ensures Valid() && DataConsumeHardDone(amount, r)
      decreases depth, 1
    {
      hide Valid, Buffer, Rest, Clean, InnerRest, Owns;
      match layer
      case Memory =>
        r := MemoryDataConsumeHard(amount);
      case Buffered(g) =>
        r := GenericDataConsumeHard(g, amount, bufSize);
      case Limitor(inner) =>
        r := LimitorDataConsumeHard(inner, amount, bufSize);
      case Reserve(_, _) =>
        r := ReserveDataConsumeHard(amount, bufSize);
      case Dup(inner) =>
        r := DupDataConsumeHard(inner, amount, bufSize);
    }

    method MemoryDataConsumeHard(amount: nat) returns (r: Result<Octets>)
      requires Valid() && layer.Memory?
      modifies Repr
      ensures Valid() && DataConsumeHardDone(amount, r)
      decreases depth, 0
    {
      if |memory| - cursor < amount {
        return Err(UnexpectedEof);
      }
      r := Ok(memory[cursor..]);
      cursor := cursor + amount;
    }

    method GenericDataConsumeHard(g: Generic, amount: nat, bufSize: nat) returns (r: Result<Octets>)
      requires Valid() && layer == Buffered(g)
      modifies Repr
      ensures Valid() && DataConsumeHardDone(amount, r)
      decreases depth, 0
    {
      hide Pending, ErrorFree;
      ghost var full;
      r, full := g.DataHelper(amount, true, true, bufSize);
    }

    method ReserveDataConsumeHard(amount: nat, bufSize: nat) returns (r: Result<Octets>)
      requires Valid() && layer.Reserve?
      modifies Repr
      ensures Valid() && DataConsumeHardDone(amount, r)
      decreases depth, 0
    {
      r := DataHard(amount, bufSize);
      if r.Ok? {
        var data := Consume(amount);
        r := Ok(data);
      }
    }

    method DupDataConsumeHard(inner: Reader, amount: nat, bufSize: nat) returns (r: Result<Octets>)
      requires Valid() && layer == Dup(inner)
      modifies Repr
      ensures Valid() && DataConsumeHardDone(amount, r)
      decreases depth, 0
    {
      hide Valid, Buffer, Rest, Clean, InnerRest, Dropped, Owns;
      WrapperView(inner);
      r := inner.DataHard(cursor + amount, bufSize);
      WrapperValid(inner);
      WrapperView(inner);
      if r.Ok? {
        assert |r.value| >= cursor + amount;
        DroppedPrefix(r.value, inner.Rest(), cursor);
        r := Ok(Dropped(r.value, cursor));
        DroppedTwice(inner.Rest(), cursor, amount);
        cursor := cursor + amount;
        WrapperValid(inner);
        WrapperView(inner);
      }
    }

    method LimitorDataConsumeHard(inner: Reader, amount: nat, bufSize: nat) returns (r: Result<Octets>)
      requires Valid() && layer == Limitor(inner)
      modifies Repr
      ensures Valid() && DataConsumeHardDone(amount, r)
      decreases depth, 0
    {
      hide Valid, Buffer, Rest, Clean, InnerRest, Dropped, Take, DropLast, Owns;
      WrapperView(inner);
      if amount > limit {
        return Err(UnexpectedEof);
      }
      ghost var rest := inner.Rest();
      r := inner.DataConsumeHard(amount, bufSize);
      WrapperValid(inner);
      WrapperView(inner);
      if r.Err? {
        return;
      }
      LimitedTake(rest, r.value, limit, amount);
      limit := limit - amount;
      WrapperValid(inner);
      WrapperView(inner);
      r := Ok(Take(r.value, limit + amount));
      assert Rest() == Dropped(old(Rest()), amount);
    }

    // ----- `io::Read::read`

    method Read(room: nat, bufSize: nat) returns (r: Result<Octets>)
      requires Valid()
      modifies Repr
      ensures Valid() && ReadDone(room, r)
      decreases depth, 1
    {
      match layer
      case Memory =>
        var amount := Min(room, |memory| - cursor);
        var data := Consume(amount);
        r := Ok(data[..amount]);
      case Buffered(_) =>
        r := GenericRead(room, bufSize);
      case Limitor(inner) =>
        r := LimitorRead(inner, room, bufSize);
      case Reserve(inner, reserve) =>
        r := ReserveRead(inner, reserve, room, bufSize);
      case Dup(inner) =>
        r := DupRead(inner, room, bufSize);
    }

    /** `buffered_reader_generic_read_impl` */
    method GenericRead(room: nat, bufSize: nat) returns (r: Result<Octets>)
      requires Valid()
      modifies Repr
      ensures Valid() && ReadDone(room, r)
      decreases depth, 0
    {
      r := DataConsume(room, bufSize);
      if r.Ok? {
        r := Ok(r.value[..Min(room, |r.value|)]);
      }
    }

    method DupRead(inner: Reader, room: nat, bufSize: nat) returns (r: Result<Octets>)
      requires Valid() && layer == Dup(inner)
      modifies Repr
      ensures Valid() && ReadDone(room, r)
      decreases depth, 0
    {
      hide Valid, Buffer, Rest, Clean, InnerRest, Dropped, Owns;
      WrapperView(inner);
      r := inner.Data(cursor + room, bufSize);
      WrapperValid(inner);
      WrapperView(inner);
      if r.Ok? {
        assert |r.value| >= cursor;
        DroppedPrefix(r.value, inner.Rest(), cursor);
        var data := Dropped(r.value, cursor);
        var amount := Min(room, |data|);
        DroppedTwice(inner.Rest(), cursor, amount);
        cursor := cursor + amount;
        WrapperValid(inner);
        WrapperView(inner);
        r := Ok(data[..amount]);
      }
    }

    method LimitorRead(inner: Reader, room: nat, bufSize: nat) returns (r: Result<Octets>)
      requires Valid() && layer == Limitor(inner)
      modifies Repr
      ensures Valid() && ReadDone(room, r)
      decreases depth, 0
    {
      hide Valid, Buffer, Rest, Clean, InnerRest, Dropped, Take, DropLast, Owns;
      WrapperView(inner);
      r := inner.Read(Min(limit, room), bufSize);
      WrapperValid(inner);
      WrapperView(inner);
      if r.Ok? {
        LimitedTake(old(inner.Rest()), r.value, limit, |r.value|);
        limit := limit - |r.value|;
        WrapperValid(inner);
        WrapperView(inner);
      }
    }

    method ReserveRead(inner: Reader, reserve: nat, room: nat, bufSize: nat) returns (r: Result<Octets>)
      requires Valid() && layer == Reserve(inner, reserve)
      modifies Repr
      ensures Valid() && ReadDone(room, r)
      decreases depth, 0
    {
      hide Valid, Buffer, Rest, Clean, InnerRest, Dropped, Take, DropLast, Owns;
      WrapperView(inner);
      r := inner.Data(room + reserve, bufSize);
      WrapperValid(inner);
      WrapperView(inner);
      if r.Ok? {
        if |r.value| <= reserve {
          return Ok([]);
        }
        r := inner.Read(Min(room, |r.value| - reserve), bufSize);
        WrapperValid(inner);
        WrapperView(inner);
        if r.Ok? {
          DropLastAfter(old(inner.Rest()), reserve, |r.value|);
          assert DropLast(old(inner.Rest()), reserve)[..|r.value|] == old(inner.Rest())[..|r.value|];
        }
      }
    }
  }
}
