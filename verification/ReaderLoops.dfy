/**
 The default methods of the `BufferedReader` trait (`buffered-reader/src/lib.rs`),
 proved once for every reader.  `bufSize` is the configurable default buffer
 size; a size of zero would make several of the loops spin.
 */
module ReaderLoops {
  import opened Bytes
  import opened GenericReader
  import opened Readers

  /** How many octets come before the first one in `terminals`. */
  function Until(s: Octets, terminals: Octets): (n: nat)
    ensures n <= |s|
    ensures forall i :: 0 <= i < n ==> s[i] !in terminals
    ensures n < |s| ==> s[n] in terminals
  {
    if s == [] || s[0] in terminals then 0 else 1 + Until(s[1..], terminals)
  }

  /** The length of the stream through the first `terminal`, or of all of it. */
  function Through(s: Octets, terminal: byte): (n: nat)
    ensures n <= |s| && (s != [] ==> n > 0)
  {
    Min(Until(s, [terminal]) + 1, |s|)
  }

  lemma UntilAfter(content: Octets, terminal: byte, tail: Octets)
    requires terminal !in content
    ensures Until(content + [terminal] + tail, [terminal]) == |content|
  {
    var s := content + [terminal] + tail;
    forall i | 0 <= i < |content| ensures s[i] !in [terminal] {
      assert s[i] == content[i];
    }
    UntilIsUnique(s, [terminal], |content|);
  }

  lemma UntilIsUnique(s: Octets, terminals: Octets, n: nat)
    requires n <= |s| && (forall i :: 0 <= i < n ==> s[i] !in terminals) && (n < |s| ==> s[n] in terminals)
    ensures n == Until(s, terminals)
  {
  }

  /** The first match in a prefix of the stream is the first match in the stream. */
  lemma {:induction false} UntilOfPrefix(a: Octets, b: Octets, terminals: Octets)
    requires a <= b
    ensures Until(a, terminals) < |a| ==> Until(b, terminals) == Until(a, terminals)
    ensures Until(a, terminals) == |a| ==> Until(b, terminals) == |a| + Until(Dropped(b, |a|), terminals)
    decreases |a|
  {
    if a == [] {
      assert Dropped(b, 0) == b;
    } else if a[0] !in terminals {
      assert a[1..] <= b[1..] && b[0] == a[0];
      UntilOfPrefix(a[1..], b[1..], terminals);
      assert Dropped(b[1..], |a| - 1) == Dropped(b, |a|);
    } else {
      assert b[0] == a[0];
    }
  }

  /** `data_eof` */
  method DataEof(reader: Reader, bufSize: nat) returns (r: Result<Octets>)
    requires reader.Valid() && bufSize > 0
    modifies reader.Repr
    ensures reader.Valid() && reader.Rest() == old(reader.Rest())
    ensures r.Ok? ==> r.value == reader.Buffer()
    ensures old(reader.Clean()) ==> reader.Clean() && r == Ok(reader.Rest())
  {
    hide Reader.Valid, Reader.Buffer, Reader.Rest, Reader.Clean, Reader.InnerRest;
    var s := bufSize;
    while true
      invariant s > 0 && reader.Valid() && reader.Rest() == old(reader.Rest())
      invariant old(reader.Clean()) ==> reader.Clean()
      decreases |old(reader.Rest())| - s
    {
      var data := reader.Data(s, bufSize);
      if data.Err? {
        return data;
      }
      if |data.value| < s {
        break;
      }
      s := s * 2;
    }
    r := Ok(reader.Buffer());
    if old(reader.Clean()) {
      WholePrefix(reader.Buffer(), reader.Rest());
    }
  }

  lemma WholePrefix(a: Octets, b: Octets)
    requires a <= b && |a| >= |b|
    ensures a == b
  {
  }

  /** `read_to` */
  method ReadTo(reader: Reader, terminal: byte, bufSize: nat) returns (r: Result<Octets>)
    requires reader.Valid()
    modifies reader.Repr
    ensures reader.Valid() && reader.Rest() == old(reader.Rest())
    ensures r.Ok? ==> r.value <= reader.Buffer() && |r.value| <= Until(reader.Rest(), [terminal]) + 1
    ensures old(reader.Clean()) ==> reader.Clean() && r.Ok?
    ensures old(reader.Clean()) ==> |r.value| == Through(reader.Rest(), terminal)
  {
    hide Reader.Valid, Reader.Buffer, Reader.Rest, Reader.Clean, Reader.InnerRest;
    var n := 128;
    var len;
    while true
      invariant n > 0 && reader.Valid() && reader.Rest() == old(reader.Rest())
      invariant old(reader.Clean()) ==> reader.Clean()
      decreases |old(reader.Rest())| - n
    {
      var data := reader.Data(n, bufSize);
      if data.Err? {
        return data;
      }
      var position := Until(data.value, [terminal]);
      UntilOfPrefix(data.value, reader.Rest(), [terminal]);
      if position < |data.value| {
        len := position + 1;
        break;
      } else if |data.value| < n {
        len := |data.value|;
        break;
      }
      n := Max(2 * n, |data.value| + 1024);
    }
    r := Ok(reader.Buffer()[..len]);
  }

  /** Dropping the octets before a match, or a buffer without one, keeps the search on course. */
  lemma UntilAfterDrop(all: Octets, total: nat, buffer: Octets, terminals: Octets)
    requires total <= |all| && buffer <= Dropped(all, total)
    requires Until(all, terminals) == total + Until(Dropped(all, total), terminals)
    ensures var position := Until(buffer, terminals);
            && total + position <= |all|
            && Dropped(Dropped(all, total), position) == Dropped(all, total + position)
            && Until(all, terminals) == total + position + Until(Dropped(all, total + position), terminals)
            && (position < |buffer| ==> Until(all, terminals) == total + position)
  {
    hide Until, Dropped;
    var position, rest := Until(buffer, terminals), Dropped(all, total);
    UntilOfPrefix(buffer, rest, terminals);
    DroppedTwice(all, total, position);
    assert buffer[..position] <= rest;
    UntilAfterMisses(rest, position, terminals);
  }

  lemma {:induction false} UntilAfterMisses(s: Octets, k: nat, terminals: Octets)
    requires k <= Until(s, terminals)
    ensures Until(s, terminals) == k + Until(Dropped(s, k), terminals)
    decreases k
  {
    if k > 0 {
      UntilAfterMisses(s[1..], k - 1, terminals);
      assert Dropped(s[1..], k - 1) == Dropped(s, k);
    }
  }

  predicate IsSorted(terminals: Octets) {
    forall i, j :: 0 <= i < j < |terminals| ==> terminals[i] <= terminals[j]
  }

  /** `terminals.binary_search(c).is_ok()` */
  method IsTerminal(terminals: Octets, c: byte) returns (found: bool)
    requires IsSorted(terminals)
    ensures found <==> c in terminals
  {
    var low, high := 0, |terminals|;
    while low < high
      invariant 0 <= low <= high <= |terminals|
      invariant forall i :: 0 <= i < low ==> terminals[i] < c
      invariant forall i :: high <= i < |terminals| ==> terminals[i] > c
    {
      var middle := low + (high - low) / 2;
      if terminals[middle] == c {
        return true;
      }
      if terminals[middle] < c {
        low := middle + 1;
      } else {
        high := middle;
      }
    }
    return false;
  }

  /** The position of the first terminal in the buffer, or its length. */
  method Position(buffer: Octets, terminals: Octets) returns (n: nat)
    requires IsSorted(terminals)
    ensures n == Until(buffer, terminals)
  {
    n := 0;
    while n < |buffer|
      invariant n <= |buffer| && forall i :: 0 <= i < n ==> buffer[i] !in terminals
    {
      var found := IsTerminal(terminals, buffer[n]);
      if found {
        break;
      }
      n := n + 1;
    }
    UntilIsUnique(buffer, terminals, n);
  }

  /** `drop_until`; `gone` octets were dropped, also when an error cuts the search short. */
  method DropUntil(reader: Reader, terminals: Octets, bufSize: nat) returns (r: Result<nat>, ghost gone: nat)
    requires reader.Valid() && bufSize > 0
    requires IsSorted(terminals)
    modifies reader.Repr
    ensures reader.Valid()
    ensures gone <= Until(old(reader.Rest()), terminals) && reader.Rest() == Dropped(old(reader.Rest()), gone)
    ensures r.Ok? ==> r.value == gone
    ensures old(reader.Clean()) ==> reader.Clean() && r == Ok(Until(old(reader.Rest()), terminals))
  {
    hide Reader.Valid, Reader.Buffer, Reader.Rest, Reader.Clean, Reader.InnerRest, Until, Dropped;
    var total: nat, found := 0, false;
    ghost var all := reader.Rest();
    while !found
      invariant reader.Valid() && total <= |all| && reader.Rest() == Dropped(all, total)
      invariant Until(all, terminals) == total + Until(Dropped(all, total), terminals)
      invariant found ==> Until(all, terminals) == total
      invariant old(reader.Clean()) ==> reader.Clean()
      decreases !found, |all| - total
    {
      var buffer := reader.Buffer();
      if buffer == [] {
        var data := reader.Data(bufSize, bufSize);
        if data.Err? {
          return Err(data.error), total;
        }
        buffer := data.value;
        if buffer == [] {
          return Ok(total), total;
        }
      }
      var position := Position(buffer, terminals);
      UntilAfterDrop(all, total, buffer, terminals);
      var _ := reader.Consume(position);
      total := total + position;
      found := position < |buffer|;
    }
    return Ok(total), total;
  }

  lemma DroppedFront(s: Octets, n: nat)
    ensures n < |s| ==> Dropped(s, n) != [] && Dropped(s, n)[0] == s[n]
  {
  }

  /** `drop_through` */
  method DropThrough(reader: Reader, terminals: Octets, matchEof: bool, bufSize: nat)
    returns (r: Result<(Option<byte>, nat)>, ghost gone: nat)
    requires reader.Valid() && bufSize > 0
    requires IsSorted(terminals)
    modifies reader.Repr
    ensures reader.Valid() && reader.Rest() == Dropped(old(reader.Rest()), gone)
    ensures gone <= Until(old(reader.Rest()), terminals) + 1
    ensures r.Ok? ==> r.value.1 == gone
    ensures r.Ok? && r.value.0.Some? ==>
              0 < gone <= |old(reader.Rest())| && r.value.0.value == old(reader.Rest())[gone - 1]
    ensures old(reader.Clean()) ==>
              var all, n := old(reader.Rest()), Until(old(reader.Rest()), terminals);
              var past: nat := n + 1;
              && reader.Clean()
              && reader.Rest() == Dropped(all, past)
              && r == if n < |all| then Ok((Some(all[n]), past))
                      else if matchEof then Ok((None, n)) else Err(UnexpectedEof)
  {
    hide Reader.Valid, Reader.Buffer, Reader.Rest, Reader.Clean, Reader.InnerRest, Until, Dropped;
    ghost var all := reader.Rest();
    var dropped;
    dropped, gone := DropUntil(reader, terminals, bufSize);
    if dropped.Err? {
      return Err(dropped.error), gone;
    }
    DroppedTwice(all, dropped.value, 1);
    DroppedFront(all, dropped.value);
    var rest := reader.DataConsume(1, bufSize);
    if rest.Err? {
      return Err(rest.error), gone;
    }
    if rest.value == [] {
      return if matchEof then Ok((None, dropped.value)) else Err(UnexpectedEof), gone;
    }
    var past: nat := dropped.value + 1;
    return Ok((Some(rest.value[0]), past)), past;
  }

  /** `steal` */
  method Steal(reader: Reader, amount: nat, bufSize: nat) returns (r: Result<Octets>)
    requires reader.Valid()
    modifies reader.Repr
    ensures reader.Valid()
    ensures r.Ok? ==> |r.value| == amount && r.value <= old(reader.Rest())
                      && reader.Rest() == Dropped(old(reader.Rest()), amount)
    ensures r.Err? ==> reader.Rest() == old(reader.Rest())
    ensures old(reader.Clean()) ==> reader.Clean() && (r.Ok? <==> amount <= |old(reader.Rest())|)
  {
    hide Reader.Valid, Reader.Buffer, Reader.Rest, Reader.Clean, Reader.InnerRest, Dropped;
    r := reader.DataConsumeHard(amount, bufSize);
    if r.Ok? {
      r := Ok(r.value[..amount]);
    }
  }

  /** `steal_eof` */
  method StealEof(reader: Reader, bufSize: nat) returns (r: Result<Octets>)
    requires reader.Valid() && bufSize > 0
    modifies reader.Repr
    ensures reader.Valid()
    ensures r.Err? ==> reader.Rest() == old(reader.Rest())
    ensures old(reader.Clean()) ==> reader.Clean() && r == Ok(old(reader.Rest())) && reader.Rest() == []
  {
    hide Reader.Valid, Reader.Buffer, Reader.Rest, Reader.Clean, Reader.InnerRest;
    r := DataEof(reader, bufSize);
    if r.Ok? {
      r := Steal(reader, |r.value|, bufSize);
      if old(reader.Clean()) {
        WholePrefix(r.value, old(reader.Rest()));
      }
    }
  }

  /** `copy`, with the sink's content; `drop_eof` is the same loop without a sink. */
  method Copy(reader: Reader, sink: Octets, bufSize: nat) returns (r: Result<nat>, sink': Octets)
    requires reader.Valid() && bufSize > 0
    modifies reader.Repr
    ensures reader.Valid()
    ensures sink <= sink' && sink' + reader.Rest() == sink + old(reader.Rest())
    ensures r.Ok? ==> r.value == |sink'| - |sink|
    ensures old(reader.Clean()) ==> reader.Clean() && r.Ok? && reader.Rest() == []
  {
    hide Reader.Valid, Reader.Buffer, Reader.Rest, Reader.Clean, Reader.InnerRest, Dropped;
    var total, more := 0, true;
    sink' := sink;
    ghost var all := sink + reader.Rest();
    while more
      invariant reader.Valid() && sink <= sink' && total == |sink'| - |sink|
      invariant sink' + reader.Rest() == all
      invariant old(reader.Clean()) ==> reader.Clean() && (!more ==> reader.Rest() == [])
      decreases more, |reader.Rest()|
    {
      var data := reader.Data(bufSize, bufSize);
      if data.Err? {
        return Err(data.error), sink';
      }
      MoveFront(sink', data.value, reader.Rest());
      sink' := sink' + data.value;
      var n := |data.value|;
      total := total + n;
      var _ := reader.Consume(n);
      more := n >= bufSize;
    }
    return Ok(total), sink';
  }

  lemma MoveFront(sink: Octets, data: Octets, rest: Octets)
    requires data <= rest
    ensures sink + rest == sink + data + Dropped(rest, |data|)
  {
  }

  /** `drop_eof` */
  method DropEof(reader: Reader, bufSize: nat) returns (r: Result<bool>, ghost gone: nat)
    requires reader.Valid() && bufSize > 0
    modifies reader.Repr
    ensures reader.Valid() && reader.Rest() == Dropped(old(reader.Rest()), gone)
    ensures r.Ok? ==> r.value == (gone > 0)
    ensures old(reader.Clean()) ==> reader.Clean() && r == Ok(old(reader.Rest()) != []) && reader.Rest() == []
  {
    hide Reader.Valid, Reader.Buffer, Reader.Rest, Reader.Clean, Reader.InnerRest, Dropped;
    var atLeastOne, more := false, true;
    ghost var all := reader.Rest();
    gone := 0;
    while more
      invariant reader.Valid() && gone <= |all| && reader.Rest() == Dropped(all, gone)
      invariant atLeastOne == (gone > 0)
      invariant old(reader.Clean()) ==> reader.Clean() && (!more ==> reader.Rest() == [])
      decreases more, |reader.Rest()|
    {
      var data := reader.Data(bufSize, bufSize);
      if data.Err? {
        return Err(data.error), gone;
      }
      var n := |data.value|;
      atLeastOne := atLeastOne || n > 0;
      DroppedTwice(all, gone, n);
      var _ := reader.Consume(n);
      gone := gone + n;
      more := n >= bufSize;
    }
    return Ok(atLeastOne), gone;
  }
}
