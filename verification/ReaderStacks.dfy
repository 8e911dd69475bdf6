/** Stacks of readers compose: the outermost reader delivers the composition of the views. */
module ReaderStacks {
  import opened Bytes
  import opened GenericReader
  import opened Readers

  datatype Wrapper = Limit(octets: nat) | Hold(reserve: nat) | Duplicate

  /** What one wrapper lets through. */
  function View(w: Wrapper, s: Octets): Octets {
    match w
    case Limit(n) => Take(s, n)
    case Hold(n) => DropLast(s, n)
    case Duplicate => s
  }

  /** What a stack lets through; the last wrapper is the outermost. */
  function Views(ws: seq<Wrapper>, s: Octets): Octets {
    if ws == [] then s else View(ws[|ws| - 1], Views(ws[..|ws| - 1], s))
  }

  method Build(script: Script, chunkSize: nat, ws: seq<Wrapper>) returns (r: Reader)
    ensures r.Valid() && fresh(r.Repr)
    ensures r.Rest() == Views(ws, Pending(script))
    ensures ErrorFree(script) ==> r.Clean()
  {
    hide Reader.Valid, Reader.Buffer, Reader.Rest, Reader.Clean, Pending, ErrorFree;
    var g := new Generic(script, chunkSize);
    r := new Reader.OfGeneric(g);
    for i := 0 to |ws|
      invariant r.Valid() && fresh(r.Repr)
      invariant r.Rest() == Views(ws[..i], Pending(script))
      invariant ErrorFree(script) ==> r.Clean()
    {
      assert ws[..i + 1][..i] == ws[..i];
      if ws[i].Limit? {
        r := new Reader.OfLimitor(r, ws[i].octets);
      } else if ws[i].Hold? {
        r := new Reader.OfReserve(r, ws[i].reserve);
      } else {
        r := new Reader.OfDup(r);
      }
    }
    assert ws[..|ws|] == ws;
  }

  /**
   Whatever the fragmentation of the source, the nesting of the wrappers and the
   sizes of the reads, an error-free source is delivered through the composed view:
   every read yields the next octets of it, and an empty read only its end.
   */
  method Deliver(script: Script, chunkSize: nat, ws: seq<Wrapper>, rooms: seq<nat>, bufSize: nat)
    returns (out: Octets, ended: bool)
    requires ErrorFree(script) && forall i :: 0 <= i < |rooms| ==> rooms[i] > 0
    ensures out <= Views(ws, Pending(script))
    ensures ended ==> out == Views(ws, Pending(script))
    ensures !ended ==> |out| >= |rooms|
  {
    hide Reader.Valid, Reader.Buffer, Reader.Rest, Reader.Clean, Reader.InnerRest, Pending, ErrorFree, Views, Dropped;
    var r := Build(script, chunkSize, ws);
    ghost var all := r.Rest();
    out, ended := [], false;
    for i := 0 to |rooms|
      invariant r.Valid() && fresh(r.Repr) && r.Clean()
      invariant all == out + r.Rest()
      invariant ended ==> r.Rest() == []
      invariant !ended ==> |out| >= i
    {
      ghost var before := r.Rest();
      var data := r.Read(rooms[i], bufSize);
      FrontThenRest(out, before, data.value, r.Rest());
      out := out + data.value;
      ended := ended || data.value == [];
    }
  }

  lemma FrontThenRest(out: Octets, before: Octets, data: Octets, after: Octets)
    requires data <= before && after == Dropped(before, |data|)
    ensures out + before == out + data + after
  {
  }
}
