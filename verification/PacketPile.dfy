/**
 A pile of packets, as in `openpgp/src/packet_pile.rs`: packets form a forest, which
 is built from the packets and depths that the parser reports, and edited by path.
 */
module PacketPile {
  import opened Bytes

  /** The packets that have a container, and all others. */
  datatype Kind = CompressedData | Seip | Literal | Unknown | Other(tag: nat)

  /** A body is a string of octets, or parsed. */
  datatype Body = Raw(octets: Octets) | Structured(packets: seq<Packet>)

  datatype Packet = Packet(kind: Kind, fields: Octets, body: Body)

  /** A packet of the parser, at its recursion depth. */
  datatype Event = Event(packet: Packet, depth: nat)

  predicate HasContainer(p: Packet) {
    !p.kind.Other?
  }

  /** Packets can be put only into a container whose body is structured. */
  predicate HasChildren(p: Packet) {
    HasContainer(p) && p.body.Structured?
  }

  function Children(p: Packet): seq<Packet> {
    if HasChildren(p) then p.body.packets else []
  }

  /** A packet without its children. */
  function Bare(p: Packet): (b: Packet)
    ensures HasChildren(b) == HasChildren(p) && HasContainer(b) == HasContainer(p) && Children(b) == []
  {
    if HasChildren(p) then p.(body := Structured([])) else p
  }

  predicate IsBare(p: Packet) {
    Children(p) == []
  }

  /** The packets in depth-first order, with their depths. */
  function Listing(f: seq<Packet>, depth: nat): (l: seq<Event>)
    ensures |l| >= |f|
    decreases f
  {
    if f == [] then []
    else Listing(f[..|f| - 1], depth) + Tree(f[|f| - 1], depth)
  }

  function Tree(p: Packet, depth: nat): (l: seq<Event>)
    ensures l != [] && l[0] == Event(Bare(p), depth)
    decreases p
  {
    [Event(Bare(p), depth)] + if HasChildren(p) then Listing(p.body.packets, depth + 1) else []
  }

  // ----- The listing determines the pile

  lemma {:induction false} Deeper(f: seq<Packet>, depth: nat)
    ensures forall e :: e in Listing(f, depth) ==> e.depth >= depth
    decreases f
  {
    if f != [] {
      var p := f[|f| - 1];
      Deeper(f[..|f| - 1], depth);
      if HasChildren(p) {
        Deeper(p.body.packets, depth + 1);
      }
    }
  }

  /** Two listings that agree come from the same pile. */
  lemma {:induction false} ListingInjective(f: seq<Packet>, g: seq<Packet>, depth: nat)
    requires Listing(f, depth) == Listing(g, depth)
    ensures f == g
    decreases f
  {
    if f == [] || g == [] {
      assert |Listing(f, depth)| >= |f| && |Listing(g, depth)| >= |g|;
    } else {
      hide Listing, Tree;
      var m, n := |f| - 1, |g| - 1;
      SameSplit(f, g, depth);
      ListingInjective(f[..m], g[..n], depth);
      TreeInjective(f[m], g[n], depth);
      assert f == f[..m] + [f[m]] && g == g[..n] + [g[n]];
    }
  }

  lemma {:induction false} TreeInjective(p: Packet, q: Packet, depth: nat)
    requires Tree(p, depth) == Tree(q, depth)
    ensures p == q
    decreases p
  {
    hide Listing;
    assert Bare(p) == Tree(p, depth)[0].packet == Bare(q);
    if HasChildren(p) {
      assert Tree(p, depth)[1..] == Listing(p.body.packets, depth + 1);
      assert Tree(q, depth)[1..] == Listing(q.body.packets, depth + 1);
      ListingInjective(p.body.packets, q.body.packets, depth + 1);
    }
  }

  lemma SameSplit(f: seq<Packet>, g: seq<Packet>, depth: nat)
    requires f != [] && g != [] && Listing(f, depth) == Listing(g, depth)
    ensures Listing(f[..|f| - 1], depth) == Listing(g[..|g| - 1], depth)
    ensures Tree(f[|f| - 1], depth) == Tree(g[|g| - 1], depth)
  {
    hide Listing, Tree;
    LastTree(f, depth);
    LastTree(g, depth);
  }

  /** The last tree starts at the last event of its depth. */
  lemma LastTree(f: seq<Packet>, depth: nat)
    requires f != []
    ensures var i := |Listing(f[..|f| - 1], depth)|;
            var l := Listing(f, depth);
            && i < |l| && l[..i] == Listing(f[..|f| - 1], depth) && l[i..] == Tree(f[|f| - 1], depth)
            && l[i].depth == depth && (forall k :: i < k < |l| ==> l[k].depth > depth)
  {
    var p := f[|f| - 1];
    var i, l := |Listing(f[..|f| - 1], depth)|, Listing(f, depth);
    assert l[i] == Tree(p, depth)[0];
    if HasChildren(p) {
      Deeper(p.body.packets, depth + 1);
      forall k | i < k < |l| ensures l[k].depth > depth {
        assert l[k] == Listing(p.body.packets, depth + 1)[k - i - 1];
      }
    }
  }

  // ----- The container that is `depth` levels down the last packets

  function ContainerAt(b: Body, depth: nat): Option<Body>
    decreases depth
  {
    if depth == 0 then Some(b)
    else if b.Structured? && b.packets != [] && HasContainer(b.packets[|b.packets| - 1])
    then ContainerAt(b.packets[|b.packets| - 1].body, depth - 1)
    else None
  }

  predicate Open(b: Body, depth: nat)
    ensures Open(b, depth) ==> b.Structured?
  {
    ContainerAt(b, depth).Some? && ContainerAt(b, depth).value.Structured?
  }

  /** Appends a packet to the container at a depth. */
  function Push(b: Body, depth: nat, p: Packet): (r: Body)
    requires Open(b, depth)
    ensures r.Structured?
    decreases depth
  {
    if depth == 0 then Structured(b.packets + [p])
    else
      var last := b.packets[|b.packets| - 1];
      Structured(b.packets[..|b.packets| - 1] + [last.(body := Push(last.body, depth - 1, p))])
  }

  lemma {:induction false} ContainerBelow(b: Body, depth: nat)
    ensures ContainerAt(b, depth + 1) ==
            if Open(b, depth) then ContainerAt(ContainerAt(b, depth).value, 1) else None
    decreases depth
  {
    if depth > 0 && b.Structured? && b.packets != [] && HasContainer(b.packets[|b.packets| - 1]) {
      ContainerBelow(b.packets[|b.packets| - 1].body, depth - 1);
    }
  }

  /** Wherever the container is, its new packet comes last in the listing. */
  lemma {:induction false} ListingPush(b: Body, depth: nat, p: Packet, base: nat)
    requires Open(b, depth) && IsBare(p)
    ensures Listing(Push(b, depth, p).packets, base) == Listing(b.packets, base) + [Event(p, base + depth)]
    decreases depth
  {
    hide Listing;
    var pushed := Push(b, depth, p).packets;
    ListingSplit(pushed, base);
    if depth == 0 {
      assert pushed[..|b.packets|] == b.packets;
      assert Tree(p, base) == [Event(p, base)] by { ListingOfNone(base + 1); }
    } else {
      var last := b.packets[|b.packets| - 1];
      ListingSplit(b.packets, base);
      assert pushed[..|b.packets| - 1] == b.packets[..|b.packets| - 1];
      ListingPush(last.body, depth - 1, p, base + 1);
    }
  }

  lemma ListingSplit(f: seq<Packet>, base: nat)
    requires f != []
    ensures Listing(f, base) == Listing(f[..|f| - 1], base) + Tree(f[|f| - 1], base)
  {
  }

  lemma ListingOfNone(base: nat)
    ensures Listing([], base) == []
  {
  }

  // ----- Building a pile

  datatype Outcome = Built(packets: seq<Packet>) | Failed | Panicked

  /** Whether a packet can come after an event, at a depth. */
  predicate Fits(last: Event, depth: nat) {
    depth <= last.depth || (depth == last.depth + 1 && HasChildren(last.packet))
  }

  predicate WellFormed(l: seq<Event>) {
    l != [] ==> l[0].depth == 0 && forall i :: 0 < i < |l| ==> Fits(l[i - 1], l[i].depth)
  }

  /** The last event of the listing says which containers there are. */
  lemma {:induction false} Reach(f: seq<Packet>, depth: nat, base: nat)
    requires f != []
    ensures Listing(f, base) != []
    ensures var last := Listing(f, base)[|Listing(f, base)| - 1];
            var c := ContainerAt(Structured(f), depth);
            && (Open(Structured(f), depth) <==> Fits(last, base + depth))
            && (c.Some? <==>
                base + depth <= last.depth || (base + depth == last.depth + 1 && HasContainer(last.packet)))
    decreases depth, f
  {
    hide Listing;
    ListingSplit(f, base);
    var p := f[|f| - 1];
    if IsBare(p) {
      assert Tree(p, base) == [Event(p, base)] by { ListingOfNone(base + 1); }
      assert Listing(f, base)[|Listing(f, base)| - 1] == Event(p, base);
      assert ContainerAt(Structured(f), 1) == if HasContainer(p) then ContainerAt(p.body, 0) else None;
      assert depth > 1 ==> ContainerAt(Structured(f), depth) == None;
    } else {
      Reach(p.body.packets, if depth == 0 then 0 else depth - 1, base + 1);
    }
  }

  /**
   The depth at which a packet is put: where the parser says, except that a packet
   that is more than one level deeper than the one before becomes its sibling.
   */
  function PlacedDepth(events: seq<Event>, i: nat): nat
    requires i < |events|
  {
    if i == 0 || events[i].depth < events[i - 1].depth then events[i].depth
    else if events[i].depth == events[i - 1].depth + 1 then PlacedDepth(events, i - 1) + 1
    else PlacedDepth(events, i - 1)
  }

  function Placed(events: seq<Event>): (l: seq<Event>)
    ensures |l| == |events|
  {
    seq(|events|, i requires 0 <= i < |events| => Event(events[i].packet, PlacedDepth(events, i)))
  }

  /** What happens to the first packet that does not fit. */
  function Misfit(last: Event, depth: nat): Outcome {
    if depth > last.depth + 1 && HasContainer(last.packet) && !HasChildren(last.packet) then Failed else Panicked
  }

  /** Why the last packet of a container cannot be entered, if it cannot. */
  function Obstacle(container: Body): Option<Outcome> {
    if !container.Structured? then Some(Failed)
    else if container.packets == [] || !HasContainer(container.packets[|container.packets| - 1]) then Some(Panicked)
    else None
  }

  /** The walk from the top level to a container stopped short of it. */
  ghost predicate WalkFails(packets: seq<Packet>, depth: nat, o: Outcome) {
    && ContainerAt(Structured(packets), depth).None?
    && !o.Built?
    && (o == Failed <==>
        exists k :: 0 <= k < depth && ContainerAt(Structured(packets), k).Some? && !Open(Structured(packets), k))
  }

  method Walk(packets: seq<Packet>, depth: nat) returns (r: Option<Outcome>)
    ensures r.None? ==> ContainerAt(Structured(packets), depth).Some?
    ensures r.Some? ==> depth > 0 && WalkFails(packets, depth, r.value)
  {
    ghost var b := Structured(packets);
    var container := Structured(packets);
    for k := 0 to depth
      invariant ContainerAt(b, k) == Some(container)
      invariant forall j :: 0 <= j < k ==> Open(b, j)
    {
      ContainerBelow(b, k);
      if Obstacle(container).Some? {
        NoneBelow(b, k + 1, depth);
        forall j | k < j < depth ensures ContainerAt(b, j) == None { NoneBelow(b, k + 1, j); }
        assert Obstacle(container) == Some(Failed) ==> !Open(b, k);
        return Obstacle(container);
      }
      container := container.packets[|container.packets| - 1].body;
    }
    return None;
  }

  lemma {:induction false} NoneBelow(b: Body, k: nat, depth: nat)
    requires ContainerAt(b, k).None? && k <= depth
    ensures ContainerAt(b, depth).None?
    decreases depth - k
  {
    if k < depth {
      ContainerBelow(b, k);
      NoneBelow(b, k + 1, depth);
    }
  }

  /** All packets before `i` fit. */
  ghost predicate FitUpTo(l: seq<Event>, i: nat) {
    i <= |l| && forall k :: 0 < k < i ==> Fits(l[k - 1], l[k].depth)
  }

  ghost predicate Stops(l: seq<Event>, o: Outcome) {
    exists i: nat :: StopsAt(l, i, o)
  }

  ghost predicate StopsAt(l: seq<Event>, i: nat, o: Outcome) {
    0 < i < |l| && FitUpTo(l, i) && !Fits(l[i - 1], l[i].depth) && o == Misfit(l[i - 1], l[i].depth)
  }

  /** The pile holds the packets before `i`. */
  ghost predicate Holds(f: seq<Packet>, l: seq<Event>, i: nat) {
    FitUpTo(l, i) && Listing(f, 0) == l[..i]
  }

  lemma LastEvent(f: seq<Packet>, l: seq<Event>, i: nat)
    requires Holds(f, l, i) && i > 0
    ensures f != [] && Listing(f, 0) != [] && Listing(f, 0)[|Listing(f, 0)| - 1] == l[i - 1]
  {
    hide Listing;
    ListingOfNone(0);
  }

  lemma WalkStops(f: seq<Packet>, l: seq<Event>, i: nat, o: Outcome)
    requires i < |l| && Holds(f, l, i) && i > 0 && WalkFails(f, l[i].depth, o)
    ensures StopsAt(l, i, o)
  {
    hide Listing, ContainerAt, Open;
    var last, depth := l[i - 1], l[i].depth;
    LastEvent(f, l, i);
    Reach(f, depth, 0);
    forall k: nat | k < depth
      ensures ContainerAt(Structured(f), k).Some? && !Open(Structured(f), k)
         <==> k == last.depth + 1 && HasContainer(last.packet) && !HasChildren(last.packet)
    {
      Reach(f, k, 0);
    }
    if depth > last.depth + 1 && HasContainer(last.packet) && !HasChildren(last.packet) {
      var k := last.depth + 1;
      assert ContainerAt(Structured(f), k).Some? && !Open(Structured(f), k);
    }
  }

  lemma DescendStops(f: seq<Packet>, l: seq<Event>, i: nat)
    requires i < |l| && Holds(f, l, i) && i > 0 && l[i].depth == l[i - 1].depth + 1
    requires !Open(Structured(f), l[i].depth)
    ensures StopsAt(l, i, Panicked)
  {
    hide Listing, ContainerAt, Open;
    LastEvent(f, l, i);
    Reach(f, l[i].depth, 0);
  }

  lemma PushStops(f: seq<Packet>, l: seq<Event>, i: nat)
    requires i < |l| && Holds(f, l, i)
    requires ContainerAt(Structured(f), l[i].depth).Some? && !Open(Structured(f), l[i].depth)
    requires i == 0 ==> l[i].depth == 0
    ensures StopsAt(l, i, Panicked)
  {
    hide Listing;
    if i > 0 {
      LastEvent(f, l, i);
      Reach(f, l[i].depth, 0);
    }
  }

  lemma PushFits(f: seq<Packet>, l: seq<Event>, i: nat)
    requires i < |l| && Holds(f, l, i) && Open(Structured(f), l[i].depth) && IsBare(l[i].packet)
    ensures Holds(Push(Structured(f), l[i].depth, l[i].packet).packets, l, i + 1)
  {
    hide Listing, ContainerAt, Push;
    if i > 0 {
      LastEvent(f, l, i);
      Reach(f, l[i].depth, 0);
    }
    ListingPush(Structured(f), l[i].depth, l[i].packet, 0);
  }

  lemma LastIsOpen(f: seq<Packet>, l: seq<Event>, i: nat, depth: nat)
    requires Holds(f, l, i) && i > 0 && depth <= l[i - 1].depth
    ensures Open(Structured(f), depth)
  {
    hide Listing, ContainerAt, Open;
    LastEvent(f, l, i);
    Reach(f, depth, 0);
  }

  /** Packets are put where the parser says exactly when no depth rises by more than one. */
  lemma PlacedWhereReported(events: seq<Event>)
    ensures Placed(events) == events <==> forall i :: 0 < i < |events| ==> events[i].depth <= events[i - 1].depth + 1
    ensures WellFormed(events) ==> Placed(events) == events
  {
    if forall i :: 0 < i < |events| ==> events[i].depth <= events[i - 1].depth + 1 {
      for i := 0 to |events|
        invariant forall j :: 0 <= j < i ==> Placed(events)[j] == events[j]
      {
      }
    } else {
      var i :| 0 < i < |events| && events[i].depth > events[i - 1].depth + 1;
      assert Placed(events)[i].depth == Placed(events)[i - 1].depth;
    }
  }

  lemma HoldsNothing(l: seq<Event>)
    ensures Holds([], l, 0)
  {
  }

  lemma Misplaced(events: seq<Event>)
    requires events != [] && events[0].depth != 0
    ensures !WellFormed(events)
  {
  }

  lemma Finished(events: seq<Event>, f: seq<Packet>)
    requires Holds(f, Placed(events), |events|) && (events != [] ==> events[0].depth == 0)
    ensures WellFormed(Placed(events)) && Listing(f, 0) == Placed(events)
    ensures Listing(f, 0) == events <==> WellFormed(events)
  {
    hide Listing;
    PlacedWhereReported(events);
  }

  lemma StoppedIsMalformed(events: seq<Event>, i: nat, o: Outcome)
    requires StopsAt(Placed(events), i, o)
    ensures Stops(Placed(events), o) && !WellFormed(events)
  {
    PlacedWhereReported(events);
  }

  /**
   Builds a pile from the events of a parser.

   The parser reports a packet before its children, so packets come bare.
   */
  method Build(events: seq<Event>) returns (o: Outcome)
    requires forall e :: e in events ==> IsBare(e.packet)
    ensures o.Built? && Listing(o.packets, 0) == events <==> WellFormed(events)
    ensures o.Built? ==> WellFormed(Placed(events)) && Listing(o.packets, 0) == Placed(events)
    ensures !o.Built? ==> events != [] && if events[0].depth == 0 then Stops(Placed(events), o) else o == Failed
  {
    hide Listing, Push, Fits, Misfit, WalkFails, StopsAt, Stops, Holds, WellFormed;
    HoldsNothing(Placed(events));
    if events != [] && events[0].depth != 0 {
      assert !WellFormed(events) by { Misplaced(events); }
      return Failed;
    }
    if events == [] {
      Finished(events, []);
      return Built([]);
    }
    ghost var placed := Placed(events);
    var topLevel: seq<Packet> := [];
    var lastPosition: int := 0;
    var i := 0;
    while true
      invariant i < |events|
      invariant i == 0 ==> lastPosition == 0
      invariant i > 0 ==> events[i].depth < events[i - 1].depth == lastPosition
      invariant Holds(topLevel, placed, i)
      decreases |events| - i
    {
      var packet := events[i].packet;
      var position: int := events[i].depth;
      var relative := position - lastPosition;
      assert relative <= 1;
      var depth: nat := position - if relative > 0 then 1 else 0;
      var failure := Walk(topLevel, depth);
      if failure.Some? {
        WalkStops(topLevel, placed, i, failure.value);
        StoppedIsMalformed(events, i, failure.value);
        return failure.value;
      }
      if relative < 0 {
        relative := 0;
      }
      while true
        invariant i < |events| && packet == events[i].packet && position == events[i].depth
        invariant relative >= 0
        invariant relative == 1 ==> i > 0 && depth == placed[i - 1].depth
        invariant placed[i].depth == depth + if relative == 1 then 1 else 0
        invariant ContainerAt(Structured(topLevel), depth).Some?
        invariant Holds(topLevel, placed, i)
        decreases |events| - i
      {
        if relative == 1 {
          LastIsOpen(topLevel, placed, i, depth);
          ContainerBelow(Structured(topLevel), depth);
          var obstacle := Obstacle(ContainerAt(Structured(topLevel), depth).value);
          if obstacle.Some? {
            DescendStops(topLevel, placed, i);
            StoppedIsMalformed(events, i, Panicked);
            return obstacle.value;
          }
          depth := depth + 1;
        }
        if !Open(Structured(topLevel), depth) {
          PushStops(topLevel, placed, i);
          StoppedIsMalformed(events, i, Panicked);
          return Panicked;
        }
        PushFits(topLevel, placed, i);
        topLevel := Push(Structured(topLevel), depth, packet).packets;
        i := i + 1;
        if i == |events| {
          Finished(events, topLevel);
          return Built(topLevel);
        }
        LastIsOpen(topLevel, placed, i, depth);
        lastPosition := position;
        position := events[i].depth;
        relative := position - lastPosition;
        if position < lastPosition {
          break;
        }
        packet := events[i].packet;
      }
    }
  }

  /** The listing of a pile is always well-formed. */
  lemma {:induction false} ListingWellFormed(f: seq<Packet>, base: nat)
    ensures f != [] ==> Listing(f, base) != [] && Listing(f, base)[0].depth == base
    ensures FitUpTo(Listing(f, base), |Listing(f, base)|)
    decreases f
  {
    if f != [] {
      hide Listing;
      var front, p := f[..|f| - 1], f[|f| - 1];
      ListingSplit(f, base);
      ListingWellFormed(front, base);
      Deeper(front, base);
      TreeWellFormed(p, base);
      Join(Listing(front, base), Tree(p, base));
      if front == [] {
        ListingOfNone(base);
        assert Listing(f, base) == Tree(p, base);
      }
    }
  }

  lemma {:induction false} TreeWellFormed(p: Packet, base: nat)
    ensures FitUpTo(Tree(p, base), |Tree(p, base)|)
    decreases p
  {
    hide Listing;
    if HasChildren(p) {
      ListingOfNone(base + 1);
      ListingWellFormed(p.body.packets, base + 1);
      Join([Event(Bare(p), base)], Listing(p.body.packets, base + 1));
    }
  }

  lemma Join(a: seq<Event>, b: seq<Event>)
    requires FitUpTo(a, |a|) && FitUpTo(b, |b|)
    requires a != [] && b != [] ==> Fits(a[|a| - 1], b[0].depth)
    ensures FitUpTo(a + b, |a + b|)
  {
    forall k | 0 < k < |a + b| ensures Fits((a + b)[k - 1], (a + b)[k].depth) {
      if k > |a| {
        assert Fits(b[k - |a| - 1], b[k - |a|].depth);
      }
    }
  }

  lemma {:induction false} ListingIsBare(f: seq<Packet>, base: nat)
    ensures forall e :: e in Listing(f, base) ==> IsBare(e.packet)
    decreases f
  {
    if f != [] {
      var p := f[|f| - 1];
      ListingIsBare(f[..|f| - 1], base);
      if HasChildren(p) {
        ListingIsBare(p.body.packets, base + 1);
      }
    }
  }

  /** Every pile is what its own listing builds. */
  method Rebuild(f: seq<Packet>) returns (o: Outcome)
    ensures o == Built(f)
  {
    hide Listing;
    ListingIsBare(f, 0);
    ListingWellFormed(f, 0);
    ListingOfNone(0);
    var events := Listing(f, 0);
    o := Build(events);
    ListingInjective(o.packets, f, 0);
  }
}
