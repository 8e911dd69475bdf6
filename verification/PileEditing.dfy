/**
 Packets addressed by path, and the replacement of packets, as in `path_ref`,
 `path_ref_mut` and `replace` of `openpgp/src/packet_pile.rs`.
 */
module PileEditing {
  import opened Bytes
  import opened PacketPile

  type Path = seq<nat>

  /** The packet at a path. */
  function Lookup(f: seq<Packet>, path: Path): Option<Packet>
    decreases path
  {
    if path == [] || path[0] >= |f| then None
    else if |path| == 1 then Some(f[path[0]])
    else Lookup(Children(f[path[0]]), path[1..])
  }

  /** Packets are replaced only below these packets. */
  predicate IsEditable(p: Packet) {
    (p.kind.CompressedData? || p.kind.Seip?) && p.body.Structured?
  }

  /** The list of packets right below a path, if packets can be replaced there. */
  function ChildList(f: seq<Packet>, parent: Path): Option<seq<Packet>>
    decreases parent
  {
    if parent == [] then Some(f)
    else if parent[0] < |f| && IsEditable(f[parent[0]]) then ChildList(f[parent[0]].body.packets, parent[1..])
    else None
  }

  /** The pile with another list right below a path. */
  function Updated(f: seq<Packet>, parent: Path, list: seq<Packet>): (g: seq<Packet>)
    requires ChildList(f, parent).Some?
    ensures parent != [] ==> |g| == |f|
    decreases parent
  {
    if parent == [] then list
    else
      var p := f[parent[0]];
      f[parent[0] := p.(body := Structured(Updated(p.body.packets, parent[1..], list)))]
  }

  lemma {:induction false} ChildListBelow(f: seq<Packet>, parent: Path, i: nat)
    ensures var c := ChildList(f, parent);
            ChildList(f, parent + [i]) ==
            if c.Some? && i < |c.value| && IsEditable(c.value[i]) then Some(c.value[i].body.packets) else None
    decreases parent
  {
    if parent == [] {
      assert [i][1..] == [];
    } else {
      assert (parent + [i])[1..] == parent[1..] + [i];
      if parent[0] < |f| && IsEditable(f[parent[0]]) {
        ChildListBelow(f[parent[0]].body.packets, parent[1..], i);
      }
    }
  }

  lemma {:induction false} NoListBelow(f: seq<Packet>, path: Path, k: nat, n: nat)
    requires k <= n <= |path| && ChildList(f, path[..k]).None?
    ensures ChildList(f, path[..n]).None?
    decreases n
  {
    if k < n {
      NoListBelow(f, path, k, n - 1);
      ChildListBelow(f, path[..n - 1], path[n - 1]);
      assert path[..n] == path[..n - 1] + [path[n - 1]];
    }
  }

  // ----- Updating a list, and updating it again

  lemma {:induction false} UpdatedList(f: seq<Packet>, parent: Path, list: seq<Packet>)
    requires ChildList(f, parent).Some?
    ensures ChildList(Updated(f, parent, list), parent) == Some(list)
    decreases parent
  {
    if parent != [] {
      UpdatedList(f[parent[0]].body.packets, parent[1..], list);
    }
  }

  lemma {:induction false} UpdatedTwice(f: seq<Packet>, parent: Path, list: seq<Packet>)
    requires ChildList(f, parent).Some?
    ensures ChildList(Updated(f, parent, list), parent).Some?
    ensures Updated(Updated(f, parent, list), parent, ChildList(f, parent).value) == f
    decreases parent
  {
    UpdatedList(f, parent, list);
    if parent != [] {
      UpdatedTwice(f[parent[0]].body.packets, parent[1..], list);
    }
  }

  /** Below the list, its packets are found; the path to it leads to the same packets, but for their children. */
  lemma {:induction false} LookupInside(f: seq<Packet>, parent: Path, path: Path)
    requires ChildList(f, parent).Some? && path != []
    ensures Lookup(f, parent + path) == Lookup(ChildList(f, parent).value, path)
    decreases parent
  {
    if parent == [] {
      assert parent + path == path;
    } else {
      assert (parent + path)[1..] == parent[1..] + path;
      LookupInside(f[parent[0]].body.packets, parent[1..], path);
    }
  }

  lemma {:induction false} LookupOutside(f: seq<Packet>, parent: Path, list: seq<Packet>, path: Path)
    requires ChildList(f, parent).Some? && !(parent <= path && path != parent)
    ensures !(path <= parent) ==> Lookup(Updated(f, parent, list), path) == Lookup(f, path)
    ensures path <= parent && path != [] ==>
              && Lookup(f, path).Some? && Lookup(Updated(f, parent, list), path).Some?
              && Bare(Lookup(Updated(f, parent, list), path).value) == Bare(Lookup(f, path).value)
    decreases parent
  {
    if parent != [] && path != [] && path[0] == parent[0] {
      assert parent == [parent[0]] + parent[1..] && path == [path[0]] + path[1..];
      LookupOutside(f[parent[0]].body.packets, parent[1..], list, path[1..]);
    }
  }

  // ----- Replacing packets in the listing

  lemma {:induction false} ListingConcat(a: seq<Packet>, b: seq<Packet>, base: nat)
    ensures Listing(a + b, base) == Listing(a, base) + Listing(b, base)
    decreases |b|
  {
    hide Listing;
    if b == [] {
      assert a + b == a;
      ListingOfNone(base);
    } else {
      ListingSplit(a + b, base);
      ListingSplit(b, base);
      assert (a + b)[..|a + b| - 1] == a + b[..|b| - 1];
      ListingConcat(a, b[..|b| - 1], base);
    }
  }

  lemma ListingAt(f: seq<Packet>, i: nat, base: nat)
    requires i < |f|
    ensures Listing(f, base) == Listing(f[..i], base) + Tree(f[i], base) + Listing(f[i + 1..], base)
  {
    hide Listing;
    ListingConcat(f[..i], f[i..], base);
    ListingConcat([f[i]], f[i + 1..], base);
    assert f[i..] == [f[i]] + f[i + 1..] && f == f[..i] + f[i..];
    ListingSplit([f[i]], base);
    ListingOfNone(base);
  }

  ghost predicate Around(whole: seq<Event>, before: seq<Event>, part: seq<Event>, after: seq<Event>) {
    whole == before + part + after
  }

  /** One stretch of the first listing is another in the second, and the rest is the same. */
  ghost predicate Spliced(l: seq<Event>, part: seq<Event>, l': seq<Event>, part': seq<Event>) {
    exists before, after :: Around(l, before, part, after) && Around(l', before, part', after)
  }

  /** An update replaces one stretch of the depth-first listing. */
  lemma {:induction false} ListingUpdated(f: seq<Packet>, parent: Path, list: seq<Packet>, base: nat)
    returns (before: seq<Event>, after: seq<Event>)
    requires ChildList(f, parent).Some?
    ensures Around(Listing(f, base), before, Listing(ChildList(f, parent).value, base + |parent|), after)
    ensures Around(Listing(Updated(f, parent, list), base), before, Listing(list, base + |parent|), after)
    decreases parent
  {
    hide Listing;
    before, after := [], [];
    if parent != [] {
      var i := parent[0];
      var p, g := f[i], Updated(f, parent, list);
      before, after := ListingUpdated(p.body.packets, parent[1..], list, base + 1);
      ListingAt(f, i, base);
      ListingAt(g, i, base);
      assert g[..i] == f[..i] && g[i + 1..] == f[i + 1..];
      var front, back := Listing(f[..i], base) + [Event(Bare(p), base)], Listing(f[i + 1..], base);
      Nested(Listing(f[..i], base), [Event(Bare(p), base)], before,
             Listing(ChildList(f, parent).value, base + |parent|), after, back);
      Nested(Listing(f[..i], base), [Event(Bare(p), base)], before, Listing(list, base + |parent|), after, back);
      before, after := front + before, after + back;
    }
  }

  lemma Nested(a: seq<Event>, e: seq<Event>, b: seq<Event>, x: seq<Event>, c: seq<Event>, d: seq<Event>)
    ensures Around(a + (e + (b + x + c)) + d, a + e + b, x, c + d)
  {
  }

  /** Some packet on the way to a path has no container. */
  ghost predicate Obstructed(f: seq<Packet>, path: Path) {
    exists k :: 0 < k < |path| && Lookup(f, path[..k]).Some? && !HasContainer(Lookup(f, path[..k]).value)
  }

  lemma {:induction false} LookupBelow(f: seq<Packet>, path: Path, i: nat)
    requires path != []
    ensures var p := Lookup(f, path);
            Lookup(f, path + [i]) ==
            if p.Some? && i < |Children(p.value)| then Some(Children(p.value)[i]) else None
    decreases path
  {
    assert (path + [i])[1..] == path[1..] + [i];
    if |path| > 1 {
      if path[0] < |f| {
        LookupBelow(Children(f[path[0]]), path[1..], i);
      }
    } else {
      assert path[1..] + [i] == [i];
    }
  }

  lemma {:induction false} NothingBelow(f: seq<Packet>, path: Path, k: nat, n: nat)
    requires 0 < k <= n <= |path| && Lookup(f, path[..k]).None?
    ensures Lookup(f, path[..n]).None?
    decreases n
  {
    if k < n {
      NothingBelow(f, path, k, n - 1);
      LookupBelow(f, path[..n - 1], path[n - 1]);
      assert path[..n] == path[..n - 1] + [path[n - 1]];
    }
  }

  /** What a mutable lookup gives. */
  datatype Reference = Found(packet: Packet) | NotFound | Panic

  class Pile {
    var topLevel: seq<Packet>

    constructor (packets: seq<Packet>)
      ensures topLevel == packets
    {
      topLevel := packets;
    }

    method PathRef(path: Path) returns (r: Option<Packet>)
      ensures r == Lookup(topLevel, path)
    {
      var packet := None;
      var container := Some(Structured(topLevel));
      for level := 0 to |path|
        invariant level == 0 ==> packet == None && container == Some(Structured(topLevel))
        invariant level > 0 ==>
                    && packet.Some? && packet == Lookup(topLevel, path[..level])
                    && container == if HasContainer(packet.value) then Some(packet.value.body) else None
      {
        StepDown(topLevel, path, level);
        var i := path[level];
        if container.None? || !container.value.Structured? || i >= |container.value.packets| {
          NothingBelow(topLevel, path, level + 1, |path|);
          assert path[..|path|] == path;
          return None;
        }
        packet := Some(container.value.packets[i]);
        container := if HasContainer(packet.value) then Some(packet.value.body) else None;
      }
      assert path[..|path|] == path;
      return packet;
    }

    /** Panics exactly if a packet on the way has no container, and agrees with `PathRef` otherwise. */
    method PathRefMut(path: Path) returns (r: Reference)
      ensures r.Panic? <==> Obstructed(topLevel, path)
      ensures !r.Panic? ==>
                Lookup(topLevel, path) == if r.Found? then Some(r.packet) else None
    {
      var container := Structured(topLevel);
      for level := 0 to |path|
        invariant level == 0 ==> container == Structured(topLevel)
        invariant 0 < level ==>
                    && level < |path| && Lookup(topLevel, path[..level]).Some?
                    && container == Lookup(topLevel, path[..level]).value.body
                    && HasContainer(Lookup(topLevel, path[..level]).value)
        invariant forall k :: 0 < k <= level ==>
                    Lookup(topLevel, path[..k]).Some? && HasContainer(Lookup(topLevel, path[..k]).value)
      {
        StepDown(topLevel, path, level);
        var i := path[level];
        if !container.Structured? || i >= |container.packets| {
          forall k | level < k <= |path| ensures Lookup(topLevel, path[..k]).None? {
            NothingBelow(topLevel, path, level + 1, k);
          }
          assert path[..|path|] == path;
          return NotFound;
        }
        var p := container.packets[i];
        if level == |path| - 1 {
          assert path[..|path|] == path;
          return Found(p);
        }
        if !HasContainer(p) {
          return Panic;
        }
        container := p.body;
      }
      return NotFound;
    }

    /** Replaces `count` packets, and returns them. */
    method Replace(path: Path, count: nat, packets: seq<Packet>) returns (r: Option<seq<Packet>>)
      modifies this
      ensures r.Some? <==> CanReplace(old(topLevel), path, count)
      ensures r.None? ==> topLevel == old(topLevel)
      ensures r.Some? ==> r.value == Removed(old(topLevel), path, count)
      ensures r.Some? ==> topLevel == Replaced(old(topLevel), path, count, packets)
      ensures r.Some? ==> Spliced(Listing(old(topLevel), 0), Listing(r.value, |path| - 1),
                                  Listing(topLevel, 0), Listing(packets, |path| - 1))
    {
      hide Listing, Updated, Spliced, ChildList;
      assert ChildList(topLevel, path[..0]) == Some(topLevel) by { NoParent(topLevel); }
      var container := Structured(topLevel);
      for level := 0 to |path|
        invariant topLevel == old(topLevel)
        invariant container.Structured? ==> ChildList(topLevel, path[..level]) == Some(container.packets)
        invariant !container.Structured? ==> level > 0 && ChildList(topLevel, path[..level]).None?
        invariant level == |path| ==> path == []
      {
        var i := path[level];
        if level == |path| - 1 {
          assert path[..level] == Parent(path);
          if !container.Structured? || i + count > |container.packets| {
            return None;
          }
          var old_ := container.packets[i..i + count];
          var tail := container.packets[i + count..];
          ReplacedListing(topLevel, path, count, packets);
          topLevel := Updated(topLevel, path[..level], container.packets[..i] + packets + tail);
          return Some(old_);
        }
        ChildListBelow(topLevel, path[..level], i);
        assert path[..level + 1] == path[..level] + [i];
        if !container.Structured? || i >= |container.packets| {
          NoListBelow(topLevel, path, level + 1, |path| - 1);
          return None;
        }
        if !container.packets[i].kind.CompressedData? && !container.packets[i].kind.Seip? {
          NoListBelow(topLevel, path, level + 1, |path| - 1);
          return None;
        }
        container := container.packets[i].body;
      }
      return None;
    }
  }

  lemma NoParent(f: seq<Packet>)
    ensures ChildList(f, []) == Some(f)
  {
  }

  lemma StepDown(f: seq<Packet>, path: Path, level: nat)
    requires level < |path|
    ensures level == 0 ==> Lookup(f, path[..1]) == if path[0] < |f| then Some(f[path[0]]) else None
    ensures level > 0 ==>
              var p := Lookup(f, path[..level]);
              Lookup(f, path[..level + 1]) ==
              if p.Some? && path[level] < |Children(p.value)| then Some(Children(p.value)[path[level]]) else None
  {
    if level > 0 {
      LookupBelow(f, path[..level], path[level]);
      assert path[..level + 1] == path[..level] + [path[level]];
    }
  }

  // ----- The replacement as a function

  function Parent(path: Path): Path {
    if path == [] then [] else path[..|path| - 1]
  }

  predicate CanReplace(f: seq<Packet>, path: Path, count: nat) {
    && path != []
    && ChildList(f, Parent(path)).Some?
    && path[|path| - 1] + count <= |ChildList(f, Parent(path)).value|
  }

  function Removed(f: seq<Packet>, path: Path, count: nat): seq<Packet>
    requires CanReplace(f, path, count)
  {
    var i := path[|path| - 1];
    ChildList(f, Parent(path)).value[i..i + count]
  }

  function Replaced(f: seq<Packet>, path: Path, count: nat, packets: seq<Packet>): seq<Packet>
    requires CanReplace(f, path, count)
  {
    var i, list := path[|path| - 1], ChildList(f, Parent(path)).value;
    Updated(f, Parent(path), list[..i] + packets + list[i + count..])
  }

  lemma ReplacedListing(f: seq<Packet>, path: Path, count: nat, packets: seq<Packet>)
    requires CanReplace(f, path, count)
    ensures Spliced(Listing(f, 0), Listing(Removed(f, path, count), |path| - 1),
                    Listing(Replaced(f, path, count, packets), 0), Listing(packets, |path| - 1))
  {
    hide Listing, Updated;
    var i, list := path[|path| - 1], ChildList(f, Parent(path)).value;
    var depth := |path| - 1;
    var front, back := list[..i], list[i + count..];
    var before, after := ListingUpdated(f, Parent(path), front + packets + back, 0);
    assert list == front + list[i..i + count] + back;
    ListingConcat3(front, list[i..i + count], back, depth);
    ListingConcat3(front, packets, back, depth);
    Nested([], before, Listing(front, depth), Listing(list[i..i + count], depth), Listing(back, depth), after);
    Nested([], before, Listing(front, depth), Listing(packets, depth), Listing(back, depth), after);
    Unpadded(before, Listing(list, depth), after);
    Unpadded(before, Listing(front + packets + back, depth), after);
    assert Around(Listing(Replaced(f, path, count, packets), 0),
                  [] + before + Listing(front, depth), Listing(packets, depth), Listing(back, depth) + after);
    assert Around(Listing(f, 0),
                  [] + before + Listing(front, depth), Listing(list[i..i + count], depth),
                  Listing(back, depth) + after);
  }

  lemma Unpadded(a: seq<Event>, b: seq<Event>, c: seq<Event>)
    ensures [] + (a + b) + c == a + b + c
  {
  }

  lemma ListingConcat3(a: seq<Packet>, b: seq<Packet>, c: seq<Packet>, base: nat)
    ensures Listing(a + b + c, base) == Listing(a, base) + Listing(b, base) + Listing(c, base)
  {
    hide Listing;
    ListingConcat(a + b, c, base);
    ListingConcat(a, b, base);
  }

  /** A replacement is undone by replacing the new packets by the old ones. */
  lemma ReplacedBack(f: seq<Packet>, path: Path, count: nat, packets: seq<Packet>)
    requires CanReplace(f, path, count)
    ensures var g := Replaced(f, path, count, packets);
            && CanReplace(g, path, |packets|)
            && Removed(g, path, |packets|) == packets
            && Replaced(g, path, |packets|, Removed(f, path, count)) == f
  {
    hide Updated;
    var i, list := path[|path| - 1], ChildList(f, Parent(path)).value;
    var new_ := list[..i] + packets + list[i + count..];
    UpdatedList(f, Parent(path), new_);
    UpdatedTwice(f, Parent(path), new_);
    assert new_[i..i + |packets|] == packets;
    assert new_[..i] + list[i..i + count] + new_[i + |packets|..] == list;
  }

  method ReplaceAndUndo(pile: Pile, path: Path, count: nat, packets: seq<Packet>) returns (undone: bool)
    modifies pile
    ensures pile.topLevel == old(pile.topLevel)
    ensures undone <==> CanReplace(old(pile.topLevel), path, count)
  {
    hide CanReplace, Replaced, Removed, Lookup, Listing;
    var removed := pile.Replace(path, count, packets);
    if removed.Some? {
      ReplacedBack(old(pile.topLevel), path, count, packets);
      var back := pile.Replace(path, |packets|, removed.value);
      assert back == Some(packets);
    }
    return removed.Some?;
  }
}
