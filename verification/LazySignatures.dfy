/**
 Lazily verified signatures, as in `openpgp/src/cert/lazysigs.rs`: a list of
 signatures, and a list of what is known about each.

 The cryptographic verification is a parameter: an oracle that says which
 signatures verify.
 */
module LazySignatures {
  import opened Bytes

  type Key = nat

  /** A signature, with the key flags and the embedded signatures that its subpackets hold. */
  datatype Signature = Signature(content: nat, forSigning: Option<bool>, embedded: seq<Signature>)

  datatype SigState = Unverified | Good | Bad

  /** Which signatures a primary key verifies, and which embedded signatures bind it to a subkey. */
  datatype Oracle = Oracle(verifies: (Key, Signature) -> bool, binds: (Key, Key, Signature) -> bool)

  /** What signatures are verified with. */
  datatype Context = Context(oracle: Oracle, primary: Key, subkey: Option<Key>)

  datatype Table = Table(sigs: seq<Signature>, states: seq<SigState>)

  const USIZE_MAX := 0xFFFF_FFFF_FFFF_FFFF

  /** A signature by a subkey that signs also needs a signature by the subkey. */
  predicate NeedsBacksig(c: Context, sig: Signature) {
    c.subkey.Some? && sig.forSigning == Some(true)
  }

  /** Eager verification. */
  predicate IsGood(c: Context, sig: Signature) {
    && c.oracle.verifies(c.primary, sig)
    && (NeedsBacksig(c, sig) ==> exists b :: b in sig.embedded && c.oracle.binds(c.primary, c.subkey.value, b))
  }

  function Verdict(c: Context, sig: Signature): (s: SigState)
    ensures s != Unverified
  {
    if IsGood(c, sig) then Good else Bad
  }

  /** What is known is what eager verification gives. */
  ghost predicate Agrees(c: Context, t: Table) {
    && |t.states| == |t.sigs|
    && forall i :: 0 <= i < |t.sigs| ==> t.states[i] == Unverified || t.states[i] == Verdict(c, t.sigs[i])
  }

  // ----- The operations on tables

  function Fresh(sigs: seq<Signature>): Table {
    Table(sigs, seq(|sigs|, _ => Unverified))
  }

  function Pushed(t: Table, s: Signature): Table {
    Table(t.sigs + [s], t.states + [Unverified])
  }

  function Appended(t: Table, u: Table): Table {
    Table(t.sigs + u.sigs, t.states + u.states)
  }

  function Recorded(t: Table, i: nat, state: SigState): Table
    requires i < |t.states|
  {
    t.(states := t.states[i := state])
  }

  lemma FreshAgrees(c: Context, sigs: seq<Signature>)
    ensures Agrees(c, Fresh(sigs))
  {
  }

  lemma PushedAgrees(c: Context, t: Table, s: Signature)
    requires |t.states| == |t.sigs|
    ensures Agrees(c, Pushed(t, s)) <==> Agrees(c, t)
  {
    if Agrees(c, Pushed(t, s)) {
      forall i | 0 <= i < |t.sigs| ensures t.states[i] == Unverified || t.states[i] == Verdict(c, t.sigs[i]) {
        assert Pushed(t, s).states[i] == t.states[i] && Pushed(t, s).sigs[i] == t.sigs[i];
      }
    }
  }

  /** Appending keeps agreement exactly if both lists agree in the same context. */
  lemma AppendedAgrees(c: Context, t: Table, u: Table)
    requires |t.states| == |t.sigs| && |u.states| == |u.sigs|
    ensures Agrees(c, Appended(t, u)) <==> Agrees(c, t) && Agrees(c, u)
  {
    var a := Appended(t, u);
    if Agrees(c, a) {
      forall i | 0 <= i < |t.sigs| ensures t.states[i] == Unverified || t.states[i] == Verdict(c, t.sigs[i]) {
        assert a.states[i] == t.states[i] && a.sigs[i] == t.sigs[i];
      }
      forall i | 0 <= i < |u.sigs| ensures u.states[i] == Unverified || u.states[i] == Verdict(c, u.sigs[i]) {
        assert a.states[|t.sigs| + i] == u.states[i] && a.sigs[|t.sigs| + i] == u.sigs[i];
      }
    }
  }

  /** A list of another context can bring in states that are wrong in this one. */
  lemma AppendedAcrossContexts(c: Context, d: Context, sig: Signature)
    requires Verdict(c, sig) != Verdict(d, sig)
    ensures var u := Table([sig], [Verdict(d, sig)]);
            Agrees(d, u) && forall t: Table :: |t.states| == |t.sigs| ==> !Agrees(c, Appended(t, u))
  {
    var u := Table([sig], [Verdict(d, sig)]);
    assert u.states[0] != Unverified && u.states[0] != Verdict(c, u.sigs[0]);
    forall t: Table | |t.states| == |t.sigs| ensures !Agrees(c, Appended(t, u)) {
      AppendedAgrees(c, t, u);
    }
  }

  // ----- The signatures with one verdict

  function Select(c: Context, sigs: seq<Signature>, state: SigState): seq<Signature> {
    if sigs == [] then []
    else
      var n := |sigs| - 1;
      Select(c, sigs[..n], state) + if Verdict(c, sigs[n]) == state then [sigs[n]] else []
  }

  /** Rising positions of some signatures in the list. */
  ghost predicate Picks(sigs: seq<Signature>, picked: seq<Signature>, at: seq<nat>) {
    && |at| == |picked|
    && (forall k :: 0 <= k < |at| ==> at[k] < |sigs| && sigs[at[k]] == picked[k])
    && (forall j, k :: 0 <= j < k < |at| ==> at[j] < at[k])
  }

  /** The positions of the selected signatures: they rise, and are exactly those with the verdict. */
  ghost predicate Positions(c: Context, sigs: seq<Signature>, state: SigState, at: seq<nat>) {
    && Picks(sigs, Select(c, sigs, state), at)
    && forall i: nat :: i < |sigs| ==> (i in at <==> Verdict(c, sigs[i]) == state)
  }

  lemma SelectLast(c: Context, sigs: seq<Signature>, state: SigState)
    requires sigs != []
    ensures var n := |sigs| - 1;
            Select(c, sigs, state) ==
            Select(c, sigs[..n], state) + if Verdict(c, sigs[n]) == state then [sigs[n]] else []
  {
  }

  lemma {:induction false} SelectedPositions(c: Context, sigs: seq<Signature>, state: SigState) returns (at: seq<nat>)
    ensures Positions(c, sigs, state, at)
  {
    at := [];
    if sigs != [] {
      hide Verdict, Positions;
      var n := |sigs| - 1;
      at := SelectedPositions(c, sigs[..n], state);
      OneMorePosition(c, sigs, state, at);
      at := if Verdict(c, sigs[n]) == state then at + [n] else at;
    }
  }

  lemma OneMorePosition(c: Context, sigs: seq<Signature>, state: SigState, at: seq<nat>)
    requires sigs != [] && Positions(c, sigs[..|sigs| - 1], state, at)
    ensures Positions(c, sigs, state, if Verdict(c, sigs[|sigs| - 1]) == state then at + [|sigs| - 1] else at)
  {
    hide Verdict, Select, Picks;
    var n := |sigs| - 1;
    var front := sigs[..n];
    SelectLast(c, sigs, state);
    assert sigs == front + [sigs[n]];
    PicksMore(front, sigs[n], Select(c, front, state), at);
    forall i: nat | i < n ensures i in at <==> Verdict(c, sigs[i]) == state {
      assert front[i] == sigs[i];
    }
  }

  lemma PicksMore(front: seq<Signature>, x: Signature, picked: seq<Signature>, at: seq<nat>)
    requires Picks(front, picked, at)
    ensures Picks(front + [x], picked, at) && Picks(front + [x], picked + [], at)
    ensures Picks(front + [x], picked + [x], at + [|front|])
    ensures |front| !in at && forall i :: i in at + [|front|] <==> i in at || i == |front|
  {
    assert picked + [] == picked;
  }

  /** Every signature is either among the good or among the bad ones. */
  lemma SelectPartitions(c: Context, sigs: seq<Signature>) returns (good: seq<nat>, bad: seq<nat>)
    ensures Positions(c, sigs, Good, good) && Positions(c, sigs, Bad, bad)
    ensures forall i: nat :: i < |sigs| ==> (i in good <==> i !in bad)
    ensures |good| + |bad| == |sigs|
  {
    good := SelectedPositions(c, sigs, Good);
    bad := SelectedPositions(c, sigs, Bad);
    SelectCount(c, sigs);
  }

  lemma {:induction false} SelectCount(c: Context, sigs: seq<Signature>)
    ensures |Select(c, sigs, Good)| + |Select(c, sigs, Bad)| == |sigs|
  {
    if sigs != [] {
      hide Select;
      SelectCount(c, sigs[..|sigs| - 1]);
      SelectLast(c, sigs, Good);
      SelectLast(c, sigs, Bad);
    }
  }

  /** What `verify_sig` can do. */
  datatype Checked = Ok(state: SigState) | OutOfBounds | Panicked

  class LazySigs {
    const oracle: Oracle
    const primaryKey: Key
    var sigs: seq<Signature>
    var states: seq<SigState>

    /** There are as many signatures as states, and no more than memory can hold. */
    ghost predicate Valid()
      reads this
    {
      |states| == |sigs| <= USIZE_MAX / 2
    }

    ghost function Contents(): Table
      reads this
    {
      Table(sigs, states)
    }

    ghost function In(subkey: Option<Key>): Context {
      Context(oracle, primaryKey, subkey)
    }

    constructor (oracle: Oracle, primaryKey: Key)
      ensures Valid() && this.oracle == oracle && this.primaryKey == primaryKey
      ensures Contents() == Fresh([])
    {
      this.oracle, this.primaryKey := oracle, primaryKey;
      sigs, states := [], [];
    }

    constructor Clone(other: LazySigs, locked: bool)
      requires other.Valid()
      ensures Valid() && oracle == other.oracle && primaryKey == other.primaryKey
      ensures Contents() == if locked then other.Contents() else Fresh(other.sigs)
    {
      oracle, primaryKey, sigs := other.oracle, other.primaryKey, other.sigs;
      states := if locked then other.states else seq(|other.sigs|, _ => Unverified);
    }

    method Take() returns (r: seq<Signature>)
      requires Valid()
      modifies this
      ensures Valid() && r == old(sigs) && Contents() == Fresh([])
    {
      states := [];
      r := sigs;
      sigs := [];
    }

    method Push(s: Signature)
      requires Valid() && |sigs| < USIZE_MAX / 2
      modifies this
      ensures Valid() && Contents() == Pushed(old(Contents()), s)
    {
      sigs := sigs + [s];
      states := states + [Unverified];
    }

    method Append(other: LazySigs)
      requires Valid() && other.Valid() && other != this && |sigs| + |other.sigs| <= USIZE_MAX / 2
      modifies this, other
      ensures Valid() && other.Valid()
      ensures Contents() == Appended(old(Contents()), old(other.Contents())) && other.Contents() == Fresh([])
    {
      sigs, other.sigs := sigs + other.sigs, [];
      states, other.states := states + other.states, [];
    }

    /** `sorted` is what the sort of the standard library makes of the signatures. */
    method SortBy(sorted: seq<Signature>)
      requires Valid() && multiset(sorted) == multiset(sigs)
      modifies this
      ensures Valid() && Contents() == Fresh(sorted)
    {
      assert |sorted| == |multiset(sorted)| == |multiset(sigs)|;
      sigs := sorted;
      states := seq(|states|, _ => Unverified);
    }

    /** `kept` is what the deduplication of the standard library makes of the signatures. */
    method DedupBy(kept: seq<Signature>)
      requires Valid() && |kept| <= |sigs|
      modifies this
      ensures Valid() && Contents() == Fresh(kept)
    {
      sigs := kept;
      states := states[..|sigs|];
      states := seq(|states|, _ => Unverified);
    }

    /** Looks for an embedded signature that binds the subkey, and says which embedded signatures do. */
    method CheckBacksigs(sig: Signature, subkey: Key) returns (any: bool, authenticated: seq<bool>)
      ensures any <==> exists b :: b in sig.embedded && oracle.binds(primaryKey, subkey, b)
      ensures |authenticated| == |sig.embedded|
      ensures forall j :: 0 <= j < |sig.embedded| ==>
                authenticated[j] == oracle.binds(primaryKey, subkey, sig.embedded[j])
    {
      any, authenticated := false, [];
      for j := 0 to |sig.embedded|
        invariant any <==> exists b :: b in sig.embedded[..j] && oracle.binds(primaryKey, subkey, b)
        invariant |authenticated| == j
        invariant forall k :: 0 <= k < j ==> authenticated[k] == oracle.binds(primaryKey, subkey, sig.embedded[k])
      {
        var result := oracle.binds(primaryKey, subkey, sig.embedded[j]);
        authenticated := authenticated + [result];
        assert sig.embedded[..j + 1] == sig.embedded[..j] + [sig.embedded[j]];
        if !any {
          any := result;
        }
      }
      assert sig.embedded[..|sig.embedded|] == sig.embedded;
    }

    method Verify(sig: Signature, subkey: Option<Key>) returns (s: SigState)
      ensures s == Verdict(In(subkey), sig)
    {
      var r := oracle.verifies(primaryKey, sig);
      if r && subkey.Some? && (if sig.forSigning.Some? then sig.forSigning.value else false) {
        var authenticated;
        r, authenticated := CheckBacksigs(sig, subkey.value);
      }
      s := if r then Good else Bad;
    }

    /**
     Verifies a signature, or looks up its state. The guard compares the complement
     of the index, so only the largest indices are out of bounds.
     */
    method VerifySig(i: nat, subkey: Option<Key>) returns (r: Checked)
      requires Valid() && i <= USIZE_MAX
      modifies this`states
      ensures Valid()
      ensures i < |sigs| <==> r.Ok?
      ensures r.OutOfBounds? <==> i > USIZE_MAX - |sigs|
      ensures r.Ok? ==>
                && Contents() == Recorded(old(Contents()), i, r.state)
                && r.state == if old(states)[i] == Unverified then Verdict(In(subkey), sigs[i]) else old(states)[i]
      ensures !r.Ok? ==> Contents() == old(Contents())
    {
      if USIZE_MAX - i < |sigs| {
        return OutOfBounds;
      }
      if i >= |states| {
        return Panicked;
      }
      if states[i] == Unverified {
        var state := Verify(sigs[i], subkey);
        states := states[i := state];
        return Ok(state);
      }
      assert states[i := states[i]] == states;
      return Ok(states[i]);
    }

    /** Gives out the signatures whose state is `state`, in order. */
    method Iterate(subkey: Option<Key>, state: SigState) returns (r: seq<Signature>)
      requires Valid() && state != Unverified && Agrees(In(subkey), Contents())
      modifies this`states
      ensures Valid() && Agrees(In(subkey), Contents())
      ensures r == Select(In(subkey), sigs, state)
      ensures forall s :: s in states ==> s != Unverified
    {
      hide Verdict;
      r := [];
      for i := 0 to |sigs|
        invariant Valid() && Agrees(In(subkey), Contents())
        invariant r == Select(In(subkey), sigs[..i], state)
        invariant forall j :: 0 <= j < i ==> states[j] != Unverified
      {
        var checked := VerifySig(i, subkey);
        assert checked.state == Verdict(In(subkey), sigs[i]);
        assert sigs[..i + 1][..i] == sigs[..i];
        if checked.state == state {
          r := r + [sigs[i]];
        }
      }
      assert sigs[..|sigs|] == sigs;
    }

    method IterVerified(subkey: Option<Key>) returns (r: seq<Signature>)
      requires Valid() && Agrees(In(subkey), Contents())
      modifies this`states
      ensures Valid() && Agrees(In(subkey), Contents())
      ensures r == Select(In(subkey), sigs, Good)
    {
      r := Iterate(subkey, Good);
    }

    method IterBad(subkey: Option<Key>) returns (r: seq<Signature>)
      requires Valid() && Agrees(In(subkey), Contents())
      modifies this`states
      ensures Valid() && Agrees(In(subkey), Contents())
      ensures r == Select(In(subkey), sigs, Bad)
    {
      r := Iterate(subkey, Bad);
    }
  }
}
