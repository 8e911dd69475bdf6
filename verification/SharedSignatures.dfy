/**
 Several threads share lazily verified signatures (`openpgp/src/cert/lazysigs.rs`).

 `verify_sig` takes the lock twice: to look up the state, and to record the verdict
 that it computes in between. Everything else that changes the signatures needs
 exclusive access, so it happens only while no call is under way.
 */
module SharedSignatures {
  import opened Bytes
  import opened LazySignatures

  /** A call of `verify_sig`. */
  datatype Call = Call(i: nat, subkey: Option<Key>)

  /** Where a thread is in its call; `sig` is the signature it was called for. */
  datatype Thread =
    | Idle
    | Computing(call: Call, sig: Signature)
    | Recording(call: Call, sig: Signature, verdict: SigState)
    | Returned(call: Call, sig: Signature, result: SigState)

  datatype Variables = Variables(table: Table, threads: seq<Thread>)

  /** The part of the context that all calls share, and the subkeys they use. */
  datatype Constants = Constants(oracle: Oracle, primary: Key, subkeys: set<Option<Key>>)

  function In(c: Constants, subkey: Option<Key>): Context {
    Context(c.oracle, c.primary, subkey)
  }

  predicate IsQuiet(thread: Thread) {
    thread.Idle? || thread.Returned?
  }

  predicate Init(v: Variables) {
    v.table == Fresh([]) && forall i :: 0 <= i < |v.threads| ==> v.threads[i].Idle?
  }

  // ----- The steps of a call

  predicate LookUp(c: Constants, v: Variables, v': Variables, t: nat, call: Call) {
    && t < |v.threads| && IsQuiet(v.threads[t])
    && call.i < |v.table.sigs| && call.i < |v.table.states| && call.subkey in c.subkeys
    && var sig, state := v.table.sigs[call.i], v.table.states[call.i];
    var next := if state == Unverified then Computing(call, sig) else Returned(call, sig, state);
    v' == v.(threads := v.threads[t := next])
  }

  predicate Compute(c: Constants, v: Variables, v': Variables, t: nat) {
    && t < |v.threads| && v.threads[t].Computing?
    && var Computing(call, sig) := v.threads[t];
    v' == v.(threads := v.threads[t := Recording(call, sig, Verdict(In(c, call.subkey), sig))])
  }

  predicate Record(v: Variables, v': Variables, t: nat) {
    && t < |v.threads| && v.threads[t].Recording? && v.threads[t].call.i < |v.table.states|
    && var Recording(call, sig, verdict) := v.threads[t];
    v' == Variables(Recorded(v.table, call.i, verdict), v.threads[t := Returned(call, sig, verdict)])
  }

  // ----- Exclusive operations

  /** What can be done to the signatures; `added` is a list that agrees with eager verification. */
  datatype Edit =
    | PushEdit(sig: Signature)
    | AppendEdit(added: Table)
    | SortEdit(sorted: seq<Signature>)
    | DedupEdit(kept: seq<Signature>)
    | TakeEdit

  predicate Allowed(t: Table, e: Edit) {
    match e
    case AppendEdit(added) => |added.states| == |added.sigs|
    case SortEdit(sorted) => multiset(sorted) == multiset(t.sigs)
    case DedupEdit(kept) => |kept| <= |t.sigs|
    case _ => true
  }

  function Edited(t: Table, e: Edit): Table {
    match e
    case PushEdit(sig) => Pushed(t, sig)
    case AppendEdit(added) => Appended(t, added)
    case SortEdit(sorted) => Fresh(sorted)
    case DedupEdit(kept) => Fresh(kept)
    case TakeEdit => Fresh([])
  }

  /** A list that is appended was verified with the same keys. */
  ghost predicate SameContext(c: Constants, e: Edit) {
    e.AppendEdit? ==> forall k :: k in c.subkeys ==> Agrees(In(c, k), e.added)
  }

  ghost predicate Change(c: Constants, v: Variables, v': Variables, e: Edit) {
    && (forall i :: 0 <= i < |v.threads| ==> IsQuiet(v.threads[i]))
    && Allowed(v.table, e) && SameContext(c, e)
    && v' == v.(table := Edited(v.table, e))
  }

  ghost predicate Next(c: Constants, v: Variables, v': Variables) {
    || (exists t, call :: LookUp(c, v, v', t, call))
    || (exists t :: Compute(c, v, v', t))
    || (exists t :: Record(v, v', t))
    || (exists e :: Change(c, v, v', e))
  }

  ghost predicate IsRun(c: Constants, run: seq<Variables>) {
    && run != [] && Init(run[0])
    && forall i :: 0 < i < |run| ==> Next(c, run[i - 1], run[i])
  }

  // ----- Transparency

  /** The caller cannot tell lazy from eager verification. */
  ghost predicate Transparent(c: Constants, v: Variables) {
    && (forall k :: k in c.subkeys ==> Agrees(In(c, k), v.table))
    && (forall t :: 0 <= t < |v.threads| && v.threads[t].Returned? ==>
          v.threads[t].result == Verdict(In(c, v.threads[t].call.subkey), v.threads[t].sig))
  }

  ghost predicate AlwaysTransparent(c: Constants) {
    forall run, i :: IsRun(c, run) && 0 <= i < |run| ==> Transparent(c, run[i])
  }

  /** The subkeys give the same verdict on every signature. */
  ghost predicate Consistent(c: Constants) {
    forall k, k', sig :: k in c.subkeys && k' in c.subkeys ==> Verdict(In(c, k), sig) == Verdict(In(c, k'), sig)
  }

  /** A thread that is about to record a verdict does so for the signature that is still there. */
  ghost predicate InFlight(c: Constants, v: Variables, thread: Thread) {
    && (!thread.Idle? ==> thread.call.subkey in c.subkeys)
    && (thread.Computing? || thread.Recording? ==>
          thread.call.i < |v.table.sigs| && thread.sig == v.table.sigs[thread.call.i])
    && (thread.Recording? ==> thread.verdict == Verdict(In(c, thread.call.subkey), thread.sig))
  }

  ghost predicate Inv(c: Constants, v: Variables) {
    && |v.table.states| == |v.table.sigs|
    && Transparent(c, v)
    && forall t :: 0 <= t < |v.threads| ==> InFlight(c, v, v.threads[t])
  }

  lemma LookUpKeepsInv(c: Constants, v: Variables, v': Variables, t: nat, call: Call)
    requires Inv(c, v) && LookUp(c, v, v', t, call)
    ensures Inv(c, v')
  {
    hide Verdict;
    assert Agrees(In(c, call.subkey), v.table);
  }

  lemma ComputeKeepsInv(c: Constants, v: Variables, v': Variables, t: nat)
    requires Inv(c, v) && Compute(c, v, v', t)
    ensures Inv(c, v')
  {
    hide Verdict;
  }

  lemma RecordKeepsInv(c: Constants, v: Variables, v': Variables, t: nat)
    requires Consistent(c) && Inv(c, v) && Record(v, v', t)
    ensures Inv(c, v')
  {
    hide Verdict;
    assert InFlight(c, v, v.threads[t]);
    var Recording(call, sig, verdict) := v.threads[t];
    forall k | k in c.subkeys ensures Agrees(In(c, k), v'.table) {
      assert Agrees(In(c, k), v.table);
      assert verdict == Verdict(In(c, k), sig);
    }
  }

  lemma ChangeKeepsInv(c: Constants, v: Variables, v': Variables, e: Edit)
    requires Inv(c, v) && Change(c, v, v', e)
    ensures Inv(c, v')
  {
    hide Verdict;
    forall k | k in c.subkeys ensures Agrees(In(c, k), v'.table) {
      assert Agrees(In(c, k), v.table);
      if e.PushEdit? {
        PushedAgrees(In(c, k), v.table, e.sig);
      } else if e.AppendEdit? {
        AppendedAgrees(In(c, k), v.table, e.added);
      }
    }
  }

  lemma {:induction false} RunKeepsInv(c: Constants, run: seq<Variables>, i: nat)
    requires Consistent(c) && IsRun(c, run) && i < |run|
    ensures Inv(c, run[i])
  {
    if i > 0 {
      hide LookUp, Compute, Record, Change, Inv;
      RunKeepsInv(c, run, i - 1);
      var v, v' := run[i - 1], run[i];
      assert Next(c, v, v');
      if t, call :| LookUp(c, v, v', t, call) {
        LookUpKeepsInv(c, v, v', t, call);
      } else if t :| Compute(c, v, v', t) {
        ComputeKeepsInv(c, v, v', t);
      } else if t :| Record(v, v', t) {
        RecordKeepsInv(c, v, v', t);
      } else {
        var e :| Change(c, v, v', e);
        ChangeKeepsInv(c, v, v', e);
      }
    }
  }

  // ----- When the subkeys disagree

  function Alone(table: Table, thread: Thread): Variables {
    Variables(table, [thread])
  }

  /** One thread verifies a signature with one subkey, and then with the other. */
  function Mixup(c: Constants, k: Option<Key>, k': Option<Key>, sig: Signature): seq<Variables> {
    var verdict := Verdict(In(c, k), sig);
    var first := Call(0, k);
    [ Alone(Fresh([]), Idle),
      Alone(Pushed(Fresh([]), sig), Idle),
      Alone(Pushed(Fresh([]), sig), Computing(first, sig)),
      Alone(Pushed(Fresh([]), sig), Recording(first, sig, verdict)),
      Alone(Table([sig], [verdict]), Returned(first, sig, verdict)),
      Alone(Table([sig], [verdict]), Returned(Call(0, k'), sig, verdict))
    ]
  }

  lemma MixupIsRun(c: Constants, k: Option<Key>, k': Option<Key>, sig: Signature)
    requires k in c.subkeys && k' in c.subkeys
    ensures IsRun(c, Mixup(c, k, k', sig))
  {
    hide Verdict;
    var run := Mixup(c, k, k', sig);
    assert Pushed(Fresh([]), sig) == Table([sig], [Unverified]);
    assert Change(c, run[0], run[1], PushEdit(sig));
    assert LookUp(c, run[1], run[2], 0, Call(0, k));
    assert Compute(c, run[2], run[3], 0);
    assert Record(run[3], run[4], 0);
    assert LookUp(c, run[4], run[5], 0, Call(0, k'));
    assert |run| == 6;
    forall i | 0 < i < |run| ensures Next(c, run[i - 1], run[i]) {
      if i == 1 { assert Next(c, run[0], run[1]); }
      else if i == 2 { assert Next(c, run[1], run[2]); }
      else if i == 3 { assert Next(c, run[2], run[3]); }
      else if i == 4 { assert Next(c, run[3], run[4]); }
      else { assert Next(c, run[4], run[5]); }
    }
  }

  /**
   Over every run, however the calls interleave, lazy verification is transparent
   exactly if the subkeys that calls use agree on every signature.
   */
  lemma TransparentIff(c: Constants)
    ensures AlwaysTransparent(c) <==> Consistent(c)
  {
    hide Verdict;
    if Consistent(c) {
      forall run, i | IsRun(c, run) && 0 <= i < |run| ensures Transparent(c, run[i]) {
        RunKeepsInv(c, run, i);
      }
    } else {
      var k, k', sig :| k in c.subkeys && k' in c.subkeys && Verdict(In(c, k), sig) != Verdict(In(c, k'), sig);
      MixupIsRun(c, k, k', sig);
      var run := Mixup(c, k, k', sig);
      assert run[5].threads[0].Returned?;
      assert !Transparent(c, run[5]);
    }
  }

  /** In particular if all calls use one subkey, which is the subkey of the bundle. */
  lemma OneSubkeyIsTransparent(c: Constants, k: Option<Key>)
    requires c.subkeys == {k}
    ensures AlwaysTransparent(c)
  {
    TransparentIff(c);
  }

  /** Clones agree as well, at any time, whether they get the lock or not. */
  lemma ClonesAgree(c: Constants, run: seq<Variables>, i: nat, k: Option<Key>)
    requires Consistent(c) && IsRun(c, run) && i < |run| && k in c.subkeys
    ensures Agrees(In(c, k), run[i].table) && Agrees(In(c, k), Fresh(run[i].table.sigs))
  {
    RunKeepsInv(c, run, i);
  }
}
