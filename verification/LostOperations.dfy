/** What becomes of operations in flight when a bundler or a relayer throws, and of operations that replace
    a candidate while the bundler works with the copy it has fetched. */
module LostOperations {
  import opened Wrappers
  import opened MempoolEntries
  import opened Mempools
  import opened BundlingSystems
  import opened BundlingRuns

  // ----- Leaving flight -----

  /** An operation nobody works on and nobody will: it is not stored as new. */
  ghost predicate Stranded(s: System, k: string) {
    && k !in Claimed(s.bundler)
    && (forall r :: 0 <= r < |s.relayers| ==> k !in Held(s.relayers[r]))
    && NotNewAt(s.store, k)
  }

  ghost predicate NotNewAt(s: Store, k: string) {
    k in s.entries ==> s.entries[k].status != New
  }

  ghost predicate AddsKey(s: System, e: BundlingSystems.Event, k: string) {
    && e.Mempool? && e.m.Add? && GetKey(e.m.entry) == k
    && Added(s.store, e.m.entry, e.m.ttl, e.m.accepted, e.m.now).Success?
  }

  /** A write of `setNew` under the key. */
  ghost predicate PutsBack(s: System, e: BundlingSystems.Event, k: string) {
    && e.Write? && e.r < |s.relayers| && s.relayers[e.r].PuttingBack? && CanWrite(s.relayers[e.r])
    && k == GetKey(s.relayers[e.r].bundle[s.relayers[e.r].i])
  }

  predicate OfRelayer(e: BundlingSystems.Event) {
    e.Validated? || e.SubmissionEnds? || e.Write? || e.WriteFails? || e.Tick? || e.Look? || e.Fail? || e.Abort?
  }

  predicate OfBundler(e: BundlingSystems.Event) {
    e.StartBundling? || e.Fetch? || e.Choose? || e.Mark? || e.MarkFails? || e.Launch? || e.EndBundling?
  }

  /** The steps with which a relayer lets go of a whole bundle: its work is done, or something throws where
      no handler puts the operations back. */
  predicate DropsBundle(p: Relayer, e: BundlingSystems.Event, testing: bool) {
    match e
    case Abort(_) => true
    case SubmissionEnds(_, ok) => !ok && testing
    case Write(_, _, _) =>
      CanWrite(p) && p.i + 1 == |p.bundle| && (p.Cancelling? || p.Reverting? || (p.MarkingSubmitted? && testing))
    case WriteFails(_, _, _) => p.Cancelling? || p.PuttingBack? || (p.MarkingSubmitted? && testing)
    case Look(_, scan, _) => p.Waiting? && scan < |p.scans| && p.scans[scan] >= |p.bundle|
    case _ => false
  }

  /** The bundler gives up what it has marked, or a relayer drops the bundle. */
  ghost predicate LetsGo(s: System, e: BundlingSystems.Event, k: string) {
    || (e.MarkFails? && k in Marked(s.bundler))
    || (OfRelayer(e) && e.r < |s.relayers| && k in Held(s.relayers[e.r])
        && DropsBundle(s.relayers[e.r], e, s.testing))
  }

  /** What a relayer holds after its step. */
  ghost function HeldAfter(p: Relayer, e: BundlingSystems.Event, testing: bool): set<string> {
    if DropsBundle(p, e, testing) then {}
    else if e.Write? && p.PuttingBack? && CanWrite(p) then Held(p) - {GetKey(p.bundle[p.i])}
    else Held(p)
  }

  lemma WriteIsHeldAfter(p: Relayer, e: Entry, ev: BundlingSystems.Event, testing: bool)
    requires RelayerOk(p) && CanWrite(p) && GetKey(e) == GetKey(p.bundle[p.i])
    ensures ev.Write? ==> Held(AfterWrite(p, e, testing)) == HeldAfter(p, ev, testing)
    ensures ev.WriteFails? ==> Held(AfterFailedWrite(p, e, testing)) == HeldAfter(p, ev, testing)
  {
    hide GetKey, Keys, DistinctKeys;
    SameKeysOverall(p.bundle, p.i, e);
    var changed := p.bundle[p.i := e];
    assert changed[0..] == changed;
    PutBackHolds(p.bundle, p.i);
    assert changed[p.i + 1..] == p.bundle[p.i + 1..];
    if p.i + 1 == |p.bundle| {
      NoKeys(p.bundle[p.i + 1..]);
    }
  }

  lemma NoKeys(es: seq<Entry>)
    requires es == []
    ensures Keys(es) == {}
  {
  }

  /** One relayer moves, and what it holds afterwards is known. */
  lemma RelayerStep(s: System, e: BundlingSystems.Event)
    requires Inv(s) && Enabled(s, e) && OfRelayer(e)
    ensures e.r < |s.relayers| == |Next(s, e).relayers| && Next(s, e).bundler == s.bundler
    ensures Held(Next(s, e).relayers[e.r]) == HeldAfter(s.relayers[e.r], e, s.testing)
    ensures forall q :: 0 <= q < |s.relayers| && q != e.r ==> Next(s, e).relayers[q] == s.relayers[q]
  {
    var p := s.relayers[e.r];
    if e.Write? || e.WriteFails? {
      WriteIsHeldAfter(p, WrittenEntry(p, e.params, e.now), e, s.testing);
    } else if e.SubmissionEnds? {
      assert p.bundle[0..] == p.bundle;
    }
  }

  /** Only a put-back makes an operation in flight new. */
  lemma RelayerStepAtKey(s: System, e: BundlingSystems.Event, k: string)
    requires Enabled(s, e) && OfRelayer(e) && NotNewAt(s.store, k)
    ensures NotNewAt(Next(s, e).store, k) <==> !PutsBack(s, e, k)
  {
    hide GetKey;
  }

  /** Exactly one relayer, or the bundler alone, has an operation in flight. */
  lemma HolderIsUnique(s: System, r: nat, k: string)
    requires Inv(s) && r < |s.relayers| && k in Held(s.relayers[r])
    ensures k !in Claimed(s.bundler) && k !in Marked(s.bundler)
    ensures forall q :: 0 <= q < |s.relayers| && q != r ==> k !in Held(s.relayers[q])
  {
    hide Held, Marked, Claimed, NotNew, BundlerOk, RelayerOk;
    MarkedIsClaimed(s.bundler);
    forall q | 0 <= q < |s.relayers| && q != r ensures k !in Held(s.relayers[q]) {
      if q < r {
        assert Held(s.relayers[q]) !! Held(s.relayers[r]);
      } else {
        assert Held(s.relayers[r]) !! Held(s.relayers[q]);
      }
    }
  }

  /** What becomes of an operation in flight when its relayer makes a step. */
  lemma RelayerStepDecides(s: System, e: BundlingSystems.Event, k: string)
    requires Inv(s) && Enabled(s, e) && OfRelayer(e) && InFlight(s, k)
    ensures NotNewAt(Next(s, e).store, k) <==> !PutsBack(s, e, k)
    ensures InFlight(Next(s, e), k) <==> !PutsBack(s, e, k) && !LetsGo(s, e, k)
    ensures Stranded(Next(s, e), k) <==> LetsGo(s, e, k)
  {
    hide Next, Enabled, Held, Marked, Claimed, DropsBundle, NotNewAt;
    NotNewInFlight(s, k);
    RelayerStep(s, e);
    RelayerStepAtKey(s, e, k);
    PutBackIsHeld(s, e, k);
    var t := Next(s, e);
    if k in Held(s.relayers[e.r]) {
      HolderIsUnique(s, e.r, k);
    } else if k in Marked(s.bundler) {
      MarkedIsClaimed(s.bundler);
    } else {
      var q :| 0 <= q < |s.relayers| && k in Held(s.relayers[q]);
      assert k in Held(t.relayers[q]);
    }
  }

  lemma NotNewInFlight(s: System, k: string)
    requires Inv(s) && InFlight(s, k)
    ensures NotNewAt(s.store, k)
  {
    if k in s.store.entries {
      InFlightIsNotNew(s, k);
    }
  }

  lemma PutBackIsHeld(s: System, e: BundlingSystems.Event, k: string)
    requires Inv(s)
    ensures PutsBack(s, e, k) ==>
              && k in Held(s.relayers[e.r])
              && !DropsBundle(s.relayers[e.r], e, s.testing)
              && k !in HeldAfter(s.relayers[e.r], e, s.testing)
  {
    if PutsBack(s, e, k) {
      PutBackHolds(s.relayers[e.r].bundle, s.relayers[e.r].i);
    }
  }

  /** What the bundler does leaves operations in flight, except when its write fails. */
  lemma BundlerStepDecides(s: System, e: BundlingSystems.Event, k: string)
    requires Inv(s) && Enabled(s, e) && OfBundler(e) && InFlight(s, k)
    ensures NotNewAt(Next(s, e).store, k)
    ensures InFlight(Next(s, e), k) <==> !LetsGo(s, e, k)
    ensures Stranded(Next(s, e), k) <==> LetsGo(s, e, k)
  {
    hide GetKey, Keys, NotNew, Disjoint, Held, Claimed, AfterMark;
    NotNewInFlight(s, k);
    if e.Mark? {
      MarkIsNotNew(s, e.now, k);
    }
    if k in Marked(s.bundler) {
      MarkedStepDecides(s, e, k);
    } else {
      var q :| 0 <= q < |s.relayers| && k in Held(s.relayers[q]);
      HeldStaysHeld(s, e, q, k);
      FlightExcludesStranded(Next(s, e), k);
    }
  }

  lemma MarkedStepDecides(s: System, e: BundlingSystems.Event, k: string)
    requires Inv(s) && Enabled(s, e) && OfBundler(e) && k in Marked(s.bundler)
    ensures InFlight(Next(s, e), k) <==> !LetsGo(s, e, k)
    ensures Stranded(Next(s, e), k) <==> LetsGo(s, e, k)
  {
    hide GetKey, Keys, NotNew, AfterMark;
    match e
    case Mark(now) =>
      MarkedStaysMarked(s.bundler, now, k);
      FlightExcludesStranded(Next(s, e), k);
    case MarkFails =>
      MarkedIsClaimed(s.bundler);
      NotNewInFlight(s, k);
    case Launch =>
      MarkedIsLaunched(s, k);
      FlightExcludesStranded(Next(s, e), k);
    case _ =>
  }

  lemma MarkedStaysMarked(b: Bundler, now: int, k: string)
    requires BundlerOk(b) && CanMark(b) && k in Marked(b)
    ensures k in Marked(AfterMark(b, now))
  {
    var e, bundle := MarkedEntry(b, now), b.bundle;
    SameKeysOverall(bundle, b.i, e);
    SameKeysAfterWrite(bundle, b.i, e, b.i + 1);
    assert bundle[..b.i + 1] == bundle[..b.i] + [bundle[b.i]];
    if b.MarkingPending? && b.i + 1 == |bundle| {
      assert bundle[..b.i + 1] == bundle;
    }
  }

  lemma MarkIsNotNew(s: System, now: int, k: string)
    requires BundlerOk(s.bundler) && CanMark(s.bundler) && NotNewAt(s.store, k)
    ensures NotNewAt(Updated(s.store, MarkedEntry(s.bundler, now)), k)
  {
    hide GetKey;
    assert s.bundler.bundle[s.bundler.i] in s.bundler.bundle;
  }

  lemma MarkedIsLaunched(s: System, k: string)
    requires Inv(s) && Enabled(s, Launch) && k in Marked(s.bundler)
    ensures InFlight(Next(s, Launch), k)
  {
    LaunchKeepsInv(s);
    var r := FirstFree(s.relayers);
    assert Next(s, Launch).relayers[r] == Locked(s.bundler.bundle);
  }

  lemma HeldStaysHeld(s: System, e: BundlingSystems.Event, q: nat, k: string)
    requires Inv(s) && Enabled(s, e) && OfBundler(e) && q < |s.relayers| && k in Held(s.relayers[q])
    ensures InFlight(Next(s, e), k) && !LetsGo(s, e, k)
  {
    HolderIsUnique(s, q, k);
    if e.Launch? {
      LaunchKeepsInv(s);
    }
    assert Next(s, e).relayers[q] == s.relayers[q];
  }

  lemma MempoolStepDecides(s: System, m: Mempools.Event, k: string)
    requires Enabled(s, Mempool(m)) && !AddsKey(s, Mempool(m), k) && NotNewAt(s.store, k)
    ensures NotNewAt(Next(s, Mempool(m)).store, k)
    ensures InFlight(s, k) <==> InFlight(Next(s, Mempool(m)), k)
  {
    hide GetKey;
  }

  /** What one step makes of an operation in flight whose key it does not add: the operation is new again
      if and only if the step is a write of `setNew` under its key, it is stranded if and only if its
      bundler or its relayer lets go of it, and otherwise it stays in flight. */
  lemma InFlightDecides(s: System, e: BundlingSystems.Event, k: string)
    requires Inv(s) && Enabled(s, e) && InFlight(s, k) && !AddsKey(s, e, k)
    ensures k in Next(s, e).store.entries && Next(s, e).store.entries[k].status == New <==> PutsBack(s, e, k)
    ensures Stranded(Next(s, e), k) <==> LetsGo(s, e, k)
    ensures InFlight(Next(s, e), k) <==> !PutsBack(s, e, k) && !LetsGo(s, e, k)
  {
    hide Inv, Next, Enabled, InFlight;
    if OfRelayer(e) {
      RelayerStepDecides(s, e, k);
    } else if OfBundler(e) {
      BundlerStepDecides(s, e, k);
    } else {
      NotNewInFlight(s, k);
      MempoolStepDecides(s, e.m, k);
      FlightExcludesStranded(Next(s, e), k);
    }
  }

  lemma FlightExcludesStranded(s: System, k: string)
    requires InFlight(s, k)
    ensures !Stranded(s, k)
  {
    MarkedIsClaimed(s.bundler);
  }

  // ----- Stranded operations -----

  /** A relayer that throws before it submits strands every operation of its bundle. */
  lemma AbortStrands(s: System, r: nat, k: string)
    requires Inv(s) && Enabled(s, Abort(r)) && k in Held(s.relayers[r])
    ensures Stranded(Next(s, Abort(r)), k)
  {
    InFlightDecides(s, Abort(r), k);
  }

  /** So does one whose `setNew` throws, with every operation it has not yet put back. */
  lemma FailedPutBackStrands(s: System, r: nat, params: Params, now: int, k: string)
    requires Inv(s) && Enabled(s, WriteFails(r, params, now))
    requires s.relayers[r].PuttingBack? && k in Held(s.relayers[r])
    ensures Stranded(Next(s, WriteFails(r, params, now)), k)
  {
    InFlightDecides(s, WriteFails(r, params, now), k);
  }

  /** And a bundler whose write fails, with every operation it has marked. */
  lemma FailedMarkStrands(s: System, k: string)
    requires Inv(s) && Enabled(s, MarkFails) && k in Marked(s.bundler)
    ensures Stranded(Next(s, MarkFails), k)
  {
    InFlightDecides(s, MarkFails, k);
  }

  lemma RelayerHoldsNoMore(s: System, e: BundlingSystems.Event)
    requires Enabled(s, e) && OfRelayer(e)
    ensures e.r < |s.relayers| == |Next(s, e).relayers| && Next(s, e).bundler == s.bundler
    ensures Held(Next(s, e).relayers[e.r]) <= Held(s.relayers[e.r])
    ensures forall q :: 0 <= q < |s.relayers| && q != e.r ==> Next(s, e).relayers[q] == s.relayers[q]
  {
    hide GetKey, Keys, Updated, WithStatus, AfterWrite, AfterFailedWrite;
    var p := s.relayers[e.r];
    if e.Write? || e.WriteFails? {
      WriteHoldsNoMore(p, WrittenEntry(p, e.params, e.now), s.testing);
    } else if e.SubmissionEnds? {
      assert p.bundle[0..] == p.bundle;
    }
  }

  lemma PutBackWasHeld(s: System, e: BundlingSystems.Event, k: string)
    ensures PutsBack(s, e, k) ==> k in Held(s.relayers[e.r])
  {
    if PutsBack(s, e, k) {
      var p := s.relayers[e.r];
      assert p.bundle[p.i..][0] == p.bundle[p.i];
    }
  }

  lemma RelayerKeepsStranded(s: System, e: BundlingSystems.Event, k: string)
    requires Stranded(s, k) && Enabled(s, e) && OfRelayer(e)
    ensures Stranded(Next(s, e), k)
  {
    hide Next, Enabled, Held, Claimed, NotNewAt, PutsBack;
    RelayerHoldsNoMore(s, e);
    PutBackWasHeld(s, e, k);
    RelayerStepAtKey(s, e, k);
  }

  lemma BundlerKeepsStranded(s: System, e: BundlingSystems.Event, k: string)
    requires Stranded(s, k) && Enabled(s, e) && OfBundler(e)
    ensures Stranded(Next(s, e), k)
  {
    match e
    case Fetch(candidates) =>
      forall c | c in candidates ensures GetKey(c) != k {
        assert StoredAsNew(s.store, c);
      }
    case Choose(chosen) => assert Keys(chosen) <= Keys(s.bundler.candidates);
    case Mark(now) =>
      SameKeysOverall(s.bundler.bundle, s.bundler.i, MarkedEntry(s.bundler, now));
      assert s.bundler.bundle[s.bundler.i] in s.bundler.bundle;
    case _ =>
  }

  lemma MempoolKeepsStranded(s: System, m: Mempools.Event, k: string)
    requires Stranded(s, k) && Enabled(s, Mempool(m)) && !AddsKey(s, Mempool(m), k)
    ensures Stranded(Next(s, Mempool(m)), k)
  {
    MempoolStepDecides(s, m, k);
  }

  lemma StepKeepsStranded(s: System, e: BundlingSystems.Event, k: string)
    requires Stranded(s, k) && Enabled(s, e) && !AddsKey(s, e, k)
    ensures Stranded(Next(s, e), k)
  {
    hide Stranded, Next, Enabled;
    if OfRelayer(e) {
      RelayerKeepsStranded(s, e, k);
    } else if OfBundler(e) {
      BundlerKeepsStranded(s, e, k);
    } else {
      MempoolKeepsStranded(s, e.m, k);
    }
  }

  /** In every run a stranded operation stays in no bundle and never becomes new again, until its key is
      added anew: the bundler never bundles it. */
  lemma {:induction false} StrandedForGood(states: seq<System>, events: seq<BundlingSystems.Event>, n: nat, k: string)
    requires IsRun(states, events) && Stranded(states[0], k) && n < |states|
    requires forall i :: 0 <= i < n ==> !AddsKey(states[i], events[i], k)
    ensures Stranded(states[n], k) && !InFlight(states[n], k)
  {
    if n == 0 {
    } else {
      StrandedForGood(states, events, n - 1, k);
      assert Enabled(states[n - 1], events[n - 1]);
      StepKeepsStranded(states[n - 1], events[n - 1], k);
    }
    MarkedIsClaimed(states[n].bundler);
  }

  /** In every run without replacement an operation in flight stays in flight or stranded, and so never
      becomes new, until `setNew` puts it back or its key is added anew. */
  lemma {:induction false} OnlySetNewPutsBack(states: seq<System>, events: seq<BundlingSystems.Event>, n: nat,
                                              k: string)
    requires IsRun(states, events) && NothingReplaced(states, events) && n < |states|
    requires Inv(states[0]) && InFlight(states[0], k)
    requires forall i :: 0 <= i < n ==> !PutsBack(states[i], events[i], k) && !AddsKey(states[i], events[i], k)
    ensures Inv(states[n]) && (InFlight(states[n], k) || Stranded(states[n], k)) && NotNewAt(states[n].store, k)
  {
    hide Inv, InFlight, Stranded, Next, Enabled, NoReplacement, LetsGo, PutsBack;
    if n == 0 {
    } else {
      OnlySetNewPutsBack(states, events, n - 1, k);
      var s, e := states[n - 1], events[n - 1];
      assert Enabled(s, e) && NoReplacement(s, e) && states[n] == Next(s, e);
      StepKeepsInv(s, e);
      if InFlight(s, k) {
        InFlightDecides(s, e, k);
      } else {
        StepKeepsStranded(s, e, k);
      }
    }
    NotNewEitherWay(states[n], k);
  }

  lemma NotNewEitherWay(s: System, k: string)
    requires Inv(s) && (InFlight(s, k) || Stranded(s, k))
    ensures NotNewAt(s.store, k)
  {
    if InFlight(s, k) {
      NotNewInFlight(s, k);
    }
  }

  /** From the start: an operation is bundled, its relayer throws before it submits, and the operation is
      left as pending for good. */
  lemma AbortStrandsFromTheStart(s: System, e: Entry, now: int) returns (p: Path, t: System)
    requires Initial(s) && s.relayers != [] && StoredAsNew(s.store, e)
    ensures Leads(s, p, t) && NothingReplaced(p.states, p.events) && Stranded(t, GetKey(e))
    ensures GetKey(e) in t.store.entries && t.store.entries[GetKey(e)] == Bundled(e, now)
    ensures |t.relayers| == |s.relayers| && t.relayers[0].Free?
  {
    hide Inv, Stranded, Bundled;
    var first, u := FirstBundle(s, e, now);
    BundledKey(e, now);
    t := Next(u, Abort(0));
    AbortStrands(u, 0, GetKey(e));
    var aborts := OneStep(u, Abort(0));
    p := PathsJoin(s, first, u, aborts, t);
    assert NothingAdded(p.events);
  }

  /** And: it is bundled, its submission fails, and the write that would put it back throws. */
  lemma FailedPutBackStrandsFromTheStart(s: System, e: Entry, params: Params, now: int)
    returns (p: Path, t: System)
    requires Initial(s) && s.relayers != [] && StoredAsNew(s.store, e) && !s.testing
    ensures Leads(s, p, t) && NothingReplaced(p.states, p.events) && Stranded(t, GetKey(e))
    ensures GetKey(e) in t.store.entries && t.store.entries[GetKey(e)] == Bundled(e, now)
    ensures |t.relayers| == |s.relayers| && t.relayers[0].Free?
  {
    hide Inv, Stranded, Bundled, Keys, GetKey;
    var first, u := FirstBundle(s, e, now);
    BundledKey(e, now);
    var v := Next(u, SubmissionEnds(0, false));
    var fails := OneStep(u, SubmissionEnds(0, false));
    StepKeepsInv(u, SubmissionEnds(0, false));
    p := PathsJoin(s, first, u, fails, v);
    assert [Bundled(e, now)][0..] == [Bundled(e, now)];
    t := Next(v, WriteFails(0, params, now));
    FailedPutBackStrands(v, 0, params, now, GetKey(e));
    var throws := OneStep(v, WriteFails(0, params, now));
    p := PathsJoin(s, p, v, throws, t);
    assert NothingAdded(p.events);
  }

  // ----- Overwritten operations -----

  /** The steps that write another status under the key: marking a candidate, and blaming an operation. */
  ghost predicate Overwrites(s: System, e: BundlingSystems.Event, k: string)
    requires Enabled(s, e)
  {
    || (e.Mark? && s.bundler.MarkingPending? && k == GetKey(s.bundler.bundle[s.bundler.i]))
    || (e.Fail? && e.index.Some? && k == GetKey(s.relayers[e.r].bundle[e.index.value]))
  }

  /** An entry stored as new is overwritten by the bundler or a relayer if and only if the step marks it as
      pending or blames it: all other writes go to keys in flight. */
  lemma NewIsOverwrittenExactlyWhen(s: System, e: BundlingSystems.Event, k: string)
    requires Inv(s) && Enabled(s, e) && !e.Mempool? && k in s.store.entries && s.store.entries[k].status == New
    ensures k in Next(s, e).store.entries
    ensures Next(s, e).store.entries[k] != s.store.entries[k] <==> Overwrites(s, e, k)
  {
    hide GetKey, WithStatus, Inv;
    if InFlight(s, k) {
      InFlightIsNotNew(s, k);
    }
    hide InFlight;
    match e
    case Mark(now) =>
      MarkTarget(s);
      SetsStatus(s.bundler.bundle[s.bundler.i], Pending, Params(None, None), now);
    case Write(r, params, now) => WriteTarget(s, r);
    case Fail(r, index, params, now) =>
      if index.Some? {
        SetsStatus(s.relayers[r].bundle[index.value], Reverted, params, now);
      }
    case _ =>
  }

  lemma SetsStatus(e: Entry, status: Status, params: Params, now: int)
    ensures WithStatus(e, status, params, now).status == status
    ensures GetKey(WithStatus(e, status, params, now)) == GetKey(e)
  {
  }

  lemma MarkTarget(s: System)
    requires CanMark(s.bundler)
    ensures s.bundler.Attempting? ==> InFlight(s, GetKey(s.bundler.bundle[s.bundler.i]))
  {
    assert s.bundler.bundle[s.bundler.i] in s.bundler.bundle;
  }

  lemma WriteTarget(s: System, r: nat)
    requires r < |s.relayers| && CanWrite(s.relayers[r])
    ensures InFlight(s, GetKey(s.relayers[r].bundle[s.relayers[r].i]))
  {
    var p := s.relayers[r];
    assert p.bundle[p.i] in p.bundle && p.bundle[p.i..][0] == p.bundle[p.i];
    assert GetKey(p.bundle[p.i]) in Held(p);
  }

  /** How many writes the bundler has yet to make before it can launch. */
  function MarksLeft(b: Bundler): nat {
    match b
    case MarkingPending(_, bundle, i) => if i < |bundle| then 2 * |bundle| - i else 0
    case Attempting(_, bundle, i) => if i < |bundle| then |bundle| - i else 0
    case _ => 0
  }

  /** The system when the bundler has made all its writes and nobody has interfered. */
  function MarkedOff(s: System, now: int): System
    decreases MarksLeft(s.bundler)
  {
    if !CanMark(s.bundler) then s
    else
      var marked := Updated(s.store, MarkedEntry(s.bundler, now));
      MarkedOff(s.(store := marked, bundler := AfterMark(s.bundler, now)), now)
  }

  /** The same operation, perhaps further on. */
  ghost predicate VersionOf(a: Entry, b: Entry) {
    a == b.(status := a.status, lastUpdatedTime := a.lastUpdatedTime, submitAttempts := a.submitAttempts,
            transaction := a.transaction)
  }

  ghost predicate Marking(b: Bundler) {
    BundlerOk(b) && (b.MarkingPending? || (b.Attempting? && b.i <= |b.bundle|))
  }

  /** The keys the bundler has yet to write to. */
  ghost function Unwritten(b: Bundler): set<string>
    requires Marking(b)
  {
    if b.MarkingPending? then Keys(b.bundle) else Keys(b.bundle[b.i..])
  }

  lemma MarkStaysMarking(b: Bundler, now: int)
    requires Marking(b) && CanMark(b)
    ensures Marking(AfterMark(b, now)) && Unwritten(AfterMark(b, now)) <= Unwritten(b)
    ensures GetKey(b.bundle[b.i]) in Unwritten(b)
    ensures b.Attempting? ==> GetKey(b.bundle[b.i]) !in Unwritten(AfterMark(b, now))
  {
    var e, bundle := MarkedEntry(b, now), b.bundle;
    MarkStaysOk(b, now);
    SameKeysOverall(bundle, b.i, e);
    assert bundle[b.i] in bundle;
    if b.Attempting? {
      PutBackHolds(bundle, b.i);
      assert bundle[b.i := e][b.i + 1..] == bundle[b.i + 1..];
    } else if b.i + 1 == |bundle| {
      assert bundle[b.i := e][0..] == bundle[b.i := e];
    }
  }

  lemma {:induction false} MarkedOffElsewhere(s: System, now: int, k: string)
    requires Marking(s.bundler)
    ensures var t := MarkedOff(s, now);
            && t.bundler.Attempting? && t.bundler.i == |t.bundler.bundle|
            && t == s.(store := t.store, bundler := t.bundler)
            && t.store.keys == s.store.keys && t.store.hashes == s.store.hashes
            && (k !in Unwritten(s.bundler) ==>
                  && (k in t.store.entries <==> k in s.store.entries)
                  && (k in t.store.entries ==> t.store.entries[k] == s.store.entries[k]))
    decreases MarksLeft(s.bundler)
  {
    hide GetKey, Keys, Unwritten;
    if !CanMark(s.bundler) {
    } else {
      MarkStaysMarking(s.bundler, now);
      MarkedOffElsewhere(Next(s, Mark(now)), now, k);
    }
  }

  /** What the bundler writes in the end under one of its keys is the operation it has chosen, as pending. */
  lemma {:induction false} MarkedOffThere(s: System, now: int, j: nat)
    requires Marking(s.bundler) && j < |s.bundler.bundle| && (s.bundler.Attempting? ==> s.bundler.i <= j)
    ensures var t, c := MarkedOff(s, now), s.bundler.bundle[j];
            && GetKey(c) in t.store.entries && t.store.entries[GetKey(c)].status == Pending
            && VersionOf(t.store.entries[GetKey(c)], c)
    decreases MarksLeft(s.bundler)
  {
    hide GetKey, Keys, Unwritten;
    var b, s' := s.bundler, Next(s, Mark(now));
    MarkStaysMarking(b, now);
    if b.Attempting? && b.i == j {
      MarkedOffElsewhere(s', now, GetKey(b.bundle[j]));
      AttemptIsPending(b, now);
    } else {
      MarkedOffThere(s', now, j);
    }
  }

  lemma AttemptIsPending(b: Bundler, now: int)
    requires BundlerOk(b) && b.Attempting? && CanMark(b)
    ensures MarkedEntry(b, now).status == Pending
  {
    assert b.bundle[b.i] in b.bundle;
  }

  ghost predicate OnlyMarks(events: seq<BundlingSystems.Event>, now: int) {
    forall i :: 0 <= i < |events| ==> events[i] == Mark(now)
  }

  lemma OneMoreMark(rest: seq<BundlingSystems.Event>, now: int)
    requires OnlyMarks(rest, now)
    ensures OnlyMarks([Mark(now)] + rest, now)
  {
  }

  lemma MarkOnce(s: System, now: int)
    requires Marking(s.bundler) && CanMark(s.bundler)
    ensures Enabled(s, Mark(now)) && Marking(Next(s, Mark(now)).bundler)
    ensures MarkedOff(s, now) == MarkedOff(Next(s, Mark(now)), now)
    ensures MarksLeft(Next(s, Mark(now)).bundler) < MarksLeft(s.bundler)
  {
    hide GetKey, Updated, MarkedEntry, Keys;
    MarkStaysMarking(s.bundler, now);
  }

  /** The bundler's remaining writes are a run. */
  lemma {:induction false} MarksLead(s: System, now: int) returns (p: Path)
    requires Marking(s.bundler)
    ensures Leads(s, p, MarkedOff(s, now)) && OnlyMarks(p.events, now)
    decreases MarksLeft(s.bundler)
  {
    if !CanMark(s.bundler) {
      p := NoStep(s);
    } else {
      hide *;
      MarkOnce(s, now);
      var s' := Next(s, Mark(now));
      var first := OneStep(s, Mark(now));
      var rest := MarksLead(s', now);
      p := PathsJoin(s, first, s', rest, MarkedOff(s', now));
      OneMoreMark(rest.events, now);
    }
  }

  /** An operation accepted while the bundler writes to its bundle is still stored when the bundler is done
      if and only if the bundler had no write left under its key. Otherwise the bundler's own copy stands
      there as pending, and the hash of the accepted operation leads to that. */
  lemma AddedOutlivesMarksExactlyWhen(s: System, m: Mempools.Event, now: int) returns (p: Path, t: System)
    requires Marking(s.bundler) && m.Add? && Enabled(s, Mempool(m))
    requires Added(s.store, m.entry, m.ttl, m.accepted, m.now).Success?
    ensures Leads(Next(s, Mempool(m)), p, t) && OnlyMarks(p.events, now)
    ensures t.bundler.Attempting? && t.bundler.i == |t.bundler.bundle|
    ensures var k := GetKey(m.entry);
            && k in t.store.entries
            && (t.store.entries[k] == m.entry.(lastUpdatedTime := m.now) <==> k !in Unwritten(s.bundler))
            && (k in Unwritten(s.bundler) ==>
                  && t.store.entries[k].status == Pending
                  && exists c <- s.bundler.bundle :: GetKey(c) == k && VersionOf(t.store.entries[k], c))
            && m.entry.userOpHash in t.store.hashes && t.store.hashes[m.entry.userOpHash] == k
  {
    hide GetKey, Marking, Unwritten, CanReplaceWithTTL;
    var k, s1 := GetKey(m.entry), Next(s, Mempool(m));
    t := MarkedOff(s1, now);
    p := MarksLead(s1, now);
    MarkedOffElsewhere(s1, now, k);
    if k in Unwritten(s.bundler) {
      var j := UnwrittenIndex(s.bundler, k);
      MarkedOffThere(s1, now, j);
      assert s.bundler.bundle[j] in s.bundler.bundle;
    }
  }

  lemma UnwrittenIndex(b: Bundler, k: string) returns (j: nat)
    requires Marking(b) && k in Unwritten(b)
    ensures j < |b.bundle| && GetKey(b.bundle[j]) == k && (b.Attempting? ==> b.i <= j)
  {
    if b.MarkingPending? {
      j :| 0 <= j < |b.bundle| && GetKey(b.bundle[j]) == k;
    } else {
      var rest := b.bundle[b.i..];
      var n :| 0 <= n < |rest| && GetKey(rest[n]) == k;
      j := b.i + n;
    }
  }

  lemma AttemptedIsInFlight(s: System, k: string)
    requires Marking(s.bundler) && s.bundler.Attempting? && k in Unwritten(s.bundler)
    ensures InFlight(s, k)
  {
    var j := UnwrittenIndex(s.bundler, k);
    assert s.bundler.bundle[j] in s.bundler.bundle;
  }

  /** For an operation not in flight, a write left under its key means that the key is claimed and not yet
      marked. */
  lemma UnwrittenAndNotInFlight(s: System, k: string)
    requires Marking(s.bundler) && !InFlight(s, k)
    ensures k in Unwritten(s.bundler) <==> k in Claimed(s.bundler)
  {
    if s.bundler.Attempting? && k in Unwritten(s.bundler) {
      AttemptedIsInFlight(s, k);
    }
  }

  lemma StartGivesSlots(s: System)
    requires Initial(s) && s.relayers != []
    ensures Enabled(s, StartBundling) && Next(s, StartBundling) == s.(bundler := Ready(|s.relayers|))
    ensures FirstFree(s.relayers) == 0 && forall k :: !InFlight(s.(bundler := Ready(|s.relayers|)), k)
  {
    AllFree(s.relayers);
    FirstIsFree(s.relayers);
  }

  /** Fetching one operation, which is replaced before the bundle is made. */
  lemma ReplacedCandidate(s: System, e: Entry, m: Mempools.Event)
    requires s.bundler.Ready? && s.bundler.slots > 0 && StoredAsNew(s.store, e)
    requires m.Add? && m.entry.status == New && GetKey(m.entry) == GetKey(e) && CanReplaceWithTTL(m.entry, e, m.ttl)
    ensures Enabled(s, Fetch([e])) && Enabled(Next(s, Fetch([e])), Mempool(m))
    ensures var store := After(s.store, m);
            var added := Next(Next(s, Fetch([e])), Mempool(m));
            && Enabled(added, Choose([e]))
            && Next(added, Choose([e])) == s.(store := store, bundler := MarkingPending(s.bundler.slots - 1, [e], 0))
            && m.entry.userOpHash in store.hashes && store.hashes[m.entry.userOpHash] == GetKey(e)
  {
    hide CanReplaceWithTTL;
    OneIsChosen(s, e);
  }

  lemma NothingAddedNothingReplaced(p: Path)
    requires |p.states| == |p.events| + 1 && NothingAdded(p.events)
    ensures NothingReplaced(p.states, p.events)
  {
  }

  /** The first four steps of such a run. */
  lemma ReplacedAtTheStart(s: System, e: Entry, m: Mempools.Event) returns (p: Path, t: System)
    requires Initial(s) && s.relayers != [] && StoredAsNew(s.store, e)
    requires m.Add? && m.entry.status == New && GetKey(m.entry) == GetKey(e) && CanReplaceWithTTL(m.entry, e, m.ttl)
    ensures Leads(s, p, t) && NothingReplaced(p.states, p.events)
    ensures p.events == [StartBundling, Fetch([e]), Mempool(m), Choose([e])]
    ensures t == s.(store := After(s.store, m), bundler := MarkingPending(|s.relayers| - 1, [e], 0))
    ensures m.entry.userOpHash in t.store.hashes && t.store.hashes[m.entry.userOpHash] == GetKey(e)
  {
    StartGivesSlots(s);
    var ready := Next(s, StartBundling);
    ReplacedCandidate(ready, e, m);
    var fetched := Next(ready, Fetch([e]));
    var added := Next(fetched, Mempool(m));
    assert !InFlight(fetched, GetKey(e)) by { assert !InFlight(ready, GetKey(e)); }
    t := Next(added, Choose([e]));
    hide Next, Enabled, GetKey, CanReplaceWithTTL, InFlight, Initial, After;
    p := Path([s, ready, fetched, added, t], [StartBundling, Fetch([e]), Mempool(m), Choose([e])]);
  }

  /** From the start, in runs the safety theorem covers: a candidate is replaced after it was fetched, the
      bundler marks and launches the copy it has, and the accepted operation is no longer stored although
      its hash is known. */
  lemma ReplacedCandidateIsLostFromTheStart(s: System, e: Entry, m: Mempools.Event, now: int)
    returns (p: Path, t: System)
    requires Initial(s) && s.relayers != [] && StoredAsNew(s.store, e)
    requires m.Add? && m.entry.status == New && GetKey(m.entry) == GetKey(e) && CanReplaceWithTTL(m.entry, e, m.ttl)
    ensures Leads(s, p, t) && NothingReplaced(p.states, p.events) && Mempool(m) in p.events
    ensures |t.relayers| == |s.relayers| && t.relayers[0] == Locked([Bundled(e, now)])
    ensures GetKey(e) in t.store.entries && t.store.entries[GetKey(e)] == Bundled(e, now)
    ensures m.entry.userOpHash in t.store.hashes && t.store.hashes[m.entry.userOpHash] == GetKey(e)
  {
    StartGivesSlots(s);
    var ready := s.(bundler := Ready(|s.relayers|));
    var first, chosen := ReplacedAtTheStart(s, e, m);
    var later := ready.(store := After(s.store, m));
    var rest := ChosenIsLaunched(later, e, now);
    t := Launched(later, e, now);
    hide Next, Enabled, GetKey, CanReplaceWithTTL, WithStatus, Initial, After, NoReplacement;
    BundledKey(e, now);
    p := PathsJoin(s, first, chosen, rest, t);
    NothingAddedNothingReplaced(rest);
    NothingReplacedOnEither(s, first, chosen, rest, t);
    assert first.events[2] == Mempool(m) && p.events[2] == first.events[2];
  }
}
