/** Runs of the bundler, the relayers and the mempool in particular: where the hypothesis of the safety
    theorem is needed, and what each phase of a relayer comes to when nobody interferes. */
module BundlingRuns {
  import opened Wrappers
  import opened MempoolEntries
  import opened Mempools
  import opened BundlingSystems

  // ----- Paths -----

  /** A run, and the system it ends in. */
  datatype Path = Path(states: seq<System>, events: seq<BundlingSystems.Event>)

  ghost predicate Leads(s: System, p: Path, t: System) {
    IsRun(p.states, p.events) && p.states[0] == s && p.states[|p.events|] == t
  }

  lemma PathsJoin(s: System, p: Path, t: System, q: Path, u: System) returns (pq: Path)
    requires Leads(s, p, t) && Leads(t, q, u)
    ensures Leads(s, pq, u) && pq == Path(p.states + q.states[1..], p.events + q.events)
  {
    hide Next, Enabled;
    pq := Path(p.states + q.states[1..], p.events + q.events);
    var n := |p.events|;
    forall i | 0 <= i < |pq.events|
      ensures Enabled(pq.states[i], pq.events[i]) && pq.states[i + 1] == Next(pq.states[i], pq.events[i])
    {
      if i < n {
        assert Enabled(p.states[i], p.events[i]);
      } else {
        assert Enabled(q.states[i - n], q.events[i - n]);
        assert pq.states[i] == q.states[i - n];
      }
    }
  }

  lemma NothingReplacedOnEither(s: System, p: Path, t: System, q: Path, u: System)
    requires Leads(s, p, t) && Leads(t, q, u)
    requires NothingReplaced(p.states, p.events) && NothingReplaced(q.states, q.events)
    ensures NothingReplaced(p.states + q.states[1..], p.events + q.events)
  {
    hide Next, Enabled, NoReplacement;
    var n, states, events := |p.events|, p.states + q.states[1..], p.events + q.events;
    forall i | 0 <= i < |events| ensures NoReplacement(states[i], events[i]) {
      if i < n {
        assert NoReplacement(p.states[i], p.events[i]);
      } else {
        assert NoReplacement(q.states[i - n], q.events[i - n]);
        assert states[i] == q.states[i - n];
      }
    }
  }

  lemma OneStep(s: System, e: BundlingSystems.Event) returns (p: Path)
    requires Enabled(s, e)
    ensures Leads(s, p, Next(s, e)) && p.events == [e]
  {
    p := Path([s, Next(s, e)], [e]);
  }

  lemma NoStep(s: System) returns (p: Path)
    ensures Leads(s, p, s) && p.events == []
  {
    p := Path([s], []);
  }

  // ----- Why the hypothesis is needed -----

  /** An accepted operation keeps the invariant exactly when its key is not in flight. */
  lemma AddKeepsInvExactlyWhen(s: System, m: Mempools.Event)
    requires Inv(s) && m.Add? && Enabled(s, Mempool(m))
    requires Added(s.store, m.entry, m.ttl, m.accepted, m.now).Success?
    ensures Inv(Next(s, Mempool(m))) <==> !InFlight(s, GetKey(m.entry))
  {
    var s', k := Next(s, Mempool(m)), GetKey(m.entry);
    if !InFlight(s, k) {
      MempoolKeepsInv(s, m);
    } else {
      assert s'.store.entries[k].status == New;
      assert InFlight(s', k);
      if Inv(s') {
        InFlightIsNotNew(s', k);
      }
    }
  }

  /** An entry as the bundler's two writes leave it. */
  function Bundled(e: Entry, now: int): Entry {
    var marked := WithStatus(e, Pending, Params(None, None), now);
    marked.(submitAttempts := marked.submitAttempts + 1, lastUpdatedTime := now)
  }

  /** The system once an operation has been bundled alone and launched. */
  function Launched(s: System, e: Entry, now: int): System
    requires s.bundler.Ready? && s.bundler.slots > 0 && FirstFree(s.relayers) < |s.relayers|
  {
    var marked := Updated(s.store, WithStatus(e, Pending, Params(None, None), now));
    s.(store := Updated(marked, Bundled(e, now)), bundler := Ready(s.bundler.slots - 1),
       relayers := s.relayers[FirstFree(s.relayers) := Locked([Bundled(e, now)])])
  }

  ghost predicate NothingAdded(events: seq<BundlingSystems.Event>) {
    forall e <- events :: !e.Mempool?
  }

  /** The two writes of a bundle of one. */
  lemma OneIsMarked(s: System, e: Entry, now: int)
    requires s.bundler.MarkingPending? && s.bundler.bundle == [e] && s.bundler.i == 0
    ensures Enabled(s, Mark(now)) && Enabled(Next(s, Mark(now)), Mark(now))
    ensures var marked := Updated(s.store, WithStatus(e, Pending, Params(None, None), now));
            Next(Next(s, Mark(now)), Mark(now))
            == s.(store := Updated(marked, Bundled(e, now)),
                  bundler := Attempting(s.bundler.slots, [Bundled(e, now)], 1))
  {
    hide Updated, WithStatus;
    var s1 := Next(s, Mark(now));
    assert s1.bundler.bundle == [WithStatus(e, Pending, Params(None, None), now)];
    assert Next(s1, Mark(now)).bundler.bundle == [Bundled(e, now)];
  }

  /** Fetching and choosing one operation. */
  lemma OneIsChosen(s: System, e: Entry)
    requires s.bundler.Ready? && s.bundler.slots > 0 && StoredAsNew(s.store, e)
    ensures Enabled(s, Fetch([e])) && Enabled(Next(s, Fetch([e])), Choose([e]))
    ensures Next(Next(s, Fetch([e])), Choose([e])) == s.(bundler := MarkingPending(s.bundler.slots - 1, [e], 0))
  {
    assert [e][0] == e && GetKey(e) in Keys([e]);
  }

  lemma OneIsLaunched(s: System, s4: System, e: Entry, now: int)
    requires s.bundler.Ready? && s.bundler.slots > 0 && FirstFree(s.relayers) < |s.relayers|
    requires var marked := Updated(s.store, WithStatus(e, Pending, Params(None, None), now));
             s4 == s.(store := Updated(marked, Bundled(e, now)),
                      bundler := Attempting(s.bundler.slots - 1, [Bundled(e, now)], 1))
    ensures Enabled(s4, Launch) && Next(s4, Launch) == Launched(s, e, now)
  {
    hide Updated, WithStatus, Bundled;
  }

  /** Three more steps launch it. */
  lemma ChosenIsLaunched(s: System, e: Entry, now: int) returns (p: Path)
    requires s.bundler.Ready? && s.bundler.slots > 0 && FirstFree(s.relayers) < |s.relayers|
    ensures Leads(s.(bundler := MarkingPending(s.bundler.slots - 1, [e], 0)), p, Launched(s, e, now))
    ensures |p.events| == 3 && NothingAdded(p.events)
  {
    hide Next, Enabled, Launched, Updated, WithStatus, Bundled;
    var s2 := s.(bundler := MarkingPending(s.bundler.slots - 1, [e], 0));
    OneIsMarked(s2, e, now);
    var s3 := Next(s2, Mark(now));
    var s4 := Next(s3, Mark(now));
    OneIsLaunched(s, s4, e, now);
    p := Path([s2, s3, s4, Next(s4, Launch)], [Mark(now), Mark(now), Launch]);
  }

  /** An operation stored as new is bundled in five steps, whoever else is busy with it. */
  lemma NewIsBundled(s: System, e: Entry, now: int) returns (p: Path)
    requires s.bundler.Ready? && 0 < s.bundler.slots <= FreeCount(s.relayers) && StoredAsNew(s.store, e)
    ensures FirstFree(s.relayers) < |s.relayers|
    ensures Leads(s, p, Launched(s, e, now)) && |p.events| == 5 && NothingAdded(p.events)
  {
    hide Next, Enabled, Launched;
    SomeFree(s.relayers);
    OneIsChosen(s, e);
    var s1 := Next(s, Fetch([e]));
    var s2 := Next(s1, Choose([e]));
    var rest := ChosenIsLaunched(s, e, now);
    p := PathsJoin(s, Path([s, s1, s2], [Fetch([e]), Choose([e])]), s2, rest, Launched(s, e, now));
  }

  lemma BundledKey(e: Entry, now: int)
    ensures GetKey(Bundled(e, now)) == GetKey(e)
    ensures Bundled(e, now) in [Bundled(e, now)] && GetKey(e) in Keys([Bundled(e, now)])
  {
    assert [Bundled(e, now)][0] == Bundled(e, now);
  }

  /** Two busy relayers work on bundles with a common operation only while one of them puts its bundle back,
      past that operation, or has done so. */
  lemma SharedOnlyAfterPutBack(s: System, p: nat, q: nat, k: string)
    requires Inv(s) && p < |s.relayers| && q < |s.relayers| && p != q
    requires !s.relayers[p].Free? && k in Keys(s.relayers[p].bundle)
    requires !s.relayers[q].Free? && k in Keys(s.relayers[q].bundle)
    ensures HasPutBack(s.relayers[p], k) || HasPutBack(s.relayers[q], k)
  {
    hide Keys;
    if p < q {
      assert Held(s.relayers[p]) !! Held(s.relayers[q]);
    } else {
      assert Held(s.relayers[q]) !! Held(s.relayers[p]);
    }
    PutBackOrHeld(s.relayers[p], k);
    PutBackOrHeld(s.relayers[q], k);
  }

  ghost predicate HasPutBack(p: Relayer, k: string) {
    p.Failing? || (p.PuttingBack? && p.i <= |p.bundle| && k in Keys(p.bundle[..p.i]))
  }

  lemma PutBackOrHeld(p: Relayer, k: string)
    requires RelayerOk(p) && !p.Free? && k in Keys(p.bundle)
    ensures HasPutBack(p, k) || k in Held(p)
  {
    if p.PuttingBack? {
      assert p.bundle == p.bundle[..p.i] + p.bundle[p.i..];
    }
  }

  /** Whenever an operation a relayer holds is replaced while the bundler still has a slot, some
      continuation puts it into a second bundle in flight. */
  lemma ReplacementMakesTwo(s: System, m: Mempools.Event, r: nat) returns (p: Path, t: System, q: nat)
    requires Inv(s) && s.bundler.Ready? && s.bundler.slots > 0
    requires m.Add? && Enabled(s, Mempool(m)) && Added(s.store, m.entry, m.ttl, m.accepted, m.now).Success?
    requires r < |s.relayers| && GetKey(m.entry) in Held(s.relayers[r])
    ensures Leads(s, p, t) && p.events != [] && p.events[0] == Mempool(m)
    ensures |t.relayers| == |s.relayers| && q < |t.relayers| && q != r
    ensures GetKey(m.entry) in Held(t.relayers[q]) && GetKey(m.entry) in Held(t.relayers[r])
  {
    hide NotNew, Disjoint, DistinctKeys, Bundled, Keys;
    var s1 := Next(s, Mempool(m));
    GetKeyIgnoresTime(m.entry, m.now);
    var e := s1.store.entries[GetKey(m.entry)];
    var first := OneStep(s, Mempool(m));
    var rest := NewIsBundled(s1, e, m.now);
    t, q := Launched(s1, e, m.now), FirstFree(s.relayers);
    BundledKey(e, m.now);
    p := PathsJoin(s, first, s1, rest, t);
  }

  lemma SlotsAreFree(s: System)
    requires Inv(s) && s.bundler.Ready?
    ensures s.bundler.slots <= FreeCount(s.relayers)
  {
  }

  /** After one write of a relayer that puts a bundle back, the entry it has written is stored as new
      while the relayer still works on the bundle. */
  lemma OnePutBack(s: System, r: nat, params: Params, now: int) returns (s1: System, e: Entry)
    requires Inv(s) && s.bundler.Ready? && r < |s.relayers| && s.relayers[r].PuttingBack?
    ensures Enabled(s, Write(r, params, now)) && s1 == Next(s, Write(r, params, now))
    ensures s1.bundler == s.bundler && |s1.relayers| == |s.relayers| && s1.bundler.slots <= FreeCount(s1.relayers)
    ensures s.relayers[r].i < |s.relayers[r].bundle| && GetKey(e) == GetKey(s.relayers[r].bundle[s.relayers[r].i])
    ensures StoredAsNew(s1.store, e) && !s1.relayers[r].Free? && GetKey(e) in Keys(s1.relayers[r].bundle)
  {
    var w := s.relayers[r];
    e := WrittenEntry(w, params, now);
    s1 := Next(s, Write(r, params, now));
    WriteKeepsInv(s, r, params, now);
    SlotsAreFree(s1);
    SameKeysOverall(w.bundle, w.i, e);
    assert w.bundle[w.i] in w.bundle;
  }

  /** A relayer that puts a failed bundle back lets go of its operations one by one: with a slot left,
      the one just put back can be launched elsewhere while the relayer still works on its bundle. */
  lemma PutBackIsTakenAtOnce(s: System, r: nat, params: Params, now: int) returns (p: Path, t: System, q: nat)
    requires Inv(s) && s.bundler.Ready? && s.bundler.slots > 0
    requires r < |s.relayers| && s.relayers[r].PuttingBack?
    ensures Leads(s, p, t) && p.events != [] && p.events[0] == Write(r, params, now) && NothingAdded(p.events)
    ensures |t.relayers| == |s.relayers| && q < |t.relayers| && q != r && !t.relayers[r].Free?
    ensures var k := GetKey(s.relayers[r].bundle[s.relayers[r].i]);
            k in Held(t.relayers[q]) && k in Keys(t.relayers[r].bundle)
  {
    var s1, e := OnePutBack(s, r, params, now);
    hide Inv, Enabled, Next, Keys, Bundled;
    var first := OneStep(s, Write(r, params, now));
    var rest := NewIsBundled(s1, e, now);
    t, q := Launched(s1, e, now), FirstFree(s1.relayers);
    BundledKey(e, now);
    p := PathsJoin(s, first, s1, rest, t);
  }

  /** From the start a stored new operation is bundled, with slots to spare for the other relayers. */
  lemma FirstBundle(s: System, e: Entry, now: int) returns (p: Path, t: System)
    requires Initial(s) && s.relayers != [] && StoredAsNew(s.store, e)
    ensures Leads(s, p, t) && NothingAdded(p.events) && Inv(t)
    ensures t.bundler.Ready? && t.bundler.slots == |s.relayers| - 1
    ensures t.testing == s.testing && |t.relayers| == |s.relayers|
    ensures t.relayers[0] == Locked([Bundled(e, now)])
    ensures GetKey(e) in t.store.entries && t.store.entries[GetKey(e)] == Bundled(e, now)
  {
    AllFree(s.relayers);
    FirstIsFree(s.relayers);
    var s1 := Next(s, StartBundling);
    var start := OneStep(s, StartBundling);
    var rest := NewIsBundled(s1, e, now);
    t := Launched(s1, e, now);
    BundledKey(e, now);
    p := PathsJoin(s, start, s1, rest, t);
    PathKeepsInv(s, p, t);
  }

  lemma {:induction false} FirstIsFree(relayers: seq<Relayer>)
    requires relayers != [] && relayers[0].Free?
    ensures FirstFree(relayers) == 0
  {
  }

  lemma PathKeepsInv(s: System, p: Path, t: System)
    requires Initial(s) && Leads(s, p, t) && NothingAdded(p.events)
    ensures Inv(t)
  {
    assert NothingReplaced(p.states, p.events);
    RunKeepsInv(p.states, p.events, |p.events|);
  }

  /** So the hypothesis of the safety theorem fails in runs from the start: whenever a bundled operation
      may be replaced, some run puts it into two bundles. */
  lemma ReplacementMakesTwoFromTheStart(s: System, e: Entry, now: int, m: Mempools.Event)
    returns (p: Path, t: System, q: nat)
    requires Initial(s) && |s.relayers| >= 2 && StoredAsNew(s.store, e)
    requires m.Add? && m.entry.status == New && GetKey(m.entry) == GetKey(e)
    requires CanReplaceWithTTL(m.entry, Bundled(e, now), m.ttl)
    ensures Leads(s, p, t) && 0 < q < |t.relayers|
    ensures GetKey(e) in Held(t.relayers[0]) && GetKey(e) in Held(t.relayers[q])
  {
    var first, u := FirstBundle(s, e, now);
    BundledKey(e, now);
    var rest;
    rest, t, q := ReplacementMakesTwo(u, m, 0);
    p := PathsJoin(s, first, u, rest, t);
  }

  /** And outside testing mode some run from the start has an operation launched on a second relayer
      while the first still works on the bundle that failed, without any replacement. */
  lemma PutBackIsTakenFromTheStart(s: System, e: Entry, params: Params, now: int) returns (p: Path, t: System, q: nat)
    requires Initial(s) && |s.relayers| >= 2 && StoredAsNew(s.store, e) && !s.testing
    ensures Leads(s, p, t) && NothingReplaced(p.states, p.events) && 0 < q < |t.relayers| && !t.relayers[0].Free?
    ensures GetKey(e) in Held(t.relayers[q]) && GetKey(e) in Keys(t.relayers[0].bundle)
  {
    hide NotNew, Disjoint, DistinctKeys, Bundled, Keys;
    var first, u := FirstBundle(s, e, now);
    var v := Next(u, SubmissionEnds(0, false));
    var fails := OneStep(u, SubmissionEnds(0, false));
    StepKeepsInv(u, SubmissionEnds(0, false));
    BundledKey(e, now);
    var rest;
    rest, t, q := PutBackIsTakenAtOnce(v, 0, params, now);
    p := PathsJoin(s, first, u, fails, v);
    p := PathsJoin(s, p, v, rest, t);
    assert NothingAdded(p.events);
  }

  // ----- The life cycle, step by step -----

  /** A relayer's write stores the entry it has come to, cancelled, submitted, reverted or new again, and no other. */
  lemma WriteStores(s: System, r: nat, params: Params, now: int)
    requires Enabled(s, Write(r, params, now))
    ensures var p, t := s.relayers[r], Next(s, Write(r, params, now));
            && (p.Cancelling? || p.MarkingSubmitted? || p.Reverting? || p.PuttingBack?)
            && p.i < |p.bundle|
            && var k := GetKey(p.bundle[p.i]);
               var status := if p.Cancelling? then Cancelled else if p.MarkingSubmitted? then Submitted
                   else if p.Reverting? then Reverted else New;
               && t.store == s.store.(entries := s.store.entries[k := WithStatus(p.bundle[p.i], status, params, now)])
               && t.bundler == s.bundler && t.testing == s.testing
  {
    hide GetKey, WithStatus;
  }

  /** Then it goes on to the next entry. After the last one, a cancelled or reverted bundle frees its relayer, a
      submitted one is waited for unless testing, and one that was put back is looked at for an operation to
      blame. */
  lemma WriteMovesOn(s: System, r: nat, params: Params, now: int)
    requires Enabled(s, Write(r, params, now))
    ensures var p, t := s.relayers[r], Next(s, Write(r, params, now));
            && |t.relayers| == |s.relayers|
            && (forall q :: 0 <= q < |s.relayers| && q != r ==> t.relayers[q] == s.relayers[q])
            && var p' := t.relayers[r];
               var entry := WithStatus(p.bundle[p.i], if p.Cancelling? then Cancelled else if p.MarkingSubmitted?
                   then Submitted else if p.Reverting? then Reverted else New, params, now);
               if p.i + 1 < |p.bundle| then
                 && p'.Cancelling? == p.Cancelling? && p'.MarkingSubmitted? == p.MarkingSubmitted?
                 && p'.Reverting? == p.Reverting? && p'.PuttingBack? == p.PuttingBack?
                 && !p'.Free? && p'.bundle == p.bundle[p.i := entry]
                 && (p'.Cancelling? || p'.MarkingSubmitted? || p'.Reverting? || p'.PuttingBack?) && p'.i == p.i + 1
               else if p.PuttingBack? then p' == Failing(p.bundle[p.i := entry])
               else if p.MarkingSubmitted? && !s.testing then p' == Waiting(p.bundle[p.i := entry], 0, [])
               else p' == Free
  {
    hide GetKey, WithStatus, Updated;
  }

  /** A write that throws stores nothing. Before a submission nobody handles it; after one the bundle is put back,
      unless testing, and a put-back that throws is given up. */
  lemma FailedWriteMovesOn(s: System, r: nat, params: Params, now: int)
    requires Enabled(s, WriteFails(r, params, now))
    ensures var p, t := s.relayers[r], Next(s, WriteFails(r, params, now));
            && t.store == s.store && t.bundler == s.bundler && |t.relayers| == |s.relayers|
            && (forall q :: 0 <= q < |s.relayers| && q != r ==> t.relayers[q] == s.relayers[q])
            && var p' := t.relayers[r];
               if p.Reverting? || (p.MarkingSubmitted? && !s.testing) then
                 p'.PuttingBack? && p'.i == 0 && |p'.bundle| == |p.bundle|
                 && forall j :: 0 <= j < |p.bundle| ==> GetKey(p'.bundle[j]) == GetKey(p.bundle[j])
               else if p.MarkingSubmitted? then
                 p'.Failing? && |p'.bundle| == |p.bundle|
                 && forall j :: 0 <= j < |p.bundle| ==> GetKey(p'.bundle[j]) == GetKey(p.bundle[j])
               else p' == Free
  {
    hide GetKey, WithStatus;
  }

  /** What a submission, a validation or an exception makes of a locked relayer. */
  lemma LockedMovesOn(s: System, e: BundlingSystems.Event)
    requires Enabled(s, e) && (e.Validated? || e.SubmissionEnds? || e.Abort?)
    ensures s.relayers[e.r].Locked?
    ensures var b, t := s.relayers[e.r].bundle, Next(s, e);
            && t == s.(relayers := s.relayers[e.r := t.relayers[e.r]])
            && t.relayers[e.r] == if e.Abort? then Free
                   else if e.Validated? then if e.ok then Locked(b) else Cancelling(b, 0)
                   else if e.ok then MarkingSubmitted(b, 0) else if s.testing then Failing(b) else PuttingBack(b, 0)
    ensures e.Validated? ==> !s.testing
  {
  }

  /** Blaming frees the relayer and reverts the operation named, if one is. */
  lemma FailMovesOn(s: System, r: nat, index: Option<nat>, params: Params, now: int)
    requires Enabled(s, Fail(r, index, params, now))
    ensures s.relayers[r].Failing?
    ensures var b, t := s.relayers[r].bundle, Next(s, Fail(r, index, params, now));
            && t.relayers == s.relayers[r := Free] && t.bundler == s.bundler
            && if index.None? then t.store == s.store
               else index.value < |b| && t.store == s.store.(entries :=
                      s.store.entries[GetKey(b[index.value]) := WithStatus(b[index.value], Reverted, params, now)])
  {
  }

  /** The bundler writes its bundle twice: each entry as pending, and then each with one more attempt. */
  lemma MarkMovesOn(s: System, now: int)
    requires Enabled(s, Mark(now))
    ensures var b, t := s.bundler, Next(s, Mark(now));
            && (b.MarkingPending? || b.Attempting?) && b.i < |b.bundle|
            && var e := b.bundle[b.i];
               var marked := if b.MarkingPending? then WithStatus(e, Pending, Params(None, None), now)
                   else e.(submitAttempts := e.submitAttempts + 1, lastUpdatedTime := now);
               && t.store == s.store.(entries := s.store.entries[GetKey(e) := marked]) && t.relayers == s.relayers
               && t.bundler == if b.Attempting? then Attempting(b.slots, b.bundle[b.i := marked], b.i + 1)
                      else if b.i + 1 == |b.bundle| then Attempting(b.slots, b.bundle[b.i := marked], 0)
                      else MarkingPending(b.slots, b.bundle[b.i := marked], b.i + 1)
  {
    hide GetKey, WithStatus;
  }

  /** Bundling starts with as many slots as relayers are free, takes one for each choice of candidates, and hands
      a finished bundle to the first free relayer. */
  lemma BundlerMovesOn(s: System, e: BundlingSystems.Event)
    requires Enabled(s, e)
    ensures var t := Next(s, e);
            && (e.StartBundling? ==> t == s.(bundler := Ready(FreeCount(s.relayers))))
            && (e.Fetch? ==> t == s.(bundler := Choosing(s.bundler.slots - 1, e.candidates)))
            && (e.Choose? ==> t == s.(bundler := MarkingPending(s.bundler.slots, e.chosen, 0)))
            && (e.MarkFails? || e.EndBundling? ==> t == s.(bundler := Idle))
            && (e.Launch? ==>
                  && t.store == s.store && t.bundler == Ready(s.bundler.slots) && |t.relayers| == |s.relayers|
                  && forall q :: 0 <= q < |s.relayers| ==>
                      t.relayers[q] == if s.relayers[q].Free? && (forall p :: 0 <= p < q ==> !s.relayers[p].Free?)
                                       then Locked(s.bundler.bundle) else s.relayers[q])
  {
    hide Updated, MarkedEntry, AfterMark;
  }

  lemma {:induction false} FreeCountCounts(relayers: seq<Relayer>, p: Relayer)
    ensures FreeCount(relayers + [p]) == FreeCount(relayers) + if p == Free then 1 else 0
    ensures FreeCount([]) == 0
  {
    assert (relayers + [p])[..|relayers|] == relayers;
  }

  /** When each step can happen. */
  lemma BundlerCanExactlyWhen(s: System, now: int)
    ensures Enabled(s, StartBundling) <==> s.bundler == Idle
    ensures Enabled(s, MarkFails) <==> Enabled(s, Mark(now))
    ensures Enabled(s, Mark(now))
            <==> (s.bundler.MarkingPending? || s.bundler.Attempting?) && s.bundler.i < |s.bundler.bundle|
    ensures Enabled(s, Launch) <==> s.bundler.Attempting? && s.bundler.i == |s.bundler.bundle|
    ensures Enabled(s, EndBundling) <==> s.bundler.Ready? || s.bundler.Choosing?
  {
  }

  lemma RelayerCanExactlyWhen(s: System, r: nat, params: Params, now: int, flag: bool, n: nat)
    requires r < |s.relayers|
    ensures var p := s.relayers[r];
            && (Enabled(s, Validated(r, flag)) <==> p.Locked? && !s.testing)
            && (Enabled(s, SubmissionEnds(r, flag)) <==> p.Locked?)
            && (Enabled(s, Abort(r)) <==> p.Locked?)
            && (Enabled(s, Tick(r)) <==> p.Waiting?)
            && (Enabled(s, Look(r, n, flag)) <==> p.Waiting? && n < |p.scans|)
            && (Enabled(s, Fail(r, None, params, now)) <==> p.Failing?)
            && (Enabled(s, Fail(r, Some(n), params, now)) <==> p.Failing? && n < |p.bundle|)
  {
    hide StoredAsNew, DistinctKeys, Keys;
  }

  lemma RelayerCanWriteExactlyWhen(s: System, r: nat, params: Params, now: int)
    requires r < |s.relayers|
    ensures var p := s.relayers[r];
            var writing := p.Cancelling? || p.MarkingSubmitted? || p.Reverting? || p.PuttingBack?;
            && (Enabled(s, Write(r, params, now)) <==> writing && p.i < |p.bundle|)
            && (Enabled(s, WriteFails(r, params, now)) <==> writing && p.i < |p.bundle|)
  {
    hide StoredAsNew, DistinctKeys, Keys;
  }

  // ----- What the phases come to when nobody interferes -----

  /** The entries as the first `n` writes of a relayer leave them. */
  function Rewritten(p: Relayer, n: nat, params: Params, now: int): (r: seq<Entry>)
    requires Writes(p) && n <= |p.bundle|
    ensures |r| == n && forall k :: 0 <= k < n ==> r[k] == WithStatus(p.bundle[k], StatusWritten(p), params, now)
  {
    if n == 0 then []
    else Rewritten(p, n - 1, params, now) + [WithStatus(p.bundle[n - 1], StatusWritten(p), params, now)]
  }

  /** Cancelled and reverted bundles free their relayer, submitted ones are waited for, and those put
      back are looked at for an operation to blame. */
  function PhaseAfter(p: Relayer, written: seq<Entry>, testing: bool): Relayer
    requires Writes(p)
  {
    if p.MarkingSubmitted? then if testing then Free else Waiting(written, 0, [])
    else if p.PuttingBack? then Failing(written)
    else Free
  }

  /** A relayer after `n` of the writes of its phase. */
  function WrittenRelayer(p: Relayer, n: nat, params: Params, now: int, testing: bool): Relayer
    requires Writes(p) && n <= |p.bundle|
  {
    var written := Rewritten(p, n, params, now);
    if n == |p.bundle| then PhaseAfter(p, written, testing) else p.(bundle := written + p.bundle[n..], i := n)
  }

  /** The system when a relayer that found the system in state `s` has written `n` entries. */
  function Written(s: System, r: nat, n: nat, params: Params, now: int): System
    requires r < |s.relayers| && Writes(s.relayers[r]) && n <= |s.relayers[r].bundle|
  {
    s.(store := UpdatedAll(s.store, Rewritten(s.relayers[r], n, params, now)),
       relayers := s.relayers[r := WrittenRelayer(s.relayers[r], n, params, now, s.testing)])
  }

  lemma RelayerWritesOnce(p: Relayer, n: nat, params: Params, now: int, testing: bool)
    requires Writes(p) && n < |p.bundle|
    ensures var q, e := WrittenRelayer(p, n, params, now, testing),
            WithStatus(p.bundle[n], StatusWritten(p), params, now);
            && Writes(q) && q.i == n < |q.bundle| && WrittenEntry(q, params, now) == e
            && Rewritten(p, n + 1, params, now) == Rewritten(p, n, params, now) + [e]
            && AfterWrite(q, e, testing) == WrittenRelayer(p, n + 1, params, now, testing)
  {
    hide WithStatus;
    var before, after, b := Rewritten(p, n, params, now), Rewritten(p, n + 1, params, now), p.bundle;
    assert (before + b[n..])[n := after[n]] == after + b[n + 1..];
    if n + 1 == |b| {
      assert after + b[n + 1..] == after;
    }
  }

  lemma WriteOnce(s: System, r: nat, n: nat, params: Params, now: int)
    requires r < |s.relayers| && Writes(s.relayers[r]) && n < |s.relayers[r].bundle|
    ensures var t := Written(s, r, n, params, now);
            Enabled(t, Write(r, params, now)) && Next(t, Write(r, params, now)) == Written(s, r, n + 1, params, now)
  {
    hide WithStatus, AfterWrite, WrittenEntry, Rewritten, WrittenRelayer, Updated;
    var p := s.relayers[r];
    RelayerWritesOnce(p, n, params, now, s.testing);
    var before, e := Rewritten(p, n, params, now), WithStatus(p.bundle[n], StatusWritten(p), params, now);
    assert (before + [e])[..|before|] == before;
    var q, q' := WrittenRelayer(p, n, params, now, s.testing), WrittenRelayer(p, n + 1, params, now, s.testing);
    assert s.relayers[r := q][r := q'] == s.relayers[r := q'];
  }

  /** A relayer's writing phase, left alone, stores its whole bundle with the phase's status, as one
      call of `updateStatus` does, and ends in the phase that follows. */
  lemma {:induction false} WritesUpdateStatus(s: System, r: nat, n: nat, params: Params, now: int) returns (p: Path)
    requires r < |s.relayers| && Writes(s.relayers[r]) && s.relayers[r].i == 0 && n <= |s.relayers[r].bundle| != 0
    ensures Leads(s, p, Written(s, r, n, params, now))
  {
    if n == 0 {
      p := NoStep(s);
      assert [] + s.relayers[r].bundle[0..] == s.relayers[r].bundle;
      assert s.relayers[r := s.relayers[r]] == s.relayers;
    } else {
      var q := WritesUpdateStatus(s, r, n - 1, params, now);
      WriteOnce(s, r, n - 1, params, now);
      var t := Written(s, r, n - 1, params, now);
      var step := OneStep(t, Write(r, params, now));
      p := PathsJoin(s, q, t, step, Written(s, r, n, params, now));
    }
  }

  // ----- Waiting -----

  predicate AllDone(store: Store, es: seq<Entry>) {
    forall e <- es :: Done(store, e)
  }

  function WithRelayer(s: System, r: nat, p: Relayer): System
    requires r < |s.relayers|
  {
    s.(relayers := s.relayers[r := p])
  }

  /** What a scan comes to: it frees the relayer if every entry from its position on is done, and is
      over otherwise. */
  function ScanOutcome(w: Relayer, store: Store, scan: nat): Relayer
    requires w.Waiting? && scan < |w.scans| && w.scans[scan] <= |w.bundle|
  {
    if AllDone(store, w.bundle[w.scans[scan]..]) then Free else w.(scans := w.scans[..scan] + w.scans[scan + 1..])
  }

  /** A scan whose lookups succeed, left alone, comes to its outcome, whatever other scans are going on. */
  lemma {:induction false} ScanEnds(s: System, r: nat, scan: nat) returns (p: Path)
    requires r < |s.relayers| && s.relayers[r].Waiting?
    requires scan < |s.relayers[r].scans| && s.relayers[r].scans[scan] <= |s.relayers[r].bundle|
    ensures Leads(s, p, WithRelayer(s, r, ScanOutcome(s.relayers[r], s.store, scan)))
    decreases |s.relayers[r].bundle| - s.relayers[r].scans[scan]
  {
    var w := s.relayers[r];
    var i, t := w.scans[scan], Next(s, Look(r, scan, false));
    p := OneStep(s, Look(r, scan, false));
    if i == |w.bundle| {
      assert w.bundle[i..] == [];
    } else {
      assert w.bundle[i..] == [w.bundle[i]] + w.bundle[i + 1..];
      if Done(s.store, w.bundle[i]) {
        var w' := w.(scans := w.scans[scan := i + 1]);
        var rest := ScanEnds(t, r, scan);
        assert w'.scans[..scan] == w.scans[..scan] && w'.scans[scan + 1..] == w.scans[scan + 1..];
        var end := ScanOutcome(w, s.store, scan);
        assert ScanOutcome(w', s.store, scan) == end && t.relayers[r := end] == s.relayers[r := end];
        p := PathsJoin(s, p, t, rest, WithRelayer(s, r, end));
      } else {
        assert w.bundle[i] in w.bundle[i..];
      }
    }
  }

  /** What waiting comes to: the relayer is freed if every entry is done and retries are left, and goes
      on to revert its bundle otherwise. */
  function WaitOutcome(w: Relayer, store: Store): Relayer
    requires w.Waiting?
  {
    if w.retries < WAIT_FOR_TX_MAX_RETRIES && AllDone(store, w.bundle) then Free else Reverting(w.bundle, 0)
  }

  /** Waiting, with each scan done before the next tick and nobody interfering, comes to its outcome. */
  lemma {:induction false} WaitEnds(s: System, r: nat) returns (p: Path)
    requires r < |s.relayers| && s.relayers[r].Waiting? && s.relayers[r].scans == []
    ensures Leads(s, p, WithRelayer(s, r, WaitOutcome(s.relayers[r], s.store)))
    decreases WAIT_FOR_TX_MAX_RETRIES - s.relayers[r].retries
  {
    var w := s.relayers[r];
    var t := Next(s, Tick(r));
    p := OneStep(s, Tick(r));
    if w.retries >= WAIT_FOR_TX_MAX_RETRIES {
    } else {
      var scan := ScanEnds(t, r, 0);
      assert w.bundle[0..] == w.bundle && [] + [0] == [0];
      var scanned := ScanOutcome(t.relayers[r], s.store, 0);
      assert t.relayers[r := scanned] == s.relayers[r := scanned];
      var u := WithRelayer(s, r, scanned);
      p := PathsJoin(s, p, t, scan, u);
      if scanned.Waiting? {
        assert scanned.scans == [];
        var rest := WaitEnds(u, r);
        assert u.relayers[r := Reverting(w.bundle, 0)] == s.relayers[r := Reverting(w.bundle, 0)];
        p := PathsJoin(s, p, u, rest, WithRelayer(s, r, Reverting(w.bundle, 0)));
      }
    }
  }

  // ----- What ends a wait -----

  /** Statuses before "on chain". */
  predicate NotOnChainYet(status: Status) {
    status == New || status == Pending || status == Submitted
  }

  /** A lookup that finds its entry stored and not yet on chain ends its scan and leaves the relayer waiting;
      one that fails, finds nothing, or finds an entry that is on chain, finalized, cancelled or reverted moves
      the scan on; and past the last entry the scan frees the relayer. */
  lemma LookDecides(s: System, r: nat, scan: nat, readFails: bool)
    requires Enabled(s, Look(r, scan, readFails))
    ensures var w, t := s.relayers[r], Next(s, Look(r, scan, readFails));
            var i := w.scans[scan];
            && t == s.(relayers := s.relayers[r := t.relayers[r]])
            && (if i >= |w.bundle| then t.relayers[r] == Free
                else if && !readFails && GetKey(w.bundle[i]) in s.store.entries
                        && NotOnChainYet(s.store.entries[GetKey(w.bundle[i])].status) then
                  t.relayers[r] == Waiting(w.bundle, w.retries, w.scans[..scan] + w.scans[scan + 1..])
                else t.relayers[r] == Waiting(w.bundle, w.retries, w.scans[scan := i + 1]))
  {
    hide GetKey;
  }

  /** A tick starts a scan, three times; the fourth gives the bundle up. */
  lemma TickDecides(s: System, r: nat)
    requires Enabled(s, Tick(r))
    ensures var w, t := s.relayers[r], Next(s, Tick(r));
            && t == s.(relayers := s.relayers[r := t.relayers[r]])
            && t.relayers[r] == if w.retries >= 3 then Reverting(w.bundle, 0)
                                else Waiting(w.bundle, w.retries + 1, w.scans + [0])
  {
  }

  /** A relayer stops waiting only when a scan gets past the last entry, or when it gives up. */
  lemma WaitEndsByScanOrTick(s: System, e: BundlingSystems.Event, r: nat)
    requires Enabled(s, e) && r < |s.relayers| && s.relayers[r].Waiting?
    ensures |Next(s, e).relayers| == |s.relayers|
    ensures Next(s, e).relayers[r] != s.relayers[r] ==> (e.Tick? || e.Look?) && e.r == r
    ensures Next(s, e).relayers[r].Free? ==>
              e.Look? && e.r == r && s.relayers[r].scans[e.scan] >= |s.relayers[r].bundle|
    ensures Next(s, e).relayers[r].Waiting? ==> Next(s, e).relayers[r].bundle == s.relayers[r].bundle
  {
    hide GetKey, Updated, Done;
  }

  /** A lookup that moves a scan on: it fails, or finds its entry gone or no longer on its way. */
  ghost predicate Passes(s: System, e: BundlingSystems.Event, r: nat, j: nat) {
    && e.Look? && e.r == r < |s.relayers| && s.relayers[r].Waiting? && j < |s.relayers[r].bundle|
    && e.scan < |s.relayers[r].scans| && s.relayers[r].scans[e.scan] == j
    && (var k := GetKey(s.relayers[r].bundle[j]);
        e.readFails || k !in s.store.entries || !NotOnChainYet(s.store.entries[k].status))
  }

  /** One step of one scan, which is at position `c` among the scans of relayer `r` before and at `c'` after. */
  ghost predicate ScanStep(s: System, e: BundlingSystems.Event, t: System, r: nat, c: nat, c': nat) {
    && r < |s.relayers| && s.relayers[r].Waiting? && r < |t.relayers| && t.relayers[r].Waiting?
    && c < |s.relayers[r].scans| && c' < |t.relayers[r].scans|
    && t.relayers[r].bundle == s.relayers[r].bundle
    && if e.Look? && e.r == r && e.scan == c then
         && Passes(s, e, r, s.relayers[r].scans[c])
         && c' == c && t.relayers[r].scans[c'] == s.relayers[r].scans[c] + 1
       else
         && c' == (if |t.relayers[r].scans| < |s.relayers[r].scans| && e.Look? && e.scan < c then c - 1 else c)
         && t.relayers[r].scans[c'] == s.relayers[r].scans[c]
  }

  /** The life of one scan, from its first position in the state `first` on; `at` are its places among the scans
      going on. */
  ghost predicate ScanLife(states: seq<System>, events: seq<BundlingSystems.Event>, first: nat, r: nat, at: seq<nat>) {
    && at != [] && |states| == |events| + 1 && first + |at| <= |states|
    && r < |states[first].relayers| && states[first].relayers[r].Waiting?
    && at[0] < |states[first].relayers[r].scans| && states[first].relayers[r].scans[at[0]] == 0
    && forall i :: 0 <= i < |at| - 1 ==>
        ScanStep(states[first + i], events[first + i], states[first + i + 1], r, at[i], at[i + 1])
  }

  /** The scan has looked up entry `j`, and moved on. */
  ghost predicate LooksUp(states: seq<System>, events: seq<BundlingSystems.Event>, first: nat, r: nat, at: seq<nat>,
                          j: nat)
    requires first + |at| <= |states| == |events| + 1
  {
    exists i {:trigger at[i]} ::
      0 <= i < |at| - 1 && events[first + i].Look? && events[first + i].scan == at[i]
      && Passes(states[first + i], events[first + i], r, j)
  }

  lemma LifeGoesOn(states: seq<System>, events: seq<BundlingSystems.Event>, first: nat, r: nat, at: seq<nat>)
    requires ScanLife(states, events, first, r, at)
    ensures r < |states[first + |at| - 1].relayers| && states[first + |at| - 1].relayers[r].Waiting?
    ensures at[|at| - 1] < |states[first + |at| - 1].relayers[r].scans|
  {
    if |at| > 1 {
      var n := |at| - 2;
      assert ScanStep(states[first + n], events[first + n], states[first + n + 1], r, at[n], at[n + 1]);
    }
  }

  ghost predicate WaitsUntil(states: seq<System>, n: nat, r: nat) {
    && n < |states|
    && (forall i :: 0 <= i <= n ==> r < |states[i].relayers| && states[i].relayers[r].Waiting?)
    && states[0].relayers[r].scans == []
  }

  /** Where a scan came from in one step: it is new, or it was there before. */
  lemma ScanBefore(s: System, e: BundlingSystems.Event, r: nat, c: nat) returns (old_: nat)
    requires Enabled(s, e) && r < |s.relayers| && s.relayers[r].Waiting?
    requires r < |Next(s, e).relayers| && Next(s, e).relayers[r].Waiting? && c < |Next(s, e).relayers[r].scans|
    ensures if old_ < |s.relayers[r].scans| then ScanStep(s, e, Next(s, e), r, old_, c)
            else Next(s, e).relayers[r].scans[c] == 0
  {
    WaitEndsByScanOrTick(s, e, r);
    var w := s.relayers[r];
    old_ := c;
    if e.Tick? && e.r == r {
      TickDecides(s, r);
    } else if e.Look? && e.r == r {
      LookDecides(s, r, e.scan, e.readFails);
      if |Next(s, e).relayers[r].scans| < |w.scans| && c >= e.scan {
        old_ := c + 1;
      }
    }
    hide Next, GetKey;
  }

  lemma {:induction false} ScanHasLife(states: seq<System>, events: seq<BundlingSystems.Event>, n: nat, r: nat, c: nat)
    returns (first: nat, at: seq<nat>)
    requires IsRun(states, events) && WaitsUntil(states, n, r) && c < |states[n].relayers[r].scans|
    ensures ScanLife(states, events, first, r, at) && first + |at| == n + 1 && at[|at| - 1] == c
    decreases n
  {
    hide Next, Enabled, ScanStep;
    var s, e := states[n - 1], events[n - 1];
    assert Enabled(s, e) && states[n] == Next(s, e);
    var old_ := ScanBefore(s, e, r, c);
    if old_ < |s.relayers[r].scans| {
      first, at := ScanHasLife(states, events, n - 1, r, old_);
      at := at + [c];
    } else {
      first, at := n, [c];
    }
  }

  lemma {:induction false} LifePasses(states: seq<System>, events: seq<BundlingSystems.Event>, first: nat, r: nat,
                                      at: seq<nat>, w: Relayer, j: nat)
    requires ScanLife(states, events, first, r, at)
    requires r < |states[first + |at| - 1].relayers| && w == states[first + |at| - 1].relayers[r] && w.Waiting?
    requires at[|at| - 1] < |w.scans| && j < w.scans[at[|at| - 1]]
    ensures LooksUp(states, events, first, r, at, j)
    decreases |at|
  {
    hide Passes;
    if |at| > 1 {
      var n := |at| - 2;
      assert ScanStep(states[first + n], events[first + n], states[first + n + 1], r, at[n], at[n + 1]);
      var v, init := states[first + n].relayers[r], at[..n + 1];
      if j < v.scans[at[n]] {
        LifePasses(states, events, first, r, init, v, j);
        var i :| 0 <= i < |init| - 1 && events[first + i].Look? && events[first + i].scan == init[i]
                 && Passes(states[first + i], events[first + i], r, j);
        assert at[i] == init[i];
      } else {
        assert at[n] == events[first + n].scan && Passes(states[first + n], events[first + n], r, j);
      }
    }
  }

  /** In every run: when a relayer that waited becomes free, one scan has lived until then and looked up every
      entry of the bundle, and each of these lookups failed, or found no entry, or one that was on chain,
      finalized, cancelled or reverted. */
  lemma FreedOnlyByFullScan(states: seq<System>, events: seq<BundlingSystems.Event>, n: nat, r: nat)
    returns (first: nat, at: seq<nat>)
    requires IsRun(states, events) && n < |events| && WaitsUntil(states, n, r)
    requires r < |states[n + 1].relayers| && states[n + 1].relayers[r].Free?
    ensures ScanLife(states, events, first, r, at) && first + |at| == n + 1
    ensures forall j: nat :: j < |states[n].relayers[r].bundle| ==> LooksUp(states, events, first, r, at, j)
  {
    assert Enabled(states[n], events[n]) && states[n + 1] == Next(states[n], events[n]);
    WaitEndsByScanOrTick(states[n], events[n], r);
    hide Next, Enabled, Passes, LooksUp;
    var w := states[n].relayers[r];
    first, at := ScanHasLife(states, events, n, r, events[n].scan);
    LifeGoesOn(states, events, first, r, at);
    hide ScanLife, IsRun;
    forall j: nat | j < |w.bundle| ensures LooksUp(states, events, first, r, at, j) {
      LifePasses(states, events, first, r, at, w, j);
    }
  }
}
