/** The interplay of the bundler, the relayers and the mempool: `sendNextBundle` of
    packages/executor/src/services/BundlingService/service.ts and `sendBundle`, `waitForEntries` and
    `handleUserOpFail` of its relayers/classic.ts and relayers/base.ts. Each write to the mempool and
    each lookup in it is one atomic step, which may fail, and steps of different actors interleave
    freely. */
module BundlingSystems {
  import opened Wrappers
  import opened MempoolEntries
  import opened Mempools
  import Bundles
  import Sorting

  const WAIT_FOR_TX_MAX_RETRIES := 3

  /** Where a relayer is in its life cycle, and the bundle it holds. In the phases that write a list
      of entries, the first `i` have been written. While it waits, every tick of the timer starts a scan
      of the bundle, and scans may overlap: `scans` are their positions. */
  datatype Relayer =
    | Free
    | Locked(bundle: seq<Entry>)
    | Cancelling(bundle: seq<Entry>, i: nat)
    | MarkingSubmitted(bundle: seq<Entry>, i: nat)
    | Waiting(bundle: seq<Entry>, retries: nat, scans: seq<nat>)
    | Reverting(bundle: seq<Entry>, i: nat)
    | PuttingBack(bundle: seq<Entry>, i: nat)
    | Failing(bundle: seq<Entry>)

  /** Where the bundling loop is; `slots` is how many more bundles it means to make. */
  datatype Bundler =
    | Idle
    | Ready(slots: nat)
    | Choosing(slots: nat, candidates: seq<Entry>)
    | MarkingPending(slots: nat, bundle: seq<Entry>, i: nat)
    | Attempting(slots: nat, bundle: seq<Entry>, i: nat)

  datatype System = System(store: Store, bundler: Bundler, relayers: seq<Relayer>, testing: bool)

  datatype Event =
    | Mempool(m: Mempools.Event)
    | StartBundling
    | Fetch(candidates: seq<Entry>)
    | Choose(chosen: seq<Entry>)
    | Mark(now: int)
    | MarkFails
    | Launch
    | EndBundling
    | Validated(r: nat, ok: bool)
    | SubmissionEnds(r: nat, ok: bool)
    | Write(r: nat, params: Params, now: int)
    | WriteFails(r: nat, params: Params, now: int)
    | Tick(r: nat)
    | Look(r: nat, scan: nat, readFails: bool)
    | Fail(r: nat, index: Option<nat>, params: Params, now: int)
    | Abort(r: nat)

  function FreeCount(relayers: seq<Relayer>): nat {
    if relayers == [] then 0
    else FreeCount(relayers[..|relayers| - 1]) + if relayers[|relayers| - 1].Free? then 1 else 0
  }

  /** `getAvailableRelayerIndex`: the first relayer that is not locked. */
  function FirstFree(relayers: seq<Relayer>): (r: nat)
    ensures r <= |relayers|
    ensures r < |relayers| ==> relayers[r].Free?
    ensures forall j :: 0 <= j < r ==> !relayers[j].Free?
  {
    if relayers == [] then 0
    else
      var r := FirstFree(relayers[..|relayers| - 1]);
      if r < |relayers| - 1 || relayers[|relayers| - 1].Free? then r else |relayers|
  }

  // ----- Operations in flight -----

  ghost function Keys(es: seq<Entry>): set<string> {
    set e <- es :: GetKey(e)
  }

  /** The keys of the operations a relayer is still responsible for: those it puts back into the
      mempool leave it one by one. */
  ghost function Held(p: Relayer): set<string> {
    match p
    case Free => {}
    case Locked(b) => Keys(b)
    case Cancelling(b, _) => Keys(b)
    case MarkingSubmitted(b, _) => Keys(b)
    case Waiting(b, _, _) => Keys(b)
    case Reverting(b, _) => Keys(b)
    case PuttingBack(b, i) => if i <= |b| then Keys(b[i..]) else {}
    case Failing(_) => {}
  }

  /** The keys the bundler has already marked as pending. */
  ghost function Marked(b: Bundler): set<string> {
    match b
    case MarkingPending(_, bundle, i) => if i <= |bundle| then Keys(bundle[..i]) else {}
    case Attempting(_, bundle, _) => Keys(bundle)
    case _ => {}
  }

  /** The keys the bundler is working with, marked or not. */
  ghost function Claimed(b: Bundler): set<string> {
    match b
    case Choosing(_, candidates) => Keys(candidates)
    case MarkingPending(_, bundle, _) => Keys(bundle)
    case Attempting(_, bundle, _) => Keys(bundle)
    case _ => {}
  }

  ghost predicate InFlight(s: System, k: string) {
    k in Marked(s.bundler) || exists r :: 0 <= r < |s.relayers| && k in Held(s.relayers[r])
  }

  // ----- Steps -----

  ghost predicate StoredAsNew(s: Store, e: Entry) {
    GetKey(e) in s.entries && s.entries[GetKey(e)] == e && e.status == New
  }

  predicate CanMark(b: Bundler) {
    (b.MarkingPending? || b.Attempting?) && b.i < |b.bundle|
  }

  predicate Writes(p: Relayer) {
    p.Cancelling? || p.MarkingSubmitted? || p.Reverting? || p.PuttingBack?
  }

  predicate CanWrite(p: Relayer) {
    Writes(p) && p.i < |p.bundle|
  }

  /** Which steps can happen. Entries other actors write to the mempool are never `New`: they cancel
      candidates, or follow what happens on chain; all of them may be stale. */
  ghost predicate Enabled(s: System, e: Event) {
    match e
    case Mempool(Add(entry, _, _, _)) => entry.status == New
    case Mempool(Update(entry)) => entry.status != New
    case Mempool(_) => true
    case StartBundling => s.bundler.Idle?
    case Fetch(candidates) =>
      && s.bundler.Ready? && s.bundler.slots > 0
      && candidates != [] && DistinctKeys(candidates) && forall c <- candidates :: StoredAsNew(s.store, c)
    case Choose(chosen) =>
      && s.bundler.Choosing? && chosen != [] && DistinctKeys(chosen)
      && forall c <- chosen :: GetKey(c) in Keys(s.bundler.candidates)
    case Mark(_) => CanMark(s.bundler)
    case MarkFails => CanMark(s.bundler)
    case Launch => s.bundler.Attempting? && s.bundler.i == |s.bundler.bundle|
    case EndBundling => s.bundler.Ready? || s.bundler.Choosing?
    case Validated(r, _) => !s.testing && r < |s.relayers| && s.relayers[r].Locked?
    case SubmissionEnds(r, _) => r < |s.relayers| && s.relayers[r].Locked?
    case Write(r, _, _) => r < |s.relayers| && CanWrite(s.relayers[r])
    case WriteFails(r, _, _) => r < |s.relayers| && CanWrite(s.relayers[r])
    case Tick(r) => r < |s.relayers| && s.relayers[r].Waiting?
    case Look(r, scan, _) => r < |s.relayers| && s.relayers[r].Waiting? && scan < |s.relayers[r].scans|
    case Fail(r, index, _, _) =>
      && r < |s.relayers| && s.relayers[r].Failing?
      && (index.Some? ==> index.value < |s.relayers[r].bundle|)
    case Abort(r) => r < |s.relayers| && s.relayers[r].Locked?
  }

  /** What the bundler writes next: the status first, then the attempt. */
  function MarkedEntry(b: Bundler, now: int): (e: Entry)
    requires CanMark(b)
    ensures GetKey(e) == GetKey(b.bundle[b.i])
  {
    var e := b.bundle[b.i];
    if b.MarkingPending? then WithStatus(e, Pending, Params(None, None), now)
    else e.(submitAttempts := e.submitAttempts + 1, lastUpdatedTime := now)
  }

  /** The bundler after a mark, with the entry object in the bundle changed too. */
  function AfterMark(b: Bundler, now: int): Bundler
    requires CanMark(b)
  {
    var marked := b.bundle[b.i := MarkedEntry(b, now)];
    if b.Attempting? || b.i + 1 < |b.bundle| then b.(bundle := marked, i := b.i + 1) else Attempting(b.slots, marked, 0)
  }

  /** The status a relayer writes in each of its writing phases. */
  function StatusWritten(p: Relayer): Status
    requires Writes(p)
  {
    match p
    case Cancelling(_, _) => Cancelled
    case MarkingSubmitted(_, _) => Submitted
    case Reverting(_, _) => Reverted
    case PuttingBack(_, _) => New
  }

  function WrittenEntry(p: Relayer, params: Params, now: int): (e: Entry)
    requires CanWrite(p)
    ensures e.status == StatusWritten(p) && GetKey(e) == GetKey(p.bundle[p.i])
  {
    WithStatus(p.bundle[p.i], StatusWritten(p), params, now)
  }

  /** The phase after a relayer's write: the next entry, or what follows the last one. A relayer in
      testing mode does not wait. */
  function AfterWrite(p: Relayer, e: Entry, testing: bool): Relayer
    requires CanWrite(p)
  {
    var written := p.bundle[p.i := e];
    if p.i + 1 < |p.bundle| then p.(bundle := written, i := p.i + 1)
    else match p
      case Cancelling(_, _) => Free
      case MarkingSubmitted(_, _) => if testing then Free else Waiting(written, 0, [])
      case Reverting(_, _) => Free
      case PuttingBack(_, _) => Failing(written)
  }

  /** What follows a failed submission: outside testing mode the operations are put back first. */
  function AfterFailure(bundle: seq<Entry>, testing: bool): Relayer {
    if testing then Failing(bundle) else PuttingBack(bundle, 0)
  }

  /** The phase after a write that throws, with the entry object changed all the same: what fails after
      a submission is put back, unless testing, and what fails elsewhere ends `sendBundle`. */
  function AfterFailedWrite(p: Relayer, e: Entry, testing: bool): Relayer
    requires CanWrite(p)
  {
    var changed := p.bundle[p.i := e];
    match p
    case Cancelling(_, _) => Free
    case MarkingSubmitted(_, _) => AfterFailure(changed, testing)
    case Reverting(_, _) => PuttingBack(changed, 0)
    case PuttingBack(_, _) => Free
  }

  /** A tick of the timer of `waitForEntries` starts a scan, or gives up. */
  function AfterTick(p: Relayer): Relayer
    requires p.Waiting?
  {
    if p.retries >= WAIT_FOR_TX_MAX_RETRIES then Reverting(p.bundle, 0)
    else p.(retries := p.retries + 1, scans := p.scans + [0])
  }

  /** `waitForEntries` is done with an entry once it is gone or on chain. */
  predicate Done(store: Store, e: Entry) {
    GetKey(e) in store.entries ==> store.entries[GetKey(e)].status.Rank() >= OnChain.Rank()
  }

  /** One lookup of one scan: the scan ends at the first entry that is not done, and frees the relayer
      when all were. A lookup that fails counts as finding nothing. */
  function AfterLook(p: Relayer, store: Store, scan: nat, readFails: bool): Relayer
    requires p.Waiting? && scan < |p.scans|
  {
    var i := p.scans[scan];
    if i >= |p.bundle| then Free
    else if readFails || Done(store, p.bundle[i]) then p.(scans := p.scans[scan := i + 1])
    else p.(scans := p.scans[..scan] + p.scans[scan + 1..])
  }

  function Next(s: System, e: Event): System
    requires Enabled(s, e)
  {
    match e
    case Mempool(m) => s.(store := Mempools.After(s.store, m))
    case StartBundling => s.(bundler := Ready(FreeCount(s.relayers)))
    case Fetch(candidates) => s.(bundler := Choosing(s.bundler.slots - 1, candidates))
    case Choose(chosen) => s.(bundler := MarkingPending(s.bundler.slots, chosen, 0))
    case Mark(now) => s.(store := Updated(s.store, MarkedEntry(s.bundler, now)), bundler := AfterMark(s.bundler, now))
    case MarkFails => s.(bundler := Idle)
    case Launch =>
      var r := FirstFree(s.relayers);
      if r == |s.relayers| then s.(bundler := Ready(s.bundler.slots))
      else s.(bundler := Ready(s.bundler.slots), relayers := s.relayers[r := Locked(s.bundler.bundle)])
    case EndBundling => s.(bundler := Idle)
    case Validated(r, ok) => if ok then s else s.(relayers := s.relayers[r := Cancelling(s.relayers[r].bundle, 0)])
    case SubmissionEnds(r, ok) =>
      var b := s.relayers[r].bundle;
      s.(relayers := s.relayers[r := if ok then MarkingSubmitted(b, 0) else AfterFailure(b, s.testing)])
    case Write(r, params, now) =>
      var e := WrittenEntry(s.relayers[r], params, now);
      s.(store := Updated(s.store, e), relayers := s.relayers[r := AfterWrite(s.relayers[r], e, s.testing)])
    case WriteFails(r, params, now) =>
      var e := WrittenEntry(s.relayers[r], params, now);
      s.(relayers := s.relayers[r := AfterFailedWrite(s.relayers[r], e, s.testing)])
    case Tick(r) => s.(relayers := s.relayers[r := AfterTick(s.relayers[r])])
    case Look(r, scan, readFails) => s.(relayers := s.relayers[r := AfterLook(s.relayers[r], s.store, scan, readFails)])
    case Fail(r, index, params, now) =>
      var freed := s.(relayers := s.relayers[r := Free]);
      if index.None? then freed
      else freed.(store := Updated(s.store, WithStatus(s.relayers[r].bundle[index.value], Reverted, params, now)))
    case Abort(r) => s.(relayers := s.relayers[r := Free])
  }

  // ----- The invariant -----

  ghost predicate BundleOk(b: seq<Entry>) {
    b != [] && DistinctKeys(b)
  }

  ghost predicate RelayerOk(p: Relayer) {
    && (!p.Free? ==> BundleOk(p.bundle))
    && (Writes(p) ==> p.i < |p.bundle|)
  }

  ghost predicate BundlerOk(b: Bundler) {
    && (b.MarkingPending? || b.Attempting? ==> BundleOk(b.bundle))
    && (b.MarkingPending? ==> b.i < |b.bundle| && forall j :: 0 <= j < b.i ==> b.bundle[j].status == Pending)
    && (b.Attempting? ==> forall e <- b.bundle :: e.status == Pending)
  }

  /** How many bundles the bundler still means to hand over, counting the one it is preparing. */
  function Wanted(b: Bundler): nat {
    match b
    case Idle => 0
    case Ready(slots) => slots
    case Choosing(slots, _) => slots + 1
    case MarkingPending(slots, _, _) => slots + 1
    case Attempting(slots, _, _) => slots + 1
  }

  ghost predicate NotNew(s: Store, keys: set<string>) {
    forall k <- keys :: k in s.entries ==> s.entries[k].status != New
  }

  ghost predicate Disjoint(relayers: seq<Relayer>) {
    forall p, q :: 0 <= p < q < |relayers| ==> Held(relayers[p]) !! Held(relayers[q])
  }

  ghost predicate Inv(s: System) {
    && BundlerOk(s.bundler)
    && (forall r :: 0 <= r < |s.relayers| ==> RelayerOk(s.relayers[r]))
    && Disjoint(s.relayers)
    && (forall r :: 0 <= r < |s.relayers| ==> Held(s.relayers[r]) !! Claimed(s.bundler))
    && (forall r :: 0 <= r < |s.relayers| ==> NotNew(s.store, Held(s.relayers[r])))
    && NotNew(s.store, Marked(s.bundler))
    && Wanted(s.bundler) <= FreeCount(s.relayers)
  }

  lemma {:induction false} FreeCountOfUpdate(relayers: seq<Relayer>, r: nat, p: Relayer)
    requires r < |relayers|
    ensures FreeCount(relayers[r := p])
         == FreeCount(relayers) - (if relayers[r].Free? then 1 else 0) + (if p.Free? then 1 else 0)
    decreases |relayers|
  {
    var init := relayers[..|relayers| - 1];
    if r < |init| {
      FreeCountOfUpdate(init, r, p);
      assert relayers[r := p][..|relayers| - 1] == init[r := p];
    } else {
      assert relayers[r := p][..|relayers| - 1] == init;
    }
  }

  lemma {:induction false} SomeFree(relayers: seq<Relayer>)
    ensures FreeCount(relayers) > 0 <==> FirstFree(relayers) < |relayers|
    ensures FreeCount(relayers) <= |relayers|
  {
    if relayers == [] {
    } else {
      SomeFree(relayers[..|relayers| - 1]);
    }
  }

  /** One relayer moves on without taking up anything it did not hold. */
  lemma RelayerMoves(s: System, r: nat, p: Relayer)
    requires Inv(s) && r < |s.relayers| && RelayerOk(p)
    requires Held(p) <= Held(s.relayers[r]) && (s.relayers[r].Free? ==> p.Free?)
    ensures Inv(s.(relayers := s.relayers[r := p]))
  {
    FreeCountOfUpdate(s.relayers, r, p);
    var relayers := s.relayers[r := p];
    forall q, q' | 0 <= q < q' < |relayers| ensures Held(relayers[q]) !! Held(relayers[q']) {
      assert Held(s.relayers[q]) !! Held(s.relayers[q']);
    }
  }

  /** A write that makes no operation in flight look new keeps the invariant. */
  lemma StoreMoves(s: System, store: Store)
    requires Inv(s)
    requires forall k :: InFlight(s, k) && k in store.entries ==> store.entries[k].status != New
    ensures Inv(s.(store := store))
  {
    forall r | 0 <= r < |s.relayers| ensures NotNew(store, Held(s.relayers[r])) {
      forall k | k in Held(s.relayers[r]) && k in store.entries ensures store.entries[k].status != New {
        assert InFlight(s, k);
      }
    }
    forall k | k in Marked(s.bundler) && k in store.entries ensures store.entries[k].status != New {
      assert InFlight(s, k);
    }
  }

  lemma InFlightIsNotNew(s: System, k: string)
    requires Inv(s) && InFlight(s, k) && k in s.store.entries
    ensures s.store.entries[k].status != New
  {
  }

  lemma OtherWritesKeepInv(s: System, e: Entry)
    requires Inv(s) && (e.status != New || !InFlight(s, GetKey(e)))
    ensures Inv(s.(store := Updated(s.store, e)))
  {
    forall k | InFlight(s, k) && k in Updated(s.store, e).entries ensures Updated(s.store, e).entries[k].status != New {
      if k != GetKey(e) {
        InFlightIsNotNew(s, k);
      }
    }
    StoreMoves(s, Updated(s.store, e));
  }

  /** The hypothesis of the safety theorem: no operation in flight is replaced by a new one. */
  ghost predicate NoReplacement(s: System, e: Event) {
    e.Mempool? && e.m.Add? && Added(s.store, e.m.entry, e.m.ttl, e.m.accepted, e.m.now).Success?
    ==> !InFlight(s, GetKey(e.m.entry))
  }

  lemma MempoolKeepsInv(s: System, m: Mempools.Event)
    requires Inv(s) && Enabled(s, Mempool(m)) && NoReplacement(s, Mempool(m))
    ensures Inv(Next(s, Mempool(m)))
  {
    var store := Mempools.After(s.store, m);
    forall k | InFlight(s, k) && k in store.entries ensures store.entries[k].status != New {
      if k in s.store.entries {
        InFlightIsNotNew(s, k);
      }
    }
    StoreMoves(s, store);
  }

  lemma KeysOf(es: seq<Entry>, k: string)
    ensures k in Keys(es) <==> exists i :: 0 <= i < |es| && GetKey(es[i]) == k
  {
  }

  /** Candidates are stored as new, so none of them is in flight. */
  lemma FetchKeepsInv(s: System, candidates: seq<Entry>)
    requires Inv(s) && Enabled(s, Fetch(candidates))
    ensures Inv(Next(s, Fetch(candidates)))
  {
    forall r | 0 <= r < |s.relayers| ensures Held(s.relayers[r]) !! Keys(candidates) {
      forall k | k in Keys(candidates) ensures k !in Held(s.relayers[r]) {
        var c :| c in candidates && GetKey(c) == k;
        assert StoredAsNew(s.store, c);
      }
    }
  }

  lemma ChooseKeepsInv(s: System, chosen: seq<Entry>)
    requires Inv(s) && Enabled(s, Choose(chosen))
    ensures Inv(Next(s, Choose(chosen)))
  {
    assert Keys(chosen) <= Keys(s.bundler.candidates);
    assert chosen[..0] == [];
  }

  lemma WriteKeepsDistinct(b: seq<Entry>, i: nat, e: Entry)
    requires i < |b| && GetKey(e) == GetKey(b[i]) && DistinctKeys(b)
    ensures DistinctKeys(b[i := e])
  {
  }

  /** Replacing an entry of a bundle by another version of it changes no key. */
  lemma SameKeysAfterWrite(b: seq<Entry>, i: nat, e: Entry, j: nat)
    requires i < |b| && GetKey(e) == GetKey(b[i]) && j <= |b|
    ensures Keys(b[i := e][..j]) == Keys(b[..j])
  {
    var c := b[i := e];
    forall k ensures k in Keys(c[..j]) <==> k in Keys(b[..j]) {
      KeysOf(c[..j], k);
      KeysOf(b[..j], k);
      assert forall m :: 0 <= m < j ==> GetKey(c[..j][m]) == GetKey(b[..j][m]);
    }
  }

  lemma SameKeysOverall(b: seq<Entry>, i: nat, e: Entry)
    requires i < |b| && GetKey(e) == GetKey(b[i])
    ensures Keys(b[i := e]) == Keys(b)
  {
    SameKeysAfterWrite(b, i, e, |b|);
    assert b[i := e][..|b|] == b[i := e] && b[..|b|] == b;
  }

  /** The bundler moves on without claiming anything new. */
  lemma BundlerMoves(s: System, b: Bundler)
    requires Inv(s) && BundlerOk(b) && Claimed(b) <= Claimed(s.bundler)
    requires NotNew(s.store, Marked(b)) && Wanted(b) <= Wanted(s.bundler)
    ensures Inv(s.(bundler := b))
  {
  }

  /** One mark adds at most the key it writes to what the bundler has marked. */
  lemma MarkAddsOneKey(b: Bundler, now: int)
    requires BundlerOk(b) && CanMark(b)
    ensures Claimed(AfterMark(b, now)) == Claimed(b) && Wanted(AfterMark(b, now)) == Wanted(b)
    ensures Marked(AfterMark(b, now)) <= Marked(b) + {GetKey(MarkedEntry(b, now))}
  {
    var e, bundle := MarkedEntry(b, now), b.bundle;
    SameKeysOverall(bundle, b.i, e);
    SameKeysAfterWrite(bundle, b.i, e, b.i + 1);
    assert bundle[..b.i + 1] == bundle[..b.i] + [bundle[b.i]];
    assert bundle[..|bundle|] == bundle;
  }

  lemma MarkStaysOk(b: Bundler, now: int)
    requires BundlerOk(b) && CanMark(b)
    ensures BundlerOk(AfterMark(b, now))
  {
    WriteKeepsDistinct(b.bundle, b.i, MarkedEntry(b, now));
  }

  lemma MarkKeepsInv(s: System, now: int)
    requires Inv(s) && Enabled(s, Mark(now))
    ensures Inv(Next(s, Mark(now)))
  {
    hide DistinctKeys, AfterMark;
    var e := MarkedEntry(s.bundler, now);
    OtherWritesKeepInv(s, e);
    MarkAddsOneKey(s.bundler, now);
    MarkStaysOk(s.bundler, now);
    BundlerMoves(s.(store := Updated(s.store, e)), AfterMark(s.bundler, now));
  }

  /** A free relayer takes over what only the bundler has claimed. */
  lemma HandsOver(s: System, r: nat, q: nat, b: seq<Entry>)
    requires Inv(s) && r < |s.relayers| && q < |s.relayers| && q != r && Keys(b) <= Claimed(s.bundler)
    ensures Held(s.relayers[q]) !! Held(Locked(b))
  {
  }

  lemma LaunchKeepsInv(s: System)
    requires Inv(s) && Enabled(s, Launch)
    ensures Inv(Next(s, Launch))
    ensures FirstFree(s.relayers) < |s.relayers|
  {
    hide NotNew, DistinctKeys, Keys;
    SomeFree(s.relayers);
    var r, b := FirstFree(s.relayers), s.bundler.bundle;
    var relayers := s.relayers[r := Locked(b)];
    FreeCountOfUpdate(s.relayers, r, Locked(b));
    forall q, q' | 0 <= q < q' < |relayers| ensures Held(relayers[q]) !! Held(relayers[q']) {
      if q == r {
        HandsOver(s, r, q', b);
      } else if q' == r {
        HandsOver(s, r, q, b);
      } else {
        assert Held(s.relayers[q]) !! Held(s.relayers[q']);
      }
    }
  }

  lemma {:induction false} PutBackHolds(b: seq<Entry>, i: nat)
    requires i < |b| && DistinctKeys(b)
    ensures Keys(b[i..]) == {GetKey(b[i])} + Keys(b[i + 1..])
    ensures GetKey(b[i]) !in Keys(b[i + 1..])
  {
    assert b[i..] == [b[i]] + b[i + 1..];
    KeysOf(b[i + 1..], GetKey(b[i]));
  }

  /** A write, stored or not, makes a relayer hold nothing it did not hold. */
  lemma WriteHoldsNoMore(p: Relayer, e: Entry, testing: bool)
    requires CanWrite(p) && GetKey(e) == GetKey(p.bundle[p.i])
    ensures Held(AfterWrite(p, e, testing)) <= Held(p) && Held(AfterFailedWrite(p, e, testing)) <= Held(p)
  {
    SameKeysOverall(p.bundle, p.i, e);
    var changed := p.bundle[p.i := e];
    assert changed[0..] == changed && p.bundle[p.i..] == [p.bundle[p.i]] + p.bundle[p.i + 1..];
    assert changed[p.i + 1..] == p.bundle[p.i + 1..];
  }

  lemma WriteStaysOk(p: Relayer, e: Entry, testing: bool)
    requires RelayerOk(p) && Writes(p) && GetKey(e) == GetKey(p.bundle[p.i])
    ensures RelayerOk(AfterWrite(p, e, testing)) && RelayerOk(AfterFailedWrite(p, e, testing))
  {
    WriteKeepsDistinct(p.bundle, p.i, e);
  }

  /** An operation that is put back leaves the relayer's hands. */
  lemma PuttingBackLetsGo(p: Relayer, e: Entry, testing: bool)
    requires RelayerOk(p) && p.PuttingBack? && GetKey(e) == GetKey(p.bundle[p.i])
    ensures GetKey(e) in Held(p) && GetKey(e) !in Held(AfterWrite(p, e, testing))
  {
    PutBackHolds(p.bundle, p.i);
    assert p.bundle[p.i := e][p.i + 1..] == p.bundle[p.i + 1..];
  }

  /** An operation only one relayer holds is no longer in flight once that relayer lets go of it. */
  lemma LeavesFlight(s: System, r: nat, p: Relayer, k: string)
    requires Inv(s) && r < |s.relayers| && k in Held(s.relayers[r]) && k !in Held(p)
    ensures !InFlight(s.(relayers := s.relayers[r := p]), k)
  {
    var relayers := s.relayers[r := p];
    forall q | 0 <= q < |relayers| ensures k !in Held(relayers[q]) {
      if q < r {
        assert Held(s.relayers[q]) !! Held(s.relayers[r]);
      } else if q > r {
        assert Held(s.relayers[r]) !! Held(s.relayers[q]);
      }
    }
    MarkedIsClaimed(s.bundler);
  }

  lemma WriteKeepsInv(s: System, r: nat, params: Params, now: int)
    requires Inv(s) && Enabled(s, Write(r, params, now))
    ensures Inv(Next(s, Write(r, params, now)))
  {
    var p := s.relayers[r];
    var e := WrittenEntry(p, params, now);
    var p' := AfterWrite(p, e, s.testing);
    WriteHoldsNoMore(p, e, s.testing);
    WriteStaysOk(p, e, s.testing);
    RelayerMoves(s, r, p');
    if p.PuttingBack? {
      PuttingBackLetsGo(p, e, s.testing);
      LeavesFlight(s, r, p', GetKey(e));
    }
    OtherWritesKeepInv(s.(relayers := s.relayers[r := p']), e);
  }

  lemma FailedWriteKeepsInv(s: System, r: nat, params: Params, now: int)
    requires Inv(s) && Enabled(s, WriteFails(r, params, now))
    ensures Inv(Next(s, WriteFails(r, params, now)))
  {
    var e := WrittenEntry(s.relayers[r], params, now);
    WriteHoldsNoMore(s.relayers[r], e, s.testing);
    WriteStaysOk(s.relayers[r], e, s.testing);
    RelayerMoves(s, r, AfterFailedWrite(s.relayers[r], e, s.testing));
  }

  lemma MarkedIsClaimed(b: Bundler)
    ensures Marked(b) <= Claimed(b)
  {
  }

  lemma WaitingKeepsInv(s: System, r: nat, scan: nat, readFails: bool)
    requires Inv(s)
    ensures Enabled(s, Tick(r)) ==> Inv(Next(s, Tick(r)))
    ensures Enabled(s, Look(r, scan, readFails)) ==> Inv(Next(s, Look(r, scan, readFails)))
  {
    if Enabled(s, Tick(r)) {
      RelayerMoves(s, r, AfterTick(s.relayers[r]));
    }
    if Enabled(s, Look(r, scan, readFails)) {
      RelayerMoves(s, r, AfterLook(s.relayers[r], s.store, scan, readFails));
    }
  }

  lemma FailKeepsInv(s: System, r: nat, index: Option<nat>, params: Params, now: int)
    requires Inv(s) && Enabled(s, Fail(r, index, params, now))
    ensures Inv(Next(s, Fail(r, index, params, now)))
  {
    RelayerMoves(s, r, Free);
    if index.Some? {
      OtherWritesKeepInv(s.(relayers := s.relayers[r := Free]),
          WithStatus(s.relayers[r].bundle[index.value], Reverted, params, now));
    }
  }

  lemma StepKeepsInv(s: System, e: Event)
    requires Inv(s) && Enabled(s, e) && NoReplacement(s, e)
    ensures Inv(Next(s, e))
  {
    hide NotNew, DistinctKeys, Keys, Updated;
    match e
    case Mempool(m) => MempoolKeepsInv(s, m);
    case StartBundling =>
    case Fetch(candidates) => FetchKeepsInv(s, candidates);
    case Choose(chosen) => ChooseKeepsInv(s, chosen);
    case Mark(now) => MarkKeepsInv(s, now);
    case MarkFails => BundlerMoves(s, Idle);
    case Launch => LaunchKeepsInv(s);
    case EndBundling =>
    case Validated(r, ok) =>
      if !ok {
        RelayerMoves(s, r, Cancelling(s.relayers[r].bundle, 0));
      }
    case SubmissionEnds(r, ok) =>
      var b := s.relayers[r].bundle;
      assert b[0..] == b;
      RelayerMoves(s, r, if ok then MarkingSubmitted(b, 0) else AfterFailure(b, s.testing));
    case Write(r, params, now) => WriteKeepsInv(s, r, params, now);
    case WriteFails(r, params, now) => FailedWriteKeepsInv(s, r, params, now);
    case Tick(r) => WaitingKeepsInv(s, r, 0, false);
    case Look(r, scan, readFails) => WaitingKeepsInv(s, r, scan, readFails);
    case Fail(r, index, params, now) => FailKeepsInv(s, r, index, params, now);
    case Abort(r) => RelayerMoves(s, r, Free);
  }

  // ----- Where the steps of the bundler come from -----

  lemma {:induction false} NewIsSome(entries: seq<Entry>)
    ensures multiset(WithStatusNew(entries)) <= multiset(entries)
  {
    if entries == [] {
    } else {
      NewIsSome(entries[..|entries| - 1]);
      Sorting.AllButLast(entries);
    }
  }

  lemma {:induction false} CountsOfDistinct(es: seq<Entry>, e: Entry)
    requires DistinctKeys(es)
    ensures multiset(es)[e] <= 1
  {
    if es == [] {
    } else {
      var init, last := es[..|es| - 1], es[|es| - 1];
      CountsOfDistinct(init, e);
      Sorting.AllButLast(es);
      assert last !in init by {
        assert forall i :: 0 <= i < |init| ==> GetKey(init[i]) != GetKey(last);
      }
    }
  }

  lemma DistinctOfCounts(es: seq<Entry>, s: Store)
    requires forall e <- es :: GetKey(e) in s.entries && s.entries[GetKey(e)] == e
    requires forall e :: multiset(es)[e] <= 1
    ensures DistinctKeys(es)
  {
    forall i, j | 0 <= i < j < |es| ensures GetKey(es[i]) != GetKey(es[j]) {
      var init, rest := es[..j], es[j..];
      assert es == init + rest && init[i] == es[i] && rest[0] == es[j];
      assert es[i] in multiset(init) && es[j] in multiset(rest);
      assert multiset(es)[es[i]] == multiset(init)[es[i]] + multiset(rest)[es[i]];
    }
  }

  /** What `getNewEntriesSorted` answers, grouped by sender or not, is a choice of candidates the
      bundler can fetch: stored as new, and each once. */
  lemma CandidatesCanBeFetched(s: Store, size: nat, offset: nat, es: seq<Entry>)
    requires Integrity(s) && (es == Candidates(s, size, offset) || es == GroupBySender(Candidates(s, size, offset)))
    ensures DistinctKeys(es) && forall c <- es :: StoredAsNew(s, c)
  {
    var before, leftOut := CandidatesAreDearest(s, size, offset);
    GroupingIsPermutation(Candidates(s, size, offset));
    ListedOnce(s);
    NewIsSome(All(s));
    forall e: Entry ensures multiset(es)[e] <= 1 {
      CountsOfDistinct(All(s), e);
      assert multiset(before + Candidates(s, size, offset) + leftOut)[e] <= multiset(All(s))[e];
    }
    forall c | c in es ensures StoredAsNew(s, c) {
      assert c in multiset(es) && c in Candidates(s, size, offset);
    }
    DistinctOfCounts(es, s);
  }

  /** What `createBundle` chooses from the candidates is a choice the bundler can mark. */
  lemma ChosenCanBeMarked(env: Bundles.Env, es: seq<Entry>, chosen: seq<Entry>)
    requires DistinctKeys(es)
    requires var c := Bundles.Chosen(env, es, |es|);
             |chosen| == |c.picked| && forall k :: 0 <= k < |chosen| ==>
                 Bundles.SameOperation(chosen[k], es[c.picked[k]])
    ensures DistinctKeys(chosen) && forall c <- chosen :: GetKey(c) in Keys(es)
  {
    var picked := Bundles.Chosen(env, es, |es|).picked;
    forall k | 0 <= k < |chosen| ensures GetKey(chosen[k]) == GetKey(es[picked[k]]) && GetKey(chosen[k]) in Keys(es) {
      assert Bundles.SameOperation(chosen[k], es[picked[k]]);
      assert es[picked[k]] in es;
    }
  }

  // ----- Runs -----

  ghost predicate Initial(s: System) {
    s.bundler.Idle? && forall r :: 0 <= r < |s.relayers| ==> s.relayers[r].Free?
  }

  /** Steps that follow one another, from `states[0]` on. */
  ghost predicate IsRun(states: seq<System>, events: seq<Event>) {
    && |states| == |events| + 1
    && forall i :: 0 <= i < |events| ==> Enabled(states[i], events[i]) && states[i + 1] == Next(states[i], events[i])
  }

  ghost predicate NothingReplaced(states: seq<System>, events: seq<Event>)
    requires |states| == |events| + 1
  {
    forall i :: 0 <= i < |events| ==> NoReplacement(states[i], events[i])
  }

  /** The bundles relayers are busy with, and the one being prepared. */
  function BundlesInFlight(s: System): int {
    |s.relayers| - FreeCount(s.relayers) + if s.bundler.MarkingPending? || s.bundler.Attempting? then 1 else 0
  }

  /** No operation is in two bundles in flight, no operation in flight is stored as new, and there are
      no more bundles in flight than relayers. */
  ghost predicate Safe(s: System) {
    && (forall p, q :: 0 <= p < q < |s.relayers| ==> Held(s.relayers[p]) !! Held(s.relayers[q]))
    && (forall p :: 0 <= p < |s.relayers| ==> Held(s.relayers[p]) !! Marked(s.bundler))
    && (forall k :: InFlight(s, k) && k in s.store.entries ==> s.store.entries[k].status != New)
    && BundlesInFlight(s) <= |s.relayers|
  }

  lemma {:induction false} AllFree(relayers: seq<Relayer>)
    requires forall r :: 0 <= r < |relayers| ==> relayers[r].Free?
    ensures FreeCount(relayers) == |relayers|
  {
    if relayers == [] {
    } else {
      AllFree(relayers[..|relayers| - 1]);
    }
  }

  lemma {:induction false} RunKeepsInv(states: seq<System>, events: seq<Event>, n: nat)
    requires IsRun(states, events) && NothingReplaced(states, events) && Initial(states[0]) && n < |states|
    ensures Inv(states[n])
  {
    if n == 0 {
      AllFree(states[0].relayers);
    } else {
      RunKeepsInv(states, events, n - 1);
      assert Enabled(states[n - 1], events[n - 1]) && NoReplacement(states[n - 1], events[n - 1]);
      StepKeepsInv(states[n - 1], events[n - 1]);
    }
  }

  lemma InvIsSafe(s: System)
    requires Inv(s)
    ensures Safe(s)
  {
    MarkedIsClaimed(s.bundler);
    forall k | InFlight(s, k) && k in s.store.entries ensures s.store.entries[k].status != New {
      InFlightIsNotNew(s, k);
    }
  }

  /** In every run in which no operation in flight is replaced, every state is safe, and a bundle
      that is launched always finds a free relayer. */
  lemma RunsAreSafe(states: seq<System>, events: seq<Event>, n: nat)
    requires IsRun(states, events) && NothingReplaced(states, events) && Initial(states[0]) && n < |states|
    ensures Safe(states[n])
    ensures n < |events| && events[n].Launch? ==> FirstFree(states[n].relayers) < |states[n].relayers|
  {
    RunKeepsInv(states, events, n);
    InvIsSafe(states[n]);
    if n < |events| && events[n].Launch? {
      assert Enabled(states[n], events[n]);
      LaunchKeepsInv(states[n]);
    }
  }
}
