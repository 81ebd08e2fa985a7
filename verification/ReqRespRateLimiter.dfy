/** The two-level request limiter of packages/node/src/reqresp/rate_limiter/ReqRespRateLimiter.ts.
    Each protocol may have a limiter with one key per peer and one with a single key for all peers. */
module ReqRespRateLimiters {
  import opened Wrappers
  import opened Gcra

  /** Peers that made no request for five minutes count as disconnected. */
  const DISCONNECTED_TIMEOUT_MS := 300000.0

  type ProtocolID = string
  type PeerId = string

  datatype Limiter<Key> = Limiter(rate: Rate, startTimeMs: real, tats: Tats<Key>)

  datatype Tables = Tables(byPeer: map<ProtocolID, Limiter<PeerId>>, total: map<ProtocolID, Limiter<()>>,
                         lastSeen: map<PeerId, real>)

  function Asked<Key>(l: Limiter<Key>, key: Key, count: real, now: real): (bool, Limiter<Key>) {
    var (ok, tats) := Request(l.rate, l.tats, key, count, now - l.startTimeMs);
    (ok, l.(tats := tats))
  }

  const NOT_POSITIVE := "Token value should always be positive."

  /** The peer limiter's say, if the protocol has one. */
  function PeerStage(s: Tables, peer: PeerId, protocol: ProtocolID, count: real, now: real): (bool, Tables) {
    if protocol !in s.byPeer then (true, s)
    else
      var (ok, l) := Asked(s.byPeer[protocol], peer, count, now);
      (ok, s.(byPeer := s.byPeer[protocol := l]))
  }

  /** The total limiter's say, if the protocol has one. */
  function TotalStage(s: Tables, protocol: ProtocolID, count: real, now: real): (bool, Tables) {
    if protocol !in s.total then (true, s)
    else
      var (ok, l) := Asked(s.total[protocol], (), count, now);
      (ok, s.(total := s.total[protocol := l]))
  }

  /** `allows`: the peer limiter is asked first; only when it admits is the total limiter asked. */
  function Answered(s: Tables, peer: PeerId, protocol: ProtocolID, count: real, now: real)
    : (Result<bool, string>, Tables)
  {
    var seen := s.(lastSeen := s.lastSeen[peer := now]);
    if count <= 0.0 && (protocol in s.byPeer || protocol in s.total) then (Failure(NOT_POSITIVE), seen)
    else
      var (ok, asked) := PeerStage(seen, peer, protocol, count, now);
      if !ok then (Success(false), asked)
      else
        var (ok, done) := TotalStage(asked, protocol, count, now);
        (Success(ok), done)
  }

  function Without(l: Limiter<PeerId>, peers: set<PeerId>): Limiter<PeerId> {
    l.(tats := l.tats - peers)
  }

  /** Forgets peers altogether: in every per-peer limiter and in the last-seen table. */
  function Forget(s: Tables, peers: set<PeerId>): Tables {
    s.(byPeer := map p | p in s.byPeer :: Without(s.byPeer[p], peers), lastSeen := s.lastSeen - peers)
  }

  function Idle(s: Tables, now: real): set<PeerId> {
    set p | p in s.lastSeen && now - s.lastSeen[p] >= DISCONNECTED_TIMEOUT_MS
  }

  /** A fresh limiter for the protocol, its quota scaled by the multiplier, if a quota is given. */
  function Installed<Key>(limiters: map<ProtocolID, Limiter<Key>>, protocol: ProtocolID, q: Option<Quota>,
                          multiplier: real, now: real): Result<map<ProtocolID, Limiter<Key>>, string>
  {
    match q
    case None => Success(limiters)
    case Some(quota) =>
      match RateFromQuota(quota.(quota := quota.quota * multiplier))
      case Failure(error) => Failure(error)
      case Success(rate) => Success(limiters[protocol := Limiter(rate, now, map[])])
  }

  /** `initRateLimits`: the limiter per peer is installed before the quota for all peers is looked at. */
  function Registered(s: Tables, protocol: ProtocolID, byPeer: Option<Quota>, total: Option<Quota>,
                      multiplier: real, now: real): (Result<bool, string>, Tables)
  {
    match Installed(s.byPeer, protocol, byPeer, multiplier, now)
    case Failure(error) => (Failure(error), s)
    case Success(peers) =>
      match Installed(s.total, protocol, total, multiplier, now)
      case Failure(error) => (Failure(error), s.(byPeer := peers))
      case Success(all) => (Success(true), s.(byPeer := peers, total := all))
  }

  class ReqRespRateLimiter {
    const rateLimitMultiplier: real
    var rateLimitersPerPeer: map<ProtocolID, Limiter<PeerId>>
    var rateLimitersTotal: map<ProtocolID, Limiter<()>>
    var lastSeenRequestsByPeer: map<PeerId, real>

    function State(): Tables
      reads this
    {
      Tables(rateLimitersPerPeer, rateLimitersTotal, lastSeenRequestsByPeer)
    }

    predicate Enabled() {
      rateLimitMultiplier > 0.0
    }

    constructor (rateLimitMultiplier: real)
      ensures this.rateLimitMultiplier == rateLimitMultiplier && State() == Tables(map[], map[], map[])
    {
      this.rateLimitMultiplier := rateLimitMultiplier;
      rateLimitersPerPeer, rateLimitersTotal, lastSeenRequestsByPeer := map[], map[], map[];
    }

    method InitRateLimits(protocolID: ProtocolID, byPeer: Option<Quota>, total: Option<Quota>, now: real)
      returns (r: Result<bool, string>)
      modifies this
      ensures rateLimitMultiplier <= 0.0 ==> r == Success(true) && State() == old(State())
      ensures rateLimitMultiplier > 0.0 ==>
                (r, State()) == Registered(old(State()), protocolID, byPeer, total, rateLimitMultiplier, now)
    {
      if !Enabled() {
        return Success(true);
      }
      var peers := Installed(rateLimitersPerPeer, protocolID, byPeer, rateLimitMultiplier, now);
      if peers.Failure? {
        return Failure(peers.error);
      }
      rateLimitersPerPeer := peers.value;
      var all := Installed(rateLimitersTotal, protocolID, total, rateLimitMultiplier, now);
      if all.Failure? {
        return Failure(all.error);
      }
      rateLimitersTotal := all.value;
      return Success(true);
    }

    method Allows(peer: PeerId, protocol: ProtocolID, count: real, now: real) returns (r: Result<bool, string>)
      modifies this
      ensures rateLimitMultiplier <= 0.0 ==> r == Success(true) && State() == old(State())
      ensures rateLimitMultiplier > 0.0 ==> (r, State()) == Answered(old(State()), peer, protocol, count, now)
    {
      if !Enabled() {
        return Success(true);
      }
      lastSeenRequestsByPeer := lastSeenRequestsByPeer[peer := now];
      if protocol in rateLimitersPerPeer {
        if count <= 0.0 {
          return Failure(NOT_POSITIVE);
        }
        var (ok, l) := Asked(rateLimitersPerPeer[protocol], peer, count, now);
        rateLimitersPerPeer := rateLimitersPerPeer[protocol := l];
        if !ok {
          return Success(false);
        }
      }
      if protocol in rateLimitersTotal {
        if count <= 0.0 {
          return Failure(NOT_POSITIVE);
        }
        var (ok, l) := Asked(rateLimitersTotal[protocol], (), count, now);
        rateLimitersTotal := rateLimitersTotal[protocol := l];
        if !ok {
          return Success(false);
        }
      }
      return Success(true);
    }

    method PruneByPeerIdStr(peer: PeerId)
      modifies this
      ensures State() == Forget(old(State()), {peer})
      ensures rateLimitersTotal == old(rateLimitersTotal)
      ensures lastSeenRequestsByPeer == old(lastSeenRequestsByPeer) - {peer}
      ensures rateLimitersPerPeer.Keys == old(rateLimitersPerPeer).Keys
      ensures forall p <- rateLimitersPerPeer ::
                var before := old(rateLimitersPerPeer)[p];
                rateLimitersPerPeer[p] == Limiter(before.rate, before.startTimeMs, before.tats - {peer})
    {
      var rest := rateLimitersPerPeer.Keys;
      while rest != {}
        invariant rest <= old(rateLimitersPerPeer).Keys
        invariant rateLimitersTotal == old(rateLimitersTotal) && lastSeenRequestsByPeer == old(lastSeenRequestsByPeer)
        invariant rateLimitersPerPeer.Keys == old(rateLimitersPerPeer).Keys
        invariant forall p <- rateLimitersPerPeer ::
            rateLimitersPerPeer[p] == if p in rest then old(rateLimitersPerPeer)[p]
                else Without(old(rateLimitersPerPeer)[p], {peer})
      {
        var p :| p in rest;
        rest := rest - {p};
        rateLimitersPerPeer := rateLimitersPerPeer[p := Without(rateLimitersPerPeer[p], {peer})];
      }
      lastSeenRequestsByPeer := lastSeenRequestsByPeer - {peer};
    }

    method CheckDisconnectedPeers(now: real)
      modifies this
      ensures State() == Forget(old(State()), Idle(old(State()), now))
      ensures forall p :: p in lastSeenRequestsByPeer
                          <==> p in old(lastSeenRequestsByPeer) && now - old(lastSeenRequestsByPeer)[p] < 300000.0
    {
      ghost var start := State();
      var rest := lastSeenRequestsByPeer.Keys;
      assert Forget(start, {}) == start by { ForgetNone(start); }
      ghost var gone: set<PeerId> := {};
      while rest != {}
        invariant rest <= start.lastSeen.Keys && gone !! rest
        invariant gone == set p | p in Idle(start, now) && p !in rest
        invariant State() == Forget(start, gone)
      {
        var peer :| peer in rest;
        rest := rest - {peer};
        if now - lastSeenRequestsByPeer[peer] >= DISCONNECTED_TIMEOUT_MS {
          PruneByPeerIdStr(peer);
          ForgetTwice(start, gone, {peer});
          gone := gone + {peer};
        }
      }
      assert gone == Idle(start, now);
    }
  }

  lemma ForgetNone(s: Tables)
    ensures Forget(s, {}) == s
  {
    forall p | p in s.byPeer ensures Without(s.byPeer[p], {}) == s.byPeer[p] {
      assert s.byPeer[p].tats - {} == s.byPeer[p].tats;
    }
    assert Forget(s, {}).byPeer == s.byPeer;
    assert s.lastSeen - {} == s.lastSeen;
  }

  lemma ForgetTwice(s: Tables, a: set<PeerId>, b: set<PeerId>)
    ensures Forget(Forget(s, a), b) == Forget(s, a + b)
  {
    var twice, once := Forget(Forget(s, a), b), Forget(s, a + b);
    assert twice.byPeer.Keys == once.byPeer.Keys;
    forall p | p in s.byPeer ensures twice.byPeer[p] == once.byPeer[p] {
      assert s.byPeer[p].tats - a - b == s.byPeer[p].tats - (a + b);
    }
    assert s.lastSeen - a - b == s.lastSeen - (a + b);
  }

  // ----- The idle clean-up goes unnoticed -----

  /** What a peer's arrival times owe to its last request: none lies further ahead of it than one
      full bucket. */
  ghost predicate OwedSince(l: Limiter<PeerId>, lastSeen: map<PeerId, real>) {
    forall k <- l.tats :: k in lastSeen && l.tats[k] + l.startTimeMs <= lastSeen[k] + l.rate.perBucket
  }

  ghost predicate Recent(s: Tables, now: real) {
    && (forall p <- s.byPeer :: s.byPeer[p].rate.Valid() && OwedSince(s.byPeer[p], s.lastSeen))
    && (forall k <- s.lastSeen :: s.lastSeen[k] <= now)
  }

  /** Every per-peer bucket fills within five minutes. */
  ghost predicate Quick(s: Tables) {
    forall p <- s.byPeer :: s.byPeer[p].rate.perBucket <= 300000.0
  }

  /** No request from time `now` on can tell the two apart. */
  ghost predicate Alike(a: Tables, b: Tables, now: real) {
    && a.total == b.total
    && a.byPeer.Keys == b.byPeer.Keys
    && forall p <- a.byPeer :: AlikeFor(a.byPeer[p], b.byPeer[p], now)
  }

  ghost predicate AlikeFor(a: Limiter<PeerId>, b: Limiter<PeerId>, now: real) {
    && a.rate == b.rate && a.startTimeMs == b.startTimeMs
    && SameFrom(a.tats, b.tats, now - a.startTimeMs)
  }

  lemma AlikeLater(a: Tables, b: Tables, s: real, t: real)
    requires s <= t && Alike(a, b, s)
    ensures Alike(a, b, t)
  {
    forall p | p in a.byPeer ensures AlikeFor(a.byPeer[p], b.byPeer[p], t) {
      assert AlikeFor(a.byPeer[p], b.byPeer[p], s);
      SameLater(a.byPeer[p].tats, b.byPeer[p].tats, s - a.byPeer[p].startTimeMs, t - a.byPeer[p].startTimeMs);
    }
  }

  /** A peer idle for as long as its bucket takes to fill has a full bucket. */
  lemma ForgettingIdleIsAlike(l: Limiter<PeerId>, lastSeen: map<PeerId, real>, idle: set<PeerId>, now: real)
    requires OwedSince(l, lastSeen) && l.rate.perBucket <= DISCONNECTED_TIMEOUT_MS
    requires forall k <- idle :: k in lastSeen ==> now - lastSeen[k] >= DISCONNECTED_TIMEOUT_MS
    ensures AlikeFor(Without(l, idle), l, now)
  {
    var kept, t := Without(l, idle).tats, now - l.startTimeMs;
    forall k ensures Effective(Lookup(kept, k), t) == Effective(Lookup(l.tats, k), t) {
      if k in l.tats && k in idle {
        assert l.tats[k] <= t;
      }
    }
  }

  lemma ForgettingKeepsRecent(s: Tables, peers: set<PeerId>, now: real)
    requires Recent(s, now)
    ensures Recent(Forget(s, peers), now)
  {
    forall p | p in s.byPeer ensures OwedSince(Without(s.byPeer[p], peers), s.lastSeen - peers) {
      assert OwedSince(s.byPeer[p], s.lastSeen);
    }
  }

  lemma CleanupKeepsAlike(a: Tables, b: Tables, now: real)
    requires Recent(a, now) && Quick(a) && Alike(a, b, now)
    ensures var a' := Forget(a, Idle(a, now)); Recent(a', now) && Quick(a') && Alike(a', b, now)
  {
    var idle := Idle(a, now);
    ForgettingKeepsRecent(a, idle, now);
    var a' := Forget(a, idle);
    assert a'.byPeer.Keys == a.byPeer.Keys;
    forall p | p in a.byPeer ensures AlikeFor(a'.byPeer[p], b.byPeer[p], now) {
      assert AlikeFor(a.byPeer[p], b.byPeer[p], now);
      ForgettingIdleIsAlike(a.byPeer[p], a.lastSeen, idle, now);
    }
  }

  lemma AskKeepsOwed(l: Limiter<PeerId>, lastSeen: map<PeerId, real>, peer: PeerId, count: real, now: real)
    requires l.rate.Valid() && count > 0.0 && OwedSince(l, lastSeen)
    requires forall k <- lastSeen :: lastSeen[k] <= now
    ensures OwedSince(Asked(l, peer, count, now).1, lastSeen[peer := now])
  {
    var t := now - l.startTimeMs;
    if Request(l.rate, l.tats, peer, count, t).0 {
      AdmissionBounds(l.rate.perBucket, Lookup(l.tats, peer), Cost(l.rate, count), t);
    }
  }

  lemma AskKeepsAlike(a: Limiter<PeerId>, b: Limiter<PeerId>, peer: PeerId, count: real, now: real)
    requires AlikeFor(a, b, now)
    ensures Asked(a, peer, count, now).0 == Asked(b, peer, count, now).0
    ensures AlikeFor(Asked(a, peer, count, now).1, Asked(b, peer, count, now).1, now)
  {
    var t := now - a.startTimeMs;
    RequestKeepsSame(a.rate, a.tats, b.tats, peer, count, t, t);
  }

  lemma PeerStageAlike(a: Tables, b: Tables, peer: PeerId, protocol: ProtocolID, count: real, now: real)
    requires Recent(a, now) && Quick(a) && Alike(a, b, now)
    requires count > 0.0 || protocol !in a.byPeer
    requires peer in a.lastSeen && a.lastSeen[peer] == now
    ensures var (ok, a') := PeerStage(a, peer, protocol, count, now);
            var (ok', b') := PeerStage(b, peer, protocol, count, now);
            ok == ok' && Recent(a', now) && Quick(a') && Alike(a', b', now)
  {
    if protocol in a.byPeer {
      assert AlikeFor(a.byPeer[protocol], b.byPeer[protocol], now);
      AskKeepsAlike(a.byPeer[protocol], b.byPeer[protocol], peer, count, now);
      AskKeepsOwed(a.byPeer[protocol], a.lastSeen, peer, count, now);
      assert a.lastSeen[peer := now] == a.lastSeen;
    }
  }

  lemma TotalStageAlike(a: Tables, b: Tables, protocol: ProtocolID, count: real, now: real)
    requires Recent(a, now) && Quick(a) && Alike(a, b, now)
    ensures var (ok, a') := TotalStage(a, protocol, count, now);
            var (ok', b') := TotalStage(b, protocol, count, now);
            ok == ok' && Recent(a', now) && Quick(a') && Alike(a', b', now)
  {
  }

  lemma AnswersAlike(a: Tables, b: Tables, peer: PeerId, protocol: ProtocolID, count: real, now: real)
    requires Recent(a, now) && Quick(a) && Alike(a, b, now)
    ensures var (answer, a') := Answered(a, peer, protocol, count, now);
            var (answer', b') := Answered(b, peer, protocol, count, now);
            answer == answer' && Recent(a', now) && Quick(a') && Alike(a', b', now)
  {
    SeenAgainStaysRecent(a, peer, now);
    var seen, seen' := a.(lastSeen := a.lastSeen[peer := now]), b.(lastSeen := b.lastSeen[peer := now]);
    if count > 0.0 || (protocol !in a.byPeer && protocol !in a.total) {
      PeerStageAlike(seen, seen', peer, protocol, count, now);
      TotalStageAlike(PeerStage(seen, peer, protocol, count, now).1, PeerStage(seen', peer, protocol, count, now).1,
                      protocol, count, now);
    }
  }

  lemma SeenAgainStaysRecent(s: Tables, peer: PeerId, now: real)
    requires Recent(s, now)
    ensures Recent(s.(lastSeen := s.lastSeen[peer := now]), now)
  {
  }

  // ----- Whole runs -----

  datatype Event =
    | Ask(peer: PeerId, protocol: ProtocolID, count: real, now: real)
    | Register(protocol: ProtocolID, byPeer: Option<Quota>, total: Option<Quota>, now: real)
    | Cleanup(now: real)

  /** A run in which clean-ups are carried out, or, with `cleans` false, skipped. */
  ghost predicate Run(events: seq<Event>, multiplier: real, cleans: bool, answers: seq<Result<bool, string>>,
                      states: seq<Tables>)
  {
    && |states| == |events| + 1 && |answers| == |events|
    && forall i {:trigger answers[i]} :: 0 <= i < |events| ==>
        RunStep(events[i], multiplier, cleans, states[i], answers[i], states[i + 1])
  }

  ghost predicate RunStep(e: Event, multiplier: real, cleans: bool, s: Tables, answer: Result<bool, string>,
                          s': Tables) {
    match e
    case Ask(peer, protocol, count, now) => (answer, s') == Answered(s, peer, protocol, count, now)
    case Register(protocol, byPeer, total, now) =>
      (answer, s') == Registered(s, protocol, byPeer, total, multiplier, now)
    case Cleanup(now) => answer == Success(true) && s' == if cleans then Forget(s, Idle(s, now)) else s
  }

  /** A positive quota per peer that is replenished within five minutes. */
  predicate QuickQuota(e: Event) {
    e.Register? && e.byPeer.Some? ==>
      e.byPeer.value.quota > 0.0 && 0.0 < e.byPeer.value.quotaTimeMs <= 300000.0
  }

  lemma RegisterKeepsAlike(a: Tables, b: Tables, e: Event, multiplier: real)
    requires Recent(a, e.now) && Quick(a) && Alike(a, b, e.now) && multiplier > 0.0
    requires e.Register? && QuickQuota(e)
    ensures var (answer, a') := Registered(a, e.protocol, e.byPeer, e.total, multiplier, e.now);
            var (answer', b') := Registered(b, e.protocol, e.byPeer, e.total, multiplier, e.now);
            answer == answer' && Recent(a', e.now) && Quick(a') && Alike(a', b', e.now)
  {
    PeerInstalledAlike(a, b, e, multiplier);
    var peers := Installed(a.byPeer, e.protocol, e.byPeer, multiplier, e.now).value;
    var peers' := Installed(b.byPeer, e.protocol, e.byPeer, multiplier, e.now).value;
    assert a.total == b.total;
    var all := Installed(a.total, e.protocol, e.total, multiplier, e.now);
    hide Installed, Recent, Quick, Alike;
    if all.Success? {
      TotalInstalledAlike(a.(byPeer := peers), b.(byPeer := peers'), all.value, e.now);
    }
  }

  lemma InstalledFresh<Key>(limiters: map<ProtocolID, Limiter<Key>>, protocol: ProtocolID, q: Quota,
                            multiplier: real, now: real, rate: Rate)
    requires RateFromQuota(q.(quota := q.quota * multiplier)) == Success(rate)
    ensures Installed(limiters, protocol, Some(q), multiplier, now)
            == Success(limiters[protocol := Limiter(rate, now, map[])])
  {
    var installed := Installed(limiters, protocol, Some(q), multiplier, now).value;
    assert installed[protocol] == Limiter(rate, now, map[]);
    assert installed == limiters[protocol := installed[protocol]];
  }

  lemma PeerInstalledAlike(a: Tables, b: Tables, e: Event, multiplier: real)
    requires Recent(a, e.now) && Quick(a) && Alike(a, b, e.now) && multiplier > 0.0
    requires e.Register? && QuickQuota(e)
    ensures var peers := Installed(a.byPeer, e.protocol, e.byPeer, multiplier, e.now);
            var peers' := Installed(b.byPeer, e.protocol, e.byPeer, multiplier, e.now);
            && peers.Success? && peers'.Success?
            && var a', b' := a.(byPeer := peers.value), b.(byPeer := peers'.value);
               Recent(a', e.now) && Quick(a') && Alike(a', b', e.now)
  {
    hide Recent, Quick, Alike;
    if e.byPeer.Some? {
      var q := e.byPeer.value;
      ScaledQuota(q, multiplier);
      var rate := RateFromQuota(q.(quota := q.quota * multiplier)).value;
      FreshIsAlike(a, b, e.protocol, rate, e.now);
      InstalledFresh(a.byPeer, e.protocol, q, multiplier, e.now, rate);
      InstalledFresh(b.byPeer, e.protocol, q, multiplier, e.now, rate);
      assert e.byPeer == Some(q);
    } else {
      assert a.(byPeer := a.byPeer) == a && b.(byPeer := b.byPeer) == b;
    }
  }

  lemma TotalInstalledAlike(a: Tables, b: Tables, total: map<ProtocolID, Limiter<()>>, now: real)
    requires Recent(a, now) && Quick(a) && Alike(a, b, now)
    ensures var a', b' := a.(total := total), b.(total := total);
            Recent(a', now) && Quick(a') && Alike(a', b', now)
  {
  }

  lemma ScaledQuota(q: Quota, multiplier: real)
    requires q.quota > 0.0 && q.quotaTimeMs > 0.0 && multiplier > 0.0
    ensures var r := RateFromQuota(q.(quota := q.quota * multiplier));
            r.Success? && r.value.Valid() && r.value.perBucket == q.quotaTimeMs
  {
    assert q.quota * multiplier > 0.0;
    QuotaIsCapacity(q.(quota := q.quota * multiplier));
  }

  /** A limiter without any arrival times is like another one. */
  lemma FreshIsAlike(a: Tables, b: Tables, protocol: ProtocolID, rate: Rate, now: real)
    requires Recent(a, now) && Quick(a) && Alike(a, b, now)
    requires rate.Valid() && rate.perBucket <= DISCONNECTED_TIMEOUT_MS
    ensures var empty := Limiter(rate, now, map[]);
            var a', b' := a.(byPeer := a.byPeer[protocol := empty]), b.(byPeer := b.byPeer[protocol := empty]);
            Recent(a', now) && Quick(a') && Alike(a', b', now)
  {
    var empty: Limiter<PeerId> := Limiter(rate, now, map[]);
    assert AlikeFor(empty, empty, now);
  }

  /** While every per-peer bucket fills within five minutes, those registered on the way included, the idle
      clean-up changes no answer of any run, on any protocol, to any peer. */
  lemma {:induction false} CleanupChangesNoAnswer(
    events: seq<Event>, multiplier: real, answers: seq<Result<bool, string>>, states: seq<Tables>,
    answers': seq<Result<bool, string>>, states': seq<Tables>, i: nat)
    requires Run(events, multiplier, true, answers, states) && Run(events, multiplier, false, answers', states')
    requires i < |events| && states[0] == states'[0] && Quick(states[0]) && Recent(states[0], events[0].now)
    requires multiplier > 0.0 && forall e <- events :: QuickQuota(e)
    requires forall i, j :: 0 <= i <= j < |events| ==> events[i].now <= events[j].now
    ensures answers[i] == answers'[i]
    ensures Quick(states[i + 1]) && Recent(states[i + 1], events[i].now)
    ensures Alike(states[i + 1], states'[i + 1], events[i].now)
  {
    hide Quick, Alike, Answered, Registered, Idle, Forget, QuickQuota;
    var now, a, b := events[i].now, states[i], states'[i];
    if i == 0 {
      AlikeItself(a, now);
    } else {
      CleanupChangesNoAnswer(events, multiplier, answers, states, answers', states', i - 1);
      AlikeLater(a, b, events[i - 1].now, now);
    }
    assert RunStep(events[i], multiplier, true, a, answers[i], states[i + 1]);
    assert RunStep(events[i], multiplier, false, b, answers'[i], states'[i + 1]);
    match events[i]
    case Ask(peer, protocol, count, _) => AnswersAlike(a, b, peer, protocol, count, now);
    case Register(_, _, _, _) => RegisterKeepsAlike(a, b, events[i], multiplier);
    case Cleanup(_) => CleanupKeepsAlike(a, b, now);
  }

  lemma AlikeItself(s: Tables, now: real)
    ensures Alike(s, s, now)
  {
  }

  /** Five minutes is sharp: with any slower bucket there is a run in which the clean-up lets through
      a request that would otherwise be refused. */
  lemma SlowBucketsShowTheCleanup(rate: Rate, peer: PeerId, protocol: ProtocolID)
    requires rate.Valid() && rate.perBucket > 300000.0
    ensures var s0 := Tables(map[protocol := Limiter(rate, 0.0, map[])], map[], map[]);
            var s1 := Answered(s0, peer, protocol, rate.Capacity(), 0.0).1;
            var cleaned := Forget(s1, Idle(s1, 300000.0));
            && Answered(cleaned, peer, protocol, rate.Capacity(), 300000.0).0 == Success(true)
            && Answered(s1, peer, protocol, rate.Capacity(), 300000.0).0 == Success(false)
  {
    var n := rate.Capacity();
    assert Cost(rate, n) == rate.perBucket && n > 0.0;
    hide Cost;
    var l0 := Limiter(rate, 0.0, map[]);
    assert Decide(rate, None, n, 0.0) == (true, Some(rate.perBucket));
    var l1 := l0.(tats := map[peer := rate.perBucket]);
    assert Asked(l0, peer, n, 0.0) == (true, l1);
    assert Lookup(l1.tats, peer) == Some(rate.perBucket);
    assert Decide(rate, Some(rate.perBucket), n, DISCONNECTED_TIMEOUT_MS).0 == false;
    assert Decide(rate, None, n, DISCONNECTED_TIMEOUT_MS).0 == true;
  }

  // ----- The two limiters together -----

  predicate Admits<Key(==)>(limiters: map<ProtocolID, Limiter<Key>>, protocol: ProtocolID, key: Key,
                            count: real, now: real)
  {
    protocol in limiters ==> Asked(limiters[protocol], key, count, now).0
  }

  /** A request passes exactly when both limiters admit it as they stand. One that the peer limiter
      refuses costs nothing in total; one that only the total limiter refuses is charged to the peer
      all the same. */
  lemma PassesExactlyWhenBothAdmit(s: Tables, peer: PeerId, protocol: ProtocolID, count: real, now: real)
    requires count > 0.0
    ensures var (answer, s') := Answered(s, peer, protocol, count, now);
            && (answer == Success(true) <==>
                  Admits(s.byPeer, protocol, peer, count, now) && Admits(s.total, protocol, (), count, now))
            && (!Admits(s.byPeer, protocol, peer, count, now) ==> s'.total == s.total)
            && (protocol in s.byPeer && s.byPeer[protocol].rate.Valid() && Admits(s.byPeer, protocol, peer, count, now)
                ==>
                  && protocol in s'.byPeer && peer in s'.byPeer[protocol].tats
                  && s'.byPeer[protocol].tats[peer]
                     >= now - s.byPeer[protocol].startTimeMs + Cost(s.byPeer[protocol].rate, count))
  {
    if protocol in s.byPeer && s.byPeer[protocol].rate.Valid() && Admits(s.byPeer, protocol, peer, count, now) {
      var l := s.byPeer[protocol];
      AdmissionBounds(l.rate.perBucket, Lookup(l.tats, peer), Cost(l.rate, count), now - l.startTimeMs);
    }
  }

  // ----- Requests by numbers -----

  /** A limiter admits a request for `n` tokens exactly when the bucket can hold so many and the arrival time it
      keeps for the key leaves room for them. */
  ghost predicate HasRoom<Key>(limiters: map<ProtocolID, Limiter<Key>>, protocol: ProtocolID, key: Key, n: real,
                               now: real)
  {
    protocol !in limiters
    || (var l := limiters[protocol];
        && l.rate.perToken * n <= l.rate.perBucket
        && (key in l.tats ==>
              now - l.startTimeMs >= l.tats[key] + l.rate.perToken * n - l.rate.perBucket))
  }

  /** What an admission leaves in a limiter: the key's arrival time moves on from now, or from where it was if that
      is ahead, by what the tokens take to replenish. */
  ghost predicate Charged<Key>(l: Limiter<Key>, l': Limiter<Key>, key: Key, n: real, now: real) {
    var t := now - l.startTimeMs;
    l' == l.(tats := l.tats[key := l.rate.perToken * n
                                   + if key in l.tats && l.tats[key] > t then l.tats[key] else t])
  }

  lemma AskedByNumbers<Key>(limiters: map<ProtocolID, Limiter<Key>>, protocol: ProtocolID, key: Key, n: real, now: real)
    requires n > 0.0 && protocol in limiters
    ensures var (ok, l') := Asked(limiters[protocol], key, n, now);
            && (ok <==> HasRoom(limiters, protocol, key, n, now))
            && if ok then Charged(limiters[protocol], l', key, n, now) else l' == limiters[protocol]
  {
    var l := limiters[protocol];
    var cost := Cost(l.rate, n);
    assert cost == l.rate.perToken * n;
    hide Cost;
    if key in l.tats {
      assert l.tats[key := l.tats[key]] == l.tats;
    }
  }

  /** The peer's limiter is charged exactly when it has room, whatever the other one says; the limiter for all peers
      exactly when both have room. */
  lemma ChargedExactlyWhenRoom(s: Tables, peer: PeerId, protocol: ProtocolID, n: real, now: real)
    requires n > 0.0
    ensures var s' := Answered(s, peer, protocol, n, now).1;
            var peerRoom := HasRoom(s.byPeer, protocol, peer, n, now);
            var totalRoom := HasRoom(s.total, protocol, (), n, now);
            && s'.byPeer.Keys == s.byPeer.Keys && s'.total.Keys == s.total.Keys
            && (protocol in s.byPeer ==>
                  if peerRoom then Charged(s.byPeer[protocol], s'.byPeer[protocol], peer, n, now)
                  else s'.byPeer[protocol] == s.byPeer[protocol])
            && (protocol in s.total ==>
                  if peerRoom && totalRoom then Charged(s.total[protocol], s'.total[protocol], (), n, now)
                  else s'.total[protocol] == s.total[protocol])
  {
    hide HasRoom, Charged, Asked;
    if protocol in s.byPeer {
      AskedByNumbers(s.byPeer, protocol, peer, n, now);
    } else {
      NoLimiterHasRoom(s.byPeer, protocol, peer, n, now);
    }
    if protocol in s.total {
      AskedByNumbers(s.total, protocol, (), n, now);
    }
  }

  lemma NoLimiterHasRoom<Key>(limiters: map<ProtocolID, Limiter<Key>>, protocol: ProtocolID, key: Key, n: real,
                              now: real)
    requires protocol !in limiters
    ensures HasRoom(limiters, protocol, key, n, now)
  {
  }

  lemma AdmitsExactlyWhenRoom<Key>(limiters: map<ProtocolID, Limiter<Key>>, protocol: ProtocolID, key: Key,
                                       n: real, now: real)
    requires n > 0.0
    ensures Admits(limiters, protocol, key, n, now) <==> HasRoom(limiters, protocol, key, n, now)
  {
  }

  /** A request without tokens fails exactly on protocols with a limiter; any other passes exactly when both
      limiters have room for it. The peer is seen in any case. */
  lemma AnsweredByNumbers(s: Tables, peer: PeerId, protocol: ProtocolID, n: real, now: real)
    ensures var (answer, s') := Answered(s, peer, protocol, n, now);
            && s'.lastSeen == s.lastSeen[peer := now]
            && s'.byPeer.Keys == s.byPeer.Keys && s'.total.Keys == s.total.Keys
            && (answer.Failure? <==> n <= 0.0 && (protocol in s.byPeer || protocol in s.total))
            && (answer.Failure? ==> answer.error == "Token value should always be positive.")
            && (n > 0.0 ==>
                  (answer == Success(true)
                   <==> HasRoom(s.byPeer, protocol, peer, n, now) && HasRoom(s.total, protocol, (), n, now)))
            && (forall p <- s.byPeer :: p != protocol ==> s'.byPeer[p] == s.byPeer[p])
            && (forall p <- s.total :: p != protocol ==> s'.total[p] == s.total[p])
  {
    if n > 0.0 {
      AdmitsExactlyWhenRoom(s.byPeer, protocol, peer, n, now);
      AdmitsExactlyWhenRoom(s.total, protocol, (), n, now);
      PassesExactlyWhenBothAdmit(s, peer, protocol, n, now);
      hide HasRoom, Admits, Request;
    }
  }

  /** Registering fails exactly when a quota given is zero, or takes no time; a quota for all peers that fails
      leaves the one per peer installed. */
  lemma RegisteredByNumbers(s: Tables, protocol: ProtocolID, byPeer: Option<Quota>, total: Option<Quota>,
                            multiplier: real, now: real)
    requires multiplier > 0.0
    ensures var (answer, s') := Registered(s, protocol, byPeer, total, multiplier, now);
            var peersFail := byPeer.Some? && (byPeer.value.quota == 0.0 || byPeer.value.quotaTimeMs == 0.0);
            var totalFails := total.Some? && (total.value.quota == 0.0 || total.value.quotaTimeMs == 0.0);
            && s'.lastSeen == s.lastSeen
            && (if peersFail || totalFails then answer.Failure? else answer == Success(true))
            && (byPeer.None? || peersFail ==> s'.byPeer == s.byPeer)
            && (total.None? || peersFail || totalFails ==> s'.total == s.total)
            && (byPeer.Some? && !peersFail ==>
                  IsFresh(s.byPeer, s'.byPeer, protocol, byPeer.value, multiplier, now))
            && (total.Some? && !peersFail && !totalFails ==>
                  IsFresh(s.total, s'.total, protocol, total.value, multiplier, now))
  {
    InstalledByNumbers(s.byPeer, protocol, byPeer, multiplier, now);
    InstalledByNumbers(s.total, protocol, total, multiplier, now);
    hide Installed, IsFresh;
  }

  /** A limiter without arrival times, started now, whose bucket holds the scaled quota. */
  ghost predicate IsFresh<Key>(before: map<ProtocolID, Limiter<Key>>, after: map<ProtocolID, Limiter<Key>>,
                               protocol: ProtocolID, q: Quota, multiplier: real, now: real)
  {
    && protocol in after && after == before[protocol := after[protocol]]
    && after[protocol].tats == map[] && after[protocol].startTimeMs == now
    && after[protocol].rate.perBucket == q.quotaTimeMs
    && after[protocol].rate.perToken * (q.quota * multiplier) == q.quotaTimeMs
  }

  lemma InstalledByNumbers<Key>(limiters: map<ProtocolID, Limiter<Key>>, protocol: ProtocolID, q: Option<Quota>,
                                multiplier: real, now: real)
    requires multiplier > 0.0
    ensures var r := Installed(limiters, protocol, q, multiplier, now);
            match q
            case None => r == Success(limiters)
            case Some(quota) =>
              && (r.Failure? <==> quota.quota == 0.0 || quota.quotaTimeMs == 0.0)
              && (r.Success? ==> IsFresh(limiters, r.value, protocol, quota, multiplier, now))
  {
    if q.Some? {
      var scaled := q.value.quota * multiplier;
      assert scaled == 0.0 <==> q.value.quota == 0.0;
      if scaled != 0.0 && q.value.quotaTimeMs != 0.0 {
        var rate := Rate(q.value.quotaTimeMs, q.value.quotaTimeMs / scaled);
        assert rate.perToken * scaled == q.value.quotaTimeMs;
        InstalledFresh(limiters, protocol, q.value, multiplier, now, rate);
        assert q == Some(q.value);
      }
    }
  }
}
