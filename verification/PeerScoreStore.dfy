/** The scores of all peers: `PeerRpcScoreStore` and `updateGossipsubScores` of
    packages/node/src/network/peers/score.ts, and `pruneSetToMax` of packages/utils/src/map.ts. */
module PeerScoreStores {
  import opened PeerScores
  import opened Sorting

  const MAX_ENTRIES := 1000
  const SCORE_THRESHOLD := 1.0
  const NEGATIVE_GOSSIP_SCORE_IGNORE_THRESHOLD := -1000.0

  /** The score map, with the peers in the order in which they were first seen. */
  datatype Table = Table(peers: seq<string>, stats: map<string, Stat>)

  ghost predicate NoDuplicates(peers: seq<string>) {
    forall i, j :: 0 <= i < j < |peers| ==> peers[i] != peers[j]
  }

  ghost predicate TableOk(t: Table) {
    NoDuplicates(t.peers) && forall p :: p in t.peers <==> p in t.stats
  }

  function NewStat(now: real): Stat {
    Stat(DEFAULT_SCORE, DEFAULT_SCORE, false, DEFAULT_SCORE, now)
  }

  function StatOf(t: Table, peer: string, now: real): Stat {
    if peer in t.stats then t.stats[peer] else NewStat(now)
  }

  function StateOf(t: Table, peer: string): ScoreState {
    ScoreToState(if peer in t.stats then t.stats[peer].score else DEFAULT_SCORE)
  }

  function With(t: Table, peer: string, s: Stat): Table {
    Table(if peer in t.stats then t.peers else t.peers + [peer], t.stats[peer := s])
  }

  /** One event for one peer, which is entered first if need be. */
  function Recorded(t: Table, peer: string, e: Event): Table {
    With(t, peer, After(StatOf(t, peer, e.now), e))
  }

  lemma WithTwice(t: Table, peer: string, a: Stat, b: Stat)
    ensures With(With(t, peer, a), peer, b) == With(t, peer, b)
  {
  }

  // ----- The periodic update -----

  /** The peers left when the first ones beyond the limit have been dropped. */
  function Pruned(peers: seq<string>, maxItems: int): (r: seq<string>)
    ensures maxItems >= 0 ==> |r| <= maxItems
  {
    if |peers| <= maxItems then peers else if maxItems <= 0 then [] else peers[|peers| - maxItems..]
  }

  /** The newest peers are left, as many as the limit says and none if it is negative. */
  lemma PrunedAreNewest(peers: seq<string>, maxItems: int)
    ensures |Pruned(peers, maxItems)| == if maxItems < 0 then 0 else if |peers| < maxItems then |peers| else maxItems
    ensures Pruned(peers, maxItems) == peers[|peers| - |Pruned(peers, maxItems)|..]
  {
  }

  /** A stat after its update; `decay` gives the factor for an elapsed time. */
  function Decayed(s: Stat, decay: real -> real, now: real): Stat {
    After(s, Update(decay(now - s.lastUpdate), now))
  }

  function Abs(x: real): real {
    if x < 0.0 then -x else x
  }

  predicate Matters(s: Stat) {
    Abs(s.skandhaScore) >= SCORE_THRESHOLD
  }

  /** The peers whose updated score still matters. */
  function Swept(peers: seq<string>, stats: map<string, Stat>, decay: real -> real, now: real): (r: seq<string>)
    ensures |r| <= |peers|
    ensures forall p :: p in r <==> p in peers && p in stats && Matters(Decayed(stats[p], decay, now))
  {
    if peers == [] then []
    else
      var init, last := Swept(peers[..|peers| - 1], stats, decay, now), peers[|peers| - 1];
      assert peers == peers[..|peers| - 1] + [last];
      if last in stats && Matters(Decayed(stats[last], decay, now)) then init + [last] else init
  }

  function SweptTable(t: Table, decay: real -> real, now: real): Table {
    var kept := Swept(t.peers, t.stats, decay, now);
    Table(kept, map p | p in kept :: Decayed(t.stats[p], decay, now))
  }

  function PrunedTable(t: Table): Table {
    var kept := Pruned(t.peers, MAX_ENTRIES);
    Table(kept, map p | p in t.stats && p in kept :: t.stats[p])
  }

  function Updated(t: Table, decay: real -> real, now: real): Table {
    SweptTable(PrunedTable(t), decay, now)
  }

  lemma {:induction false} SweptIsDistinct(peers: seq<string>, stats: map<string, Stat>, decay: real -> real, now: real)
    requires NoDuplicates(peers)
    ensures NoDuplicates(Swept(peers, stats, decay, now))
  {
    if peers == [] {
    } else {
      var init, last := peers[..|peers| - 1], peers[|peers| - 1];
      SweptIsDistinct(init, stats, decay, now);
      assert last !in init by {
        assert forall i :: 0 <= i < |init| ==> init[i] != last;
      }
    }
  }

  lemma PrunedOnly(t: Table, t': Table)
    requires TableOk(t) && TableOk(t') && t'.peers == Pruned(t.peers, MAX_ENTRIES)
    requires forall p <- t'.stats :: p in t.stats && t'.stats[p] == t.stats[p]
    ensures t' == PrunedTable(t)
  {
    assert forall p <- Pruned(t.peers, MAX_ENTRIES) :: p in t.peers;
    assert t'.stats == PrunedTable(t).stats;
  }

  lemma PrunedTableIsOk(t: Table)
    requires TableOk(t)
    ensures TableOk(PrunedTable(t)) && |PrunedTable(t).peers| <= MAX_ENTRIES
  {
    assert forall p <- Pruned(t.peers, MAX_ENTRIES) :: p in t.peers;
  }

  /** The update leaves at most a thousand peers, each with a skandha score one point or more away from zero. */
  lemma UpdateBoundsTable(t: Table, decay: real -> real, now: real)
    requires TableOk(t)
    ensures var t' := Updated(t, decay, now);
            && TableOk(t') && |t'.peers| <= 1000
            && forall p <- t'.stats :: t'.stats[p].skandhaScore <= -1.0 || t'.stats[p].skandhaScore >= 1.0
  {
    PrunedTableIsOk(t);
    SweptIsDistinct(Pruned(t.peers, MAX_ENTRIES), PrunedTable(t).stats, decay, now);
  }

  /** A peer is among the newest thousand. */
  ghost predicate Recent(t: Table, peer: string) {
    exists i :: 0 <= i < |t.peers| <= i + 1000 && t.peers[i] == peer
  }

  lemma PrunedAreRecent(t: Table, peer: string)
    ensures peer in Pruned(t.peers, MAX_ENTRIES) <==> Recent(t, peer)
  {
    PrunedAreNewest(t.peers, MAX_ENTRIES);
    var kept := Pruned(t.peers, MAX_ENTRIES);
    var n := |t.peers| - |kept|;
    hide Pruned;
    if peer in kept {
      var j :| 0 <= j < |kept| && kept[j] == peer;
      assert t.peers[n + j] == peer;
    }
    if Recent(t, peer) {
      var i :| 0 <= i < |t.peers| <= i + 1000 && t.peers[i] == peer;
      assert i >= n && kept[i - n] == peer;
    }
  }

  /** A peer is kept by an update exactly when it is among the newest thousand and its skandha score, decayed for
      the time since its last update, is one point or more away from zero. */
  lemma KeptExactlyWhen(t: Table, peer: string, decay: real -> real, now: real)
    requires TableOk(t) && peer in t.stats
    ensures var s, t' := t.stats[peer], Updated(t, decay, now);
            var points := if s.lastUpdate < now then s.skandhaScore * decay(now - s.lastUpdate) else s.skandhaScore;
            && (peer in t'.stats <==> Recent(t, peer) && (points <= -1.0 || points >= 1.0))
            && (peer in t'.stats ==> t'.stats[peer].skandhaScore == points)
  {
    hide Recent, Updated, Decayed, Matters;
    PrunedAreRecent(t, peer);
    KeptInTable(t, peer, decay, now);
    PointsDecide(t.stats[peer], decay, now);
  }

  lemma KeptInTable(t: Table, peer: string, decay: real -> real, now: real)
    requires TableOk(t) && peer in t.stats
    ensures var s, t' := Decayed(t.stats[peer], decay, now), Updated(t, decay, now);
            && (peer in t'.stats <==> peer in Pruned(t.peers, MAX_ENTRIES) && Matters(s))
            && (peer in t'.stats ==> t'.stats[peer] == s)
  {
    hide Pruned, Decayed, Matters;
  }

  lemma PointsDecide(s: Stat, decay: real -> real, now: real)
    ensures var points := if s.lastUpdate < now then s.skandhaScore * decay(now - s.lastUpdate) else s.skandhaScore;
            && (Matters(Decayed(s, decay, now)) <==> points <= -1.0 || points >= 1.0)
            && Decayed(s, decay, now).skandhaScore == points
  {
    DecayIsTimed(s, decay(now - s.lastUpdate), now);
    hide After, Recomputed;
  }

  /** What is kept stays in order. */
  lemma {:induction false} SweptOfAppend(a: seq<string>, b: seq<string>, stats: map<string, Stat>,
                                         decay: real -> real, now: real)
    ensures Swept(a + b, stats, decay, now) == Swept(a, stats, decay, now) + Swept(b, stats, decay, now)
    decreases |b|
  {
    hide Matters, Decayed;
    if b == [] {
      assert a + b == a;
    } else {
      var init, last := b[..|b| - 1], b[|b| - 1];
      SweptOfAppend(a, init, stats, decay, now);
      assert a + b == (a + init) + [last];
    }
  }

  /** A peer that was not known starts with a clean score, and is entered behind all others. */
  lemma UnknownPeerStartsNeutral(t: Table, peer: string, e: Event)
    requires peer !in t.stats
    ensures StateOf(t, peer) == Healthy
    ensures Recorded(t, peer, e)
         == Table(t.peers + [peer], t.stats[peer := After(Stat(0.0, 0.0, false, 0.0, e.now), e)])
  {
  }

  /** A locked-out peer is still banned after an update exactly when it is not among the oldest peers
      beyond the limit and its skandha score alone is one point or more away from zero. */
  lemma BanSurvivesUpdateExactlyWhen(t: Table, peer: string, decay: real -> real, now: real, until: real)
    requires TableOk(t) && peer in t.stats && LockedOut(t.stats[peer], until) && now < until
    ensures StateOf(Updated(t, decay, now), peer) == Banned
            <==> Recent(t, peer) && (t.stats[peer].skandhaScore <= -1.0 || t.stats[peer].skandhaScore >= 1.0)
  {
    PrunedAreRecent(t, peer);
    hide Recent;
    assert Decayed(t.stats[peer], decay, now) == t.stats[peer];
  }

  // ----- The update, peer by peer -----

  function Dropped(t: Table, k: nat): Table
    requires k < |t.peers|
  {
    Table(t.peers[..k] + t.peers[k + 1..], t.stats - {t.peers[k]})
  }

  /** The update of the peer at position `k`. */
  function Visited(t: Table, k: nat, decay: real -> real, now: real): Table
    requires k < |t.peers| && t.peers[k] in t.stats
  {
    var s := Decayed(t.stats[t.peers[k]], decay, now);
    if Matters(s) then With(t, t.peers[k], s) else Dropped(t, k)
  }

  lemma DroppedAnyway(t: Table, k: nat, s: Stat)
    requires TableOk(t) && k < |t.peers|
    ensures t.peers[k] in t.stats && Dropped(With(t, t.peers[k], s), k) == Dropped(t, k)
  {
    assert t.peers[k] in t.peers;
    assert t.stats[t.peers[k] := s] - {t.peers[k]} == t.stats - {t.peers[k]};
  }

  /** The peers the sweep has kept so far, and those it has yet to decide about. */
  ghost predicate PeersSoFar(t: Table, k: nat, t0: Table, i: nat, decay: real -> real, now: real) {
    && k <= |t.peers| && i <= |t0.peers| && (forall p <- t0.peers :: p in t0.stats)
    && t.peers[..k] == Swept(t0.peers[..i], t0.stats, decay, now) && t.peers[k..] == t0.peers[i..]
  }

  /** The first `k` scores have been updated. */
  ghost predicate StatsSoFar(t: Table, k: nat, t0: Table, decay: real -> real, now: real) {
    forall j :: 0 <= j < |t.peers| ==>
      && t.peers[j] in t0.stats && t.peers[j] in t.stats
      && t.stats[t.peers[j]] == if j < k then Decayed(t0.stats[t.peers[j]], decay, now) else t0.stats[t.peers[j]]
  }

  /** The sweep has decided about the first `i` of the peers it started with and kept `k` of them. */
  ghost predicate Sweeping(t: Table, k: nat, t0: Table, i: nat, decay: real -> real, now: real) {
    TableOk(t0) && TableOk(t) && PeersSoFar(t, k, t0, i, decay, now) && StatsSoFar(t, k, t0, decay, now)
  }

  lemma DroppedIsOk(t: Table, k: nat)
    requires TableOk(t) && k < |t.peers|
    ensures TableOk(Dropped(t, k))
  {
    var before, after := t.peers, Dropped(t, k).peers;
    forall i, j | 0 <= i < j < |after| ensures after[i] != after[j] {
      assert before[if i < k then i else i + 1] != before[if j < k then j else j + 1];
    }
    forall p ensures p in after <==> p in before && p != before[k] {
      if p in before && p != before[k] {
        var i :| 0 <= i < |before| && before[i] == p;
        assert after[if i < k then i else i - 1] == p;
      }
      if p in after {
        var i :| 0 <= i < |after| && after[i] == p;
        assert before[if i < k then i else i + 1] == p;
      }
    }
  }

  lemma SweptOneMore(t: Table, i: nat, decay: real -> real, now: real)
    requires TableOk(t) && i < |t.peers|
    ensures Swept(t.peers[..i + 1], t.stats, decay, now)
         == Swept(t.peers[..i], t.stats, decay, now)
            + if Matters(Decayed(t.stats[t.peers[i]], decay, now)) then [t.peers[i]] else []
  {
    assert t.peers[..i + 1][..i] == t.peers[..i] && t.peers[i] in t.peers;
  }

  lemma SweepKeeps(t: Table, k: nat, t0: Table, i: nat, decay: real -> real, now: real)
    requires Sweeping(t, k, t0, i, decay, now) && k < |t.peers|
    requires Matters(Decayed(t.stats[t.peers[k]], decay, now))
    ensures Sweeping(Visited(t, k, decay, now), k + 1, t0, i + 1, decay, now)
  {
    var s := Decayed(t.stats[t.peers[k]], decay, now);
    WithKnownPeer(t, k, s);
    PeersKept(t, k, t0, i, decay, now);
    StatsKept(t, k, t0, decay, now);
    hide TableOk, PeersSoFar, StatsSoFar, Decayed, Matters;
    assert Visited(t, k, decay, now) == With(t, t.peers[k], s);
  }

  lemma PeersKept(t: Table, k: nat, t0: Table, i: nat, decay: real -> real, now: real)
    requires TableOk(t0) && PeersSoFar(t, k, t0, i, decay, now) && StatsSoFar(t, k, t0, decay, now)
    requires k < |t.peers| && Matters(Decayed(t.stats[t.peers[k]], decay, now))
    ensures PeersSoFar(With(t, t.peers[k], Decayed(t.stats[t.peers[k]], decay, now)), k + 1, t0, i + 1, decay, now)
  {
    hide Swept, Decayed, Matters;
    assert t.peers[k] == t.peers[k..][0] == t0.peers[i];
    SweptOneMore(t0, i, decay, now);
    assert t.peers[..k + 1] == t.peers[..k] + [t.peers[k]];
    assert t.peers[k + 1..] == t.peers[k..][1..];
  }

  lemma StatsKept(t: Table, k: nat, t0: Table, decay: real -> real, now: real)
    requires TableOk(t) && StatsSoFar(t, k, t0, decay, now) && k < |t.peers|
    ensures StatsSoFar(With(t, t.peers[k], Decayed(t.stats[t.peers[k]], decay, now)), k + 1, t0, decay, now)
  {
    hide Decayed;
    WithKnownPeer(t, k, Decayed(t.stats[t.peers[k]], decay, now));
  }

  /** Changing the score of a known peer changes nothing else. */
  lemma WithKnownPeer(t: Table, k: nat, s: Stat)
    requires TableOk(t) && k < |t.peers|
    ensures t.peers[k] in t.stats && TableOk(With(t, t.peers[k], s)) && With(t, t.peers[k], s).peers == t.peers
    ensures forall j :: 0 <= j < |t.peers| ==>
              && t.peers[j] in t.stats && t.peers[j] in With(t, t.peers[k], s).stats
              && With(t, t.peers[k], s).stats[t.peers[j]] == if j == k then s else t.stats[t.peers[j]]
  {
    assert t.peers[k] in t.peers;
    forall j | 0 <= j < |t.peers| ensures t.peers[j] in t.stats && (j != k ==> t.peers[j] != t.peers[k]) {
      assert t.peers[j] in t.peers;
    }
  }

  lemma DroppedAt(t: Table, k: nat, j: nat)
    requires TableOk(t) && k < |t.peers| && j < |Dropped(t, k).peers|
    ensures var j', t' := if j < k then j else j + 1, Dropped(t, k);
            t'.peers[j] == t.peers[j'] && t'.peers[j] in t'.stats && t'.stats[t'.peers[j]] == t.stats[t.peers[j']]
  {
    var j' := if j < k then j else j + 1;
    assert t.peers[j'] != t.peers[k] && t.peers[j'] in t.peers;
  }

  lemma SweepDrops(t: Table, k: nat, t0: Table, i: nat, decay: real -> real, now: real)
    requires Sweeping(t, k, t0, i, decay, now) && k < |t.peers|
    requires !Matters(Decayed(t.stats[t.peers[k]], decay, now))
    ensures Sweeping(Dropped(t, k), k, t0, i + 1, decay, now)
  {
    DroppedIsOk(t, k);
    PeersDropped(t, k, t0, i, decay, now);
    StatsDropped(t, k, t0, decay, now);
    hide TableOk, PeersSoFar, StatsSoFar;
  }

  lemma PeersDropped(t: Table, k: nat, t0: Table, i: nat, decay: real -> real, now: real)
    requires TableOk(t0) && PeersSoFar(t, k, t0, i, decay, now) && StatsSoFar(t, k, t0, decay, now)
    requires k < |t.peers| && !Matters(Decayed(t.stats[t.peers[k]], decay, now))
    ensures PeersSoFar(Dropped(t, k), k, t0, i + 1, decay, now)
  {
    hide Swept, Decayed, Matters;
    var t' := Dropped(t, k);
    assert t.peers[k] == t.peers[k..][0] == t0.peers[i];
    SweptOneMore(t0, i, decay, now);
    assert t'.peers[..k] == t.peers[..k] && t'.peers[k..] == t.peers[k..][1..];
  }

  lemma StatsDropped(t: Table, k: nat, t0: Table, decay: real -> real, now: real)
    requires TableOk(t) && StatsSoFar(t, k, t0, decay, now) && k < |t.peers|
    ensures StatsSoFar(Dropped(t, k), k, t0, decay, now)
  {
    var t' := Dropped(t, k);
    forall j | 0 <= j < |t'.peers|
      ensures t'.peers[j] in t0.stats && t'.peers[j] in t'.stats
      ensures t'.stats[t'.peers[j]]
              == if j < k then Decayed(t0.stats[t'.peers[j]], decay, now) else t0.stats[t'.peers[j]]
    {
      DroppedAt(t, k, j);
      hide Decayed, TableOk, Dropped;
      assert t.peers[if j < k then j else j + 1] in t0.stats;
    }
  }

  lemma SweepEnds(t: Table, k: nat, t0: Table, i: nat, decay: real -> real, now: real)
    requires Sweeping(t, k, t0, i, decay, now) && k == |t.peers|
    ensures t == SweptTable(t0, decay, now)
  {
    assert i == |t0.peers| && t0.peers[..|t0.peers|] == t0.peers && t.peers[..|t.peers|] == t.peers;
  }

  lemma {:induction false} SweptOfSameStats(peers: seq<string>, s: map<string, Stat>, s': map<string, Stat>,
                                            decay: real -> real, now: real)
    requires forall p <- peers :: p in s && p in s' && s[p] == s'[p]
    ensures Swept(peers, s, decay, now) == Swept(peers, s', decay, now)
  {
    if peers == [] {
    } else {
      SweptOfSameStats(peers[..|peers| - 1], s, s', decay, now);
    }
  }

  class PeerRpcScoreStore {
    var peers: seq<string>
    var scores: map<string, PeerScore>

    ghost predicate Valid()
      reads this
    {
      && NoDuplicates(peers)
      && (forall p :: p in peers <==> p in scores)
      && (forall p, q :: p in scores && q in scores && p != q ==> scores[p] != scores[q])
    }

    ghost function Contents(): Table
      reads this, scores.Values
    {
      Table(peers, map p | p in scores :: scores[p].GetStat())
    }

    constructor ()
      ensures Valid() && Contents() == Table([], map[])
    {
      peers, scores := [], map[];
    }

    method GetScoreState(peer: string) returns (state: ScoreState)
      requires Valid()
      ensures state == StateOf(Contents(), peer)
    {
      state := ScoreToState(if peer in scores then scores[peer].score else DEFAULT_SCORE);
    }

    method GetOrDefault(peer: string, now: real) returns (s: PeerScore)
      requires Valid()
      modifies this
      ensures Valid() && peer in scores && s == scores[peer]
      ensures Contents() == old(With(Contents(), peer, StatOf(Contents(), peer, now)))
      ensures fresh(scores.Values - old(scores.Values))
    {
      if peer !in scores {
        s := new PeerScore(now);
        peers, scores := peers + [peer], scores[peer := s];
      }
      s := scores[peer];
      assert Contents().stats == old(With(Contents(), peer, StatOf(Contents(), peer, now))).stats;
    }

    /** When only one peer's score object has changed, only that peer's stat has. */
    twostate lemma OneChanged(peer: string)
      requires Valid() && peers == old(peers) && scores == old(scores) && peer in scores
      requires forall p :: p in scores && p != peer ==> scores[p].GetStat() == old(scores[p].GetStat())
      ensures Contents() == With(old(Contents()), peer, scores[peer].GetStat())
    {
      assert Contents().stats == With(old(Contents()), peer, scores[peer].GetStat()).stats;
    }

    method ApplyAction(peer: string, action: PeerAction, now: real)
      requires Valid()
      modifies this, scores.Values
      ensures Valid() && Contents() == Recorded(old(Contents()), peer, Penalty(action, now))
      ensures fresh(scores.Values - old(scores.Values))
    {
      var s := GetOrDefault(peer, now);
      label Found:
      s.Add(action, now);
      OneChanged@Found(peer);
      WithTwice(old(Contents()), peer, old@Found(s.GetStat()), s.GetStat());
    }

    method UpdateGossipsubScore(peer: string, newScore: real, ignore: bool, now: real)
      requires Valid()
      modifies this, scores.Values
      ensures Valid() && Contents() == Recorded(old(Contents()), peer, Gossip(newScore, ignore, now))
      ensures fresh(scores.Values - old(scores.Values))
    {
      var s := GetOrDefault(peer, now);
      label Found:
      s.UpdateGossipsubScore(newScore, ignore, now);
      OneChanged@Found(peer);
      WithTwice(old(Contents()), peer, old@Found(s.GetStat()), s.GetStat());
    }

    /** Drops the peer at position `k`. */
    method Drop(k: nat)
      requires Valid() && k < |peers|
      modifies this
      ensures Valid() && Contents() == Dropped(old(Contents()), k)
      ensures peers == old(peers[..k] + peers[k + 1..]) && scores == old(scores - {peers[k]})
    {
      DroppedIsOk(Contents(), k);
      scores := scores - {peers[k]};
      peers := peers[..k] + peers[k + 1..];
      assert Contents().stats == Dropped(old(Contents()), k).stats;
    }

    /** `pruneSetToMax`: drops the oldest peers beyond the limit. It counts them, except that a negative
        limit is counted in too. */
    method PruneSetToMax(maxItems: int) returns (deletedItems: nat)
      requires Valid()
      modifies this
      ensures Valid() && peers == Pruned(old(peers), maxItems)
      ensures deletedItems == if |old(peers)| > maxItems then |old(peers)| - maxItems else 0
      ensures forall p :: p in scores ==> p in old(scores) && scores[p] == old(scores)[p]
    {
      hide Contents, Dropped, Valid;
      var itemsToDelete := |peers| - maxItems;
      deletedItems := if itemsToDelete > 0 then itemsToDelete else 0;
      ghost var n := 0;
      while itemsToDelete > 0 && peers != []
        invariant n <= |old(peers)| && peers == old(peers)[n..]
        invariant itemsToDelete == |old(peers)| - maxItems - n && (n > 0 ==> itemsToDelete >= 0)
        invariant Valid() && forall p :: p in scores ==> p in old(scores) && scores[p] == old(scores)[p]
      {
        Drop(0);
        n := n + 1;
        itemsToDelete := itemsToDelete - 1;
      }
    }

    /** Updates the score at position `k`. */
    method Refresh(k: nat, decay: real -> real, now: real) returns (newScore: real)
      requires Valid() && k < |peers|
      modifies scores[peers[k]]
      ensures var s := old(Decayed(scores[peers[k]].GetStat(), decay, now));
              Contents() == With(old(Contents()), peers[k], s) && newScore == s.skandhaScore
    {
      var s := scores[peers[k]];
      newScore := s.Update(decay(now - s.lastUpdate), now);
      OneChanged(peers[k]);
    }

    /** The body of the loop over the peers. */
    method Visit(k: nat, decay: real -> real, now: real) returns (kept: bool)
      requires Valid() && k < |peers|
      modifies this, scores[peers[k]]
      ensures kept == old(Matters(Decayed(scores[peers[k]].GetStat(), decay, now)))
      ensures Valid() && Contents() == Visited(old(Contents()), k, decay, now)
      ensures forall p :: p in scores ==> p in old(scores) && scores[p] == old(scores)[p]
    {
      DroppedAnyway(Contents(), k, Decayed(scores[peers[k]].GetStat(), decay, now));
      var newScore := Refresh(k, decay, now);
      kept := Abs(newScore) >= SCORE_THRESHOLD;
      if !kept {
        Drop(k);
      }
    }

    /** One turn of the loop over the peers, which moves past a peer it keeps. */
    method Turn(k: nat, ghost t0: Table, ghost i: nat, decay: real -> real, now: real) returns (k': nat)
      requires Valid() && Sweeping(Contents(), k, t0, i, decay, now) && k < |peers|
      modifies this, scores[peers[k]]
      ensures Valid() && Sweeping(Contents(), k', t0, i + 1, decay, now)
      ensures k' <= |peers| && |peers| - k' < old(|peers|) - k && scores.Values <= old(scores.Values)
    {
      hide Sweeping, Valid, Matters, Decayed;
      ghost var t := Contents();
      var kept := Visit(k, decay, now);
      if kept {
        SweepKeeps(t, k, t0, i, decay, now);
        k' := k + 1;
      } else {
        SweepDrops(t, k, t0, i, decay, now);
        k' := k;
      }
    }

    method Sweep(decay: real -> real, now: real)
      requires Valid()
      modifies this, scores.Values
      ensures Valid() && Contents() == SweptTable(old(Contents()), decay, now)
    {
      ghost var t0, i: nat := Contents(), 0;
      var k: nat := 0;
      assert Sweeping(t0, k, t0, i, decay, now);
      hide Sweeping, Valid, SweptTable;
      while k < |peers|
        invariant Valid() && k <= |peers| && Sweeping(Contents(), k, t0, i, decay, now)
        invariant scores.Values <= old(scores.Values)
        decreases |peers| - k
      {
        k := Turn(k, t0, i, decay, now);
        i := i + 1;
      }
      SweepEnds(Contents(), k, t0, i, decay, now);
    }

    method Prune()
      requires Valid()
      modifies this
      ensures Valid() && Contents() == PrunedTable(old(Contents())) && scores.Values <= old(scores.Values)
    {
      var _ := PruneSetToMax(MAX_ENTRIES);
      PrunedOnly(old(Contents()), Contents());
    }

    method Update(decay: real -> real, now: real)
      requires Valid()
      modifies this, scores.Values
      ensures Valid() && Contents() == Updated(old(Contents()), decay, now)
    {
      Prune();
      Sweep(decay, now);
    }
  }

  // ----- Gossip scores -----

  datatype Report = Report(peer: string, score: real)

  predicate NoWorse(a: Report, b: Report) {
    a.score >= b.score
  }

  predicate Forgivable(score: real) {
    NEGATIVE_GOSSIP_SCORE_IGNORE_THRESHOLD < score < 0.0
  }

  /** How many of the scores could be ignored. */
  function ForgivableCount(reports: seq<Report>): nat {
    if reports == [] then 0
    else ForgivableCount(reports[..|reports| - 1]) + if Forgivable(reports[|reports| - 1].score) then 1 else 0
  }

  /** Whether the negative score at position `i` is ignored: it must be small, and the budget must
      reach beyond the small negative scores before it. */
  predicate Ignored(reports: seq<Report>, i: nat, budget: nat)
    requires i < |reports|
  {
    Forgivable(reports[i].score) && ForgivableCount(reports[..i]) < budget
  }

  function IgnoredCount(reports: seq<Report>, n: nat, budget: nat): nat
    requires n <= |reports|
  {
    if n == 0 then 0 else IgnoredCount(reports, n - 1, budget) + if Ignored(reports, n - 1, budget) then 1 else 0
  }

  /** The table after the first `n` reports. */
  function Reported(t: Table, reports: seq<Report>, n: nat, budget: nat, now: real): Table
    requires n <= |reports|
  {
    if n == 0 then t
    else
      var r := reports[n - 1];
      Recorded(Reported(t, reports, n - 1, budget, now), r.peer, Gossip(r.score, Ignored(reports, n - 1, budget), now))
  }

  function Min(a: nat, b: nat): nat {
    if a < b then a else b
  }

  /** The reports before position `n` with negative scores better than -1000. */
  ghost function SmallNegatives(reports: seq<Report>, n: nat): set<nat> {
    set i: nat | i < n && i < |reports| && -1000.0 < reports[i].score < 0.0
  }

  lemma {:induction false} ForgivableIsSmall(reports: seq<Report>, n: nat)
    requires n <= |reports|
    ensures ForgivableCount(reports[..n]) == |SmallNegatives(reports, n)|
  {
    if n > 0 {
      ForgivableIsSmall(reports, n - 1);
      assert reports[..n][..n - 1] == reports[..n - 1];
      var before, after := SmallNegatives(reports, n - 1), SmallNegatives(reports, n);
      assert after == before + if -1000.0 < reports[n - 1].score < 0.0 then {n - 1} else {};
    }
  }

  /** A negative score is ignored exactly when it is better than -1000 and the budget reaches beyond all such
      scores before it. */
  lemma IgnoredExactlyWhen(reports: seq<Report>, i: nat, budget: nat)
    requires i < |reports|
    ensures Ignored(reports, i, budget)
            <==> -1000.0 < reports[i].score < 0.0 && |SmallNegatives(reports, i)| < budget
  {
    ForgivableIsSmall(reports, i);
  }

  /** Exactly as many scores are ignored as the budget allows, if there are that many to ignore. */
  lemma {:induction false} BudgetIsSpent(reports: seq<Report>, n: nat, budget: nat)
    requires n <= |reports|
    ensures var small := |SmallNegatives(reports, n)|;
            IgnoredCount(reports, n, budget) == if small < budget then small else budget
  {
    ForgivableIsSmall(reports, n);
    if n == 0 {
      assert ForgivableCount(reports[..n]) == 0;
    } else {
      BudgetIsSpent(reports, n - 1, budget);
      ForgivableIsSmall(reports, n - 1);
      assert reports[..n][..n - 1] == reports[..n - 1];
    }
  }

  lemma {:induction false} CountGrows(reports: seq<Report>, m: nat, n: nat)
    requires m <= n <= |reports|
    ensures ForgivableCount(reports[..m]) <= ForgivableCount(reports[..n])
    decreases n
  {
    if m == n {
    } else {
      CountGrows(reports, m, n - 1);
      assert reports[..n][..n - 1] == reports[..n - 1];
    }
  }

  /** The scores that are ignored are the best of those that could be. */
  lemma IgnoredAreBest(reports: seq<Report>, i: nat, j: nat, budget: nat)
    requires InOrder(reports, NoWorse) && i < |reports| && j < |reports|
    requires Ignored(reports, i, budget) && -1000.0 < reports[j].score < 0.0 && !Ignored(reports, j, budget)
    ensures reports[i].score >= reports[j].score
  {
    if j <= i {
      CountGrows(reports, j, i);
      assert false;
    }
    assert NoWorse(reports[i], reports[j]);
  }

  ghost predicate DistinctPeers(reports: seq<Report>) {
    forall i, j :: 0 <= i < j < |reports| ==> reports[i].peer != reports[j].peer
  }

  /** Each peer gets its own score once, with its own verdict, and no other peer is touched. */
  lemma {:induction false} EachPeerIsReportedOnce(t: Table, reports: seq<Report>, n: nat, budget: nat, now: real,
                                                  peer: string)
    requires n <= |reports| && DistinctPeers(reports)
    ensures var s, s' := StatOf(t, peer, now), StatOf(Reported(t, reports, n, budget, now), peer, now);
            && (forall i :: 0 <= i < n && reports[i].peer == peer ==>
                  s' == After(s, Gossip(reports[i].score, Ignored(reports, i, budget), now)))
            && ((forall i :: 0 <= i < n ==> reports[i].peer != peer) ==> s' == s)
  {
    if n == 0 {
    } else {
      hide After, Ignored;
      EachPeerIsReportedOnce(t, reports, n - 1, budget, now, peer);
    }
  }

  /** `updateGossipsubScores`: reports the scores from the best to the worst, and ignores as many small
      negative ones as allowed. */
  method UpdateGossipsubScores(store: PeerRpcScoreStore, gossipsubScores: seq<Report>, toIgnoreNegativePeers: nat,
                               now: real)
    requires store.Valid()
    modifies store, store.scores.Values
    ensures var sorted := Sorted(gossipsubScores, NoWorse);
            store.Valid() && store.Contents()
                == Reported(old(store.Contents()), sorted, |sorted|, toIgnoreNegativePeers, now)
  {
    var sorted := Sorted(gossipsubScores, NoWorse);
    var budget: nat := toIgnoreNegativePeers;
    for i := 0 to |sorted|
      invariant store.Valid() && fresh(store.scores.Values - old(store.scores.Values))
      invariant store.Contents() == Reported(old(store.Contents()), sorted, i, toIgnoreNegativePeers, now)
      invariant budget == toIgnoreNegativePeers - Min(toIgnoreNegativePeers, ForgivableCount(sorted[..i]))
    {
      assert sorted[..i + 1][..i] == sorted[..i];
      var ignore := false;
      if Forgivable(sorted[i].score) && budget > 0 {
        ignore := true;
        budget := budget - 1;
      }
      store.UpdateGossipsubScore(sorted[i].peer, sorted[i].score, ignore, now);
    }
  }

  /** Whatever the order in which the scores come, the method above sees them sorted and complete. */
  lemma ReportsAreSorted(reports: seq<Report>)
    ensures InOrder(Sorted(reports, NoWorse), NoWorse) && multiset(Sorted(reports, NoWorse)) == multiset(reports)
  {
    assert Ordering(NoWorse);
    SortedIsInOrder(reports, NoWorse);
    SortedIsPermutation(reports, NoWorse);
  }
}
