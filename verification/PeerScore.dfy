/** The peer score state machine of packages/node/src/network/peers/score.ts. Scores and times are reals. */
module PeerScores {

  const DEFAULT_SCORE := 0.0
  const MIN_SCORE_BEFORE_DISCONNECT := -20.0
  const MIN_SCORE_BEFORE_BAN := -50.0
  const MAX_SCORE := 100.0
  const MIN_SCORE := -100.0
  const BANNED_BEFORE_DECAY_MS := 1800000.0
  const GRAYLIST_THRESHOLD := -16000.0
  const GOSSIPSUB_SCORE_WEIGHT := (MIN_SCORE_BEFORE_DISCONNECT + 1.0) / GRAYLIST_THRESHOLD

  datatype PeerAction = Fatal | LowToleranceError | MidToleranceError | HighToleranceError

  function PeerActionScore(a: PeerAction): real {
    match a
    case Fatal => -(MAX_SCORE - MIN_SCORE)
    case LowToleranceError => -10.0
    case MidToleranceError => -5.0
    case HighToleranceError => -1.0
  }

  datatype ScoreState = Healthy | Disconnected | Banned

  function ScoreToState(score: real): ScoreState {
    if score <= MIN_SCORE_BEFORE_BAN then Banned
    else if score <= MIN_SCORE_BEFORE_DISCONNECT then Disconnected
    else Healthy
  }

  datatype Stat = Stat(skandhaScore: real, gossipScore: real, ignoreNegativeGossipScore: bool,
                       score: real, lastUpdate: real) {
    function State(): ScoreState {
      ScoreToState(score)
    }
  }

  /** `recomputeScore`: a skandha score in the banned range stands alone. */
  function Total(skandha: real, gossip: real, ignore: bool): real {
    if skandha <= MIN_SCORE_BEFORE_BAN then skandha
    else if gossip >= 0.0 || !ignore then skandha + gossip * GOSSIPSUB_SCORE_WEIGHT
    else skandha
  }

  /** `setSkandhaScore` at time `now`: a fresh ban pushes `lastUpdate` into the future. */
  function WithSkandhaScore(s: Stat, skandha: real, now: real): Stat {
    var score := Total(skandha, s.gossipScore, s.ignoreNegativeGossipScore);
    var banned := s.State() != Banned && ScoreToState(score) == Banned;
    s.(skandhaScore := skandha, score := score,
       lastUpdate := if banned then now + BANNED_BEFORE_DECAY_MS else s.lastUpdate)
  }

  function Clamped(score: real): real {
    if score > MAX_SCORE then MAX_SCORE else if score < MIN_SCORE then MIN_SCORE else score
  }

  /** What can happen to a score. `decay` stands for the exponential of the negated elapsed time. */
  datatype Event =
    | Penalty(action: PeerAction, now: real)
    | Update(decay: real, now: real)
    | Gossip(newScore: real, ignore: bool, now: real)

  function After(s: Stat, e: Event): Stat {
    match e
    case Penalty(action, now) => WithSkandhaScore(s, Clamped(s.skandhaScore + PeerActionScore(action)), now)
    case Update(decay, now) =>
      if now - s.lastUpdate > 0.0 then WithSkandhaScore(s.(lastUpdate := now), s.skandhaScore * decay, now) else s
    case Gossip(newScore, ignore, now) =>
      if s.lastUpdate <= now then s.(gossipScore := newScore, ignoreNegativeGossipScore := ignore) else s
  }

  class PeerScore {
    var skandhaScore: real
    var gossipScore: real
    var ignoreNegativeGossipScore: bool
    var score: real
    var lastUpdate: real

    function GetStat(): Stat
      reads this
    {
      Stat(skandhaScore, gossipScore, ignoreNegativeGossipScore, score, lastUpdate)
    }

    constructor (now: real)
      ensures GetStat() == Stat(DEFAULT_SCORE, DEFAULT_SCORE, false, DEFAULT_SCORE, now)
    {
      skandhaScore, gossipScore, score := DEFAULT_SCORE, DEFAULT_SCORE, DEFAULT_SCORE;
      ignoreNegativeGossipScore := false;
      lastUpdate := now;
    }

    method Add(action: PeerAction, now: real)
      modifies this
      ensures GetStat() == After(old(GetStat()), Penalty(action, now))
    {
      var newScore := skandhaScore + PeerActionScore(action);
      if newScore > MAX_SCORE {
        newScore := MAX_SCORE;
      }
      if newScore < MIN_SCORE {
        newScore := MIN_SCORE;
      }
      SetSkandhaScore(newScore, now);
    }

    method Update(decay: real, now: real) returns (newScore: real)
      modifies this
      ensures GetStat() == After(old(GetStat()), Event.Update(decay, now)) && newScore == skandhaScore
    {
      if now - lastUpdate > 0.0 {
        lastUpdate := now;
        SetSkandhaScore(skandhaScore * decay, now);
      }
      return skandhaScore;
    }

    method UpdateGossipsubScore(newScore: real, ignore: bool, now: real)
      modifies this
      ensures GetStat() == After(old(GetStat()), Gossip(newScore, ignore, now))
    {
      if lastUpdate <= now {
        gossipScore := newScore;
        ignoreNegativeGossipScore := ignore;
      }
    }

    method SetSkandhaScore(newScore: real, now: real)
      modifies this
      ensures GetStat() == WithSkandhaScore(old(GetStat()), newScore, now)
    {
      skandhaScore := newScore;
      var prevState := ScoreToState(score);
      RecomputeScore();
      var newState := ScoreToState(score);
      if prevState != Banned && newState == Banned {
        lastUpdate := now + BANNED_BEFORE_DECAY_MS;
      }
    }

    method RecomputeScore()
      modifies this
      ensures GetStat() == old(GetStat()).(score := Total(skandhaScore, gossipScore, ignoreNegativeGossipScore))
    {
      score := skandhaScore;
      if score <= MIN_SCORE_BEFORE_BAN {
        return;
      }
      if gossipScore >= 0.0 {
        score := score + gossipScore * GOSSIPSUB_SCORE_WEIGHT;
      } else if !ignoreNegativeGossipScore {
        score := score + gossipScore * GOSSIPSUB_SCORE_WEIGHT;
      }
    }
  }

  // ----- Whole runs -----

  /** A run of a new score under a clock that never steps back. */
  ghost predicate Run(start: real, events: seq<Event>, states: seq<Stat>) {
    && |states| == |events| + 1
    && states[0] == Stat(DEFAULT_SCORE, DEFAULT_SCORE, false, DEFAULT_SCORE, start)
    && (forall i :: 0 <= i < |events| ==> states[i + 1] == After(states[i], events[i]))
    && (forall i, j :: 0 <= i <= j < |events| ==> events[i].now <= events[j].now)
    && (forall e <- events :: e.Update? ==> 0.0 < e.decay < 1.0)
  }

  lemma DecayStaysInRange(score: real, decay: real)
    requires MIN_SCORE <= score <= 0.0 && 0.0 < decay < 1.0
    ensures MIN_SCORE <= score * decay <= 0.0
  {
    SignOfProduct(score, decay);
    SignOfProduct(score, 1.0 - decay);
    assert score * (1.0 - decay) == score - score * decay;
  }

  lemma SignOfProduct(a: real, b: real)
    requires a <= 0.0 <= b
    ensures a * b <= 0.0
  {
  }

  /** The skandha score never leaves the range from -100 to 0. */
  lemma {:induction false} SkandhaScoreStaysInRange(start: real, events: seq<Event>, states: seq<Stat>, i: nat)
    requires Run(start, events, states) && i <= |events|
    ensures -100.0 <= states[i].skandhaScore <= 0.0
  {
    if i == 0 {
    } else {
      SkandhaScoreStaysInRange(start, events, states, i - 1);
      if events[i - 1].Update? {
        DecayStaysInRange(states[i - 1].skandhaScore, events[i - 1].decay);
      }
    }
  }

  /** A score that is banned, up to date, and due to decay only after `until`. */
  ghost predicate LockedOut(s: Stat, until: real) {
    && s.State() == Banned
    && s.lastUpdate == until
    && s.score == Total(s.skandhaScore, s.gossipScore, s.ignoreNegativeGossipScore)
    && MIN_SCORE <= s.skandhaScore <= 0.0
  }

  lemma BanningLocksOut(s: Stat, e: Event)
    requires MIN_SCORE <= After(s, e).skandhaScore <= 0.0
    requires s.State() != Banned && After(s, e).State() == Banned
    ensures LockedOut(After(s, e), e.now + BANNED_BEFORE_DECAY_MS)
  {
  }

  lemma LowerSkandhaStaysBanned(skandha: real, lower: real, gossip: real, ignore: bool)
    requires lower <= skandha && ScoreToState(Total(skandha, gossip, ignore)) == Banned
    ensures ScoreToState(Total(lower, gossip, ignore)) == Banned
  {
  }

  lemma LockOutHolds(s: Stat, e: Event, until: real)
    requires LockedOut(s, until) && e.now < until
    ensures LockedOut(After(s, e), until)
  {
    if e.Penalty? {
      LowerSkandhaStaysBanned(s.skandhaScore, Clamped(s.skandhaScore + PeerActionScore(e.action)),
                              s.gossipScore, s.ignoreNegativeGossipScore);
    }
  }

  lemma {:induction false} LockOutLasts(start: real, events: seq<Event>, states: seq<Stat>, i: nat, j: nat)
    requires Run(start, events, states) && i < j <= |events|
    requires states[i].State() != Banned && states[i + 1].State() == Banned
    requires events[j - 1].now < events[i].now + BANNED_BEFORE_DECAY_MS
    ensures LockedOut(states[j], events[i].now + BANNED_BEFORE_DECAY_MS)
    decreases j
  {
    if j == i + 1 {
      SkandhaScoreStaysInRange(start, events, states, i + 1);
      BanningLocksOut(states[i], events[i]);
    } else {
      LockOutLasts(start, events, states, i, j - 1);
      LockOutHolds(states[j - 1], events[j - 1], events[i].now + BANNED_BEFORE_DECAY_MS);
    }
  }

  /** A peer that becomes banned at some time is banned at every time in the next thirty minutes,
      whatever penalties, decays and gossip updates come in between. */
  lemma BansLastThirtyMinutes(start: real, events: seq<Event>, states: seq<Stat>, i: nat, j: nat)
    requires Run(start, events, states) && i < j <= |events|
    requires states[i].State() != Banned && states[i + 1].State() == Banned
    requires events[j - 1].now < events[i].now + 1800000.0
    ensures states[j].score <= -50.0
  {
    LockOutLasts(start, events, states, i, j);
  }

  /** Without penalties, and with gossip scores no worse than the graylist threshold, a peer is
      always healthy. */
  lemma {:induction false} GossipAloneNeverHurts(start: real, events: seq<Event>, states: seq<Stat>, i: nat)
    requires Run(start, events, states) && i <= |events|
    requires forall e <- events :: !e.Penalty? && (e.Gossip? ==> e.newScore >= -16000.0)
    ensures states[i].State() == Healthy
    ensures states[i].skandhaScore == 0.0 && states[i].gossipScore >= -16000.0
  {
    if i == 0 {
    } else {
      GossipAloneNeverHurts(start, events, states, i - 1);
      assert states[i] == After(states[i - 1], events[i - 1]) && events[i - 1] in events;
    }
  }

  // ----- What each event does to the numbers -----

  /** A new total: a skandha score of -50 or less stands alone, and a gossip score counts with nineteen
      parts in sixteen thousand unless it is negative and to be ignored. */
  ghost predicate Recomputed(s: Stat) {
    s.score == s.skandhaScore
               + if s.skandhaScore > -50.0 && (s.gossipScore >= 0.0 || !s.ignoreNegativeGossipScore)
               then 19.0 * s.gossipScore / 16000.0 else 0.0
  }

  /** The time of the last update moves only when a peer falls to -50 that was above before; then it lies
      thirty minutes ahead. */
  ghost predicate BanTimed(before: Stat, after: Stat, lastUpdate: real, now: real) {
    after.lastUpdate == if before.score > -50.0 && after.score <= -50.0 then now + 1800000.0 else lastUpdate
  }

  ghost predicate SameGossip(s: Stat, t: Stat) {
    t.gossipScore == s.gossipScore && t.ignoreNegativeGossipScore == s.ignoreNegativeGossipScore
  }

  lemma PenaltyTakesPoints(s: Stat, action: PeerAction, now: real)
    ensures var t := After(s, Penalty(action, now));
            var points := match action
                case Fatal => 200.0
                case LowToleranceError => 10.0
                case MidToleranceError => 5.0
                case HighToleranceError => 1.0;
            && t.skandhaScore == (if s.skandhaScore - points < -100.0 then -100.0
                                  else if s.skandhaScore - points > 100.0 then 100.0 else s.skandhaScore - points)
            && Recomputed(t) && BanTimed(s, t, s.lastUpdate, now) && SameGossip(s, t)
  {
  }

  /** A score decays, and its total is computed anew, exactly when time has passed since its last update. */
  lemma DecayIsTimed(s: Stat, decay: real, now: real)
    ensures var t := After(s, Update(decay, now));
            if s.lastUpdate < now then
              t.skandhaScore == s.skandhaScore * decay && Recomputed(t) && BanTimed(s, t, now, now) && SameGossip(s, t)
            else t == s
  {
  }

  /** A gossip score is taken down, for later totals, exactly when the last update is not ahead. */
  lemma GossipIsTimed(s: Stat, newScore: real, ignore: bool, now: real)
    ensures var t := After(s, Gossip(newScore, ignore, now));
            if now < s.lastUpdate then t == s
            else && t.gossipScore == newScore && t.ignoreNegativeGossipScore == ignore
                 && t.skandhaScore == s.skandhaScore && t.score == s.score && t.lastUpdate == s.lastUpdate
  {
  }

  lemma StateByScore(s: Stat)
    ensures s.State() == Banned <==> s.score <= -50.0
    ensures s.State() == Disconnected <==> -50.0 < s.score <= -20.0
    ensures s.State() == Healthy <==> s.score > -20.0
  {
  }

  /** A peer without a gossip score that is penalised for the same kind of error over and over. */
  ghost predicate Offences(states: seq<Stat>, action: PeerAction, times: seq<real>) {
    && |states| == |times| + 1
    && states[0].skandhaScore == states[0].gossipScore == states[0].score == 0.0
    && forall i :: 0 <= i < |times| ==> states[i + 1] == After(states[i], Penalty(action, times[i]))
  }

  lemma {:induction false} OffencesAddUp(states: seq<Stat>, action: PeerAction, times: seq<real>, points: real)
    requires Offences(states, action, times)
    requires points == match action
                       case Fatal => 200.0
                       case LowToleranceError => 10.0
                       case MidToleranceError => 5.0
                       case HighToleranceError => 1.0
    ensures var n, last := |times|, states[|times|];
            && last.gossipScore == 0.0 && last.score == last.skandhaScore
            && last.skandhaScore == if n as real * points > 100.0 then -100.0 else -(n as real * points)
  {
    if times == [] {
    } else {
      var n := |times| - 1;
      OffencesAddUp(states[..n + 1], action, times[..n], points);
      assert states[..n + 1][n] == states[n];
      PenaltyTakesPoints(states[n], action, times[n]);
      assert (n + 1) as real * points == n as real * points + points;
    }
  }

  /** A fatal action bans at once; otherwise five, ten or fifty errors of one kind ban a peer, and two,
      four or twenty disconnect it: fewer never do. */
  lemma OffencesUntilBanned(states: seq<Stat>, action: PeerAction, times: seq<real>)
    requires Offences(states, action, times)
    ensures var n, last := |times|, states[|times|];
            match action
            case Fatal => last.State() == if n >= 1 then Banned else Healthy
            case LowToleranceError =>
              last.State() == if n >= 5 then Banned else if n >= 2 then Disconnected else Healthy
            case MidToleranceError =>
              last.State() == if n >= 10 then Banned else if n >= 4 then Disconnected else Healthy
            case HighToleranceError =>
              last.State() == if n >= 50 then Banned else if n >= 20 then Disconnected else Healthy
  {
    OffencesAddUp(states, action, times,
                  match action
                  case Fatal => 200.0
                  case LowToleranceError => 10.0
                  case MidToleranceError => 5.0
                  case HighToleranceError => 1.0);
  }

  /** A gossip score alone takes a peer without penalties out of good standing exactly when it counts and
      is -320000/19 or worse, beyond the graylist threshold of -16000. */
  lemma GossipDisconnectsExactlyWhen(s: Stat, decay: real, now: real)
    requires s.skandhaScore == 0.0 && s.lastUpdate < now
    ensures After(s, Update(decay, now)).State() != Healthy
            <==> !s.ignoreNegativeGossipScore && 19.0 * s.gossipScore <= -320000.0
  {
    DecayIsTimed(s, decay, now);
    assert s.skandhaScore * decay == 0.0;
  }
}
