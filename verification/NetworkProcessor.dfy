/** The gossip scheduler of packages/node/src/network/processor/index.ts. */
module NetworkProcessors {
  import opened Wrappers
  import opened GossipQueues

  const MAX_JOBS_SUBMITTED_PER_TICK := 128

  /** `user_operation` is the only `GossipType` today; the scheduler is written for any number. */
  datatype Topic = UserOperation | Other(name: string)

  /** `order` lists the topics in the order they are served; `limit` is `maxGossipTopicConcurrency`. */
  datatype Config = Config(order: seq<Topic>, opts: map<Topic, QueueOpts>, limit: Option<int>) {
    ghost predicate Valid() {
      forall t <- order :: t in opts
    }
  }

  /** One topic: its queue and its concurrency counter, beside a ledger of what became of every
      message received on it. */
  datatype Lane<M> = Lane(queue: seq<M>, running: int, inFlight: multiset<M>,
                          received: multiset<M>, dropped: multiset<M>, finished: multiset<M>)

  type Lanes<M> = map<Topic, Lane<M>>

  ghost predicate Fits<M>(c: Config, lanes: Lanes<M>) {
    c.Valid() && forall t <- c.order :: t in lanes
  }

  predicate AtLimit(c: Config, running: int) {
    c.limit.Some? && running > c.limit.value
  }

  predicate Startable<M>(c: Config, l: Lane<M>) {
    !AtLimit(c, l.running) && l.queue != []
  }

  function Started<M>(o: QueueOpts, l: Lane<M>): (Lane<M>, M)
    requires l.queue != []
  {
    var (q, item) := Served(o, l.queue);
    (l.(queue := q, running := l.running + 1, inFlight := l.inFlight + multiset{item.value}), item.value)
  }

  /** The first topic from position `i` on with a job that may start. */
  function FirstStartable<M>(c: Config, lanes: Lanes<M>, i: nat): (j: nat)
    requires Fits(c, lanes) && i <= |c.order|
    ensures i <= j <= |c.order|
    ensures j < |c.order| ==> Startable(c, lanes[c.order[j]])
    ensures forall k :: i <= k < j ==> !Startable(c, lanes[c.order[k]])
    decreases |c.order| - i
  {
    if i == |c.order| || Startable(c, lanes[c.order[i]]) then i
    else FirstStartable(c, lanes, i + 1)
  }

  datatype Job<M> = Job(topic: Topic, message: M)

  /** The next submission, if any topic may start a job: the lanes it leaves, and the job. */
  function Advance<M>(c: Config, lanes: Lanes<M>): Option<(Lanes<M>, Job<M>)>
    requires Fits(c, lanes)
  {
    var j := FirstStartable(c, lanes, 0);
    if j == |c.order| then None
    else
      var t := c.order[j];
      var (l, m) := Started(c.opts[t], lanes[t]);
      Some((lanes[t := l], Job(t, m)))
  }

  /** `executeWork` with `n` submissions left: the lanes it leaves and the jobs it submits, in order. */
  function Work<M>(c: Config, lanes: Lanes<M>, n: nat): (Lanes<M>, seq<Job<M>>)
    requires Fits(c, lanes)
  {
    if n == 0 then (lanes, [])
    else match Advance(c, lanes)
      case None => (lanes, [])
      case Some((next, job)) =>
        var (rest, jobs) := Work(c, next, n - 1);
        (rest, [job] + jobs)
  }

  function Received<M>(o: QueueOpts, l: Lane<M>, m: M): Lane<M> {
    var (q, d) := Added(o, l.queue, m);
    l.(queue := q, received := l.received + multiset{m},
       dropped := l.dropped + if d.Some? then multiset{d.value} else multiset{})
  }

  lemma StartedLane<M>(o: QueueOpts, l: Lane<M>)
    ensures l.queue == [] <==> Served(o, l.queue).1.None?
    ensures l.queue == [] ==> Served(o, l.queue).0 == l.queue
    ensures l.queue != [] ==>
              var (l', m) := Started(o, l);
              l'.queue == Served(o, l.queue).0 && l'.running == l.running + 1 && Some(m) == Served(o, l.queue).1
  {
  }

  lemma ReceivedLane<M>(o: QueueOpts, l: Lane<M>, m: M)
    ensures Received(o, l, m).queue == Added(o, l.queue, m).0 && Received(o, l, m).running == l.running
  {
  }

  function Finished<M>(l: Lane<M>, m: M): Lane<M> {
    l.(running := l.running - 1, inFlight := l.inFlight - multiset{m}, finished := l.finished + multiset{m})
  }

  function Emptied<M>(l: Lane<M>): Lane<M> {
    l.(queue := [], dropped := l.dropped + multiset(l.queue))
  }

  function Dropped<M>(c: Config, lanes: Lanes<M>): Lanes<M> {
    map t | t in lanes :: if t in c.order then Emptied(lanes[t]) else lanes[t]
  }

  /** `createGossipQueues`: an empty queue for every topic. */
  method CreateGossipQueues<M>(opts: map<Topic, QueueOpts>) returns (queues: map<Topic, GossipQueue<M>>)
    ensures queues.Keys == opts.Keys
    ensures forall t <- queues :: queues[t].opts == opts[t] && queues[t].Valid() && queues[t].list.contents == []
    ensures forall t <- queues :: fresh(queues[t].list) && fresh(queues[t].Repr())
    ensures forall t, u :: t in queues && u in queues && t != u ==> queues[t].Repr() !! queues[u].Repr()
  {
    queues := map[];
    var rest := opts.Keys;
    while rest != {}
      invariant rest <= opts.Keys && queues.Keys == opts.Keys - rest
      invariant forall t <- queues :: queues[t].opts == opts[t] && queues[t].Valid() && queues[t].list.contents == []
      invariant forall t <- queues :: fresh(queues[t].list) && fresh(queues[t].Repr())
      invariant forall t, u :: t in queues && u in queues && t != u ==> queues[t].Repr() !! queues[u].Repr()
    {
      var topic :| topic in rest;
      rest := rest - {topic};
      var queue := new GossipQueue<M>(opts[topic]);
      queues := queues[topic := queue];
    }
  }

  class NetworkProcessor<M(==)> {
    const config: Config
    const gossipQueues: map<Topic, GossipQueue<M>>
    var gossipTopicConcurrency: map<Topic, int>
    ghost var lanes: Lanes<M>

    /** The list objects of the queues. */
    ghost function Lists(): set<object> {
      set t | t in gossipQueues :: gossipQueues[t].list
    }

    /** The lists and all their nodes. */
    ghost function Repr(): set<object>
      reads Lists()
    {
      set t, o | t in gossipQueues && o in gossipQueues[t].Repr() :: o
    }

    /** Every topic has a valid queue of its own, and no two queues share an object. */
    ghost predicate Separate()
      reads Lists(), Repr()
    {
      && config.Valid() && gossipQueues.Keys == config.opts.Keys
      && (forall t <- gossipQueues :: gossipQueues[t].opts == config.opts[t] && gossipQueues[t].Valid())
      && (forall t, u :: t in gossipQueues && u in gossipQueues && t != u ==>
          gossipQueues[t].Repr() !! gossipQueues[u].Repr())
    }

    ghost predicate Apart()
      reads Lists(), Repr()
    {
      this !in Lists() && this !in Repr() && Separate()
    }

    /** Queue and counter of a topic are those of the lane. */
    ghost predicate LaneFits(t: Topic, l: Lane<M>)
      reads this, Lists()
    {
      && t in gossipQueues && gossipQueues[t].list.contents == l.queue
      && t in gossipTopicConcurrency && gossipTopicConcurrency[t] == l.running
    }

    ghost predicate Valid()
      reads this, Lists(), Repr()
    {
      Apart() && Fits(config, lanes) && forall t <- config.order :: LaneFits(t, lanes[t])
    }

    /** Brings the ledger up to date with the queue and the counter of a topic. */
    ghost method SetLane(topic: Topic, l: Lane<M>)
      requires Apart() && Fits(config, lanes) && topic in config.order && LaneFits(topic, l)
      requires forall t <- config.order :: t != topic ==> LaneFits(t, lanes[t])
      modifies `lanes
      ensures Valid() && lanes == old(lanes)[topic := l]
    {
      hide Separate, Lists, Repr;
      lanes := lanes[topic := l];
    }

    /** Sets the counter of a topic, and the ledger with it. */
    method SetCounter(topic: Topic, running: int, ghost l: Lane<M>)
      requires Apart() && Fits(config, lanes) && topic in config.order
      requires topic in gossipQueues && gossipQueues[topic].list.contents == l.queue && running == l.running
      requires forall t <- config.order :: t != topic ==> LaneFits(t, lanes[t])
      modifies this
      ensures Valid() && lanes == old(lanes)[topic := l]
    {
      hide Separate, Lists, Repr;
      gossipTopicConcurrency := gossipTopicConcurrency[topic := running];
      SetLane(topic, l);
    }

    lemma PartOf(topic: Topic)
      requires topic in gossipQueues
      ensures gossipQueues[topic].Repr() <= Repr() && gossipQueues[topic].list in Repr()
    {
    }

    lemma OthersAreApart(topic: Topic)
      requires Separate() && topic in gossipQueues
      ensures forall u <- gossipQueues :: u != topic ==> gossipQueues[u].list !in gossipQueues[topic].Repr()
    {
      forall u | u in gossipQueues && u != topic ensures gossipQueues[u].list !in gossipQueues[topic].Repr() {
        assert gossipQueues[u].Repr() !! gossipQueues[topic].Repr();
      }
    }

    /** One queue has changed and has gained only fresh objects; the others are as they were. */
    twostate lemma OneQueueChanged(topic: Topic)
      requires old(Separate()) && topic in gossipQueues && gossipQueues[topic].Valid()
      requires fresh(gossipQueues[topic].Repr() - old(gossipQueues[topic].Repr()))
      requires forall u <- gossipQueues :: u != topic ==>
                 gossipQueues[u].Repr() == old(gossipQueues[u].Repr()) && gossipQueues[u].Valid()
      ensures Separate() && fresh(Repr() - old(Repr()))
      ensures gossipQueues[topic].Repr() <= old(gossipQueues[topic].Repr()) ==> Repr() <= old(Repr())
    {
      hide GossipQueue.Valid;
      forall t, u | t in gossipQueues && u in gossipQueues && t != u
        ensures gossipQueues[t].Repr() !! gossipQueues[u].Repr()
      {
        assert old(gossipQueues[t].Repr()) !! old(gossipQueues[u].Repr());
      }
    }

    /** Takes the next item off the queue of a topic. */
    method NextOf(topic: Topic) returns (item: Option<M>)
      requires Separate() && topic in gossipQueues
      modifies gossipQueues[topic].Repr()
      ensures Separate() && Repr() <= old(Repr())
      ensures (gossipQueues[topic].list.contents, item)
              == Served(config.opts[topic], old(gossipQueues[topic].list.contents))
      ensures forall u <- gossipQueues :: u != topic ==>
              gossipQueues[u].list.contents == old(gossipQueues[u].list.contents)
    {
      OthersAreApart(topic);
      hide GossipQueue.Valid, GossipQueue.Repr, Repr;
      item := gossipQueues[topic].Next();
      OneQueueChanged(topic);
    }

    method AddTo(topic: Topic, m: M) returns (dropped: Option<M>)
      requires Separate() && topic in gossipQueues
      modifies gossipQueues[topic].Repr()
      ensures Separate() && fresh(Repr() - old(Repr()))
      ensures (gossipQueues[topic].list.contents, dropped)
           == Added(config.opts[topic], old(gossipQueues[topic].list.contents), m)
      ensures forall u <- gossipQueues :: u != topic ==>
              gossipQueues[u].list.contents == old(gossipQueues[u].list.contents)
    {
      OthersAreApart(topic);
      hide GossipQueue.Valid, GossipQueue.Repr, Repr;
      dropped := gossipQueues[topic].Add(m);
      OneQueueChanged(topic);
    }

    constructor (config: Config)
      requires config.Valid()
      ensures Valid() && this.config == config && fresh(Repr())
      ensures forall t <- config.order :: lanes[t] == Lane([], 0, multiset{}, multiset{}, multiset{}, multiset{})
    {
      hide GossipQueue.Valid, GossipQueue.Repr;
      var queues := CreateGossipQueues<M>(config.opts);
      this.config := config;
      gossipQueues := queues;
      gossipTopicConcurrency := map t | t in config.opts.Keys :: 0;
      lanes := map t | t in config.opts.Keys :: Lane([], 0, multiset{}, multiset{}, multiset{}, multiset{});
      new;
      forall t | t in gossipQueues ensures this !in gossipQueues[t].Repr() {
        if this in gossipQueues[t].Repr() {
          gossipQueues[t].HasListAndNodes(this);
        }
      }
    }

    /** A message arrives: it is queued, and then work is submitted. */
    method PushPendingGossipsubMessageToQueue(topic: Topic, m: M) returns (jobs: seq<Job<M>>)
      requires Valid() && topic in config.order
      modifies this, Repr()
      ensures Valid() && fresh(Repr() - old(Repr()))
      ensures (lanes, jobs)
           == Work(config, old(lanes)[topic := Received(config.opts[topic], old(lanes)[topic], m)],
                   MAX_JOBS_SUBMITTED_PER_TICK)
    {
      PartOf(topic);
      ReceivedLane(config.opts[topic], lanes[topic], m);
      hide GossipQueue.Valid, GossipQueue.Repr, Repr, Lists, Separate, Added, Received, Work;
      var droppedJob := AddTo(topic, m);
      SetLane(topic, Received(config.opts[topic], lanes[topic], m));
      jobs := ExecuteWork();
    }

    method ExecuteWork() returns (jobs: seq<Job<M>>)
      requires Valid()
      modifies this, Repr()
      ensures Valid() && Repr() <= old(Repr())
      ensures (lanes, jobs) == Work(config, old(lanes), MAX_JOBS_SUBMITTED_PER_TICK)
    {
      hide GossipQueue.Valid, GossipQueue.Repr, Repr, Lists, Separate, Apart, LaneFits, Advance;
      var jobsSubmitted := 0;
      jobs := [];
      ghost var all := Work(config, lanes, MAX_JOBS_SUBMITTED_PER_TICK);
      assert jobs + all.1 == all.1;
      while jobsSubmitted < MAX_JOBS_SUBMITTED_PER_TICK
        invariant 0 <= jobsSubmitted <= MAX_JOBS_SUBMITTED_PER_TICK
        invariant Valid() && Repr() <= old(Repr())
        invariant all.0 == Work(config, lanes, MAX_JOBS_SUBMITTED_PER_TICK - jobsSubmitted).0
        invariant all.1 == jobs + Work(config, lanes, MAX_JOBS_SUBMITTED_PER_TICK - jobsSubmitted).1
      {
        ghost var rest := Work(config, lanes, MAX_JOBS_SUBMITTED_PER_TICK - jobsSubmitted);
        var job := SubmitNext();
        if job.None? {
          break;
        }
        assert jobs + rest.1 == (jobs + [job.value]) + rest.1[1..];
        jobs := jobs + [job.value];
        jobsSubmitted := jobsSubmitted + 1;
      }
      assert Work(config, lanes, MAX_JOBS_SUBMITTED_PER_TICK - jobsSubmitted) == (lanes, []);
      assert jobs + [] == jobs;
    }

    /** One pass of the labelled loop over the topics. */
    method SubmitNext() returns (job: Option<Job<M>>)
      requires Valid()
      modifies this, Repr()
      ensures Valid() && Repr() <= old(Repr())
      ensures match Advance(config, old(lanes))
              case None => job == None && lanes == old(lanes)
              case Some((next, j)) => job == Some(j) && lanes == next
    {
      hide GossipQueue.Valid, GossipQueue.Repr, Repr, Lists, Separate, Apart;
      for i := 0 to |config.order|
        invariant Valid() && Repr() <= old(Repr()) && lanes == old(lanes)
        invariant FirstStartable(config, lanes, 0) == FirstStartable(config, lanes, i)
      {
        var topic := config.order[i];
        if AtLimit(config, gossipTopicConcurrency[topic]) {
          continue;
        }
        var item := SubmitFrom(topic);
        if item.Some? {
          return Some(Job(topic, item.value));
        }
      }
      return None;
    }

    /** Takes the next item off the queue of a topic, if there is one, and counts its job as running. */
    method SubmitFrom(topic: Topic) returns (item: Option<M>)
      requires Valid() && topic in config.order
      modifies this, Repr()
      ensures Valid() && Repr() <= old(Repr())
      ensures item.Some? <==> old(lanes)[topic].queue != []
      ensures item.None? ==> lanes == old(lanes)
      ensures item.Some? ==>
                var (l, m) := Started(config.opts[topic], old(lanes)[topic]);
                item.value == m && lanes == old(lanes)[topic := l]
    {
      PartOf(topic);
      StartedLane(config.opts[topic], lanes[topic]);
      hide GossipQueue.Valid, GossipQueue.Repr, Repr, Lists, Separate, Served, Started;
      item := NextOf(topic);
      CountStarted(topic, item);
    }

    /** Counts a job as running if there is one. */
    method CountStarted(topic: Topic, item: Option<M>)
      requires Apart() && Fits(config, lanes) && topic in config.order && topic in gossipQueues
      requires topic in gossipTopicConcurrency && gossipTopicConcurrency[topic] == lanes[topic].running
      requires gossipQueues[topic].list.contents == Served(config.opts[topic], lanes[topic].queue).0
      requires item == Served(config.opts[topic], lanes[topic].queue).1
      requires forall t <- config.order :: t != topic ==> LaneFits(t, lanes[t])
      modifies this
      ensures Valid()
      ensures lanes == if item.None? then old(lanes)
                       else old(lanes)[topic := Started(config.opts[topic], old(lanes)[topic]).0]
    {
      StartedLane(config.opts[topic], lanes[topic]);
      hide Apart, Served, Started;
      if item.Some? {
        SetCounter(topic, gossipTopicConcurrency[topic] + 1, Started(config.opts[topic], lanes[topic]).0);
      }
    }

    /** The `finally` callback of a job. */
    method JobFinished(topic: Topic, m: M)
      requires Valid() && topic in config.order
      modifies this
      ensures Valid() && lanes == old(lanes)[topic := Finished(old(lanes)[topic], m)]
    {
      hide GossipQueue.Valid, GossipQueue.Repr, Repr, Lists, Separate;
      SetCounter(topic, gossipTopicConcurrency[topic] - 1, Finished(lanes[topic], m));
    }

    /** Clears the queue of one topic. */
    method ClearOf(topic: Topic)
      requires Separate() && topic in gossipQueues
      modifies gossipQueues[topic].list
      ensures Separate() && Repr() <= old(Repr()) && gossipQueues[topic].list.contents == []
      ensures forall u <- gossipQueues :: u != topic ==>
              gossipQueues[u].list.contents == old(gossipQueues[u].list.contents)
    {
      OthersAreApart(topic);
      hide GossipQueue.Valid, GossipQueue.Repr, Repr;
      gossipQueues[topic].Clear();
      OneQueueChanged(topic);
    }

    method DropAllJobs()
      requires Valid()
      modifies this, Repr()
      ensures Valid() && Repr() <= old(Repr()) && lanes == Dropped(config, old(lanes))
    {
      hide GossipQueue.Valid, GossipQueue.Repr, Repr, Lists, Separate;
      for i := 0 to |config.order|
        invariant Separate() && Repr() <= old(Repr())
        invariant this !in Repr() && lanes == old(lanes) && gossipTopicConcurrency == old(gossipTopicConcurrency)
        invariant forall t <- config.order ::
            t in gossipQueues && gossipQueues[t].list.contents == if t in config.order[..i] then [] else lanes[t].queue
      {
        PartOf(config.order[i]);
        ClearOf(config.order[i]);
      }
      assert config.order[..|config.order|] == config.order;
      lanes := Dropped(config, lanes);
    }
  }

  // ----- One call of executeWork -----

  /** Every message received on a topic is dropped, queued, running or finished, exactly once; the
      counter counts the running jobs and never passes the limit by more than one. */
  ghost predicate LaneOk<M>(limit: Option<int>, l: Lane<M>) {
    && l.received == l.dropped + multiset(l.queue) + l.inFlight + l.finished
    && l.running == |l.inFlight|
    && (limit.Some? ==> l.running <= limit.value + 1 || l.running == 0)
  }

  ghost predicate LanesOk<M>(c: Config, lanes: Lanes<M>) {
    Fits(c, lanes) && forall t <- c.order :: LaneOk(c.limit, lanes[t])
  }

  lemma StartKeepsLane<M>(c: Config, o: QueueOpts, l: Lane<M>)
    requires LaneOk(c.limit, l) && Startable(c, l)
    ensures LaneOk(c.limit, Started(o, l).0)
  {
    var (q, item) := Served(o, l.queue);
    NextConserves(o, l.queue);
    calc {
      l.received;
      l.dropped + (multiset(q) + multiset{item.value}) + l.inFlight + l.finished;
      l.dropped + multiset(q) + (l.inFlight + multiset{item.value}) + l.finished;
    }
  }

  lemma UpdateKeepsLanes<M>(c: Config, lanes: Lanes<M>, t: Topic, l: Lane<M>)
    requires LanesOk(c, lanes) && LaneOk(c.limit, l)
    ensures LanesOk(c, lanes[t := l])
  {
    assert lanes[t := l][t] == l;
  }

  lemma AdvanceKeepsLanes<M>(c: Config, lanes: Lanes<M>)
    requires LanesOk(c, lanes) && Advance(c, lanes).Some?
    ensures LanesOk(c, Advance(c, lanes).value.0)
  {
    var t := c.order[FirstStartable(c, lanes, 0)];
    StartKeepsLane(c, c.opts[t], lanes[t]);
    UpdateKeepsLanes(c, lanes, t, Started(c.opts[t], lanes[t]).0);
  }

  lemma {:induction false} WorkKeepsLanes<M>(c: Config, lanes: Lanes<M>, n: nat)
    requires LanesOk(c, lanes)
    ensures LanesOk(c, Work(c, lanes, n).0)
    decreases n
  {
    if n == 0 || Advance(c, lanes).None? {
    } else {
      AdvanceKeepsLanes(c, lanes);
      WorkKeepsLanes(c, Advance(c, lanes).value.0, n - 1);
    }
  }

  /** One call submits at most its allowance, and stops short of it only when nothing may start. */
  lemma {:induction false} WorkIsBoundedAndExhaustive<M>(c: Config, lanes: Lanes<M>, n: nat)
    requires Fits(c, lanes)
    ensures var (after, jobs) := Work(c, lanes, n);
            && |jobs| <= n
            && Fits(c, after)
            && (|jobs| < n ==> forall t <- c.order :: !Startable(c, after[t]))
    decreases n
  {
    if n == 0 || Advance(c, lanes).None? {
    } else {
      WorkIsBoundedAndExhaustive(c, Advance(c, lanes).value.0, n - 1);
    }
  }

  /** The messages a call submits on one topic. */
  function JobsOn<M>(jobs: seq<Job<M>>, t: Topic): seq<M> {
    if jobs == [] then []
    else (if jobs[0].topic == t then [jobs[0].message] else []) + JobsOn(jobs[1..], t)
  }

  lemma AdvanceTakesFirst<M>(c: Config, lanes: Lanes<M>, t: Topic)
    requires Fits(c, lanes) && Advance(c, lanes).Some?
    requires t in c.order && c.opts[t].kind.FIFO?
    ensures var (next, job) := Advance(c, lanes).value;
            && Fits(c, next)
            && lanes[t].queue == (if job.topic == t then [job.message] else []) + next[t].queue
  {
    var j := FirstStartable(c, lanes, 0);
    if c.order[j] == t {
      assert lanes[t].queue == [lanes[t].queue[0]] + lanes[t].queue[1..];
    }
  }

  /** On a first-in first-out topic the jobs submitted are a prefix of its queue, in queue order. */
  lemma {:induction false} WorkKeepsFifoOrder<M>(c: Config, lanes: Lanes<M>, n: nat, t: Topic)
    requires Fits(c, lanes) && t in c.order && c.opts[t].kind.FIFO?
    ensures var (after, jobs) := Work(c, lanes, n);
            t in after && lanes[t].queue == JobsOn(jobs, t) + after[t].queue
    decreases n
  {
    if n == 0 || Advance(c, lanes).None? {
    } else {
      var (next, job) := Advance(c, lanes).value;
      var (after, jobs) := Work(c, next, n - 1);
      AdvanceTakesFirst(c, lanes, t);
      WorkKeepsFifoOrder(c, next, n - 1, t);
      assert ([job] + jobs)[1..] == jobs;
    }
  }

  // ----- Whole runs -----

  datatype Event<M> = Arrive(topic: Topic, message: M) | Finish(topic: Topic, message: M) | DropAll

  function Initial<M>(c: Config): Lanes<M> {
    map t | t in c.opts :: Lane([], 0, multiset{}, multiset{}, multiset{}, multiset{})
  }

  /** Events that can happen: messages arrive on known topics, and only running jobs finish. */
  ghost predicate Possible<M>(c: Config, lanes: Lanes<M>, e: Event<M>) {
    match e
    case Arrive(t, m) => t in c.order
    case Finish(t, m) => t in c.order && t in lanes && m in lanes[t].inFlight
    case DropAll => true
  }

  function After<M>(c: Config, lanes: Lanes<M>, e: Event<M>): Lanes<M>
    requires Fits(c, lanes) && Possible(c, lanes, e)
  {
    match e
    case Arrive(t, m) =>
      Work(c, lanes[t := Received(c.opts[t], lanes[t], m)], MAX_JOBS_SUBMITTED_PER_TICK).0
    case Finish(t, m) => lanes[t := Finished(lanes[t], m)]
    case DropAll => Dropped(c, lanes)
  }

  ghost predicate Reaches<M(!new)>(c: Config, events: seq<Event<M>>, lanes: Lanes<M>) {
    if events == [] then lanes == Initial(c)
    else exists before ::
        && Reaches(c, events[..|events| - 1], before)
        && Fits(c, before) && Possible(c, before, events[|events| - 1])
        && lanes == After(c, before, events[|events| - 1])
  }

  lemma ArrivalKeepsLane<M>(limit: Option<int>, o: QueueOpts, l: Lane<M>, m: M)
    requires LaneOk(limit, l)
    ensures LaneOk(limit, Received(o, l, m))
  {
    var (q, d) := Added(o, l.queue, m);
    var gone := if d.Some? then multiset{d.value} else multiset{};
    AddConserves(o, l.queue, m);
    calc {
      l.received + multiset{m};
      l.dropped + (multiset(l.queue) + multiset{m}) + l.inFlight + l.finished;
      l.dropped + (multiset(q) + gone) + l.inFlight + l.finished;
      (l.dropped + gone) + multiset(q) + l.inFlight + l.finished;
    }
  }

  lemma FinishKeepsLane<M>(limit: Option<int>, l: Lane<M>, m: M)
    requires LaneOk(limit, l) && m in l.inFlight
    ensures LaneOk(limit, Finished(l, m))
  {
    calc {
      l.received;
      { assert l.inFlight == (l.inFlight - multiset{m}) + multiset{m}; }
      l.dropped + multiset(l.queue) + ((l.inFlight - multiset{m}) + multiset{m}) + l.finished;
      l.dropped + multiset(l.queue) + (l.inFlight - multiset{m}) + (l.finished + multiset{m});
    }
  }

  lemma DropKeepsLane<M>(limit: Option<int>, l: Lane<M>)
    requires LaneOk(limit, l)
    ensures LaneOk(limit, Emptied(l))
  {
    assert (l.dropped + multiset(l.queue)) + multiset([]) + l.inFlight + l.finished
        == l.dropped + multiset(l.queue) + l.inFlight + l.finished;
  }

  lemma EventKeepsLanes<M>(c: Config, lanes: Lanes<M>, e: Event<M>)
    requires LanesOk(c, lanes) && Possible(c, lanes, e)
    ensures LanesOk(c, After(c, lanes, e))
  {
    match e
    case Arrive(t, m) =>
      ArrivalKeepsLane(c.limit, c.opts[t], lanes[t], m);
      UpdateKeepsLanes(c, lanes, t, Received(c.opts[t], lanes[t], m));
      WorkKeepsLanes(c, lanes[t := Received(c.opts[t], lanes[t], m)], MAX_JOBS_SUBMITTED_PER_TICK);
    case Finish(t, m) =>
      FinishKeepsLane(c.limit, lanes[t], m);
      UpdateKeepsLanes(c, lanes, t, Finished(lanes[t], m));
    case DropAll =>
      forall t | t in c.order ensures LaneOk(c.limit, Dropped(c, lanes)[t]) {
        DropKeepsLane(c.limit, lanes[t]);
      }
  }

  /** Jobs are conserved and the counters bounded in every state that any run reaches. */
  lemma {:induction false} RunsConserveJobs<M(!new)>(c: Config, events: seq<Event<M>>, lanes: Lanes<M>)
    requires c.Valid() && Reaches(c, events, lanes)
    ensures LanesOk(c, lanes)
    decreases |events|
  {
    if events == [] {
    } else {
      var before, e := events[..|events| - 1], events[|events| - 1];
      var mid :| Reaches(c, before, mid) && Fits(c, mid) && Possible(c, mid, e) && lanes == After(c, mid, e);
      RunsConserveJobs(c, before, mid);
      EventKeepsLanes(c, mid, e);
    }
  }

  ghost predicate AllIdle<M>(c: Config, lanes: Lanes<M>) {
    Fits(c, lanes) && forall t <- c.order :: lanes[t].queue == []
  }

  lemma NoLimitStartsAtOnce<M>(c: Config, lanes: Lanes<M>, t: Topic, m: M)
    requires c.limit.None? && AllIdle(c, lanes) && t in c.order
    ensures AllIdle(c, After(c, lanes, Arrive(t, m)))
  {
    var queued := lanes[t := Received(c.opts[t], lanes[t], m)];
    if Advance(c, queued).Some? {
      var (next, job) := Advance(c, queued).value;
      assert job.topic == t && AllIdle(c, next);
      assert Advance(c, next) == None;
      assert Work(c, next, MAX_JOBS_SUBMITTED_PER_TICK - 1).0 == next;
    }
  }

  /** Without a concurrency limit every queue is empty after every event: nothing ever waits. */
  lemma {:induction false} NoLimitNeverQueues<M(!new)>(c: Config, events: seq<Event<M>>, lanes: Lanes<M>)
    requires c.Valid() && c.limit.None? && Reaches(c, events, lanes)
    ensures AllIdle(c, lanes)
    decreases |events|
  {
    if events == [] {
    } else {
      var before, e := events[..|events| - 1], events[|events| - 1];
      var mid :| Reaches(c, before, mid) && Fits(c, mid) && Possible(c, mid, e) && lanes == After(c, mid, e);
      NoLimitNeverQueues(c, before, mid);
      if e.Arrive? {
        NoLimitStartsAtOnce(c, mid, e.topic, e.message);
      }
    }
  }

  /** Dropping all jobs empties the queue of every topic that is served, into the ledger, and leaves running jobs
      and other topics alone. */
  lemma DropAllByTopic<M>(c: Config, lanes: Lanes<M>, t: Topic)
    requires Fits(c, lanes) && t in lanes
    ensures var after := After(c, lanes, DropAll);
            && after.Keys == lanes.Keys
            && after[t] == if t in c.order then
                             lanes[t].(queue := [], dropped := lanes[t].dropped + multiset(lanes[t].queue))
                           else lanes[t]
  {
  }

  // ----- How far the limit lets jobs run -----

  ghost predicate OthersIdle<M>(c: Config, lanes: Lanes<M>, t: Topic) {
    Fits(c, lanes) && forall u <- c.order :: u != t ==> lanes[u].queue == []
  }

  /** A topic starts a job exactly when it has a message and no limit is set or its running jobs are not more
      than the limit. */
  lemma StartableExactlyWhen<M>(c: Config, l: Lane<M>)
    ensures Startable(c, l) <==> l.queue != [] && (c.limit.Some? ==> l.running <= c.limit.value)
  {
  }

  /** One call of `executeWork` after an arrival submits up to 128 jobs, and fewer only when no topic may start
      another. */
  lemma ArrivalStartsUpTo128<M>(c: Config, lanes: Lanes<M>, t: Topic, m: M) returns (jobs: seq<Job<M>>)
    requires Fits(c, lanes) && t in c.order
    ensures var queued := lanes[t := Received(c.opts[t], lanes[t], m)];
            && Fits(c, queued)
            && (After(c, lanes, Arrive(t, m)), jobs) == Work(c, queued, 128)
            && Fits(c, After(c, lanes, Arrive(t, m)))
            && |jobs| <= 128
            && (|jobs| < 128 ==> forall u <- c.order :: !Startable(c, After(c, lanes, Arrive(t, m))[u]))
  {
    var queued := lanes[t := Received(c.opts[t], lanes[t], m)];
    jobs := Work(c, queued, 128).1;
    WorkIsBoundedAndExhaustive(c, queued, 128);
  }

  /** The only message in the queues starts, and with it the call ends. */
  lemma OnlyMessageStarts<M>(c: Config, lanes: Lanes<M>, t: Topic, m: M)
    requires OthersIdle(c, lanes, t) && t in c.order && lanes[t].queue == [m] && Startable(c, lanes[t])
    ensures Work(c, lanes, MAX_JOBS_SUBMITTED_PER_TICK).0
         == lanes[t := lanes[t].(queue := [], running := lanes[t].running + 1,
                                 inFlight := lanes[t].inFlight + multiset{m})]
  {
    var (next, job) := Advance(c, lanes).value;
    assert job.topic == t;
    assert Advance(c, next) == None;
    assert Work(c, next, MAX_JOBS_SUBMITTED_PER_TICK - 1).0 == next;
  }

  /** Below the limit a message that meets an empty queue starts at once. */
  lemma ArrivalStarts<M>(c: Config, lanes: Lanes<M>, t: Topic, m: M)
    requires AllIdle(c, lanes) && t in c.order && (c.opts[t].maxLength > 0 || c.opts[t].kind.LIFO?)
    requires c.limit.Some? ==> lanes[t].running <= c.limit.value
    ensures var after := After(c, lanes, Arrive(t, m));
            && AllIdle(c, after) && after[t].running == lanes[t].running + 1
            && after[t].inFlight == lanes[t].inFlight + multiset{m}
            && forall u <- c.order :: u != t ==> after[u] == lanes[u]
  {
    hide Work;
    OnlyMessageStarts(c, lanes[t := Received(c.opts[t], lanes[t], m)], t, m);
  }

  /** Beyond the limit it waits, or is dropped, and nothing starts. */
  lemma ArrivalWaits<M>(c: Config, lanes: Lanes<M>, t: Topic, m: M)
    requires OthersIdle(c, lanes, t) && t in c.order && c.limit.Some? && lanes[t].running > c.limit.value
    ensures var after := After(c, lanes, Arrive(t, m));
            && OthersIdle(c, after, t)
            && after[t].running == lanes[t].running && after[t].inFlight == lanes[t].inFlight
            && forall u <- c.order :: u != t ==> after[u] == lanes[u]
  {
    var queued := lanes[t := Received(c.opts[t], lanes[t], m)];
    assert forall u <- c.order :: !Startable(c, queued[u]);
    assert Advance(c, queued) == None;
  }

  ghost predicate AllOn<M>(events: seq<Event<M>>, t: Topic) {
    forall e <- events :: e.Arrive? && e.topic == t
  }

  lemma IdleAtFirst<M(!new)>(c: Config, lanes: Lanes<M>, t: Topic)
    requires c.Valid() && t in c.order && Reaches(c, [], lanes)
    ensures OthersIdle(c, lanes, t) && lanes[t].running == 0 && lanes[t].queue == []
  {
  }

  lemma LastArrival<M(!new)>(c: Config, events: seq<Event<M>>, lanes: Lanes<M>, t: Topic)
    returns (mid: Lanes<M>, m: M)
    requires events != [] && Reaches(c, events, lanes) && AllOn(events, t)
    ensures Reaches(c, events[..|events| - 1], mid) && AllOn(events[..|events| - 1], t)
    ensures Fits(c, mid) && Possible(c, mid, Arrive(t, m)) && lanes == After(c, mid, Arrive(t, m))
  {
    hide After, Fits, Possible;
    var before, e := events[..|events| - 1], events[|events| - 1];
    assert events == before + [e] && e in events;
    mid :| Reaches(c, before, mid) && Fits(c, mid) && Possible(c, mid, e) && lanes == After(c, mid, e);
    m := e.message;
  }

  /** The bound of the limit plus one is reached, and never passed: while messages of one topic arrive and none
      finishes, every message starts a job until there is one more than the limit, and none does after that. */
  lemma {:induction false} LimitIsReached<M(!new)>(c: Config, events: seq<Event<M>>, lanes: Lanes<M>, t: Topic)
    requires c.Valid() && t in c.order && (c.opts[t].maxLength > 0 || c.opts[t].kind.LIFO?)
    requires Reaches(c, events, lanes) && AllOn(events, t)
    ensures OthersIdle(c, lanes, t)
    ensures var n := |events|;
            match c.limit
            case None => lanes[t].running == n && lanes[t].queue == []
            case Some(m) =>
              if n <= m + 1 then lanes[t].running == n && lanes[t].queue == []
              else lanes[t].running == if m < 0 then 0 else m + 1
    decreases |events|
  {
    hide Reaches, After, Startable, AllOn;
    if events == [] {
      IdleAtFirst(c, lanes, t);
    } else {
      var mid, m := LastArrival(c, events, lanes, t);
      LimitIsReached(c, events[..|events| - 1], mid, t);
      if c.limit.Some? && mid[t].running > c.limit.value {
        ArrivalWaits(c, mid, t, m);
      } else {
        ArrivalStarts(c, mid, t, m);
      }
    }
  }
}
