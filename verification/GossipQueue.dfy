/** The bounded queue of packages/node/src/network/processor/gossipQueues.ts. */
module GossipQueues {
  import opened Wrappers
  import opened LinkedLists

  datatype QueueType = FIFO | LIFO

  datatype QueueOpts = QueueOpts(kind: QueueType, maxLength: nat)

  /** What `add` leaves in the queue, and the item it drops. */
  function Added<T>(o: QueueOpts, q: seq<T>, item: T): (seq<T>, Option<T>) {
    if |q| + 1 <= o.maxLength then (q + [item], None)
    else match o.kind
      case FIFO => (q, Some(item))
      case LIFO => if q == [] then ([item], None) else (q[1..] + [item], Some(q[0]))
  }

  /** What `next` leaves in the queue, and the item it serves. */
  function Served<T>(o: QueueOpts, q: seq<T>): (seq<T>, Option<T>) {
    if q == [] then (q, None)
    else match o.kind
      case FIFO => (q[1..], Some(q[0]))
      case LIFO => (q[..|q| - 1], Some(q[|q| - 1]))
  }

  class GossipQueue<T> {
    const opts: QueueOpts
    const list: LinkedList<T>

    /** The list and its nodes. */
    ghost function Repr(): (r: set<object>)
      reads list
      ensures list in r
    {
      {list} + set i | 0 <= i < |list.chain| :: list.chain[i]
    }

    lemma HasListAndNodes(o: object)
      requires o in Repr()
      ensures o is LinkedList<T> || o is Node<T>
    {
    }

    ghost predicate Valid()
      reads list, Repr()
    {
      list.Valid()
    }

    constructor (opts: QueueOpts)
      ensures Valid() && fresh(Repr()) && list.contents == [] && this.opts == opts
    {
      this.opts := opts;
      list := new LinkedList<T>();
    }

    method Clear()
      requires Valid()
      modifies list
      ensures Valid() && Repr() <= old(Repr()) && list.contents == []
    {
      list.Clear();
    }

    method Add(item: T) returns (dropped: Option<T>)
      requires Valid()
      modifies Repr()
      ensures Valid() && fresh(Repr() - old(Repr()))
      ensures (list.contents, dropped) == Added(opts, old(list.contents), item)
    {
      dropped := None;
      if list.length + 1 > opts.maxLength {
        match opts.kind
        case LIFO => dropped := list.Shift();
        case FIFO => return Some(item);
      }
      list.Push(item);
      assert list.contents == Added(opts, old(list.contents), item).0;
    }

    method Next() returns (item: Option<T>)
      requires Valid()
      modifies Repr()
      ensures Valid() && Repr() <= old(Repr())
      ensures (list.contents, item) == Served(opts, old(list.contents))
    {
      match opts.kind
      case LIFO => item := list.Pop();
      case FIFO => item := list.Shift();
    }

    method GetAll() returns (items: seq<T>)
      requires Valid()
      ensures items == list.contents
    {
      items := list.ToArray();
    }
  }

  // ----- Whole runs of a queue -----

  datatype Event<T> = Add(item: T) | Next

  /** The queue after a run, with the items accepted, dropped and served so far, each in order. */
  datatype History<T> = History(queue: seq<T>, accepted: seq<T>, dropped: seq<T>, served: seq<T>)

  function Step<T(==)>(o: QueueOpts, h: History<T>, e: Event<T>): History<T> {
    match e
    case Add(item) =>
      var (q, d) := Added(o, h.queue, item);
      var accepted := if o.kind.FIFO? && d.Some? then h.accepted else h.accepted + [item];
      History(q, accepted, if d.Some? then h.dropped + [d.value] else h.dropped, h.served)
    case Next =>
      var (q, r) := Served(o, h.queue);
      h.(queue := q, served := if r.Some? then h.served + [r.value] else h.served)
  }

  function Play<T(==)>(o: QueueOpts, events: seq<Event<T>>): History<T> {
    if events == [] then History([], [], [], [])
    else Step(o, Play(o, events[..|events| - 1]), events[|events| - 1])
  }

  /** A bounded first-in first-out queue serves what it accepted, in the order it accepted it. */
  lemma {:induction false} FifoKeepsAcceptedOrder<T>(o: QueueOpts, events: seq<Event<T>>)
    requires o.kind.FIFO?
    ensures var h := Play(o, events); h.accepted == h.served + h.queue
  {
    if events == [] {
    } else {
      FifoKeepsAcceptedOrder(o, events[..|events| - 1]);
    }
  }

  /** A full first-in first-out queue refuses exactly the item that arrives, and changes nothing else. */
  lemma FifoRefusesNewest<T>(o: QueueOpts, events: seq<Event<T>>, item: T)
    requires o.kind.FIFO?
    ensures var h, h' := Play(o, events), Play(o, events + [Add(item)]);
            if |h.queue| < o.maxLength then h' == h.(queue := h.queue + [item], accepted := h.accepted + [item])
            else h' == h.(dropped := h.dropped + [item])
  {
    assert (events + [Add(item)])[..|events|] == events;
  }

  /** The unbounded stack that the same events would build. */
  function Stack<T>(events: seq<Event<T>>): seq<T> {
    if events == [] then []
    else
      var s := Stack(events[..|events| - 1]);
      match events[|events| - 1]
      case Add(item) => s + [item]
      case Next => if s == [] then s else s[..|s| - 1]
  }

  ghost predicate IsSuffix<T>(q: seq<T>, s: seq<T>) {
    |q| <= |s| && q == s[|s| - |q|..]
  }

  /** A bounded last-in first-out queue is always the newest part of the unbounded stack: what it
      dropped was the oldest, and whatever it serves is what the stack would have served. */
  lemma {:induction false} LifoKeepsNewest<T>(o: QueueOpts, events: seq<Event<T>>)
    requires o.kind.LIFO?
    ensures IsSuffix(Play(o, events).queue, Stack(events))
  {
    if events == [] {
    } else {
      LifoKeepsNewest(o, events[..|events| - 1]);
      var q, s := Play(o, events[..|events| - 1]).queue, Stack(events[..|events| - 1]);
      match events[|events| - 1]
      case Add(item) => AddKeepsSuffix(o, q, s, item);
      case Next =>
        if q != [] {
          assert q[|q| - 1] == s[|s| - 1] && q[..|q| - 1] == s[..|s| - 1][|s| - |q|..];
        }
    }
  }

  lemma AddKeepsSuffix<T>(o: QueueOpts, q: seq<T>, s: seq<T>, item: T)
    requires IsSuffix(q, s) && o.kind.LIFO?
    ensures IsSuffix(Added(o, q, item).0, s + [item])
  {
    if |q| + 1 <= o.maxLength || q == [] {
      assert q + [item] == (s + [item])[|s| - |q|..];
    } else {
      assert q[1..] + [item] == (s + [item])[|s| - |q| + 1..];
    }
  }

  lemma LifoServesTop<T>(o: QueueOpts, events: seq<Event<T>>)
    requires o.kind.LIFO? && Play(o, events).queue != []
    ensures Stack(events) != []
    ensures Served(o, Play(o, events).queue).1 == Some(Stack(events)[|Stack(events)| - 1])
  {
    LifoKeepsNewest(o, events);
  }

  function Offered<T>(events: seq<Event<T>>): seq<T> {
    if events == [] then []
    else
      var before := Offered(events[..|events| - 1]);
      match events[|events| - 1]
      case Add(item) => before + [item]
      case Next => before
  }

  /** Nothing is lost or made up: every item offered is queued, dropped or served, exactly once. */
  lemma {:induction false} QueueConserves<T>(o: QueueOpts, events: seq<Event<T>>)
    ensures var h := Play(o, events);
            multiset(Offered(events)) == multiset(h.queue) + multiset(h.dropped) + multiset(h.served)
  {
    if events == [] {
    } else {
      var before := events[..|events| - 1];
      QueueConserves(o, before);
      StepConserves(o, Play(o, before), events[|events| - 1]);
    }
  }

  lemma StepConserves<T>(o: QueueOpts, h: History<T>, e: Event<T>)
    ensures var h' := Step(o, h, e);
            multiset(h'.queue) + multiset(h'.dropped) + multiset(h'.served)
            == multiset(h.queue) + multiset(h.dropped) + multiset(h.served)
               + (if e.Add? then multiset{e.item} else multiset{})
  {
    match e
    case Add(item) =>
      AddConserves(o, h.queue, item);
      var (q', d) := Added(o, h.queue, item);
      var h' := Step(o, h, e);
      var gone := if d.Some? then multiset{d.value} else multiset{};
      calc {
        multiset(h'.queue) + multiset(h'.dropped) + multiset(h'.served);
        multiset(q') + (multiset(h.dropped) + gone) + multiset(h.served);
        (multiset(q') + gone) + multiset(h.dropped) + multiset(h.served);
        multiset(h.queue) + multiset{item} + multiset(h.dropped) + multiset(h.served);
      }
    case Next => NextConserves(o, h.queue);
  }

  lemma AddConserves<T>(o: QueueOpts, q: seq<T>, item: T)
    ensures var (q', d) := Added(o, q, item);
            multiset(q') + (if d.Some? then multiset{d.value} else multiset{}) == multiset(q) + multiset{item}
  {
    if q != [] {
      assert q == [q[0]] + q[1..];
    }
  }

  lemma NextConserves<T>(o: QueueOpts, q: seq<T>)
    ensures var (q', r) := Served(o, q);
            multiset(q') + (if r.Some? then multiset{r.value} else multiset{}) == multiset(q)
  {
    if q != [] {
      assert q == [q[0]] + q[1..];
      assert q == q[..|q| - 1] + [q[|q| - 1]];
    }
  }

  lemma {:induction false} QueueStaysBounded<T>(o: QueueOpts, events: seq<Event<T>>)
    requires o.kind.FIFO? || o.maxLength >= 1
    ensures |Play(o, events).queue| <= o.maxLength
  {
    if events == [] {
    } else {
      QueueStaysBounded(o, events[..|events| - 1]);
    }
  }

  /** The length bound holds in every run exactly when the queue is not a LIFO of capacity zero:
      there `shift` finds nothing to drop and the item is pushed all the same. */
  lemma BoundHoldsExactlyWhen<T(!new)>(o: QueueOpts, item: T)
    ensures (forall events: seq<Event<T>> :: |Play(o, events).queue| <= o.maxLength)
            <==> (o.kind.FIFO? || o.maxLength >= 1)
  {
    if o.kind.FIFO? || o.maxLength >= 1 {
      forall events: seq<Event<T>> ensures |Play(o, events).queue| <= o.maxLength {
        QueueStaysBounded(o, events);
      }
    } else {
      var one: seq<Event<T>> := [Add(item)];
      assert one[..0] == [];
      assert |Play(o, one).queue| == 1;
    }
  }
}
