/** The write-back peer cache of packages/node/src/network/peers/datastore.ts. */
module PeerDatastores {
  import opened Wrappers

  /** `key.toString()`: the printed path of a datastore key, never empty. */
  type Key = s: string | s != "" witness "/"

  datatype MemoryItem<V> = MemoryItem(lastAccessedMs: int, data: V)

  /** Memory, dirty keys and database together. */
  datatype Cache<V> = Cache(memory: map<Key, MemoryItem<V>>, dirty: set<Key>, db: map<Key, V>)

  datatype Config = Config(threshold: int, maxMemoryItems: int) {
    predicate Valid() {
      0 < threshold <= maxMemoryItems
    }
  }

  // ----- What the cache stands for, and what it keeps -----

  /** The plain map the cache stands for: the database, overridden by memory. */
  ghost function Abs<V>(s: Cache<V>): map<Key, V> {
    map k | k in s.memory.Keys + s.db.Keys :: if k in s.memory then s.memory[k].data else s.db[k]
  }

  /** What memory holds and has not marked dirty is in the database, with the same value. */
  ghost predicate Durable<V>(s: Cache<V>) {
    forall k <- s.memory :: k in s.dirty || (k in s.db && s.db[k] == s.memory[k].data)
  }

  ghost predicate Ok<V>(c: Config, s: Cache<V>) {
    c.Valid() && Durable(s) && |s.memory| <= c.maxMemoryItems
  }

  // ----- One step of each kind -----

  ghost predicate LeastRecent<V>(memory: map<Key, MemoryItem<V>>, k: Key) {
    k in memory && forall j <- memory :: memory[k].lastAccessedMs <= memory[j].lastAccessedMs
  }

  ghost function Evicted<V>(s: Cache<V>, k: Key): Cache<V>
    requires k in s.memory
  {
    s.(memory := s.memory - {k}, db := s.db[k := s.memory[k].data])
  }

  /** Room is made only when there is none, by moving one least recently accessed key to the database. */
  ghost predicate MakesRoom<V>(c: Config, s: Cache<V>, victim: Option<Key>) {
    match victim
    case None => |s.memory| < c.maxMemoryItems
    case Some(k) => |s.memory| >= c.maxMemoryItems && LeastRecent(s.memory, k)
  }

  ghost function WithRoom<V>(s: Cache<V>, victim: Option<Key>): Cache<V>
    requires victim.Some? ==> victim.value in s.memory
  {
    match victim
    case None => s
    case Some(k) => Evicted(s, k)
  }

  ghost function Stored<V>(s: Cache<V>, k: Key, v: V, now: int): Cache<V> {
    s.(memory := s.memory[k := MemoryItem(now, v)])
  }

  ghost function Committed<V>(s: Cache<V>): Cache<V> {
    Cache(s.memory, {}, s.db + map k | k in s.dirty && k in s.memory :: s.memory[k].data)
  }

  /** Marks a key dirty, and commits once there are enough dirty keys; a failed commit changes nothing. */
  ghost function Dirtied<V>(c: Config, s: Cache<V>, k: Key, commitWorks: bool): Cache<V> {
    var marked := s.(dirty := s.dirty + {k});
    if |marked.dirty| >= c.threshold && commitWorks then Committed(marked) else marked
  }

  ghost function Deleted<V>(s: Cache<V>, k: Key): Cache<V> {
    s.(memory := s.memory - {k}, db := s.db - {k})
  }

  datatype Op<V> = Put(key: Key, value: V) | Get(key: Key) | Delete(key: Key)

  /** The time of a call, and whether a batch commit attempted during it succeeds. */
  datatype World = World(now: int, commitWorks: bool)

  ghost predicate PutStep<V>(c: Config, s: Cache<V>, k: Key, v: V, w: World, s': Cache<V>) {
    exists victim ::
      MakesRoom(c, s, victim) && s' == Dirtied(c, Stored(WithRoom(s, victim), k, v, w.now), k, w.commitWorks)
  }

  ghost predicate LoadStep<V>(c: Config, s: Cache<V>, k: Key, v: V, w: World, s': Cache<V>) {
    exists victim ::
      MakesRoom(c, s, victim) && s' == Stored(WithRoom(s, victim), k, v, w.now)
  }

  ghost predicate Step<V>(c: Config, s: Cache<V>, op: Op<V>, w: World, s': Cache<V>, answer: Option<V>) {
    match op
    case Put(k, v) => answer == None && PutStep(c, s, k, v, w, s')
    case Get(k) =>
      if k in s.memory then answer == Some(s.memory[k].data) && s' == Stored(s, k, s.memory[k].data, w.now)
      else if k in s.db then answer == Some(s.db[k]) && LoadStep(c, s, k, s.db[k], w, s')
      else answer == None && s' == s
    case Delete(k) => answer == None && s' == Deleted(s, k)
  }

  // ----- When the eviction loop ends -----

  /** The eviction scan finds an item when the clock reads `now`. */
  ghost predicate Findable<V>(memory: map<Key, MemoryItem<V>>, now: int) {
    exists k <- memory :: memory[k].lastAccessedMs < now + 1000
  }

  /** There is room, or room is made on one of the turns that read `clock`. */
  ghost predicate RoomWithin<V>(c: Config, memory: map<Key, MemoryItem<V>>, clock: seq<int>) {
    |memory| < c.maxMemoryItems || exists t <- clock :: Findable(memory, t)
  }

  /** The operation ends within these turns. */
  ghost predicate Ends<V>(c: Config, s: Cache<V>, op: Op<V>, clock: seq<int>) {
    match op
    case Put(_, _) => RoomWithin(c, s.memory, clock)
    case Get(k) => k !in s.memory && k in s.db ==> RoomWithin(c, s.memory, clock)
    case Delete(_) => true
  }

  // ----- The class -----

  class Eth2PeerDataStore<V> {
    const config: Config
    var memoryDatastore: map<Key, MemoryItem<V>>
    var dirtyItems: set<Key>
    var dbDatastore: map<Key, V>

    ghost function State(): Cache<V>
      reads this
    {
      Cache(memoryDatastore, dirtyItems, dbDatastore)
    }

    ghost predicate Valid()
      reads this
    {
      Ok(config, State())
    }

    /** The check the source makes before it builds a datastore. */
    static method Create(db: map<Key, V>, config: Config) returns (r: Result<Eth2PeerDataStore<V>, string>)
      ensures r.Success? <==> config.threshold > 0 && config.maxMemoryItems > 0
                              && config.threshold <= config.maxMemoryItems
      ensures r.Success? ==> fresh(r.value) && r.value.Valid() && r.value.config == config
      ensures r.Success? ==> r.value.State() == Cache(map[], {}, db)
    {
      if config.threshold <= 0 || config.maxMemoryItems <= 0 {
        return Failure("Invalid threshold or maxMemoryItems");
      }
      if config.threshold > config.maxMemoryItems {
        return Failure("Threshold should be at most maxMemoryItems");
      }
      var store := new Eth2PeerDataStore<V>(db, config);
      return Success(store);
    }

    constructor (db: map<Key, V>, config: Config)
      requires config.Valid()
      ensures Valid() && this.config == config && State() == Cache(map[], {}, db)
    {
      this.config := config;
      memoryDatastore, dirtyItems, dbDatastore := map[], {}, db;
    }

    /** `clock` lists what the clock reads on the turns of the eviction loop, one reading a turn, and
        `now` what it reads when the item is stored. `done` is false while the loop is still turning
        after the last reading. */
    method Put(k: Key, v: V, clock: seq<int>, now: int, commitWorks: bool) returns (done: bool)
      requires Valid()
      modifies this
      ensures Valid() && done == RoomWithin(config, old(memoryDatastore), clock)
      ensures if done then Step(config, old(State()), Op.Put(k, v), World(now, commitWorks), State(), None)
              else State() == old(State())
    {
      done := PutItem(k, v, false, clock, now, commitWorks);
    }

    /** `_put`: makes room, stores the item in memory, and marks it dirty unless it came from the database. */
    method PutItem(k: Key, v: V, fromDb: bool, clock: seq<int>, now: int, commitWorks: bool) returns (done: bool)
      requires Valid()
      requires fromDb ==> k !in memoryDatastore && k in dbDatastore && dbDatastore[k] == v
      modifies this
      ensures Valid() && done == RoomWithin(config, old(memoryDatastore), clock)
      ensures !done ==> State() == old(State())
      ensures done && fromDb ==> LoadStep(config, old(State()), k, v, World(now, commitWorks), State())
      ensures done && !fromDb ==> PutStep(config, old(State()), k, v, World(now, commitWorks), State())
    {
      ghost var victim;
      done, victim := MakeRoom(clock);
      if !done {
        return;
      }
      memoryDatastore := memoryDatastore[k := MemoryItem(now, v)];
      assert LoadStep(config, old(State()), k, v, World(now, commitWorks), State());
      if fromDb {
        LoadKeepsOk(config, old(State()), k, World(now, commitWorks), State());
      } else {
        AddDirtyItem(k, commitWorks);
        PutKeepsOk(config, old(State()), k, v, World(now, commitWorks), State());
      }
    }

    /** The `while` loop of `_put`, which reads the clock anew on every turn. A turn evicts an item, and
        is the last, exactly when some item was accessed before its reading plus a second. */
    method MakeRoom(clock: seq<int>) returns (done: bool, ghost victim: Option<Key>)
      requires Valid()
      modifies this
      ensures done == RoomWithin(config, old(memoryDatastore), clock)
      ensures if done then MakesRoom(config, old(State()), victim) && State() == WithRoom(old(State()), victim)
              else State() == old(State())
    {
      victim := None;
      var turn := 0;
      while |memoryDatastore| >= config.maxMemoryItems && turn < |clock|
        invariant turn <= |clock|
        invariant victim.None? ==>
            State() == old(State()) && forall i :: 0 <= i < turn ==> !Findable(memoryDatastore, clock[i])
        invariant victim.Some? ==>
            && |memoryDatastore| < config.maxMemoryItems
            && MakesRoom(config, old(State()), victim) && State() == WithRoom(old(State()), victim)
            && RoomWithin(config, old(memoryDatastore), clock)
      {
        var evicted := PruneMemoryDatastore(clock[turn]);
        victim := evicted;
        if evicted.Some? {
          WithRoomKeepsDurable(config, old(State()), victim);
        }
        turn := turn + 1;
      }
      done := |memoryDatastore| < config.maxMemoryItems;
    }

    /** Moves the oldest memory item to the database; finds none only if the clock went back too far. */
    method PruneMemoryDatastore(now: int) returns (oldestKey: Option<Key>)
      modifies this
      ensures dirtyItems == old(dirtyItems)
      ensures oldestKey.None? ==> State() == old(State())
      ensures oldestKey.Some? <==> Findable(old(memoryDatastore), now)
      ensures oldestKey.Some? ==> LeastRecent(old(memoryDatastore), oldestKey.value)
      ensures oldestKey.Some? ==> State() == Evicted(old(State()), oldestKey.value)
    {
      var oldestAccessedMs := now + 1000;
      oldestKey := None;
      var rest := memoryDatastore.Keys;
      while rest != {}
        invariant rest <= memoryDatastore.Keys && State() == old(State())
        invariant forall k <- memoryDatastore.Keys - rest :: memoryDatastore[k].lastAccessedMs >= oldestAccessedMs
        invariant oldestKey.None? ==> oldestAccessedMs == now + 1000
        invariant oldestKey.Some? ==>
            && oldestKey.value in memoryDatastore
            && memoryDatastore[oldestKey.value].lastAccessedMs == oldestAccessedMs < now + 1000
      {
        var key :| key in rest;
        rest := rest - {key};
        if memoryDatastore[key].lastAccessedMs < oldestAccessedMs {
          oldestAccessedMs := memoryDatastore[key].lastAccessedMs;
          oldestKey := Some(key);
        }
      }
      if oldestKey.Some? {
        dbDatastore := dbDatastore[oldestKey.value := memoryDatastore[oldestKey.value].data];
        memoryDatastore := memoryDatastore - {oldestKey.value};
      }
    }

    method AddDirtyItem(k: Key, commitWorks: bool)
      modifies this
      ensures State() == Dirtied(config, old(State()), k, commitWorks)
    {
      dirtyItems := dirtyItems + {k};
      if |dirtyItems| >= config.threshold && commitWorks {
        CommitData();
      }
    }

    /** A batch commit that goes through. */
    method CommitData()
      modifies this
      ensures State() == Committed(old(State()))
    {
      var batch: map<Key, V> := map[];
      var rest := dirtyItems;
      while rest != {}
        invariant rest <= dirtyItems && State() == old(State())
        invariant batch == map k | k in dirtyItems - rest && k in memoryDatastore :: memoryDatastore[k].data
      {
        var key :| key in rest;
        rest := rest - {key};
        if key in memoryDatastore {
          batch := batch[key := memoryDatastore[key].data];
        }
      }
      assert dirtyItems - {} == dirtyItems;
      dbDatastore := dbDatastore + batch;
      dirtyItems := {};
    }

    method Get(k: Key, clock: seq<int>, now: int, commitWorks: bool) returns (done: bool, answer: Option<V>)
      requires Valid()
      modifies this
      ensures Valid() && done == Ends(config, old(State()), Op.Get(k), clock)
      ensures if done then Step(config, old(State()), Op.Get(k), World(now, commitWorks), State(), answer)
              else State() == old(State())
    {
      if k in memoryDatastore {
        answer := Some(memoryDatastore[k].data);
        memoryDatastore := memoryDatastore[k := MemoryItem(now, memoryDatastore[k].data)];
        return true, answer;
      }
      if k !in dbDatastore {
        return true, None;
      }
      var dbValue := dbDatastore[k];
      done := PutItem(k, dbValue, true, clock, now, commitWorks);
      return done, Some(dbValue);
    }

    method Has(k: Key, clock: seq<int>, now: int, commitWorks: bool) returns (done: bool, found: bool)
      requires Valid()
      modifies this
      ensures Valid() && done == Ends(config, old(State()), Op.Get(k), clock)
      ensures done ==> found == (k in Abs(old(State())))
      ensures if done then exists answer ::
              Step(config, old(State()), Op.Get(k), World(now, commitWorks), State(), answer)
              else State() == old(State())
    {
      var answer;
      done, answer := Get(k, clock, now, commitWorks);
      found := answer.Some?;
    }

    method Delete(k: Key)
      requires Valid()
      modifies this
      ensures forall w :: Step(config, old(State()), Op.Delete(k), w, State(), None)
      ensures Valid()
    {
      memoryDatastore := memoryDatastore - {k};
      dbDatastore := dbDatastore - {k};
    }
  }

  // ----- The steps, field by field -----

  /** Memory has room, or the least recently accessed item `x` has moved from it to the database, marked or not. */
  ghost predicate RoomMade<V>(c: Config, s: Cache<V>, x: Option<Key>, memory: map<Key, MemoryItem<V>>,
                              db: map<Key, V>)
  {
    match x
    case None => |s.memory| < c.maxMemoryItems && memory == s.memory && db == s.db
    case Some(k) =>
      && |s.memory| >= c.maxMemoryItems && k in s.memory
      && (forall j <- s.memory :: s.memory[k].lastAccessedMs <= s.memory[j].lastAccessedMs)
      && memory == s.memory - {k} && db == s.db[k := s.memory[k].data]
  }

  /** A put stores the value in memory with the time and marks its key. Only when there are as many marks as the
      threshold says, and the commit works, does the database get the marked values that are still in memory, and
      all marks go. */
  ghost predicate PutOnto<V>(c: Config, s: Cache<V>, k: Key, v: V, w: World, s': Cache<V>,
                             memory: map<Key, MemoryItem<V>>, db: map<Key, V>)
  {
    && s'.memory == memory[k := MemoryItem(w.now, v)]
    && if |s.dirty + {k}| >= c.threshold && w.commitWorks then
         && s'.dirty == {} && s'.db.Keys == db.Keys + (s.dirty + {k}) * s'.memory.Keys
         && forall j <- s'.db :: s'.db[j] == if j in s.dirty + {k} && j in s'.memory then s'.memory[j].data else db[j]
       else s'.dirty == s.dirty + {k} && s'.db == db
  }

  /** A put makes room and then does that, and nothing else is a put. */
  lemma PutByFields<V>(c: Config, s: Cache<V>, k: Key, v: V, w: World, s': Cache<V>)
    ensures Step(c, s, Put(k, v), w, s', None)
            <==> exists x, memory, db :: RoomMade(c, s, x, memory, db) && PutOnto(c, s, k, v, w, s', memory, db)
  {
    if Step(c, s, Put(k, v), w, s', None) {
      PutHasFields(c, s, k, v, w, s');
    }
    if x, memory, db :| RoomMade(c, s, x, memory, db) && PutOnto(c, s, k, v, w, s', memory, db) {
      FieldsArePut(c, s, k, v, w, s', x, memory, db);
    }
  }

  lemma FieldsArePut<V>(c: Config, s: Cache<V>, k: Key, v: V, w: World, s': Cache<V>, x: Option<Key>,
                        memory: map<Key, MemoryItem<V>>, db: map<Key, V>)
    requires RoomMade(c, s, x, memory, db) && PutOnto(c, s, k, v, w, s', memory, db)
    ensures PutStep(c, s, k, v, w, s')
  {
    assert MakesRoom(c, s, x);
    var room := WithRoom(s, x);
    assert room == Cache(memory, s.dirty, db);
    PutOntoRoom(c, room, k, v, w);
    hide MakesRoom, RoomMade, WithRoom;
    SameMarks(c, room, s, k, v, w, s');
    var t := Dirtied(c, Stored(room, k, v, w.now), k, w.commitWorks);
    OnePut(c, room, k, v, w, s', t);
  }

  lemma OnePut<V>(c: Config, s: Cache<V>, k: Key, v: V, w: World, s': Cache<V>, t: Cache<V>)
    requires PutOnto(c, s, k, v, w, s', s.memory, s.db) && PutOnto(c, s, k, v, w, t, s.memory, s.db)
    ensures s' == t
  {
    assert s'.db.Keys == t.db.Keys && forall j <- s'.db :: s'.db[j] == t.db[j];
    assert s'.db == t.db;
  }

  lemma PutHasFields<V>(c: Config, s: Cache<V>, k: Key, v: V, w: World, s': Cache<V>)
    requires Step(c, s, Put(k, v), w, s', None)
    ensures exists x, memory, db :: RoomMade(c, s, x, memory, db) && PutOnto(c, s, k, v, w, s', memory, db)
  {
    var victim :| MakesRoom(c, s, victim)
               && s' == Dirtied(c, Stored(WithRoom(s, victim), k, v, w.now), k, w.commitWorks);
    var room := WithRoom(s, victim);
    assert RoomMade(c, s, victim, room.memory, room.db);
    hide MakesRoom, RoomMade, PutOnto;
    PutOntoRoom(c, room, k, v, w);
    assert PutOnto(c, s, k, v, w, s', room.memory, room.db) by { SameMarks(c, s, room, k, v, w, s'); }
  }

  lemma PutOntoRoom<V>(c: Config, room: Cache<V>, k: Key, v: V, w: World)
    ensures PutOnto(c, room, k, v, w, Dirtied(c, Stored(room, k, v, w.now), k, w.commitWorks), room.memory, room.db)
  {
    CommitByFields(Stored(room, k, v, w.now).(dirty := room.dirty + {k}));
    hide Committed;
  }

  lemma SameMarks<V>(c: Config, s: Cache<V>, room: Cache<V>, k: Key, v: V, w: World, s': Cache<V>)
    requires room.dirty == s.dirty
    ensures PutOnto(c, room, k, v, w, s', room.memory, room.db) <==> PutOnto(c, s, k, v, w, s', room.memory, room.db)
    ensures PutOnto(c, room, k, v, w, s', s.memory, s.db) <==> PutOnto(c, s, k, v, w, s', s.memory, s.db)
  {
  }

  /** An operation ends within some turns exactly when it needs no room, or there is room, or one of the readings
      lies less than a second before some access. */
  lemma EndsExactlyWhen<V>(c: Config, s: Cache<V>, op: Op<V>, clock: seq<int>)
    ensures Ends(c, s, op, clock)
            <==> || op.Delete?
                 || (op.Get? && (op.key in s.memory || op.key !in s.db))
                 || |s.memory| < c.maxMemoryItems
                 || exists t <- clock, k <- s.memory :: s.memory[k].lastAccessedMs < t + 1000
  {
    if t, k :| t in clock && k in s.memory && s.memory[k].lastAccessedMs < t + 1000 {
      assert Findable(s.memory, t);
    }
  }

  lemma CommitByFields<V>(s: Cache<V>)
    ensures var t := Committed(s);
            && t.memory == s.memory && t.dirty == {} && t.db.Keys == s.db.Keys + s.dirty * s.memory.Keys
            && forall j <- t.db :: t.db[j] == if j in s.dirty && j in s.memory then s.memory[j].data else s.db[j]
  {
  }

  /** A get answers from memory and refreshes the time, or from the database and loads the value back unmarked; a
      delete removes the key from both and leaves its mark. */
  lemma GetAndDeleteByFields<V>(c: Config, s: Cache<V>, op: Op<V>, w: World, s': Cache<V>, answer: Option<V>)
    requires Step(c, s, op, w, s', answer) && !op.Put?
    ensures s'.dirty == s.dirty
    ensures op.Delete? ==> answer == None && s'.memory == s.memory - {op.key} && s'.db == s.db - {op.key}
    ensures op.Get? && op.key in s.memory ==>
              && answer == Some(s.memory[op.key].data) && s'.db == s.db
              && s'.memory == s.memory[op.key := MemoryItem(w.now, s.memory[op.key].data)]
    ensures op.Get? && op.key !in s.memory && op.key !in s.db ==> answer == None && s' == s
    ensures op.Get? && op.key !in s.memory && op.key in s.db ==>
              && answer == Some(s.db[op.key])
              && exists x, memory :: RoomMade(c, s, x, memory, s'.db)
                  && s'.memory == memory[op.key := MemoryItem(w.now, s.db[op.key])]
  {
    if op.Get? && op.key !in s.memory && op.key in s.db {
      var victim :| MakesRoom(c, s, victim) && s' == Stored(WithRoom(s, victim), op.key, s.db[op.key], w.now);
      var room := WithRoom(s, victim);
      assert RoomMade(c, s, victim, room.memory, room.db);
    }
  }

  // ----- The cache behaves as one plain map -----

  function Plain<V>(m: map<Key, V>, op: Op<V>): map<Key, V> {
    match op
    case Put(k, v) => m[k := v]
    case Get(_) => m
    case Delete(k) => m - {k}
  }

  function PlainAnswer<V>(m: map<Key, V>, op: Op<V>): Option<V> {
    if op.Get? && op.key in m then Some(m[op.key]) else None
  }

  function PlainRun<V>(m: map<Key, V>, ops: seq<Op<V>>): map<Key, V> {
    if ops == [] then m else Plain(PlainRun(m, ops[..|ops| - 1]), ops[|ops| - 1])
  }

  /** Eviction leaves the plain map unchanged. */
  lemma EvictionIsInvisible<V>(s: Cache<V>, k: Key)
    requires k in s.memory
    ensures Abs(Evicted(s, k)) == Abs(s)
  {
    var s' := Evicted(s, k);
    assert s'.memory.Keys + s'.db.Keys == s.memory.Keys + s.db.Keys;
  }

  /** So does a batch commit. */
  lemma CommitIsInvisible<V>(s: Cache<V>)
    ensures Abs(Committed(s)) == Abs(s)
  {
    var s' := Committed(s);
    assert s'.memory.Keys + s'.db.Keys == s.memory.Keys + s.db.Keys;
  }

  lemma StoreUpdatesMap<V>(s: Cache<V>, k: Key, v: V, now: int)
    ensures Abs(Stored(s, k, v, now)) == Abs(s)[k := v]
  {
    var s' := Stored(s, k, v, now);
    assert s'.memory.Keys + s'.db.Keys == s.memory.Keys + s.db.Keys + {k};
  }

  lemma DirtyingIsInvisible<V>(c: Config, s: Cache<V>, k: Key, commitWorks: bool)
    ensures Abs(Dirtied(c, s, k, commitWorks)) == Abs(s)
  {
    var marked := s.(dirty := s.dirty + {k});
    assert Abs(marked) == Abs(s);
    CommitIsInvisible(marked);
  }

  lemma WithRoomIsInvisible<V>(c: Config, s: Cache<V>, victim: Option<Key>)
    requires MakesRoom(c, s, victim)
    ensures Abs(WithRoom(s, victim)) == Abs(s)
  {
    if victim.Some? {
      EvictionIsInvisible(s, victim.value);
    }
  }

  lemma DeleteUpdatesMap<V>(s: Cache<V>, k: Key)
    ensures Abs(Deleted(s, k)) == Abs(s) - {k}
  {
    var s' := Deleted(s, k);
    assert s'.memory.Keys + s'.db.Keys == s.memory.Keys + s.db.Keys - {k};
  }

  lemma LoadRefinesMap<V>(c: Config, s: Cache<V>, k: Key, v: V, w: World, s': Cache<V>)
    requires LoadStep(c, s, k, v, w, s')
    ensures Abs(s') == Abs(s)[k := v]
  {
    var victim :| MakesRoom(c, s, victim) && s' == Stored(WithRoom(s, victim), k, v, w.now);
    WithRoomIsInvisible(c, s, victim);
    StoreUpdatesMap(WithRoom(s, victim), k, v, w.now);
  }

  lemma PutRefinesMap<V>(c: Config, s: Cache<V>, k: Key, v: V, w: World, s': Cache<V>)
    requires PutStep(c, s, k, v, w, s')
    ensures Abs(s') == Abs(s)[k := v]
  {
    var victim :| MakesRoom(c, s, victim)
               && s' == Dirtied(c, Stored(WithRoom(s, victim), k, v, w.now), k, w.commitWorks);
    var t := Stored(WithRoom(s, victim), k, v, w.now);
    LoadRefinesMap(c, s, k, v, w, t);
    DirtyingIsInvisible(c, t, k, w.commitWorks);
  }

  lemma StepRefinesMap<V>(c: Config, s: Cache<V>, op: Op<V>, w: World, s': Cache<V>, answer: Option<V>)
    requires Step(c, s, op, w, s', answer)
    ensures Abs(s') == Plain(Abs(s), op) && answer == PlainAnswer(Abs(s), op)
  {
    match op
    case Put(k, v) => PutRefinesMap(c, s, k, v, w, s');
    case Get(k) =>
      if k in Abs(s) {
        assert Abs(s)[k := Abs(s)[k]] == Abs(s);
        if k in s.memory {
          StoreUpdatesMap(s, k, s.memory[k].data, w.now);
        } else {
          LoadRefinesMap(c, s, k, s.db[k], w, s');
        }
      }
    case Delete(k) => DeleteUpdatesMap(s, k);
  }

  lemma WithRoomKeepsDurable<V>(c: Config, s: Cache<V>, victim: Option<Key>)
    requires Ok(c, s) && MakesRoom(c, s, victim)
    ensures Durable(WithRoom(s, victim)) && |WithRoom(s, victim).memory| < c.maxMemoryItems
  {
    if victim.Some? {
      assert s.memory.Keys == (s.memory - {victim.value}).Keys + {victim.value};
      assert |s.memory.Keys| == |(s.memory - {victim.value}).Keys| + 1;
    }
  }

  /** Storing a value keeps the cache durable if the key is then marked dirty, or the value is the database's. */
  lemma StoreKeepsOk<V>(c: Config, s: Cache<V>, k: Key, v: V, now: int, dirty: bool)
    requires c.Valid() && Durable(s)
    requires (k in s.memory && |s.memory| <= c.maxMemoryItems) || |s.memory| < c.maxMemoryItems
    requires dirty || (k in s.db && s.db[k] == v) || (k in s.dirty)
    ensures var t := Stored(s, k, v, now); Ok(c, if dirty then t.(dirty := t.dirty + {k}) else t)
  {
    var t := Stored(s, k, v, now);
    assert t.memory.Keys == s.memory.Keys + {k};
    assert |t.memory.Keys| <= c.maxMemoryItems;
  }

  lemma CommitKeepsOk<V>(c: Config, s: Cache<V>)
    requires Ok(c, s)
    ensures Ok(c, Committed(s))
  {
  }

  lemma PutKeepsOk<V>(c: Config, s: Cache<V>, k: Key, v: V, w: World, s': Cache<V>)
    requires Ok(c, s) && PutStep(c, s, k, v, w, s')
    ensures Ok(c, s')
    ensures w.commitWorks ==> |s'.dirty| < c.threshold
  {
    var victim :| MakesRoom(c, s, victim)
               && s' == Dirtied(c, Stored(WithRoom(s, victim), k, v, w.now), k, w.commitWorks);
    WithRoomKeepsDurable(c, s, victim);
    var t := Stored(WithRoom(s, victim), k, v, w.now);
    StoreKeepsOk(c, WithRoom(s, victim), k, v, w.now, true);
    CommitKeepsOk(c, t.(dirty := t.dirty + {k}));
  }

  lemma LoadKeepsOk<V>(c: Config, s: Cache<V>, k: Key, w: World, s': Cache<V>)
    requires Ok(c, s) && k in s.db && k !in s.memory && LoadStep(c, s, k, s.db[k], w, s')
    ensures Ok(c, s') && s'.dirty == s.dirty
  {
    var victim :| MakesRoom(c, s, victim) && s' == Stored(WithRoom(s, victim), k, s.db[k], w.now);
    WithRoomKeepsDurable(c, s, victim);
    StoreKeepsOk(c, WithRoom(s, victim), k, s.db[k], w.now, false);
  }

  lemma StepKeepsOk<V>(c: Config, s: Cache<V>, op: Op<V>, w: World, s': Cache<V>, answer: Option<V>)
    requires Ok(c, s) && Step(c, s, op, w, s', answer)
    ensures Ok(c, s')
    ensures w.commitWorks && |s.dirty| < c.threshold ==> |s'.dirty| < c.threshold
  {
    match op
    case Put(k, v) => PutKeepsOk(c, s, k, v, w, s');
    case Get(k) =>
      if k in s.memory {
        StoreKeepsOk(c, s, k, s.memory[k].data, w.now, false);
      } else if k in s.db {
        LoadKeepsOk(c, s, k, w, s');
      }
    case Delete(k) =>
      SubsetSize((s.memory - {k}).Keys, s.memory.Keys);
  }

  lemma {:induction false} SubsetSize<T>(a: set<T>, b: set<T>)
    requires a <= b
    ensures |a| <= |b|
  {
    if a == {} {
    } else {
      var x :| x in a;
      SubsetSize(a - {x}, b - {x});
    }
  }

  /** A run from an empty memory over the database `db`. */
  ghost predicate Run<V>(c: Config, db: map<Key, V>, states: seq<Cache<V>>, ops: seq<Op<V>>,
                         worlds: seq<World>, answers: seq<Option<V>>) {
    && c.Valid()
    && |states| == |ops| + 1 && |worlds| == |answers| == |ops|
    && states[0] == Cache(map[], {}, db)
    && forall i :: 0 <= i < |ops| ==> Step(c, states[i], ops[i], worlds[i], states[i + 1], answers[i])
  }

  /** Whatever is evicted, committed or fails to commit on the way, every answer of every run is the
      one a plain map would give. */
  lemma {:induction false} RunsBehaveAsOneMap<V>(c: Config, db: map<Key, V>, states: seq<Cache<V>>, ops: seq<Op<V>>,
                                                 worlds: seq<World>, answers: seq<Option<V>>, i: nat)
    requires Run(c, db, states, ops, worlds, answers) && i <= |ops|
    ensures Abs(states[i]) == PlainRun(db, ops[..i])
    ensures i < |ops| ==> answers[i] == PlainAnswer(PlainRun(db, ops[..i]), ops[i])
  {
    if i == 0 {
      assert Abs(states[0]) == db;
    } else {
      RunsBehaveAsOneMap(c, db, states, ops, worlds, answers, i - 1);
      StepRefinesMap(c, states[i - 1], ops[i - 1], worlds[i - 1], states[i], answers[i - 1]);
      assert ops[..i][..i - 1] == ops[..i - 1];
    }
    if i < |ops| {
      StepRefinesMap(c, states[i], ops[i], worlds[i], states[i + 1], answers[i]);
    }
  }

  /** In every state of every run nothing clean is missing from the database and memory is bounded;
      as long as commits succeed, fewer than `threshold` keys are dirty. */
  lemma {:induction false} RunsStayDurable<V>(c: Config, db: map<Key, V>, states: seq<Cache<V>>, ops: seq<Op<V>>,
                                              worlds: seq<World>, answers: seq<Option<V>>, i: nat)
    requires Run(c, db, states, ops, worlds, answers) && i <= |ops|
    ensures Ok(c, states[i])
    ensures (forall w <- worlds[..i] :: w.commitWorks) ==> |states[i].dirty| < c.threshold
  {
    hide Step;
    if i == 0 {
    } else {
      RunsStayDurable(c, db, states, ops, worlds, answers, i - 1);
      StepKeepsOk(c, states[i - 1], ops[i - 1], worlds[i - 1], states[i], answers[i - 1]);
      assert worlds[..i] == worlds[..i - 1] + [worlds[i - 1]];
    }
  }

  // ----- Eviction follows access -----

  /** The last operation that put or read `k`, or -1. */
  function LastTouch<V>(ops: seq<Op<V>>, k: Key): (i: int)
    ensures -1 <= i < |ops|
  {
    if ops == [] then -1
    else if !ops[|ops| - 1].Delete? && ops[|ops| - 1].key == k then |ops| - 1
    else LastTouch(ops[..|ops| - 1], k)
  }

  ghost predicate StampsMatch<V>(s: Cache<V>, ops: seq<Op<V>>, worlds: seq<World>)
    requires |ops| <= |worlds|
  {
    forall k <- s.memory ::
      LastTouch(ops, k) >= 0 && s.memory[k].lastAccessedMs == worlds[LastTouch(ops, k)].now
  }

  /** A memory item's time stamp is the time of the last operation on its key. */
  lemma {:induction false} StampsAreLastAccesses<V>(c: Config, db: map<Key, V>, states: seq<Cache<V>>, ops: seq<Op<V>>,
                                                    worlds: seq<World>, answers: seq<Option<V>>, i: nat)
    requires Run(c, db, states, ops, worlds, answers) && i <= |ops|
    ensures StampsMatch(states[i], ops[..i], worlds)
  {
    if i == 0 {
    } else {
      StampsAreLastAccesses(c, db, states, ops, worlds, answers, i - 1);
      assert ops[..i][..i - 1] == ops[..i - 1];
      StepStamps(c, states[i - 1], ops[i - 1], worlds[i - 1], states[i], answers[i - 1]);
    }
  }

  lemma StepStamps<V>(c: Config, s: Cache<V>, op: Op<V>, w: World, s': Cache<V>, answer: Option<V>)
    requires Step(c, s, op, w, s', answer)
    ensures forall k <- s'.memory ::
        if !op.Delete? && k == op.key then s'.memory[k].lastAccessedMs == w.now
        else k in s.memory && s'.memory[k] == s.memory[k]
  {
    match op
    case Put(k, v) =>
      var victim :| MakesRoom(c, s, victim)
                 && s' == Dirtied(c, Stored(WithRoom(s, victim), k, v, w.now), k, w.commitWorks);
    case Get(k) =>
    case Delete(k) =>
  }

  /** A key leaves memory other than by deletion only when memory was full, and then no key left
      behind was last accessed at an earlier time. */
  lemma EvictsLeastRecent<V>(c: Config, db: map<Key, V>, states: seq<Cache<V>>, ops: seq<Op<V>>,
                             worlds: seq<World>, answers: seq<Option<V>>, i: nat, gone: Key, kept: Key)
    requires Run(c, db, states, ops, worlds, answers) && i < |ops| && !ops[i].Delete?
    requires gone in states[i].memory && gone !in states[i + 1].memory && kept in states[i].memory
    ensures |states[i].memory| == c.maxMemoryItems
    ensures LastTouch(ops[..i], gone) >= 0 && LastTouch(ops[..i], kept) >= 0
    ensures worlds[LastTouch(ops[..i], gone)].now <= worlds[LastTouch(ops[..i], kept)].now
  {
    RunsStayDurable(c, db, states, ops, worlds, answers, i);
    StampsAreLastAccesses(c, db, states, ops, worlds, answers, i);
    OnlyVictimsLeave(c, states[i], ops[i], worlds[i], states[i + 1], answers[i], gone);
  }

  lemma OnlyVictimsLeave<V>(c: Config, s: Cache<V>, op: Op<V>, w: World, s': Cache<V>, answer: Option<V>, gone: Key)
    requires Step(c, s, op, w, s', answer) && !op.Delete?
    requires gone in s.memory && gone !in s'.memory
    ensures |s.memory| >= c.maxMemoryItems && LeastRecent(s.memory, gone)
  {
    match op
    case Put(k, v) =>
      var victim :| MakesRoom(c, s, victim)
                 && s' == Dirtied(c, Stored(WithRoom(s, victim), k, v, w.now), k, w.commitWorks);
      assert victim == Some(gone);
    case Get(k) =>
      if k !in s.memory && k in s.db {
        var victim :| MakesRoom(c, s, victim) && s' == Stored(WithRoom(s, victim), k, s.db[k], w.now);
        assert victim == Some(gone);
      }
  }

  /** With a clock that never steps back every item is findable at every call, so one turn of the
      eviction loop is enough for every operation. */
  lemma ForwardClockEnds<V>(c: Config, db: map<Key, V>, states: seq<Cache<V>>, ops: seq<Op<V>>,
                            worlds: seq<World>, answers: seq<Option<V>>, i: nat)
    requires c.Valid() && Run(c, db, states, ops, worlds, answers) && i < |ops|
    requires forall a, b :: 0 <= a <= b < |worlds| ==> worlds[a].now <= worlds[b].now
    ensures forall k <- states[i].memory :: states[i].memory[k].lastAccessedMs < worlds[i].now + 1000
    ensures Ends(c, states[i], ops[i], [worlds[i].now])
  {
    StampsAreLastAccesses(c, db, states, ops, worlds, answers, i);
    var memory := states[i].memory;
    if |memory| >= c.maxMemoryItems {
      var k :| k in memory;
      assert Findable(memory, worlds[i].now) && worlds[i].now in [worlds[i].now];
    }
  }

  lemma {:induction false} Oldest<V>(memory: map<Key, MemoryItem<V>>, keys: set<Key>) returns (k: Key)
    requires {} != keys <= memory.Keys
    ensures k in keys && forall j <- keys :: memory[k].lastAccessedMs <= memory[j].lastAccessedMs
    decreases |keys|
  {
    k :| k in keys;
    if keys == {k} {
    } else {
      var j := Oldest(memory, keys - {k});
      k := if memory[j].lastAccessedMs < memory[k].lastAccessedMs then j else k;
    }
  }

  /** With any clock, the loop turns until a reading comes within a second of the oldest access: it
      ends within some readings exactly when there is room or one of them does. */
  lemma TurnsUntilClockCatchesUp<V>(c: Config, memory: map<Key, MemoryItem<V>>, clock: seq<int>) returns (oldest: Key)
    requires memory != map[]
    ensures LeastRecent(memory, oldest)
    ensures RoomWithin(c, memory, clock)
            <==> |memory| < c.maxMemoryItems || exists t <- clock :: t > memory[oldest].lastAccessedMs - 1000
  {
    oldest := Oldest(memory, memory.Keys);
    forall t | t in clock ensures Findable(memory, t) <==> t > memory[oldest].lastAccessedMs - 1000 {
    }
  }
}
