/** The mempool of packages/executor/src/services/MempoolService/service.ts: a list of keys, a table of
    entries and an index from operation hashes to keys. */
module Mempools {
  import opened Wrappers
  import opened MempoolEntries

  datatype Store = Store(keys: seq<string>, entries: map<string, Entry>, hashes: map<string, string>)

  const EMPTY := Store([], map[], map[])

  /** "0x" and sixty-four digits. */
  const HASH_LENGTH := 66

  // ----- The mutex-protected blocks -----

  /** `addUserOp`: replaces the stored entry if it may, and otherwise adds a new one, unless the
      reputation checks (`accepted`) throw. */
  function Added(s: Store, e: Entry, ttl: int, accepted: bool, now: int): Result<Store, string> {
    var key := GetKey(e);
    var stamped := e.(lastUpdatedTime := now);
    if key in s.entries then
      var existing := s.entries[key];
      if CanReplaceWithTTL(e, existing, ttl) then
        Success(Store(s.keys, s.entries[key := stamped], (s.hashes - {existing.userOpHash})[e.userOpHash := key]))
      else Failure("User op cannot be replaced: fee too low")
    else if !accepted then Failure("rejected by reputation")
    else Success(Store(s.keys + [key], s.entries[key := stamped], s.hashes[e.userOpHash := key]))
  }

  /** `update`: writes the entry under its own key, whatever is there. */
  function Updated(s: Store, e: Entry): Store {
    s.(entries := s.entries[GetKey(e) := e])
  }

  function Without(keys: seq<string>, k: string): (r: seq<string>)
    ensures forall x :: x in r <==> x in keys && x != k
  {
    if keys == [] then []
    else
      var init, last := Without(keys[..|keys| - 1], k), keys[|keys| - 1];
      assert keys == keys[..|keys| - 1] + [last];
      if last == k then init else init + [last]
  }

  function Removed(s: Store, e: Entry): Store {
    s.(keys := Without(s.keys, GetKey(e)), entries := s.entries - {GetKey(e)})
  }

  function WithoutKeys(entries: map<string, Entry>, keys: seq<string>): (r: map<string, Entry>)
    ensures forall k :: k in r <==> k in entries && k !in keys
    ensures forall k <- r :: r[k] == entries[k]
  {
    if keys == [] then entries
    else
      assert keys == keys[..|keys| - 1] + [keys[|keys| - 1]];
      WithoutKeys(entries, keys[..|keys| - 1]) - {keys[|keys| - 1]}
  }

  /** `clearState` deletes listed entries and the list; the hash index stays. */
  function Cleared(s: Store): Store {
    s.(keys := [], entries := WithoutKeys(s.entries, s.keys))
  }

  // ----- Integrity -----

  ghost predicate NoDuplicates(keys: seq<string>) {
    forall i, j :: 0 <= i < j < |keys| ==> keys[i] != keys[j]
  }

  /** The key list has no duplicates, every listed key has an entry, and entries sit under their own keys. */
  ghost predicate Integrity(s: Store) {
    && NoDuplicates(s.keys)
    && (forall k <- s.keys :: k in s.entries)
    && (forall k <- s.entries :: GetKey(s.entries[k]) == k)
  }

  datatype Event =
    | Add(entry: Entry, ttl: int, accepted: bool, now: int)
    | Update(entry: Entry)
    | Remove(entry: Entry)
    | Clear

  function After(s: Store, e: Event): Store {
    match e
    case Add(entry, ttl, accepted, now) =>
      (match Added(s, entry, ttl, accepted, now)
       case Success(s') => s'
       case Failure(_) => s)
    case Update(entry) => Updated(s, entry)
    case Remove(entry) => Removed(s, entry)
    case Clear => Cleared(s)
  }

  function RunFrom(s: Store, events: seq<Event>): Store {
    if events == [] then s else After(RunFrom(s, events[..|events| - 1]), events[|events| - 1])
  }

  function Run(events: seq<Event>): Store {
    RunFrom(EMPTY, events)
  }

  lemma OneMoreEvent(s: Store, events: seq<Event>, e: Event)
    ensures RunFrom(s, events + [e]) == After(RunFrom(s, events), e)
  {
    assert (events + [e])[..|events|] == events;
  }

  lemma {:induction false} WithoutKeepsDistinct(keys: seq<string>, k: string)
    requires NoDuplicates(keys)
    ensures NoDuplicates(Without(keys, k))
  {
    if keys == [] {
    } else {
      var init, last := keys[..|keys| - 1], keys[|keys| - 1];
      WithoutKeepsDistinct(init, k);
      forall i | 0 <= i < |init| ensures init[i] != last {
        assert keys[i] != keys[|keys| - 1];
      }
      assert last !in Without(init, k);
    }
  }

  lemma GetKeyIgnoresTime(e: Entry, now: int)
    ensures GetKey(e.(lastUpdatedTime := now)) == GetKey(e)
  {
  }

  lemma AddKeepsIntegrity(s: Store, e: Entry, ttl: int, accepted: bool, now: int)
    requires Integrity(s)
    ensures Integrity(After(s, Add(e, ttl, accepted, now)))
  {
    GetKeyIgnoresTime(e, now);
    hide GetKey, CanReplaceWithTTL;
  }

  lemma UpdateKeepsIntegrity(s: Store, e: Entry)
    requires Integrity(s)
    ensures Integrity(Updated(s, e))
  {
    hide GetKey;
  }

  lemma RemoveKeepsIntegrity(s: Store, e: Entry)
    requires Integrity(s)
    ensures Integrity(Removed(s, e))
  {
    WithoutKeepsDistinct(s.keys, GetKey(e));
    hide GetKey;
  }

  lemma ClearKeepsIntegrity(s: Store)
    requires Integrity(s)
    ensures Integrity(Cleared(s))
  {
    hide GetKey;
  }

  lemma EventKeepsIntegrity(s: Store, e: Event)
    requires Integrity(s)
    ensures Integrity(After(s, e))
  {
    hide Integrity;
    match e
    case Add(entry, ttl, accepted, now) => AddKeepsIntegrity(s, entry, ttl, accepted, now);
    case Update(entry) => UpdateKeepsIntegrity(s, entry);
    case Remove(entry) => RemoveKeepsIntegrity(s, entry);
    case Clear => ClearKeepsIntegrity(s);
  }

  /** Integrity holds after every run of additions, replacements, updates of any kind, removals and
      clearings; so reading all listed entries never meets a missing key. */
  lemma {:induction false} RunsKeepIntegrity(events: seq<Event>)
    ensures Integrity(Run(events))
  {
    if events == [] {
    } else {
      RunsKeepIntegrity(events[..|events| - 1]);
      EventKeepsIntegrity(Run(events[..|events| - 1]), events[|events| - 1]);
    }
  }

  // ----- The hash index -----

  /** Every stored entry is listed, and its own hash leads to it. */
  ghost predicate Indexed(s: Store) {
    && (forall k <- s.entries :: k in s.keys)
    && (forall k <- s.entries :: FoundByHash(s, k))
  }

  ghost predicate FoundByHash(s: Store, k: string)
    requires k in s.entries
  {
    s.entries[k].userOpHash in s.hashes && s.hashes[s.entries[k].userOpHash] == k
  }

  /** The hash of an operation determines the operation, and so its key: `keyOf` is that function. */
  ghost predicate StoreHashes(keyOf: string -> string, s: Store) {
    && (forall k <- s.entries :: keyOf(s.entries[k].userOpHash) == k)
    && (forall h <- s.hashes :: keyOf(h) == s.hashes[h])
  }

  ghost predicate EventHashes(keyOf: string -> string, e: Event) {
    (e.Add? || e.Update?) ==> keyOf(e.entry.userOpHash) == GetKey(e.entry)
  }

  /** An update is fresh when it rewrites an entry that is there and was indexed under its hash. */
  ghost predicate Fresh(s: Store, e: Entry) {
    GetKey(e) in s.entries && e.userOpHash in s.hashes && s.hashes[e.userOpHash] == GetKey(e)
  }

  lemma EventKeepsHashes(keyOf: string -> string, s: Store, e: Event)
    requires Integrity(s) && StoreHashes(keyOf, s) && EventHashes(keyOf, e)
    ensures StoreHashes(keyOf, After(s, e))
  {
  }

  /** An update keeps every entry listed and findable exactly when it is not stale. */
  lemma UpdateKeepsIndexExactlyWhen(s: Store, e: Entry)
    requires Integrity(s) && Indexed(s)
    ensures Indexed(Updated(s, e)) <==> Fresh(s, e)
  {
    var key, s' := GetKey(e), Updated(s, e);
    assert s'.entries[key] == e;
    if Indexed(s') {
      assert FoundByHash(s', key) && key in s.keys;
    }
    if Fresh(s, e) {
      forall k | k in s'.entries ensures k in s'.keys && FoundByHash(s', k) {
        assert k in s.entries && (k != key ==> FoundByHash(s, k));
      }
    }
  }

  lemma AddKeepsIndex(keyOf: string -> string, s: Store, e: Entry, ttl: int, accepted: bool, now: int)
    requires Integrity(s) && Indexed(s) && StoreHashes(keyOf, s) && keyOf(e.userOpHash) == GetKey(e)
    requires Added(s, e, ttl, accepted, now).Success?
    ensures Indexed(Added(s, e, ttl, accepted, now).value)
  {
    var key, s' := GetKey(e), Added(s, e, ttl, accepted, now).value;
    forall k | k in s'.entries ensures k in s'.keys && FoundByHash(s', k) {
      if k != key {
        assert FoundByHash(s, k);
        assert key in s.entries ==> FoundByHash(s, key);
      }
    }
  }

  lemma EventKeepsIndex(keyOf: string -> string, s: Store, e: Event)
    requires Integrity(s) && Indexed(s) && StoreHashes(keyOf, s) && EventHashes(keyOf, e)
    requires e.Update? ==> Fresh(s, e.entry)
    ensures Indexed(After(s, e))
  {
    match e
    case Add(entry, ttl, accepted, now) =>
      if Added(s, entry, ttl, accepted, now).Success? {
        AddKeepsIndex(keyOf, s, entry, ttl, accepted, now);
      }
    case Update(entry) => UpdateKeepsIndexExactlyWhen(s, entry);
    case Remove(entry) =>
      forall k | k in Removed(s, entry).entries ensures FoundByHash(Removed(s, entry), k) {
        assert FoundByHash(s, k);
      }
    case Clear =>
  }

  ghost predicate NoStaleUpdates(events: seq<Event>) {
    forall i :: 0 <= i < |events| && events[i].Update? ==> Fresh(Run(events[..i]), events[i].entry)
  }

  /** In every run without stale updates, every listed entry is found by its own hash, and every
      stored entry is listed. */
  lemma {:induction false} FreshRunsKeepIndex(keyOf: string -> string, events: seq<Event>)
    requires forall e <- events :: EventHashes(keyOf, e)
    requires NoStaleUpdates(events)
    ensures Indexed(Run(events)) && StoreHashes(keyOf, Run(events))
    decreases |events|
  {
    if events == [] {
    } else {
      var init, last := events[..|events| - 1], events[|events| - 1];
      forall i | 0 <= i < |init| ensures init[..i] == events[..i] {}
      FreshRunsKeepIndex(keyOf, init);
      RunsKeepIntegrity(init);
      EventKeepsHashes(keyOf, Run(init), last);
      EventKeepsIndex(keyOf, Run(init), last);
    }
  }

  /** A stale update can lose a later operation: an operation is added and reverted; then it is removed
      while another writer still holds it, and that writer stores it once more. A new operation under
      its key now counts as a replacement, and is stored but never listed. */
  lemma StaleUpdateLosesOperation(first: Entry, later: Entry, params: Params, ttl: int, times: (int, int, int))
    requires GetKey(later) == GetKey(first) && first.status == later.status == New
    ensures var old_ := WithStatus(first, Reverted, params, times.1);
            var s := Run([Add(first, ttl, true, times.0), Update(old_), Remove(old_), Update(old_),
                          Add(later, ttl, true, times.2)]);
            && GetKey(later) in s.entries && s.entries[GetKey(later)] == later.(lastUpdatedTime := times.2)
            && GetKey(later) !in s.keys
  {
    var old_ := WithStatus(first, Reverted, params, times.1);
    var a, u, r, l := Add(first, ttl, true, times.0), Update(old_), Remove(old_), Add(later, ttl, true, times.2);
    hide After;
    OneMoreEvent(EMPTY, [], a);
    OneMoreEvent(EMPTY, [a], u);
    OneMoreEvent(EMPTY, [a, u], r);
    OneMoreEvent(EMPTY, [a, u, r], u);
    OneMoreEvent(EMPTY, [a, u, r, u], l);
    assert [] + [a] == [a] && [a] + [u] == [a, u] && [a, u] + [r] == [a, u, r];
    assert [a, u, r] + [u] == [a, u, r, u] && [a, u, r, u] + [l] == [a, u, r, u, l];
    LaterIsNotListed(first, later, old_, ttl, times);
  }

  lemma LaterIsNotListed(first: Entry, later: Entry, old_: Entry, ttl: int, times: (int, int, int))
    requires GetKey(later) == GetKey(old_) == GetKey(first) && old_.status == Reverted
    ensures var removed := After(After(After(EMPTY, Add(first, ttl, true, times.0)), Update(old_)), Remove(old_));
            var s := After(After(removed, Update(old_)), Add(later, ttl, true, times.2));
            && GetKey(later) in s.entries && s.entries[GetKey(later)] == later.(lastUpdatedTime := times.2)
            && GetKey(later) !in s.keys
  {
    hide GetKey;
    assert CanReplaceWithTTL(later, old_, ttl);
  }

  // ----- Additions and replacements, field by field -----

  /** The fees of a replacement reach eleven tenths of the old ones, rounded down. */
  ghost predicate Outbids(e: Entry, x: Entry) {
    && 10 * e.userOp.maxPriorityFeePerGas + 9 >= 11 * x.userOp.maxPriorityFeePerGas
    && 10 * e.userOp.maxFeePerGas + 9 >= 11 * x.userOp.maxFeePerGas
  }

  /** An operation the mempool has and works on, or has seen go on chain. */
  predicate Live(x: Entry) {
    x.status == New || x.status == Pending || x.status == Submitted || x.status == OnChain
  }

  ghost predicate SameUserOp(e: Entry, x: Entry) {
    e.chainId == x.chainId && e.userOp.nonce == x.userOp.nonce && e.userOp.sender == x.userOp.sender
  }

  lemma ReplacesExactlyWhen(e: Entry, x: Entry, ttl: int)
    ensures CanReplaceWithTTL(e, x, ttl)
            <==> e.lastUpdatedTime > x.lastUpdatedTime + 1000 * ttl || !Live(x) || (SameUserOp(e, x) && Outbids(e, x))
  {
    EleventhsRoundDown(e.userOp.maxPriorityFeePerGas, x.userOp.maxPriorityFeePerGas);
    EleventhsRoundDown(e.userOp.maxFeePerGas, x.userOp.maxFeePerGas);
  }

  lemma EleventhsRoundDown(fee: nat, old_: nat)
    ensures fee >= old_ * 11 / 10 <==> 10 * fee + 9 >= 11 * old_
  {
  }

  /** An operation is taken in exactly when its key is free and the reputation checks pass, or when what is stored
      there is too old, past the chain, or outbid by the same operation. */
  lemma AddedExactlyWhen(s: Store, e: Entry, ttl: int, accepted: bool, now: int)
    ensures var k := GetKey(e);
            Added(s, e, ttl, accepted, now).Success?
            <==> if k !in s.entries then accepted
                 else var x := s.entries[k];
                   e.lastUpdatedTime > x.lastUpdatedTime + 1000 * ttl || !Live(x) || (SameUserOp(e, x) && Outbids(e, x))
  {
    if GetKey(e) in s.entries {
      ReplacesExactlyWhen(e, s.entries[GetKey(e)], ttl);
    }
    hide GetKey, CanReplaceWithTTL, Outbids;
  }

  /** It is then stored under its key with the time of the addition, listed last unless its key was listed for an
      entry already, and found by its hash; the hash of what it replaces is forgotten. */
  lemma AddedIsStored(s: Store, e: Entry, ttl: int, accepted: bool, now: int)
    requires Added(s, e, ttl, accepted, now).Success?
    ensures var k, s' := GetKey(e), Added(s, e, ttl, accepted, now).value;
            && s'.entries == s.entries[k := e.(lastUpdatedTime := now)]
            && s'.keys == (if k in s.entries then s.keys else s.keys + [k])
            && e.userOpHash in s'.hashes && s'.hashes[e.userOpHash] == k
            && forall h :: h != e.userOpHash ==>
                && (h in s'.hashes <==> h in s.hashes && !(k in s.entries && h == s.entries[k].userOpHash))
                && (h in s'.hashes ==> s'.hashes[h] == s.hashes[h])
  {
    hide GetKey, CanReplaceWithTTL;
  }

  /** The other blocks: an update writes under its own key and nothing else; a removal takes its key from list and
      table, and a clearing all listed keys; the hash index stays as it was. */
  lemma OtherBlocksByField(s: Store, e: Entry, k: string)
    ensures After(s, Update(e)) == s.(entries := s.entries[GetKey(e) := e])
    ensures After(s, Remove(e)).hashes == After(s, Clear).hashes == s.hashes && After(s, Clear).keys == []
    ensures k in After(s, Remove(e)).keys <==> k in s.keys && k != GetKey(e)
    ensures k in After(s, Remove(e)).entries <==> k in s.entries && k != GetKey(e)
    ensures k in After(s, Remove(e)).entries ==> After(s, Remove(e)).entries[k] == s.entries[k]
    ensures k in After(s, Clear).entries <==> k in s.entries && k !in s.keys
    ensures k in After(s, Clear).entries ==> After(s, Clear).entries[k] == s.entries[k]
  {
    hide GetKey;
  }

  /** What stays listed stays in order. */
  lemma {:induction false} WithoutOfAppend(a: seq<string>, b: seq<string>, k: string, x: string)
    ensures Without([x], k) == if x == k then [] else [x]
    ensures Without(a + b, k) == Without(a, k) + Without(b, k)
    decreases |b|
  {
    assert [x][..0] == [];
    if b == [] {
      assert a + b == a;
    } else {
      WithoutOfAppend(a, b[..|b| - 1], k, x);
      assert (a + b)[..|a + b| - 1] == a + b[..|b| - 1];
    }
  }

  /** Blocks that neither rewrite nor remove what is stored under the key, and whose additions under it come in
      time and do not outbid it. */
  ghost predicate LeavesAlone(events: seq<Event>, k: string, x: Entry) {
    forall e <- events ::
      && !e.Clear?
      && (e.Update? || e.Remove? ==> GetKey(e.entry) != k)
      && (e.Add? && GetKey(e.entry) == k ==>
            && e.entry.lastUpdatedTime <= x.lastUpdatedTime + 1000 * e.ttl
            && !(SameUserOp(e.entry, x) && Outbids(e.entry, x)))
  }

  /** In every run: a live operation stays until something rewrites it, outbids it, or arrives under its key later
      than the time to live after it was written. */
  lemma {:induction false} LiveIsNotReplaced(s: Store, events: seq<Event>, k: string)
    requires k in s.entries && Live(s.entries[k]) && LeavesAlone(events, k, s.entries[k])
    ensures k in RunFrom(s, events).entries && RunFrom(s, events).entries[k] == s.entries[k]
  {
    if events == [] {
    } else {
      var init, last := events[..|events| - 1], events[|events| - 1];
      assert events == init + [last] && last in events;
      LiveIsNotReplaced(s, init, k);
      LeftAloneStays(RunFrom(s, init), last, k);
    }
  }

  lemma LeftAloneStays(s: Store, e: Event, k: string)
    requires k in s.entries && Live(s.entries[k]) && LeavesAlone([e], k, s.entries[k])
    ensures k in After(s, e).entries && After(s, e).entries[k] == s.entries[k]
  {
    hide GetKey, CanReplaceWithTTL, Outbids, Live;
    assert [e][0] == e && e in [e];
    if e.Add? {
      AddedExactlyWhen(s, e.entry, e.ttl, e.accepted, e.now);
    }
  }

  /** After that time any addition under its key replaces it. */
  lemma LateAdditionReplaces(s: Store, events: seq<Event>, k: string, e: Event)
    requires k in s.entries && Live(s.entries[k]) && LeavesAlone(events, k, s.entries[k])
    requires e.Add? && GetKey(e.entry) == k && e.entry.lastUpdatedTime > s.entries[k].lastUpdatedTime + 1000 * e.ttl
    ensures k in RunFrom(s, events + [e]).entries
            && RunFrom(s, events + [e]).entries[k] == e.entry.(lastUpdatedTime := e.now)
  {
    hide GetKey, CanReplaceWithTTL, LeavesAlone;
    LiveIsNotReplaced(s, events, k);
    OneMoreEvent(s, events, e);
    AddedExactlyWhen(RunFrom(s, events), e.entry, e.ttl, e.accepted, e.now);
  }

  // ----- Reading -----

  /** Every listed entry in list order, or nothing at all if one is missing. */
  function All(s: Store): seq<Entry> {
    if forall k <- s.keys :: k in s.entries then
      seq(|s.keys|, i requires 0 <= i < |s.keys| => assert s.keys[i] in s.keys; s.entries[s.keys[i]])
    else []
  }

  /** `slice(offset, offset + size)`. */
  function Page(entries: seq<Entry>, size: nat, offset: nat): seq<Entry> {
    if offset >= |entries| then []
    else if offset + size >= |entries| then entries[offset..]
    else entries[offset..offset + size]
  }

  /** The new entries, dearest first. */
  function NewSorted(s: Store): seq<Entry> {
    SortedByCost(WithStatusNew(All(s)))
  }

  /** A page of the new entries. */
  function Candidates(s: Store, size: nat, offset: nat): seq<Entry> {
    Page(NewSorted(s), size, offset)
  }

  /** The hashes of entries, those that do not have the length of one left out. */
  function HashesOf(entries: seq<Entry>): seq<string> {
    if entries == [] then []
    else
      var init, last := HashesOf(entries[..|entries| - 1]), entries[|entries| - 1];
      if |last.userOpHash| == HASH_LENGTH then init + [last.userOpHash] else init
  }

  lemma {:induction false} HashesBelong(entries: seq<Entry>, h: string)
    ensures h in HashesOf(entries) <==> |h| == HASH_LENGTH && exists e <- entries :: e.userOpHash == h
  {
    if entries == [] {
    } else {
      HashesBelong(entries[..|entries| - 1], h);
      assert entries == entries[..|entries| - 1] + [entries[|entries| - 1]];
    }
  }

  /** `getPooledUserOpHashes`: the hashes of a page and the cursor of the next one, or zero. A full page is
      taken to mean that there is more. */
  function PooledHashes(entries: seq<Entry>, limit: nat, offset: nat): (nat, seq<string>) {
    var page := Page(entries, limit, offset);
    (if |page| == limit then |page| + offset else 0, HashesOf(page))
  }

  /** What a caller gathers that follows the cursors from `offset` on. */
  function Paged(entries: seq<Entry>, limit: nat, offset: nat): seq<string>
    requires limit > 0
    decreases if offset < |entries| then |entries| - offset else 0
  {
    var (cursor, hashes) := PooledHashes(entries, limit, offset);
    if cursor == 0 then hashes else hashes + Paged(entries, limit, cursor)
  }

  lemma {:induction false} HashesOfAppend(a: seq<Entry>, b: seq<Entry>)
    ensures HashesOf(a + b) == HashesOf(a) + HashesOf(b)
  {
    if b == [] {
      assert a + b == a;
    } else {
      HashesOfAppend(a, b[..|b| - 1]);
      assert (a + b)[..|a + b| - 1] == a + b[..|b| - 1];
    }
  }

  lemma {:induction false} PagedIsRest(entries: seq<Entry>, limit: nat, offset: nat)
    requires limit > 0 && offset <= |entries|
    ensures Paged(entries, limit, offset) == HashesOf(entries[offset..])
    decreases |entries| - offset
  {
    hide HashesOf;
    var page := Page(entries, limit, offset);
    if |page| < limit {
      assert page == entries[offset..];
    } else {
      PagedIsRest(entries, limit, offset + limit);
      assert entries[offset..] == page + entries[offset + limit..];
      HashesOfAppend(page, entries[offset + limit..]);
    }
  }

  /** Following the cursors through an unchanged mempool gives the hash of every new entry once, that of the
      dearest first, hashes of another length left out. */
  lemma PagesPartitionNewEntries(s: Store, limit: nat)
    requires limit > 0
    ensures Paged(NewSorted(s), limit, 0) == HashesOf(NewSorted(s))
    ensures DearestFirst(NewSorted(s)) && multiset(NewSorted(s)) == multiset(WithStatusNew(All(s)))
    ensures forall h :: h in Paged(NewSorted(s), limit, 0) <==>
              |h| == HASH_LENGTH && exists e <- All(s) :: e.status == New && e.userOpHash == h
  {
    PagedIsRest(NewSorted(s), limit, 0);
    SortIsSortedPermutation(WithStatusNew(All(s)));
    OnlyNewEntries(All(s));
    hide HashesOf, Paged, All, WithStatusNew, NewSorted;
    forall e ensures e in NewSorted(s) <==> e in All(s) && e.status == New {
      assert e in multiset(NewSorted(s)) <==> e in multiset(WithStatusNew(All(s)));
    }
    forall h ensures h in Paged(NewSorted(s), limit, 0) <==>
                |h| == HASH_LENGTH && exists e <- All(s) :: e.status == New && e.userOpHash == h
    {
      HashesBelong(NewSorted(s), h);
    }
  }

  lemma {:induction false} OnlyNewEntries(entries: seq<Entry>)
    ensures forall e :: e in WithStatusNew(entries) <==> e in entries && e.status == New
  {
    if entries == [] {
    } else {
      OnlyNewEntries(entries[..|entries| - 1]);
      assert entries == entries[..|entries| - 1] + [entries[|entries| - 1]];
    }
  }

  /** The candidates are new listed entries, dearest first; together with the new entries before and
      after the page they are all new entries, and no later one pays more. */
  lemma CandidatesAreDearest(s: Store, size: nat, offset: nat) returns (before: seq<Entry>, leftOut: seq<Entry>)
    ensures var c, new_ := Candidates(s, size, offset), WithStatusNew(All(s));
            && multiset(before + c + leftOut) == multiset(new_)
            && DearestFirst(before + c + leftOut)
            && (|before| == offset || (c == leftOut == [] && |before| < offset))
            && (|c| == size || (leftOut == [] && |c| < size))
            && (forall e <- c :: e in All(s) && e.status == New)
  {
    hide WithStatusNew, DearestFirst, SortedByCost, Page, All;
    var new_, sorted, c := WithStatusNew(All(s)), NewSorted(s), Candidates(s, size, offset);
    SortIsSortedPermutation(new_);
    before, leftOut := PageSplits(sorted, size, offset);
    OnlyNewEntries(All(s));
    forall e | e in c ensures e in All(s) && e.status == New {
      assert e in before + c + leftOut;
      assert e in multiset(sorted);
    }
  }

  lemma PageSplits(entries: seq<Entry>, size: nat, offset: nat) returns (before: seq<Entry>, after: seq<Entry>)
    ensures var page := Page(entries, size, offset);
            && entries == before + page + after
            && (|before| == offset || (page == after == [] && |before| < offset))
            && (|page| == size || (after == [] && |page| < size))
  {
    var page := Page(entries, size, offset);
    before := if offset <= |entries| then entries[..offset] else entries;
    after := entries[|before| + |page|..];
  }

  // ----- The class -----

  /** Writes a list of entries, one after the other. */
  function UpdatedAll(s: Store, entries: seq<Entry>): Store {
    if entries == [] then s else Updated(UpdatedAll(s, entries[..|entries| - 1]), entries[|entries| - 1])
  }

  predicate Expired(e: Entry, archiveDuration: int, now: int) {
    e.status.Rank() >= OnChain.Rank() && e.lastUpdatedTime + archiveDuration * 1000 <= now
  }

  function FirstOf(others: nat -> seq<Event>, n: nat): (r: seq<seq<Event>>)
    ensures |r| == n && forall i: nat :: i < n ==> r[i] == others(i)
  {
    if n == 0 then [] else FirstOf(others, n - 1) + [others(n - 1)]
  }

  class MempoolService {
    var userOpKeys: seq<string>
    var entries: map<string, Entry>
    var userOpHashes: map<string, string>
    const ttl: int

    function Contents(): Store
      reads this
    {
      Store(userOpKeys, entries, userOpHashes)
    }

    ghost predicate Valid()
      reads this
    {
      Integrity(Contents())
    }

    constructor (ttl: int)
      ensures Valid() && Contents() == EMPTY && this.ttl == ttl
    {
      this.ttl := ttl;
      userOpKeys, entries, userOpHashes := [], map[], map[];
    }

    /** `seen` says whether the reputation service could be told at the end; if not, the call fails although
        the operation has been stored. */
    method AddUserOp(e: Entry, accepted: bool, seen: bool, now: int) returns (r: Result<(), string>)
      requires Valid()
      modifies this
      ensures Valid() && Contents() == After(old(Contents()), Add(e, ttl, accepted, now))
      ensures r.Success? <==> Added(old(Contents()), e, ttl, accepted, now).Success? && seen
      ensures Added(old(Contents()), e, ttl, accepted, now).Success? ==> FoundByHash(Contents(), GetKey(e))
    {
      EventKeepsIntegrity(Contents(), Add(e, ttl, accepted, now));
      var key := GetKey(e);
      if key in entries {
        var existing := entries[key];
        if !CanReplaceWithTTL(e, existing, ttl) {
          return Failure("User op cannot be replaced: fee too low");
        }
        entries := entries[key := e.(lastUpdatedTime := now)];
        userOpHashes := userOpHashes - {existing.userOpHash};
        userOpHashes := userOpHashes[e.userOpHash := key];
      } else {
        if !accepted {
          return Failure("rejected by reputation");
        }
        userOpKeys := userOpKeys + [key];
        entries := entries[key := e.(lastUpdatedTime := now)];
        userOpHashes := userOpHashes[e.userOpHash := key];
      }
      if !seen {
        return Failure("could not update seen status");
      }
      return Success(());
    }

    method Update(e: Entry)
      requires Valid()
      modifies this
      ensures Valid() && Contents() == Updated(old(Contents()), e)
    {
      entries := entries[GetKey(e) := e];
    }

    /** Sets the status of a list of entry objects and stores them; answers the objects as they are now. */
    method UpdateStatus(list: seq<Entry>, status: Status, params: Params, now: int) returns (updated: seq<Entry>)
      requires Valid()
      modifies this
      ensures Valid() && Contents() == UpdatedAll(old(Contents()), updated)
      ensures |updated| == |list|
      ensures forall i :: 0 <= i < |list| ==> updated[i] == WithStatus(list[i], status, params, now)
    {
      hide Integrity, Updated, WithStatus;
      updated := [];
      for i := 0 to |list|
        invariant Valid() && Contents() == UpdatedAll(old(Contents()), updated)
        invariant |updated| == i
        invariant forall j :: 0 <= j < i ==> updated[j] == WithStatus(list[j], status, params, now)
      {
        var entry := WithStatus(list[i], status, params, now);
        Update(entry);
        assert (updated + [entry])[..|updated|] == updated;
        updated := updated + [entry];
      }
    }

    method AttemptToBundle(list: seq<Entry>, now: int) returns (updated: seq<Entry>)
      requires Valid()
      modifies this
      ensures Valid() && Contents() == UpdatedAll(old(Contents()), updated)
      ensures |updated| == |list|
      ensures forall i :: 0 <= i < |list| ==>
                updated[i] == list[i].(submitAttempts := list[i].submitAttempts + 1, lastUpdatedTime := now)
    {
      hide Integrity, Updated;
      updated := [];
      for i := 0 to |list|
        invariant Valid() && Contents() == UpdatedAll(old(Contents()), updated)
        invariant |updated| == i
        invariant forall j :: 0 <= j < i ==>
            updated[j] == list[j].(submitAttempts := list[j].submitAttempts + 1, lastUpdatedTime := now)
      {
        var entry := list[i].(submitAttempts := list[i].submitAttempts + 1, lastUpdatedTime := now);
        Update(entry);
        assert (updated + [entry])[..|updated|] == updated;
        updated := updated + [entry];
      }
    }

    method Remove(e: Entry)
      requires Valid()
      modifies this
      ensures Valid() && Contents() == Removed(old(Contents()), e)
    {
      EventKeepsIntegrity(Contents(), Event.Remove(e));
      var newKeys := Without(userOpKeys, GetKey(e));
      entries := entries - {GetKey(e)};
      userOpKeys := newKeys;
    }

    method ClearState()
      requires Valid()
      modifies this
      ensures Valid() && Contents() == Cleared(old(Contents()))
    {
      EventKeepsIntegrity(Contents(), Clear);
      hide Integrity;
      DeleteListed();
      userOpKeys := [];
    }

    method DeleteListed()
      modifies `entries
      ensures entries == WithoutKeys(old(entries), userOpKeys)
    {
      for i := 0 to |userOpKeys|
        invariant entries == WithoutKeys(old(entries), userOpKeys[..i])
      {
        assert userOpKeys[..i + 1][..i] == userOpKeys[..i];
        entries := entries - {userOpKeys[i]};
      }
      assert userOpKeys[..|userOpKeys|] == userOpKeys;
    }

    /** With integrity no listed key is ever missing, so nothing is left out. */
    method FetchAll() returns (all: seq<Entry>)
      requires Valid()
      ensures all == All(Contents()) && |all| == |userOpKeys|
      ensures forall i :: 0 <= i < |all| ==> all[i] == entries[userOpKeys[i]] && GetKey(all[i]) == userOpKeys[i]
    {
      hide GetKey;
      all := [];
      for i := 0 to |userOpKeys|
        invariant |all| == i
        invariant forall j :: 0 <= j < i ==> all[j] == entries[userOpKeys[j]]
      {
        all := all + [entries[userOpKeys[i]]];
      }
    }

    method GetNewEntriesSorted(size: nat, offset: nat) returns (candidates: seq<Entry>)
      requires Valid()
      ensures candidates == Candidates(Contents(), size, offset)
    {
      var all := FetchAll();
      candidates := Page(SortedByCost(WithStatusNew(all)), size, offset);
    }

    method GetEntryByHash(hash: string) returns (e: Option<Entry>)
      requires Valid()
      ensures e.Some? <==> hash in userOpHashes && userOpHashes[hash] in entries
      ensures e.Some? ==> e.value == entries[userOpHashes[hash]]
      ensures Indexed(Contents()) ==> forall k <- userOpKeys :: entries[k].userOpHash == hash ==> e == Some(entries[k])
    {
      if hash !in userOpHashes || userOpHashes[hash] !in entries {
        e := None;
      } else {
        e := Some(entries[userOpHashes[hash]]);
      }
      assert Indexed(Contents()) ==> forall k <- userOpKeys :: FoundByHash(Contents(), k);
    }

    /** The purge, with the blocks `others(i)` of other callers before its `i`-th removal. */
    method DeleteOldUserOps(archiveDuration: int, now: int, others: nat -> seq<Event>)
      requires Valid() && forall i: nat :: OwnEvents(others(i))
      modifies this
      ensures Valid()
      ensures var es := Removable(All(old(Contents())), archiveDuration, now);
              Contents() == PurgedAmid(old(Contents()), es, FirstOf(others, |es|))
    {
      hide Integrity, All, Removed, RunFrom;
      var all := FetchAll();
      var es := Removable(all, archiveDuration, now);
      ghost var before := FirstOf(others, |es|);
      for i := 0 to |es|
        invariant Valid() && Contents() == PurgedAmid(old(Contents()), es[..i], before[..i])
      {
        assert es[..i + 1][..i] == es[..i] && before[..i + 1][..i] == before[..i];
        assert es[..i + 1][i] == es[i] && before[..i + 1][i] == others(i);
        Perform(others(i));
        Remove(es[i]);
      }
      assert es[..|es|] == es && before[..|es|] == before;
    }

    predicate OwnEvents(events: seq<Event>) {
      forall e <- events :: e.Add? ==> e.ttl == ttl
    }

    /** Blocks of other callers. */
    method Perform(events: seq<Event>)
      requires Valid() && OwnEvents(events)
      modifies this
      ensures Valid() && Contents() == RunFrom(old(Contents()), events)
    {
      hide Integrity, Added, Updated, Removed, Cleared;
      for i := 0 to |events|
        invariant Valid() && Contents() == RunFrom(old(Contents()), events[..i])
      {
        assert events[..i + 1][..i] == events[..i];
        match events[i]
        case Add(entry, _, accepted, now) =>
          assert events[i] in events;
          var _ := AddUserOp(entry, accepted, true, now);
        case Update(entry) => Update(entry);
        case Remove(entry) => Remove(entry);
        case Clear => ClearState();
      }
      assert events[..|events|] == events;
    }
  }

  // ----- The purge -----

  /** The entries a purge decides to remove, as it has read them. */
  function Removable(all: seq<Entry>, archiveDuration: int, now: int): (r: seq<Entry>)
    ensures forall e :: e in r <==> e in all && Expired(e, archiveDuration, now)
  {
    if all == [] then []
    else
      var init, e := Removable(all[..|all| - 1], archiveDuration, now), all[|all| - 1];
      assert all == all[..|all| - 1] + [e];
      if Expired(e, archiveDuration, now) then init + [e] else init
  }

  ghost predicate DistinctKeys(es: seq<Entry>) {
    forall i, j :: 0 <= i < j < |es| ==> GetKey(es[i]) != GetKey(es[j])
  }

  lemma ListedOnce(s: Store)
    requires Integrity(s)
    ensures DistinctKeys(All(s)) && forall e <- All(s) :: GetKey(e) in s.entries && s.entries[GetKey(e)] == e
  {
    assert forall i :: 0 <= i < |s.keys| ==> s.keys[i] in s.keys && GetKey(All(s)[i]) == s.keys[i];
  }

  ghost predicate HasKey(es: seq<Entry>, k: string) {
    exists e <- es :: GetKey(e) == k
  }

  /** A purge that removes `es` one by one, with the blocks `others[i]` of other callers before the
      `i`-th removal. */
  function PurgedAmid(s: Store, es: seq<Entry>, others: seq<seq<Event>>): Store
    requires |es| == |others|
  {
    if es == [] then s
    else
      var n := |es| - 1;
      Removed(RunFrom(PurgedAmid(s, es[..n], others[..n]), others[n]), es[n])
  }

  function Flattened(others: seq<seq<Event>>): seq<Event> {
    if others == [] then [] else Flattened(others[..|others| - 1]) + others[|others| - 1]
  }

  /** What two stores hold under one key. */
  ghost predicate SameAt(s: Store, t: Store, k: string) {
    && (k in s.keys <==> k in t.keys)
    && (k in s.entries <==> k in t.entries)
    && (k in s.entries ==> s.entries[k] == t.entries[k])
  }

  /** What a block does to one key depends on nothing else. */
  lemma EventsAreLocal(s: Store, t: Store, e: Event, k: string)
    requires SameAt(s, t, k)
    ensures SameAt(After(s, e), After(t, e), k)
  {
    hide GetKey;
  }

  lemma {:induction false} RunsAreLocal(s: Store, t: Store, events: seq<Event>, k: string)
    requires SameAt(s, t, k)
    ensures SameAt(RunFrom(s, events), RunFrom(t, events), k)
  {
    if events == [] {
    } else {
      var init, last := events[..|events| - 1], events[|events| - 1];
      RunsAreLocal(s, t, init, k);
      EventsAreLocal(RunFrom(s, init), RunFrom(t, init), last, k);
    }
  }

  lemma {:induction false} RunOfAppend(s: Store, a: seq<Event>, b: seq<Event>)
    ensures RunFrom(s, a + b) == RunFrom(RunFrom(s, a), b)
  {
    if b == [] {
      assert a + b == a;
    } else {
      RunOfAppend(s, a, b[..|b| - 1]);
      assert (a + b)[..|a + b| - 1] == a + b[..|b| - 1];
    }
  }

  /** A purge touches only the keys it has read as expired: under any other key the other callers'
      blocks have the effect they would have had without it. */
  lemma {:induction false} PurgeTouchesOnlyExpired(s: Store, es: seq<Entry>, others: seq<seq<Event>>, k: string)
    requires |es| == |others| && !HasKey(es, k)
    ensures SameAt(PurgedAmid(s, es, others), RunFrom(s, Flattened(others)), k)
  {
    if es == [] {
    } else {
      hide GetKey, After, RunFrom;
      var n := |es| - 1;
      assert es == es[..n] + [es[n]] && es[n] in es;
      PurgeTouchesOnlyExpired(s, es[..n], others[..n], k);
      var purged, alone := PurgedAmid(s, es[..n], others[..n]), RunFrom(s, Flattened(others[..n]));
      RunsAreLocal(purged, alone, others[n], k);
      RunOfAppend(s, Flattened(others[..n]), others[n]);
    }
  }

  /** What stands under a key when it is first removed is what the other callers' blocks alone would have
      left there. */
  lemma RemovalMeets(s: Store, es: seq<Entry>, others: seq<seq<Event>>, i: nat)
    requires i < |es| == |others| && !HasKey(es[..i], GetKey(es[i]))
    ensures SameAt(RunFrom(PurgedAmid(s, es[..i], others[..i]), others[i]), RunFrom(s, Flattened(others[..i + 1])),
                   GetKey(es[i]))
  {
    hide GetKey, After, SameAt;
    PurgeTouchesOnlyExpired(s, es[..i], others[..i], GetKey(es[i]));
    var purged, alone := PurgedAmid(s, es[..i], others[..i]), RunFrom(s, Flattened(others[..i]));
    RunsAreLocal(purged, alone, others[i], GetKey(es[i]));
    assert others[..i + 1][..i] == others[..i];
    RunOfAppend(s, Flattened(others[..i]), others[i]);
  }

  lemma {:induction false} PurgeInTwo(s: Store, es: seq<Entry>, others: seq<seq<Event>>, i: nat)
    requires i <= |es| == |others|
    ensures PurgedAmid(s, es, others) == PurgedAmid(PurgedAmid(s, es[..i], others[..i]), es[i..], others[i..])
    decreases |es|
  {
    hide RunFrom, Removed;
    var n := |es| - 1;
    if i == |es| {
      assert es[..i] == es && others[..i] == others;
    } else {
      PurgeInTwo(s, es[..n], others[..n], i);
      assert es[..n][..i] == es[..i] && others[..n][..i] == others[..i];
      assert es[i..][..n - i] == es[..n][i..] && others[i..][..n - i] == others[..n][i..];
    }
  }

  lemma RemovalIsLocal(s: Store, t: Store, e: Entry, k: string)
    requires SameAt(s, t, k)
    ensures SameAt(Removed(s, e), Removed(t, e), k)
  {
  }

  /** Under each key it has read as expired a purge comes to one removal among the blocks of the other
      callers. */
  lemma PurgeIsOneRemoval(s: Store, es: seq<Entry>, others: seq<seq<Event>>, i: nat)
    requires i < |es| == |others| && DistinctKeys(es)
    ensures var before := RunFrom(s, Flattened(others[..i + 1]));
            SameAt(PurgedAmid(s, es, others), RunFrom(Removed(before, es[i]), Flattened(others[i + 1..])),
                GetKey(es[i]))
  {
    hide GetKey, Removed, RunFrom;
    var k, m := GetKey(es[i]), i + 1;
    var before, purged := RunFrom(s, Flattened(others[..m])), PurgedAmid(s, es[..m], others[..m]);
    RemovalMeets(s, es, others, i);
    assert es[..m][..i] == es[..i] && others[..m][..i] == others[..i];
    var met := RunFrom(PurgedAmid(s, es[..i], others[..i]), others[i]);
    assert purged == Removed(met, es[i]);
    RemovalIsLocal(met, before, es[i], k);
    PurgeInTwo(s, es, others, m);
    PurgeTouchesOnlyExpired(purged, es[m..], others[m..], k);
    RunsAreLocal(purged, Removed(before, es[i]), Flattened(others[m..]), k);
  }

  /** The entries a purge has read have distinct keys. */
  lemma RemovableOnce(s: Store, archiveDuration: int, now: int)
    requires Integrity(s)
    ensures DistinctKeys(Removable(All(s), archiveDuration, now))
  {
    ListedOnce(s);
    RemovableKeepsDistinct(All(s), archiveDuration, now);
  }

  lemma {:induction false} RemovableKeepsDistinct(all: seq<Entry>, archiveDuration: int, now: int)
    requires DistinctKeys(all)
    ensures DistinctKeys(Removable(all, archiveDuration, now))
  {
    hide GetKey, Expired;
    if all == [] {
    } else {
      var init, last := all[..|all| - 1], all[|all| - 1];
      RemovableKeepsDistinct(init, archiveDuration, now);
      forall e | e in Removable(init, archiveDuration, now) ensures GetKey(e) != GetKey(last) {
        var j :| 0 <= j < |init| && init[j] == e;
        assert all[j] == e;
      }
    }
  }

  ghost predicate GoneAt(s: Store, k: string) {
    k !in s.keys && k !in s.entries
  }

  /** No block of another caller touches the key. */
  ghost predicate Quiet(events: seq<Event>, k: string) {
    forall e <- events :: !e.Clear? && GetKey(e.entry) != k
  }

  lemma {:induction false} QuietKeeps(s: Store, events: seq<Event>, k: string)
    requires Quiet(events, k)
    ensures SameAt(RunFrom(s, events), s, k)
  {
    hide GetKey;
    if events == [] {
    } else {
      var init, last := events[..|events| - 1], events[|events| - 1];
      assert events == init + [last] && last in events;
      QuietKeeps(s, init, k);
    }
  }

  lemma ExpiredExactlyWhen(e: Entry, archiveDuration: int, now: int)
    ensures Expired(e, archiveDuration, now)
            <==> && (e.status == OnChain || e.status == Finalized || e.status == Cancelled || e.status == Reverted)
                 && e.lastUpdatedTime + 1000 * archiveDuration <= now
  {
  }

  lemma ReadWhereStored(s: Store, archiveDuration: int, now: int, k: string)
    requires Integrity(s) && k in s.keys
    ensures k in s.entries
    ensures var es, e := Removable(All(s), archiveDuration, now), s.entries[k];
            && GetKey(e) == k
            && (Expired(e, archiveDuration, now) ==> e in es)
            && (!Expired(e, archiveDuration, now) ==> !HasKey(es, k))
  {
    hide GetKey, Expired;
    var i :| 0 <= i < |s.keys| && s.keys[i] == k;
    assert All(s)[i] == s.entries[k] && All(s)[i] in All(s);
    ListedOnce(s);
    forall e | e in All(s) && GetKey(e) == k ensures e == s.entries[k] {
    }
  }

  /** Of the listed entries nobody else touches in the meantime a purge removes exactly those that are on
      chain or beyond and have not changed for the archive duration. */
  lemma PurgeRemovesExactlyExpired(s: Store, archiveDuration: int, now: int, others: seq<seq<Event>>, k: string)
    requires Integrity(s) && k in s.keys
    requires |others| == |Removable(All(s), archiveDuration, now)| && Quiet(Flattened(others), k)
    ensures var s' := PurgedAmid(s, Removable(All(s), archiveDuration, now), others);
            var e := s.entries[k];
            if && (e.status == OnChain || e.status == Finalized || e.status == Cancelled || e.status == Reverted)
               && e.lastUpdatedTime + 1000 * archiveDuration <= now
            then GoneAt(s', k) else SameAt(s', s, k)
  {
    hide GetKey, Expired, Integrity, RunFrom;
    var es, n := Removable(All(s), archiveDuration, now), |others|;
    ReadWhereStored(s, archiveDuration, now, k);
    ExpiredExactlyWhen(s.entries[k], archiveDuration, now);
    if Expired(s.entries[k], archiveDuration, now) {
      var i :| 0 <= i < n && es[i] == s.entries[k];
      RemovableOnce(s, archiveDuration, now);
      PurgeIsOneRemoval(s, es, others, i);
      FlattenedInTwo(others, i + 1);
      QuietKeeps(s, Flattened(others[..i + 1]), k);
      QuietKeeps(Removed(RunFrom(s, Flattened(others[..i + 1])), es[i]), Flattened(others[i + 1..]), k);
    } else {
      PurgeTouchesOnlyExpired(s, es, others, k);
      QuietKeeps(s, Flattened(others), k);
    }
  }

  lemma {:induction false} FlattenedInTwo(others: seq<seq<Event>>, i: nat)
    requires i <= |others|
    ensures Flattened(others) == Flattened(others[..i]) + Flattened(others[i..])
    decreases |others|
  {
    if i == |others| {
      assert others[..i] == others;
    } else {
      var n := |others| - 1;
      FlattenedInTwo(others[..n], i);
      assert others[..n][..i] == others[..i] && others[i..][..n - i] == others[..n][i..];
    }
  }

  ghost predicate TakesUnexpired(s: Store, k: string, archiveDuration: int, now: int) {
    k in s.entries && !Expired(s.entries[k], archiveDuration, now)
  }

  /** A removal of a purge takes an operation that is not expired if and only if the other callers' blocks
      before it would have left one there by themselves: they alone decide. */
  lemma PurgeTakesUnexpiredExactlyWhen(s: Store, archiveDuration: int, now: int, others: seq<seq<Event>>, i: nat)
    requires Integrity(s) && i < |others| == |Removable(All(s), archiveDuration, now)|
    ensures var es := Removable(All(s), archiveDuration, now);
            TakesUnexpired(RunFrom(PurgedAmid(s, es[..i], others[..i]), others[i]), GetKey(es[i]), archiveDuration, now)
            <==> TakesUnexpired(RunFrom(s, Flattened(others[..i + 1])), GetKey(es[i]), archiveDuration, now)
  {
    hide GetKey, Expired, RunFrom, Integrity;
    RemovableOnce(s, archiveDuration, now);
    RemovalMeets(s, Removable(All(s), archiveDuration, now), others, i);
  }

  /** No block of another caller stores anything under the key. */
  ghost predicate Silent(events: seq<Event>, k: string) {
    forall e <- events :: e.Add? || e.Update? ==> GetKey(e.entry) != k
  }

  lemma {:induction false} SilentKeepsGone(s: Store, events: seq<Event>, k: string)
    requires GoneAt(s, k) && Silent(events, k)
    ensures GoneAt(RunFrom(s, events), k)
  {
    if events == [] {
    } else {
      assert events == events[..|events| - 1] + [events[|events| - 1]];
      SilentKeepsGone(s, events[..|events| - 1], k);
    }
  }

  /** What is removed is decided by the copy that was read, whatever is stored by then: a key read as
      expired is gone after the purge unless another caller stores it anew after its removal. */
  lemma {:induction false} PurgeRemovesWhateverIsStored(s: Store, es: seq<Entry>, others: seq<seq<Event>>, i: nat)
    requires i < |es| == |others| && forall j :: i < j < |es| ==> Silent(others[j], GetKey(es[i]))
    ensures GoneAt(PurgedAmid(s, es, others), GetKey(es[i]))
    decreases |es|
  {
    hide RunFrom, GetKey;
    var n, k := |es| - 1, GetKey(es[i]);
    if i < n {
      assert forall j :: i < j < n ==> others[..n][j] == others[j];
      PurgeRemovesWhateverIsStored(s, es[..n], others[..n], i);
      SilentKeepsGone(PurgedAmid(s, es[..n], others[..n]), others[n], k);
    } else {
      assert GoneAt(Removed(RunFrom(PurgedAmid(s, es[..n], others[..n]), others[n]), es[n]), k);
    }
  }

  /** So an operation that replaced an expired one between the reading and the removal is removed
      although it is new. */
  lemma ReplacementIsPurged(s: Store, later: Entry, ttl: int, archiveDuration: int, now: int)
    requires Integrity(s) && GetKey(later) in s.keys && later.status == New
    requires var stored := s.entries[GetKey(later)];
             && (stored.status == Finalized || stored.status == Cancelled || stored.status == Reverted)
             && stored.lastUpdatedTime + 1000 * archiveDuration <= now
    ensures var k, others := GetKey(later), [Add(later, ttl, true, now)];
            var stored := s.entries[k];
            && stored in Removable(All(s), archiveDuration, now)
            && RunFrom(s, others).entries[k] == later.(lastUpdatedTime := now)
            && GoneAt(PurgedAmid(s, [stored], [others]), k)
  {
    hide GetKey, GoneAt, PurgedAmid;
    var k, others := GetKey(later), [Add(later, ttl, true, now)];
    var stored := s.entries[k];
    var i :| 0 <= i < |s.keys| && s.keys[i] == k;
    assert All(s)[i] == stored && All(s)[i] in All(s);
    assert others[..0] == [] && CanReplaceWithTTL(later, stored, ttl);
    PurgeRemovesWhateverIsStored(s, [stored], [others], 0);
  }
}
