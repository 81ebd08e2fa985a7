/** The mutex-protected blocks of packages/executor/src/services/MempoolService/service.ts write by write:
    what a block leaves behind when one of its writes to the database throws. */
module MempoolBlocks {
  import opened Wrappers
  import opened MempoolEntries
  import opened Mempools

  datatype Write =
    | PutKeys(keys: seq<string>)
    | PutEntry(key: string, entry: Entry)
    | DelEntry(key: string)
    | PutHash(hash: string, key: string)
    | DelHash(hash: string)

  function Applied(s: Store, w: Write): Store {
    match w
    case PutKeys(keys) => s.(keys := keys)
    case PutEntry(key, entry) => s.(entries := s.entries[key := entry])
    case DelEntry(key) => s.(entries := s.entries - {key})
    case PutHash(hash, key) => s.(hashes := s.hashes[hash := key])
    case DelHash(hash) => s.(hashes := s.hashes - {hash})
  }

  function AllApplied(s: Store, ws: seq<Write>): Store {
    if ws == [] then s else Applied(AllApplied(s, ws[..|ws| - 1]), ws[|ws| - 1])
  }

  function Deletions(keys: seq<string>): (r: seq<Write>)
    ensures |r| == |keys| && forall i :: 0 <= i < |r| ==> r[i] == DelEntry(keys[i])
  {
    if keys == [] then [] else Deletions(keys[..|keys| - 1]) + [DelEntry(keys[|keys| - 1])]
  }

  /** The writes of a block, in order. */
  function WritesOf(s: Store, e: Event): seq<Write> {
    match e
    case Add(entry, ttl, accepted, now) =>
      var key, stamped := GetKey(entry), entry.(lastUpdatedTime := now);
      if Added(s, entry, ttl, accepted, now).Failure? then []
      else if key in s.entries then
        [PutEntry(key, stamped), DelHash(s.entries[key].userOpHash), PutHash(entry.userOpHash, key)]
      else [PutKeys(s.keys + [key]), PutEntry(key, stamped), PutHash(entry.userOpHash, key)]
    case Update(entry) => [PutEntry(GetKey(entry), entry)]
    case Remove(entry) => [DelEntry(GetKey(entry)), PutKeys(Without(s.keys, GetKey(entry)))]
    case Clear => Deletions(s.keys) + [PutKeys([])]
  }

  /** What a block leaves behind that throws after `n` of its writes. */
  function Interrupted(s: Store, e: Event, n: nat): Store
    requires n <= |WritesOf(s, e)|
  {
    AllApplied(s, WritesOf(s, e)[..n])
  }

  lemma {:induction false} DeletionsDelete(s: Store, keys: seq<string>, n: nat)
    requires n <= |keys|
    ensures AllApplied(s, Deletions(keys)[..n]) == s.(entries := WithoutKeys(s.entries, keys[..n]))
    decreases n
  {
    if n == 0 {
    } else {
      DeletionsDelete(s, keys, n - 1);
      assert Deletions(keys)[..n][..n - 1] == Deletions(keys)[..n - 1] && keys[..n][..n - 1] == keys[..n - 1];
    }
  }

  lemma FirstWrites(s: Store, a: Write, b: Write, c: Write)
    ensures AllApplied(s, [a]) == Applied(s, a)
    ensures AllApplied(s, [a, b]) == Applied(Applied(s, a), b)
    ensures AllApplied(s, [a, b, c]) == Applied(Applied(Applied(s, a), b), c)
  {
    hide Applied;
    assert [a, b, c][..2] == [a, b] && [a, b][..1] == [a] && [a][..0] == [];
  }

  /** What stands in the store after each number of writes. */
  lemma InterruptedAdd(s: Store, entry: Entry, ttl: int, accepted: bool, now: int, n: nat)
    requires Added(s, entry, ttl, accepted, now).Success? && n <= 3
    ensures var e, key, stamped := Add(entry, ttl, accepted, now), GetKey(entry), entry.(lastUpdatedTime := now);
            && |WritesOf(s, e)| == 3
            && (n == 0 ==> Interrupted(s, e, n) == s)
            && (n == 3 ==> Interrupted(s, e, n) == After(s, e))
            && (key in s.entries ==>
                  && (n == 1 ==> Interrupted(s, e, n) == s.(entries := s.entries[key := stamped]))
                  && (n == 2 ==> Interrupted(s, e, n)
                                 == s.(entries := s.entries[key := stamped],
                                       hashes := s.hashes - {s.entries[key].userOpHash})))
            && (key !in s.entries ==>
                  && (n == 1 ==> Interrupted(s, e, n) == s.(keys := s.keys + [key]))
                  && (n == 2 ==> Interrupted(s, e, n)
                                 == s.(keys := s.keys + [key], entries := s.entries[key := stamped])))
  {
    hide GetKey, CanReplaceWithTTL;
    var e := Add(entry, ttl, accepted, now);
    var ws := WritesOf(s, e);
    FirstWrites(s, ws[0], ws[1], ws[2]);
    assert ws[..0] == [] && ws[..1] == [ws[0]] && ws[..2] == [ws[0], ws[1]] && ws[..3] == [ws[0], ws[1], ws[2]];
  }

  lemma InterruptedRemove(s: Store, entry: Entry)
    ensures Interrupted(s, Remove(entry), 0) == s
    ensures Interrupted(s, Remove(entry), 1) == s.(entries := s.entries - {GetKey(entry)})
    ensures Interrupted(s, Remove(entry), 2) == After(s, Remove(entry))
  {
    hide GetKey;
    var ws := WritesOf(s, Remove(entry));
    FirstWrites(s, ws[0], ws[1], ws[1]);
    assert ws[..0] == [] && ws[..1] == [ws[0]] && ws[..2] == [ws[0], ws[1]];
  }

  lemma InterruptedClear(s: Store, n: nat)
    requires n <= |s.keys| + 1
    ensures |WritesOf(s, Clear)| == |s.keys| + 1
    ensures n <= |s.keys| ==> Interrupted(s, Clear, n) == s.(entries := WithoutKeys(s.entries, s.keys[..n]))
    ensures n == |s.keys| + 1 ==> Interrupted(s, Clear, n) == After(s, Clear)
  {
    var ws, m := WritesOf(s, Clear), |s.keys|;
    if n <= m {
      assert ws[..n] == Deletions(s.keys)[..n];
      DeletionsDelete(s, s.keys, n);
    } else {
      assert ws[..n] == ws && ws[..m] == Deletions(s.keys)[..m] && s.keys[..m] == s.keys;
      DeletionsDelete(s, s.keys, m);
    }
  }

  lemma InterruptedUpdate(s: Store, entry: Entry)
    ensures Interrupted(s, Update(entry), 0) == s && Interrupted(s, Update(entry), 1) == After(s, Update(entry))
  {
    var ws := WritesOf(s, Update(entry));
    FirstWrites(s, ws[0], ws[0], ws[0]);
    assert ws[..0] == [] && ws[..1] == [ws[0]];
  }

  /** All the writes of a block together are the block. */
  lemma WritesMakeTheBlock(s: Store, e: Event)
    ensures Interrupted(s, e, |WritesOf(s, e)|) == After(s, e)
  {
    match e
    case Add(entry, ttl, accepted, now) =>
      if Added(s, entry, ttl, accepted, now).Success? {
        InterruptedAdd(s, entry, ttl, accepted, now, 3);
      }
    case Update(entry) => InterruptedUpdate(s, entry);
    case Remove(entry) => InterruptedRemove(s, entry);
    case Clear => InterruptedClear(s, |s.keys| + 1);
  }

  // ----- Integrity -----

  /** The writes after which a listed key has no entry: the first of an addition, the first of a removal of
      a listed entry, and all but the last of a clearing. */
  predicate LosesEntry(s: Store, e: Event, n: nat) {
    match e
    case Add(entry, ttl, accepted, now) =>
      n == 1 && GetKey(entry) !in s.entries && Added(s, entry, ttl, accepted, now).Success?
    case Update(_) => false
    case Remove(entry) => n == 1 && GetKey(entry) in s.keys
    case Clear => 0 < n <= |s.keys|
  }

  ghost predicate MissesEntry(s: Store) {
    exists k <- s.keys :: k !in s.entries
  }

  lemma MissingEntryHidesAll(s: Store)
    requires MissesEntry(s)
    ensures !Integrity(s) && All(s) == []
  {
  }

  lemma InterruptedAddKeepsIntegrity(s: Store, entry: Entry, ttl: int, accepted: bool, now: int, n: nat)
    requires Integrity(s) && Added(s, entry, ttl, accepted, now).Success? && n <= 3
    ensures |WritesOf(s, Add(entry, ttl, accepted, now))| == 3
    ensures var s' := Interrupted(s, Add(entry, ttl, accepted, now), n);
            if n == 1 && GetKey(entry) !in s.entries then MissesEntry(s') else Integrity(s')
  {
    hide WritesOf, CanReplaceWithTTL;
    InterruptedAdd(s, entry, ttl, accepted, now, n);
    var s' := Interrupted(s, Add(entry, ttl, accepted, now), n);
    AddKeepsIntegrity(s, entry, ttl, accepted, now);
    GetKeyIgnoresTime(entry, now);
    hide GetKey;
    if n == 1 && GetKey(entry) !in s.entries {
      assert s'.keys[|s.keys|] == GetKey(entry);
    }
  }

  lemma InterruptedClearLosesEntry(s: Store, n: nat)
    requires Integrity(s) && n <= |s.keys| + 1
    ensures |WritesOf(s, Clear)| == |s.keys| + 1
    ensures var s' := Interrupted(s, Clear, n); if 0 < n <= |s.keys| then MissesEntry(s') else Integrity(s')
  {
    hide WritesOf, Interrupted, GetKey;
    InterruptedClear(s, n);
    if 0 < n <= |s.keys| {
      assert s.keys[0] in s.keys && s.keys[..n][0] == s.keys[0];
    } else if n == 0 {
      assert s.keys[..n] == [];
    } else {
      ClearKeepsIntegrity(s);
    }
  }

  /** A block that throws after `n` writes keeps integrity if and only if these are not such writes; if they
      are, a reader of all entries is answered nothing. */
  lemma InterruptedKeepsIntegrityExactlyWhen(s: Store, e: Event, n: nat)
    requires Integrity(s) && n <= |WritesOf(s, e)|
    ensures Integrity(Interrupted(s, e, n)) <==> !LosesEntry(s, e, n)
    ensures LosesEntry(s, e, n) ==> All(Interrupted(s, e, n)) == []
  {
    hide Integrity, MissesEntry;
    var s' := Interrupted(s, e, n);
    match e {
      case Add(entry, ttl, accepted, now) =>
        if Added(s, entry, ttl, accepted, now).Success? {
          InterruptedAddKeepsIntegrity(s, entry, ttl, accepted, now, n);
        }
      case Update(entry) =>
        InterruptedUpdate(s, entry);
        UpdateKeepsIntegrity(s, entry);
      case Remove(entry) =>
        InterruptedRemoveLosesEntry(s, entry, n);
      case Clear =>
        InterruptedClearLosesEntry(s, n);
    }
    if MissesEntry(s') {
      MissingEntryHidesAll(s');
    }
  }

  lemma InterruptedRemoveLosesEntry(s: Store, entry: Entry, n: nat)
    requires Integrity(s) && n <= 2
    ensures var s' := Interrupted(s, Remove(entry), n);
            if n == 1 && GetKey(entry) in s.keys then MissesEntry(s') else Integrity(s')
  {
    hide WritesOf, Interrupted, GetKey;
    InterruptedRemove(s, entry);
    RemoveKeepsIntegrity(s, entry);
  }

  // ----- Afterwards -----

  /** A block that stores the missing entry or takes its key off the list. */
  ghost predicate Repairs(s: Store, e: Event, k: string) {
    match e
    case Add(entry, ttl, accepted, now) => GetKey(entry) == k && accepted
    case Update(entry) => GetKey(entry) == k
    case Remove(entry) => GetKey(entry) == k
    case Clear => true
  }

  /** A listed key stays without an entry, and all entries unread, until such a block. */
  lemma StaysMissingExactlyWhen(s: Store, e: Event, k: string)
    requires k in s.keys && k !in s.entries
    ensures k in After(s, e).keys && k !in After(s, e).entries <==> !Repairs(s, e, k)
    ensures !Repairs(s, e, k) ==> All(After(s, e)) == []
  {
    hide GetKey, CanReplaceWithTTL;
  }

  /** An addition that throws after its first write and is tried again lists its operation twice: every
      entry can be read again, this one in two places. */
  lemma RetryListsTwice(s: Store, entry: Entry, ttl: int, now: int, later: int)
    requires Integrity(s) && GetKey(entry) !in s.entries
    ensures |WritesOf(s, Add(entry, ttl, true, now))| == 3
    ensures var s' := After(Interrupted(s, Add(entry, ttl, true, now), 1), Add(entry, ttl, true, later));
            var stamped := entry.(lastUpdatedTime := later);
            !Integrity(s') && All(s') == All(s) + [stamped, stamped]
  {
    InterruptedAdd(s, entry, ttl, true, now, 1);
    var s' := After(Interrupted(s, Add(entry, ttl, true, now), 1), Add(entry, ttl, true, later));
    hide GetKey, CanReplaceWithTTL, WritesOf, Interrupted, Integrity, All;
    TwiceListed(s, s', GetKey(entry), entry.(lastUpdatedTime := later));
  }

  lemma TwiceListed(s: Store, s': Store, key: string, e: Entry)
    requires Integrity(s) && key !in s.entries
    requires s'.keys == s.keys + [key, key] && s'.entries == s.entries[key := e]
    ensures !Integrity(s') && All(s') == All(s) + [e, e]
  {
    hide GetKey;
    assert s'.keys[|s.keys|] == s'.keys[|s.keys| + 1];
    forall i | 0 <= i < |s.keys| ensures s'.entries[s'.keys[i]] == s.entries[s.keys[i]] {
      assert s.keys[i] in s.keys;
    }
    assert forall k <- s'.keys :: k in s'.entries;
  }

  // ----- The hash index -----

  predicate LeadsTo(hashes: map<string, string>, hash: string, key: string) {
    hash in hashes && hashes[hash] == key
  }

  /** The writes after which an addition has stored its entry and its hash does not lead there yet. */
  predicate LosesHash(s: Store, e: Event, n: nat) {
    && e.Add? && Added(s, e.entry, e.ttl, e.accepted, e.now).Success?
    && var key := GetKey(e.entry);
       if key in s.entries then
         || (n == 1 && !LeadsTo(s.hashes, e.entry.userOpHash, key))
         || (n == 2 && !LeadsTo(s.hashes - {s.entries[key].userOpHash}, e.entry.userOpHash, key))
       else n == 2 && !LeadsTo(s.hashes, e.entry.userOpHash, key)
  }

  /** A block that throws before its last write leaves every stored entry listed and findable if and only if
      these are not such writes. */
  lemma InterruptedKeepsIndexExactlyWhen(keyOf: string -> string, s: Store, e: Event, n: nat)
    requires Integrity(s) && Indexed(s) && StoreHashes(keyOf, s) && n < |WritesOf(s, e)|
    ensures Indexed(Interrupted(s, e, n)) <==> !LosesHash(s, e, n)
  {
    hide Integrity, Indexed, StoreHashes, WithoutKeys, LosesHash;
    match e
    case Add(entry, ttl, accepted, now) =>
      if Added(s, entry, ttl, accepted, now).Success? {
        InterruptedAddIndex(keyOf, s, entry, ttl, accepted, now, n);
      }
    case Update(entry) =>
      InterruptedUpdate(s, entry);
      LosesNoHash(s, e, n);
    case Remove(entry) =>
      InterruptedRemove(s, entry);
      FewerEntriesKeepIndex(s, s.entries - {GetKey(entry)});
      LosesNoHash(s, e, n);
    case Clear =>
      InterruptedClear(s, n);
      FewerEntriesKeepIndex(s, WithoutKeys(s.entries, s.keys[..n]));
      LosesNoHash(s, e, n);
  }

  lemma LosesNoHash(s: Store, e: Event, n: nat)
    requires !e.Add?
    ensures !LosesHash(s, e, n)
  {
  }

  lemma FewerEntriesKeepIndex(s: Store, entries: map<string, Entry>)
    requires Indexed(s) && forall k <- entries :: k in s.entries && entries[k] == s.entries[k]
    ensures Indexed(s.(entries := entries))
  {
    forall k | k in entries ensures FoundByHash(s.(entries := entries), k) {
      assert FoundByHash(s, k);
    }
  }

  lemma InterruptedAddIndex(keyOf: string -> string, s: Store, entry: Entry, ttl: int, accepted: bool, now: int, n: nat)
    requires Integrity(s) && Indexed(s) && StoreHashes(keyOf, s)
    requires Added(s, entry, ttl, accepted, now).Success? && n < 3
    ensures |WritesOf(s, Add(entry, ttl, accepted, now))| == 3
    ensures var e := Add(entry, ttl, accepted, now); Indexed(Interrupted(s, e, n)) <==> !LosesHash(s, e, n)
  {
    InterruptedAdd(s, entry, ttl, accepted, now, n);
    hide GetKey, CanReplaceWithTTL, WritesOf, Interrupted, Integrity, Indexed, StoreHashes, Added;
    var e, key := Add(entry, ttl, accepted, now), GetKey(entry);
    var s', stamped := Interrupted(s, e, n), entry.(lastUpdatedTime := now);
    if n == 0 {
    } else if key in s.entries {
      IndexedExactlyWhenFound(keyOf, s, s', key);
    } else if n == 1 {
      MoreKeysKeepIndex(s, key);
    } else {
      IndexedExactlyWhenFound(keyOf, s, s', key);
    }
  }

  lemma MoreKeysKeepIndex(s: Store, key: string)
    requires Indexed(s)
    ensures Indexed(s.(keys := s.keys + [key]))
  {
    assert forall k <- s.entries :: FoundByHash(s, k);
  }

  lemma IndexedExactlyWhenFound(keyOf: string -> string, s: Store, s': Store, key: string)
    requires Indexed(s) && StoreHashes(keyOf, s) && key in s'.entries
    requires s'.entries == s.entries[key := s'.entries[key]]
    requires s'.hashes == s.hashes || (key in s.entries && s'.hashes == s.hashes - {s.entries[key].userOpHash})
    requires s'.keys == if key in s.entries then s.keys else s.keys + [key]
    ensures Indexed(s') <==> LeadsTo(s'.hashes, s'.entries[key].userOpHash, key)
  {
    OthersStayFound(keyOf, s, s', key);
    assert key in s'.keys;
    assert LeadsTo(s'.hashes, s'.entries[key].userOpHash, key) <==> FoundByHash(s', key);
  }

  /** Entries under other keys are found as before when at most the hash of this key's entry has gone. */
  lemma OthersStayFound(keyOf: string -> string, s: Store, s': Store, key: string)
    requires Indexed(s) && StoreHashes(keyOf, s)
    requires s'.entries.Keys == s.entries.Keys + {key} && forall k <- s.entries :: k != key ==>
            s'.entries[k] == s.entries[k]
    requires s'.hashes == s.hashes || (key in s.entries && s'.hashes == s.hashes - {s.entries[key].userOpHash})
    requires forall k <- s.keys :: k in s'.keys
    ensures forall k <- s'.entries :: k != key ==> k in s'.keys && FoundByHash(s', k)
  {
    forall k | k in s'.entries && k != key ensures k in s'.keys && FoundByHash(s', k) {
      assert FoundByHash(s, k);
      assert key in s.entries ==> FoundByHash(s, key);
    }
  }
}
