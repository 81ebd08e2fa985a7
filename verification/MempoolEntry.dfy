/** Mempool entries, packages/executor/src/entities/MempoolEntry.ts, and the keys they are stored under. */
module MempoolEntries {
  import opened Sorting
  import opened Wrappers
  import opened Text

  /** The statuses in the order of their numbers. */
  datatype Status = New | Pending | Submitted | OnChain | Finalized | Cancelled | Reverted {
    function Rank(): nat {
      match this
      case New => 0
      case Pending => 1
      case Submitted => 2
      case OnChain => 3
      case Finalized => 4
      case Cancelled => 5
      case Reverted => 6
    }
  }

  datatype UserOp = UserOp(sender: string, nonce: nat, callGasLimit: nat, verificationGasLimit: nat,
                           maxFeePerGas: nat, maxPriorityFeePerGas: nat,
                           paymasterVerificationGasLimit: Option<nat>, paymasterPostOpGasLimit: Option<nat>)

  datatype Entry = Entry(chainId: nat, userOp: UserOp, entryPoint: string,
                         paymaster: Option<string>, factory: Option<string>,
                         userOpHash: string, status: Status, lastUpdatedTime: int, submitAttempts: nat,
                         transaction: Option<string>, actualTransaction: Option<string>, revertReason: Option<string>)

  // ----- Status changes -----

  datatype Params = Params(transaction: Option<string>, revertReason: Option<string>)

  function WithStatus(e: Entry, status: Status, params: Params, now: int): Entry {
    var e := e.(status := status, lastUpdatedTime := now);
    match status
    case Pending => e.(transaction := params.transaction)
    case Submitted => e.(transaction := params.transaction)
    case OnChain => e.(actualTransaction := params.transaction)
    case Reverted => e.(revertReason := params.revertReason)
    case _ => e
  }

  /** What a status change writes: the transaction of a bundle that is pending or submitted, the one that took an
      operation on chain, or the reason it was reverted for; every other field stays. */
  lemma StatusSetsFields(e: Entry, status: Status, params: Params, now: int)
    ensures WithStatus(e, status, params, now)
         == e.(status := status, lastUpdatedTime := now,
               transaction := if status == Pending || status == Submitted then params.transaction else e.transaction,
               actualTransaction := if status == OnChain then params.transaction else e.actualTransaction,
               revertReason := if status == Reverted then params.revertReason else e.revertReason)
  {
  }

  // ----- Replacement -----

  predicate IsEqual(a: Entry, b: Entry) {
    a.chainId == b.chainId && a.userOp.nonce == b.userOp.nonce && a.userOp.sender == b.userOp.sender
  }

  predicate CanReplace(e: Entry, existing: Entry) {
    || existing.status.Rank() > OnChain.Rank()
    || (&& IsEqual(e, existing)
        && e.userOp.maxPriorityFeePerGas >= existing.userOp.maxPriorityFeePerGas * 11 / 10
        && e.userOp.maxFeePerGas >= existing.userOp.maxFeePerGas * 11 / 10)
  }

  predicate CanReplaceWithTTL(e: Entry, existing: Entry, ttl: int) {
    e.lastUpdatedTime - existing.lastUpdatedTime > ttl * 1000 || CanReplace(e, existing)
  }

  /** A replacement of a live operation promises fees at least ten per cent higher; rounding down
      makes that true of all replacements exactly when both old fees are multiples of ten. */
  lemma TenPercentHigherExactlyWhen(existing: Entry)
    requires existing.status.Rank() <= OnChain.Rank()
    ensures (forall e :: CanReplace(e, existing) ==>
               && 10 * e.userOp.maxPriorityFeePerGas >= 11 * existing.userOp.maxPriorityFeePerGas
               && 10 * e.userOp.maxFeePerGas >= 11 * existing.userOp.maxFeePerGas)
            <==> existing.userOp.maxPriorityFeePerGas % 10 == 0 && existing.userOp.maxFeePerGas % 10 == 0
  {
    var p, f := existing.userOp.maxPriorityFeePerGas, existing.userOp.maxFeePerGas;
    var cheapest := existing.(userOp :=
        existing.userOp.(maxPriorityFeePerGas := p * 11 / 10, maxFeePerGas := f * 11 / 10));
    assert CanReplace(cheapest, existing);
    TenthsRoundDown(p);
    TenthsRoundDown(f);
    forall e | CanReplace(e, existing) && p % 10 == 0 && f % 10 == 0
      ensures 10 * e.userOp.maxPriorityFeePerGas >= 11 * p && 10 * e.userOp.maxFeePerGas >= 11 * f
    {
      TenthsSuffice(p, e.userOp.maxPriorityFeePerGas);
      TenthsSuffice(f, e.userOp.maxFeePerGas);
    }
  }

  lemma TenthsRoundDown(fee: nat)
    ensures fee * 11 / 10 == fee + fee / 10
    ensures 10 * (fee * 11 / 10) >= 11 * fee <==> fee % 10 == 0
  {
    assert fee * 11 == fee + 10 * fee;
  }

  lemma TenthsSuffice(fee: nat, paid: nat)
    requires fee % 10 == 0 && paid >= fee * 11 / 10
    ensures 10 * paid >= 11 * fee
  {
    TenthsRoundDown(fee);
  }

  // ----- Keys -----

  function LowerChar(c: char): char {
    if 'A' <= c <= 'Z' then c - 'A' + 'a' else c
  }

  function Lower(s: string): (l: string)
    ensures |l| == |s|
    ensures forall i :: 0 <= i < |s| ==> l[i] == LowerChar(s[i])
  {
    seq(|s|, i requires 0 <= i < |s| => LowerChar(s[i]))
  }

  lemma LowerByChar(s: string, i: nat)
    requires i < |s|
    ensures Lower(s)[i] == if 'A' <= s[i] <= 'Z' then (s[i] as int + 32) as char else s[i]
  {
  }

  function GetKey(e: Entry): string {
    Decimal(e.chainId) + ":" + Lower(e.userOp.sender) + ":" + Decimal(e.userOp.nonce)
  }

  const KEYS_SUFFIX := "USEROPKEYS"
  const HASH_PREFIX := "USEROPHASH"

  /** Where the list of keys is stored. */
  function CollectionKey(chainId: nat): string {
    Decimal(chainId) + ":" + KEYS_SUFFIX
  }

  /** Where the key of the operation with a given hash is stored. */
  function HashKey(hash: string): string {
    HASH_PREFIX + ":" + hash
  }

  lemma {:induction false} SplitOfPlain(s: string, sep: char)
    requires sep !in s
    ensures Split(s, sep) == [s]
  {
    if s == "" {
    } else {
      SplitOfPlain(s[..|s| - 1], sep);
      assert s[..|s| - 1] + [s[|s| - 1]] == s;
    }
  }

  lemma PartsOfKey(e: Entry)
    requires ':' !in e.userOp.sender
    ensures Split(GetKey(e), ':') == [Decimal(e.chainId), Lower(e.userOp.sender), Decimal(e.userOp.nonce)]
  {
    var a, b, c := Decimal(e.chainId), Lower(e.userOp.sender), Decimal(e.userOp.nonce);
    SplitOfAppend(a + ":" + b, ':', c);
    SplitOfAppend(a, ':', b);
    SplitOfPlain(a, ':');
    assert [a] + [b] + [c] == [a, b, c];
  }

  /** Two operations share a key exactly when chain, sender (up to letter case) and nonce agree. */
  lemma SameKeyExactlyWhen(d: Entry, e: Entry)
    requires ':' !in d.userOp.sender && ':' !in e.userOp.sender
    ensures GetKey(d) == GetKey(e)
            <==> && d.chainId == e.chainId && d.userOp.nonce == e.userOp.nonce
                 && Lower(d.userOp.sender) == Lower(e.userOp.sender)
  {
    PartsOfKey(d);
    PartsOfKey(e);
    if GetKey(d) == GetKey(e) {
      var p, q := Split(GetKey(d), ':'), Split(GetKey(e), ':');
      assert p[0] == q[0] && p[1] == q[1] && p[2] == q[2];
      ParseOfDecimal(d.chainId);
      ParseOfDecimal(e.chainId);
      ParseOfDecimal(d.userOp.nonce);
      ParseOfDecimal(e.userOp.nonce);
    }
  }

  /** Entries, the key list and the hash index share one database without ever meeting, which is why
      the store below keeps them apart. */
  lemma KeySpacesAreDisjoint(e: Entry, chainId: nat, hash: string)
    requires ':' !in e.userOp.sender && ':' !in hash
    ensures GetKey(e) != CollectionKey(chainId)
    ensures GetKey(e) != HashKey(hash)
    ensures CollectionKey(chainId) != HashKey(hash)
  {
    hide Split, Decimal, GetKey;
    PartsOfKey(e);
    var d := Decimal(chainId);
    SplitOfAppend(d, ':', KEYS_SUFFIX);
    SplitOfPlain(d, ':');
    SplitOfAppend(HASH_PREFIX, ':', hash);
    SplitOfPlain(HASH_PREFIX, ':');
    assert |Split(GetKey(e), ':')| == 3 && |[d] + [KEYS_SUFFIX]| == 2 && |[HASH_PREFIX] + [hash]| == 2;
    assert Split(CollectionKey(chainId), ':')[0] == d && Split(HashKey(hash), ':')[0] == HASH_PREFIX;
    assert d[0] != HASH_PREFIX[0];
  }

  // ----- Selecting candidates -----

  function WithStatusNew(entries: seq<Entry>): seq<Entry> {
    if entries == [] then []
    else
      var init, last := WithStatusNew(entries[..|entries| - 1]), entries[|entries| - 1];
      if last.status == New then init + [last] else init
  }

  lemma {:induction false} NewOfAppend(a: seq<Entry>, b: seq<Entry>, e: Entry)
    ensures WithStatusNew([e]) == if e.status == New then [e] else []
    ensures WithStatusNew(a + b) == WithStatusNew(a) + WithStatusNew(b)
    decreases |b|
  {
    assert [e][..0] == [];
    if b == [] {
      assert a + b == a;
    } else {
      NewOfAppend(a, b[..|b| - 1], e);
      assert (a + b)[..|a + b| - 1] == a + b[..|b| - 1];
    }
  }

  function Fee(e: Entry): nat {
    e.userOp.maxPriorityFeePerGas
  }

  predicate PaysAtLeast(a: Entry, b: Entry) {
    Fee(a) >= Fee(b)
  }

  /** The stable sort by `compareByCost`, dearest first. */
  function SortedByCost(entries: seq<Entry>): seq<Entry> {
    Sorted(entries, PaysAtLeast)
  }

  ghost predicate DearestFirst(entries: seq<Entry>) {
    forall i, j :: 0 <= i < j < |entries| ==>
      entries[i].userOp.maxPriorityFeePerGas >= entries[j].userOp.maxPriorityFeePerGas
  }

  /** Sorting by cost puts the dearest first and neither loses nor invents an entry. */
  lemma SortIsSortedPermutation(entries: seq<Entry>)
    ensures DearestFirst(SortedByCost(entries))
    ensures multiset(SortedByCost(entries)) == multiset(entries)
  {
    assert Ordering(PaysAtLeast);
    SortedIsInOrder(entries, PaysAtLeast);
    SortedIsPermutation(entries, PaysAtLeast);
    var sorted := SortedByCost(entries);
    forall i, j | 0 <= i < j < |sorted|
      ensures sorted[i].userOp.maxPriorityFeePerGas >= sorted[j].userOp.maxPriorityFeePerGas
    {
      assert PaysAtLeast(sorted[i], sorted[j]);
    }
  }

  function OfFee(entries: seq<Entry>, fee: nat): seq<Entry> {
    if entries == [] then []
    else
      var init, last := OfFee(entries[..|entries| - 1], fee), entries[|entries| - 1];
      if last.userOp.maxPriorityFeePerGas == fee then init + [last] else init
  }

  lemma {:induction false} TiesHaveOneFee(entries: seq<Entry>, x: Entry)
    ensures Ties(entries, x, PaysAtLeast) == OfFee(entries, Fee(x))
  {
    if entries == [] {
    } else {
      TiesHaveOneFee(entries[..|entries| - 1], x);
    }
  }

  /** Equal fees keep their order: sorting leaves the entries of every one fee as they were. */
  lemma SortIsStable(entries: seq<Entry>, x: Entry)
    ensures OfFee(SortedByCost(entries), x.userOp.maxPriorityFeePerGas) == OfFee(entries, x.userOp.maxPriorityFeePerGas)
  {
    assert Ordering(PaysAtLeast);
    SortedIsStable(entries, x, PaysAtLeast);
    TiesHaveOneFee(entries, x);
    TiesHaveOneFee(SortedByCost(entries), x);
  }

  // ----- Grouping by sender -----

  /** The entries of one sender, in order. */
  function OfSender(entries: seq<Entry>, sender: string): seq<Entry> {
    if entries == [] then []
    else
      var init, last := OfSender(entries[..|entries| - 1], sender), entries[|entries| - 1];
      if last.userOp.sender == sender then init + [last] else init
  }

  /** The senders in the order of their first entries. */
  function Senders(entries: seq<Entry>): seq<string> {
    if entries == [] then []
    else
      var before, sender := Senders(entries[..|entries| - 1]), entries[|entries| - 1].userOp.sender;
      if sender in before then before else before + [sender]
  }

  function Groups(entries: seq<Entry>, senders: seq<string>): seq<Entry> {
    if senders == [] then []
    else Groups(entries, senders[..|senders| - 1]) + OfSender(entries, senders[|senders| - 1])
  }

  /** `groupBySender`: all entries of one sender, then all of the next, and so on. */
  function GroupBySender(entries: seq<Entry>): seq<Entry> {
    Groups(entries, Senders(entries))
  }

  lemma {:induction false} SendersAreDistinct(entries: seq<Entry>)
    ensures forall i, j :: 0 <= i < j < |Senders(entries)| ==> Senders(entries)[i] != Senders(entries)[j]
    ensures forall e <- entries :: e.userOp.sender in Senders(entries)
  {
    if entries == [] {
    } else {
      SendersAreDistinct(entries[..|entries| - 1]);
      assert entries == entries[..|entries| - 1] + [entries[|entries| - 1]];
    }
  }

  lemma {:induction false} OfSenderOfAppend(a: seq<Entry>, b: seq<Entry>, sender: string)
    ensures OfSender(a + b, sender) == OfSender(a, sender) + OfSender(b, sender)
    decreases |b|
  {
    if b == [] {
      assert a + b == a;
    } else {
      OfSenderOfAppend(a, b[..|b| - 1], sender);
      assert (a + b)[..|a + b| - 1] == a + b[..|b| - 1];
    }
  }

  lemma {:induction false} OfSenderTwice(entries: seq<Entry>, s: string, t: string)
    ensures OfSender(OfSender(entries, s), t) == if s == t then OfSender(entries, s) else []
  {
    if entries == [] {
    } else {
      var init, last := entries[..|entries| - 1], entries[|entries| - 1];
      OfSenderTwice(init, s, t);
      if last.userOp.sender == s {
        assert (OfSender(init, s) + [last])[..|OfSender(init, s)|] == OfSender(init, s);
      }
    }
  }

  lemma {:induction false} OfSenderOfGroups(entries: seq<Entry>, senders: seq<string>, s: string)
    requires forall i, j :: 0 <= i < j < |senders| ==> senders[i] != senders[j]
    ensures OfSender(Groups(entries, senders), s) == if s in senders then OfSender(entries, s) else []
  {
    if senders == [] {
    } else {
      var init, last := senders[..|senders| - 1], senders[|senders| - 1];
      assert senders == init + [last];
      OfSenderOfGroups(entries, init, s);
      OfSenderOfAppend(Groups(entries, init), OfSender(entries, last), s);
      OfSenderTwice(entries, last, s);
    }
  }

  lemma {:induction false} NoneOfSender(entries: seq<Entry>, s: string)
    requires forall e <- entries :: e.userOp.sender != s
    ensures OfSender(entries, s) == []
  {
    if entries == [] {
    } else {
      NoneOfSender(entries[..|entries| - 1], s);
    }
  }

  /** Grouping loses nothing, invents nothing, and keeps the order of each sender's entries. */
  lemma GroupingKeepsEachSender(entries: seq<Entry>, s: string)
    ensures OfSender(GroupBySender(entries), s) == OfSender(entries, s)
  {
    SendersAreDistinct(entries);
    OfSenderOfGroups(entries, Senders(entries), s);
    if s !in Senders(entries) {
      NoneOfSender(entries, s);
    }
  }

  lemma {:induction false} CountOfSender(entries: seq<Entry>, e: Entry)
    ensures multiset(OfSender(entries, e.userOp.sender))[e] == multiset(entries)[e]
  {
    if entries == [] {
    } else {
      CountOfSender(entries[..|entries| - 1], e);
      AllButLast(entries);
    }
  }

  lemma GroupingIsPermutation(entries: seq<Entry>)
    ensures multiset(GroupBySender(entries)) == multiset(entries)
  {
    forall e: Entry ensures multiset(GroupBySender(entries))[e] == multiset(entries)[e] {
      CountOfSender(GroupBySender(entries), e);
      CountOfSender(entries, e);
      GroupingKeepsEachSender(entries, e.userOp.sender);
    }
  }

  lemma {:induction false} OfSenderIsOfSender(entries: seq<Entry>, s: string)
    ensures forall e <- OfSender(entries, s) :: e.userOp.sender == s
  {
    if entries == [] {
    } else {
      OfSenderIsOfSender(entries[..|entries| - 1], s);
    }
  }

  /** Each sender's entries stand next to each other. */
  lemma {:induction false} GroupsAreContiguous(entries: seq<Entry>, senders: seq<string>, i: nat, j: nat, k: nat)
    requires forall i, j :: 0 <= i < j < |senders| ==> senders[i] != senders[j]
    requires i < j < k < |Groups(entries, senders)|
    requires Groups(entries, senders)[i].userOp.sender == Groups(entries, senders)[k].userOp.sender
    ensures Groups(entries, senders)[j].userOp.sender == Groups(entries, senders)[i].userOp.sender
  {
    var init, last := senders[..|senders| - 1], senders[|senders| - 1];
    var before, own := Groups(entries, init), OfSender(entries, last);
    OfSenderIsOfSender(entries, last);
    if k < |before| {
      GroupsAreContiguous(entries, init, i, j, k);
    } else if i < |before| {
      GroupSenders(entries, init, before[i]);
    }
  }

  lemma {:induction false} GroupSenders(entries: seq<Entry>, senders: seq<string>, e: Entry)
    requires e in Groups(entries, senders)
    ensures e.userOp.sender in senders
  {
    var init, last := senders[..|senders| - 1], senders[|senders| - 1];
    OfSenderIsOfSender(entries, last);
    if e in Groups(entries, init) {
      GroupSenders(entries, init, e);
    }
  }

  lemma {:induction false} SendersByFirstEntry(entries: seq<Entry>, i: nat, j: nat)
    requires i < j < |Senders(entries)|
    ensures exists p :: 0 <= p < |entries| && entries[p].userOp.sender == Senders(entries)[i]
                        && forall q :: 0 <= q <= p ==> entries[q].userOp.sender != Senders(entries)[j]
  {
    var n := |entries| - 1;
    var init := entries[..n];
    if j < |Senders(init)| {
      SendersByFirstEntry(init, i, j);
      var p :| 0 <= p < n && init[p].userOp.sender == Senders(init)[i]
               && forall q :: 0 <= q <= p ==> init[q].userOp.sender != Senders(init)[j];
      assert entries[p] == init[p];
    } else {
      SendersAreDistinct(init);
      SendersOccur(init, Senders(init)[i]);
      var p :| 0 <= p < n && init[p].userOp.sender == Senders(init)[i];
      assert entries[p] == init[p] && forall q :: 0 <= q <= p ==> entries[q] == init[q] && init[q] in init;
    }
  }

  lemma {:induction false} SendersOccur(entries: seq<Entry>, s: string)
    requires s in Senders(entries)
    ensures exists p :: 0 <= p < |entries| && entries[p].userOp.sender == s
  {
    var n := |entries| - 1;
    if s in Senders(entries[..n]) {
      SendersOccur(entries[..n], s);
      var p :| 0 <= p < n && entries[..n][p].userOp.sender == s;
      assert entries[p].userOp.sender == s;
    } else {
      assert entries[n].userOp.sender == s;
    }
  }

  /** The groups follow one another as the first entries of their senders do. */
  lemma {:induction false} GroupPositions(entries: seq<Entry>, senders: seq<string>, a: nat) returns (i: nat)
    requires a < |Groups(entries, senders)|
    ensures i < |senders| && Groups(entries, senders)[a].userOp.sender == senders[i]
    ensures |Groups(entries, senders[..i])| <= a < |Groups(entries, senders[..i + 1])|
  {
    var n := |senders| - 1;
    var before, own := Groups(entries, senders[..n]), OfSender(entries, senders[n]);
    if a < |before| {
      i := GroupPositions(entries, senders[..n], a);
      assert senders[..n][..i] == senders[..i] && senders[..n][..i + 1] == senders[..i + 1];
    } else {
      i := n;
      OfSenderIsOfSender(entries, senders[n]);
      assert own[a - |before|] in own && senders[..n + 1] == senders;
    }
  }

  lemma {:induction false} GroupsGrow(entries: seq<Entry>, senders: seq<string>, i: nat, j: nat)
    requires i <= j <= |senders|
    ensures |Groups(entries, senders[..i])| <= |Groups(entries, senders[..j])|
    decreases j
  {
    if i == j {
    } else {
      GroupsGrow(entries, senders, i, j - 1);
      assert senders[..j][..j - 1] == senders[..j - 1];
    }
  }

  lemma GroupsFollowFirstEntries(entries: seq<Entry>, a: nat, b: nat)
    requires a < b < |GroupBySender(entries)|
    requires GroupBySender(entries)[a].userOp.sender != GroupBySender(entries)[b].userOp.sender
    ensures exists p :: 0 <= p < |entries| && entries[p].userOp.sender == GroupBySender(entries)[a].userOp.sender
              && forall q :: 0 <= q <= p ==> entries[q].userOp.sender != GroupBySender(entries)[b].userOp.sender
  {
    var i := GroupPositions(entries, Senders(entries), a);
    var j := GroupPositions(entries, Senders(entries), b);
    if j < i {
      GroupsGrow(entries, Senders(entries), j + 1, i);
      assert false;
    }
    SendersByFirstEntry(entries, i, j);
  }
}
