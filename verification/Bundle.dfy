/** `createBundle` of packages/executor/src/services/BundlingService/service.ts: the greedy choice of
    operations for one bundle. */
module Bundles {
  import opened Wrappers
  import opened MempoolEntries
  import opened Mempools
  import StorageMaps

  const GAS_PRICE_MARKUP_ONE := 10000

  datatype ReputationStatus = OK | THROTTLED | BANNED

  datatype GasFee = GasFee(maxFeePerGas: nat, maxPriorityFeePerGas: nat, gasPrice: nat)

  /** `legacyFees` covers networks without EIP-1559, `tracksStorage` networks with conditional
      transactions or access lists, and `isFuse` the chain that skips the fee protection. */
  datatype Config = Config(bundleGasLimit: nat, enforceGasPrice: bool, enforceGasPriceThreshold: nat,
                           legacyFees: bool, tracksStorage: bool, isFuse: bool)

  datatype Validation = Validation(prefund: nat, storageMap: Option<StorageMaps.StorageMap>)

  /** The world `createBundle` asks, by the position of the candidate it asks about: reputations, the
      second validation (`None` when it throws), paymaster balances and storage roots. */
  datatype Env = Env(config: Config, gasFee: GasFee, statusOf: (nat, string) -> ReputationStatus,
                     validate: nat -> Option<Validation>, balanceOf: (nat, string) -> nat,
                     storageHash: nat -> StorageMaps.Hex)

  // ----- The tests a candidate has to pass -----

  function GasLimitOf(op: UserOp): nat {
    (op.verificationGasLimit * 3 + 200000 + op.callGasLimit) * 11 / 10
    + match op.paymasterVerificationGasLimit
      case None => 0
      case Some(v) => v + op.paymasterPostOpGasLimit.GetOr(0)
  }

  function WithThreshold(fee: nat, threshold: nat): nat {
    (fee * GAS_PRICE_MARKUP_ONE + threshold) / GAS_PRICE_MARKUP_ONE
  }

  predicate PriceFits(env: Env, op: UserOp) {
    var c := env.config;
    var maxFee := if c.legacyFees then env.gasFee.gasPrice else env.gasFee.maxFeePerGas;
    var maxPriority := if c.legacyFees then env.gasFee.gasPrice else env.gasFee.maxPriorityFeePerGas;
    c.enforceGasPrice ==>
      && WithThreshold(op.maxFeePerGas, c.enforceGasPriceThreshold) >= maxFee
      && WithThreshold(op.maxPriorityFeePerGas, c.enforceGasPriceThreshold) >= maxPriority
  }

  predicate Fits(env: Env, op: UserOp) {
    GasLimitOf(op) <= env.config.bundleGasLimit && PriceFits(env, op)
  }

  predicate IsBanned(env: Env, entity: Option<string>, i: nat) {
    entity.Some? && env.statusOf(i, entity.value) == BANNED
  }

  /** The map has an address, other than the operation's own sender, that is some candidate's sender. */
  predicate Conflicts(es: seq<Entry>, e: Entry, m: StorageMaps.StorageMap) {
    exists a <- m.Keys :: Lower(a) != Lower(e.userOp.sender) && IsKnownSender(es, Lower(a))
  }

  predicate IsKnownSender(es: seq<Entry>, a: string) {
    exists c <- es :: Lower(c.userOp.sender) == a
  }

  // ----- The choice, candidate by candidate -----

  /** What has been chosen, by position, and the running aggregates. */
  datatype Choice = Choice(picked: seq<nat>, deposit: map<string, nat>, storage: StorageMaps.StorageMap,
                           cancelled: bool)

  predicate Within(picked: seq<nat>, n: nat) {
    forall k :: 0 <= k < |picked| ==> picked[k] < n
  }

  predicate SenderTaken(es: seq<Entry>, picked: seq<nat>, sender: string)
    requires Within(picked, |es|)
  {
    exists k :: 0 <= k < |picked| && es[picked[k]].userOp.sender == sender
  }

  /** The deposit a paymaster is taken to have. No entry and an entry of zero both mean asking again. */
  function DepositOf(env: Env, deposit: map<string, nat>, paymaster: string, i: nat): nat {
    if paymaster in deposit && deposit[paymaster] != 0 then deposit[paymaster] else env.balanceOf(i, paymaster)
  }

  function StorageAfter(env: Env, e: Entry, v: Validation, storage: StorageMaps.StorageMap, i: nat)
    : StorageMaps.StorageMap
  {
    if env.config.tracksStorage && v.storageMap.Some? then
      var rooted := if e.userOp.nonce > 0 then storage[Lower(e.userOp.sender) := StorageMaps.Root(env.storageHash(i))]
          else storage;
      StorageMaps.Merge(rooted, v.storageMap.value)
    else storage
  }

  function Settled(env: Env, e: Entry, s: Choice, i: nat, v: Validation): Choice {
    var storage := StorageAfter(env, e, v, s.storage, i);
    match e.paymaster
    case None => s.(picked := s.picked + [i], storage := storage)
    case Some(paymaster) =>
      var d := DepositOf(env, s.deposit, paymaster, i);
      if d < v.prefund then s.(deposit := s.deposit[paymaster := d])
      else s.(picked := s.picked + [i], deposit := s.deposit[paymaster := d - v.prefund], storage := storage)
  }

  function Considered(env: Env, es: seq<Entry>, s: Choice, i: nat): (r: Choice)
    requires i < |es| && Within(s.picked, |es|)
    ensures r.picked == s.picked || r.picked == s.picked + [i]
    ensures r.picked != s.picked ==> !SenderTaken(es, s.picked, es[i].userOp.sender)
  {
    var e := es[i];
    if !Fits(env, e.userOp) then s
    else
      var s := s.(cancelled := s.cancelled || IsBanned(env, e.paymaster, i) || IsBanned(env, e.factory, i));
      if SenderTaken(es, s.picked, e.userOp.sender) then s
      else match env.validate(i)
        case None => s.(cancelled := true)
        case Some(v) =>
          if v.storageMap.Some? && Conflicts(es, e, v.storageMap.value) then s else Settled(env, e, s, i, v)
  }

  const NOTHING := Choice([], map[], map[], false)

  /** The choice after the first `n` candidates. */
  function Chosen(env: Env, es: seq<Entry>, n: nat): (s: Choice)
    requires n <= |es|
    ensures Within(s.picked, n)
    ensures forall k, l :: 0 <= k < l < |s.picked| ==> s.picked[k] < s.picked[l]
  {
    if n == 0 then NOTHING else Considered(env, es, Chosen(env, es, n - 1), n - 1)
  }

  lemma ChosenStep(env: Env, es: seq<Entry>, i: nat)
    requires i < |es|
    ensures Chosen(env, es, i + 1) == Considered(env, es, Chosen(env, es, i), i)
  {
    hide Considered;
  }

  // ----- What the choice guarantees -----

  /** Chosen operations have pairwise distinct senders. */
  lemma {:induction false} ChosenSendersAreDistinct(env: Env, es: seq<Entry>, n: nat)
    requires n <= |es|
    ensures DistinctSenders(es, Chosen(env, es, n).picked)
  {
    if n == 0 {
    } else {
      ChosenSendersAreDistinct(env, es, n - 1);
      var before := Chosen(env, es, n - 1);
      var after := Considered(env, es, before, n - 1);
      if after.picked != before.picked {
        assert !SenderTaken(es, before.picked, es[n - 1].userOp.sender);
      }
      assert Chosen(env, es, n).picked == after.picked;
    }
  }

  ghost predicate DistinctSenders(es: seq<Entry>, picked: seq<nat>)
    requires Within(picked, |es|)
  {
    forall k, l :: 0 <= k < l < |picked| ==> es[picked[k]].userOp.sender != es[picked[l]].userOp.sender
  }

  /** Eleven tenths, rounded down, of three times the verification gas, the call gas and 200000, and what a
      paymaster takes beside it, are at most the gas limit of a bundle. */
  ghost predicate GasIsEnough(limit: nat, op: UserOp) {
    var postOp := if op.paymasterPostOpGasLimit.None? then 0 else op.paymasterPostOpGasLimit.value;
    var paymasterGas :=
      if op.paymasterVerificationGasLimit.None? then 0 else op.paymasterVerificationGasLimit.value + postOp;
    33 * op.verificationGasLimit + 11 * op.callGasLimit + 2200000 + 10 * paymasterGas < 10 * (limit + 1)
  }

  /** Where prices are enforced, both fees reach what the chain asks, up to the threshold in ten thousandths; a
      network without priority fees asks its gas price for both. */
  ghost predicate PriceIsEnough(env: Env, op: UserOp) {
    env.config.enforceGasPrice ==>
      && op.maxFeePerGas * 10000 + env.config.enforceGasPriceThreshold
         >= 10000 * (if env.config.legacyFees then env.gasFee.gasPrice else env.gasFee.maxFeePerGas)
      && op.maxPriorityFeePerGas * 10000 + env.config.enforceGasPriceThreshold
         >= 10000 * (if env.config.legacyFees then env.gasFee.gasPrice else env.gasFee.maxPriorityFeePerGas)
  }

  lemma FitsExactlyWhen(env: Env, op: UserOp)
    ensures Fits(env, op) <==> GasIsEnough(env.config.bundleGasLimit, op) && PriceIsEnough(env, op)
  {
    var gas := 33 * op.verificationGasLimit + 11 * op.callGasLimit + 2200000;
    ElevenTenths(op.verificationGasLimit * 3 + 200000 + op.callGasLimit, gas);
    InTenThousandths(op.maxFeePerGas, env.config.enforceGasPriceThreshold);
    InTenThousandths(op.maxPriorityFeePerGas, env.config.enforceGasPriceThreshold);
  }

  lemma ElevenTenths(n: nat, eleven: nat)
    requires eleven == 11 * n
    ensures 10 * (n * 11 / 10) <= eleven < 10 * (n * 11 / 10) + 10
  {
  }

  lemma InTenThousandths(fee: nat, threshold: nat)
    ensures forall asked: nat :: WithThreshold(fee, threshold) >= asked <==> fee * 10000 + threshold >= 10000 * asked
  {
  }

  /** A chosen operation passed every test: its gas and price fit, it validated, and its storage map
      touches no address that is another candidate's sender. */
  ghost predicate Sound(env: Env, es: seq<Entry>, i: nat)
    requires i < |es|
  {
    && GasIsEnough(env.config.bundleGasLimit, es[i].userOp)
    && PriceIsEnough(env, es[i].userOp)
    && env.validate(i).Some?
    && (env.validate(i).value.storageMap.Some? ==>
          forall a <- env.validate(i).value.storageMap.value.Keys, c <- es ::
            Lower(c.userOp.sender) != Lower(es[i].userOp.sender) ==> Lower(a) != Lower(c.userOp.sender))
  }

  lemma {:induction false} ChosenAreSound(env: Env, es: seq<Entry>, n: nat, i: nat)
    requires n <= |es| && i in Chosen(env, es, n).picked
    ensures i < n && Sound(env, es, i)
  {
    if i in Chosen(env, es, n - 1).picked {
      ChosenAreSound(env, es, n - 1, i);
    } else {
      SoundExactlyWhen(env, es, i);
    }
  }

  lemma {:induction false} LaterChoicesKeepEarlier(env: Env, es: seq<Entry>, m: nat, n: nat, i: nat)
    requires m <= n <= |es|
    ensures i in Chosen(env, es, m).picked ==> i in Chosen(env, es, n).picked
    ensures i in Chosen(env, es, n).picked && i < m ==> i in Chosen(env, es, m).picked
    decreases n - m
  {
    hide Considered;
    if m < n {
      LaterChoicesKeepEarlier(env, es, m, n - 1, i);
    }
  }

  /** The choice is greedy: a candidate is chosen exactly when it is sound, no earlier chosen
      operation has its sender, and its paymaster, if any, still has the deposit for it. */
  lemma ChosenExactlyWhen(env: Env, es: seq<Entry>, i: nat)
    requires i < |es|
    ensures i in Chosen(env, es, |es|).picked
            <==> && Sound(env, es, i)
                 && (forall j: nat :: j < i && j in Chosen(env, es, |es|).picked ==>
                     es[j].userOp.sender != es[i].userOp.sender)
                 && (es[i].paymaster.Some? ==>
                       var deposit, paymaster := Chosen(env, es, i).deposit, es[i].paymaster.value;
                       env.validate(i).value.prefund
                       <= if paymaster in deposit && deposit[paymaster] != 0 then deposit[paymaster]
                          else env.balanceOf(i, paymaster))
  {
    LaterChoicesKeepEarlier(env, es, i + 1, |es|, i);
    forall j: nat ensures j in Chosen(env, es, i).picked <==> j in Chosen(env, es, |es|).picked && j < i {
      LaterChoicesKeepEarlier(env, es, i, |es|, j);
    }
    var s := Chosen(env, es, i);
    assert i in Chosen(env, es, i + 1).picked <==> i in Considered(env, es, s, i).picked;
    SenderTakenExactlyWhen(es, s.picked, es[i].userOp.sender);
    SoundExactlyWhen(env, es, i);
  }

  /** What one candidate does to the recorded deposits: if it is sound and its sender free, its paymaster's deposit,
      asked for unless a remainder is recorded, is recorded less the prefund, or as it is when it falls short; no
      other candidate records anything. */
  lemma DepositsAreRecorded(env: Env, es: seq<Entry>, i: nat)
    requires i < |es|
    ensures var s, deposit := Chosen(env, es, i), Chosen(env, es, i + 1).deposit;
            if && Sound(env, es, i) && es[i].paymaster.Some?
               && (forall j :: j in s.picked ==> es[j].userOp.sender != es[i].userOp.sender)
            then
              var paymaster, prefund := es[i].paymaster.value, env.validate(i).value.prefund;
              var d := if paymaster in s.deposit && s.deposit[paymaster] != 0 then s.deposit[paymaster]
                  else env.balanceOf(i, paymaster);
              deposit == s.deposit[paymaster := if d < prefund then d else d - prefund]
            else deposit == s.deposit
  {
    var s := Chosen(env, es, i);
    assert Chosen(env, es, i + 1) == Considered(env, es, s, i);
    SenderTakenExactlyWhen(es, s.picked, es[i].userOp.sender);
    SoundExactlyWhen(env, es, i);
    hide Chosen, Fits, Conflicts, Sound, SenderTaken, StorageAfter;
  }

  lemma SenderTakenExactlyWhen(es: seq<Entry>, picked: seq<nat>, sender: string)
    requires Within(picked, |es|)
    ensures SenderTaken(es, picked, sender) <==> exists j :: j in picked && es[j].userOp.sender == sender
  {
    if SenderTaken(es, picked, sender) {
      var k :| 0 <= k < |picked| && es[picked[k]].userOp.sender == sender;
      assert picked[k] in picked;
    }
  }

  lemma SoundExactlyWhen(env: Env, es: seq<Entry>, i: nat)
    requires i < |es|
    ensures Sound(env, es, i)
            <==> && Fits(env, es[i].userOp) && env.validate(i).Some?
                 && (env.validate(i).value.storageMap.Some? ==>
                     !Conflicts(es, es[i], env.validate(i).value.storageMap.value))
  {
    FitsExactlyWhen(env, es[i].userOp);
    if env.validate(i).Some? && env.validate(i).value.storageMap.Some? {
      ConflictsExactlyWhen(es, es[i], env.validate(i).value.storageMap.value);
    }
  }

  lemma ConflictsExactlyWhen(es: seq<Entry>, e: Entry, m: StorageMaps.StorageMap)
    ensures Conflicts(es, e, m)
            <==> exists a, c :: a in m.Keys && c in es && Lower(c.userOp.sender) != Lower(e.userOp.sender)
                                && Lower(a) == Lower(c.userOp.sender)
  {
    if Conflicts(es, e, m) {
      var a :| a in m.Keys && Lower(a) != Lower(e.userOp.sender) && IsKnownSender(es, Lower(a));
      var c :| c in es && Lower(c.userOp.sender) == Lower(a);
    }
    forall a, c | && a in m.Keys && c in es
                  && Lower(c.userOp.sender) != Lower(e.userOp.sender) && Lower(a) == Lower(c.userOp.sender)
      ensures Conflicts(es, e, m)
    {
      assert IsKnownSender(es, Lower(a));
    }
  }

  /** A candidate's banned entity or failing validation, with no earlier chosen operation of its sender. */
  ghost predicate Fails(env: Env, es: seq<Entry>, i: nat)
    requires i < |es|
  {
    && GasIsEnough(env.config.bundleGasLimit, es[i].userOp)
    && PriceIsEnough(env, es[i].userOp)
    && (|| (es[i].paymaster.Some? && env.statusOf(i, es[i].paymaster.value) == BANNED)
        || (es[i].factory.Some? && env.statusOf(i, es[i].factory.value) == BANNED)
        || (env.validate(i).None?
            && forall j :: j in Chosen(env, es, i).picked ==> es[j].userOp.sender != es[i].userOp.sender))
  }

  lemma FailingCancels(env: Env, es: seq<Entry>, i: nat)
    requires i < |es|
    ensures Chosen(env, es, i + 1).cancelled <==> Chosen(env, es, i).cancelled || Fails(env, es, i)
  {
    assert Chosen(env, es, i + 1) == Considered(env, es, Chosen(env, es, i), i);
    FitsExactlyWhen(env, es[i].userOp);
    SenderTakenExactlyWhen(es, Chosen(env, es, i).picked, es[i].userOp.sender);
    hide Chosen, GasIsEnough, PriceIsEnough, Fits, Conflicts, Settled, SenderTaken;
  }

  /** The candidates are cancelled exactly when one of them that fits has a banned entity, or fails
      its second validation while no earlier chosen operation has its sender. */
  lemma {:induction false} CancelledExactlyWhen(env: Env, es: seq<Entry>, n: nat)
    requires n <= |es|
    ensures Chosen(env, es, n).cancelled <==> exists i :: 0 <= i < n && Fails(env, es, i)
  {
    hide Considered, Fails;
    if n > 0 {
      CancelledExactlyWhen(env, es, n - 1);
      FailingCancels(env, es, n - 1);
    }
  }

  // ----- The storage map of the bundle -----

  /** What one candidate adds: the root of its sender's account unless its nonce is zero, and then the
      storage map of its validation. */
  function Pieces(env: Env, es: seq<Entry>, i: nat): seq<StorageMaps.StorageMap>
    requires i < |es|
  {
    if env.validate(i).None? || env.validate(i).value.storageMap.None? then []
    else
      (if es[i].userOp.nonce > 0 then [map[Lower(es[i].userOp.sender) := StorageMaps.Root(env.storageHash(i))]] else [])
      + [env.validate(i).value.storageMap.value]
  }

  function AllPieces(env: Env, es: seq<Entry>, picked: seq<nat>): seq<StorageMaps.StorageMap>
    requires Within(picked, |es|)
  {
    if picked == [] then []
    else AllPieces(env, es, picked[..|picked| - 1]) + Pieces(env, es, picked[|picked| - 1])
  }

  lemma MergeOneMore(list: seq<StorageMaps.StorageMap>, m: StorageMaps.StorageMap)
    ensures StorageMaps.MergeAll(list + [m]) == StorageMaps.Merge(StorageMaps.MergeAll(list), m)
  {
    assert (list + [m])[..|list|] == list;
  }

  lemma SettingRootIsMerging(m: StorageMaps.StorageMap, k: string, hash: StorageMaps.Hex)
    ensures m[k := StorageMaps.Root(hash)] == StorageMaps.Merge(m, map[k := StorageMaps.Root(hash)])
  {
  }

  lemma StorageAfterMerges(env: Env, es: seq<Entry>, i: nat, list: seq<StorageMaps.StorageMap>)
    requires i < |es| && env.validate(i).Some? && env.config.tracksStorage
    ensures StorageAfter(env, es[i], env.validate(i).value, StorageMaps.MergeAll(list), i)
         == StorageMaps.MergeAll(list + Pieces(env, es, i))
  {
    var v, e := env.validate(i).value, es[i];
    if v.storageMap.None? {
      assert list + [] == list;
    } else if e.userOp.nonce > 0 {
      var root := map[Lower(e.userOp.sender) := StorageMaps.Root(env.storageHash(i))];
      SettingRootIsMerging(StorageMaps.MergeAll(list), Lower(e.userOp.sender), env.storageHash(i));
      MergeOneMore(list, root);
      MergeOneMore(list + [root], v.storageMap.value);
      assert list + Pieces(env, es, i) == list + [root] + [v.storageMap.value];
    } else {
      MergeOneMore(list, v.storageMap.value);
      assert list + Pieces(env, es, i) == list + [v.storageMap.value];
    }
  }

  lemma StorageCases(env: Env, es: seq<Entry>, s: Choice, i: nat)
    requires i < |es| && Within(s.picked, |es|)
    ensures var s' := Considered(env, es, s, i);
            if s'.picked == s.picked then s'.storage == s.storage
            else env.validate(i).Some? && s'.storage == StorageAfter(env, es[i], env.validate(i).value, s.storage, i)
  {
    hide StorageAfter;
  }

  /** On networks that need it the bundle carries the merge, in order, of what its operations add;
      elsewhere it carries nothing. */
  lemma {:induction false} StorageIsMergeOfChosen(env: Env, es: seq<Entry>, n: nat)
    requires n <= |es|
    ensures var s := Chosen(env, es, n);
            s.storage == if env.config.tracksStorage then StorageMaps.MergeAll(AllPieces(env, es, s.picked)) else map[]
  {
    hide Considered, Pieces, StorageMaps.MergeAll;
    if n > 0 {
      var before := Chosen(env, es, n - 1);
      var after := Considered(env, es, before, n - 1);
      assert Chosen(env, es, n) == after;
      StorageIsMergeOfChosen(env, es, n - 1);
      StorageCases(env, es, before, n - 1);
      if after.picked != before.picked {
        assert (before.picked + [n - 1])[..|before.picked|] == before.picked;
        if env.config.tracksStorage {
          StorageAfterMerges(env, es, n - 1, AllPieces(env, es, before.picked));
        }
      }
    } else {
      NothingMerged();
    }
  }

  lemma NothingMerged()
    ensures StorageMaps.MergeAll([]) == map[]
  {
  }

  // ----- Paymaster deposits -----

  /** The prefund a candidate takes from a paymaster. */
  function Charge(env: Env, es: seq<Entry>, i: nat, paymaster: string): nat
    requires i < |es|
  {
    if es[i].paymaster == Some(paymaster) && env.validate(i).Some? then env.validate(i).value.prefund else 0
  }

  /** The prefunds of chosen operations of one paymaster. */
  function Spent(env: Env, es: seq<Entry>, picked: seq<nat>, paymaster: string): nat
    requires Within(picked, |es|)
  {
    if picked == [] then 0
    else Spent(env, es, picked[..|picked| - 1], paymaster) + Charge(env, es, picked[|picked| - 1], paymaster)
  }

  lemma {:induction false} SpentOfSplit(env: Env, es: seq<Entry>, picked: seq<nat>, paymaster: string, n: nat)
    requires Within(picked, |es|) && n <= |picked|
    ensures Spent(env, es, picked, paymaster)
         == Spent(env, es, picked[..n], paymaster) + Spent(env, es, picked[n..], paymaster)
    decreases |picked|
  {
    if n == |picked| {
      assert picked[..n] == picked;
    } else {
      var init := picked[..|picked| - 1];
      SpentOfSplit(env, es, init, paymaster, n);
      assert init[..n] == picked[..n] && picked[n..][..|picked| - n - 1] == init[n..];
    }
  }

  /** Some of the chosen operations use up the paymaster's balance exactly. */
  ghost predicate Drained(env: Env, es: seq<Entry>, picked: seq<nat>, paymaster: string, balance: nat)
    requires Within(picked, |es|)
  {
    exists n :: 0 <= n <= |picked| && Spent(env, es, picked[..n], paymaster) == balance
  }

  ghost predicate ConstantBalance(env: Env, paymaster: string, balance: nat) {
    forall i :: env.balanceOf(i, paymaster) == balance
  }

  /** Until the balance has been used up exactly, what is spent and what is left make up the balance. */
  ghost predicate Balanced(env: Env, es: seq<Entry>, s: Choice, paymaster: string, balance: nat)
    requires Within(s.picked, |es|)
  {
    || Drained(env, es, s.picked, paymaster, balance)
    || (if paymaster in s.deposit then Spent(env, es, s.picked, paymaster) + s.deposit[paymaster] == balance
        else Spent(env, es, s.picked, paymaster) == 0)
  }

  lemma StillDrained(env: Env, es: seq<Entry>, picked: seq<nat>, i: nat, paymaster: string, balance: nat)
    requires Within(picked + [i], |es|) && Within(picked, |es|) && Drained(env, es, picked, paymaster, balance)
    ensures Drained(env, es, picked + [i], paymaster, balance)
  {
    var n :| 0 <= n <= |picked| && Spent(env, es, picked[..n], paymaster) == balance;
    assert (picked + [i])[..n] == picked[..n];
  }

  lemma SpentOfOneMore(env: Env, es: seq<Entry>, picked: seq<nat>, i: nat, paymaster: string)
    requires Within(picked, |es|) && i < |es|
    ensures Spent(env, es, picked + [i], paymaster) == Spent(env, es, picked, paymaster) + Charge(env, es, i, paymaster)
  {
    assert (picked + [i])[..|picked|] == picked;
  }

  /** What considering a candidate can do to a paymaster's deposit: nothing; asking for the balance
      without choosing; choosing without charging; or choosing and charging. */
  lemma DepositCases(env: Env, es: seq<Entry>, s: Choice, i: nat, paymaster: string)
    requires i < |es| && Within(s.picked, |es|)
    ensures var s' := Considered(env, es, s, i);
            var charge := Charge(env, es, i, paymaster);
            var d := DepositOf(env, s.deposit, paymaster, i);
            || (s'.picked == s.picked && SameDeposit(s, s', paymaster))
            || (s'.picked == s.picked && paymaster in s'.deposit && s'.deposit[paymaster] == d)
            || (s'.picked == s.picked + [i] && charge == 0 && SameDeposit(s, s', paymaster))
            || (s'.picked == s.picked + [i] && paymaster in s'.deposit && s'.deposit[paymaster] + charge == d)
  {
  }

  predicate SameDeposit(s: Choice, s': Choice, paymaster: string) {
    && (paymaster in s.deposit <==> paymaster in s'.deposit)
    && (paymaster in s.deposit ==> s.deposit[paymaster] == s'.deposit[paymaster])
  }

  lemma ConsideredStaysBalanced(env: Env, es: seq<Entry>, s: Choice, i: nat, paymaster: string, balance: nat)
    requires i < |es| && Within(s.picked, |es|) && ConstantBalance(env, paymaster, balance)
    requires Balanced(env, es, s, paymaster, balance)
    ensures Balanced(env, es, Considered(env, es, s, i), paymaster, balance)
  {
    hide Considered, Charge, Spent, Drained;
    var s' := Considered(env, es, s, i);
    DepositCases(env, es, s, i, paymaster);
    SpentOfOneMore(env, es, s.picked, i, paymaster);
    if s'.picked != s.picked && Drained(env, es, s.picked, paymaster, balance) {
      StillDrained(env, es, s.picked, i, paymaster, balance);
    }
    if paymaster in s.deposit && s.deposit[paymaster] == 0 && !Drained(env, es, s.picked, paymaster, balance) {
      NowDrained(env, es, s.picked, paymaster, balance);
    }
  }

  lemma NowDrained(env: Env, es: seq<Entry>, picked: seq<nat>, paymaster: string, balance: nat)
    requires Within(picked, |es|)
    ensures Spent(env, es, picked, paymaster) == balance ==> Drained(env, es, picked, paymaster, balance)
  {
    assert picked[..|picked|] == picked;
  }

  lemma OneMoreStaysBalanced(env: Env, es: seq<Entry>, n: nat, before: Choice, paymaster: string, balance: nat)
    requires 0 < n <= |es| && ConstantBalance(env, paymaster, balance) && before == Chosen(env, es, n - 1)
    requires Balanced(env, es, before, paymaster, balance)
    ensures Balanced(env, es, Chosen(env, es, n), paymaster, balance)
  {
    hide Considered, Balanced, ConstantBalance;
    var after := Chosen(env, es, n);
    assert after == Considered(env, es, before, n - 1);
    ConsideredStaysBalanced(env, es, before, n - 1, paymaster, balance);
  }

  lemma {:induction false} ChosenStaysBalanced(env: Env, es: seq<Entry>, n: nat, paymaster: string, balance: nat)
    requires n <= |es| && ConstantBalance(env, paymaster, balance)
    ensures Balanced(env, es, Chosen(env, es, n), paymaster, balance)
  {
    if n == 0 {
    } else {
      ChosenStaysBalanced(env, es, n - 1, paymaster, balance);
      OneMoreStaysBalanced(env, es, n, Chosen(env, es, n - 1), paymaster, balance);
    }
  }

  /** Candidate `i` finds the paymaster's remainder recorded as exactly zero, which the code takes for
      no record at all. */
  predicate RemainderIsZero(env: Env, es: seq<Entry>, i: nat, paymaster: string)
    requires i <= |es|
  {
    var deposit := Chosen(env, es, i).deposit;
    paymaster in deposit && deposit[paymaster] == 0
  }

  /** Spending and remainder make up the balance. */
  ghost predicate Exact(env: Env, es: seq<Entry>, s: Choice, paymaster: string, balance: nat)
    requires Within(s.picked, |es|)
  {
    Spent(env, es, s.picked, paymaster) == if paymaster in s.deposit then balance - s.deposit[paymaster] else 0
  }

  lemma ConsideredStaysExact(env: Env, es: seq<Entry>, s: Choice, i: nat, paymaster: string, balance: nat)
    requires i < |es| && Within(s.picked, |es|) && ConstantBalance(env, paymaster, balance)
    requires Exact(env, es, s, paymaster, balance) && !(paymaster in s.deposit && s.deposit[paymaster] == 0)
    ensures Exact(env, es, Considered(env, es, s, i), paymaster, balance)
  {
    hide Considered, Charge, Spent;
    DepositCases(env, es, s, i, paymaster);
    SpentOfOneMore(env, es, s.picked, i, paymaster);
  }

  /** As long as no candidate finds a remainder of zero. */
  lemma {:induction false} ExactUntilZero(env: Env, es: seq<Entry>, n: nat, paymaster: string, balance: nat)
    requires n <= |es| && ConstantBalance(env, paymaster, balance)
    requires forall i :: 0 <= i < n ==> !RemainderIsZero(env, es, i, paymaster)
    ensures Exact(env, es, Chosen(env, es, n), paymaster, balance)
  {
    hide Considered, Charge;
    if n == 0 {
    } else {
      ExactUntilZero(env, es, n - 1, paymaster, balance);
      assert !RemainderIsZero(env, es, n - 1, paymaster);
      ConsideredStaysExact(env, es, Chosen(env, es, n - 1), n - 1, paymaster, balance);
    }
  }

  lemma SpentByOneMore(env: Env, es: seq<Entry>, n: nat, paymaster: string)
    requires 0 < n <= |es|
    ensures var before, after := Chosen(env, es, n - 1).picked, Chosen(env, es, n).picked;
            Spent(env, es, after, paymaster)
            == Spent(env, es, before, paymaster) + if n - 1 in after then Charge(env, es, n - 1, paymaster) else 0
  {
    hide Considered, Charge, Spent;
    var before, after := Chosen(env, es, n - 1).picked, Chosen(env, es, n).picked;
    assert after == before || after == before + [n - 1];
    SpentOfOneMore(env, es, before, n - 1, paymaster);
  }

  /** From one candidate to a later one, spending grows by what is charged in between. */
  lemma {:induction false} SpendingGrows(env: Env, es: seq<Entry>, m: nat, n: nat, paymaster: string)
    requires m <= n <= |es|
    ensures Spent(env, es, Chosen(env, es, m).picked, paymaster) <= Spent(env, es, Chosen(env, es, n).picked, paymaster)
    ensures (forall j :: m <= j < n && j in Chosen(env, es, n).picked ==> Charge(env, es, j, paymaster) == 0)
            ==> Spent(env, es, Chosen(env, es, m).picked, paymaster)
                == Spent(env, es, Chosen(env, es, n).picked, paymaster)
    decreases n
  {
    hide Chosen, Charge, Spent;
    if m == n {
    } else {
      SpendingGrows(env, es, m, n - 1, paymaster);
      SpentByOneMore(env, es, n, paymaster);
      forall j: nat ensures j in Chosen(env, es, n - 1).picked ==> j in Chosen(env, es, n).picked {
        LaterChoicesKeepEarlier(env, es, n - 1, n, j);
      }
    }
  }

  lemma ZeroMeansDrained(env: Env, es: seq<Entry>, i: nat, paymaster: string, balance: nat)
    requires i <= |es| && ConstantBalance(env, paymaster, balance) && RemainderIsZero(env, es, i, paymaster)
    ensures Spent(env, es, Chosen(env, es, i).picked, paymaster) >= balance
  {
    var s := Chosen(env, es, i);
    ChosenStaysBalanced(env, es, i, paymaster, balance);
    if Drained(env, es, s.picked, paymaster, balance) {
      var n :| 0 <= n <= |s.picked| && Spent(env, es, s.picked[..n], paymaster) == balance;
      SpentOfSplit(env, es, s.picked, paymaster, n);
    }
  }

  lemma ChargedPastZero(env: Env, es: seq<Entry>, i: nat, j: nat, paymaster: string, balance: nat)
    requires i <= j < |es| && ConstantBalance(env, paymaster, balance) && RemainderIsZero(env, es, i, paymaster)
    requires j in Chosen(env, es, |es|).picked && Charge(env, es, j, paymaster) > 0
    ensures Spent(env, es, Chosen(env, es, |es|).picked, paymaster) > balance
  {
    hide Chosen, Charge, Spent, RemainderIsZero, ConstantBalance;
    ZeroMeansDrained(env, es, i, paymaster, balance);
    SpendingGrows(env, es, i, j, paymaster);
    LaterChoicesKeepEarlier(env, es, j + 1, |es|, j);
    SpentByOneMore(env, es, j + 1, paymaster);
    SpendingGrows(env, es, j + 1, |es|, paymaster);
  }

  lemma {:induction false} FirstZero(env: Env, es: seq<Entry>, n: nat, paymaster: string) returns (i: nat)
    requires n <= |es|
    ensures i <= n && (i < n ==> RemainderIsZero(env, es, i, paymaster))
    ensures forall j :: 0 <= j < i ==> !RemainderIsZero(env, es, j, paymaster)
  {
    if n == 0 {
      i := 0;
    } else {
      i := FirstZero(env, es, n - 1, paymaster);
      if i == n - 1 && !RemainderIsZero(env, es, i, paymaster) {
        i := n;
      }
    }
  }

  ghost predicate NothingChargedPastZero(env: Env, es: seq<Entry>, picked: seq<nat>, paymaster: string) {
    forall i, j | 0 <= i <= j < |es| && RemainderIsZero(env, es, i, paymaster) && j in picked ::
      Charge(env, es, j, paymaster) == 0
  }

  /** With a constant balance, the prefunds of the chosen operations of a paymaster stay within it
      exactly when nothing is charged to the paymaster once a candidate has found its remainder at
      exactly zero: there the full balance is read again. */
  lemma PaymasterOverspentExactlyWhen(env: Env, es: seq<Entry>, paymaster: string, balance: nat)
    requires ConstantBalance(env, paymaster, balance)
    ensures var picked := Chosen(env, es, |es|).picked;
            Spent(env, es, picked, paymaster) <= balance
            <==> NothingChargedPastZero(env, es, picked, paymaster)
  {
    var picked := Chosen(env, es, |es|).picked;
    forall i, j | 0 <= i <= j < |es| && RemainderIsZero(env, es, i, paymaster) && j in picked
        && Charge(env, es, j, paymaster) > 0
      ensures Spent(env, es, picked, paymaster) > balance
    {
      ChargedPastZero(env, es, i, j, paymaster, balance);
    }
    if NothingChargedPastZero(env, es, picked, paymaster) {
      var i := FirstZero(env, es, |es|, paymaster);
      ExactUntilZero(env, es, i, paymaster, balance);
      SpendingGrows(env, es, i, |es|, paymaster);
    }
  }

  /** The overspending is real: two sound operations of different senders that each need the whole
      balance are both chosen. */
  lemma ZeroRemainderOverspends(env: Env, es: seq<Entry>, paymaster: string, balance: nat)
    requires |es| == 2 && es[0].userOp.sender != es[1].userOp.sender && balance > 0
    requires ConstantBalance(env, paymaster, balance)
    requires forall i :: 0 <= i < 2 ==> Sound(env, es, i) && es[i].paymaster == Some(paymaster)
                                        && env.validate(i).value.prefund == balance
    ensures Chosen(env, es, 2).picked == [0, 1]
    ensures Spent(env, es, [0, 1], paymaster) == 2 * balance
  {
    var s0 := Choice([], map[], map[], false);
    var s1 := Considered(env, es, s0, 0);
    SoundIsCharged(env, es, s0, 0, paymaster);
    assert [] + [0] == [0] && [0] + [1] == [0, 1];
    SoundIsCharged(env, es, s1, 1, paymaster);
    TwoConsidered(env, es);
    SpentOfOneMore(env, es, [], 0, paymaster);
    SpentOfOneMore(env, es, [0], 1, paymaster);
  }

  lemma TwoConsidered(env: Env, es: seq<Entry>)
    requires |es| == 2
    ensures Chosen(env, es, 2) == Considered(env, es, Considered(env, es, NOTHING, 0), 1)
  {
    assert Chosen(env, es, 0) == NOTHING;
    assert Chosen(env, es, 1) == Considered(env, es, NOTHING, 0);
  }

  lemma SoundIsCharged(env: Env, es: seq<Entry>, s: Choice, i: nat, paymaster: string)
    requires i < |es| && Within(s.picked, |es|) && Sound(env, es, i) && es[i].paymaster == Some(paymaster)
    requires !SenderTaken(es, s.picked, es[i].userOp.sender)
    requires DepositOf(env, s.deposit, paymaster, i) >= env.validate(i).value.prefund
    ensures var s' := Considered(env, es, s, i);
            && s'.picked == s.picked + [i] && paymaster in s'.deposit
            && s'.deposit[paymaster] == DepositOf(env, s.deposit, paymaster, i) - env.validate(i).value.prefund
  {
    SoundExactlyWhen(env, es, i);
  }

  // ----- Fees -----

  function Min(a: nat, b: nat): nat {
    if a < b then a else b
  }

  function FeeSum(es: seq<Entry>, picked: seq<nat>, priority: bool): nat
    requires Within(picked, |es|)
  {
    if picked == [] then 0
    else FeeSum(es, picked[..|picked| - 1], priority) + FeeOf(es[picked[|picked| - 1]], priority)
  }

  function FeeOf(e: Entry, priority: bool): nat {
    if priority then e.userOp.maxPriorityFeePerGas else e.userOp.maxFeePerGas
  }

  /** The average of what the operations offer, capped by what the chain asks. */
  function BundleFee(isFuse: bool, sum: nat, count: nat, onchain: nat): nat {
    if isFuse then onchain
    else Min(Average(sum, count), onchain)
  }

  function Average(sum: nat, count: nat): nat {
    if count > 1 then sum / count else sum
  }

  lemma {:induction false} FeeSumIsBounded(es: seq<Entry>, picked: seq<nat>, priority: bool, low: nat, high: nat)
    requires Within(picked, |es|)
    requires forall k :: 0 <= k < |picked| ==> low <= FeeOf(es[picked[k]], priority) <= high
    ensures low * |picked| <= FeeSum(es, picked, priority) <= high * |picked|
  {
    if picked == [] {
    } else {
      FeeSumIsBounded(es, picked[..|picked| - 1], priority, low, high);
      TimesOneMore(low, |picked|);
      TimesOneMore(high, |picked|);
    }
  }

  lemma TimesOneMore(a: nat, n: nat)
    requires n > 0
    ensures a * n == a * (n - 1) + a
  {
  }

  lemma TimesMonotone(a: int, b: int, n: nat)
    requires a <= b
    ensures a * n <= b * n
  {
  }

  lemma AverageIsBounded(sum: nat, count: nat, low: nat, high: nat)
    requires count > 0 && low * count <= sum <= high * count
    ensures low <= sum / count <= high
  {
    var q: int, r: int := sum / count, sum % count;
    assert sum == q * count + r;
    if q < low {
      TimesMonotone(q + 1, low, count);
      assert false;
    }
    if q > high {
      TimesMonotone(high + 1, q, count);
      assert false;
    }
  }

  function Sum(offers: seq<nat>): nat {
    if offers == [] then 0 else Sum(offers[..|offers| - 1]) + offers[|offers| - 1]
  }

  /** The average of the offers, rounded down, or what the chain asks if that is less. */
  ghost predicate CappedAverage(fee: nat, offers: seq<nat>, onchain: nat) {
    && fee <= onchain && fee * |offers| <= Sum(offers)
    && (fee < onchain ==> Sum(offers) < (fee + 1) * |offers|)
  }

  lemma {:induction false} SumIsBounded(offers: seq<nat>, low: nat, high: nat)
    requires forall k :: 0 <= k < |offers| ==> low <= offers[k] <= high
    ensures low * |offers| <= Sum(offers) <= high * |offers|
  {
    if offers == [] {
    } else {
      SumIsBounded(offers[..|offers| - 1], low, high);
      TimesOneMore(low, |offers|);
      TimesOneMore(high, |offers|);
    }
  }

  /** Such a fee is never more than the chain asks, nor more than the dearest operation offers, nor less than the
      cheapest offers unless the chain asks for less. */
  lemma BundleFeeIsFair(fee: nat, offers: seq<nat>, onchain: nat, low: nat, high: nat)
    requires offers != [] && CappedAverage(fee, offers, onchain)
    requires forall k :: 0 <= k < |offers| ==> low <= offers[k] <= high
    ensures fee <= onchain && fee <= high && (fee >= low || fee == onchain)
  {
    SumIsBounded(offers, low, high);
    if fee > high {
      TimesMonotone(high + 1, fee, |offers|);
    } else if fee < low && fee < onchain {
      TimesMonotone(fee + 1, low, |offers|);
    }
  }

  lemma {:induction false} FeeSumIsSum(es: seq<Entry>, picked: seq<nat>, priority: bool, offers: seq<nat>)
    requires Within(picked, |es|) && |offers| == |picked|
    requires forall k :: 0 <= k < |picked| ==> offers[k] == FeeOf(es[picked[k]], priority)
    ensures FeeSum(es, picked, priority) == Sum(offers)
  {
    if picked == [] {
    } else {
      FeeSumIsSum(es, picked[..|picked| - 1], priority, offers[..|picked| - 1]);
    }
  }

  lemma BundleFeeIsCappedAverage(sum: nat, offers: seq<nat>, onchain: nat)
    requires offers != [] && sum == Sum(offers)
    ensures CappedAverage(BundleFee(false, sum, |offers|, onchain), offers, onchain)
  {
    var n := |offers|;
    if n > 1 {
      var q, fee := sum / n, BundleFee(false, sum, n, onchain);
      assert sum == q * n + sum % n;
      TimesMonotone(fee, q, n);
    }
  }

  // ----- The method -----

  datatype Bundle = Bundle(entries: seq<Entry>, storageMap: StorageMaps.StorageMap, maxFeePerGas: nat,
                           maxPriorityFeePerGas: nat)

  /** The same operation, perhaps with another status and time of change. */
  ghost predicate SameOperation(a: Entry, b: Entry) {
    a == b.(status := a.status, lastUpdatedTime := a.lastUpdatedTime)
  }

  ghost predicate SameOperations(a: seq<Entry>, b: seq<Entry>) {
    |a| == |b| && forall k :: 0 <= k < |a| ==> SameOperation(a[k], b[k])
  }

  /** Every candidate is stored as cancelled, and nothing else about the store has changed. */
  ghost predicate AllCancelled(before: Store, after: Store, es: seq<Entry>) {
    && after.keys == before.keys && after.hashes == before.hashes
    && (forall e <- es :: GetKey(e) in after.entries && after.entries[GetKey(e)].status == Cancelled)
    && (forall k :: (forall e <- es :: GetKey(e) != k) ==>
          && (k in after.entries <==> k in before.entries)
          && (k in after.entries ==> after.entries[k] == before.entries[k]))
  }

  lemma {:induction false} CancellingCancelsAll(s: Store, list: seq<Entry>, k: string)
    requires forall e <- list :: e.status == Cancelled
    ensures var s' := UpdatedAll(s, list);
            && s'.keys == s.keys && s'.hashes == s.hashes
            && ((exists e <- list :: GetKey(e) == k) ==> k in s'.entries && s'.entries[k].status == Cancelled)
            && ((forall e <- list :: GetKey(e) != k) ==>
                  (k in s'.entries <==> k in s.entries) && (k in s'.entries ==> s'.entries[k] == s.entries[k]))
  {
    if list == [] {
    } else {
      var init := list[..|list| - 1];
      assert list == init + [list[|list| - 1]];
      CancellingCancelsAll(s, init, k);
    }
  }

  lemma CancellingAgain(s0: Store, s: Store, list: seq<Entry>, es: seq<Entry>)
    requires s == s0 || AllCancelled(s0, s, es)
    requires SameOperations(list, es) && forall e <- list :: e.status == Cancelled
    ensures AllCancelled(s0, UpdatedAll(s, list), es)
  {
    var s' := UpdatedAll(s, list);
    CancellingCancelsAll(s, list, "");
    forall k
      ensures (exists e <- es :: GetKey(e) == k) ==> k in s'.entries && s'.entries[k].status == Cancelled
      ensures (forall e <- es :: GetKey(e) != k) ==>
                (k in s'.entries <==> k in s.entries) && (k in s'.entries ==> s'.entries[k] == s.entries[k])
    {
      CancellingCancelsAll(s, list, k);
      SameKeys(list, es, k);
    }
  }

  lemma SameKeys(list: seq<Entry>, es: seq<Entry>, k: string)
    requires SameOperations(list, es)
    ensures (exists e <- es :: GetKey(e) == k) <==> (exists e <- list :: GetKey(e) == k)
  {
    forall i | 0 <= i < |es| ensures GetKey(list[i]) == GetKey(es[i]) && list[i] in list && es[i] in es {
    }
    if exists e <- es :: GetKey(e) == k {
      var i :| 0 <= i < |es| && GetKey(es[i]) == k;
      assert list[i] in list;
    }
    if exists e <- list :: GetKey(e) == k {
      var i :| 0 <= i < |list| && GetKey(list[i]) == k;
      assert es[i] in es;
    }
  }

  /** The set of senders is that of the operations chosen so far. */
  ghost predicate Remembers(senders: set<string>, es: seq<Entry>, picked: seq<nat>)
    requires Within(picked, |es|)
  {
    forall s :: s in senders <==> SenderTaken(es, picked, s)
  }

  lemma NothingChosen(env: Env, es: seq<Entry>)
    ensures Chosen(env, es, 0) == NOTHING && Remembers({}, es, [])
    ensures FeeSum(es, [], false) == FeeSum(es, [], true) == 0
  {
  }

  lemma OneMorePicked(es: seq<Entry>, picked: seq<nat>, i: nat, senders: set<string>)
    requires Within(picked, |es|) && i < |es| && Remembers(senders, es, picked)
    ensures Remembers(senders + {es[i].userOp.sender}, es, picked + [i])
    ensures FeeSum(es, picked + [i], false) == FeeSum(es, picked, false) + es[i].userOp.maxFeePerGas
    ensures FeeSum(es, picked + [i], true) == FeeSum(es, picked, true) + es[i].userOp.maxPriorityFeePerGas
  {
    var more, p := senders + {es[i].userOp.sender}, picked + [i];
    assert p[..|picked|] == picked;
    forall s ensures s in more <==> SenderTaken(es, p, s) {
      SenderTakenExactlyWhen(es, picked, s);
      SenderTakenExactlyWhen(es, p, s);
    }
  }

  ghost predicate CancelledIf(cancelled: bool, before: Store, after: Store, es: seq<Entry>) {
    if cancelled then AllCancelled(before, after, es) else after == before
  }

  function Picked(list: seq<Entry>, picked: seq<nat>): (r: seq<Entry>)
    requires Within(picked, |list|)
    ensures |r| == |picked| && forall k :: 0 <= k < |r| ==> r[k] == list[picked[k]]
  {
    seq(|picked|, k requires 0 <= k < |picked| => list[picked[k]])
  }

  lemma OffersAdd(es: seq<Entry>, picked: seq<nat>, priority: bool, offers: seq<nat>, onchain: nat)
    requires Within(picked, |es|) && |offers| == |picked| && picked != []
    requires forall k :: 0 <= k < |picked| ==> offers[k] == FeeOf(es[picked[k]], priority)
    ensures CappedAverage(BundleFee(false, FeeSum(es, picked, priority), |picked|, onchain), offers, onchain)
  {
    hide BundleFee, CappedAverage, Sum, FeeSum, FeeOf;
    FeeSumIsSum(es, picked, priority, offers);
    BundleFeeIsCappedAverage(Sum(offers), offers, onchain);
  }

  /** The fees of a bundle, from what its operations offer. */
  lemma FeesOfEntries(env: Env, es: seq<Entry>, picked: seq<nat>, entries: seq<Entry>)
    requires Within(picked, |es|) && |entries| == |picked|
    requires forall k :: 0 <= k < |picked| ==> SameOperation(entries[k], es[picked[k]])
    ensures picked != [] ==>
              var n := |entries|;
              && CappedAverage(BundleFee(false, FeeSum(es, picked, false), n, env.gasFee.maxFeePerGas),
                               seq(n, k requires 0 <= k < n => entries[k].userOp.maxFeePerGas),
                               env.gasFee.maxFeePerGas)
              && CappedAverage(BundleFee(false, FeeSum(es, picked, true), n, env.gasFee.maxPriorityFeePerGas),
                               seq(n, k requires 0 <= k < n => entries[k].userOp.maxPriorityFeePerGas),
                               env.gasFee.maxPriorityFeePerGas)
  {
    hide BundleFee, CappedAverage, FeeSum;
    if picked != [] {
      var n := |entries|;
      OffersAdd(es, picked, false, seq(n, k requires 0 <= k < n => entries[k].userOp.maxFeePerGas),
                env.gasFee.maxFeePerGas);
      OffersAdd(es, picked, true, seq(n, k requires 0 <= k < n => entries[k].userOp.maxPriorityFeePerGas),
                env.gasFee.maxPriorityFeePerGas);
    }
  }

  class BundlingService {
    const mempool: MempoolService

    constructor (mempool: MempoolService)
      ensures this.mempool == mempool
    {
      this.mempool := mempool;
    }

    /** The chosen candidates make up the bundle. When a candidate's paymaster or factory is banned, or
        its second validation throws, all candidates are cancelled in the store. */
    method CreateBundle(env: Env, es: seq<Entry>, now: int) returns (bundle: Bundle)
      requires mempool.Valid()
      modifies mempool
      ensures mempool.Valid()
      ensures var c := Chosen(env, es, |es|);
              && |bundle.entries| == |c.picked|
              && (forall k :: 0 <= k < |c.picked| ==> SameOperation(bundle.entries[k], es[c.picked[k]]))
              && bundle.storageMap == c.storage
              && bundle.maxFeePerGas
                 == BundleFee(env.config.isFuse, FeeSum(es, c.picked, false), |c.picked|, env.gasFee.maxFeePerGas)
              && bundle.maxPriorityFeePerGas
                 == BundleFee(env.config.isFuse, FeeSum(es, c.picked, true), |c.picked|,
                     env.gasFee.maxPriorityFeePerGas)
      ensures env.config.isFuse ==>
                bundle.maxFeePerGas == env.gasFee.maxFeePerGas
                && bundle.maxPriorityFeePerGas == env.gasFee.maxPriorityFeePerGas
      ensures !env.config.isFuse && bundle.entries != [] ==>
                var n := |bundle.entries|;
                && CappedAverage(bundle.maxFeePerGas,
                                 seq(n, k requires 0 <= k < n => bundle.entries[k].userOp.maxFeePerGas),
                                 env.gasFee.maxFeePerGas)
                && CappedAverage(bundle.maxPriorityFeePerGas,
                                 seq(n, k requires 0 <= k < n => bundle.entries[k].userOp.maxPriorityFeePerGas),
                                 env.gasFee.maxPriorityFeePerGas)
      ensures CancelledIf(Chosen(env, es, |es|).cancelled, old(mempool.Contents()), mempool.Contents(), es)
    {
      var list, s, maxFee, maxPriority := Choose(env, es, now);
      hide CappedAverage, BundleFee, FeeSum, Chosen, CancelledIf;
      bundle := Bundle(Picked(list, s.picked), s.storage, maxFee, maxPriority);
      FeesOfEntries(env, es, s.picked, bundle.entries);
      var fee, priorityFee := ProtectedFees(env, |bundle.entries|, maxFee, maxPriority);
      bundle := bundle.(maxFeePerGas := fee, maxPriorityFeePerGas := priorityFee);
    }

    /** The fee protection at the end of `createBundle`. */
    method ProtectedFees(env: Env, count: nat, maxFee: nat, maxPriority: nat) returns (fee: nat, priorityFee: nat)
      ensures fee == BundleFee(env.config.isFuse, maxFee, count, env.gasFee.maxFeePerGas)
      ensures priorityFee == BundleFee(env.config.isFuse, maxPriority, count, env.gasFee.maxPriorityFeePerGas)
      ensures env.config.isFuse ==> fee == env.gasFee.maxFeePerGas && priorityFee == env.gasFee.maxPriorityFeePerGas
    {
      fee, priorityFee := maxFee, maxPriority;
      if env.config.isFuse {
        return env.gasFee.maxFeePerGas, env.gasFee.maxPriorityFeePerGas;
      }
      if count > 1 {
        fee, priorityFee := fee / count, priorityFee / count;
      }
      if fee > env.gasFee.maxFeePerGas {
        fee := env.gasFee.maxFeePerGas;
      }
      if priorityFee > env.gasFee.maxPriorityFeePerGas {
        priorityFee := env.gasFee.maxPriorityFeePerGas;
      }
    }

    /** The loop over the candidates; `list` are the candidates as their objects are at the end. */
    method Choose(env: Env, es: seq<Entry>, now: int)
      returns (list: seq<Entry>, s: Choice, maxFee: nat, maxPriority: nat)
      requires mempool.Valid()
      modifies mempool
      ensures mempool.Valid() && SameOperations(list, es) && s == Chosen(env, es, |es|)
      ensures maxFee == FeeSum(es, s.picked, false) && maxPriority == FeeSum(es, s.picked, true)
      ensures CancelledIf(s.cancelled, old(mempool.Contents()), mempool.Contents(), es)
    {
      hide AllCancelled, Integrity, Considered, Chosen, FeeSum, Remembers, SenderTaken;
      var senders: set<string>;
      list, s, senders := es, NOTHING, {};
      maxFee, maxPriority := 0, 0;
      NothingChosen(env, es);
      for i := 0 to |es|
        invariant s == Chosen(env, es, i) && Remembers(senders, es, s.picked)
        invariant maxFee == FeeSum(es, s.picked, false) && maxPriority == FeeSum(es, s.picked, true)
        invariant mempool.Valid() && SameOperations(list, es)
        invariant CancelledIf(s.cancelled, old(mempool.Contents()), mempool.Contents(), es)
      {
        ghost var before := s.picked;
        var taken;
        ChosenStep(env, es, i);
        list, s, taken := Consider(env, es, i, list, s, senders, old(mempool.Contents()), now);
        if taken {
          OneMorePicked(es, before, i, senders);
          senders := senders + {es[i].userOp.sender};
          maxFee := maxFee + es[i].userOp.maxFeePerGas;
          maxPriority := maxPriority + es[i].userOp.maxPriorityFeePerGas;
        }
      }
    }

    /** The body of the loop over the candidates. */
    method Consider(env: Env, es: seq<Entry>, i: nat, list: seq<Entry>, s: Choice, senders: set<string>,
                    ghost s0: Store, now: int)
      returns (list': seq<Entry>, s': Choice, taken: bool)
      requires i < |es| && Within(s.picked, i) && Remembers(senders, es, s.picked)
      requires mempool.Valid() && SameOperations(list, es) && CancelledIf(s.cancelled, s0, mempool.Contents(), es)
      modifies mempool
      ensures s' == Considered(env, es, s, i)
      ensures s'.picked == if taken then s.picked + [i] else s.picked
      ensures mempool.Valid() && SameOperations(list', es) && CancelledIf(s'.cancelled, s0, mempool.Contents(), es)
    {
      hide AllCancelled, SameOperations, Conflicts, Fits, Settled, Integrity;
      list', s', taken := list, s, false;
      var entry := es[i];
      if !Fits(env, entry.userOp) {
        return;
      }
      if IsBanned(env, entry.paymaster, i) {
        list' := CancelAll(list', es, s0, now);
        s' := s'.(cancelled := true);
      }
      if IsBanned(env, entry.factory, i) {
        list' := CancelAll(list', es, s0, now);
        s' := s'.(cancelled := true);
      }
      if entry.userOp.sender in senders {
        return;
      }
      var validationResult := env.validate(i);
      if validationResult.None? {
        list' := CancelAll(list', es, s0, now);
        s' := s'.(cancelled := true);
        return;
      }
      var v := validationResult.value;
      if v.storageMap.Some? && Conflicts(es, entry, v.storageMap.value) {
        return;
      }
      s', taken := Settle(env, entry, s', i, v);
    }

    /** Charges the paymaster, if it has the deposit, and takes the candidate in. */
    method Settle(env: Env, entry: Entry, s: Choice, i: nat, v: Validation) returns (s': Choice, taken: bool)
      ensures s' == Settled(env, entry, s, i, v) && s'.cancelled == s.cancelled
      ensures s'.picked == if taken then s.picked + [i] else s.picked
    {
      s', taken := s, false;
      if entry.paymaster.Some? {
        var paymaster := entry.paymaster.value;
        var d := DepositOf(env, s'.deposit, paymaster, i);
        if d < v.prefund {
          s' := s'.(deposit := s'.deposit[paymaster := d]);
          return;
        }
        s' := s'.(deposit := s'.deposit[paymaster := d - v.prefund]);
      }
      s' := s'.(picked := s'.picked + [i], storage := StorageAfter(env, entry, v, s'.storage, i));
      taken := true;
    }

    /** Cancels every candidate, not only the one that failed. */
    method CancelAll(list: seq<Entry>, ghost es: seq<Entry>, ghost s0: Store, now: int) returns (list': seq<Entry>)
      requires mempool.Valid() && SameOperations(list, es)
      requires mempool.Contents() == s0 || AllCancelled(s0, mempool.Contents(), es)
      modifies mempool
      ensures mempool.Valid() && SameOperations(list', es)
      ensures AllCancelled(s0, mempool.Contents(), es)
    {
      list' := mempool.UpdateStatus(list, Cancelled, Params(None, None), now);
      forall e | e in list' ensures e.status == Cancelled {
        var i :| 0 <= i < |list'| && list'[i] == e;
      }
      CancellingAgain(s0, old(mempool.Contents()), list', es);
    }
  }
}
