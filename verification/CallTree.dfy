/** Call trees as the native tracer returns them, and the folds over them of
    packages/executor/src/services/UserOpValidation/utils.ts. */
module CallTrees {
  type Address = string
  type Slot = string
  type Hex = string

  datatype AccessedSlots = AccessedSlots(slotReads: map<Slot, seq<Hex>>, slotWrites: map<Slot, nat>,
                                         transientReads: map<Slot, seq<Hex>>, transientWrites: map<Slot, nat>)

  datatype ContractSizeInfo = ContractSizeInfo(opcode: nat, contractSize: nat)

  /** One frame with its nested frames; a missing `calls` is an empty one. */
  datatype Call = Call(kind: string, from: Address, to: Address, input: Hex, output: Hex, value: string, error: string,
                       accessedSlots: AccessedSlots, contractSize: map<Address, ContractSizeInfo>,
                       extCodeAccessInfo: seq<string>, usedOpcodes: map<string, nat>, outOfGas: bool,
                       calls: seq<Call>)

  /** All frames of a tree, each before the frames nested in it. */
  function Preorder(call: Call): seq<Call>
    decreases call, 1
  {
    [call] + PreorderAll(call.calls)
  }

  function PreorderAll(calls: seq<Call>): seq<Call>
    decreases calls, 0
  {
    if calls == [] then []
    else PreorderAll(calls[..|calls| - 1]) + Preorder(calls[|calls| - 1])
  }

  lemma PreorderPrefix(calls: seq<Call>, i: nat)
    requires i < |calls|
    ensures PreorderAll(calls[..i + 1]) == PreorderAll(calls[..i]) + Preorder(calls[i])
  {
    assert calls[..i + 1][..i] == calls[..i];
  }

  // ----- Opcode counts -----

  function CountOf(m: map<string, nat>, op: string): nat {
    if op in m then m[op] else 0
  }

  function OpcodeSum(nodes: seq<Call>, op: string): nat {
    if nodes == [] then 0
    else OpcodeSum(nodes[..|nodes| - 1], op) + CountOf(nodes[|nodes| - 1].usedOpcodes, op)
  }

  ghost predicate UsesOpcode(nodes: seq<Call>, op: string) {
    exists n <- nodes :: op in n.usedOpcodes
  }

  lemma {:induction false} OpcodeSumOfAppend(a: seq<Call>, b: seq<Call>, op: string)
    ensures OpcodeSum(a + b, op) == OpcodeSum(a, op) + OpcodeSum(b, op)
    decreases |b|
  {
    if b == [] {
      assert a + b == a;
    } else {
      OpcodeSumOfAppend(a, b[..|b| - 1], op);
      assert (a + b)[..|a + b| - 1] == a + b[..|b| - 1];
    }
  }

  /** `used'` is `used` with the counts of all of `nodes` added, and no other keys. */
  ghost predicate CountsAdded(used: map<string, nat>, nodes: seq<Call>, used': map<string, nat>) {
    forall op :: CountOf(used', op) == CountOf(used, op) + OpcodeSum(nodes, op)
              && (op in used' <==> op in used || UsesOpcode(nodes, op))
  }

  lemma CountsAddedCompose(u0: map<string, nat>, a: seq<Call>, u1: map<string, nat>, b: seq<Call>, u2: map<string, nat>)
    requires CountsAdded(u0, a, u1) && CountsAdded(u1, b, u2)
    ensures CountsAdded(u0, a + b, u2)
  {
    forall op
      ensures CountOf(u2, op) == CountOf(u0, op) + OpcodeSum(a + b, op)
      ensures op in u2 <==> op in u0 || UsesOpcode(a + b, op)
    {
      OpcodeSumOfAppend(a, b, op);
      assert CountOf(u1, op) == CountOf(u0, op) + OpcodeSum(a, op);
    }
  }

  lemma OpcodeSumOfOne(call: Call, op: string)
    ensures OpcodeSum([call], op) == CountOf(call.usedOpcodes, op)
  {
    assert [call][..0] == [];
  }

  /** Adds the counts of one frame. */
  method AddOpcodes(call: Call, used: map<string, nat>) returns (used': map<string, nat>)
    ensures CountsAdded(used, [call], used')
  {
    used' := used;
    var rest := call.usedOpcodes.Keys;
    while rest != {}
      invariant rest <= call.usedOpcodes.Keys
      invariant forall op ::
          CountOf(used', op) == CountOf(used, op) + if op in rest then 0 else CountOf(call.usedOpcodes, op)
      invariant forall op :: op in used' <==> op in used || (op in call.usedOpcodes && op !in rest)
    {
      var op :| op in rest;
      rest := rest - {op};
      if op in used' && used'[op] != 0 {
        used' := used'[op := used'[op] + call.usedOpcodes[op]];
      } else {
        used' := used'[op := call.usedOpcodes[op]];
      }
    }
    forall op ensures CountOf(used', op) == CountOf(used, op) + OpcodeSum([call], op) {
      OpcodeSumOfOne(call, op);
    }
    assert forall op :: UsesOpcode([call], op) <==> op in call.usedOpcodes by {
      forall op | op in call.usedOpcodes ensures UsesOpcode([call], op) {
        assert call in [call];
      }
    }
  }

  /** The accumulator ends up with the opcode counts of the whole tree added to what it held. */
  method GetOpcodesInfo(call: Call, used: map<string, nat>) returns (used': map<string, nat>)
    ensures CountsAdded(used, Preorder(call), used')
    decreases call
  {
    used' := AddOpcodes(call, used);
    assert [call] + [] == [call];
    for i := 0 to |call.calls|
      invariant CountsAdded(used, Visited(call, i), used')
    {
      ghost var before := used';
      used' := GetOpcodesInfo(call.calls[i], used');
      CountsAddedCompose(used, Visited(call, i), before, Preorder(call.calls[i]), used');
      VisitedStep(call, i);
    }
    assert call.calls[..|call.calls|] == call.calls;
  }

  /** The frames seen once a frame and the first `i` of its nested trees are done. */
  ghost function Visited(call: Call, i: nat): seq<Call>
    requires i <= |call.calls|
  {
    [call] + PreorderAll(call.calls[..i])
  }

  lemma VisitedStep(call: Call, i: nat)
    requires i < |call.calls|
    ensures Visited(call, i + 1) == Visited(call, i) + Preorder(call.calls[i])
  {
    PreorderPrefix(call.calls, i);
  }

  // ----- Out of gas, code accesses, contract sizes, referenced contracts -----

  /** Some frame of the tree ran out of gas. */
  method OutOfGasExists(call: Call) returns (r: bool)
    ensures r <==> exists n <- Preorder(call) :: n.outOfGas
    decreases call
  {
    if call.outOfGas {
      assert call == Preorder(call)[0];
      return true;
    }
    for i := 0 to |call.calls|
      invariant forall n <- [call] + PreorderAll(call.calls[..i]) :: !n.outOfGas
    {
      PreorderPrefix(call.calls, i);
      var nested := OutOfGasExists(call.calls[i]);
      if nested {
        var n :| n in Preorder(call.calls[i]) && n.outOfGas;
        NestedFrames(call, i, n);
        return true;
      }
    }
    assert call.calls[..|call.calls|] == call.calls;
    return false;
  }

  lemma {:induction false} FramesOfPrefix(calls: seq<Call>, i: nat, n: Call)
    requires i < |calls| && n in Preorder(calls[i])
    ensures n in PreorderAll(calls)
    decreases |calls|
  {
    if i == |calls| - 1 {
    } else {
      FramesOfPrefix(calls[..|calls| - 1], i, n);
    }
  }

  lemma NestedFrames(call: Call, i: nat, n: Call)
    requires i < |call.calls| && n in Preorder(call.calls[i])
    ensures n in Preorder(call)
  {
    FramesOfPrefix(call.calls, i, n);
  }

  /** The list a frame's code accesses and those of its nested trees add up to. Each nested tree is
      handed the list so far and answers it back in front of what it adds. */
  function Collected(call: Call, infos: seq<string>): (r: seq<string>)
    ensures infos + call.extCodeAccessInfo <= r
    decreases call, 1
  {
    CollectedAll(call.calls, infos + call.extCodeAccessInfo)
  }

  function CollectedAll(calls: seq<Call>, infos: seq<string>): (r: seq<string>)
    ensures infos <= r
    decreases calls, 0
  {
    if calls == [] then infos
    else
      var before := CollectedAll(calls[..|calls| - 1], infos);
      before + Collected(calls[|calls| - 1], before)
  }

  ghost predicate Accessed(nodes: seq<Call>, s: string) {
    exists n <- nodes :: s in n.extCodeAccessInfo
  }

  /** Repetitions aside, the list is what was given and the code accesses of the whole tree. */
  lemma {:induction false} CollectedIsUnion(call: Call, infos: seq<string>, s: string)
    ensures s in Collected(call, infos) <==> s in infos || Accessed(Preorder(call), s)
    decreases call, 1
  {
    CollectedAllIsUnion(call.calls, infos + call.extCodeAccessInfo, s);
    assert Preorder(call)[0] == call;
    assert forall n :: n in Preorder(call) <==> n == call || n in PreorderAll(call.calls);
  }

  lemma {:induction false} CollectedAllIsUnion(calls: seq<Call>, infos: seq<string>, s: string)
    ensures s in CollectedAll(calls, infos) <==> s in infos || Accessed(PreorderAll(calls), s)
    decreases calls, 0
  {
    if calls == [] {
    } else {
      var init, last := calls[..|calls| - 1], calls[|calls| - 1];
      CollectedAllIsUnion(init, infos, s);
      CollectedIsUnion(last, CollectedAll(init, infos), s);
    }
  }

  /** The list handed to a nested tree is answered in front of what the tree adds, and so stands there twice. */
  lemma NestedTreeRepeats(calls: seq<Call>, infos: seq<string>, nested: Call) returns (tail: seq<string>)
    ensures var before := CollectedAll(calls, infos);
            && Collected(nested, before) == before + tail && nested.extCodeAccessInfo <= tail
            && CollectedAll(calls + [nested], infos) == before + before + tail
            && (nested.calls == [] ==> tail == nested.extCodeAccessInfo)
  {
    var before := CollectedAll(calls, infos);
    tail := Collected(nested, before)[|before|..];
    assert Collected(nested, before) == before + tail;
    assert before + nested.extCodeAccessInfo <= before + tail;
    assert nested.extCodeAccessInfo == (before + tail)[|before|..|before| + |nested.extCodeAccessInfo|];
    assert (calls + [nested])[..|calls|] == calls;
    assert before + (before + tail) == before + before + tail;
  }

  function PowerOfTwo(n: nat): nat {
    if n == 0 then 1 else 2 * PowerOfTwo(n - 1)
  }

  /** The repetitions are many: every tree nested directly in a frame at least doubles the list. */
  lemma {:induction false} NestedTreesDoubleTheList(calls: seq<Call>, infos: seq<string>)
    ensures |CollectedAll(calls, infos)| >= PowerOfTwo(|calls|) * |infos|
  {
    if calls == [] {
    } else {
      var init := calls[..|calls| - 1];
      NestedTreesDoubleTheList(init, infos);
      assert 2 * (PowerOfTwo(|init|) * |infos|) == PowerOfTwo(|calls|) * |infos|;
    }
  }

  method GetExtCodeAccessInfos(call: Call, infos: seq<string>) returns (infos': seq<string>)
    ensures infos' == Collected(call, infos)
    decreases call
  {
    infos' := infos + call.extCodeAccessInfo;
    for i := 0 to |call.calls|
      invariant infos' == CollectedAll(call.calls[..i], infos + call.extCodeAccessInfo)
    {
      assert call.calls[..i + 1][..i] == call.calls[..i];
      var nested := GetExtCodeAccessInfos(call.calls[i], infos');
      infos' := infos' + nested;
    }
    assert call.calls[..|call.calls|] == call.calls;
  }

  /** The sizes of a list of frames, later frames overriding earlier ones. */
  function SizesOf(nodes: seq<Call>): map<Address, ContractSizeInfo> {
    if nodes == [] then map[] else SizesOf(nodes[..|nodes| - 1]) + nodes[|nodes| - 1].contractSize
  }

  lemma {:induction false} SizeOfSome(nodes: seq<Call>, a: Address)
    ensures a in SizesOf(nodes) <==> exists n <- nodes :: a in n.contractSize
  {
    if nodes != [] {
      SizeOfSome(nodes[..|nodes| - 1], a);
      assert nodes == nodes[..|nodes| - 1] + [nodes[|nodes| - 1]];
    }
  }

  lemma {:induction false} SizeOfLast(nodes: seq<Call>, a: Address, i: nat)
    requires i < |nodes| && a in nodes[i].contractSize && forall j :: i < j < |nodes| ==> a !in nodes[j].contractSize
    ensures a in SizesOf(nodes) && SizesOf(nodes)[a] == nodes[i].contractSize[a]
    decreases |nodes|
  {
    if i < |nodes| - 1 {
      SizeOfLast(nodes[..|nodes| - 1], a, i);
    }
  }

  /** An address has a size when some frame knows it, and then the one the last such frame says. */
  lemma SizeIsLastKnown(nodes: seq<Call>, a: Address)
    ensures a in SizesOf(nodes) <==> exists n <- nodes :: a in n.contractSize
    ensures forall i :: 0 <= i < |nodes| && a in nodes[i].contractSize
                        && (forall j :: i < j < |nodes| ==> a !in nodes[j].contractSize)
                ==> a in SizesOf(nodes) && SizesOf(nodes)[a] == nodes[i].contractSize[a]
  {
    hide SizesOf;
    SizeOfSome(nodes, a);
    forall i | 0 <= i < |nodes| && a in nodes[i].contractSize
               && (forall j :: i < j < |nodes| ==> a !in nodes[j].contractSize)
      ensures a in SizesOf(nodes) && SizesOf(nodes)[a] == nodes[i].contractSize[a]
    {
      SizeOfLast(nodes, a, i);
    }
  }

  lemma OverridesAssociate<K, V>(a: map<K, V>, b: map<K, V>, c: map<K, V>)
    ensures (a + b) + c == a + (b + c)
  {
  }

  lemma {:induction false} SizesOfAppend(a: seq<Call>, b: seq<Call>)
    ensures SizesOf(a + b) == SizesOf(a) + SizesOf(b)
    decreases |b|
  {
    if b == [] {
      assert a + b == a;
    } else {
      var init, last := b[..|b| - 1], b[|b| - 1];
      SizesOfAppend(a, init);
      assert (a + b)[..|a + b| - 1] == a + init;
      OverridesAssociate(SizesOf(a), SizesOf(init), last.contractSize);
    }
  }

  lemma OverrideTwice<K, V>(a: map<K, V>, b: map<K, V>, c: map<K, V>)
    ensures (a + b) + ((a + b) + c) == a + (b + c)
  {
  }

  /** The sizes given, overridden by those of the whole tree in the order its frames are entered. */
  method GetContractSizes(call: Call, sizes: map<Address, ContractSizeInfo>)
    returns (sizes': map<Address, ContractSizeInfo>)
    ensures sizes' == sizes + SizesOf(Preorder(call))
    decreases call
  {
    sizes' := sizes + call.contractSize;
    assert [call][..0] == [] && [call] + [] == [call];
    assert SizesOf([call]) == call.contractSize;
    for i := 0 to |call.calls|
      invariant sizes' == sizes + SizesOf(Visited(call, i))
    {
      var nested := GetContractSizes(call.calls[i], sizes');
      sizes' := sizes' + nested;
      OverrideTwice(sizes, SizesOf(Visited(call, i)), SizesOf(Preorder(call.calls[i])));
      VisitedStep(call, i);
      SizesOfAppend(Visited(call, i), Preorder(call.calls[i]));
    }
    assert call.calls[..|call.calls|] == call.calls;
  }

  /** The contracts of the frames of a list, nested frames not counted, with repetitions. */
  function OwnContracts(calls: seq<Call>): multiset<Address> {
    if calls == [] then multiset{}
    else OwnContracts(calls[..|calls| - 1]) + multiset(calls[|calls| - 1].contractSize.Keys)
  }

  /** What is answered when `contracts` is given. */
  ghost predicate Referenced(calls: seq<Call>, contracts: seq<Address>, a: Address) {
    a in contracts || exists c <- calls :: a in c.contractSize
  }

  lemma {:induction false} OwnContractsAre(calls: seq<Call>, a: Address)
    ensures a in OwnContracts(calls) <==> exists c <- calls :: a in c.contractSize
  {
    if calls == [] {
    } else {
      OwnContractsAre(calls[..|calls| - 1], a);
      assert calls == calls[..|calls| - 1] + [calls[|calls| - 1]];
    }
  }

  /** Only the frames of the list itself count: what the recursive call finds in nested frames is
      thrown away. What was given stays in front. */
  method GetReferencedContracts(calls: seq<Call>, contracts: seq<Address>) returns (contracts': seq<Address>)
    ensures contracts <= contracts' && multiset(contracts') == multiset(contracts) + OwnContracts(calls)
    ensures forall a :: a in contracts' <==> Referenced(calls, contracts, a)
    decreases calls
  {
    contracts' := contracts;
    for i := 0 to |calls|
      invariant contracts <= contracts' && multiset(contracts') == multiset(contracts) + OwnContracts(calls[..i])
    {
      assert calls[..i + 1][..i] == calls[..i];
      contracts' := PushAll(contracts', calls[i].contractSize.Keys);
      var _ := GetReferencedContracts(calls[i].calls, []);
    }
    assert calls[..|calls|] == calls;
    forall a ensures a in contracts' <==> Referenced(calls, contracts, a) {
      assert a in contracts' <==> a in multiset(contracts');
      assert a in contracts <==> a in multiset(contracts);
      OwnContractsAre(calls, a);
    }
  }

  /** Appends addresses in some order. */
  method PushAll(contracts: seq<Address>, addresses: set<Address>) returns (contracts': seq<Address>)
    ensures contracts <= contracts' && multiset(contracts') == multiset(contracts) + multiset(addresses)
  {
    contracts' := contracts;
    var rest := addresses;
    while rest != {}
      invariant rest <= addresses && contracts <= contracts'
      invariant multiset(contracts') == multiset(contracts) + multiset(addresses - rest)
    {
      var a :| a in rest;
      assert addresses - (rest - {a}) == (addresses - rest) + {a};
      rest := rest - {a};
      contracts' := contracts' + [a];
    }
  }

  /** The frames below those of a list. */
  ghost predicate Below(calls: seq<Call>, n: Call) {
    exists c <- calls :: n in PreorderAll(c.calls)
  }

  lemma {:induction false} FramesAndBelow(calls: seq<Call>, n: Call)
    ensures n in PreorderAll(calls) <==> n in calls || Below(calls, n)
  {
    if calls == [] {
    } else {
      var init, last := calls[..|calls| - 1], calls[|calls| - 1];
      assert calls == init + [last];
      FramesAndBelow(init, n);
    }
  }

  ghost predicate AllReferenced(calls: seq<Call>, contracts: seq<Address>, n: Call) {
    forall a <- n.contractSize :: Referenced(calls, contracts, a)
  }

  /** Every contract of the forest is answered exactly when each contract of a frame below the list is
      also given or belongs to one of the list's own frames. */
  lemma ForestIsReferencedExactlyWhen(calls: seq<Call>, contracts: seq<Address>)
    ensures (forall n <- PreorderAll(calls) :: AllReferenced(calls, contracts, n))
            <==> (forall n | Below(calls, n) :: AllReferenced(calls, contracts, n))
  {
    forall n ensures n in PreorderAll(calls) <==> n in calls || Below(calls, n) {
      FramesAndBelow(calls, n);
    }
  }

  /** Nested frames are not covered: a contract that only a frame nested in `outer` refers to is missing. */
  lemma NestedContractIsMissed(outer: Call, inner: Call, a: Address)
    requires outer.calls == [inner] && a in inner.contractSize && a !in outer.contractSize
    ensures inner in PreorderAll([outer]) && !Referenced([outer], [], a)
  {
    FramesAndBelow([outer], inner);
    assert outer in [outer];
    FramesAndBelow([inner], inner);
  }
}
