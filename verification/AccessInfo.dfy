/** `getAccessInfo` of packages/executor/src/services/UserOpValidation/utils.ts: the storage accesses
    of a call tree, gathered by address. */
module AccessInfos {
  import opened Wrappers
  import opened CallTrees

  /** What the accumulator holds for one address. A transient write count may be `undefined`. */
  datatype Access = Access(slotReads: map<Slot, seq<Hex>>, transientReads: map<Slot, seq<Hex>>,
                           slotWrites: map<Slot, nat>, transientWrites: map<Slot, Option<nat>>)

  const NO_ACCESS := Access(map[], map[], map[], map[])

  type AccessInfo = map<Address, Access>

  function Entry(info: AccessInfo, a: Address): Option<Access> {
    if a in info then Some(info[a]) else None
  }

  /** The address a frame's accesses belong to. */
  function Owner(call: Call): Address {
    if call.kind == "DELEGATECALL" then call.from else call.to
  }

  // ----- One slot of one frame, as the source adds it -----

  function ReadAdded(o: Option<Access>, x: Slot, values: seq<Hex>): Access {
    match o
    case Some(e) =>
      if x in e.slotReads then e.(slotReads := e.slotReads[x := e.slotReads[x] + values])
      else e.(slotReads := e.slotReads[x := values])
    case None => NO_ACCESS.(slotReads := map[x := values])
  }

  function TransientReadAdded(o: Option<Access>, x: Slot, values: seq<Hex>): Access {
    match o
    case Some(e) =>
      if x in e.transientReads then e.(transientReads := e.transientReads[x := e.transientReads[x] + values])
      else e.(transientReads := e.transientReads[x := values])
    case None => NO_ACCESS.(transientReads := map[x := values])
  }

  function WriteAdded(o: Option<Access>, x: Slot, count: nat): Access {
    match o
    case Some(e) =>
      if x in e.slotWrites && e.slotWrites[x] != 0 then e.(slotWrites := e.slotWrites[x := e.slotWrites[x] + count])
      else e.(slotWrites := e.slotWrites[x := count])
    case None => NO_ACCESS.(slotWrites := map[x := count])
  }

  /** With no entry yet, the count is looked up among the ordinary writes `w`, not the transient ones. */
  function TransientWriteAdded(o: Option<Access>, x: Slot, count: nat, w: map<Slot, nat>): Access {
    match o
    case Some(e) =>
      if x in e.transientWrites && e.transientWrites[x].Some? && e.transientWrites[x].value != 0 then
        e.(transientWrites := e.transientWrites[x := Some(e.transientWrites[x].value + count)])
      else e.(transientWrites := e.transientWrites[x := Some(count)])
    case None => NO_ACCESS.(transientWrites := map[x := if x in w then Some(w[x]) else None])
  }

  // ----- What the gathered accesses of one address should be -----

  const NO_SLOTS := AccessedSlots(map[], map[], map[], map[])

  /** The values read at a slot by a list of accesses, in order. */
  function ReadsAt(h: seq<AccessedSlots>, transient: bool, x: Slot): seq<Hex> {
    if h == [] then []
    else ReadsAt(h[..|h| - 1], transient, x) + OwnReads(h[|h| - 1], transient, x)
  }

  function ReadMap(p: AccessedSlots, transient: bool): map<Slot, seq<Hex>> {
    if transient then p.transientReads else p.slotReads
  }

  function OwnReads(p: AccessedSlots, transient: bool, x: Slot): seq<Hex> {
    if x in ReadMap(p, transient) then ReadMap(p, transient)[x] else []
  }

  function WriteMap(p: AccessedSlots, transient: bool): map<Slot, nat> {
    if transient then p.transientWrites else p.slotWrites
  }

  /** The writes to a slot, summed over a list of accesses. */
  function WritesAt(h: seq<AccessedSlots>, transient: bool, x: Slot): nat {
    if h == [] then 0
    else WritesAt(h[..|h| - 1], transient, x) + CountOf(WriteMap(h[|h| - 1], transient), x)
  }

  predicate ReadsSlot(h: seq<AccessedSlots>, transient: bool, x: Slot) {
    h != [] && (ReadsSlot(h[..|h| - 1], transient, x) || x in ReadMap(h[|h| - 1], transient))
  }

  predicate WritesSlot(h: seq<AccessedSlots>, transient: bool, x: Slot) {
    h != [] && (WritesSlot(h[..|h| - 1], transient, x) || x in WriteMap(h[|h| - 1], transient))
  }

  predicate Accesses(p: AccessedSlots) {
    p != NO_SLOTS
  }

  predicate OnlyTransientWrites(p: AccessedSlots) {
    p.slotReads == map[] && p.transientReads == map[] && p.slotWrites == map[] && p.transientWrites != map[]
  }

  /** One more frame's accesses; frames that access nothing before the first that does leave no trace. */
  function Extended(h: seq<AccessedSlots>, p: AccessedSlots): seq<AccessedSlots> {
    if h == [] && !Accesses(p) then [] else h + [p]
  }

  /** The first frame with any access to the address had nothing but transient writes. */
  predicate Lossy(h: seq<AccessedSlots>) {
    h != [] && OnlyTransientWrites(h[0])
  }

  /** The transient count of a slot when its count in the first frame is dropped. */
  function WithoutFirst(h: seq<AccessedSlots>, x: Slot): Option<nat>
    requires h != []
  {
    if WritesSlot(h[1..], true, x) then Some(WritesAt(h[1..], true, x)) else None
  }

  /** Transient counts are exact, save that in a lossy list one slot of the first frame starts over. */
  ghost predicate TransientWritesOk(m: map<Slot, Option<nat>>, h: seq<AccessedSlots>) {
    && (forall x :: x in m <==> WritesSlot(h, true, x))
    && (if Lossy(h) then exists lost :: StartsOver(m, h, lost)
        else forall x <- m :: m[x] == Some(WritesAt(h, true, x)))
  }

  ghost predicate StartsOver(m: map<Slot, Option<nat>>, h: seq<AccessedSlots>, lost: Slot)
    requires h != []
  {
    && lost in h[0].transientWrites
    && forall x <- m :: m[x] == if x == lost then WithoutFirst(h, x) else Some(WritesAt(h, true, x))
  }

  ghost predicate ReadsOk(m: map<Slot, seq<Hex>>, h: seq<AccessedSlots>, transient: bool) {
    forall x :: (x in m <==> ReadsSlot(h, transient, x)) && (x in m ==> m[x] == ReadsAt(h, transient, x))
  }

  ghost predicate WritesOk(m: map<Slot, nat>, h: seq<AccessedSlots>) {
    forall x :: (x in m <==> WritesSlot(h, false, x)) && (x in m ==> m[x] == WritesAt(h, false, x))
  }

  /** The entry of an address whose frames made the accesses `h`, in order. */
  ghost predicate Gathered(o: Option<Access>, h: seq<AccessedSlots>) {
    && (o.None? <==> h == [])
    && (h != [] ==> Accesses(h[0]))
    && ReadsOk(o.GetOr(NO_ACCESS).slotReads, h, false)
    && ReadsOk(o.GetOr(NO_ACCESS).transientReads, h, true)
    && WritesOk(o.GetOr(NO_ACCESS).slotWrites, h)
    && TransientWritesOk(o.GetOr(NO_ACCESS).transientWrites, h)
  }

  // ----- Adding one slot keeps the entry right -----

  lemma SlotOfLastOne(h: seq<AccessedSlots>, p: AccessedSlots, t: bool, x: Slot)
    ensures ReadsAt(h + [p], t, x) == ReadsAt(h, t, x) + OwnReads(p, t, x)
    ensures WritesAt(h + [p], t, x) == WritesAt(h, t, x) + CountOf(WriteMap(p, t), x)
    ensures ReadsSlot(h + [p], t, x) <==> ReadsSlot(h, t, x) || x in ReadMap(p, t)
    ensures WritesSlot(h + [p], t, x) <==> WritesSlot(h, t, x) || x in WriteMap(p, t)
  {
    assert (h + [p])[..|h|] == h;
  }

  lemma {:induction false} UntouchedSlot(h: seq<AccessedSlots>, t: bool, x: Slot)
    ensures !ReadsSlot(h, t, x) ==> ReadsAt(h, t, x) == []
    ensures !WritesSlot(h, t, x) ==> WritesAt(h, t, x) == 0
  {
    if h == [] {
    } else {
      UntouchedSlot(h[..|h| - 1], t, x);
    }
  }

  /** The slots of a history and of the history extended by one frame. */
  lemma SlotOfExtended(h: seq<AccessedSlots>, p: AccessedSlots, t: bool, x: Slot)
    ensures ReadsAt(Extended(h, p), t, x) == ReadsAt(h, t, x) + OwnReads(p, t, x)
    ensures WritesAt(Extended(h, p), t, x) == WritesAt(h, t, x) + CountOf(WriteMap(p, t), x)
    ensures ReadsSlot(Extended(h, p), t, x) <==> ReadsSlot(h, t, x) || x in ReadMap(p, t)
    ensures WritesSlot(Extended(h, p), t, x) <==> WritesSlot(h, t, x) || x in WriteMap(p, t)
  {
    SlotOfLastOne(h, p, t, x);
  }

  lemma ReadsStayOk(m: map<Slot, seq<Hex>>, h: seq<AccessedSlots>, p: AccessedSlots, q: AccessedSlots, t: bool)
    requires ReadsOk(m, Extended(h, p), t) && ReadMap(q, t) == ReadMap(p, t)
    ensures ReadsOk(m, Extended(h, q), t)
  {
    forall x ensures x in m <==> ReadsSlot(Extended(h, q), t, x)
             ensures x in m ==> m[x] == ReadsAt(Extended(h, q), t, x)
    {
      SlotOfExtended(h, p, t, x);
      SlotOfExtended(h, q, t, x);
    }
  }

  lemma ReadsGrowAt(h: seq<AccessedSlots>, p: AccessedSlots, q: AccessedSlots, t: bool, x: Slot, values: seq<Hex>,
                    y: Slot)
    requires x !in ReadMap(p, t) && ReadMap(q, t) == ReadMap(p, t)[x := values]
    ensures ReadsSlot(Extended(h, q), t, y) <==> ReadsSlot(Extended(h, p), t, y) || y == x
    ensures ReadsAt(Extended(h, q), t, y) == ReadsAt(Extended(h, p), t, y) + if y == x then values else []
    ensures !ReadsSlot(Extended(h, p), t, y) ==> ReadsAt(Extended(h, p), t, y) == []
  {
    SlotOfExtended(h, p, t, y);
    SlotOfExtended(h, q, t, y);
    UntouchedSlot(Extended(h, p), t, y);
  }

  lemma ReadsGrowOk(m: map<Slot, seq<Hex>>, h: seq<AccessedSlots>, p: AccessedSlots, q: AccessedSlots, t: bool,
                    x: Slot, values: seq<Hex>)
    requires ReadsOk(m, Extended(h, p), t) && x !in ReadMap(p, t) && ReadMap(q, t) == ReadMap(p, t)[x := values]
    ensures ReadsOk(if x in m then m[x := m[x] + values] else m[x := values], Extended(h, q), t)
  {
    hide ReadsSlot, ReadsAt, Extended;
    var m' := if x in m then m[x := m[x] + values] else m[x := values];
    forall y ensures y in m' <==> ReadsSlot(Extended(h, q), t, y)
             ensures y in m' ==> m'[y] == ReadsAt(Extended(h, q), t, y)
    {
      ReadsGrowAt(h, p, q, t, x, values, y);
    }
  }

  lemma WritesStayOk(m: map<Slot, nat>, h: seq<AccessedSlots>, p: AccessedSlots, q: AccessedSlots)
    requires WritesOk(m, Extended(h, p)) && p.slotWrites == q.slotWrites
    ensures WritesOk(m, Extended(h, q))
  {
    forall x ensures (x in m <==> WritesSlot(Extended(h, q), false, x))
             ensures x in m ==> m[x] == WritesAt(Extended(h, q), false, x)
    {
      SlotOfExtended(h, p, false, x);
      SlotOfExtended(h, q, false, x);
    }
  }

  lemma WritesGrowOk(m: map<Slot, nat>, h: seq<AccessedSlots>, p: AccessedSlots, q: AccessedSlots, x: Slot, count: nat)
    requires WritesOk(m, Extended(h, p)) && x !in p.slotWrites && q.slotWrites == p.slotWrites[x := count]
    ensures WritesOk(if x in m && m[x] != 0 then m[x := m[x] + count] else m[x := count], Extended(h, q))
  {
    hide WritesSlot, WritesAt, Extended;
    var m' := if x in m && m[x] != 0 then m[x := m[x] + count] else m[x := count];
    forall y ensures y in m' <==> WritesSlot(Extended(h, q), false, y)
             ensures y in m' ==> m'[y] == WritesAt(Extended(h, q), false, y)
    {
      SlotOfExtended(h, p, false, y);
      SlotOfExtended(h, q, false, y);
      UntouchedSlot(h, false, y);
    }
  }

  lemma LaterSlots(h: seq<AccessedSlots>, p: AccessedSlots, x: Slot)
    requires h != []
    ensures WithoutFirst(h + [p], x)
         == if x in p.transientWrites then Some(WithoutFirst(h, x).GetOr(0) + p.transientWrites[x])
            else WithoutFirst(h, x)
  {
    assert (h + [p])[1..] == h[1..] + [p];
    SlotOfLastOne(h[1..], p, true, x);
    UntouchedSlot(h[1..], true, x);
  }

  /** Two last accesses without transient writes leave the same transient counts. */
  lemma TransientWritesStayOk(m: map<Slot, Option<nat>>, h: seq<AccessedSlots>, p: AccessedSlots, q: AccessedSlots)
    requires TransientWritesOk(m, Extended(h, p)) && p.transientWrites == q.transientWrites == map[]
    ensures TransientWritesOk(m, Extended(h, q))
  {
    hide WritesSlot, WritesAt, WithoutFirst;
    forall x ensures WritesAt(Extended(h, q), true, x) == WritesAt(Extended(h, p), true, x)
             ensures WritesSlot(Extended(h, q), true, x) == WritesSlot(Extended(h, p), true, x)
    {
      SlotOfExtended(h, p, true, x);
      SlotOfExtended(h, q, true, x);
    }
    if Lossy(Extended(h, p)) {
      var lost :| StartsOver(m, Extended(h, p), lost);
      forall x ensures WithoutFirst(Extended(h, q), x) == WithoutFirst(Extended(h, p), x) {
        LaterSlots(h, p, x);
        LaterSlots(h, q, x);
      }
      assert StartsOver(m, Extended(h, q), lost);
    }
  }

  function CountAdded(m: map<Slot, Option<nat>>, x: Slot, count: nat): map<Slot, Option<nat>> {
    if x in m && m[x].Some? && m[x].value != 0 then m[x := Some(m[x].value + count)] else m[x := Some(count)]
  }

  lemma TransientWritesGrowAt(h: seq<AccessedSlots>, p: AccessedSlots, q: AccessedSlots, x: Slot, count: nat, y: Slot)
    requires h != [] && x !in p.transientWrites && q.transientWrites == p.transientWrites[x := count]
    ensures WritesSlot(h + [q], true, y) <==> WritesSlot(h + [p], true, y) || y == x
    ensures WritesAt(h + [q], true, y) == WritesAt(h + [p], true, y) + if y == x then count else 0
    ensures !WritesSlot(h + [p], true, y) ==> WritesAt(h + [p], true, y) == 0
    ensures WithoutFirst(h + [q], y)
         == if y == x then Some(WithoutFirst(h + [p], y).GetOr(0) + count) else WithoutFirst(h + [p], y)
  {
    hide WritesSlot, WritesAt;
    SlotOfLastOne(h, p, true, y);
    SlotOfLastOne(h, q, true, y);
    UntouchedSlot(h + [p], true, y);
    LaterSlots(h, p, y);
    LaterSlots(h, q, y);
  }

  /** A transient write to an address that has a history adds to its count, exact or not. */
  lemma TransientWritesGrowOk(m: map<Slot, Option<nat>>, h: seq<AccessedSlots>, p: AccessedSlots, q: AccessedSlots,
                              x: Slot, count: nat)
    requires h != [] && TransientWritesOk(m, h + [p])
    requires x !in p.transientWrites && q.transientWrites == p.transientWrites[x := count]
    ensures TransientWritesOk(CountAdded(m, x, count), h + [q])
  {
    hide WritesSlot, WritesAt, WithoutFirst;
    var m' := CountAdded(m, x, count);
    forall y ensures y in m' <==> WritesSlot(h + [q], true, y) {
      TransientWritesGrowAt(h, p, q, x, count, y);
    }
    if Lossy(h) {
      var lost :| StartsOver(m, h + [p], lost);
      FirstWrites(h, lost);
      SlotOfLastOne(h, p, true, lost);
      forall y | y in m'
        ensures m'[y] == if y == lost then WithoutFirst(h + [q], y) else Some(WritesAt(h + [q], true, y))
      {
        TransientWritesGrowAt(h, p, q, x, count, y);
      }
      assert StartsOver(m', h + [q], lost);
    } else {
      forall y | y in m' ensures m'[y] == Some(WritesAt(h + [q], true, y)) {
        TransientWritesGrowAt(h, p, q, x, count, y);
      }
    }
  }

  lemma {:induction false} FirstWrites(h: seq<AccessedSlots>, x: Slot)
    requires h != [] && x in h[0].transientWrites
    ensures WritesSlot(h, true, x)
  {
    if |h| == 1 {
    } else {
      FirstWrites(h[..|h| - 1], x);
    }
  }

  lemma SlotOfFirst(p: AccessedSlots, x: Slot)
    ensures WritesSlot([p], true, x) <==> x in p.transientWrites
    ensures WritesAt([p], true, x) == CountOf(p.transientWrites, x)
    ensures WithoutFirst([p], x) == None
  {
    assert [] + [p] == [p] && [p][1..] == [];
    SlotOfLastOne([], p, true, x);
  }

  /** At the start of a history, a transient write is counted once the frame has another access. */
  lemma SecondTransientWriteOk(m: map<Slot, Option<nat>>, p: AccessedSlots, q: AccessedSlots, x: Slot, count: nat)
    requires Accesses(p) && TransientWritesOk(m, [p])
    requires x !in p.transientWrites && q == p.(transientWrites := p.transientWrites[x := count])
    ensures TransientWritesOk(CountAdded(m, x, count), [q])
  {
    hide WritesSlot, WritesAt, WithoutFirst;
    forall y ensures WritesSlot([p], true, y) <==> y in p.transientWrites
             ensures WritesSlot([q], true, y) <==> y in q.transientWrites
             ensures WritesAt([p], true, y) == CountOf(p.transientWrites, y)
             ensures WritesAt([q], true, y) == CountOf(q.transientWrites, y)
             ensures WithoutFirst([p], y) == None && WithoutFirst([q], y) == None
    {
      SlotOfFirst(p, y);
      SlotOfFirst(q, y);
    }
    if OnlyTransientWrites(q) {
      var lost :| StartsOver(m, [p], lost);
      assert lost in m;
      assert StartsOver(CountAdded(m, x, count), [q], lost);
    }
  }

  /** The very first access, when it is a transient write, is not. */
  lemma FirstTransientWriteOk(q: AccessedSlots, x: Slot, count: nat)
    requires q == NO_SLOTS.(transientWrites := map[x := count])
    ensures TransientWritesOk(map[x := None], [q])
  {
    hide WritesSlot, WritesAt, WithoutFirst;
    forall y ensures (WritesSlot([q], true, y) <==> y in q.transientWrites) && WithoutFirst([q], y) == None {
      SlotOfFirst(q, y);
    }
    assert StartsOver(map[x := None], [q], x);
  }

  lemma EntryOk(e: Access, h: seq<AccessedSlots>)
    requires h != [] && Accesses(h[0])
    requires ReadsOk(e.slotReads, h, false) && ReadsOk(e.transientReads, h, true)
    requires WritesOk(e.slotWrites, h) && TransientWritesOk(e.transientWrites, h)
    ensures Gathered(Some(e), h)
  {
  }

  lemma FirstAccess(h: seq<AccessedSlots>, p: AccessedSlots, q: AccessedSlots)
    requires (h == [] || Accesses(h[0])) && Accesses(q)
    ensures Extended(h, q) != [] && Accesses(Extended(h, q)[0])
  {
  }

  lemma GatheredParts(o: Option<Access>, h: seq<AccessedSlots>, p: AccessedSlots)
    requires Gathered(o, Extended(h, p))
    ensures var e := o.GetOr(NO_ACCESS);
            && (h == [] || Accesses(h[0]))
            && ReadsOk(e.slotReads, Extended(h, p), false) && ReadsOk(e.transientReads, Extended(h, p), true)
            && WritesOk(e.slotWrites, Extended(h, p)) && TransientWritesOk(e.transientWrites, Extended(h, p))
  {
    assert h != [] ==> Extended(h, p)[0] == h[0];
  }

  lemma AddRead(o: Option<Access>, h: seq<AccessedSlots>, p: AccessedSlots, x: Slot, values: seq<Hex>)
    requires Gathered(o, Extended(h, p)) && x !in p.slotReads && p.transientWrites == map[]
    ensures Gathered(Some(ReadAdded(o, x, values)), Extended(h, p.(slotReads := p.slotReads[x := values])))
  {
    hide ReadsOk, WritesOk, TransientWritesOk;
    var q, e, e' := p.(slotReads := p.slotReads[x := values]), o.GetOr(NO_ACCESS), ReadAdded(o, x, values);
    GatheredParts(o, h, p);
    ReadsGrowOk(e.slotReads, h, p, q, false, x, values);
    ReadsStayOk(e.transientReads, h, p, q, true);
    WritesStayOk(e.slotWrites, h, p, q);
    TransientWritesStayOk(e.transientWrites, h, p, q);
    assert x in q.slotReads;
    FirstAccess(h, p, q);
    EntryOk(e', Extended(h, q));
  }

  lemma AddTransientRead(o: Option<Access>, h: seq<AccessedSlots>, p: AccessedSlots, x: Slot, values: seq<Hex>)
    requires Gathered(o, Extended(h, p)) && x !in p.transientReads && p.transientWrites == map[]
    ensures Gathered(Some(TransientReadAdded(o, x, values)),
            Extended(h, p.(transientReads := p.transientReads[x := values])))
  {
    hide ReadsOk, WritesOk, TransientWritesOk;
    var q, e, e' := p.(transientReads := p.transientReads[x := values]), o.GetOr(NO_ACCESS),
        TransientReadAdded(o, x, values);
    GatheredParts(o, h, p);
    ReadsGrowOk(e.transientReads, h, p, q, true, x, values);
    ReadsStayOk(e.slotReads, h, p, q, false);
    WritesStayOk(e.slotWrites, h, p, q);
    TransientWritesStayOk(e.transientWrites, h, p, q);
    assert x in q.transientReads;
    FirstAccess(h, p, q);
    EntryOk(e', Extended(h, q));
  }

  lemma AddWrite(o: Option<Access>, h: seq<AccessedSlots>, p: AccessedSlots, x: Slot, count: nat)
    requires Gathered(o, Extended(h, p)) && x !in p.slotWrites && p.transientWrites == map[]
    ensures Gathered(Some(WriteAdded(o, x, count)), Extended(h, p.(slotWrites := p.slotWrites[x := count])))
  {
    hide ReadsOk, WritesOk, TransientWritesOk;
    var q, e, e' := p.(slotWrites := p.slotWrites[x := count]), o.GetOr(NO_ACCESS), WriteAdded(o, x, count);
    GatheredParts(o, h, p);
    WritesGrowOk(e.slotWrites, h, p, q, x, count);
    ReadsStayOk(e.slotReads, h, p, q, false);
    ReadsStayOk(e.transientReads, h, p, q, true);
    TransientWritesStayOk(e.transientWrites, h, p, q);
    assert x in q.slotWrites;
    FirstAccess(h, p, q);
    EntryOk(e', Extended(h, q));
  }

  lemma OthersStayOk(e: Access, h: seq<AccessedSlots>, p: AccessedSlots, q: AccessedSlots)
    requires ReadsOk(e.slotReads, Extended(h, p), false) && ReadsOk(e.transientReads, Extended(h, p), true)
    requires WritesOk(e.slotWrites, Extended(h, p)) && p.(transientWrites := map[]) == q.(transientWrites := map[])
    ensures ReadsOk(e.slotReads, Extended(h, q), false) && ReadsOk(e.transientReads, Extended(h, q), true)
    ensures WritesOk(e.slotWrites, Extended(h, q))
  {
    ReadsStayOk(e.slotReads, h, p, q, false);
    ReadsStayOk(e.transientReads, h, p, q, true);
    WritesStayOk(e.slotWrites, h, p, q);
  }

  lemma AddTransientWriteLater(e: Access, h: seq<AccessedSlots>, p: AccessedSlots, x: Slot, count: nat)
    requires h != [] && Gathered(Some(e), h + [p]) && x !in p.transientWrites
    ensures Gathered(Some(e.(transientWrites := CountAdded(e.transientWrites, x, count))),
                     h + [p.(transientWrites := p.transientWrites[x := count])])
  {
    var q := p.(transientWrites := p.transientWrites[x := count]);
    OthersStayOk(e, h, p, q);
    TransientWritesGrowOk(e.transientWrites, h, p, q, x, count);
  }

  lemma AddTransientWriteFirst(o: Option<Access>, p: AccessedSlots, x: Slot, count: nat)
    requires Gathered(o, Extended([], p)) && x !in p.transientWrites
    ensures Gathered(Some(TransientWriteAdded(o, x, count, p.slotWrites)),
                     [p.(transientWrites := p.transientWrites[x := count])])
  {
    hide ReadsOk, WritesOk, TransientWritesOk;
    var q := p.(transientWrites := p.transientWrites[x := count]);
    assert [] + [p] == [p] && Extended([], q) == [q];
    OthersStayOk(o.GetOr(NO_ACCESS), [], p, q);
    if Accesses(p) {
      SecondTransientWriteOk(o.value.transientWrites, p, q, x, count);
    } else {
      FirstTransientWriteOk(q, x, count);
    }
  }

  lemma AddTransientWrite(o: Option<Access>, h: seq<AccessedSlots>, p: AccessedSlots, x: Slot, count: nat)
    requires Gathered(o, Extended(h, p)) && x !in p.transientWrites
    ensures Gathered(Some(TransientWriteAdded(o, x, count, p.slotWrites)),
                     Extended(h, p.(transientWrites := p.transientWrites[x := count])))
  {
    hide ReadsOk, WritesOk, TransientWritesOk;
    var q := p.(transientWrites := p.transientWrites[x := count]);
    if h == [] {
      AddTransientWriteFirst(o, p, x, count);
      assert Extended([], q) == [q];
    } else {
      var e := o.value;
      AddTransientWriteLater(e, h, p, x, count);
      assert TransientWriteAdded(o, x, count, p.slotWrites)
          == e.(transientWrites := CountAdded(e.transientWrites, x, count));
    }
  }

  // ----- Whole trees -----

  /** The accesses an address's frames made, in order, from the first frame that made any. */
  function HistoryOf(nodes: seq<Call>, a: Address): seq<AccessedSlots> {
    if nodes == [] then []
    else
      var h, last := HistoryOf(nodes[..|nodes| - 1], a), nodes[|nodes| - 1];
      if Owner(last) == a then Extended(h, last.accessedSlots) else h
  }

  /** Every address has exactly what its frames among `nodes` accessed. */
  ghost predicate InfoOk(info: AccessInfo, nodes: seq<Call>) {
    forall a :: Gathered(Entry(info, a), HistoryOf(nodes, a))
  }

  /** The same in the middle of a frame of address `addr`, of whose accesses `p` have been added. */
  ghost predicate PartlyOk(info: AccessInfo, nodes: seq<Call>, addr: Address, p: AccessedSlots) {
    forall a :: Gathered(Entry(info, a), HistoryNow(nodes, addr, p, a))
  }

  function HistoryNow(nodes: seq<Call>, addr: Address, p: AccessedSlots, a: Address): seq<AccessedSlots> {
    if a == addr then Extended(HistoryOf(nodes, a), p) else HistoryOf(nodes, a)
  }

  lemma EntryUpdated(info: AccessInfo, nodes: seq<Call>, addr: Address, p: AccessedSlots, q: AccessedSlots, e: Access)
    requires PartlyOk(info, nodes, addr, p) && Gathered(Some(e), Extended(HistoryOf(nodes, addr), q))
    ensures PartlyOk(info[addr := e], nodes, addr, q)
  {
    var info' := info[addr := e];
    forall a ensures Gathered(Entry(info', a), HistoryNow(nodes, addr, q, a)) {
      if a == addr {
        assert Entry(info', a) == Some(e) && HistoryNow(nodes, addr, q, a) == Extended(HistoryOf(nodes, addr), q);
      } else {
        assert Gathered(Entry(info, a), HistoryNow(nodes, addr, p, a));
        assert Entry(info', a) == Entry(info, a) && HistoryNow(nodes, addr, q, a) == HistoryNow(nodes, addr, p, a);
      }
    }
  }

  method AddReads(info: AccessInfo, addr: Address, values: map<Slot, seq<Hex>>, ghost nodes: seq<Call>,
                  ghost p: AccessedSlots)
    returns (info': AccessInfo)
    requires PartlyOk(info, nodes, addr, p) && p.slotReads == map[] && p.transientWrites == map[]
    ensures PartlyOk(info', nodes, addr, p.(slotReads := values))
  {
    info' := info;
    ghost var done: map<Slot, seq<Hex>> := map[];
    assert p.(slotReads := done) == p;
    var rest := values.Keys;
    while rest != {}
      invariant rest !! done.Keys && rest + done.Keys == values.Keys && done.Items <= values.Items
      invariant PartlyOk(info', nodes, addr, p.(slotReads := done))
    {
      var x :| x in rest;
      rest := rest - {x};
      AddRead(Entry(info', addr), HistoryOf(nodes, addr), p.(slotReads := done), x, values[x]);
      EntryUpdated(info', nodes, addr, p.(slotReads := done), p.(slotReads := done[x := values[x]]),
                   ReadAdded(Entry(info', addr), x, values[x]));
      info' := info'[addr := ReadAdded(Entry(info', addr), x, values[x])];
      Grown(done, values, x);
      done := done[x := values[x]];
    }
    AllDone(done, values);
  }

  lemma Grown<V>(done: map<Slot, V>, values: map<Slot, V>, x: Slot)
    requires done.Items <= values.Items && x in values && x !in done
    ensures done[x := values[x]].Items <= values.Items && done[x := values[x]].Keys == done.Keys + {x}
  {
    forall i | i in done[x := values[x]].Items ensures i in values.Items {
      if i.0 != x {
        assert i in done.Items;
      }
    }
  }

  lemma AllDone<V>(done: map<Slot, V>, values: map<Slot, V>)
    requires done.Items <= values.Items && done.Keys == values.Keys
    ensures done == values
  {
    forall x | x in done ensures done[x] == values[x] {
      assert (x, done[x]) in done.Items;
    }
  }

  method AddTransientReads(info: AccessInfo, addr: Address, values: map<Slot, seq<Hex>>, ghost nodes: seq<Call>,
                           ghost p: AccessedSlots)
    returns (info': AccessInfo)
    requires PartlyOk(info, nodes, addr, p) && p.transientReads == map[] && p.transientWrites == map[]
    ensures PartlyOk(info', nodes, addr, p.(transientReads := values))
  {
    info' := info;
    ghost var done: map<Slot, seq<Hex>> := map[];
    assert p.(transientReads := done) == p;
    var rest := values.Keys;
    while rest != {}
      invariant rest !! done.Keys && rest + done.Keys == values.Keys && done.Items <= values.Items
      invariant PartlyOk(info', nodes, addr, p.(transientReads := done))
    {
      var x :| x in rest;
      rest := rest - {x};
      AddTransientRead(Entry(info', addr), HistoryOf(nodes, addr), p.(transientReads := done), x, values[x]);
      EntryUpdated(info', nodes, addr, p.(transientReads := done), p.(transientReads := done[x := values[x]]),
                   TransientReadAdded(Entry(info', addr), x, values[x]));
      info' := info'[addr := TransientReadAdded(Entry(info', addr), x, values[x])];
      Grown(done, values, x);
      done := done[x := values[x]];
    }
    AllDone(done, values);
  }

  method AddWrites(info: AccessInfo, addr: Address, counts: map<Slot, nat>, ghost nodes: seq<Call>,
                   ghost p: AccessedSlots)
    returns (info': AccessInfo)
    requires PartlyOk(info, nodes, addr, p) && p.slotWrites == map[] && p.transientWrites == map[]
    ensures PartlyOk(info', nodes, addr, p.(slotWrites := counts))
  {
    info' := info;
    ghost var done: map<Slot, nat> := map[];
    assert p.(slotWrites := done) == p;
    var rest := counts.Keys;
    while rest != {}
      invariant rest !! done.Keys && rest + done.Keys == counts.Keys && done.Items <= counts.Items
      invariant PartlyOk(info', nodes, addr, p.(slotWrites := done))
    {
      var x :| x in rest;
      rest := rest - {x};
      AddWrite(Entry(info', addr), HistoryOf(nodes, addr), p.(slotWrites := done), x, counts[x]);
      EntryUpdated(info', nodes, addr, p.(slotWrites := done), p.(slotWrites := done[x := counts[x]]),
                   WriteAdded(Entry(info', addr), x, counts[x]));
      info' := info'[addr := WriteAdded(Entry(info', addr), x, counts[x])];
      Grown(done, counts, x);
      done := done[x := counts[x]];
    }
    AllDone(done, counts);
  }

  method AddTransientWrites(info: AccessInfo, addr: Address, slots: AccessedSlots, ghost nodes: seq<Call>)
    returns (info': AccessInfo)
    requires PartlyOk(info, nodes, addr, slots.(transientWrites := map[]))
    ensures PartlyOk(info', nodes, addr, slots)
  {
    info' := info;
    var counts := slots.transientWrites;
    ghost var done: map<Slot, nat> := map[];
    var rest := counts.Keys;
    while rest != {}
      invariant rest !! done.Keys && rest + done.Keys == counts.Keys && done.Items <= counts.Items
      invariant PartlyOk(info', nodes, addr, slots.(transientWrites := done))
    {
      var x :| x in rest;
      rest := rest - {x};
      AddTransientWrite(Entry(info', addr), HistoryOf(nodes, addr), slots.(transientWrites := done), x, counts[x]);
      EntryUpdated(info', nodes, addr, slots.(transientWrites := done), slots.(transientWrites := done[x := counts[x]]),
                   TransientWriteAdded(Entry(info', addr), x, counts[x], slots.slotWrites));
      info' := info'[addr := TransientWriteAdded(Entry(info', addr), x, counts[x], slots.slotWrites)];
      Grown(done, counts, x);
      done := done[x := counts[x]];
    }
    AllDone(done, counts);
  }

  lemma StartOfFrame(info: AccessInfo, nodes: seq<Call>, addr: Address)
    requires InfoOk(info, nodes)
    ensures PartlyOk(info, nodes, addr, NO_SLOTS)
  {
    forall a ensures Gathered(Entry(info, a), HistoryNow(nodes, addr, NO_SLOTS, a)) {
      EmptyAccessAddsNothing(Entry(info, a), HistoryOf(nodes, a));
    }
  }

  lemma EmptyAccessAddsNothing(o: Option<Access>, h: seq<AccessedSlots>)
    requires Gathered(o, h)
    ensures Gathered(o, Extended(h, NO_SLOTS))
  {
    if h != [] {
      var e := o.value;
      forall t, x ensures ReadsAt(h + [NO_SLOTS], t, x) == ReadsAt(h, t, x)
                  ensures WritesAt(h + [NO_SLOTS], t, x) == WritesAt(h, t, x)
                  ensures ReadsSlot(h + [NO_SLOTS], t, x) == ReadsSlot(h, t, x)
                  ensures WritesSlot(h + [NO_SLOTS], t, x) == WritesSlot(h, t, x)
      {
        SlotOfLastOne(h, NO_SLOTS, t, x);
      }
      if Lossy(h) {
        var lost :| StartsOver(e.transientWrites, h, lost);
        forall x ensures WithoutFirst(h + [NO_SLOTS], x) == WithoutFirst(h, x) {
          LaterSlots(h, NO_SLOTS, x);
        }
        assert StartsOver(e.transientWrites, h + [NO_SLOTS], lost);
      }
    }
  }

  lemma EndOfFrame(info: AccessInfo, nodes: seq<Call>, call: Call)
    requires PartlyOk(info, nodes, Owner(call), call.accessedSlots)
    ensures InfoOk(info, nodes + [call])
  {
    assert (nodes + [call])[..|nodes|] == nodes;
  }

  /** `getAccessInfo`: whatever frames `nodes` the accumulator describes, it ends up describing those
      and then all frames of the tree, each before the frames nested in it. */
  method GetAccessInfo(call: Call, info: AccessInfo, ghost nodes: seq<Call>) returns (info': AccessInfo)
    requires InfoOk(info, nodes)
    ensures InfoOk(info', nodes + Preorder(call))
    decreases call
  {
    var slots, addr := call.accessedSlots, Owner(call);
    StartOfFrame(info, nodes, addr);
    info' := AddReads(info, addr, slots.slotReads, nodes, NO_SLOTS);
    info' := AddTransientReads(info', addr, slots.transientReads, nodes, NO_SLOTS.(slotReads := slots.slotReads));
    info' := AddWrites(info', addr, slots.slotWrites, nodes, slots.(slotWrites := map[], transientWrites := map[]));
    info' := AddTransientWrites(info', addr, slots, nodes);
    EndOfFrame(info', nodes, call);
    assert nodes + [call] == nodes + Visited(call, 0);
    for i := 0 to |call.calls|
      invariant InfoOk(info', nodes + Visited(call, i))
    {
      info' := GetAccessInfo(call.calls[i], info', nodes + Visited(call, i));
      VisitedStep(call, i);
      assert nodes + Visited(call, i) + Preorder(call.calls[i]) == nodes + Visited(call, i + 1);
    }
    assert call.calls[..|call.calls|] == call.calls;
  }

  lemma NothingGatheredYet()
    ensures InfoOk(map[], [])
  {
    forall a ensures Gathered(Entry(map[], a), HistoryOf([], a)) {}
  }

  // ----- What the gathered entries mean -----

  /** The values read at a slot by the frames of an address, frame after frame: a delegate call accesses the
      storage of its sender, any other frame that of its target. */
  function NodeReads(nodes: seq<Call>, a: Address, transient: bool, x: Slot): seq<Hex> {
    if nodes == [] then []
    else
      var last := nodes[|nodes| - 1];
      var values := if transient then last.accessedSlots.transientReads else last.accessedSlots.slotReads;
      NodeReads(nodes[..|nodes| - 1], a, transient, x)
      + if (if last.kind == "DELEGATECALL" then last.from else last.to) == a && x in values then values[x] else []
  }

  function NodeWrites(nodes: seq<Call>, a: Address, transient: bool, x: Slot): nat {
    if nodes == [] then 0
    else
      var last := nodes[|nodes| - 1];
      var counts := if transient then last.accessedSlots.transientWrites else last.accessedSlots.slotWrites;
      NodeWrites(nodes[..|nodes| - 1], a, transient, x)
      + if (if last.kind == "DELEGATECALL" then last.from else last.to) == a && x in counts then counts[x] else 0
  }

  lemma SlotOfNothing(t: bool, x: Slot)
    ensures ReadsAt([], t, x) == [] && WritesAt([], t, x) == 0 && !ReadsSlot([], t, x) && !WritesSlot([], t, x)
  {
  }

  lemma {:induction false} HistoryReads(nodes: seq<Call>, a: Address, t: bool, x: Slot)
    ensures ReadsAt(HistoryOf(nodes, a), t, x) == NodeReads(nodes, a, t, x)
    ensures ReadsSlot(HistoryOf(nodes, a), t, x)
            <==> exists n <- nodes :: Owner(n) == a && x in ReadMap(n.accessedSlots, t)
    decreases |nodes|
  {
    hide ReadsAt, WritesAt, ReadsSlot, WritesSlot, Extended;
    SlotOfNothing(t, x);
    if nodes != [] {
      var init, last := nodes[..|nodes| - 1], nodes[|nodes| - 1];
      assert nodes == init + [last];
      HistoryReads(init, a, t, x);
      SlotOfExtended(HistoryOf(init, a), last.accessedSlots, t, x);
    }
  }

  lemma {:induction false} HistoryWrites(nodes: seq<Call>, a: Address, t: bool, x: Slot)
    ensures WritesAt(HistoryOf(nodes, a), t, x) == NodeWrites(nodes, a, t, x)
    ensures WritesSlot(HistoryOf(nodes, a), t, x)
            <==> exists n <- nodes :: Owner(n) == a && x in WriteMap(n.accessedSlots, t)
    decreases |nodes|
  {
    hide ReadsAt, WritesAt, ReadsSlot, WritesSlot, Extended;
    SlotOfNothing(t, x);
    if nodes != [] {
      var init, last := nodes[..|nodes| - 1], nodes[|nodes| - 1];
      assert nodes == init + [last];
      HistoryWrites(init, a, t, x);
      SlotOfExtended(HistoryOf(init, a), last.accessedSlots, t, x);
    }
  }

  /** One address and one slot: reads are the concatenation and writes the sum over all frames that
      access the address, that is delegate calls from it and other frames to it, and the keys are exactly the
      slots those frames touched; the keys of the transient writes too. */
  ghost predicate Conserved(info: AccessInfo, nodes: seq<Call>, a: Address, x: Slot) {
    var e := if a in info then info[a] else Access(map[], map[], map[], map[]);
    && (x in e.slotReads <==>
          exists n <- nodes :: x in n.accessedSlots.slotReads
              && ((n.kind == "DELEGATECALL" && n.from == a) || (n.kind != "DELEGATECALL" && n.to == a)))
    && (x in e.slotReads ==> e.slotReads[x] == NodeReads(nodes, a, false, x))
    && (x in e.transientReads <==>
          exists n <- nodes :: x in n.accessedSlots.transientReads
              && ((n.kind == "DELEGATECALL" && n.from == a) || (n.kind != "DELEGATECALL" && n.to == a)))
    && (x in e.transientReads ==> e.transientReads[x] == NodeReads(nodes, a, true, x))
    && (x in e.slotWrites <==>
          exists n <- nodes :: x in n.accessedSlots.slotWrites
              && ((n.kind == "DELEGATECALL" && n.from == a) || (n.kind != "DELEGATECALL" && n.to == a)))
    && (x in e.slotWrites ==> e.slotWrites[x] == NodeWrites(nodes, a, false, x))
    && (x in e.transientWrites <==>
          exists n <- nodes :: x in n.accessedSlots.transientWrites
              && ((n.kind == "DELEGATECALL" && n.from == a) || (n.kind != "DELEGATECALL" && n.to == a)))
  }

  /** An entry is there exactly when some frame accessed the address at all. */
  lemma {:induction false} EntryExactlyWhenAccessed(info: AccessInfo, nodes: seq<Call>, a: Address)
    requires InfoOk(info, nodes)
    ensures a in info
            <==> exists n <- nodes ::
                && n.accessedSlots != AccessedSlots(map[], map[], map[], map[])
                && ((n.kind == "DELEGATECALL" && n.from == a) || (n.kind != "DELEGATECALL" && n.to == a))
  {
    assert Gathered(Entry(info, a), HistoryOf(nodes, a));
    HistoryWhenAccessed(nodes, a);
  }

  lemma {:induction false} HistoryWhenAccessed(nodes: seq<Call>, a: Address)
    ensures HistoryOf(nodes, a) != []
            <==> exists n <- nodes ::
                && n.accessedSlots != AccessedSlots(map[], map[], map[], map[])
                && ((n.kind == "DELEGATECALL" && n.from == a) || (n.kind != "DELEGATECALL" && n.to == a))
  {
    if nodes == [] {
    } else {
      HistoryWhenAccessed(nodes[..|nodes| - 1], a);
      assert nodes == nodes[..|nodes| - 1] + [nodes[|nodes| - 1]];
    }
  }

  lemma AccessesAreConserved(info: AccessInfo, nodes: seq<Call>, a: Address, x: Slot)
    requires InfoOk(info, nodes)
    ensures Conserved(info, nodes, a, x)
  {
    assert Gathered(Entry(info, a), HistoryOf(nodes, a));
    HistoryReads(nodes, a, false, x);
    HistoryReads(nodes, a, true, x);
    HistoryWrites(nodes, a, false, x);
    HistoryWrites(nodes, a, true, x);
  }

  /** `getAccessInfo` as it is called, with nothing gathered yet: every access of the tree is accounted
      for under its owner and slot. */
  method GetAllAccesses(call: Call) returns (info: AccessInfo)
    ensures InfoOk(info, Preorder(call))
    ensures forall a, x :: Conserved(info, Preorder(call), a, x)
  {
    NothingGatheredYet();
    info := GetAccessInfo(call, map[], []);
    assert [] + Preorder(call) == Preorder(call);
    hide Conserved, InfoOk;
    forall a, x ensures Conserved(info, Preorder(call), a, x) {
      AccessesAreConserved(info, Preorder(call), a, x);
    }
  }

  ghost predicate WritesTransiently(nodes: seq<Call>, a: Address, x: Slot) {
    exists n <- nodes :: x in n.accessedSlots.transientWrites
        && ((n.kind == "DELEGATECALL" && n.from == a) || (n.kind != "DELEGATECALL" && n.to == a))
  }

  /** The frame at position `i` is the first that accesses the address at all. */
  ghost predicate FirstAccessing(nodes: seq<Call>, a: Address, i: nat) {
    && i < |nodes| && nodes[i].accessedSlots != AccessedSlots(map[], map[], map[], map[])
    && (if nodes[i].kind == "DELEGATECALL" then nodes[i].from else nodes[i].to) == a
    && forall j :: 0 <= j < i && (if nodes[j].kind == "DELEGATECALL" then nodes[j].from else nodes[j].to) == a
        ==> nodes[j].accessedSlots == AccessedSlots(map[], map[], map[], map[])
  }

  lemma {:induction false} HistoryFromFirst(nodes: seq<Call>, a: Address, i: nat, x: Slot)
    requires FirstAccessing(nodes, a, i)
    ensures HistoryOf(nodes, a) != [] && HistoryOf(nodes, a)[0] == nodes[i].accessedSlots
    ensures WritesAt(HistoryOf(nodes, a)[1..], true, x) == NodeWrites(nodes[i + 1..], a, true, x)
    ensures WritesSlot(HistoryOf(nodes, a)[1..], true, x) <==> WritesTransiently(nodes[i + 1..], a, x)
    decreases |nodes|
  {
    hide HistoryOf, WritesAt, WritesSlot, NodeWrites, WritesTransiently;
    var n := |nodes| - 1;
    if i == n {
      HistoryStarts(nodes, a, x);
      assert nodes[i + 1..] == [];
    } else {
      FirstStaysFirst(nodes, a, i);
      hide FirstAccessing;
      HistoryFromFirst(nodes[..n], a, i, x);
      assert nodes[i + 1..] == nodes[..n][i + 1..] + [nodes[n]];
      OneMoreNode(nodes[..n][i + 1..], nodes[n], a, x);
      OneMoreInHistory(nodes, a, x);
    }
  }

  lemma FirstStaysFirst(nodes: seq<Call>, a: Address, i: nat)
    requires FirstAccessing(nodes, a, i) && i < |nodes| - 1
    ensures FirstAccessing(nodes[..|nodes| - 1], a, i)
  {
  }

  lemma HistoryStarts(nodes: seq<Call>, a: Address, x: Slot)
    requires nodes != [] && FirstAccessing(nodes, a, |nodes| - 1)
    ensures HistoryOf(nodes, a) == [nodes[|nodes| - 1].accessedSlots]
    ensures WritesAt(HistoryOf(nodes, a)[1..], true, x) == NodeWrites([], a, true, x)
    ensures WritesSlot(HistoryOf(nodes, a)[1..], true, x) <==> WritesTransiently([], a, x)
  {
    var init := nodes[..|nodes| - 1];
    HistoryWhenAccessed(init, a);
    assert HistoryOf(init, a) == [];
    assert HistoryOf(nodes, a)[1..] == [];
  }

  lemma OneMoreNode(nodes: seq<Call>, last: Call, a: Address, x: Slot)
    ensures NodeWrites(nodes + [last], a, true, x)
         == NodeWrites(nodes, a, true, x)
            + if Owner(last) == a then CountOf(last.accessedSlots.transientWrites, x) else 0
    ensures WritesTransiently(nodes + [last], a, x)
            <==> WritesTransiently(nodes, a, x) || (Owner(last) == a && x in last.accessedSlots.transientWrites)
  {
    assert (nodes + [last])[..|nodes|] == nodes;
  }

  lemma OneMoreInHistory(nodes: seq<Call>, a: Address, x: Slot)
    requires nodes != [] && HistoryOf(nodes[..|nodes| - 1], a) != []
    ensures var h, h', last := HistoryOf(nodes[..|nodes| - 1], a), HistoryOf(nodes, a), nodes[|nodes| - 1];
            && h' != [] && h'[0] == h[0]
            && WritesAt(h'[1..], true, x)
               == WritesAt(h[1..], true, x)
                  + (if Owner(last) == a then CountOf(last.accessedSlots.transientWrites, x) else 0)
            && (WritesSlot(h'[1..], true, x)
                <==> WritesSlot(h[1..], true, x) || (Owner(last) == a && x in last.accessedSlots.transientWrites))
  {
    var h, last := HistoryOf(nodes[..|nodes| - 1], a), nodes[|nodes| - 1];
    if Owner(last) == a {
      assert (h + [last.accessedSlots])[1..] == h[1..] + [last.accessedSlots];
      SlotOfLastOne(h[1..], last.accessedSlots, true, x);
    }
  }

  /** The transient write counts of an address are all exact exactly when the first of its frames with
      any access had some access other than a transient write. */
  lemma TransientCountsExactExactlyWhen(info: AccessInfo, nodes: seq<Call>, a: Address, i: nat)
    requires InfoOk(info, nodes) && FirstAccessing(nodes, a, i)
    requires forall n <- nodes, x <- n.accessedSlots.transientWrites :: n.accessedSlots.transientWrites[x] > 0
    ensures a in info
    ensures (forall x <- info[a].transientWrites :: info[a].transientWrites[x] == Some(NodeWrites(nodes, a, true, x)))
            <==> || nodes[i].accessedSlots.slotReads != map[]
                 || nodes[i].accessedSlots.transientReads != map[]
                 || nodes[i].accessedSlots.slotWrites != map[]
  {
    HistoryFromFirst(nodes, a, i, "");
    var h := HistoryOf(nodes, a);
    assert Gathered(Entry(info, a), h);
    var m := info[a].transientWrites;
    forall x ensures WritesAt(h, true, x) == NodeWrites(nodes, a, true, x) {
      HistoryWrites(nodes, a, true, x);
    }
    if OnlyTransientWrites(h[0]) {
      var lost :| StartsOver(m, h, lost);
      FirstWrites(h, lost);
      FirstCounts(h, lost);
      assert nodes[i] in nodes;
    }
  }

  /** Otherwise one slot of that frame, and no other, lacks what the frame counted there: later frames start
      over, and with none of them the count is undefined. */
  lemma OneTransientCountStartsOver(info: AccessInfo, nodes: seq<Call>, a: Address, i: nat) returns (lost: Slot)
    requires InfoOk(info, nodes) && FirstAccessing(nodes, a, i)
    requires nodes[i].accessedSlots.slotReads == map[] && nodes[i].accessedSlots.transientReads == map[]
    requires nodes[i].accessedSlots.slotWrites == map[]
    ensures a in info && lost in nodes[i].accessedSlots.transientWrites && lost in info[a].transientWrites
    ensures forall x <- info[a].transientWrites :: x != lost ==>
              info[a].transientWrites[x] == Some(NodeWrites(nodes, a, true, x))
    ensures info[a].transientWrites[lost]
            == if WritesTransiently(nodes[i + 1..], a, lost) then Some(NodeWrites(nodes[i + 1..], a, true, lost))
               else None
  {
    HistoryFromFirst(nodes, a, i, "");
    var h := HistoryOf(nodes, a);
    assert Gathered(Entry(info, a), h);
    var m := info[a].transientWrites;
    forall x ensures WritesAt(h, true, x) == NodeWrites(nodes, a, true, x) {
      HistoryWrites(nodes, a, true, x);
    }
    assert OnlyTransientWrites(h[0]);
    lost :| StartsOver(m, h, lost);
    FirstWrites(h, lost);
    HistoryFromFirst(nodes, a, i, lost);
  }

  lemma {:induction false} FirstCounts(h: seq<AccessedSlots>, x: Slot)
    requires h != []
    ensures WritesAt(h, true, x) == CountOf(h[0].transientWrites, x) + WritesAt(h[1..], true, x)
    decreases |h|
  {
    if |h| == 1 {
    } else {
      FirstCounts(h[..|h| - 1], x);
      assert h[1..][..|h| - 2] == h[..|h| - 1][1..];
    }
  }
}
