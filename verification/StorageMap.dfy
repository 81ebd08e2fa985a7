/** Merging of storage maps, packages/executor/src/utils/mergeStorageMap.ts. */
module StorageMaps {
  import opened Wrappers

  type Address = string
  type Slot = string
  type Hex = string

  /** What a storage map says of one address: its storage root, or the values of some slots. */
  datatype Access = Root(hash: Hex) | Slots(slots: map<Slot, Hex>)

  type StorageMap = map<Address, Access>

  /** A root replaces whatever is there; slots add to slots, and are ignored where there is a root. */
  function MergedEntry(a: Option<Access>, b: Access): Access {
    match (a, b)
    case (_, Root(_)) => b
    case (Some(Root(_)), Slots(_)) => a.value
    case (Some(Slots(s)), Slots(t)) => Slots(s + t)
    case (None, Slots(_)) => b
  }

  function Entry(m: StorageMap, k: Address): Option<Access> {
    if k in m then Some(m[k]) else None
  }

  function Merge(m: StorageMap, v: StorageMap): StorageMap {
    map k | k in m.Keys + v.Keys :: if k in v then MergedEntry(Entry(m, k), v[k]) else m[k]
  }

  // ----- The merge in place -----

  /** A slot map as the mutable object it is in the source. */
  class SlotMap {
    var slots: map<Slot, Hex>

    constructor ()
      ensures slots == map[]
    {
      slots := map[];
    }
  }

  datatype Cell = RootCell(hash: Hex) | SlotsCell(table: SlotMap)

  function CellView(c: Cell): Access
    reads (if c.SlotsCell? then {c.table} else {})
  {
    match c
    case RootCell(hash) => Root(hash)
    case SlotsCell(o) => Slots(o.slots)
  }

  class StorageMapObject {
    var cells: map<Address, Cell>

    constructor ()
      ensures cells == map[]
    {
      cells := map[];
    }

    ghost function Objects(): set<SlotMap>
      reads this
    {
      set k | k in cells && cells[k].SlotsCell? :: cells[k].table
    }

    /** No two addresses share a slot map. */
    ghost predicate Valid()
      reads this
    {
      forall j, k :: j in cells && k in cells && j != k && cells[j].SlotsCell? && cells[k].SlotsCell?
                     ==> cells[j].table != cells[k].table
    }

    ghost function View(): StorageMap
      reads this, Objects()
    {
      map k | k in cells :: CellView(cells[k])
    }
  }

  /** Merges one entry of another storage map into `m`. */
  method MergeEntryInto(m: StorageMapObject, addr: Address, validationEntry: Cell)
    requires m.Valid() && (validationEntry.SlotsCell? ==> validationEntry.table !in m.Objects())
    modifies m, m.Objects()
    ensures m.View() == Put(old(m.View()), addr, old(CellView(validationEntry)))
    ensures m.Valid() && forall o <- m.Objects() :: o in old(m.Objects()) || fresh(o)
  {
    if validationEntry.RootCell? {
      m.cells := m.cells[addr := validationEntry];
    } else if addr in m.cells && m.cells[addr].RootCell? {
      assert m.View() == m.View()[addr := m.View()[addr]];
    } else {
      if addr !in m.cells {
        var empty := new SlotMap();
        m.cells := m.cells[addr := SlotsCell(empty)];
      }
      var slots := m.cells[addr].table;
      ghost var before := slots.slots;
      AssignSlots(slots, validationEntry.table);
      assert before == map[] ==> slots.slots == validationEntry.table.slots;
      assert m.View()[addr] == MergedEntry(Entry(old(m.View()), addr), old(CellView(validationEntry)));
    }
  }

  function Put(m: StorageMap, addr: Address, b: Access): StorageMap {
    m[addr := MergedEntry(Entry(m, addr), b)]
  }

  function Part(v: StorageMap, keys: set<Address>): StorageMap {
    map k | k in v && k in keys :: v[k]
  }

  lemma PutExtendsMerge(m: StorageMap, v: StorageMap, keys: set<Address>, addr: Address)
    requires addr in v && addr !in keys
    ensures Put(Merge(m, Part(v, keys)), addr, v[addr]) == Merge(m, Part(v, keys + {addr}))
  {
    var before, after := Merge(m, Part(v, keys)), Merge(m, Part(v, keys + {addr}));
    assert Entry(before, addr) == Entry(m, addr);
    assert after.Keys == before.Keys + {addr};
  }

  /** Merges `v` into `m` in place. Nothing of `v` is changed, and nothing of it becomes shared. */
  method MergeStorageMap(m: StorageMapObject, v: StorageMapObject)
    requires m.Valid() && m != v && m.Objects() !! v.Objects()
    modifies m, m.Objects()
    ensures m.View() == Merge(old(m.View()), old(v.View()))
    ensures v.cells == old(v.cells) && v.View() == old(v.View())
    ensures m.Valid() && forall o <- m.Objects() :: o in old(m.Objects()) || fresh(o)
  {
    ghost var m0, v0, done := m.View(), v.View(), {};
    assert Part(v0, {}) == map[];
    assert Merge(m0, map[]) == m0;
    var rest := v.cells.Keys;
    while rest != {}
      invariant v.cells == old(v.cells) && v.View() == v0
      invariant rest !! done && rest + done == v0.Keys
      invariant m.Valid() && forall o <- m.Objects() :: o in old(m.Objects()) || fresh(o)
      invariant m.View() == Merge(m0, Part(v0, done))
    {
      var addr :| addr in rest;
      rest := rest - {addr};
      MergeEntryInto(m, addr, v.cells[addr]);
      PutExtendsMerge(m0, v0, done, addr);
      done := done + {addr};
    }
    assert Part(v0, done) == v0;
  }

  /** Copies every slot of `from` into `slots`. */
  method AssignSlots(slots: SlotMap, from: SlotMap)
    requires slots != from
    modifies slots
    ensures slots.slots == old(slots.slots) + from.slots
  {
    var rest := from.slots.Keys;
    while rest != {}
      invariant rest <= from.slots.Keys
      invariant slots.slots == old(slots.slots) + map s | s in from.slots && s !in rest :: from.slots[s]
    {
      var slot :| slot in rest;
      rest := rest - {slot};
      slots.slots := slots.slots[slot := from.slots[slot]];
    }
    assert (map s | s in from.slots && s !in rest :: from.slots[s]) == from.slots;
  }

  // ----- Laws of the merge -----

  lemma EmptyIsIdentity(m: StorageMap)
    ensures Merge(m, map[]) == m && Merge(map[], m) == m
  {
    assert Merge(m, map[]).Keys == m.Keys && Merge(map[], m).Keys == m.Keys;
  }

  lemma EntryOfMerge(m: StorageMap, v: StorageMap, k: Address)
    ensures Entry(Merge(m, v), k) == if k in v then Some(MergedEntry(Entry(m, k), v[k])) else Entry(m, k)
  {
  }

  lemma EntriesAssociate(a: Option<Access>, b: Access, c: Access)
    ensures MergedEntry(Some(MergedEntry(a, b)), c) == MergedEntry(a, MergedEntry(Some(b), c))
  {
    if a.Some? && a.value.Slots? && b.Slots? && c.Slots? {
      assert (a.value.slots + b.slots) + c.slots == a.value.slots + (b.slots + c.slots);
    }
  }

  lemma MergeIsAssociative(a: StorageMap, b: StorageMap, c: StorageMap)
    ensures Merge(Merge(a, b), c) == Merge(a, Merge(b, c))
  {
    var l, r := Merge(Merge(a, b), c), Merge(a, Merge(b, c));
    assert l.Keys == r.Keys;
    forall k | k in l ensures l[k] == r[k] {
      EntryOfMerge(a, b, k);
      EntryOfMerge(b, c, k);
      if k in b && k in c {
        EntriesAssociate(Entry(a, k), b[k], c[k]);
      }
    }
  }

  /** Merges a list from the left, starting with nothing. */
  function MergeAll(list: seq<StorageMap>): StorageMap {
    if list == [] then map[] else Merge(MergeAll(list[..|list| - 1]), list[|list| - 1])
  }

  /** A root, once there, is never replaced by slots, and only ever by another root. */
  lemma {:induction false} RootsStay(list: seq<StorageMap>, n: nat, k: Address)
    requires n <= |list| && k in MergeAll(list[..n]) && MergeAll(list[..n])[k].Root?
    ensures k in MergeAll(list) && MergeAll(list)[k].Root?
    ensures (forall i :: n <= i < |list| && k in list[i] ==> list[i][k].Slots?) ==>
            MergeAll(list)[k] == MergeAll(list[..n])[k]
    decreases |list|
  {
    if n < |list| {
      assert list[..|list| - 1][..n] == list[..n];
      RootsStay(list[..|list| - 1], n, k);
    } else {
      assert list[..n] == list;
    }
  }

  // ----- Order does not matter when the maps agree -----

  ghost predicate AccessesAgree(a: Access, b: Access) {
    && (a.Root? && b.Root? ==> a == b)
    && (a.Slots? && b.Slots? ==> forall s :: s in a.slots && s in b.slots ==> a.slots[s] == b.slots[s])
  }

  /** Any two roots of an address, and any two values of a slot, are the same. */
  ghost predicate AllAgree(list: seq<StorageMap>) {
    forall i, j, k :: 0 <= i < |list| && 0 <= j < |list| && k in list[i] && k in list[j] ==>
        AccessesAgree(list[i][k], list[j][k])
  }

  /** `k` has the value `a` in some map of the list. */
  ghost predicate Says(list: seq<StorageMap>, k: Address, a: Access) {
    exists i :: 0 <= i < |list| && k in list[i] && list[i][k] == a
  }

  ghost predicate SaysSlot(list: seq<StorageMap>, k: Address, s: Slot, v: Hex) {
    exists i ::
      0 <= i < |list| && k in list[i] && list[i][k].Slots? && s in list[i][k].slots && list[i][k].slots[s] == v
  }

  ghost predicate Mentions(list: seq<StorageMap>, k: Address) {
    exists i :: 0 <= i < |list| && k in list[i]
  }

  ghost predicate HasRoot(list: seq<StorageMap>, k: Address) {
    exists i :: 0 <= i < |list| && k in list[i] && list[i][k].Root?
  }

  /** What the merge of an agreeing list says of one address, whatever the order of the list. */
  ghost predicate Describes(list: seq<StorageMap>, k: Address, r: Option<Access>) {
    match r
    case None => !Mentions(list, k)
    case Some(Root(h)) => Says(list, k, Root(h))
    case Some(Slots(slots)) =>
      && Mentions(list, k) && !HasRoot(list, k)
      && forall s, v :: (s in slots && slots[s] == v) <==> SaysSlot(list, k, s, v)
  }

  lemma LastMap(list: seq<StorageMap>, k: Address)
    requires list != []
    ensures var init, last := list[..|list| - 1], list[|list| - 1];
            && (Mentions(list, k) <==> Mentions(init, k) || k in last)
            && (HasRoot(list, k) <==> HasRoot(init, k) || (k in last && last[k].Root?))
            && (forall a :: Says(init, k, a) ==> Says(list, k, a))
            && (forall s, v :: SaysSlot(list, k, s, v)
                  <==> || SaysSlot(init, k, s, v)
                       || (k in last && last[k].Slots? && s in last[k].slots && last[k].slots[s] == v))
  {
    var init := list[..|list| - 1];
    assert list == init + [list[|list| - 1]];
    forall i | 0 <= i < |init| ensures init[i] == list[i] {}
  }

  lemma {:induction false} MergeAllDescribes(list: seq<StorageMap>, k: Address)
    requires AllAgree(list)
    ensures Describes(list, k, Entry(MergeAll(list), k))
    decreases |list|
  {
    if list == [] {
    } else {
      var init, last := list[..|list| - 1], list[|list| - 1];
      MergeAllDescribes(init, k);
      LastMap(list, k);
      EntryOfMerge(MergeAll(init), last, k);
      if k in last {
        MergedDescribes(list, k, Entry(MergeAll(init), k));
      }
    }
  }

  lemma MergedDescribes(list: seq<StorageMap>, k: Address, r: Option<Access>)
    requires list != [] && AllAgree(list) && k in list[|list| - 1]
    requires Describes(list[..|list| - 1], k, r)
    ensures Describes(list, k, Some(MergedEntry(r, list[|list| - 1][k])))
  {
    var init, last := list[..|list| - 1], list[|list| - 1];
    LastMap(list, k);
    if r.Some? && r.value.Slots? && last[k].Slots? {
      var slots := r.value.slots + last[k].slots;
      forall s, v ensures (s in slots && slots[s] == v) <==> SaysSlot(list, k, s, v) {
        if SaysSlot(init, k, s, v) && s in last[k].slots {
          var i :| 0 <= i < |init| && k in init[i] && init[i][k].Slots? && s in init[i][k].slots
              && init[i][k].slots[s] == v;
          assert AccessesAgree(list[i][k], list[|list| - 1][k]);
        }
      }
    }
  }

  /** Only one access can describe what an agreeing list says of an address. */
  lemma DescriptionIsUnique(a: seq<StorageMap>, b: seq<StorageMap>, k: Address, r: Option<Access>, r': Option<Access>)
    requires AllAgree(a) && (forall m :: m in a <==> m in b)
    requires Describes(a, k, r) && Describes(b, k, r')
    ensures r == r'
  {
    SameSayings(a, b, k);
    SameSayings(b, a, k);
    if r.Some? && r'.Some? && r.value.Root? && r'.value.Root? {
      var i :| 0 <= i < |a| && k in a[i] && a[i][k] == r.value;
      assert Says(a, k, r'.value);
      var j :| 0 <= j < |a| && k in a[j] && a[j][k] == r'.value;
      assert AccessesAgree(a[i][k], a[j][k]);
    }
    if r.Some? && r'.Some? && r.value.Slots? && r'.value.Slots? {
      var s, s' := r.value.slots, r'.value.slots;
      forall x ensures (x in s <==> x in s') && (x in s ==> s[x] == s'[x]) {
        if x in s { assert SaysSlot(a, k, x, s[x]); }
        if x in s' { assert SaysSlot(b, k, x, s'[x]); }
      }
      assert s == s';
    }
  }

  lemma SameSayings(a: seq<StorageMap>, b: seq<StorageMap>, k: Address)
    requires forall m :: m in a ==> m in b
    ensures Mentions(a, k) ==> Mentions(b, k)
    ensures HasRoot(a, k) ==> HasRoot(b, k)
    ensures forall x :: Says(a, k, x) ==> Says(b, k, x)
    ensures forall s, v :: SaysSlot(a, k, s, v) ==> SaysSlot(b, k, s, v)
  {
    forall i | 0 <= i < |a| ensures exists j :: 0 <= j < |b| && b[j] == a[i] {
      assert a[i] in b;
    }
  }

  /** Merging agreeing maps in any order, with any repetitions, gives the same result. */
  lemma OrderDoesNotMatter(a: seq<StorageMap>, b: seq<StorageMap>)
    requires AllAgree(a) && (forall m :: m in a <==> m in b)
    ensures MergeAll(a) == MergeAll(b)
  {
    forall i, j, k | 0 <= i < |b| && 0 <= j < |b| && k in b[i] && k in b[j] ensures AccessesAgree(b[i][k], b[j][k]) {
      assert b[i] in a && b[j] in a;
      var i' :| 0 <= i' < |a| && a[i'] == b[i];
      var j' :| 0 <= j' < |a| && a[j'] == b[j];
      assert AccessesAgree(a[i'][k], a[j'][k]);
    }
    var l, r := MergeAll(a), MergeAll(b);
    forall k ensures Entry(l, k) == Entry(r, k) {
      MergeAllDescribes(a, k);
      MergeAllDescribes(b, k);
      DescriptionIsUnique(a, b, k, Entry(l, k), Entry(r, k));
    }
    assert forall k :: (k in l <==> k in r) && (k in l ==> l[k] == r[k]) by {
      forall k ensures (k in l <==> k in r) && (k in l ==> l[k] == r[k]) {
        assert Entry(l, k) == Entry(r, k);
      }
    }
  }

  lemma EntriesCommuteExactlyWhen(a: Access, b: Access)
    ensures MergedEntry(Some(a), b) == MergedEntry(Some(b), a) <==> AccessesAgree(a, b)
  {
    if a.Slots? && b.Slots? {
      if a.slots + b.slots == b.slots + a.slots {
        forall s | s in a.slots && s in b.slots ensures a.slots[s] == b.slots[s] {
          assert (a.slots + b.slots)[s] == (b.slots + a.slots)[s];
        }
      }
    }
  }

  /** The order of two maps matters exactly when they disagree on an address. */
  lemma OrderMattersExactlyWhen(a: StorageMap, b: StorageMap)
    ensures Merge(a, b) == Merge(b, a) <==> forall k :: k in a && k in b ==> AccessesAgree(a[k], b[k])
  {
    var l, r := Merge(a, b), Merge(b, a);
    forall k | k in a && k in b ensures l[k] == r[k] <==> AccessesAgree(a[k], b[k]) {
      EntriesCommuteExactlyWhen(a[k], b[k]);
    }
    assert l.Keys == r.Keys;
    assert (forall k :: k in l ==> l[k] == r[k]) ==> l == r;
    forall k | k in l && (k !in a || k !in b) ensures l[k] == r[k] {
      EntryOfMerge(a, b, k);
      EntryOfMerge(b, a, k);
    }
  }
}
