/** The inventory routes of dashboard/app.py over one save record. */
module Inventory {
  import opened Wrappers

  // data stands for the other fields of the item, which the routes do not touch.
  datatype Item = Item(id: string, slot: string, equipped: bool, data: string)

  datatype Error = NotInBag | SlotMismatch | SlotEmpty | ItemRequired | BagFull

  datatype Save = Save(slots: map<string, Item>, bag: seq<Item>, capacity: nat)

  function Find(bag: seq<Item>, id: string): (r: Option<Item>)
    ensures r.Some? ==> r.value in bag && r.value.id == id
    ensures r == None <==> forall i | i in bag :: i.id != id
  {
    if bag == [] then None
    else if bag[0].id == id then Some(bag[0])
    else
      assert forall i :: i in bag <==> i == bag[0] || i in bag[1..];
      Find(bag[1..], id)
  }

  function Without(bag: seq<Item>, id: string): (r: seq<Item>)
    ensures |r| <= |bag|
    ensures forall i :: i in r <==> i in bag && i.id != id
    ensures (exists i :: i in bag && i.id == id) ==> |r| < |bag|
  {
    if bag == [] then []
    else
      assert forall i :: i in bag <==> i == bag[0] || i in bag[1..];
      if bag[0].id == id then Without(bag[1..], id) else [bag[0]] + Without(bag[1..], id)
  }

  // Add(None) is a request without an item, or with an empty one.
  datatype Op = Equip(id: string, slot: string) | Unequip(slot: string) | Drop(id: string) | Add(item: Option<Item>)

  function Refusal(s: Save, op: Op): Option<Error> {
    match op
    case Equip(id, slot) =>
      (match Find(s.bag, id)
       case None => Some(NotInBag)
       case Some(item) => if item.slot != slot then Some(SlotMismatch) else None)
    case Unequip(slot) =>
      if slot !in s.slots then Some(SlotEmpty)
      else if |s.bag| >= s.capacity then Some(BagFull)
      else None
    case Drop(_) => None
    case Add(item) =>
      if item == None then Some(ItemRequired)
      else if |s.bag| >= s.capacity then Some(BagFull)
      else None
  }

  // A refused request changes nothing.
  function Step(s: Save, op: Op): Save {
    if Refusal(s, op) != None then s
    else
      match op
      case Equip(id, slot) =>
        var item := Find(s.bag, id).value;
        var bag := Without(s.bag, id);
        Save(s.slots[slot := item.(equipped := true)],
             if slot in s.slots then bag + [s.slots[slot].(equipped := false)] else bag,
             s.capacity)
      case Unequip(slot) => Save(s.slots - {slot}, s.bag + [s.slots[slot].(equipped := false)], s.capacity)
      case Drop(id) => s.(bag := Without(s.bag, id))
      case Add(item) => s.(bag := s.bag + [item.value])
  }

  class Record {
    var slots: map<string, Item>
    var bag: seq<Item>
    const capacity: nat

    function Value(): Save
      reads this
    {
      Save(slots, bag, capacity)
    }

    constructor (s: Save)
      ensures Value() == s
    {
      slots, bag, capacity := s.slots, s.bag, s.capacity;
    }

    method EquipItem(id: string, slot: string) returns (error: Option<Error>)
      modifies this
      ensures error == Refusal(old(Value()), Equip(id, slot)) && Value() == Step(old(Value()), Equip(id, slot))
      ensures old(Inv(Value())) ==> Inv(Value()) && Owned(Value(), old(Value()), Equip(id, slot))
    {
      if Inv(Value()) {
        Conservation(Value(), Equip(id, slot));
      }
      var found := Find(bag, id);
      if found == None {
        return Some(NotInBag);
      }
      var item := found.value;
      if item.slot != slot {
        return Some(SlotMismatch);
      }
      bag := Without(bag, id);
      if slot in slots {
        var displaced := slots[slot].(equipped := false);
        bag := bag + [displaced];
      }
      item := item.(equipped := true);
      slots := slots[slot := item];
      return None;
    }

    method UnequipSlot(slot: string) returns (error: Option<Error>)
      modifies this
      ensures error == Refusal(old(Value()), Unequip(slot)) && Value() == Step(old(Value()), Unequip(slot))
      ensures old(Inv(Value())) ==> Inv(Value()) && Owned(Value(), old(Value()), Unequip(slot))
    {
      if Inv(Value()) {
        Conservation(Value(), Unequip(slot));
      }
      if slot !in slots {
        return Some(SlotEmpty);
      }
      if |bag| >= capacity {
        return Some(BagFull);
      }
      bag := bag + [slots[slot].(equipped := false)];
      slots := slots - {slot};
      return None;
    }

    method DropItem(id: string)
      modifies this
      ensures Value() == Step(old(Value()), Drop(id))
      ensures old(Inv(Value())) ==> Inv(Value()) && Owned(Value(), old(Value()), Drop(id))
    {
      if Inv(Value()) {
        Conservation(Value(), Drop(id));
      }
      bag := Without(bag, id);
    }

    method AddItem(item: Option<Item>) returns (error: Option<Error>)
      modifies this
      ensures error == Refusal(old(Value()), Add(item)) && Value() == Step(old(Value()), Add(item))
      ensures old(Inv(Value())) && (item.Some? ==> Fresh(old(Value()), item.value.id)) ==>
                Inv(Value()) && Owned(Value(), old(Value()), Add(item))
    {
      if Inv(Value()) && (item.Some? ==> Fresh(Value(), item.value.id)) {
        Conservation(Value(), Add(item));
      }
      if item == None {
        return Some(ItemRequired);
      }
      if |bag| >= capacity {
        return Some(BagFull);
      }
      bag := bag + [item.value];
      return None;
    }
  }

  // ---------- The requests, exactly ----------

  // The first item with the id.
  ghost predicate FirstAt(bag: seq<Item>, id: string, i: nat) {
    i < |bag| && bag[i].id == id && forall j | 0 <= j < i :: bag[j].id != id
  }

  lemma {:induction false} FindFirst(bag: seq<Item>, id: string, i: nat)
    requires FirstAt(bag, id, i)
    ensures Find(bag, id) == Some(bag[i])
  {
    if i > 0 {
      FindFirst(bag[1..], id, i - 1);
    }
  }

  lemma {:induction false} WithoutNone(bag: seq<Item>, id: string)
    requires forall i | 0 <= i < |bag| :: bag[i].id != id
    ensures Without(bag, id) == bag
  {
    if bag != [] {
      WithoutNone(bag[1..], id);
    }
  }

  lemma CutBehindFirst(bag: seq<Item>, i: nat)
    requires 0 < i < |bag|
    ensures [bag[0]] + (bag[1..][..i - 1] + bag[1..][i..]) == bag[..i] + bag[i + 1..]
  {
    assert [bag[0]] + bag[1..][..i - 1] == bag[..i];
    assert bag[1..][i..] == bag[i + 1..];
  }

  lemma {:induction false} WithoutAt(bag: seq<Item>, id: string, i: nat)
    requires i < |bag| && bag[i].id == id && forall j | 0 <= j < |bag| && j != i :: bag[j].id != id
    ensures Without(bag, id) == bag[..i] + bag[i + 1..]
  {
    if i == 0 {
      WithoutNone(bag[1..], id);
    } else {
      WithoutAt(bag[1..], id, i - 1);
      CutBehindFirst(bag, i);
    }
  }

  // When a request is refused, and why.
  lemma RefusedExactly(s: Save, id: string, slot: string, item: Option<Item>)
    ensures (forall i | 0 <= i < |s.bag| :: s.bag[i].id != id) <==> Refusal(s, Equip(id, slot)) == Some(NotInBag)
    ensures forall i: nat | FirstAt(s.bag, id, i) ::
      Refusal(s, Equip(id, slot)) == if s.bag[i].slot != slot then Some(SlotMismatch) else None
    ensures Refusal(s, Unequip(slot))
         == if slot !in s.slots then Some(SlotEmpty) else if |s.bag| >= s.capacity then Some(BagFull) else None
    ensures Refusal(s, Drop(id)) == None
    ensures Refusal(s, Add(item))
         == if item == None then Some(ItemRequired) else if |s.bag| >= s.capacity then Some(BagFull) else None
  {
    forall i: nat | FirstAt(s.bag, id, i)
      ensures Refusal(s, Equip(id, slot)) == if s.bag[i].slot != slot then Some(SlotMismatch) else None
    {
      FindFirst(s.bag, id, i);
    }
  }

  // Equipping item i: it leaves its place in the bag for the slot, flagged, and what the slot held goes to the end of
  // the bag, no longer flagged.
  lemma EquippedExactly(s: Save, i: nat, slot: string)
    requires Inv(s) && i < |s.bag| && s.bag[i].slot == slot
    ensures var t := Step(s, Equip(s.bag[i].id, slot));
      && t.slots == s.slots[slot := s.bag[i].(equipped := true)] && t.capacity == s.capacity
      && t.bag == s.bag[..i] + s.bag[i + 1..] + (if slot in s.slots then [s.slots[slot].(equipped := false)] else [])
  {
    FindFirst(s.bag, s.bag[i].id, i);
    WithoutAt(s.bag, s.bag[i].id, i);
  }

  // The other requests that are not refused.
  lemma MovedExactly(s: Save, i: nat, slot: string, item: Item)
    requires Inv(s)
    ensures slot in s.slots && |s.bag| < s.capacity ==>
      Step(s, Unequip(slot)) == Save(s.slots - {slot}, s.bag + [s.slots[slot].(equipped := false)], s.capacity)
    ensures i < |s.bag| ==> Step(s, Drop(s.bag[i].id)) == Save(s.slots, s.bag[..i] + s.bag[i + 1..], s.capacity)
    ensures |s.bag| < s.capacity ==> Step(s, Add(Some(item))) == Save(s.slots, s.bag + [item], s.capacity)
  {
    if i < |s.bag| {
      WithoutAt(s.bag, s.bag[i].id, i);
    }
  }

  // ---------- Conservation ----------

  // The item apart from its flag.
  function Core(i: Item): Item {
    i.(equipped := false)
  }

  function BagItems(bag: seq<Item>): set<Item> {
    set i | i in bag :: Core(i)
  }

  function SlotItems(slots: map<string, Item>): set<Item> {
    set slot | slot in slots :: Core(slots[slot])
  }

  // Everything the player owns.
  function Items(s: Save): set<Item> {
    BagItems(s.bag) + SlotItems(s.slots)
  }

  ghost predicate BagUnique(bag: seq<Item>) {
    forall i, j | 0 <= i < j < |bag| :: bag[i].id != bag[j].id
  }

  ghost predicate SlotsUnique(slots: map<string, Item>) {
    forall a, b | a in slots && b in slots && slots[a].id == slots[b].id :: a == b
  }

  ghost predicate Apart(slots: map<string, Item>, bag: seq<Item>) {
    forall a, i | a in slots && i in bag :: slots[a].id != i.id
  }

  ghost predicate Inv(s: Save) {
    && |s.bag| <= s.capacity
    && BagUnique(s.bag) && SlotsUnique(s.slots) && Apart(s.slots, s.bag)
    && forall slot | slot in s.slots :: s.slots[slot].slot == slot
  }

  // No item owned has the id.
  ghost predicate Fresh(s: Save, id: string) {
    (forall i | i in s.bag :: i.id != id) && forall slot | slot in s.slots :: s.slots[slot].id != id
  }

  lemma {:induction false} WithoutUnique(bag: seq<Item>, id: string)
    requires BagUnique(bag)
    ensures BagUnique(Without(bag, id))
  {
    if bag != [] {
      WithoutUnique(bag[1..], id);
      var rest := Without(bag[1..], id);
      forall i | i in rest ensures i.id != bag[0].id {
        var j :| 0 <= j < |bag[1..]| && bag[1..][j] == i;
        assert bag[j + 1] == i;
      }
    }
  }

  lemma AppendUnique(bag: seq<Item>, item: Item)
    requires BagUnique(bag) && forall i | i in bag :: i.id != item.id
    ensures BagUnique(bag + [item])
    ensures BagItems(bag + [item]) == BagItems(bag) + {Core(item)}
  {
    var t := bag + [item];
    assert forall i :: i in t <==> i in bag || i == item;
    forall i ensures i in BagItems(t) <==> i in BagItems(bag) + {Core(item)} {}
  }

  lemma WithoutItems(bag: seq<Item>, item: Item)
    requires BagUnique(bag) && item in bag
    ensures BagItems(Without(bag, item.id)) == BagItems(bag) - {Core(item)}
  {
    forall i | i in bag && i.id == item.id ensures i == item {
      var j, k :| 0 <= j < |bag| && bag[j] == i && 0 <= k < |bag| && bag[k] == item;
    }
    forall c ensures c in BagItems(Without(bag, item.id)) <==> c in BagItems(bag) - {Core(item)} {}
  }

  lemma SlotsRemove(slots: map<string, Item>, slot: string)
    requires SlotsUnique(slots) && slot in slots
    ensures SlotItems(slots - {slot}) == SlotItems(slots) - {Core(slots[slot])} && SlotsUnique(slots - {slot})
  {
    var t := slots - {slot};
    forall c ensures c in SlotItems(t) <==> c in SlotItems(slots) - {Core(slots[slot])} {
      if c in SlotItems(slots) && c != Core(slots[slot]) {
        var a :| a in slots && Core(slots[a]) == c;
        assert t[a] == slots[a];
      }
    }
  }

  lemma SlotsSetItems(slots: map<string, Item>, slot: string, item: Item)
    ensures SlotItems(slots[slot := item]) == SlotItems(slots - {slot}) + {Core(item)}
  {
    var t, u := slots[slot := item], slots - {slot};
    assert t[slot] == item;
    forall c ensures c in SlotItems(t) <==> c in SlotItems(u) + {Core(item)} {
      if c in SlotItems(u) {
        var a :| a in u && Core(u[a]) == c;
        assert t[a] == u[a];
      }
      if c in SlotItems(t) && c != Core(item) {
        var a :| a in t && Core(t[a]) == c;
        assert u[a] == t[a];
      }
    }
  }

  lemma SlotsSetUnique(slots: map<string, Item>, slot: string, item: Item)
    requires SlotsUnique(slots) && forall a | a in slots && a != slot :: slots[a].id != item.id
    ensures SlotsUnique(slots[slot := item])
  {}

  lemma EquipInv(s: Save, id: string, slot: string)
    requires Inv(s) && Refusal(s, Equip(id, slot)) == None
    ensures Inv(Step(s, Equip(id, slot)))
  {
    var item, bag := Find(s.bag, id).value, Without(s.bag, id);
    WithoutUnique(s.bag, id);
    if slot in s.slots {
      AppendUnique(bag, s.slots[slot].(equipped := false));
    }
    SlotsSetUnique(s.slots, slot, item.(equipped := true));
  }

  // What is displaced from the slot, if anything.
  function Displaced(s: Save, slot: string): set<Item> {
    if slot in s.slots then {Core(s.slots[slot])} else {}
  }

  lemma EquipBag(s: Save, id: string, slot: string)
    requires Inv(s) && Refusal(s, Equip(id, slot)) == None
    ensures BagItems(Step(s, Equip(id, slot)).bag)
         == BagItems(s.bag) - {Core(Find(s.bag, id).value)} + Displaced(s, slot)
  {
    WithoutUnique(s.bag, id);
    WithoutItems(s.bag, Find(s.bag, id).value);
    if slot in s.slots {
      AppendUnique(Without(s.bag, id), s.slots[slot].(equipped := false));
    }
  }

  lemma EquipSlots(s: Save, id: string, slot: string)
    requires Inv(s) && Refusal(s, Equip(id, slot)) == None
    ensures SlotItems(Step(s, Equip(id, slot)).slots)
         == SlotItems(s.slots) - Displaced(s, slot) + {Core(Find(s.bag, id).value)}
  {
    SlotsSetItems(s.slots, slot, Find(s.bag, id).value.(equipped := true));
    if slot in s.slots {
      SlotsRemove(s.slots, slot);
    } else {
      assert s.slots - {slot} == s.slots;
    }
  }

  lemma EquipItems(s: Save, id: string, slot: string)
    requires Inv(s) && Refusal(s, Equip(id, slot)) == None
    ensures Items(Step(s, Equip(id, slot))) == Items(s)
  {
    EquipBag(s, id, slot);
    EquipSlots(s, id, slot);
    assert Core(Find(s.bag, id).value) in BagItems(s.bag);
    assert Displaced(s, slot) <= SlotItems(s.slots);
  }

  lemma UnequipConserves(s: Save, slot: string)
    requires Inv(s) && Refusal(s, Unequip(slot)) == None
    ensures Inv(Step(s, Unequip(slot))) && Items(Step(s, Unequip(slot))) == Items(s)
  {
    AppendUnique(s.bag, s.slots[slot].(equipped := false));
    SlotsRemove(s.slots, slot);
    assert Core(s.slots[slot]) in SlotItems(s.slots);
  }

  // What one request does to the collection.
  function Changed(items: set<Item>, s: Save, op: Op): set<Item> {
    match op
    case Equip(_, _) => items
    case Unequip(_) => items
    case Drop(id) => (match Find(s.bag, id) case None => items case Some(item) => items - {Core(item)})
    case Add(item) => if item == None || |s.bag| >= s.capacity then items else items + {Core(item.value)}
  }

  // The request from s to t changed the collection as it should.
  ghost predicate Owned(t: Save, s: Save, op: Op) {
    Items(t) == Changed(Items(s), s, op)
  }

  lemma DropConserves(s: Save, id: string)
    requires Inv(s)
    ensures Inv(Step(s, Drop(id))) && Items(Step(s, Drop(id))) == Changed(Items(s), s, Drop(id))
  {
    WithoutUnique(s.bag, id);
    match Find(s.bag, id)
    case None =>
      assert BagItems(Without(s.bag, id)) == BagItems(s.bag);
    case Some(item) =>
      WithoutItems(s.bag, item);
      assert forall a | a in s.slots :: Core(s.slots[a]).id != Core(item).id;
  }

  // Every request keeps the invariant and changes the collection by the item added or dropped, and nothing else.
  lemma Conservation(s: Save, op: Op)
    requires Inv(s) && (op.Add? && op.item.Some? ==> Fresh(s, op.item.value.id))
    ensures Inv(Step(s, op)) && Owned(Step(s, op), s, op)
  {
    match op
    case Equip(id, slot) =>
      if Refusal(s, op) == None {
        EquipInv(s, id, slot);
        EquipItems(s, id, slot);
      }
    case Unequip(slot) =>
      if Refusal(s, op) == None {
        UnequipConserves(s, slot);
      }
    case Drop(id) => DropConserves(s, id);
    case Add(item) =>
      if item.Some? {
        AppendUnique(s.bag, item.value);
      }
  }

  // The route takes any item: it keeps the invariant exactly when the bag is full or the id is new.
  lemma AddKeepsExactly(s: Save, item: Item)
    requires Inv(s)
    ensures Inv(Step(s, Add(Some(item)))) <==> |s.bag| >= s.capacity || Fresh(s, item.id)
  {
    var t := Step(s, Add(Some(item)));
    if |s.bag| < s.capacity {
      if Fresh(s, item.id) {
        AppendUnique(s.bag, item);
      } else if Inv(t) {
        assert t.bag[|s.bag|] == item && item in t.bag;
        forall i | i in s.bag ensures i.id != item.id {
          var j :| 0 <= j < |s.bag| && s.bag[j] == i;
          assert t.bag[j] == i;
        }
      }
    }
  }

  function Run(s: Save, ops: seq<Op>): Save
    decreases |ops|
  {
    if ops == [] then s else Step(Run(s, ops[..|ops| - 1]), ops[|ops| - 1])
  }

  // What the collection was, with each item added in turn and without each item dropped.
  function Collected(s: Save, ops: seq<Op>): set<Item>
    decreases |ops|
  {
    if ops == [] then Items(s)
    else Changed(Collected(s, ops[..|ops| - 1]), Run(s, ops[..|ops| - 1]), ops[|ops| - 1])
  }

  // Every item added in the run is new when it is added.
  ghost predicate FreshRun(s: Save, ops: seq<Op>) {
    forall n: nat | n < |ops| && ops[n].Add? && ops[n].item.Some? :: Fresh(Run(s, ops[..n]), ops[n].item.value.id)
  }

  lemma {:induction false} EveryRunConserves(s: Save, ops: seq<Op>)
    requires Inv(s) && FreshRun(s, ops)
    ensures Inv(Run(s, ops)) && Items(Run(s, ops)) == Collected(s, ops)
    decreases |ops|
  {
    if ops != [] {
      var m := |ops| - 1;
      forall n: nat | n < m && ops[n].Add? && ops[n].item.Some?
        ensures Fresh(Run(s, ops[..m][..n]), ops[..m][n].item.value.id)
      {
        assert ops[..m][..n] == ops[..n];
      }
      EveryRunConserves(s, ops[..m]);
      Conservation(Run(s, ops[..m]), ops[m]);
    }
  }

  // Unequipping undoes equipping into an empty slot, but for the item's place in the bag.
  lemma EquipThenUnequip(s: Save, id: string, slot: string)
    requires Inv(s) && Refusal(s, Equip(id, slot)) == None && slot !in s.slots
    ensures var t := Step(Step(s, Equip(id, slot)), Unequip(slot));
      t.slots == s.slots && t.bag == Without(s.bag, id) + [Core(Find(s.bag, id).value)]
  {
    var t := Step(s, Equip(id, slot));
    assert t.slots - {slot} == s.slots;
  }
}
