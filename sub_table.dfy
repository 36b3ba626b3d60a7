/** ht_subtable: a fixed array of slots, each lazily owning one entry list. */
module SubTables {
  import opened HashTypes
  import opened AddressHasher
  import opened ListSpec
  import opened EntryLists

  class SubTable {
    var entries: array<EntryList?>
    var capacity: nat
    var length: nat
    /** Per slot: no list, or the list's items and capacity. */
    ghost var Slots: seq<Option<ListView>>
    ghost var Repr: set<object>
    /** The slot that owns each list and each item block; it makes the lists of distinct
        slots distinct objects. */
    ghost var Owner: map<object?, int>

    ghost predicate Valid()
      reads this, Repr
    {
      && this in Repr && entries in Repr
      && capacity == entries.Length == |Slots|
      && (forall i :: 0 <= i < entries.Length && entries[i] == null ==> Slots[i] == None)
      && (forall i :: 0 <= i < entries.Length && entries[i] != null ==> SlotOk(i))
    }

    /** Slot `i` holds a valid list that lies in Repr, is owned by slot `i`, and matches
        Slots[i]. */
    ghost predicate SlotOk(i: int)
      reads this, Repr
      requires entries in Repr && |Slots| == entries.Length
      requires 0 <= i < entries.Length && entries[i] != null
    {
      && entries[i] in Repr && entries[i].items in Repr
      && entries[i] in Owner && Owner[entries[i]] == i
      && entries[i].items in Owner && Owner[entries[i].items] == i
      && entries[i].Valid() && Slots[i] == Some(entries[i].View())
    }

    /** ht_subtable_create (hash.c:52-70): `capacity` slots, all without a list, as
        calloc leaves them. */
    constructor (capacity: nat)
      ensures Valid() && fresh(Repr)
      ensures this.capacity == capacity && length == 0
      ensures Slots == seq(capacity, _ => None)
    {
      this.capacity := capacity;
      length := 0;
      entries := new EntryList?[capacity](_ => null);
      Slots := seq(capacity, _ => None);
      Owner := map[];
      new;
      Repr := {this, entries};
    }

    /** The second half of ht_add_entry (hash.c:81-124): the slot `uid % capacity` gets a
        list if it has none, and the item is appended to that list. */
    method Add(item: Item, uid: Int32, initCapacity: nat)
      requires Valid() && 0 < capacity && 0 < initCapacity
      modifies Repr
      ensures Valid() && fresh(Repr - old(Repr))
      ensures capacity == old(capacity) && length == old(length)
      ensures var s := SubBucketIndex(uid, capacity);
        Slots == old(Slots)[s := Some(Appended(ListOrNew(old(Slots)[s], initCapacity), item))]
    {
      var s := SubBucketIndex(uid, capacity);
      if entries[s] == null {
        CreateList(s, initCapacity);
      }
      AppendAt(s, item);
    }

    /** hash.c:87-105: a slot without a list gets an empty one of the minimum capacity. */
    method CreateList(s: nat, initCapacity: nat)
      requires Valid() && s < capacity && entries[s] == null && 0 < initCapacity
      modifies this, entries
      ensures Valid() && fresh(Repr - old(Repr))
      ensures capacity == old(capacity) && length == old(length) && entries == old(entries)
      ensures entries[s] != null && Slots == old(Slots)[s := Some(EmptyList(initCapacity))]
    {
      var list := new EntryList(initCapacity);
      entries[s] := list;
      Repr := Repr + list.Repr();
      Owner := Owner[list := s][list.items := s];
      Slots := Slots[s := Some(list.View())];
    }

    /** hash.c:107-124: the item is appended to the list of slot `s`. */
    method AppendAt(s: nat, item: Item)
      requires Valid() && s < capacity && entries[s] != null
      modifies Repr
      ensures Valid() && fresh(Repr - old(Repr))
      ensures capacity == old(capacity) && length == old(length)
      ensures Slots == old(Slots)[s := Some(Appended(old(Slots)[s].value, item))]
    {
      var list := entries[s];
      assert forall i :: 0 <= i < entries.Length && i != s && entries[i] != null ==>
        entries[i] != list && entries[i].items != list.items;
      list.Append(item);
      Repr := Repr + list.Repr();
      Owner := Owner[list.items := s];
      Slots := Slots[s := Some(list.View())];
      forall j | 0 <= j < entries.Length && entries[j] != null
        ensures SlotOk(j)
      {
        if j != s {
          assert unchanged(entries[j], entries[j].items);
        }
      }
    }

    /** The list part of ht_remove_entry (hash.c:180-241) on a slot that holds a
        non-empty list: -1 when no item has `key`'s pointer; otherwise the first such item
        is shift-deleted, an emptied list is released and the slot cleared, and a sparse
        list is shrunk. */
    method Remove(key: Key, uid: Int32, floor: nat) returns (code: int)
      requires Valid() && 0 < capacity
      requires var s := SubBucketIndex(uid, capacity);
        Slots[s].Some? && |Slots[s].value.items| > 0
      modifies Repr
      ensures Valid() && fresh(Repr - old(Repr))
      ensures capacity == old(capacity) && length == old(length)
      ensures var s := SubBucketIndex(uid, capacity);
        var (slot, c) := RemoveFromList(old(Slots)[s].value, key, floor);
        code == c && Slots == old(Slots)[s := slot]
      ensures code == -1 ==> Slots == old(Slots)
    {
      var s := SubBucketIndex(uid, capacity);
      var found := entries[s].FindByIdentity(key);
      if found.None? {
        return -1;
      }
      DeleteAt(s, found.value);
      if entries[s].count == 0 {
        Release(s);
      } else {
        ShrinkAt(s, floor);
      }
      code := 0;
    }

    /** hash.c:209-215: shift-delete item `i` of the list of slot `s`. */
    method DeleteAt(s: nat, i: nat)
      requires Valid() && s < capacity && entries[s] != null && i < entries[s].count
      modifies Repr
      ensures Valid() && Repr == old(Repr)
      ensures capacity == old(capacity) && length == old(length)
      ensures entries[s] != null && entries[s].capacity == old(entries[s].capacity)
      ensures Slots == old(Slots)[s := Some(ListView(Removed(old(Slots)[s].value.items, i), old(Slots)[s].value.capacity))]
    {
      var list := entries[s];
      assert forall j :: 0 <= j < entries.Length && j != s && entries[j] != null ==>
        entries[j] != list && entries[j].items != list.items;
      list.RemoveAt(i);
      Slots := Slots[s := Some(list.View())];
    }

    /** The emptied list of slot `s` is released and the slot cleared. */
    method Release(s: nat)
      requires Valid() && s < capacity
      modifies this, entries
      ensures Valid() && Repr == old(Repr)
      ensures capacity == old(capacity) && length == old(length) && entries == old(entries)
      ensures Slots == old(Slots)[s := None]
    {
      entries[s] := null;
      Slots := Slots[s := None];
    }

    /** hash.c:224-241: the list of slot `s` is shrunk when sparse. */
    method ShrinkAt(s: nat, floor: nat)
      requires Valid() && s < capacity && entries[s] != null
      modifies Repr
      ensures Valid() && fresh(Repr - old(Repr))
      ensures capacity == old(capacity) && length == old(length)
      ensures Slots == old(Slots)[s := Some(Shrunk(old(Slots)[s].value, floor))]
    {
      var list := entries[s];
      assert forall j :: 0 <= j < entries.Length && j != s && entries[j] != null ==>
        entries[j] != list && entries[j].items != list.items;
      list.ShrinkIfSparse(floor);
      Repr := Repr + list.Repr();
      Owner := Owner[list.items := s];
      Slots := Slots[s := Some(list.View())];
      forall j | 0 <= j < entries.Length && entries[j] != null
        ensures SlotOk(j)
      {
        if j != s {
          assert unchanged(entries[j], entries[j].items);
        }
      }
    }
  }
}
