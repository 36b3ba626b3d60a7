/** ht_subentry_list: a growable array of items, updated in place. */
module EntryLists {
  import opened HashTypes
  import opened ListSpec

  /** realloc: a block of `n` items that starts with the old block's items. */
  method Realloc(a: array<Item>, n: nat) returns (b: array<Item>)
    ensures fresh(b) && b.Length == n
    ensures forall k :: 0 <= k < n && k < a.Length ==> b[k] == a[k]
  {
    b := new Item[n]((k: nat) reads a => if k < a.Length then a[k] else Item(Key(0, []), 0));
  }

  class EntryList {
    var items: array<Item>
    var count: nat
    var capacity: nat

    ghost function Repr(): set<object>
      reads this
    {
      {this, items}
    }

    /** The block holds exactly `capacity` items, the first `count` of them live. */
    ghost predicate Valid()
      reads this
    {
      0 < capacity && items.Length == capacity && count <= capacity
    }

    ghost function View(): ListView
      reads this, items
      requires Valid()
    {
      ListView(items[..count], capacity)
    }

    /** A list created on first insertion into a slot (hash.c:89-98). */
    constructor (initCapacity: nat)
      requires 0 < initCapacity
      ensures Valid() && fresh(Repr())
      ensures View() == EmptyList(initCapacity)
    {
      count := 0;
      capacity := initCapacity;
      items := new Item[initCapacity](_ => Item(Key(0, []), 0));
    }

    /** Append with growth (hash.c:107-124). */
    method Append(item: Item)
      requires Valid()
      modifies this, items
      ensures Valid() && fresh(Repr() - old(Repr()))
      ensures View() == Appended(old(View()), item)
    {
      if count >= capacity {
        capacity := capacity * 2;
        items := Realloc(items, capacity);
      }
      items[count] := item;
      count := count + 1;
      assert items[..count] == old(items[..count]) + [item];
    }

    /** The lookup scan of get_entry_item (hash.c:153-161): the first item whose key
        string equals `key`'s. */
    method FindByContents(key: Key) returns (r: Option<nat>)
      requires Valid()
      ensures r == FirstMatch(View().items, key, ByContents)
    {
      for i := 0 to count
        invariant forall j :: 0 <= j < i ==> items[j].key.text != key.text
      {
        if items[i].key.text == key.text {
          assert IsFirstMatch(View().items, i, key, ByContents);
          return Some(i);
        }
      }
      return None;
    }

    /** The removal scan of ht_remove_entry (hash.c:194-207): the first item whose key
        pointer equals `key`'s. The scan gives up when it reaches the last item without a
        match, so it needs a non-empty list. */
    method FindByIdentity(key: Key) returns (r: Option<nat>)
      requires Valid() && count >= 1
      ensures r == FirstMatch(View().items, key, ByIdentity)
    {
      var i := 0;
      while i < count
        invariant i < count
        invariant forall j :: 0 <= j < i ==> items[j].key.addr != key.addr
      {
        if items[i].key.addr == key.addr {
          return Some(i);
        }
        if i == count - 1 {
          return None;
        }
        i := i + 1;
      }
    }

    /** Shift-delete (hash.c:209-215): every item after `i` moves one place left. */
    method RemoveAt(i: nat)
      requires Valid() && i < count
      modifies this, items
      ensures Valid() && items == old(items) && capacity == old(capacity)
      ensures View().items == Removed(old(View().items), i)
    {
      var j := i;
      while j < count - 1
        invariant i <= j <= count - 1
        modifies items
        invariant forall k :: 0 <= k < i ==> items[k] == old(items[k])
        invariant forall k :: i <= k < j ==> items[k] == old(items[k + 1])
        invariant forall k :: j <= k < items.Length ==> items[k] == old(items[k])
      {
        items[j] := items[j + 1];
        j := j + 1;
      }
      count := count - 1;
    }

    /** Shrink (hash.c:224-241): a list under a quarter full and above the minimum
        capacity moves to a block of half the size, but not below the minimum. */
    method ShrinkIfSparse(floor: nat)
      requires Valid()
      modifies this
      ensures Valid() && fresh(Repr() - old(Repr()))
      ensures View() == Shrunk(old(View()), floor)
    {
      if count < capacity / 4 && capacity > floor {
        var newCapacity := capacity / 2;
        if newCapacity < floor {
          newCapacity := floor;
        }
        items := Realloc(items, newCapacity);
        capacity := newCapacity;
      }
    }
  }
}
