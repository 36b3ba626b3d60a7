/** Value-level meaning of one ht_subentry_list: its live items in order and its capacity,
    and the pure effect of each list operation of hash.c. */
module ListSpec {
  import opened HashTypes

  /** The items `items[0..count)` of a list, and its `capacity`. */
  datatype ListView = ListView(items: seq<Item>, capacity: nat)

  /** Lookup compares key strings with strcmp; removal compares key pointers with `==`. */
  datatype Comparison = ByContents | ByIdentity

  predicate SameKey(cmp: Comparison, a: Key, b: Key) {
    match cmp
    case ByContents => a.text == b.text
    case ByIdentity => a.addr == b.addr
  }

  /** A list in a well-formed table: never empty (an emptied list is released), never
      holding more items than its capacity, never below the minimum capacity. */
  predicate ListOk(l: ListView, floor: nat) {
    0 < |l.items| <= l.capacity && floor <= l.capacity
  }

  /** A freshly created list (hash.c:96-98). */
  function EmptyList(capacity: nat): ListView {
    ListView([], capacity)
  }

  /** The list a slot starts from on insertion: its own, or a new one (hash.c:87-105). */
  function ListOrNew(slot: Option<ListView>, initCapacity: nat): ListView {
    if slot.None? then EmptyList(initCapacity) else slot.value
  }

  /** Item `i` is the first one, in list order, whose key matches `key`. */
  predicate IsFirstMatch(items: seq<Item>, i: int, key: Key, cmp: Comparison) {
    && 0 <= i < |items| && SameKey(cmp, items[i].key, key)
    && forall j :: 0 <= j < i ==> !SameKey(cmp, items[j].key, key)
  }

  /** The index of the first item, in list order, whose key matches `key`. */
  function FirstMatch(items: seq<Item>, key: Key, cmp: Comparison): (r: Option<nat>)
    ensures r.Some? ==> IsFirstMatch(items, r.value, key, cmp)
    ensures r.None? <==> forall j :: 0 <= j < |items| ==> !SameKey(cmp, items[j].key, key)
  {
    if |items| == 0 then None
    else if SameKey(cmp, items[0].key, key) then Some(0)
    else match FirstMatch(items[1..], key, cmp)
      case None => None
      case Some(i) => Some(i + 1)
  }

  /** Append with growth (hash.c:109-124): a full list doubles its capacity, then the
      item is written after the existing ones. */
  function Appended(l: ListView, item: Item): (r: ListView)
    ensures |r.items| == |l.items| + 1 && r.items[..|l.items|] == l.items && r.items[|l.items|] == item
    ensures r.capacity == l.capacity || (|l.items| >= l.capacity && r.capacity == 2 * l.capacity)
    ensures 0 < l.capacity && |l.items| <= l.capacity ==> |r.items| <= r.capacity
  {
    ListView(l.items + [item], if |l.items| >= l.capacity then 2 * l.capacity else l.capacity)
  }

  /** Shift-delete (hash.c:211-215): the item at `i` goes, every later item moves one
      place to the left. */
  function Removed(items: seq<Item>, i: nat): (r: seq<Item>)
    requires i < |items|
    ensures |r| == |items| - 1
    ensures forall k :: 0 <= k < i ==> r[k] == items[k]
    ensures forall k :: i <= k < |r| ==> r[k] == items[k + 1]
  {
    items[..i] + items[i + 1..]
  }

  /** Shrink (hash.c:226-241): under a quarter full and above the minimum, the capacity
      halves, but not below the minimum. */
  function Shrunk(l: ListView, floor: nat): (r: ListView)
    ensures r.items == l.items
    ensures floor <= l.capacity ==> floor <= r.capacity <= l.capacity
    ensures |l.items| <= l.capacity ==> |r.items| <= r.capacity
    ensures r.capacity != l.capacity <==> |l.items| < l.capacity / 4 && l.capacity > floor
  {
    if |l.items| < l.capacity / 4 && l.capacity > floor then
      ListView(l.items, if l.capacity / 2 < floor then floor else l.capacity / 2)
    else
      l
  }

  /** Removal of the item at `i` from a list (hash.c:211-241): shift-delete, then the list
      is released when it became empty, and shrunk otherwise. */
  function AfterRemoval(l: ListView, i: nat, floor: nat): (r: Option<ListView>)
    requires i < |l.items|
    ensures r.None? <==> |l.items| == 1
    ensures r.Some? ==> r.value.items == Removed(l.items, i)
    ensures ListOk(l, floor) && r.Some? ==> ListOk(r.value, floor)
  {
    var rest := Removed(l.items, i);
    if |rest| == 0 then None else Some(Shrunk(ListView(rest, l.capacity), floor))
  }

  /** The list part of ht_remove_entry (hash.c:194-241): the new state of the slot and
      the code returned, -1 when no item has `key`'s pointer. */
  function RemoveFromList(l: ListView, key: Key, floor: nat): (r: (Option<ListView>, int))
    ensures r.1 == -1 <==> forall j :: 0 <= j < |l.items| ==> l.items[j].key.addr != key.addr
    ensures r.1 == -1 ==> r.0 == Some(l)
    ensures r.1 != -1 ==> r.1 == 0 && exists i :: IsFirstMatch(l.items, i, key, ByIdentity) && r.0 == AfterRemoval(l, i, floor)
  {
    match FirstMatch(l.items, key, ByIdentity)
    case None => (Some(l), -1)
    case Some(i) => (AfterRemoval(l, i, floor), 0)
  }
}
