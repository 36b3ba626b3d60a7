/** Value-level meaning of the whole table: per bucket, no sub-table or the sub-table's
    slots; the effect of each table operation of hash.c on that value; and what the
    operations promise about each other. */
module TableSpec {
  import opened HashTypes
  import opened AddressHasher
  import opened ListSpec

  type SubView = seq<Option<ListView>>
  type TableView = seq<Option<SubView>>

  /** A sub-table of `SubtableCapacity` slots whose lists are all well formed. */
  predicate SubOk(sub: SubView, floor: nat) {
    && |sub| == SubtableCapacity
    && forall s :: 0 <= s < |sub| && sub[s].Some? ==> ListOk(sub[s].value, floor)
  }

  /** A table built by ht_create(BUCKETS_AMNT) and changed only by the operations below:
      every bucket but the last has a sub-table, the last (shared) bucket has none. */
  predicate ValidView(t: TableView, cfg: Config) {
    && cfg.Valid()
    && |t| == cfg.bucketsAmnt
    && (forall b :: 0 <= b < |t| ==> (t[b].Some? <==> b < |t| - 1))
    && (forall b :: 0 <= b < |t| && t[b].Some? ==> SubOk(t[b].value, cfg.initSublistSize))
  }

  /** The list in slot `s` of bucket `b`, if any. */
  function SlotAt(t: TableView, b: nat, s: nat): Option<ListView> {
    if b < |t| && t[b].Some? && s < |t[b].value| then t[b].value[s] else None
  }

  /** The items of slot `s` of bucket `b`; none when there is no list. */
  function ItemsAt(t: TableView, b: nat, s: nat): seq<Item> {
    match SlotAt(t, b, s)
    case None => []
    case Some(l) => l.items
  }

  /** The slot a (key, uid) pair is stored in. */
  function TargetSlot(uid: Int32): nat {
    SubBucketIndex(uid, SubtableCapacity)
  }

  /** ht_create(capacity) (hash.c:24-50). */
  function CreatedView(capacity: nat): (t: TableView)
    ensures |t| == capacity
    ensures forall b: nat, s: nat :: SlotAt(t, b, s).None?
    ensures forall b :: 0 <= b < capacity - 1 ==> t[b] == Some(seq(SubtableCapacity, _ => None))
    ensures capacity > 0 ==> t[capacity - 1].None?
  {
    seq(capacity, b => if b < capacity - 1 then Some(seq(SubtableCapacity, _ => None)) else None)
  }

  /** ht_add_entry (hash.c:72-125). */
  function AddView(t: TableView, cfg: Config, key: Key, value: Addr, uid: Int32, shared: bool): (r: TableView)
    requires ValidView(t, cfg)
    requires t[BucketIndex(cfg, key.addr, shared)].Some?
    ensures ValidView(r, cfg)
    ensures var b := BucketIndex(cfg, key.addr, shared);
      ItemsAt(r, b, TargetSlot(uid)) == ItemsAt(t, b, TargetSlot(uid)) + [Item(key, value)]
    ensures forall b: nat, s: nat :: (b, s) != (BucketIndex(cfg, key.addr, shared), TargetSlot(uid)) ==>
      SlotAt(r, b, s) == SlotAt(t, b, s)
  {
    var b := BucketIndex(cfg, key.addr, shared);
    var sub := t[b].value;
    var s := SubBucketIndex(uid, |sub|);
    t[b := Some(sub[s := Some(Appended(ListOrNew(sub[s], cfg.initSublistSize), Item(key, value)))])]
  }

  /** get_entry_item (hash.c:127-162): the first item of the addressed slot whose key
      string equals `key`'s; the bucket is always chosen as for a private key. */
  function GetView(t: TableView, cfg: Config, key: Key, uid: Int32): (r: Option<Item>)
    requires ValidView(t, cfg)
    ensures var items := ItemsAt(t, BucketIndex(cfg, key.addr, false), TargetSlot(uid));
      r.None? <==> forall j :: 0 <= j < |items| ==> items[j].key.text != key.text
    ensures var items := ItemsAt(t, BucketIndex(cfg, key.addr, false), TargetSlot(uid));
      r.Some? ==> r.value.key.text == key.text && exists i :: IsFirstMatch(items, i, r.value.key, ByContents) && items[i] == r.value
  {
    var items := ItemsAt(t, BucketIndex(cfg, key.addr, false), TargetSlot(uid));
    match FirstMatch(items, key, ByContents)
    case None => None
    case Some(i) => Some(items[i])
  }

  /** Whether the slot ht_remove_entry addresses holds a list. */
  predicate HasList(t: TableView, cfg: Config, key: Key, uid: Int32)
    requires cfg.Valid()
  {
    SlotAt(t, BucketIndex(cfg, key.addr, false), TargetSlot(uid)).Some?
  }

  /** ht_remove_entry (hash.c:164-242): -1 and no change when no item has `key`'s pointer;
      otherwise 0, and the first such item is removed from its list. */
  function RemoveView(t: TableView, cfg: Config, key: Key, uid: Int32): (r: (TableView, int))
    requires ValidView(t, cfg) && HasList(t, cfg, key, uid)
    ensures var items := ItemsAt(t, BucketIndex(cfg, key.addr, false), TargetSlot(uid));
      r.1 == -1 <==> forall j :: 0 <= j < |items| ==> items[j].key.addr != key.addr
    ensures r.1 == -1 || r.1 == 0
    ensures r.1 == -1 ==> r.0 == t
    ensures var b, s := BucketIndex(cfg, key.addr, false), TargetSlot(uid);
      var items := ItemsAt(t, b, s);
      r.1 == 0 ==> exists i :: IsFirstMatch(items, i, key, ByIdentity) && ItemsAt(r.0, b, s) == Removed(items, i)
    ensures ValidView(r.0, cfg)
    ensures forall b: nat, s: nat :: (b, s) != (BucketIndex(cfg, key.addr, false), TargetSlot(uid)) ==>
      SlotAt(r.0, b, s) == SlotAt(t, b, s)
  {
    var b := BucketIndex(cfg, key.addr, false);
    var sub := t[b].value;
    var s := SubBucketIndex(uid, |sub|);
    var (slot, code) := RemoveFromList(sub[s].value, key, cfg.initSublistSize);
    if code == -1 then (t, code) else (t[b := Some(sub[s := slot])], code)
  }

  /** print_entries_in_subtable (hash.c:244-286), without the printing: the items of the
      slot in list order; nothing when the bucket has no sub-table, the slot no list, or
      the list no items. */
  function EnumerateView(t: TableView, uid: Int32, bucketIndex: nat): (r: Option<seq<Item>>)
    requires bucketIndex < |t|
    requires t[bucketIndex].Some? ==> |t[bucketIndex].value| > 0
    ensures var items := ItemsAt(t, bucketIndex, SubBucketIndex(uid, if t[bucketIndex].Some? then |t[bucketIndex].value| else 1));
      r == if items == [] then None else Some(items)
  {
    if t[bucketIndex].None? then None
    else
      var sub := t[bucketIndex].value;
      var slot := sub[SubBucketIndex(uid, |sub|)];
      if slot.None? || |slot.value.items| == 0 then None else Some(slot.value.items)
  }
}
