/** ht: the top-level array of buckets, each owning a sub-table. */
module Tables {
  import opened HashTypes
  import opened AddressHasher
  import opened SubTables
  import opened TableSpec

  class Table {
    var entries: array<SubTable?>
    var capacity: nat
    var length: nat
    /** Per bucket: no sub-table, or the sub-table's slots. */
    ghost var Buckets: TableView
    ghost var Repr: set<object>

    ghost predicate Valid()
      reads this, Repr
    {
      && this in Repr && entries in Repr
      && capacity == entries.Length == |Buckets|
      && (forall b :: 0 <= b < entries.Length && entries[b] == null ==> Buckets[b] == None)
      && (forall b :: 0 <= b < entries.Length && entries[b] != null ==> BucketOk(b))
      && (forall b, c :: 0 <= b < c < entries.Length && entries[b] != null && entries[c] != null ==>
            entries[b].Repr !! entries[c].Repr)
    }

    /** Bucket `b` holds a valid sub-table that lies in Repr apart from the table's own
        objects and matches Buckets[b]; its `length`, set to 0 by ht_subtable_create
        (hash.c:60), is never updated. */
    ghost predicate BucketOk(b: int)
      reads this, Repr
      requires entries in Repr && |Buckets| == entries.Length
      requires 0 <= b < entries.Length && entries[b] != null
    {
      && entries[b] in Repr && entries[b].Repr <= Repr
      && this !in entries[b].Repr && entries !in entries[b].Repr
      && entries[b].Valid() && Buckets[b] == Some(entries[b].Slots)
      && entries[b].length == 0
    }

    /** ht_create (hash.c:24-50): `capacity` buckets, zeroed by calloc, of which all but
        the last get a sub-table of 32 empty slots. */
    constructor (capacity: nat)
      requires capacity >= 1
      ensures Valid() && fresh(Repr)
      ensures this.capacity == capacity && length == 0
      ensures Buckets == CreatedView(capacity)
      ensures forall b :: 0 <= b < capacity - 1 ==>
        entries[b] != null && entries[b].capacity == SubtableCapacity && entries[b].length == 0
    {
      this.capacity := capacity;
      length := 0;
      entries := new SubTable?[capacity](_ => null);
      Buckets := seq(capacity, _ => None);
      new;
      Repr := {this, entries};
      var i := 0;
      while i < capacity - 1
        invariant 0 <= i <= capacity - 1
        invariant Valid() && fresh(Repr)
        invariant this.capacity == capacity && length == 0
        invariant forall b :: 0 <= b < capacity ==>
          Buckets[b] == if b < i then Some(seq(SubtableCapacity, _ => None)) else None
      {
        InstallSubtable(i);
        i := i + 1;
      }
    }

    /** hash.c:46: bucket `i` gets a new sub-table of 32 empty slots. */
    method InstallSubtable(i: nat)
      requires Valid() && i < capacity && entries[i] == null
      modifies this, entries
      ensures Valid() && fresh(Repr - old(Repr))
      ensures capacity == old(capacity) && length == old(length) && entries == old(entries)
      ensures Buckets == old(Buckets)[i := Some(seq(SubtableCapacity, _ => None))]
    {
      var sub := new SubTable(SubtableCapacity);
      entries[i] := sub;
      Buckets := Buckets[i := Some(sub.Slots)];
      Repr := Repr + sub.Repr;
      forall c | 0 <= c < entries.Length && entries[c] != null
        ensures BucketOk(c)
      {
        if c != i {
          assert unchanged(entries[c].Repr);
        }
      }
    }

    /** ht_add_entry (hash.c:72-125). The bucket must have a sub-table: the code
        dereferences it unchecked. */
    method AddEntry(cfg: Config, key: Key, value: Addr, uid: Int32, shared: bool)
      requires Valid() && ValidView(Buckets, cfg)
      requires Buckets[BucketIndex(cfg, key.addr, shared)].Some?
      modifies Repr
      ensures Valid() && fresh(Repr - old(Repr))
      ensures capacity == old(capacity) && length == old(length)
      ensures Buckets == AddView(old(Buckets), cfg, key, value, uid, shared)
      ensures ValidView(Buckets, cfg)
    {
      var b := BucketIndex(cfg, key.addr, shared);
      var sub := entries[b];
      sub.Add(Item(key, value), uid, cfg.initSublistSize);
      Buckets := Buckets[b := Some(sub.Slots)];
      Repr := Repr + sub.Repr;
      forall c | 0 <= c < entries.Length && entries[c] != null
        ensures BucketOk(c)
      {
        if c != b {
          assert unchanged(entries[c].Repr);
        }
      }
    }

    /** get_entry_item (hash.c:127-162): the first item of the addressed list whose key
        string equals `key`'s, or nothing. */
    method GetEntryItem(cfg: Config, key: Key, uid: Int32) returns (r: Option<Item>)
      requires Valid() && ValidView(Buckets, cfg)
      ensures r == GetView(Buckets, cfg, key, uid)
    {
      var b := BucketIndex(cfg, key.addr, false);
      var sub := entries[b];
      var list := sub.entries[SubBucketIndex(uid, sub.capacity)];
      if list == null {
        return None;
      }
      var found := list.FindByContents(key);
      if found.None? {
        return None;
      }
      return Some(list.items[found.value]);
    }

    /** ht_remove_entry (hash.c:164-242): -1 when no item of the addressed list has
        `key`'s pointer, 0 after removing the first one that has. The addressed slot must
        hold a list: the code dereferences it unchecked. */
    method RemoveEntry(cfg: Config, key: Key, uid: Int32) returns (code: int)
      requires Valid() && ValidView(Buckets, cfg) && HasList(Buckets, cfg, key, uid)
      modifies Repr
      ensures Valid() && fresh(Repr - old(Repr))
      ensures capacity == old(capacity) && length == old(length)
      ensures (Buckets, code) == RemoveView(old(Buckets), cfg, key, uid)
      ensures ValidView(Buckets, cfg)
    {
      var b := BucketIndex(cfg, key.addr, false);
      var sub := entries[b];
      assert sub.capacity == SubtableCapacity;
      code := sub.Remove(key, uid, cfg.initSublistSize);
      Buckets := Buckets[b := Some(sub.Slots)];
      Repr := Repr + sub.Repr;
      if code == -1 {
        assert Buckets == old(Buckets);
      }
      forall c | 0 <= c < entries.Length && entries[c] != null
        ensures BucketOk(c)
      {
        if c != b {
          assert unchanged(entries[c].Repr);
        }
      }
    }

    /** print_entries_in_subtable (hash.c:244-286): the items of the list at slot
        `uid % capacity` of bucket `bucketIndex`, in list order, instead of printing them. */
    method EntriesInSubtable(uid: Int32, bucketIndex: nat) returns (r: Option<seq<Item>>)
      requires Valid() && bucketIndex < capacity
      requires entries[bucketIndex] != null ==> entries[bucketIndex].capacity > 0
      ensures r == EnumerateView(Buckets, uid, bucketIndex)
    {
      var sub := entries[bucketIndex];
      if sub == null {
        return None;
      }
      var list := sub.entries[SubBucketIndex(uid, sub.capacity)];
      if list == null || list.count == 0 {
        return None;
      }
      var out := [];
      for i := 0 to list.count
        invariant out == list.items[..i]
      {
        out := out + [list.items[i]];
      }
      return Some(out);
    }
  }
}
