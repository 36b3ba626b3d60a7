/** Values shared by every layer of the two-level table: pointers, keys, stored items,
    and the compile-time configuration (bucket count, minimum list size, hash primitive). */
module HashTypes {

  /** Number of distinct values of a 64-bit size_t or pointer. */
  const SizeModulus: int := 0x1_0000_0000_0000_0000

  /** Capacity every bucket's sub-table is created with (the literal 32 at hash.c:46). */
  const SubtableCapacity: nat := 32

  /** A raw pointer value. */
  type Addr = x: int | 0 <= x < SizeModulus

  /** The result of the 32-bit hash primitive. */
  type UInt32 = x: int | 0 <= x < 0x1_0000_0000

  /** A C `int`, the type of a uid. */
  type Int32 = x: int | -0x8000_0000 <= x < 0x8000_0000

  datatype Option<T> = None | Some(value: T)

  /** A `const char*` key: the pointer (hashed and compared by removal) together with the
      string it points at (compared by lookup). */
  datatype Key = Key(addr: Addr, text: string)

  /** ht_entry_item: a key and an opaque pointer-sized value. */
  datatype Item = Item(key: Key, value: Addr)

  /** The macros BUCKETS_AMNT and INIT_SUBLIST_SIZE and the hash primitive jhash, whose
      definitions are not part of this model. */
  datatype Config = Config(bucketsAmnt: nat, initSublistSize: nat, hash32: Addr -> UInt32)
  {
    /** Room for the hashed range, the reserved bucket and the shared bucket; a list size
        that doubling can grow from. */
    predicate Valid() {
      bucketsAmnt >= 3 && initSublistSize >= 1
    }

    /** SHARED_BUCKET_INDEX: the last bucket. */
    function SharedBucketIndex(): nat
      requires Valid()
    {
      bucketsAmnt - 1
    }
  }
}
