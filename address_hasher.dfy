/** Top-level and second-level addressing. */
module AddressHasher {
  import opened HashTypes

  /** get_bucket_index: shared keys go to the reserved last bucket; any other key is
      hashed from its pointer value into the first bucketsAmnt - 2 buckets. */
  function BucketIndex(cfg: Config, addr: Addr, shared: bool): (r: nat)
    requires cfg.Valid()
    ensures r < cfg.bucketsAmnt
    ensures shared ==> r == cfg.SharedBucketIndex()
    ensures !shared ==> r < cfg.bucketsAmnt - 2
  {
    if shared then cfg.SharedBucketIndex() else cfg.hash32(addr) % (cfg.bucketsAmnt - 2)
  }

  /** `uid % subtable->capacity`: the int uid is first converted to the unsigned size_t. */
  function SubBucketIndex(uid: Int32, capacity: nat): (r: nat)
    requires capacity > 0
    ensures r < capacity
  {
    (uid % SizeModulus) % capacity
  }

  /** For the sub-table size actually used, the unsigned conversion is harmless: a
      negative uid lands on the slot of its mathematical residue modulo 32. */
  lemma SubBucketIndexIsResidue(uid: Int32)
    ensures SubBucketIndex(uid, SubtableCapacity) == uid % SubtableCapacity
  {
    var m: int := SizeModulus / SubtableCapacity;
    assert SizeModulus == SubtableCapacity * m;
    if uid < 0 {
      assert uid % SizeModulus == uid + SubtableCapacity * m;
      ShiftByMultiple(uid, m);
    } else {
      assert uid % SizeModulus == uid;
    }
  }

  lemma ShiftByMultiple(x: int, m: int)
    ensures (x + SubtableCapacity * m) % SubtableCapacity == x % SubtableCapacity
  {
    var q := x / SubtableCapacity;
    var r := x % SubtableCapacity;
    assert x + SubtableCapacity * m == SubtableCapacity * (q + m) + r;
  }
}
