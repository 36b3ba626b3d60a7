/** What the table operations promise about each other. */
module TableProperties {
  import opened HashTypes
  import opened AddressHasher
  import opened ListSpec
  import opened TableSpec

  /** A freshly created table of BUCKETS_AMNT buckets is well formed. */
  lemma CreatedViewValid(cfg: Config)
    requires cfg.Valid()
    ensures ValidView(CreatedView(cfg.bucketsAmnt), cfg)
  {
  }

  /** The shared bucket never has a sub-table, so ht_add_entry with `shared` set
      dereferences NULL on every well-formed table. */
  lemma SharedBucketHasNoSubtable(t: TableView, cfg: Config, addr: Addr)
    requires ValidView(t, cfg)
    ensures t[BucketIndex(cfg, addr, true)].None?
  {
  }

  /** The first match of a list with one more item at the end. */
  lemma FirstMatchAppend(items: seq<Item>, x: Item, key: Key, cmp: Comparison)
    ensures FirstMatch(items + [x], key, cmp) ==
      if FirstMatch(items, key, cmp).Some? then FirstMatch(items, key, cmp)
      else if SameKey(cmp, x.key, key) then Some(|items|)
      else None
  {
    var s := items + [x];
    assert forall j :: 0 <= j < |items| ==> s[j] == items[j];
    match FirstMatch(items, key, cmp)
    case Some(i) =>
      assert IsFirstMatch(s, i, key, cmp);
      FirstMatchUnique(s, i, key, cmp);
    case None =>
      if SameKey(cmp, x.key, key) {
        assert IsFirstMatch(s, |items|, key, cmp);
        FirstMatchUnique(s, |items|, key, cmp);
      }
  }

  /** FirstMatch finds the one first match there is. */
  lemma FirstMatchUnique(items: seq<Item>, i: int, key: Key, cmp: Comparison)
    requires IsFirstMatch(items, i, key, cmp)
    ensures FirstMatch(items, key, cmp) == Some(i)
  {
  }

  /** Lookup after a private insert finds the key: the new item itself, unless an earlier
      item of the same list already has the same key string (first match wins). */
  lemma GetAfterAdd(t: TableView, cfg: Config, key: Key, value: Addr, uid: Int32)
    requires ValidView(t, cfg)
    ensures var t' := AddView(t, cfg, key, value, uid, false);
      var items := ItemsAt(t, BucketIndex(cfg, key.addr, false), TargetSlot(uid));
      && GetView(t', cfg, key, uid).Some?
      && ((forall j :: 0 <= j < |items| ==> items[j].key.text != key.text) ==>
            GetView(t', cfg, key, uid) == Some(Item(key, value)))
      && ((exists j :: 0 <= j < |items| && items[j].key.text == key.text) ==>
            GetView(t', cfg, key, uid) == GetView(t, cfg, key, uid))
  {
    var b, s := BucketIndex(cfg, key.addr, false), TargetSlot(uid);
    var items := ItemsAt(t, b, s);
    FirstMatchAppend(items, Item(key, value), key, ByContents);
  }

  /** An insert leaves every lookup that addresses another slot unchanged. */
  lemma GetUnaffectedByAddElsewhere(t: TableView, cfg: Config, key: Key, value: Addr, uid: Int32,
                                    shared: bool, other: Key, otherUid: Int32)
    requires ValidView(t, cfg) && t[BucketIndex(cfg, key.addr, shared)].Some?
    requires (BucketIndex(cfg, other.addr, false), TargetSlot(otherUid)) !=
             (BucketIndex(cfg, key.addr, shared), TargetSlot(uid))
    ensures GetView(AddView(t, cfg, key, value, uid, shared), cfg, other, otherUid) == GetView(t, cfg, other, otherUid)
  {
    var b, s := BucketIndex(cfg, other.addr, false), TargetSlot(otherUid);
    assert SlotAt(AddView(t, cfg, key, value, uid, shared), b, s) == SlotAt(t, b, s);
  }

  /** An insert of a key with another string leaves every lookup unchanged, in the same
      slot too: keys inserted into one slot stay retrievable one by one. */
  lemma GetUnaffectedByAddOfOtherString(t: TableView, cfg: Config, key: Key, value: Addr, uid: Int32,
                                        shared: bool, other: Key, otherUid: Int32)
    requires ValidView(t, cfg) && t[BucketIndex(cfg, key.addr, shared)].Some?
    requires other.text != key.text
    ensures GetView(AddView(t, cfg, key, value, uid, shared), cfg, other, otherUid) == GetView(t, cfg, other, otherUid)
  {
    var b, s := BucketIndex(cfg, other.addr, false), TargetSlot(otherUid);
    if (b, s) == (BucketIndex(cfg, key.addr, shared), TargetSlot(uid)) {
      var items := ItemsAt(t, b, s);
      FirstMatchAppend(items, Item(key, value), other, ByContents);
    } else {
      assert SlotAt(AddView(t, cfg, key, value, uid, shared), b, s) == SlotAt(t, b, s);
    }
  }

  /** Removing a key just inserted (privately) into a slot where no item had its pointer
      restores every slot's items, and releases a list the insert created. */
  lemma RemoveAfterAdd(t: TableView, cfg: Config, key: Key, value: Addr, uid: Int32)
    requires ValidView(t, cfg)
    requires var items := ItemsAt(t, BucketIndex(cfg, key.addr, false), TargetSlot(uid));
      forall j :: 0 <= j < |items| ==> items[j].key.addr != key.addr
    ensures var t' := AddView(t, cfg, key, value, uid, false);
      && HasList(t', cfg, key, uid)
      && RemoveView(t', cfg, key, uid).1 == 0
    ensures var t'' := RemoveView(AddView(t, cfg, key, value, uid, false), cfg, key, uid).0;
      forall b: nat, s: nat ::
        && ItemsAt(t'', b, s) == ItemsAt(t, b, s)
        && (SlotAt(t'', b, s).None? <==> SlotAt(t, b, s).None?)
  {
    var b, s := BucketIndex(cfg, key.addr, false), TargetSlot(uid);
    var t' := AddView(t, cfg, key, value, uid, false);
    RemoveAfterAddAtSlot(t, cfg, key, value, uid);
    var t'' := RemoveView(t', cfg, key, uid).0;
    forall b': nat, s': nat | (b', s') != (b, s)
      ensures SlotAt(t'', b', s') == SlotAt(t, b', s')
    {
      assert SlotAt(t'', b', s') == SlotAt(t', b', s');
    }
  }

  /** The addressed slot's part of RemoveAfterAdd. */
  lemma RemoveAfterAddAtSlot(t: TableView, cfg: Config, key: Key, value: Addr, uid: Int32)
    requires ValidView(t, cfg)
    requires var items := ItemsAt(t, BucketIndex(cfg, key.addr, false), TargetSlot(uid));
      forall j :: 0 <= j < |items| ==> items[j].key.addr != key.addr
    ensures var t' := AddView(t, cfg, key, value, uid, false);
      && HasList(t', cfg, key, uid)
      && RemoveView(t', cfg, key, uid).1 == 0
    ensures var b, s := BucketIndex(cfg, key.addr, false), TargetSlot(uid);
      var t'' := RemoveView(AddView(t, cfg, key, value, uid, false), cfg, key, uid).0;
      && ItemsAt(t'', b, s) == ItemsAt(t, b, s)
      && (SlotAt(t'', b, s).None? <==> SlotAt(t, b, s).None?)
  {
    var b, s := BucketIndex(cfg, key.addr, false), TargetSlot(uid);
    var items := ItemsAt(t, b, s);
    var x := Item(key, value);
    var t' := AddView(t, cfg, key, value, uid, false);
    assert ItemsAt(t', b, s) == items + [x];
    FirstMatchAppend(items, x, key, ByIdentity);
    assert IsFirstMatch(items + [x], |items|, key, ByIdentity);
    assert Removed(items + [x], |items|) == items;
  }

  /** When exactly one item of the addressed list has the key's pointer or its string,
      and it has both, removing the key makes lookup miss. */
  lemma GetAfterRemove(t: TableView, cfg: Config, key: Key, uid: Int32, i: nat)
    requires ValidView(t, cfg) && HasList(t, cfg, key, uid)
    requires var items := ItemsAt(t, BucketIndex(cfg, key.addr, false), TargetSlot(uid));
      && i < |items| && items[i].key == key
      && forall j :: 0 <= j < |items| && j != i ==> items[j].key.addr != key.addr && items[j].key.text != key.text
    ensures RemoveView(t, cfg, key, uid).1 == 0
    ensures GetView(RemoveView(t, cfg, key, uid).0, cfg, key, uid) == None
  {
    var b, s := BucketIndex(cfg, key.addr, false), TargetSlot(uid);
    var items := ItemsAt(t, b, s);
    assert IsFirstMatch(items, i, key, ByIdentity);
    var rest := ItemsAt(RemoveView(t, cfg, key, uid).0, b, s);
    assert rest == Removed(items, i);
    assert forall j :: 0 <= j < |rest| ==> rest[j].key.text != key.text by {
      forall j | 0 <= j < |rest| ensures rest[j].key.text != key.text {
        if j < i { assert rest[j] == items[j]; } else { assert rest[j] == items[j + 1]; }
      }
    }
  }

  /** Lookup compares strings while removal compares pointers: a key with the same string
      as a stored one but another pointer that hashes to the same bucket is found by
      get_entry_item and yet not removed by ht_remove_entry. */
  lemma ContentsMatchIsNotIdentityMatch(t: TableView, cfg: Config, stored: Key, value: Addr, query: Key, uid: Int32)
    requires ValidView(t, cfg)
    requires stored.text == query.text && stored.addr != query.addr
    requires BucketIndex(cfg, stored.addr, false) == BucketIndex(cfg, query.addr, false)
    requires var items := ItemsAt(t, BucketIndex(cfg, query.addr, false), TargetSlot(uid));
      forall j :: 0 <= j < |items| ==> items[j].key.addr != query.addr
    ensures var t' := AddView(t, cfg, stored, value, uid, false);
      && GetView(t', cfg, query, uid).Some?
      && HasList(t', cfg, query, uid)
      && RemoveView(t', cfg, query, uid) == (t', -1)
  {
    var b, s := BucketIndex(cfg, query.addr, false), TargetSlot(uid);
    var items := ItemsAt(t, b, s);
    var t' := AddView(t, cfg, stored, value, uid, false);
    assert ItemsAt(t', b, s)[|items|].key.text == query.text;
  }

  /** An insert into a slot without a list (never used, or emptied and released) starts
      a new list of the minimum capacity holding just the new item. */
  lemma AddToEmptySlot(t: TableView, cfg: Config, key: Key, value: Addr, uid: Int32, shared: bool)
    requires ValidView(t, cfg) && t[BucketIndex(cfg, key.addr, shared)].Some?
    requires SlotAt(t, BucketIndex(cfg, key.addr, shared), TargetSlot(uid)).None?
    ensures SlotAt(AddView(t, cfg, key, value, uid, shared), BucketIndex(cfg, key.addr, shared), TargetSlot(uid))
      == Some(ListView([Item(key, value)], cfg.initSublistSize))
  {
  }
}
