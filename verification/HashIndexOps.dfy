/**
 CFBasicHashAddIntValueAndInc and CFBasicHashRemoveIntValueAndDec: a keyed table as
 the inverse of a sequence of keys.
 */
module HashIndexOps {
  import opened HashSlots
  import opened HashSizes
  import opened HashIndex
  import opened BasicHash
  import opened BasicHashOps

  /** The table is the position index of `ks`, and no position collides with a reserved word. */
  ghost predicate IndexTable(ht: Table, ks: seq<Word>)
    reads ht, ht.values, ht.keys, ht.counts
  {
    && ht.Valid()
    && ht.keyed && !ht.managesValues
    && |ks| < SubABOne
    && Indexes(ht.keying, ht.Contents(), ks)
  }

  /** An index of a sequence with an insertion, position by position. */
  lemma InsertedMeans(kg: Keying, m: map<Word, Slot>, ks: seq<Word>, p: nat, key: Word)
    requires p <= |ks| && Indexes(kg, m, ks[..p] + [key] + ks[p..])
    ensures forall k :: k in m ==> m[k].Full?
    ensures kg.rep(key) in m && m[kg.rep(key)].key == key && m[kg.rep(key)].value == p
    ensures forall q :: 0 <= q < |ks| ==>
              kg.rep(ks[q]) in m && m[kg.rep(ks[q])].key == ks[q] && m[kg.rep(ks[q])].value == if q < p then q else q + 1
    ensures forall k :: k in m ==> k == kg.rep(key) || exists q :: 0 <= q < |ks| && k == kg.rep(ks[q])
  {
    var ks' := ks[..p] + [key] + ks[p..];
    assert ks'[p] == key && forall q :: 0 <= q < |ks| ==> ks'[if q < p then q else q + 1] == ks[q];
    forall k | k in m
      ensures k == kg.rep(key) || exists q :: 0 <= q < |ks| && k == kg.rep(ks[q])
    {
      var v := m[k].value;
      assert kg.rep(ks'[v]) == k;
      assert v == p || ks'[v] == ks[if v < p then v else v - 1];
    }
  }

  /** An index of a sequence with a deletion, position by position. */
  lemma DeletedMeans(kg: Keying, m: map<Word, Slot>, ks: seq<Word>, p: nat)
    requires p < |ks| && Indexes(kg, m, ks[..p] + ks[p + 1..])
    ensures forall k :: k in m ==> m[k].Full?
    ensures forall q :: 0 <= q < |ks| && q != p ==>
              kg.rep(ks[q]) in m && m[kg.rep(ks[q])].key == ks[q] && m[kg.rep(ks[q])].value == if q < p then q else q - 1
    ensures forall k :: k in m ==> exists q :: 0 <= q < |ks| && q != p && k == kg.rep(ks[q])
  {
    var ks' := ks[..p] + ks[p + 1..];
    assert forall q :: 0 <= q < |ks| && q != p ==> ks'[if q < p then q else q - 1] == ks[q];
    forall k | k in m
      ensures exists q :: 0 <= q < |ks| && q != p && k == kg.rep(ks[q])
    {
      var v := m[k].value;
      assert kg.rep(ks'[v]) == k && ks'[v] == ks[if v < p then v else v + 1];
    }
  }

  lemma IndexBound(ht: Table, ks: seq<Word>)
    requires IndexTable(ht, ks)
    ensures forall i :: 0 <= i < |ht.Slots()| && ht.Slots()[i].Full? ==> ht.Slots()[i].value < |ks|
  {
    var slots := ht.Slots();
    forall i | 0 <= i < |slots| && slots[i].Full?
      ensures slots[i].value < |ks|
    {
      assert ht.Contents()[ht.keying.rep(slots[i].key)] == slots[i];
    }
  }

  lemma LocatedAfterRenumber(kg: Keying, a: seq<Slot>, b: seq<Slot>, key: Word, idx: int)
    requires Renumbers(a, b) && Probed(kg, a) && Located(kg, a, key, Bucket(idx, 0, 0, 0))
    ensures Located(kg, b, key, Bucket(idx, 0, 0, 0))
  {
  }

  /** Grows the table when it is at capacity, so that the renumbering below is not followed by a rehash. */
  method PrepareInsert(ht: Table, key: Word, idx: int) returns (i: int)
    requires ht.Valid() && ht.HasRoom() && Located(ht.keying, ht.Slots(), key, Bucket(idx, 0, 0, 0))
    modifies ht
    ensures ht.Valid() && fresh(ht.Repr() - old(ht.Repr())) && ht.used == old(ht.used)
    ensures ht.Contents() == old(ht.Contents())
    ensures Located(ht.keying, ht.Slots(), key, Bucket(i, 0, 0, 0))
    ensures ht.used + 1 <= TableCapacity(ht.numBucketsIdx)
  {
    hide TableSize;
    hide TableCapacity;
    hide Probed;
    hide Gather;
    hide Tally;
    hide Entries;
    i := idx;
    if TableCapacity(ht.numBucketsIdx) < ht.used + 1 {
      ghost var was := ht.Slots();
      ht.Rehash(1);
      SameContents(ht.keying, was, ht.Slots());
      TableFits(ht.numBucketsIdx);
      i := ht.FindBucketNoCollision(key);
    }
  }

  /** Insertion at index `p`; a key already present is left alone. */
  method AddIntValueAndInc(ht: Table, key: Word, p: Word, ghost ks: seq<Word>) returns (added: bool)
    requires IndexTable(ht, ks) && !Reserved(key) && p <= |ks|
    requires ht.HasRoom() || ht.keying.rep(key) in ht.Contents()
    modifies ht.Repr()
    ensures ht.Valid() && fresh(ht.Repr() - old(ht.Repr()))
    ensures added <==> ht.keying.rep(key) !in old(ht.Contents())
    ensures Indexes(ht.keying, ht.Contents(), if added then ks[..p] + [key] + ks[p..] else ks)
    // position by position
    ensures !added ==> ht.Contents() == old(ht.Contents())
    ensures added ==>
              var (m, rep) := (ht.Contents(), ht.keying.rep);
              && rep(key) in m && m[rep(key)].key == key && m[rep(key)].value == p
              && (forall q :: 0 <= q < |ks| ==> rep(ks[q]) in m && m[rep(ks[q])].key == ks[q] && m[rep(ks[q])].value == if q < p then q else q + 1)
              && (forall k :: k in m ==> k == rep(key) || exists q :: 0 <= q < |ks| && k == rep(ks[q]))
  {
    hide TableSize;
    hide TableCapacity;
    hide Probed;
    hide Gather;
    hide Tally;
    hide Entries;
    hide Indexes;
    hide DecodeStores;
    added := AddIfAbsent(ht, key, p, ks);
    if added {
      InsertedMeans(ht.keying, ht.Contents(), ks, p, key);
    }
  }

  method AddIfAbsent(ht: Table, key: Word, p: Word, ghost ks: seq<Word>) returns (added: bool)
    requires IndexTable(ht, ks) && !Reserved(key) && p <= |ks|
    requires ht.HasRoom() || ht.keying.rep(key) in ht.Contents()
    modifies ht.Repr()
    ensures ht.Valid() && fresh(ht.Repr() - old(ht.Repr()))
    ensures added <==> ht.keying.rep(key) !in old(ht.Contents())
    ensures Indexes(ht.keying, ht.Contents(), if added then ks[..p] + [key] + ks[p..] else ks)
    ensures !added ==> ht.Contents() == old(ht.Contents())
  {
    hide TableSize;
    hide TableCapacity;
    hide Probed;
    hide Gather;
    hide Tally;
    hide Entries;
    hide Indexes;
    var b := ht.FindBucket(key);
    FoundInContents(ht.keying, ht.Slots(), key, b);
    if 0 < b.count {
      added := false;
    } else {
      var i := PrepareInsert(ht, key, b.idx);
      InsertAt(ht, i, key, p, ks);
      added := true;
    }
  }

  /** Renumbers, then enters the key in the bucket that was found for it. */
  method InsertAt(ht: Table, i: int, key: Word, p: Word, ghost ks: seq<Word>)
    requires IndexTable(ht, ks) && !Reserved(key) && p <= |ks| && ht.HasRoom()
    requires ht.keying.rep(key) !in ht.Contents() && Located(ht.keying, ht.Slots(), key, Bucket(i, 0, 0, 0))
    modifies ht.Repr()
    ensures ht.Valid() && fresh(ht.Repr() - old(ht.Repr()))
    ensures Indexes(ht.keying, ht.Contents(), ks[..p] + [key] + ks[p..])
  {
    hide TableSize;
    hide TableCapacity;
    hide Probed;
    hide Gather;
    hide Tally;
    hide Entries;
    hide Indexes;
    IndexBound(ht, ks);
    ghost var was, m := ht.Slots(), ht.Contents();
    ht.RenumberUp(p);
    Renumbered(ht, was, UpBy(p));
    LocatedAfterRenumber(ht.keying, was, ht.Slots(), key, i);
    InsertIndex(ht.keying, m, ht.Contents(), ks, p, key);
    ht.AddEntry(i, key, p);
  }

  /** A table whose slots were renumbered in place is still sound, and its entries are renumbered alike. */
  lemma Renumbered(ht: Table, was: seq<Slot>, f: Slot -> Slot)
    requires ht.Shape() && ht.Aligned() && Probed(ht.keying, was) && ht.used == UsedCount(was)
    requires ht.Slots() == Mapped(f, was) && Renumbers(was, ht.Slots())
    ensures ht.Sound()
    ensures DeletedCount(ht.Slots()) == DeletedCount(was)
    ensures Gather(ht.Slots(), KeyOf) == Gather(was, KeyOf)
    ensures ht.Contents().Keys == Entries(ht.keying, was).Keys
    ensures forall k :: k in Entries(ht.keying, was) ==> ht.Contents()[k] == f(Entries(ht.keying, was)[k])
  {
    RenumberKeeps(ht.keying, was, ht.Slots());
    MappedEntries(ht.keying, was, ht.Slots(), f);
  }

  /** Deletion at index `p`. */
  method RemoveIntValueAndDec(ht: Table, p: Word, ghost ks: seq<Word>)
    requires IndexTable(ht, ks) && p < |ks|
    modifies ht.Repr()
    ensures ht.Valid() && fresh(ht.Repr() - old(ht.Repr()))
    ensures Indexes(ht.keying, ht.Contents(), ks[..p] + ks[p + 1..])
    // position by position
    ensures var (m, rep) := (ht.Contents(), ht.keying.rep);
            && (forall q :: 0 <= q < |ks| && q != p ==>
                 rep(ks[q]) in m && m[rep(ks[q])].key == ks[q] && m[rep(ks[q])].value == if q < p then q else q - 1)
            && (forall k :: k in m ==> exists q :: 0 <= q < |ks| && q != p && k == rep(ks[q]))
  {
    hide TableSize;
    hide TableCapacity;
    hide Probed;
    hide Gather;
    hide Tally;
    hide Entries;
    hide Indexes;
    hide DecodeStores;
    IndexBound(ht, ks);
    ghost var was, m := ht.Slots(), ht.Contents();
    PositionHeld(ht, ks, p);
    var found := ht.RenumberDown(p);
    Renumbered(ht, was, DownBy(p));
    DeleteIndex(ht.keying, m, ht.Contents(), ks, p);
    assert ht.Slots()[found] == ht.SlotAt(found);
    ht.RemoveEntry(found);
    DeletedMeans(ht.keying, ht.Contents(), ks, p);
  }

  lemma PositionHeld(ht: Table, ks: seq<Word>, p: nat)
    requires IndexTable(ht, ks) && p < |ks|
    ensures exists i :: 0 <= i < |ht.Slots()| && ht.Slots()[i].Full? && ht.Slots()[i].value == p
    ensures forall i :: 0 <= i < |ht.Slots()| && ht.Slots()[i].Full? && ht.Slots()[i].value == p ==>
              ht.keying.rep(ht.Slots()[i].key) == ht.keying.rep(ks[p]) && ht.Slots()[i].count == 1
  {
    hide Gather;
    hide Tally;
    hide TableSize;
    hide TableCapacity;
    hide DecodeStores;
    hide Entries;
    hide Indexes;
    ProbedIsDistinct(ht.keying, ht.Slots());
    HolderOf(ht.keying, ht.Slots(), ks, p);
  }

  lemma HolderOf(kg: Keying, slots: seq<Slot>, ks: seq<Word>, p: nat)
    requires DistinctKeys(kg, slots) && Indexes(kg, Entries(kg, slots), ks) && p < |ks|
    ensures exists i :: 0 <= i < |slots| && slots[i].Full? && slots[i].value == p
    ensures forall i :: 0 <= i < |slots| && slots[i].Full? && slots[i].value == p ==>
              kg.rep(slots[i].key) == kg.rep(ks[p]) && slots[i].count == 1
  {
    var k := kg.rep(ks[p]);
    assert k in Entries(kg, slots);
    var i :| 0 <= i < |slots| && slots[i].Full? && kg.rep(slots[i].key) == k;
    assert Entries(kg, slots)[k] == slots[i];
    forall j | 0 <= j < |slots| && slots[j].Full? && slots[j].value == p
      ensures kg.rep(slots[j].key) == k && slots[j].count == 1
    {
      assert Entries(kg, slots)[kg.rep(slots[j].key)] == slots[j];
    }
  }
}
