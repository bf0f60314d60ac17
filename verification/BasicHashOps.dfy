/**
 The operations CFBasicHash offers its callers, each specified by its effect on the
 map the table stands for.
 */
module BasicHashOps {
  import opened HashSlots
  import opened HashSizes
  import opened BasicHash
  import opened Wrapping

  datatype Op =
    | Add(key: Word, value: Word)
    | Set(key: Word, value: Word)
    | Replace(key: Word, value: Word)
    | Remove(key: Word)
    | RemoveAll
    | Resize(capacity: nat)

  // ---------------------------------------------------------------- effect on the entries

  ghost function Applied(m: map<Word, Slot>, kg: Keying, counted: bool, op: Op): map<Word, Slot>
    requires forall k :: k in m ==> m[k].Full?
  {
    match op
    case Add(key, value) =>
      var k := kg.rep(key);
      if k !in m then m[k := Full(key, value, 1)]
      else if counted && m[k].count < LongMax then m[k := m[k].(count := m[k].count + 1)]
      else m
    case Set(key, value) =>
      var k := kg.rep(key);
      m[k := Full(key, value, if k in m then m[k].count else 1)]
    case Replace(key, value) =>
      var k := kg.rep(key);
      if k in m then m[k := Full(key, value, m[k].count)] else m
    case Remove(key) =>
      var k := kg.rep(key);
      if k !in m || Reserved(key) then m
      else if m[k].count <= 1 then m - {k}
      else if counted && m[k].count < LongMax then m[k := m[k].(count := m[k].count - 1)]
      else m
    case RemoveAll => map[]
    case Resize(_) => m
  }

  /** What the source demands of the arguments: no reserved words, and in a set the value is the key. */
  predicate Admissible(keyed: bool, op: Op) {
    match op
    case Add(k, v) => !Reserved(k) && !Reserved(v) && (keyed || k == v)
    case Set(k, v) => !Reserved(k) && !Reserved(v) && (keyed || k == v)
    case Replace(k, v) => !Reserved(k) && !Reserved(v) && (keyed || k == v)
    case _ => true
  }

  lemma FoundInContents(kg: Keying, slots: seq<Slot>, key: Word, b: Bucket)
    requires Probed(kg, slots) && Located(kg, slots, key, b)
    ensures 0 < b.count <==> kg.rep(key) in Entries(kg, slots)
    ensures 0 < b.count ==> Entries(kg, slots)[kg.rep(key)] == slots[b.idx] == Full(b.key, b.value, b.count)
    ensures 0 < b.count ==> kg.rep(b.key) == kg.rep(key)
  {
  }

  /** Nothing changes but possibly the entry of `k`. */
  ghost predicate Untouched(m: map<Word, Slot>, m': map<Word, Slot>, k: Word) {
    forall x :: x != k ==> (x in m' <==> x in m) && (x in m ==> m'[x] == m[x])
  }

  method AddValue(ht: Table, key: Word, value: Word) returns (added: bool)
    requires ht.Valid() && Admissible(ht.keyed, Add(key, value))
    requires ht.keying.rep(key) in ht.Contents() || ht.HasRoom()
    modifies ht.Repr()
    ensures ht.Valid() && fresh(ht.Repr() - old(ht.Repr()))
    ensures ht.Contents() == Applied(old(ht.Contents()), ht.keying, ht.counted, Add(key, value))
    ensures added <==> ht.Contents() != old(ht.Contents())
    ensures ht.used <= old(ht.used) + 1
    // the same entry by entry
    ensures var k, m := ht.keying.rep(key), old(ht.Contents());
            && k in ht.Contents()
            && ht.Contents()[k].key == (if k in m then m[k].key else key)
            && ht.Contents()[k].value == (if k in m then m[k].value else value)
            && ht.Contents()[k].count == (if k !in m then 1 else if ht.counted && m[k].count < LongMax then m[k].count + 1 else m[k].count)
    ensures Untouched(old(ht.Contents()), ht.Contents(), ht.keying.rep(key))
  {
    hide Probed;
    hide Entries;
    hide Gather;
    hide Tally;
    var b := ht.FindBucket(key);
    FoundInContents(ht.keying, ht.Slots(), key, b);
    if 0 < b.count {
      if ht.counted && b.count < LongMax {
        ht.CountUp(b.idx);
        added := true;
      } else {
        added := false;
      }
    } else {
      ht.AddEntry(b.idx, key, value);
      added := true;
    }
  }

  method SetValue(ht: Table, key: Word, value: Word)
    requires ht.Valid() && Admissible(ht.keyed, Set(key, value))
    requires ht.keying.rep(key) in ht.Contents() || ht.HasRoom()
    modifies ht.Repr()
    ensures ht.Valid() && fresh(ht.Repr() - old(ht.Repr()))
    ensures ht.Contents() == Applied(old(ht.Contents()), ht.keying, ht.counted, Set(key, value))
    ensures ht.used <= old(ht.used) + 1
    ensures var k, m := ht.keying.rep(key), old(ht.Contents());
            && k in ht.Contents()
            && ht.Contents()[k].key == key && ht.Contents()[k].value == value
            && ht.Contents()[k].count == (if k in m then m[k].count else 1)
    ensures Untouched(old(ht.Contents()), ht.Contents(), ht.keying.rep(key))
  {
    hide Probed;
    hide Entries;
    hide Gather;
    hide Tally;
    var b := ht.FindBucket(key);
    FoundInContents(ht.keying, ht.Slots(), key, b);
    if 0 < b.count {
      ht.ReplaceEntry(b.idx, key, value);
    } else {
      ht.AddEntry(b.idx, key, value);
    }
  }

  method ReplaceValue(ht: Table, key: Word, value: Word)
    requires ht.Valid() && Admissible(ht.keyed, Replace(key, value))
    modifies ht.Repr()
    ensures ht.Valid() && fresh(ht.Repr() - old(ht.Repr()))
    ensures ht.Contents() == Applied(old(ht.Contents()), ht.keying, ht.counted, Replace(key, value))
    ensures ht.used == old(ht.used)
    ensures var k, m := ht.keying.rep(key), old(ht.Contents());
            && (k in ht.Contents() <==> k in m)
            && (k in m ==> ht.Contents()[k].key == key && ht.Contents()[k].value == value && ht.Contents()[k].count == m[k].count)
    ensures Untouched(old(ht.Contents()), ht.Contents(), ht.keying.rep(key))
  {
    hide Probed;
    hide Entries;
    hide Gather;
    hide Tally;
    var b := ht.FindBucket(key);
    FoundInContents(ht.keying, ht.Slots(), key, b);
    if 0 < b.count {
      ht.ReplaceEntry(b.idx, key, value);
    }
  }

  /** Removes one occurrence and reports how many there were. */
  method RemoveValue(ht: Table, key: Word) returns (count: nat)
    requires ht.Valid()
    modifies ht.Repr()
    ensures ht.Valid() && fresh(ht.Repr() - old(ht.Repr()))
    ensures ht.Contents() == Applied(old(ht.Contents()), ht.keying, ht.counted, Remove(key))
    ensures count == if !Reserved(key) && ht.keying.rep(key) in old(ht.Contents())
                     then old(ht.Contents())[ht.keying.rep(key)].count else 0
    ensures ht.used <= old(ht.used)
    ensures Reserved(key) ==> ht.Contents() == old(ht.Contents())
    ensures var k, m := ht.keying.rep(key), old(ht.Contents());
            k in ht.Contents() ==>
              && k in m && ht.Contents()[k].key == m[k].key && ht.Contents()[k].value == m[k].value
              && (!Reserved(key) ==> 1 < m[k].count && ht.Contents()[k].count == if m[k].count < LongMax then m[k].count - 1 else m[k].count)
    ensures !Reserved(key) && ht.keying.rep(key) in old(ht.Contents()) && 1 < count ==> ht.keying.rep(key) in ht.Contents()
    ensures Untouched(old(ht.Contents()), ht.Contents(), ht.keying.rep(key))
  {
    hide Probed;
    hide Entries;
    hide Gather;
    hide Tally;
    if Reserved(key) {
      return 0;
    }
    var b := ht.FindBucket(key);
    FoundInContents(ht.keying, ht.Slots(), key, b);
    if 1 < b.count {
      if ht.counted && b.count < LongMax {
        ht.CountDown(b.idx);
      }
    } else if 0 < b.count {
      ht.RemoveEntry(b.idx);
    }
    count := b.count;
  }

  method RemoveAllValues(ht: Table)
    requires ht.Valid()
    modifies ht.Repr()
    ensures ht.Valid() && fresh(ht.Repr() - old(ht.Repr()))
    ensures ht.Contents() == map[] && ht.used == 0 && ht.numBucketsIdx == 0
  {
    if ht.numBucketsIdx == 0 {
      CountsFit(ht.Slots());
    } else {
      ht.Drain();
    }
  }

  /** Prepares the table for `capacity` entries; the contents stay. */
  method SetCapacity(ht: Table, capacity: nat)
    requires ht.Valid() && (capacity <= ht.used || capacity <= RoomLimit(ht.fastGrow, capacity - ht.used))
    modifies ht
    ensures ht.Valid() && fresh(ht.Repr() - old(ht.Repr()))
    ensures ht.Contents() == old(ht.Contents()) && ht.used == old(ht.used)
    ensures if ht.used < capacity then LeastIndex(ht.numBucketsIdx, capacity, if ht.fastGrow && capacity == ht.used + 1 then 1 else 0)
            else ht.numBucketsIdx == old(ht.numBucketsIdx)
  {
    hide Probed;
    hide Entries;
    hide Gather;
    hide Tally;
    if ht.used < capacity {
      ghost var was := ht.Slots();
      ht.Rehash(capacity - ht.used);
      SameContents(ht.keying, was, ht.Slots());
    }
  }

  // ---------------------------------------------------------------- counts

  /** Half the range of a `CFIndex`. */
  const IndexHalf: int := 0x8000_0000_0000_0000

  /** The number of entries, or in a counted table the number of occurrences as far as a `CFIndex` can tell. */
  method GetCount(ht: Table) returns (n: int)
    requires ht.Valid()
    ensures ht.counted ==> n == Wrap(|Bag(ht.keying, ht.Slots())|, IndexHalf)
    ensures ht.counted && |Bag(ht.keying, ht.Slots())| < IndexHalf ==> n == |Bag(ht.keying, ht.Slots())|
    ensures !ht.counted ==> n == |ht.Contents()|
  {
    hide Wrap;
    hide Gather;
    ghost var slots := ht.Slots();
    if ht.counted {
      n := TotalCount(ht);
      if |Bag(ht.keying, slots)| < IndexHalf {
        WrapFits(|Bag(ht.keying, slots)|, IndexHalf);
      }
    } else {
      EntriesSize(ht.keying, slots);
      n := ht.used;
    }
  }

  lemma CountStep(kg: Keying, slots: seq<Slot>, i: nat)
    requires i < |slots|
    ensures |Gather(slots[..i + 1], CopiesOf(kg))| == |Gather(slots[..i], CopiesOf(kg))| + if slots[i].Full? then slots[i].count else 0
  {
    GatherStep(slots, i, CopiesOf(kg));
  }

  /** The loop over all buckets, in wrapping arithmetic. */
  method TotalCount(ht: Table) returns (n: int)
    requires ht.Shape() && ht.Aligned() && ht.counted
    ensures n == Wrap(|Bag(ht.keying, ht.Slots())|, IndexHalf)
  {
    hide Wrap;
    hide Gather;
    hide DecodeStores;
    hide TableSize;
    ghost var slots := ht.Slots();
    n := 0;
    WrapFits(0, IndexHalf);
    GatherNothing(slots[..0], CopiesOf(ht.keying));
    for i := 0 to ht.counts.Length
      invariant n == Wrap(|Gather(slots[..i], CopiesOf(ht.keying))|, IndexHalf)
    {
      CountStep(ht.keying, slots, i);
      assert slots[i] == ht.SlotAt(i);
      WrapSteps(|Gather(slots[..i], CopiesOf(ht.keying))|, ht.counts[i], IndexHalf);
      n := Wrap(n + ht.counts[i], IndexHalf);
    }
    assert slots[..|slots|] == slots;
  }

  method GetCountOfKey(ht: Table, key: Word) returns (n: nat)
    requires ht.Valid()
    ensures n == if Reserved(key) then 0 else Bag(ht.keying, ht.Slots())[ht.keying.rep(key)]
    ensures n == if !Reserved(key) && ht.keying.rep(key) in ht.Contents() then ht.Contents()[ht.keying.rep(key)].count else 0
  {
    if Reserved(key) {
      return 0;
    }
    ghost var slots := ht.Slots();
    BagCounts(ht.keying, slots, ht.keying.rep(key));
    if ht.used == 0 {
      EntriesSize(ht.keying, slots);
      return 0;
    }
    var b := ht.FindBucket(key);
    FoundInContents(ht.keying, slots, key, b);
    n := b.count;
  }
}
