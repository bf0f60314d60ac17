/**
 CFBasicHash: the open-addressed table behind sets, dictionaries and bags, with
 linear probing.  The stores hold machine words in which 0 marks an empty bucket
 and ~0 a deleted one; the words 0 and ~0 themselves are stored as two reserved
 words.  `Slots` decodes the stores, and every method is specified by what it does
 to `Slots` and to the map (`Entries`) the slots stand for.
 */
module BasicHash {
  import opened HashSlots
  import opened HashSizes
  import opened HashIndex

  const SubABZero: Word := 0xa7baadb1
  const SubABOne: Word := 0xa5baadb9
  const AllOnes: Word := 0xFFFF_FFFF_FFFF_FFFF
  const LongMax: Word := 0x7FFF_FFFF_FFFF_FFFF

  /** Words a caller may not store: they are the stand-ins for 0 and ~0. */
  predicate Reserved(w: Word) { w == SubABZero || w == SubABOne }

  predicate IsFree(raw: Word) { raw == 0 || raw == AllOnes }

  function Encode(w: Word): (raw: Word)
    ensures !IsFree(raw)
  {
    if w == 0 then SubABZero else if w == AllOnes then SubABOne else w
  }

  function Decode(raw: Word): (w: Word)
    ensures !IsFree(raw) ==> !Reserved(w)
  {
    if raw == SubABZero then 0 else if raw == SubABOne then AllOnes else raw
  }

  /** The stand-ins make the encoding a bijection between storable and stored words. */
  lemma EncodingRoundTrips(w: Word)
    ensures !Reserved(w) <==> Decode(Encode(w)) == w
    ensures !IsFree(w) <==> Encode(Decode(w)) == w
  {
  }

  function DecodeSlot(value: Word, key: Word, count: nat): Slot {
    if value == 0 then Empty else if value == AllOnes then Deleted else Full(Decode(key), Decode(value), count)
  }

  /** What renumbering writes over a stored value. */
  ghost function UpWord(p: Word, raw: Word): Word {
    if IsFree(raw) || Decode(raw) < p || AllOnes <= Decode(raw) then raw else Encode(Decode(raw) + 1)
  }

  ghost function DownWord(p: Word, raw: Word): Word {
    if IsFree(raw) || Decode(raw) <= p then raw else Encode(Decode(raw) - 1)
  }

  /** Below the reserved words, renumbering the stored word renumbers the value it stands for, 0 included. */
  lemma UpCell(p: Word, raw: Word, key: Word, count: nat)
    requires !IsFree(raw) ==> Decode(raw) + 1 < SubABOne
    ensures DecodeSlot(UpWord(p, raw), key, count) == Up(p, DecodeSlot(raw, key, count))
    ensures IsFree(UpWord(p, raw)) <==> IsFree(raw)
  {
  }

  lemma DownCell(p: Word, raw: Word, key: Word, count: nat)
    requires !IsFree(raw) ==> Decode(raw) < SubABOne
    ensures DecodeSlot(DownWord(p, raw), key, count) == Down(p, DecodeSlot(raw, key, count))
    ensures IsFree(DownWord(p, raw)) <==> IsFree(raw)
  {
  }

  /** The buckets that a value store, a key store and a count store spell out. */
  ghost function DecodeStores(keyed: bool, counted: bool, v: seq<Word>, k: seq<Word>, c: seq<Word>): (s: seq<Slot>)
    requires |k| == (if keyed then |v| else 0) && |c| == (if counted then |v| else 0)
    ensures |s| == |v|
    ensures forall i :: 0 <= i < |s| ==> s[i] == DecodeSlot(v[i], if keyed then k[i] else v[i], if counted then c[i] else 1)
  {
    seq(|v|, i requires 0 <= i < |v| => DecodeSlot(v[i], if keyed then k[i] else v[i], if counted then c[i] else 1))
  }

  /** The largest count a slot may reach before the count store is widened. */
  function CountMax(width: nat): Word {
    match width
    case 0 => 0x7F
    case 1 => 0x7FFF
    case 2 => 0x7FFF_FFFF
    case _ => LongMax
  }

  /** The bucket found for a key: index -1 stands for kCFNotFound. */
  datatype Bucket = Bucket(idx: int, key: Word, value: Word, count: nat)

  /** Every occupied bucket counts at least once, and never more than a CFIndex can say. */
  ghost predicate Counted(slots: seq<Slot>) {
    forall i :: 0 <= i < |slots| && slots[i].Full? ==> 1 <= slots[i].count <= LongMax
  }

  /**
   What a search for `key` reports: the bucket that holds the key, or count 0, the
   key is nowhere, and a free bucket on its probe path (-1 when none is free).
   */
  ghost predicate Located(kg: Keying, slots: seq<Slot>, key: Word, b: Bucket) {
    && -1 <= b.idx < |slots|
    && (0 < b.count ==> 0 <= b.idx && Matches(kg, slots[b.idx], key) && slots[b.idx] == Full(b.key, b.value, b.count))
    && (b.count == 0 ==> Absent(kg, slots, key))
    && (b.count == 0 && 0 <= b.idx ==> Vacant(kg, slots, key, b.idx))
    && (b.idx == -1 ==> forall i :: 0 <= i < |slots| ==> slots[i].Full?)
  }

  /** Bucket `i` is free and the probe for `key` would reach it. */
  ghost predicate Vacant(kg: Keying, slots: seq<Slot>, key: Word, i: nat) {
    && i < |slots|
    && !slots[i].Full?
    && PathClear(slots, Home(kg, key, |slots|), i)
  }

  class Table {
    const keyed: bool
    const counted: bool
    const fastGrow: bool
    const keying: Keying
    // whether values (keys) have both a retain and a release callback
    const managesValues: bool
    const managesKeys: bool

    var numBucketsIdx: nat
    var used: nat
    var deleted: nat
    var countsWidth: nat
    var values: array<Word>
    var keys: array<Word>
    var counts: array<Word>

    // every retain and release the table has performed
    ghost var retainedValues: multiset<Word>
    ghost var releasedValues: multiset<Word>
    ghost var retainedKeys: multiset<Word>
    ghost var releasedKeys: multiset<Word>

    ghost function Repr(): set<object>
      reads this
    {
      {this, values, keys, counts}
    }

    // ------------------------------------------------------------ representation

    /** The stores have the lengths and the ranges the size index and the count width call for. */
    ghost predicate Shape()
      reads `numBucketsIdx, `countsWidth, `values, `keys, `counts, values, keys, counts
    {
      && numBucketsIdx <= LastIndex
      && values.Length == TableSize(numBucketsIdx)
      && keys.Length == (if keyed then values.Length else 0)
      && counts.Length == (if counted then values.Length else 0)
      && values != keys && values != counts && keys != counts
      && countsWidth <= 3
      && forall i :: 0 <= i < counts.Length ==> counts[i] <= CountMax(countsWidth)
    }

    ghost function SlotAt(i: nat): Slot
      requires Shape() && i < values.Length
      reads `numBucketsIdx, `countsWidth, `values, `keys, `counts, values, keys, counts
    {
      DecodeSlot(values[i], if keyed then keys[i] else values[i], if counted then counts[i] else 1)
    }

    ghost function Slots(): (s: seq<Slot>)
      requires Shape()
      reads `numBucketsIdx, `countsWidth, `values, `keys, `counts, values, keys, counts
      ensures |s| == values.Length
      ensures forall i :: 0 <= i < |s| ==> s[i] == SlotAt(i)
    {
      DecodeStores(keyed, counted, values[..], keys[..], counts[..])
    }

    /** The three stores agree on which buckets are free: a free bucket has no key and counts zero. */
    ghost predicate Aligned()
      requires Shape()
      reads `numBucketsIdx, `countsWidth, `values, `keys, `counts, values, keys, counts
    {
      && (forall i :: 0 <= i < counts.Length && IsFree(values[i]) ==> counts[i] == 0)
      && (forall i :: 0 <= i < keys.Length ==> (IsFree(values[i]) <==> IsFree(keys[i])))
      && Counted(Slots())
    }

    /** What a rehash relies on: everything but the tombstone counter. */
    ghost predicate Sound()
      reads `used, `numBucketsIdx, `countsWidth, `values, `keys, `counts, values, keys, counts
    {
      && Shape()
      && Aligned()
      && Probed(keying, Slots())
      && used == UsedCount(Slots())
    }

    /** Every retained value (key) that was not released sits in exactly one occupied bucket. */
    ghost predicate Balanced()
      requires Shape()
      reads `retainedValues, `releasedValues, `retainedKeys, `releasedKeys
      reads `numBucketsIdx, `countsWidth, `values, `keys, `counts, values, keys, counts
    {
      && (managesValues ==> retainedValues == releasedValues + Gather(Slots(), ValueOf))
      && (managesKeys && keyed ==> retainedKeys == releasedKeys + Gather(Slots(), KeyOf))
    }

    ghost predicate Valid()
      reads `used, `deleted, `retainedValues, `releasedValues, `retainedKeys, `releasedKeys
      reads `numBucketsIdx, `countsWidth, `values, `keys, `counts, values, keys, counts
    {
      && Sound()
      && Balanced()
      && deleted == DeletedCount(Slots()) < 0x1_0000
      && used <= TableCapacity(numBucketsIdx)
      && (20 <= values.Length ==> deleted < values.Length / 4)
    }

    /** One more entry fits without a rehash, or after one. */
    ghost predicate HasRoom()
      requires numBucketsIdx <= LastIndex
      reads `used, `numBucketsIdx
    {
      used + 1 <= TableCapacity(numBucketsIdx) || used + 1 <= RoomLimit(fastGrow, 1)
    }

    /** The map the table stands for. */
    ghost function Contents(): (m: map<Word, Slot>)
      requires Sound()
      ensures forall k :: k in m ==> m[k].Full?
      reads `used, `numBucketsIdx, `countsWidth, `values, `keys, `counts, values, keys, counts
    {
      Entries(keying, Slots())
    }

    constructor (keyed: bool, counted: bool, fastGrow: bool, keying: Keying, managesValues: bool, managesKeys: bool)
      ensures Valid() && fresh(Repr()) && Contents() == map[]
      ensures this.keyed == keyed && this.counted == counted && this.fastGrow == fastGrow && this.keying == keying
      ensures this.managesValues == managesValues && this.managesKeys == managesKeys
    {
      this.keyed, this.counted, this.fastGrow, this.keying := keyed, counted, fastGrow, keying;
      this.managesValues, this.managesKeys := managesValues, managesKeys;
      numBucketsIdx, used, deleted, countsWidth := 0, 0, 0, 0;
      retainedValues, releasedValues, retainedKeys, releasedKeys := multiset{}, multiset{}, multiset{}, multiset{};
      values := new Word[0];
      keys := new Word[0];
      counts := new Word[0];
    }

    // ------------------------------------------------------------ one store cell

    method SetValue(i: nat, value: Word, ignoreOld: bool, literal: bool)
      requires Shape() && i < values.Length
      modifies values, `releasedValues
      ensures values[i] == if literal then value else Encode(value)
      ensures forall j :: 0 <= j < values.Length && j != i ==> values[j] == old(values[j])
      ensures releasedValues == old(releasedValues) +
        if managesValues && !ignoreOld && !IsFree(old(values[i])) then multiset{Decode(old(values[i]))} else multiset{}
    {
      var oldValue := if ignoreOld then 0 else values[i];
      values[i] := if literal then value else Encode(value);
      if !ignoreOld && !IsFree(oldValue) && managesValues {
        releasedValues := releasedValues + multiset{Decode(oldValue)};
      }
    }

    method SetKey(i: nat, key: Word, ignoreOld: bool, literal: bool)
      requires Shape() && keyed && i < keys.Length
      modifies keys, `releasedKeys
      ensures keys[i] == if literal then key else Encode(key)
      ensures forall j :: 0 <= j < keys.Length && j != i ==> keys[j] == old(keys[j])
      ensures releasedKeys == old(releasedKeys) +
        if managesKeys && !ignoreOld && !IsFree(old(keys[i])) then multiset{Decode(old(keys[i]))} else multiset{}
    {
      var oldKey := if ignoreOld then 0 else keys[i];
      keys[i] := if literal then key else Encode(key);
      if !ignoreOld && !IsFree(oldKey) && managesKeys {
        releasedKeys := releasedKeys + multiset{Decode(oldKey)};
      }
    }

    // ------------------------------------------------------------ slot counts

    /** Moves the counts to a store of twice the width; no count changes. */
    method BumpCounts()
      requires Shape() && counted && countsWidth < 3
      modifies this`counts, this`countsWidth
      ensures countsWidth == old(countsWidth) + 1
      ensures fresh(counts) && counts.Length == old(counts.Length)
      ensures forall i :: 0 <= i < counts.Length ==> counts[i] == old(counts[i])
      ensures Shape()
    {
      var narrow := counts;
      var wide := new Word[narrow.Length];
      for idx := 0 to narrow.Length
        modifies wide
        invariant forall i :: 0 <= i < idx ==> wide[i] == narrow[i]
      {
        wide[idx] := narrow[idx];
      }
      counts := wide;
      countsWidth := countsWidth + 1;
    }

    /** Adds one to one slot's count, widening the store as often as it takes. */
    method IncSlotCount(i: nat)
      requires Shape() && counted && i < counts.Length && counts[i] < LongMax
      modifies this`counts, this`countsWidth, counts
      ensures Shape()
      ensures counts == old(counts) || fresh(counts)
      ensures counts.Length == old(counts.Length) && counts[i] == old(counts[i]) + 1
      ensures forall j :: 0 <= j < counts.Length && j != i ==> counts[j] == old(counts[j])
      ensures countsWidth >= old(countsWidth)
      decreases 3 - countsWidth
    {
      if counts[i] < CountMax(countsWidth) {
        counts[i] := counts[i] + 1;
      } else {
        BumpCounts();
        IncSlotCount(i);
      }
    }

    method DecSlotCount(i: nat)
      requires Shape() && counted && i < counts.Length && 0 < counts[i]
      modifies counts
      ensures counts[i] == old(counts[i]) - 1
      ensures forall j :: 0 <= j < counts.Length && j != i ==> counts[j] == old(counts[j])
      ensures Shape()
    {
      counts[i] := counts[i] - 1;
    }

    // ------------------------------------------------------------ probing

    /** The bucket at `i`; count 0 when it is empty or deleted. */
    method GetBucket(i: nat) returns (b: Bucket)
      requires Shape() && i < values.Length
      ensures b.idx == i
      ensures match Slots()[i] case Full(k, v, c) => b == Bucket(i, k, v, c) case _ => b == Bucket(i, 0, 0, 0)
    {
      if IsFree(values[i]) {
        b := Bucket(i, 0, 0, 0);
      } else {
        var key := Decode(if keyed then keys[i] else values[i]);
        b := Bucket(i, key, Decode(values[i]), if counted then counts[i] else 1);
      }
    }

    /**
     Linear probing.  The search passes `t` buckets and ends at a match, at an empty
     bucket or after all buckets; `at` is when it passed the bucket it reports.
     */
    method Probe(key: Word) returns (b: Bucket, ghost t: nat, ghost at: nat)
      requires Shape() && Counted(Slots()) && 0 < values.Length
      ensures t <= |Slots()| && Passed(keying, Slots(), key, t)
      ensures -1 <= b.idx < |Slots()|
      ensures 0 < b.count ==> 0 <= b.idx && Matches(keying, Slots()[b.idx], key) && Slots()[b.idx] == Full(b.key, b.value, b.count)
      ensures b.count == 0 && t < |Slots()| ==> Slots()[At(Home(keying, key, |Slots()|), t, |Slots()|)].Empty?
      ensures b.count == 0 && 0 <= b.idx ==>
        at <= t && at < |Slots()| && b.idx == At(Home(keying, key, |Slots()|), at, |Slots()|) && !Slots()[b.idx].Full?
      ensures b.idx == -1 ==> t == |Slots()| && Crowded(Slots(), Home(keying, key, |Slots()|), t)
    {
      hide DecodeStores;
      hide TableSize;
      ghost var slots := Slots();
      var n := values.Length;
      var h := Home(keying, key, n);
      var probe := h;
      var deletedIdx := -1;
      var passed := 0;
      at := 0;
      while passed < n
        invariant passed <= n && (passed < n ==> probe == At(h, passed, n))
        invariant Passed(keying, slots, key, passed)
        invariant -1 <= deletedIdx < n
        invariant if deletedIdx == -1 then Crowded(slots, h, passed) else
                    at < passed && deletedIdx == At(h, at, n) && slots[deletedIdx].Deleted?
      {
        var here := values[probe];
        assert slots[probe] == SlotAt(probe);
        if here == 0 {
          if deletedIdx == -1 {
            deletedIdx, at := probe, passed;
          }
          break;
        } else if here == AllOnes {
          if deletedIdx == -1 {
            deletedIdx, at := probe, passed;
          }
        } else {
          var found := Decode(if keyed then keys[probe] else here);
          if keying.rep(found) == keying.rep(key) {
            b := Bucket(probe, found, Decode(here), if counted then counts[probe] else 1);
            t := passed;
            return;
          }
        }
        probe := if probe + 1 < n then probe + 1 else probe + 1 - n;
        passed := passed + 1;
      }
      b, t := Bucket(deletedIdx, 0, 0, 0), passed;
    }

    /**
     The bucket holding `key`, or count 0 and the bucket an add should fill: the
     first deleted one passed, else the empty one that ended the search, else -1.
     */
    method FindBucket(key: Word) returns (b: Bucket)
      requires Sound()
      ensures Located(keying, Slots(), key, b)
    {
      if numBucketsIdx == 0 {
        return Bucket(-1, 0, 0, 0);
      }
      TableFits(numBucketsIdx);
      ghost var slots := Slots();
      ghost var t, at;
      b, t, at := Probe(key);
      if b.count == 0 {
        ProbeProvesAbsence(keying, slots, key, t);
        if b.idx == -1 {
          CrowdedAll(slots, Home(keying, key, |slots|));
        } else {
          PassedPath(keying, slots, key, at);
        }
      }
    }

    /** The first free bucket on the probe path of a key known to be absent. */
    method FindBucketNoCollision(key: Word) returns (i: nat)
      requires Shape() && UsedCount(Slots()) < values.Length
      ensures Vacant(keying, Slots(), key, i)
    {
      hide DecodeStores;
      hide TableSize;
      hide Tally;
      ghost var slots := Slots();
      TallyAll(slots, IsFull);
      var n := values.Length;
      var h := Home(keying, key, n);
      i := h;
      ghost var t := 0;
      while !IsFree(values[i])
        invariant t < n && i == At(h, t, n)
        invariant Crowded(slots, h, t)
        decreases n - t
      {
        assert slots[i] == SlotAt(i);
        assert Crowded(slots, h, t + 1);
        if t == n - 1 {
          CrowdedAll(slots, h);
          assert false;
        }
        i := i + 1;
        if n <= i {
          i := i - n;
        }
        t := t + 1;
      }
      CrowdedPath(slots, h, t);
    }

    // ------------------------------------------------------------ whole buckets

    /** Fills bucket `i`, releasing what it held. */
    method PlaceEntry(i: nat, key: Word, value: Word)
      requires Shape() && i < values.Length
      requires !Reserved(key) && !Reserved(value) && (keyed || key == value)
      requires keyed ==> (IsFree(values[i]) <==> IsFree(keys[i]))
      modifies values, keys, `releasedValues, `releasedKeys
      ensures Shape()
      ensures !IsFree(values[i]) && (keyed ==> !IsFree(keys[i]))
      ensures forall j :: 0 <= j < values.Length && j != i ==> values[j] == old(values[j])
      ensures forall j :: 0 <= j < keys.Length && j != i ==> keys[j] == old(keys[j])
      ensures Slots() == old(Slots())[i := Full(key, value, if counted then counts[i] else 1)]
      ensures releasedValues == old(releasedValues) + if managesValues then ValueOf(old(Slots())[i]) else multiset{}
      ensures managesKeys && keyed ==> releasedKeys == old(releasedKeys) + KeyOf(old(Slots())[i])
    {
      hide CountMax;
      hide DecodeStores;
      EncodingRoundTrips(key);
      EncodingRoundTrips(value);
      SetValue(i, value, false, false);
      if keyed {
        SetKey(i, key, false, false);
      }
    }

    /** Fills a free bucket and gives it a count, as the count store allows. */
    method PlaceCounted(i: nat, key: Word, value: Word, count: Word)
      requires Shape() && Aligned() && i < values.Length && IsFree(values[i])
      requires !Reserved(key) && !Reserved(value) && (keyed || key == value)
      requires 1 <= count <= CountMax(countsWidth) && (counted || count == 1)
      modifies values, keys, counts, `releasedValues, `releasedKeys
      ensures Shape() && Aligned()
      ensures Slots() == old(Slots())[i := Full(key, value, count)]
      ensures releasedValues == old(releasedValues)
      ensures managesKeys && keyed ==> releasedKeys == old(releasedKeys)
    {
      hide DecodeStores;
      hide TableSize;
      PlaceEntry(i, key, value);
      if counted {
        StoreCount(i, count);
      }
    }

    /** Writes the count of an occupied bucket. */
    method StoreCount(i: nat, count: Word)
      requires Shape() && counted && i < values.Length && Slots()[i].Full? && count <= CountMax(countsWidth)
      modifies counts
      ensures Shape() && counts[i] == count
      ensures forall j :: 0 <= j < counts.Length && j != i ==> counts[j] == old(counts[j])
      ensures Slots() == old(Slots())[i := old(Slots())[i].(count := count)]
    {
      hide CountMax;
      hide DecodeStores;
      hide TableSize;
      ghost var was := Slots();
      assert was[i] == SlotAt(i);
      counts[i] := count;
      forall j | 0 <= j < |was|
        ensures Slots()[j] == if j == i then was[i].(count := count) else was[j]
      {
        assert Slots()[j] == SlotAt(j);
      }
    }

    /** Counts an occupied bucket for the first time. */
    method CountFirst(i: nat)
      requires Shape() && counted && i < values.Length && Slots()[i].Full? && counts[i] == 0
      modifies counts, `counts, `countsWidth
      ensures Shape() && counts[i] == 1 && (counts == old(counts) || fresh(counts)) && counts.Length == old(counts.Length)
      ensures forall j :: 0 <= j < counts.Length && j != i ==> counts[j] == old(counts[j])
      ensures Slots() == old(Slots())[i := old(Slots())[i].(count := 1)]
    {
      hide CountMax;
      hide DecodeStores;
      hide TableSize;
      ghost var was := Slots();
      assert was[i] == SlotAt(i);
      IncSlotCount(i);
      forall j | 0 <= j < |was|
        ensures Slots()[j] == if j == i then was[i].(count := 1) else was[j]
      {
        assert Slots()[j] == SlotAt(j);
      }
    }

    /** One step of a rehash: an entry moves to the first free bucket of its probe path. */
    method Reinsert(key: Word, value: Word, count: Word)
      requires Shape() && Aligned() && Probed(keying, Slots()) && DeletedCount(Slots()) == 0
      requires !Reserved(key) && !Reserved(value) && (keyed || key == value)
      requires 1 <= count <= CountMax(countsWidth) && (counted || count == 1)
      requires Absent(keying, Slots(), key) && UsedCount(Slots()) < values.Length
      modifies values, keys, counts, `releasedValues, `releasedKeys
      ensures Shape() && Aligned() && Probed(keying, Slots()) && DeletedCount(Slots()) == 0
      ensures Gather(Slots(), Occupied) == old(Gather(Slots(), Occupied)) + multiset{Full(key, value, count)}
      ensures releasedValues == old(releasedValues)
      ensures managesKeys && keyed ==> releasedKeys == old(releasedKeys)
    {
      hide Probed;
      hide Gather;
      ghost var before := Slots();
      var i := FindBucketNoCollision(key);
      assert before[i] == SlotAt(i);
      PlaceCounted(i, key, value, count);
      InsertEffect(keying, before, i, Full(key, value, count));
    }

    /** Fresh, empty stores of the given size; what the old stores held is gone from `Slots`. */
    method AllocateStores(idx: nat)
      requires idx <= LastIndex && countsWidth <= 3
      modifies `values, `keys, `counts, `numBucketsIdx, `deleted
      ensures numBucketsIdx == idx && deleted == 0
      ensures fresh(values) && fresh(keys) && fresh(counts)
      ensures Shape() && Aligned()
      ensures forall i :: 0 <= i < |Slots()| ==> Slots()[i] == Empty
    {
      hide CountMax;
      hide DecodeStores;
      hide TableSize;
      var n := TableSize(idx);
      values := new Word[n](_ => 0);
      keys := new Word[if keyed then n else 0](_ => 0);
      counts := new Word[if counted then n else 0](_ => 0);
      numBucketsIdx, deleted := idx, 0;
      NothingStored();
    }

    lemma NothingStored()
      requires Shape()
      requires forall i :: 0 <= i < values.Length ==> values[i] == 0
      requires forall i :: 0 <= i < keys.Length ==> keys[i] == 0
      requires forall i :: 0 <= i < counts.Length ==> counts[i] == 0
      ensures Aligned() && forall i :: 0 <= i < |Slots()| ==> Slots()[i] == Empty
    {
    }

    /** The size index a rehash for `newItemCount` more entries chooses. */
    method RehashIndex(newItemCount: int) returns (idx: nat)
      requires numBucketsIdx <= LastIndex
      requires newItemCount != 0 ==> used + (if newItemCount < 0 then 0 else newItemCount) <= RoomLimit(fastGrow, newItemCount)
      requires newItemCount == 0 ==> used <= TableCapacity(numBucketsIdx)
      ensures idx <= LastIndex
      ensures used + (if newItemCount < 0 then 0 else newItemCount) <= TableCapacity(idx)
      ensures newItemCount == 0 ==> idx == numBucketsIdx
      ensures newItemCount != 0 ==>
        LeastIndex(idx, used + (if newItemCount < 0 then 0 else newItemCount), if fastGrow && newItemCount == 1 then 1 else 0)
    {
      idx := numBucketsIdx;
      if newItemCount != 0 {
        var req := used + if newItemCount < 0 then 0 else newItemCount;
        idx := NumBucketsIndexForCapacity(req);
        if newItemCount == 1 && fastGrow {
          TableFits(idx);
          idx := idx + 1;
        }
      }
    }

    /** The loop of a rehash: enters the buckets spelled out by the old stores into the empty new ones. */
    method MoveEntries(oldValues: array<Word>, oldKeys: array<Word>, oldCounts: array<Word>, ghost was: seq<Slot>)
      requires Shape() && Aligned() && forall i :: 0 <= i < |Slots()| ==> Slots()[i] == Empty
      requires {oldValues, oldKeys, oldCounts} !! {values, keys, counts}
      requires oldKeys.Length == (if keyed then oldValues.Length else 0)
      requires oldCounts.Length == (if counted then oldValues.Length else 0)
      requires was == DecodeStores(keyed, counted, oldValues[..], oldKeys[..], oldCounts[..])
      requires forall i :: 0 <= i < oldKeys.Length ==> (IsFree(oldValues[i]) <==> IsFree(oldKeys[i]))
      requires forall i :: 0 <= i < oldCounts.Length ==> oldCounts[i] <= CountMax(countsWidth)
      requires Counted(was) && Probed(keying, was) && UsedCount(was) <= values.Length
      modifies values, keys, counts, `releasedValues, `releasedKeys
      ensures Shape() && Aligned() && Probed(keying, Slots()) && DeletedCount(Slots()) == 0
      ensures Gather(Slots(), Occupied) == Gather(was, Occupied)
      ensures releasedValues == old(releasedValues)
      ensures managesKeys && keyed ==> releasedKeys == old(releasedKeys)
    {
      hide TableSize;
      hide Probed;
      hide Gather;
      hide Tally;
      ProbedIsDistinct(keying, was);
      AllEmpty(keying, Slots());
      AllEmpty(keying, was[..0]);
      for i := 0 to oldValues.Length
        invariant Shape() && Aligned() && Probed(keying, Slots()) && DeletedCount(Slots()) == 0
        invariant Gather(Slots(), Occupied) == Gather(was[..i], Occupied)
        invariant releasedValues == old(releasedValues)
        invariant managesKeys && keyed ==> releasedKeys == old(releasedKeys)
      {
        var value := oldValues[i];
        if IsFree(value) {
          SkipFree(was, i);
        } else {
          MovedPrefix(keying, was, i, Slots());
          var key := Decode(if keyed then oldKeys[i] else value);
          Reinsert(key, Decode(value), if counted then oldCounts[i] else 1);
        }
      }
      assert was[..|was|] == was;
    }

    /**
     Moves every entry into stores of the size `newItemCount` calls for: the same
     size for 0, the smallest that fits for a negative count.  Tombstones disappear,
     entries and their counts do not, and nothing is retained or released.
     */
    method Rehash(newItemCount: int)
      requires Sound()
      requires newItemCount != 0 ==> used + (if newItemCount < 0 then 0 else newItemCount) <= RoomLimit(fastGrow, newItemCount)
      requires newItemCount == 0 ==> used <= TableCapacity(numBucketsIdx)
      modifies this
      ensures Sound() && used == old(used) && deleted == DeletedCount(Slots()) == 0
      ensures fresh(values) && fresh(keys) && fresh(counts)
      ensures Gather(Slots(), Occupied) == old(Gather(Slots(), Occupied))
      ensures used + (if newItemCount < 0 then 0 else newItemCount) <= TableCapacity(numBucketsIdx)
      ensures newItemCount == 0 ==> numBucketsIdx == old(numBucketsIdx)
      ensures newItemCount != 0 ==>
        LeastIndex(numBucketsIdx, used + (if newItemCount < 0 then 0 else newItemCount), if fastGrow && newItemCount == 1 then 1 else 0)
      ensures countsWidth == old(countsWidth)
      ensures retainedValues == old(retainedValues) && releasedValues == old(releasedValues)
      ensures retainedKeys == old(retainedKeys)
      ensures managesKeys && keyed ==> releasedKeys == old(releasedKeys)
    {
      hide TableSize;
      hide TableCapacity;
      hide Probed;
      hide Gather;
      hide Tally;
      var idx := RehashIndex(newItemCount);
      var oldValues, oldKeys, oldCounts := values, keys, counts;
      ghost var was := Slots();
      AllocateStores(idx);
      TableFits(idx);
      MoveEntries(oldValues, oldKeys, oldCounts, was);
      UsedIsOccupied(was);
      UsedIsOccupied(Slots());
    }

    // ------------------------------------------------------------ the three basic changes

    /** Gives a free bucket a new entry, counted once. */
    method FillBucket(i: nat, key: Word, value: Word)
      requires Shape() && Aligned() && i < values.Length && IsFree(values[i])
      requires !Reserved(key) && !Reserved(value) && (keyed || key == value)
      modifies values, keys, counts, `counts, `countsWidth, `releasedValues, `releasedKeys
      ensures Shape() && Aligned()
      ensures values == old(values) && keys == old(keys) && (counts == old(counts) || fresh(counts))
      ensures Slots() == old(Slots())[i := Full(key, value, 1)]
      ensures releasedValues == old(releasedValues)
      ensures managesKeys && keyed ==> releasedKeys == old(releasedKeys)
    {
      hide CountMax;
      hide DecodeStores;
      hide TableSize;
      PlaceEntry(i, key, value);
      if counted {
        CountFirst(i);
      }
    }

    /** Turns an occupied bucket that counts once into a tombstone, releasing what it held. */
    method ClearBucket(i: nat)
      requires Shape() && Aligned() && i < values.Length && Slots()[i].Full? && Slots()[i].count == 1
      modifies values, keys, counts, `releasedValues, `releasedKeys
      ensures Shape() && Aligned()
      ensures Slots() == old(Slots())[i := Deleted]
      ensures managesValues ==> releasedValues == old(releasedValues) + multiset{old(Slots())[i].value}
      ensures managesKeys && keyed ==> releasedKeys == old(releasedKeys) + multiset{old(Slots())[i].key}
    {
      hide CountMax;
      hide DecodeStores;
      hide TableSize;
      assert Slots()[i] == SlotAt(i);
      SetValue(i, AllOnes, false, true);
      if keyed {
        SetKey(i, AllOnes, false, true);
      }
      if counted {
        DecSlotCount(i);
      }
      assert Slots() == old(Slots())[i := Deleted];
    }

    /** Grows a full table, or claims the tombstone at `idx`; either way bucket `i` is ready for `key`. */
    method MakeRoom(idx: int, key: Word) returns (i: nat)
      requires Valid() && HasRoom()
      requires Located(keying, Slots(), key, Bucket(idx, 0, 0, 0))
      modifies this
      ensures Sound() && Balanced() && used == old(used) && used + 1 <= TableCapacity(numBucketsIdx)
      ensures Vacant(keying, Slots(), key, i) && Absent(keying, Slots(), key)
      ensures deleted == DeletedCount(Slots()) - if Slots()[i].Deleted? then 1 else 0
      ensures deleted < 0x1_0000 && (20 <= values.Length ==> deleted < values.Length / 4)
      ensures Contents() == old(Contents())
      ensures fresh(Repr() - old(Repr()))
      ensures retainedValues == old(retainedValues) && releasedValues == old(releasedValues)
      ensures retainedKeys == old(retainedKeys)
      ensures if old(used) + 1 <= TableCapacity(old(numBucketsIdx)) then numBucketsIdx == old(numBucketsIdx)
              else LeastIndex(numBucketsIdx, used + 1, if fastGrow then 1 else 0)
      ensures managesKeys && keyed ==> releasedKeys == old(releasedKeys)
    {
      hide CountMax;
      hide TableSize;
      hide TableCapacity;
      hide Probed;
      hide Gather;
      hide Tally;
      hide DecodeStores;
      hide Aligned;
      hide Entries;
      hide Absent;
      hide PathClear;
      ghost var was := Slots();
      TableFits(numBucketsIdx);
      if TableCapacity(numBucketsIdx) < used + 1 {
        i := GrowFor(key);
      } else {
        TallyAll(was, IsFull);
        i := idx;
        assert Slots()[i] == SlotAt(i);
        if values[i] == AllOnes {
          TallyAll(was, IsDeleted);
          deleted := deleted - 1;
        }
      }
    }

    /** Grows a full table and finds a bucket for `key` in it. */
    method GrowFor(key: Word) returns (i: nat)
      requires Valid() && used + 1 <= RoomLimit(fastGrow, 1) && Absent(keying, Slots(), key)
      modifies this
      ensures Sound() && Balanced() && used == old(used) && used + 1 <= TableCapacity(numBucketsIdx)
      ensures LeastIndex(numBucketsIdx, used + 1, if fastGrow then 1 else 0)
      ensures Vacant(keying, Slots(), key, i) && Absent(keying, Slots(), key)
      ensures deleted == 0 == DeletedCount(Slots()) && !Slots()[i].Deleted?
      ensures Contents() == old(Contents()) && fresh(values) && fresh(keys) && fresh(counts)
      ensures retainedValues == old(retainedValues) && releasedValues == old(releasedValues)
      ensures retainedKeys == old(retainedKeys)
      ensures managesKeys && keyed ==> releasedKeys == old(releasedKeys)
    {
      hide CountMax;
      hide TableSize;
      hide TableCapacity;
      hide Probed;
      hide Gather;
      hide Tally;
      hide DecodeStores;
      hide Aligned;
      hide Entries;
      hide Absent;
      hide PathClear;
      hide LeastIndex;
      ghost var was := Slots();
      Rehash(1);
      TableFits(numBucketsIdx);
      SameContents(keying, was, Slots());
      i := FindBucketNoCollision(key);
      TallyAll(Slots(), IsDeleted);
    }

    /** Overwrites an occupied bucket, releasing what it held; its count stays. */
    method OverwriteBucket(i: nat, key: Word, value: Word)
      requires Shape() && Aligned() && i < values.Length && Slots()[i].Full?
      requires !Reserved(key) && !Reserved(value) && (keyed || key == value)
      modifies values, keys, `releasedValues, `releasedKeys
      ensures Shape() && Aligned()
      ensures Slots() == old(Slots())[i := Full(key, value, old(Slots())[i].count)]
      ensures managesValues ==> releasedValues == old(releasedValues) + multiset{old(Slots())[i].value}
      ensures managesKeys && keyed ==> releasedKeys == old(releasedKeys) + multiset{old(Slots())[i].key}
    {
      hide TableSize;
      hide DecodeStores;
      assert Slots()[i] == SlotAt(i);
      PlaceEntry(i, key, value);
    }

    /** Retains a value and, in a keyed table, its key. */
    method Import(key: Word, value: Word)
      modifies `retainedValues, `retainedKeys
      ensures managesValues ==> retainedValues == old(retainedValues) + multiset{value}
      ensures managesKeys && keyed ==> retainedKeys == old(retainedKeys) + multiset{key}
    {
      if managesValues {
        retainedValues := retainedValues + multiset{value};
      }
      if keyed && managesKeys {
        retainedKeys := retainedKeys + multiset{key};
      }
    }

    /** Enters an absent key, growing the table when it is at capacity. */
    method AddEntry(idx: int, key: Word, value: Word)
      requires Valid() && HasRoom()
      requires !Reserved(key) && !Reserved(value) && (keyed || key == value)
      requires Located(keying, Slots(), key, Bucket(idx, 0, 0, 0))
      modifies Repr()
      ensures Valid() && fresh(Repr() - old(Repr()))
      ensures Contents() == old(Contents())[keying.rep(key) := Full(key, value, 1)]
      ensures used == old(used) + 1
      ensures if old(used) + 1 <= TableCapacity(old(numBucketsIdx)) then numBucketsIdx == old(numBucketsIdx)
              else LeastIndex(numBucketsIdx, used, if fastGrow then 1 else 0)
      ensures managesValues ==> retainedValues == old(retainedValues) + multiset{value} && releasedValues == old(releasedValues)
      ensures managesKeys && keyed ==> retainedKeys == old(retainedKeys) + multiset{key} && releasedKeys == old(releasedKeys)
    {
      hide CountMax;
      hide TableSize;
      hide TableCapacity;
      hide Probed;
      hide Gather;
      hide Tally;
      hide DecodeStores;
      hide Aligned;
      hide Entries;
      hide Absent;
      hide PathClear;
      var i := MakeRoom(idx, key);
      EnterAt(i, key, value);
    }

    /** Fills the bucket that room was made in; its tombstone, if it was one, is already discounted. */
    method EnterAt(i: nat, key: Word, value: Word)
      requires Sound() && Balanced() && used + 1 <= TableCapacity(numBucketsIdx)
      requires !Reserved(key) && !Reserved(value) && (keyed || key == value)
      requires Vacant(keying, Slots(), key, i) && Absent(keying, Slots(), key)
      requires deleted == DeletedCount(Slots()) - if Slots()[i].Deleted? then 1 else 0
      requires deleted < 0x1_0000 && (20 <= values.Length ==> deleted < values.Length / 4)
      modifies this, values, keys, counts
      ensures Valid() && values == old(values) && keys == old(keys) && (counts == old(counts) || fresh(counts))
      ensures Contents() == old(Contents())[keying.rep(key) := Full(key, value, 1)]
      ensures used == old(used) + 1
      ensures numBucketsIdx == old(numBucketsIdx)
      ensures managesValues ==> retainedValues == old(retainedValues) + multiset{value} && releasedValues == old(releasedValues)
      ensures managesKeys && keyed ==> retainedKeys == old(retainedKeys) + multiset{key} && releasedKeys == old(releasedKeys)
    {
      hide CountMax;
      hide TableSize;
      hide TableCapacity;
      hide Probed;
      hide Gather;
      hide Tally;
      hide DecodeStores;
      hide Aligned;
      hide Entries;
      hide Absent;
      hide Vacant;
      Import(key, value);
      OccupyBucket(i, key, value);
    }

    /** The part of an insertion that does not retain. */
    method OccupyBucket(i: nat, key: Word, value: Word)
      requires Sound() && !Reserved(key) && !Reserved(value) && (keyed || key == value)
      requires Vacant(keying, Slots(), key, i) && Absent(keying, Slots(), key)
      modifies values, keys, counts, `counts, `countsWidth, `releasedValues, `releasedKeys, `used
      ensures Sound() && used == old(used) + 1
      ensures values == old(values) && keys == old(keys) && (counts == old(counts) || fresh(counts))
      ensures Contents() == old(Contents())[keying.rep(key) := Full(key, value, 1)]
      ensures Gather(Slots(), ValueOf) == old(Gather(Slots(), ValueOf)) + multiset{value}
      ensures Gather(Slots(), KeyOf) == old(Gather(Slots(), KeyOf)) + multiset{key}
      ensures DeletedCount(Slots()) == old(DeletedCount(Slots()) - if Slots()[i].Deleted? then 1 else 0)
      ensures releasedValues == old(releasedValues)
      ensures managesKeys && keyed ==> releasedKeys == old(releasedKeys)
    {
      hide CountMax;
      hide TableSize;
      hide Probed;
      hide Gather;
      hide Tally;
      hide DecodeStores;
      hide Aligned;
      hide Entries;
      hide Absent;
      hide PathClear;
      ghost var was := Slots();
      assert was[i] == SlotAt(i);
      FillBucket(i, key, value);
      used := used + 1;
      InsertEffect(keying, was, i, Full(key, value, 1));
    }

    /** Overwrites the entry at `idx` by one with an equal key, keeping its count. */
    method ReplaceEntry(idx: nat, key: Word, value: Word)
      requires Valid() && idx < |Slots()| && Matches(keying, Slots()[idx], key)
      requires !Reserved(key) && !Reserved(value) && (keyed || key == value)
      modifies Repr()
      ensures Valid() && Repr() == old(Repr())
      ensures Contents() == old(Contents())[keying.rep(key) := Full(key, value, old(Slots())[idx].count)]
      ensures used == old(used)
      ensures managesValues ==> retainedValues == old(retainedValues) + multiset{value}
                                && releasedValues == old(releasedValues) + multiset{old(Slots())[idx].value}
      ensures managesKeys && keyed ==> retainedKeys == old(retainedKeys) + multiset{key}
                                       && releasedKeys == old(releasedKeys) + multiset{old(Slots())[idx].key}
    {
      hide TableSize;
      hide TableCapacity;
      hide Probed;
      hide Gather;
      hide Tally;
      hide DecodeStores;
      hide Aligned;
      hide Entries;
      ghost var was := Slots();
      Import(key, value);
      OverwriteBucket(idx, key, value);
      ReplaceEffect(keying, was, idx, Full(key, value, was[idx].count));
      if managesValues {
        Settle(old(retainedValues), old(releasedValues), Gather(was, ValueOf), Gather(Slots(), ValueOf),
               multiset{was[idx].value}, multiset{value});
      }
      if managesKeys && keyed {
        Settle(old(retainedKeys), old(releasedKeys), Gather(was, KeyOf), Gather(Slots(), KeyOf),
               multiset{was[idx].key}, multiset{key});
      }
    }

    /** What a removal does to the bucket itself and the two counters, the second of them 16 bits wide. */
    method DropEntry(idx: nat)
      requires Valid() && idx < |Slots()| && Slots()[idx].Full? && Slots()[idx].count == 1
      modifies values, keys, counts, `used, `deleted, `releasedValues, `releasedKeys
      ensures Sound() && Balanced() && used == old(used) - 1
      ensures Contents() == old(Contents()) - {keying.rep(old(Slots())[idx].key)}
      ensures DeletedCount(Slots()) == old(deleted) + 1 && deleted == (old(deleted) + 1) % 0x1_0000
      ensures managesValues ==> releasedValues == old(releasedValues) + multiset{old(Slots())[idx].value}
      ensures managesKeys && keyed ==> releasedKeys == old(releasedKeys) + multiset{old(Slots())[idx].key}
    {
      hide TableSize;
      hide TableCapacity;
      hide Probed;
      hide Gather;
      hide Tally;
      hide DecodeStores;
      hide Aligned;
      hide Entries;
      ghost var was := Slots();
      ClearBucket(idx);
      RemoveEffect(keying, was, idx);
      used := used - 1;
      deleted := (deleted + 1) % 0x1_0000;
      if managesValues {
        Settle(retainedValues, old(releasedValues), Gather(was, ValueOf), Gather(Slots(), ValueOf),
               multiset{was[idx].value}, multiset{});
      }
      if managesKeys && keyed {
        Settle(retainedKeys, old(releasedKeys), Gather(was, KeyOf), Gather(Slots(), KeyOf),
               multiset{was[idx].key}, multiset{});
      }
    }

    /** Whether the table is so empty that a removal moves it to smaller stores. */
    predicate TooLarge()
      requires numBucketsIdx <= LastIndex
      reads `numBucketsIdx, `used
    {
      if fastGrow then 5 < numBucketsIdx && used < TableCapacity(numBucketsIdx - 5)
      else 2 < numBucketsIdx && used < TableCapacity(numBucketsIdx - 2)
    }

    /**
     Removes the entry at `idx`, then shrinks the table, or purges its tombstones
     when their counter rolled over or they fill a quarter of a table of 20 or more.
     */
    method RemoveEntry(idx: nat)
      requires Valid() && idx < |Slots()| && Slots()[idx].Full? && Slots()[idx].count == 1
      modifies Repr()
      ensures Valid() && fresh(Repr() - old(Repr()))
      ensures Contents() == old(Contents()) - {keying.rep(old(Slots())[idx].key)}
      ensures used == old(used) - 1
      ensures var n := old(numBucketsIdx);
              if (if fastGrow then 5 < n && used < TableCapacity(n - 5) else 2 < n && used < TableCapacity(n - 2))
              then LeastIndex(numBucketsIdx, used, 0) else numBucketsIdx == n
      ensures managesValues ==> releasedValues == old(releasedValues) + multiset{old(Slots())[idx].value}
      ensures managesKeys && keyed ==> releasedKeys == old(releasedKeys) + multiset{old(Slots())[idx].key}
      ensures retainedValues == old(retainedValues) && retainedKeys == old(retainedKeys)
    {
      hide TableSize;
      hide TableCapacity;
      hide Probed;
      hide Gather;
      hide Tally;
      hide DecodeStores;
      hide Aligned;
      hide Entries;
      hide Absent;
      hide LeastIndex;
      hide CountMax;
      DropEntry(idx);
      ghost var was := Slots();
      var shrink := TooLarge();
      if shrink {
        CapacityGrows(numBucketsIdx - if fastGrow then 5 else 2, LastIndex);
        Rehash(-1);
        SameContents(keying, was, Slots());
      } else {
        var purge := deleted == 0 || (20 <= values.Length && values.Length / 4 <= deleted);
        if purge {
          Rehash(0);
          SameContents(keying, was, Slots());
        }
      }
    }

    /** Adds one to the count of an entry. */
    method CountUp(idx: nat)
      requires Valid() && counted && idx < |Slots()| && Slots()[idx].Full? && Slots()[idx].count < LongMax
      modifies counts, `counts, `countsWidth
      ensures Valid() && (counts == old(counts) || fresh(counts))
      ensures var s := old(Slots())[idx];
              Contents() == old(Contents())[keying.rep(s.key) := Full(s.key, s.value, s.count + 1)]
    {
      hide TableSize;
      hide TableCapacity;
      hide Probed;
      hide Gather;
      hide Tally;
      hide DecodeStores;
      hide Entries;
      ghost var was := Slots();
      ghost var s := Full(was[idx].key, was[idx].value, was[idx].count + 1);
      assert was[idx] == SlotAt(idx);
      IncSlotCount(idx);
      assert Slots() == was[idx := s];
      ReplaceEffect(keying, was, idx, s);
      SameManaged(keying, was, idx, s);
    }

    /** Takes one from the count of an entry that stays. */
    method CountDown(idx: nat)
      requires Valid() && counted && idx < |Slots()| && Slots()[idx].Full? && 1 < Slots()[idx].count
      modifies counts
      ensures Valid()
      ensures var s := old(Slots())[idx];
              Contents() == old(Contents())[keying.rep(s.key) := Full(s.key, s.value, s.count - 1)]
    {
      hide TableSize;
      hide TableCapacity;
      hide Probed;
      hide Gather;
      hide Tally;
      hide DecodeStores;
      hide Entries;
      ghost var was := Slots();
      ghost var s := Full(was[idx].key, was[idx].value, was[idx].count - 1);
      assert was[idx] == SlotAt(idx);
      DecSlotCount(idx);
      assert Slots() == was[idx := s];
      ReplaceEffect(keying, was, idx, s);
      SameManaged(keying, was, idx, s);
    }

    /** Releases every entry that the dropped stores spell out. */
    method ReleaseAll(oldValues: array<Word>, oldKeys: array<Word>, ghost was: seq<Slot>)
      requires |was| == oldValues.Length && oldKeys.Length == (if keyed then oldValues.Length else 0)
      requires forall i :: 0 <= i < |was| ==> (was[i].Full? <==> !IsFree(oldValues[i]))
      requires forall i :: 0 <= i < |was| && was[i].Full? ==> was[i].value == Decode(oldValues[i])
      requires forall i :: 0 <= i < |was| && was[i].Full? && keyed ==> was[i].key == Decode(oldKeys[i])
      modifies `releasedValues, `releasedKeys
      ensures managesValues ==> releasedValues == old(releasedValues) + Gather(was, ValueOf)
      ensures managesKeys && keyed ==> releasedKeys == old(releasedKeys) + Gather(was, KeyOf)
    {
      hide Gather;
      GatherNothing(was[..0], ValueOf);
      GatherNothing(was[..0], KeyOf);
      for i := 0 to oldValues.Length
        invariant managesValues ==> releasedValues == old(releasedValues) + Gather(was[..i], ValueOf)
        invariant managesKeys && keyed ==> releasedKeys == old(releasedKeys) + Gather(was[..i], KeyOf)
      {
        GatherStep(was, i, ValueOf);
        GatherStep(was, i, KeyOf);
        if !IsFree(oldValues[i]) {
          if managesValues {
            releasedValues := releasedValues + multiset{Decode(oldValues[i])};
          }
          if keyed && managesKeys {
            releasedKeys := releasedKeys + multiset{Decode(oldKeys[i])};
          }
        }
      }
      assert was[..|was|] == was;
    }

    /** Drops the stores and releases everything they held. */
    method Drain()
      requires Valid()
      modifies this
      ensures Valid() && fresh(Repr() - {this}) && Contents() == map[] && used == 0 && numBucketsIdx == 0
      ensures managesValues ==> releasedValues == old(releasedValues) + old(Gather(Slots(), ValueOf))
      ensures managesKeys && keyed ==> releasedKeys == old(releasedKeys) + old(Gather(Slots(), KeyOf))
      ensures retainedValues == old(retainedValues) && retainedKeys == old(retainedKeys)
    {
      hide CountMax;
      hide TableSize;
      hide TableCapacity;
      hide Probed;
      hide Gather;
      hide Tally;
      hide DecodeStores;
      hide Aligned;
      var oldValues, oldKeys := values, keys;
      ghost var was := Slots();
      assert forall i :: 0 <= i < |was| ==> was[i] == SlotAt(i);
      EmptyStores();
      ReleaseAll(oldValues, oldKeys, was);
    }

    method EmptyStores()
      requires countsWidth <= 3
      modifies `values, `keys, `counts, `numBucketsIdx, `deleted, `used
      ensures fresh(values) && fresh(keys) && fresh(counts)
      ensures Sound() && Contents() == map[] && used == 0 && deleted == 0 && values.Length == 0 && numBucketsIdx == 0
      ensures Gather(Slots(), ValueOf) == multiset{} && Gather(Slots(), KeyOf) == multiset{} && DeletedCount(Slots()) == 0
    {
      hide CountMax;
      hide TableCapacity;
      hide Probed;
      hide Gather;
      hide Tally;
      hide DecodeStores;
      hide Aligned;
      AllocateStores(0);
      used := 0;
      AllEmpty(keying, Slots());
      GatherNothing(Slots(), ValueOf);
      GatherNothing(Slots(), KeyOf);
    }

    // ------------------------------------------------------------ integer values

    /** Adds one to every value from `p` on, in place and without retaining or releasing. */
    method RenumberUp(p: Word)
      requires Shape() && Aligned() && keyed
      requires forall i :: 0 <= i < |Slots()| && Slots()[i].Full? ==> Slots()[i].value + 1 < SubABOne
      modifies values
      ensures Shape() && Aligned() && Slots() == Mapped(UpBy(p), old(Slots()))
      ensures Renumbers(old(Slots()), Slots())
    {
      hide CountMax;
      hide TableSize;
      hide DecodeStores;
      ghost var was := Slots();
      for i := 0 to values.Length
        modifies values
        invariant forall j :: 0 <= j < i ==> values[j] == UpWord(p, old(values[j]))
        invariant forall j :: i <= j < values.Length ==> values[j] == old(values[j])
      {
        if !IsFree(values[i]) {
          var value := Decode(values[i]);
          if p <= value {
            assert was[i].Full? && was[i].value == value;
            values[i] := Encode(value + 1);
          }
        }
      }
      forall j | 0 <= j < |was|
        ensures SlotAt(j) == Up(p, was[j]) && (IsFree(values[j]) <==> IsFree(old(values[j])))
      {
        UpCell(p, old(values[j]), keys[j], if counted then counts[j] else 1);
      }
    }

    /** Takes one from every value beyond `p` and finds the bucket that holds `p`. */
    method RenumberDown(p: Word) returns (found: int)
      requires Shape() && Aligned() && keyed
      requires forall i :: 0 <= i < |Slots()| && Slots()[i].Full? ==> Slots()[i].value < SubABOne
      modifies values
      ensures Shape() && Aligned() && Slots() == Mapped(DownBy(p), old(Slots()))
      ensures Renumbers(old(Slots()), Slots())
      ensures -1 <= found < |Slots()|
      ensures 0 <= found ==> old(Slots())[found].Full? && old(Slots())[found].value == p
      ensures found == -1 ==> forall i :: 0 <= i < |Slots()| && old(Slots())[i].Full? ==> old(Slots())[i].value != p
    {
      hide CountMax;
      hide TableSize;
      hide DecodeStores;
      ghost var was := Slots();
      found := -1;
      for i := 0 to values.Length
        modifies values
        invariant forall j :: 0 <= j < i ==> values[j] == DownWord(p, old(values[j]))
        invariant forall j :: i <= j < values.Length ==> values[j] == old(values[j])
        invariant -1 <= found < i && (0 <= found ==> !IsFree(old(values[found])) && Decode(old(values[found])) == p)
        invariant found == -1 ==> forall j :: 0 <= j < i && !IsFree(old(values[j])) ==> Decode(old(values[j])) != p
      {
        if !IsFree(values[i]) {
          var value := Decode(values[i]);
          if p == value {
            found := i;
          }
          if p < value {
            values[i] := Encode(value - 1);
          }
        }
      }
      forall j | 0 <= j < |was|
        ensures SlotAt(j) == Down(p, was[j]) && (IsFree(values[j]) <==> IsFree(old(values[j])))
        ensures was[j].Full? <==> !IsFree(old(values[j]))
        ensures was[j].Full? ==> was[j].value == Decode(old(values[j]))
      {
        DownCell(p, old(values[j]), keys[j], if counted then counts[j] else 1);
      }
    }
  }
}
