/**
 Whole runs of CFBasicHash operations against a reference that knows nothing of
 buckets: a dictionary of the stored keys and values, and a multiset of the keys.
 */
module HashRuns {
  import opened HashSlots
  import opened HashSizes
  import opened BasicHash
  import opened BasicHashOps

  // ---------------------------------------------------------------- the reference

  /** From the representative of a key to the key and the value stored for it. */
  type Dict = map<Word, (Word, Word)>

  /** One operation on the dictionary; `b` has the multiplicities, and only a last occurrence takes its entry along. */
  ghost function DictStep(d: Dict, b: multiset<Word>, kg: Keying, op: Op): Dict {
    match op
    case Add(key, value) => if kg.rep(key) in d then d else d[kg.rep(key) := (key, value)]
    case Set(key, value) => d[kg.rep(key) := (key, value)]
    case Replace(key, value) => if kg.rep(key) in d then d[kg.rep(key) := (key, value)] else d
    case Remove(key) => if Reserved(key) || 1 < b[kg.rep(key)] then d else d - {kg.rep(key)}
    case RemoveAll => map[]
    case Resize(_) => d
  }

  /** One operation on the bag of keys; without counts nothing occurs twice, with counts LongMax is sticky. */
  ghost function BagStep(b: multiset<Word>, kg: Keying, counted: bool, op: Op): multiset<Word> {
    match op
    case Add(key, _) => if b[kg.rep(key)] < (if counted then LongMax else 1) then b + multiset{kg.rep(key)} else b
    case Set(key, _) => if kg.rep(key) in b then b else b + multiset{kg.rep(key)}
    case Replace(_, _) => b
    case Remove(key) => if Reserved(key) || b[kg.rep(key)] >= LongMax then b else b - multiset{kg.rep(key)}
    case RemoveAll => multiset{}
    case Resize(_) => b
  }

  ghost function BagRun(b: multiset<Word>, kg: Keying, counted: bool, ops: seq<Op>): multiset<Word> {
    if ops == [] then b else BagStep(BagRun(b, kg, counted, ops[..|ops| - 1]), kg, counted, ops[|ops| - 1])
  }

  ghost function DictRun(d: Dict, b: multiset<Word>, kg: Keying, counted: bool, ops: seq<Op>): Dict {
    if ops == [] then d else
      var before := ops[..|ops| - 1];
      DictStep(DictRun(d, b, kg, counted, before), BagRun(b, kg, counted, before), kg, ops[|ops| - 1])
  }

  // ---------------------------------------------------------------- the views

  /** The entries a table can stand for: occupied buckets with counts in range, all 1 in a table without counts. */
  ghost predicate WellCounted(m: map<Word, Slot>, counted: bool) {
    forall k :: k in m ==> m[k].Full? && 1 <= m[k].count <= if counted then LongMax else 1
  }

  ghost function DictView(m: map<Word, Slot>): Dict
    requires forall k :: k in m ==> m[k].Full?
  {
    map k | k in m :: (m[k].key, m[k].value)
  }

  ghost predicate BagView(m: map<Word, Slot>, b: multiset<Word>)
    requires forall k :: k in m ==> m[k].Full?
  {
    forall k: Word :: b[k] == if k in m then m[k].count else 0
  }

  lemma ContentsWellCounted(ht: Table)
    requires ht.Sound()
    ensures WellCounted(ht.Contents(), ht.counted)
    ensures BagView(ht.Contents(), Bag(ht.keying, ht.Slots()))
  {
    var slots := ht.Slots();
    forall k: Word
      ensures Bag(ht.keying, slots)[k] == if k in ht.Contents() then ht.Contents()[k].count else 0
    {
      BagCounts(ht.keying, slots, k);
    }
    assert forall i :: 0 <= i < |slots| ==> slots[i] == ht.SlotAt(i);
  }

  /** In every table, each operation is the dictionary operation on stored keys and values. */
  lemma DictRefines(m: map<Word, Slot>, b: multiset<Word>, kg: Keying, counted: bool, op: Op)
    requires WellCounted(m, counted) && BagView(m, b)
    ensures WellCounted(Applied(m, kg, counted, op), counted)
    ensures DictView(Applied(m, kg, counted, op)) == DictStep(DictView(m), b, kg, op)
  {
    var d, d' := DictView(Applied(m, kg, counted, op)), DictStep(DictView(m), b, kg, op);
    if op.Add? || op.Remove? || op.Set? || op.Replace? {
      var key := kg.rep(op.key);
      assert b[key] == if key in m then m[key].count else 0;
      assert d.Keys == d'.Keys;
    }
  }

  /** In every table, each operation is the multiset operation on keys. */
  lemma BagRefines(m: map<Word, Slot>, b: multiset<Word>, kg: Keying, counted: bool, op: Op)
    requires WellCounted(m, counted) && BagView(m, b)
    ensures WellCounted(Applied(m, kg, counted, op), counted)
    ensures BagView(Applied(m, kg, counted, op), BagStep(b, kg, counted, op))
  {
    if op.Add? {
      BagAdd(m, b, kg, counted, op);
    } else if op.Remove? {
      BagRemove(m, b, kg, counted, op);
    } else if op.Set? {
      assert b[kg.rep(op.key)] == if kg.rep(op.key) in m then m[kg.rep(op.key)].count else 0;
    }
  }

  lemma BagAdd(m: map<Word, Slot>, b: multiset<Word>, kg: Keying, counted: bool, op: Op)
    requires WellCounted(m, counted) && BagView(m, b) && op.Add?
    ensures WellCounted(Applied(m, kg, counted, op), counted)
    ensures BagView(Applied(m, kg, counted, op), BagStep(b, kg, counted, op))
  {
    assert b[kg.rep(op.key)] == if kg.rep(op.key) in m then m[kg.rep(op.key)].count else 0;
  }

  lemma BagRemove(m: map<Word, Slot>, b: multiset<Word>, kg: Keying, counted: bool, op: Op)
    requires WellCounted(m, counted) && BagView(m, b) && op.Remove?
    ensures WellCounted(Applied(m, kg, counted, op), counted)
    ensures BagView(Applied(m, kg, counted, op), BagStep(b, kg, counted, op))
  {
    assert b[kg.rep(op.key)] == if kg.rep(op.key) in m then m[kg.rep(op.key)].count else 0;
  }

  lemma BagViewUnique(m: map<Word, Slot>, a: multiset<Word>, b: multiset<Word>)
    requires forall k :: k in m ==> m[k].Full?
    requires BagView(m, a) && BagView(m, b)
    ensures a == b
  {
  }

  // ---------------------------------------------------------------- runs

  /** The sizes allow the operation on a table with these entries; only a new key or a larger capacity needs room. */
  ghost predicate Fits(d: Dict, kg: Keying, fastGrow: bool, op: Op) {
    match op
    case Add(key, _) => kg.rep(key) in d || |d| + 1 <= RoomLimit(fastGrow, 1)
    case Set(key, _) => kg.rep(key) in d || |d| + 1 <= RoomLimit(fastGrow, 1)
    case Resize(capacity) => capacity <= |d| || capacity <= RoomLimit(fastGrow, capacity - |d|)
    case _ => true
  }

  lemma ViewSize(m: map<Word, Slot>)
    requires forall k :: k in m ==> m[k].Full?
    ensures |DictView(m)| == |m|
  {
    assert DictView(m).Keys == m.Keys;
  }

  method Step(ht: Table, op: Op)
    requires ht.Valid() && Admissible(ht.keyed, op) && Fits(DictView(ht.Contents()), ht.keying, ht.fastGrow, op)
    modifies ht.Repr()
    ensures ht.Valid() && fresh(ht.Repr() - old(ht.Repr()))
    ensures ht.Contents() == Applied(old(ht.Contents()), ht.keying, ht.counted, op)
  {
    hide Probed;
    hide Gather;
    hide Tally;
    hide Entries;
    hide TableCapacity;
    ProbedIsDistinct(ht.keying, ht.Slots());
    EntriesSize(ht.keying, ht.Slots());
    ViewSize(ht.Contents());
    match op
    case Add(k, v) => var _ := AddValue(ht, k, v);
    case Set(k, v) => BasicHashOps.SetValue(ht, k, v);
    case Replace(k, v) => ReplaceValue(ht, k, v);
    case Remove(k) => var _ := RemoveValue(ht, k);
    case RemoveAll => RemoveAllValues(ht);
    case Resize(c) => SetCapacity(ht, c);
  }

  /**
   Every run keeps the table equal to the reference, whatever rehashes happen on the
   way: the stored keys and values, and the multiplicities.  A run may be of any
   length: room is needed only where the entries reached so far do not have the key
   that is added.
   */
  method Run(ht: Table, ops: seq<Op>)
    requires ht.Valid() && forall i :: 0 <= i < |ops| ==> Admissible(ht.keyed, ops[i])
    requires forall i :: 0 <= i < |ops| ==>
               Fits(DictRun(DictView(ht.Contents()), Bag(ht.keying, ht.Slots()), ht.keying, ht.counted, ops[..i]),
                    ht.keying, ht.fastGrow, ops[i])
    modifies ht.Repr()
    ensures ht.Valid()
    ensures DictView(ht.Contents()) ==
            old(DictRun(DictView(ht.Contents()), Bag(ht.keying, ht.Slots()), ht.keying, ht.counted, ops))
    ensures Bag(ht.keying, ht.Slots()) == old(BagRun(Bag(ht.keying, ht.Slots()), ht.keying, ht.counted, ops))
  {
    hide Probed;
    hide Entries;
    hide Gather;
    hide Tally;
    hide Applied;
    hide DictStep;
    hide BagStep;
    hide Fits;
    assert ops[..0] == [];
    ghost var d0, b0 := DictView(ht.Contents()), Bag(ht.keying, ht.Slots());
    for i := 0 to |ops|
      invariant ht.Valid() && fresh(ht.Repr() - old(ht.Repr()))
      invariant DictView(ht.Contents()) == DictRun(d0, b0, ht.keying, ht.counted, ops[..i])
      invariant Bag(ht.keying, ht.Slots()) == BagRun(b0, ht.keying, ht.counted, ops[..i])
    {
      assert ops[..i + 1][..i] == ops[..i];
      RefinedStep(ht, ops[i]);
    }
    assert ops[..|ops|] == ops;
  }

  /** One operation on the table is that operation on the reference. */
  method RefinedStep(ht: Table, op: Op)
    requires ht.Valid() && Admissible(ht.keyed, op) && Fits(DictView(ht.Contents()), ht.keying, ht.fastGrow, op)
    modifies ht.Repr()
    ensures ht.Valid() && fresh(ht.Repr() - old(ht.Repr()))
    ensures DictView(ht.Contents()) == old(DictStep(DictView(ht.Contents()), Bag(ht.keying, ht.Slots()), ht.keying, op))
    ensures Bag(ht.keying, ht.Slots()) == old(BagStep(Bag(ht.keying, ht.Slots()), ht.keying, ht.counted, op))
  {
    hide Probed;
    hide Entries;
    hide Gather;
    hide Tally;
    hide Applied;
    hide DictStep;
    hide BagStep;
    hide Fits;
    ContentsWellCounted(ht);
    ghost var m, b := ht.Contents(), Bag(ht.keying, ht.Slots());
    Step(ht, op);
    DictRefines(m, b, ht.keying, ht.counted, op);
    BagRefines(m, b, ht.keying, ht.counted, op);
    ContentsWellCounted(ht);
    BagViewUnique(ht.Contents(), Bag(ht.keying, ht.Slots()), BagStep(b, ht.keying, ht.counted, op));
  }
}
