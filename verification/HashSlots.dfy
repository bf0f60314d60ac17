/**
 The abstract bucket array of CFBasicHash: what a probe sequence may rely on, and
 what a change of one bucket does to the contents.  Nothing here mentions the
 sentinel words; BasicHash decodes its stores into a `seq<Slot>`.
 */
module HashSlots {

  /** A `uintptr_t` on LP64. */
  type Word = w: nat | w < 0x1_0000_0000_0000_0000

  /** A decoded bucket. */
  datatype Slot = Empty | Deleted | Full(key: Word, value: Word, count: nat)

  /**
   The key callbacks.  Two keys are equal when they have the same representative,
   and the hash is a function of the representative: every equivalence relation
   with a compatible hash has this form.  Without callbacks both are the identity.
   */
  datatype Keying = Keying(rep: Word -> Word, hash: Word -> nat)

  // ---------------------------------------------------------------- probe order

  /** The bucket reached after `t` probes from `h` in a table of `n` buckets. */
  function At(h: nat, t: nat, n: nat): (i: nat)
    requires h < n && t < n
    ensures i < n
  {
    if h + t < n then h + t else h + t - n
  }

  /** How many probes it takes to get from `h` to bucket `i`. */
  function Dist(h: nat, i: nat, n: nat): (t: nat)
    requires h < n && i < n
    ensures t < n && At(h, t, n) == i
  {
    if h <= i then i - h else i + n - h
  }

  /** The first bucket probed for key `k`. */
  function Home(kg: Keying, k: Word, n: nat): (h: nat)
    requires n > 0
    ensures h < n
  {
    kg.hash(kg.rep(k)) % n
  }

  /** No empty bucket precedes bucket `i` on the probe sequence from `h`. */
  ghost predicate PathClear(slots: seq<Slot>, h: nat, i: nat)
    requires h < |slots| && i < |slots|
  {
    forall t :: 0 <= t < Dist(h, i, |slots|) ==> !slots[At(h, t, |slots|)].Empty?
  }

  ghost predicate Reachable(kg: Keying, slots: seq<Slot>) {
    forall i :: 0 <= i < |slots| && slots[i].Full? ==>
      PathClear(slots, Home(kg, slots[i].key, |slots|), i)
  }

  ghost predicate DistinctKeys(kg: Keying, slots: seq<Slot>) {
    forall i, j :: 0 <= i < j < |slots| && slots[i].Full? && slots[j].Full? ==>
      kg.rep(slots[i].key) != kg.rep(slots[j].key)
  }

  /** The invariant that makes probing find exactly the stored keys. */
  ghost predicate Probed(kg: Keying, slots: seq<Slot>) {
    && DistinctKeys(kg, slots)
    && Reachable(kg, slots)
  }

  predicate Matches(kg: Keying, s: Slot, k: Word) {
    s.Full? && kg.rep(s.key) == kg.rep(k)
  }

  ghost predicate Absent(kg: Keying, slots: seq<Slot>, k: Word) {
    forall i :: 0 <= i < |slots| ==> !Matches(kg, slots[i], k)
  }

  /** The probe for `k` has seen `t` buckets, none empty and none holding `k`. */
  ghost predicate Passed(kg: Keying, slots: seq<Slot>, k: Word, t: nat)
    requires 0 < |slots| && t <= |slots|
  {
    forall u :: 0 <= u < t ==>
      var s := slots[At(Home(kg, k, |slots|), u, |slots|)];
      !s.Empty? && !Matches(kg, s, k)
  }

  /** An empty bucket, or the end of the probe sequence, proves the key absent. */
  lemma ProbeProvesAbsence(kg: Keying, slots: seq<Slot>, k: Word, t: nat)
    requires 0 < |slots| && t <= |slots|
    requires Reachable(kg, slots) && Passed(kg, slots, k, t)
    requires t < |slots| ==> slots[At(Home(kg, k, |slots|), t, |slots|)].Empty?
    ensures Absent(kg, slots, k)
  {
    var n := |slots|;
    var h := Home(kg, k, n);
    forall i | 0 <= i < n
      ensures !Matches(kg, slots[i], k)
    {
      var d := Dist(h, i, n);
      if d < t {
        assert !Matches(kg, slots[At(h, d, n)], k);
      } else if d > t {
        assert slots[At(h, t, n)].Empty?;
        assert !PathClear(slots, h, i);
      }
    }
  }

  /** The first `t` buckets probed from `h` are occupied. */
  ghost predicate Crowded(slots: seq<Slot>, h: nat, t: nat)
    requires h < |slots| && t <= |slots|
  {
    forall u :: 0 <= u < t ==> slots[At(h, u, |slots|)].Full?
  }

  lemma CrowdedAll(slots: seq<Slot>, h: nat)
    requires h < |slots| && Crowded(slots, h, |slots|)
    ensures forall i :: 0 <= i < |slots| ==> slots[i].Full?
  {
    forall i | 0 <= i < |slots|
      ensures slots[i].Full?
    {
      assert slots[At(h, Dist(h, i, |slots|), |slots|)].Full?;
    }
  }

  lemma PassedPath(kg: Keying, slots: seq<Slot>, k: Word, t: nat)
    requires t < |slots| && Passed(kg, slots, k, t)
    ensures PathClear(slots, Home(kg, k, |slots|), At(Home(kg, k, |slots|), t, |slots|))
  {
  }

  lemma CrowdedPath(slots: seq<Slot>, h: nat, t: nat)
    requires h < |slots| && t < |slots| && Crowded(slots, h, t)
    ensures PathClear(slots, h, At(h, t, |slots|))
  {
  }

  // ---------------------------------------------------------------- contents

  /** Everything `f` finds in the buckets, counted with multiplicity. */
  ghost function Gather<T>(slots: seq<Slot>, f: Slot -> multiset<T>): multiset<T> {
    if slots == [] then multiset{} else Gather(slots[..|slots| - 1], f) + f(slots[|slots| - 1])
  }

  ghost function Occupied(s: Slot): multiset<Slot> { if s.Full? then multiset{s} else multiset{} }
  ghost function ValueOf(s: Slot): multiset<Word> { if s.Full? then multiset{s.value} else multiset{} }
  ghost function KeyOf(s: Slot): multiset<Word> { if s.Full? then multiset{s.key} else multiset{} }

  ghost function CopiesOf(kg: Keying): Slot -> multiset<Word> {
    (s: Slot) => if s.Full? then multiset{}[kg.rep(s.key) := s.count] else multiset{}
  }

  /** The multiset of keys (by representative) that a counted table stands for. */
  ghost function Bag(kg: Keying, slots: seq<Slot>): multiset<Word> {
    Gather(slots, CopiesOf(kg))
  }

  /** How many buckets satisfy `p`. */
  ghost function Tally(slots: seq<Slot>, p: Slot -> bool): nat {
    if slots == [] then 0 else Tally(slots[..|slots| - 1], p) + if p(slots[|slots| - 1]) then 1 else 0
  }

  ghost predicate IsFull(s: Slot) { s.Full? }
  ghost predicate IsDeleted(s: Slot) { s.Deleted? }

  ghost function UsedCount(slots: seq<Slot>): nat { Tally(slots, IsFull) }
  ghost function DeletedCount(slots: seq<Slot>): nat { Tally(slots, IsDeleted) }

  /** The map a table stands for: representative of the key to the stored bucket. */
  ghost function Entries(kg: Keying, slots: seq<Slot>): map<Word, Slot>
    requires DistinctKeys(kg, slots)
  {
    map i | 0 <= i < |slots| && slots[i].Full? :: kg.rep(slots[i].key) := slots[i]
  }

  lemma {:induction false} GatherUpdate<T>(slots: seq<Slot>, i: nat, s: Slot, f: Slot -> multiset<T>)
    requires i < |slots|
    ensures Gather(slots[i := s], f) + f(slots[i]) == Gather(slots, f) + f(s)
  {
    var n := |slots| - 1;
    var upd := slots[i := s];
    if i == n {
      assert upd[..n] == slots[..n];
    } else {
      GatherUpdate(slots[..n], i, s, f);
      assert upd[..n] == slots[..n][i := s];
      Regroup(Gather(slots[..n][i := s], f), f(slots[n]), f(slots[i]), Gather(slots[..n], f), f(s));
    }
  }

  lemma Regroup<T>(x: multiset<T>, last: multiset<T>, was: multiset<T>, y: multiset<T>, now: multiset<T>)
    requires x + was == y + now
    ensures (x + last) + was == (y + last) + now
  {
    assert (x + last) + was == (x + was) + last;
  }

  lemma {:induction false} TallyUpdate(slots: seq<Slot>, i: nat, s: Slot, p: Slot -> bool)
    requires i < |slots|
    ensures Tally(slots[i := s], p) + (if p(slots[i]) then 1 else 0) == Tally(slots, p) + if p(s) then 1 else 0
  {
    var n := |slots| - 1;
    if i == n {
      assert slots[i := s][..n] == slots[..n];
    } else {
      TallyUpdate(slots[..n], i, s, p);
      assert slots[i := s][..n] == slots[..n][i := s];
    }
  }

  lemma {:induction false} GatherPrefix<T>(slots: seq<Slot>, m: nat, f: Slot -> multiset<T>)
    requires m <= |slots|
    ensures Gather(slots[..m], f) <= Gather(slots, f)
  {
    if m < |slots| {
      GatherPrefix(slots[..|slots| - 1], m, f);
      assert slots[..|slots| - 1][..m] == slots[..m];
    } else {
      assert slots[..m] == slots;
    }
  }

  lemma {:induction false} GatherNothing<T>(slots: seq<Slot>, f: Slot -> multiset<T>)
    requires forall i :: 0 <= i < |slots| ==> f(slots[i]) == multiset{}
    ensures Gather(slots, f) == multiset{}
  {
    if slots != [] {
      GatherNothing(slots[..|slots| - 1], f);
    }
  }

  lemma {:induction false} OccupiedMember(slots: seq<Slot>, s: Slot)
    ensures s in Gather(slots, Occupied) <==> s.Full? && s in slots
  {
    if slots != [] {
      var n := |slots| - 1;
      OccupiedMember(slots[..n], s);
      assert slots == slots[..n] + [slots[n]];
    }
  }

  lemma {:induction false} UsedIsOccupied(slots: seq<Slot>)
    ensures UsedCount(slots) == |Gather(slots, Occupied)|
  {
    if slots != [] {
      UsedIsOccupied(slots[..|slots| - 1]);
    }
  }

  /** Occupied and deleted buckets never exceed the buckets there are. */
  lemma {:induction false} CountsFit(slots: seq<Slot>)
    ensures UsedCount(slots) + DeletedCount(slots) <= |slots|
  {
    if slots != [] {
      CountsFit(slots[..|slots| - 1]);
    }
  }

  lemma {:induction false} TallyAll(slots: seq<Slot>, p: Slot -> bool)
    ensures Tally(slots, p) <= |slots|
    ensures Tally(slots, p) == |slots| <==> forall i :: 0 <= i < |slots| ==> p(slots[i])
    ensures Tally(slots, p) == 0 <==> forall i :: 0 <= i < |slots| ==> !p(slots[i])
  {
    if slots != [] {
      TallyAll(slots[..|slots| - 1], p);
    }
  }

  lemma Cancel<T>(x: multiset<T>, y: multiset<T>, z: multiset<T>)
    requires x + z == y + z
    ensures x == y
  {
    assert x == (x + z) - z && y == (y + z) - z;
  }

  /** What the occupied buckets contain does not depend on where they sit. */
  lemma {:induction false} GatherDetermined<T>(a: seq<Slot>, b: seq<Slot>, f: Slot -> multiset<T>)
    requires Gather(a, Occupied) == Gather(b, Occupied)
    requires f(Empty) == f(Deleted) == multiset{}
    ensures Gather(a, f) == Gather(b, f)
    decreases |a|
  {
    if a == [] {
      forall i | 0 <= i < |b|
        ensures f(b[i]) == multiset{}
      {
        OccupiedMember(b, b[i]);
        assert b[i] in b;
      }
      GatherNothing(b, f);
    } else {
      var n := |a| - 1;
      var last := a[n];
      if last.Full? {
        OccupiedMember(a, last);
        OccupiedMember(b, last);
        var j :| 0 <= j < |b| && b[j] == last;
        GatherUpdate(b, j, Empty, Occupied);
        GatherUpdate(b, j, Empty, f);
        assert Gather(a, Occupied) == Gather(a[..n], Occupied) + multiset{last};
        assert Gather(b[j := Empty], Occupied) + multiset{last} == Gather(b, Occupied);
        assert Gather(a[..n], Occupied) == Gather(b[j := Empty], Occupied) by {
          Cancel(Gather(a[..n], Occupied), Gather(b[j := Empty], Occupied), multiset{last});
        }
        GatherDetermined(a[..n], b[j := Empty], f);
      } else {
        GatherDetermined(a[..n], b, f);
      }
    }
  }

  lemma AllEmpty(kg: Keying, slots: seq<Slot>)
    requires forall i :: 0 <= i < |slots| ==> slots[i].Empty?
    ensures Probed(kg, slots) && UsedCount(slots) == DeletedCount(slots) == 0
    ensures Gather(slots, Occupied) == multiset{}
  {
    TallyAll(slots, IsFull);
    TallyAll(slots, IsDeleted);
    GatherNothing(slots, Occupied);
  }

  /** A rehash that has moved the first `m` buckets has not yet met the key of bucket `m`. */
  lemma MovedPrefix(kg: Keying, slots: seq<Slot>, m: nat, moved: seq<Slot>)
    requires m < |slots| && DistinctKeys(kg, slots) && slots[m].Full?
    requires Gather(moved, Occupied) == Gather(slots[..m], Occupied)
    ensures Absent(kg, moved, slots[m].key)
    ensures UsedCount(moved) < UsedCount(slots)
    ensures Gather(slots[..m + 1], Occupied) == Gather(moved, Occupied) + multiset{slots[m]}
  {
    forall i | 0 <= i < |moved|
      ensures !Matches(kg, moved[i], slots[m].key)
    {
      OccupiedMember(moved, moved[i]);
      OccupiedMember(slots[..m], moved[i]);
    }
    assert slots[..m + 1][..m] == slots[..m];
    GatherPrefix(slots, m + 1, Occupied);
    UsedIsOccupied(moved);
    UsedIsOccupied(slots);
    MultisetBound(Gather(moved, Occupied) + multiset{slots[m]}, Gather(slots, Occupied));
  }

  lemma GatherStep<T>(slots: seq<Slot>, m: nat, f: Slot -> multiset<T>)
    requires m < |slots|
    ensures Gather(slots[..m + 1], f) == Gather(slots[..m], f) + f(slots[m])
  {
    assert slots[..m + 1][..m] == slots[..m];
  }

  /** Changing only a count changes neither the stored values nor the stored keys. */
  lemma SameManaged(kg: Keying, slots: seq<Slot>, i: nat, s: Slot)
    requires i < |slots| && slots[i].Full? && s.Full? && s.key == slots[i].key && s.value == slots[i].value
    ensures Gather(slots[i := s], ValueOf) == Gather(slots, ValueOf)
    ensures Gather(slots[i := s], KeyOf) == Gather(slots, KeyOf)
  {
    GatherUpdate(slots, i, s, ValueOf);
    GatherUpdate(slots, i, s, KeyOf);
    Cancel(Gather(slots[i := s], ValueOf), Gather(slots, ValueOf), multiset{s.value});
    Cancel(Gather(slots[i := s], KeyOf), Gather(slots, KeyOf), multiset{s.key});
  }

  lemma SkipFree(slots: seq<Slot>, m: nat)
    requires m < |slots| && !slots[m].Full?
    ensures Gather(slots[..m + 1], Occupied) == Gather(slots[..m], Occupied)
  {
    assert slots[..m + 1][..m] == slots[..m];
  }

  lemma ProbedIsDistinct(kg: Keying, slots: seq<Slot>)
    requires Probed(kg, slots)
    ensures DistinctKeys(kg, slots)
  {
  }

  lemma MultisetBound<T>(x: multiset<T>, y: multiset<T>)
    requires x <= y
    ensures |x| <= |y|
  {
    assert y == x + (y - x);
  }

  lemma EntriesDetermined(kg: Keying, a: seq<Slot>, b: seq<Slot>)
    requires DistinctKeys(kg, a) && DistinctKeys(kg, b)
    requires Gather(a, Occupied) == Gather(b, Occupied)
    ensures Entries(kg, a) == Entries(kg, b)
  {
    EntriesIncluded(kg, a, b);
    EntriesIncluded(kg, b, a);
  }

  lemma EntriesIncluded(kg: Keying, a: seq<Slot>, b: seq<Slot>)
    requires DistinctKeys(kg, a) && DistinctKeys(kg, b)
    requires Gather(a, Occupied) == Gather(b, Occupied)
    ensures forall k :: k in Entries(kg, a) ==> k in Entries(kg, b) && Entries(kg, a)[k] == Entries(kg, b)[k]
  {
    forall k | k in Entries(kg, a)
      ensures k in Entries(kg, b) && Entries(kg, a)[k] == Entries(kg, b)[k]
    {
      var i :| 0 <= i < |a| && a[i].Full? && kg.rep(a[i].key) == k;
      OccupiedMember(a, a[i]);
      OccupiedMember(b, a[i]);
    }
  }

  /** The entries of a table, one bucket at a time. */
  lemma EntriesSnoc(kg: Keying, slots: seq<Slot>)
    requires slots != [] && DistinctKeys(kg, slots)
    ensures DistinctKeys(kg, slots[..|slots| - 1])
    ensures var last, before := slots[|slots| - 1], Entries(kg, slots[..|slots| - 1]);
            if last.Full? then
              kg.rep(last.key) !in before && Entries(kg, slots) == before[kg.rep(last.key) := last]
            else
              Entries(kg, slots) == before
  {
    hide Entries;
    var n := |slots| - 1;
    var init, e := slots[..n], Entries(kg, slots);
    var e0 := Entries(kg, init);
    forall k | k in e
      ensures if slots[n].Full? && k == kg.rep(slots[n].key) then e[k] == slots[n] else k in e0 && e0[k] == e[k]
    {
      var i := EntryHolder(kg, slots, k);
      if i < n {
        EntryOf(kg, init, i);
      }
    }
    forall k | k in e0
      ensures k in e && e0[k] == e[k] && !(slots[n].Full? && k == kg.rep(slots[n].key))
    {
      var i := EntryHolder(kg, init, k);
      EntryOf(kg, slots, i);
    }
    if slots[n].Full? {
      EntryOf(kg, slots, n);
    }
  }

  lemma EntryOf(kg: Keying, slots: seq<Slot>, i: nat)
    requires DistinctKeys(kg, slots) && i < |slots| && slots[i].Full?
    ensures kg.rep(slots[i].key) in Entries(kg, slots) && Entries(kg, slots)[kg.rep(slots[i].key)] == slots[i]
  {
  }

  lemma EntryHolder(kg: Keying, slots: seq<Slot>, k: Word) returns (i: nat)
    requires DistinctKeys(kg, slots) && k in Entries(kg, slots)
    ensures i < |slots| && slots[i].Full? && kg.rep(slots[i].key) == k && Entries(kg, slots)[k] == slots[i]
  {
    i :| 0 <= i < |slots| && slots[i].Full? && kg.rep(slots[i].key) == k;
  }

  /** A map has one entry per occupied bucket. */
  lemma {:induction false} EntriesSize(kg: Keying, slots: seq<Slot>)
    requires DistinctKeys(kg, slots)
    ensures |Entries(kg, slots)| == UsedCount(slots)
  {
    if slots == [] {
      assert Entries(kg, slots) == map[];
    } else {
      EntriesSnoc(kg, slots);
      EntriesSize(kg, slots[..|slots| - 1]);
    }
  }

  /** A key's multiplicity in the bag is the count stored with its entry. */
  lemma {:induction false} BagCounts(kg: Keying, slots: seq<Slot>, k: Word)
    requires DistinctKeys(kg, slots)
    ensures Bag(kg, slots)[k] == if k in Entries(kg, slots) then Entries(kg, slots)[k].count else 0
  {
    if slots != [] {
      EntriesSnoc(kg, slots);
      BagCounts(kg, slots[..|slots| - 1], k);
    }
  }

  // ---------------------------------------------------------------- one bucket changes

  /** Filling a free bucket on the probe path of a key that is absent. */
  lemma InsertKeeps(kg: Keying, slots: seq<Slot>, i: nat, s: Slot)
    requires i < |slots| && Probed(kg, slots) && !slots[i].Full? && s.Full?
    requires Absent(kg, slots, s.key)
    requires PathClear(slots, Home(kg, s.key, |slots|), i)
    ensures Probed(kg, slots[i := s])
    ensures Entries(kg, slots[i := s]) == Entries(kg, slots)[kg.rep(s.key) := s]
    ensures kg.rep(s.key) !in Entries(kg, slots)
  {
    var upd := slots[i := s];
    StillReachable(kg, slots, i, s);
    assert DistinctKeys(kg, upd) by {
      forall a, b | 0 <= a < b < |upd| && upd[a].Full? && upd[b].Full?
        ensures kg.rep(upd[a].key) != kg.rep(upd[b].key)
      {
        assert !Matches(kg, slots[a], s.key) && !Matches(kg, slots[b], s.key);
      }
    }
    AbsentMeansNoEntry(kg, slots, s.key);
    EntriesAfter(kg, slots, i, s);
  }

  /** All that filling a free bucket does to the tallies and the contents. */
  lemma InsertEffect(kg: Keying, slots: seq<Slot>, i: nat, s: Slot)
    requires i < |slots| && Probed(kg, slots) && !slots[i].Full? && s.Full?
    requires Absent(kg, slots, s.key)
    requires PathClear(slots, Home(kg, s.key, |slots|), i)
    ensures Probed(kg, slots[i := s])
    ensures Entries(kg, slots[i := s]) == Entries(kg, slots)[kg.rep(s.key) := s]
    ensures Gather(slots[i := s], Occupied) == Gather(slots, Occupied) + multiset{s}
    ensures Gather(slots[i := s], ValueOf) == Gather(slots, ValueOf) + multiset{s.value}
    ensures Gather(slots[i := s], KeyOf) == Gather(slots, KeyOf) + multiset{s.key}
    ensures UsedCount(slots[i := s]) == UsedCount(slots) + 1
    ensures DeletedCount(slots[i := s]) == DeletedCount(slots) - if slots[i].Deleted? then 1 else 0
  {
    InsertKeeps(kg, slots, i, s);
    GatherUpdate(slots, i, s, Occupied);
    GatherUpdate(slots, i, s, ValueOf);
    GatherUpdate(slots, i, s, KeyOf);
    TallyUpdate(slots, i, s, IsFull);
    TallyUpdate(slots, i, s, IsDeleted);
  }

  lemma StillReachable(kg: Keying, slots: seq<Slot>, i: nat, s: Slot)
    requires i < |slots| && Reachable(kg, slots) && !s.Empty?
    requires s.Full? ==> PathClear(slots, Home(kg, s.key, |slots|), i)
    ensures Reachable(kg, slots[i := s])
  {
  }

  lemma EntriesAfter(kg: Keying, slots: seq<Slot>, i: nat, s: Slot)
    requires i < |slots| && s.Full? && DistinctKeys(kg, slots) && DistinctKeys(kg, slots[i := s])
    requires slots[i].Full? ==> Matches(kg, slots[i], s.key)
    ensures Entries(kg, slots[i := s]) == Entries(kg, slots)[kg.rep(s.key) := s]
  {
    var upd := slots[i := s];
    assert upd[i] == s;
    EntriesElsewhere(kg, slots, upd, i);
    EntriesElsewhere(kg, upd, slots, i);
  }

  /** Entries of one table whose bucket is not `i` are entries of any table that agrees off `i`. */
  lemma EntriesElsewhere(kg: Keying, a: seq<Slot>, b: seq<Slot>, i: nat)
    requires |a| == |b| && i < |a| && DistinctKeys(kg, a) && DistinctKeys(kg, b)
    requires forall j :: 0 <= j < |a| && j != i ==> a[j] == b[j]
    ensures forall k :: k in Entries(kg, a) && !(a[i].Full? && kg.rep(a[i].key) == k) ==>
              k in Entries(kg, b) && Entries(kg, b)[k] == Entries(kg, a)[k]
  {
  }

  /** Overwriting an entry by one with an equal key. */
  lemma ReplaceKeeps(kg: Keying, slots: seq<Slot>, i: nat, s: Slot)
    requires i < |slots| && Probed(kg, slots) && s.Full? && Matches(kg, slots[i], s.key)
    ensures Probed(kg, slots[i := s])
    ensures Entries(kg, slots[i := s]) == Entries(kg, slots)[kg.rep(s.key) := s]
  {
    assert PathClear(slots, Home(kg, slots[i].key, |slots|), i);
    StillReachable(kg, slots, i, s);
    EntriesAfter(kg, slots, i, s);
  }

  /** Turning an entry into a tombstone removes exactly its key. */
  lemma RemoveKeeps(kg: Keying, slots: seq<Slot>, i: nat)
    requires i < |slots| && Probed(kg, slots) && slots[i].Full?
    ensures Probed(kg, slots[i := Deleted])
    ensures Entries(kg, slots[i := Deleted]) == Entries(kg, slots) - {kg.rep(slots[i].key)}
  {
    var upd := slots[i := Deleted];
    StillReachable(kg, slots, i, Deleted);
    EntriesElsewhere(kg, slots, upd, i);
    EntriesElsewhere(kg, upd, slots, i);
    assert forall j :: 0 <= j < |upd| && upd[j].Full? ==> kg.rep(upd[j].key) != kg.rep(slots[i].key);
  }

  /** Exchanging `gone` for `come` in the contents keeps retains and releases in balance. */
  lemma Settle<T>(retained: multiset<T>, released: multiset<T>, before: multiset<T>, after: multiset<T>,
                  gone: multiset<T>, come: multiset<T>)
    requires retained == released + before && after + gone == before + come
    ensures retained + come == released + gone + after
  {
    assert retained + come == released + (before + come);
    assert released + gone + after == released + (after + gone);
  }

  /** All that deleting an entry does to the tallies and the contents. */
  lemma RemoveEffect(kg: Keying, slots: seq<Slot>, i: nat)
    requires i < |slots| && Probed(kg, slots) && slots[i].Full?
    ensures Probed(kg, slots[i := Deleted])
    ensures Entries(kg, slots[i := Deleted]) == Entries(kg, slots) - {kg.rep(slots[i].key)}
    ensures Gather(slots[i := Deleted], ValueOf) + multiset{slots[i].value} == Gather(slots, ValueOf)
    ensures Gather(slots[i := Deleted], KeyOf) + multiset{slots[i].key} == Gather(slots, KeyOf)
    ensures UsedCount(slots[i := Deleted]) == UsedCount(slots) - 1
    ensures DeletedCount(slots[i := Deleted]) == DeletedCount(slots) + 1
  {
    RemoveKeeps(kg, slots, i);
    GatherUpdate(slots, i, Deleted, ValueOf);
    GatherUpdate(slots, i, Deleted, KeyOf);
    TallyUpdate(slots, i, Deleted, IsFull);
    TallyUpdate(slots, i, Deleted, IsDeleted);
  }

  /** All that overwriting an entry by one with an equal key does. */
  lemma ReplaceEffect(kg: Keying, slots: seq<Slot>, i: nat, s: Slot)
    requires i < |slots| && Probed(kg, slots) && s.Full? && Matches(kg, slots[i], s.key)
    ensures Probed(kg, slots[i := s])
    ensures Entries(kg, slots[i := s]) == Entries(kg, slots)[kg.rep(s.key) := s]
    ensures Gather(slots[i := s], ValueOf) + multiset{slots[i].value} == Gather(slots, ValueOf) + multiset{s.value}
    ensures Gather(slots[i := s], KeyOf) + multiset{slots[i].key} == Gather(slots, KeyOf) + multiset{s.key}
    ensures UsedCount(slots[i := s]) == UsedCount(slots)
    ensures DeletedCount(slots[i := s]) == DeletedCount(slots)
  {
    ReplaceKeeps(kg, slots, i, s);
    GatherUpdate(slots, i, s, ValueOf);
    GatherUpdate(slots, i, s, KeyOf);
    TallyUpdate(slots, i, s, IsFull);
    TallyUpdate(slots, i, s, IsDeleted);
  }

  /** Two tables with the same occupied buckets stand for the same contents. */
  lemma SameContents(kg: Keying, a: seq<Slot>, b: seq<Slot>)
    requires Probed(kg, a) && Probed(kg, b) && Gather(a, Occupied) == Gather(b, Occupied)
    ensures Entries(kg, a) == Entries(kg, b)
    ensures Gather(a, ValueOf) == Gather(b, ValueOf) && Gather(a, KeyOf) == Gather(b, KeyOf)
    ensures Bag(kg, a) == Bag(kg, b)
    ensures forall k :: Absent(kg, a, k) <==> Absent(kg, b, k)
  {
    EntriesDetermined(kg, a, b);
    GatherDetermined(a, b, ValueOf);
    GatherDetermined(a, b, KeyOf);
    GatherDetermined(a, b, CopiesOf(kg));
    forall k
      ensures Absent(kg, a, k) <==> Absent(kg, b, k)
    {
      AbsentMeansNoEntry(kg, a, k);
      AbsentMeansNoEntry(kg, b, k);
    }
  }

  lemma AbsentMeansNoEntry(kg: Keying, slots: seq<Slot>, k: Word)
    requires DistinctKeys(kg, slots)
    ensures Absent(kg, slots, k) <==> kg.rep(k) !in Entries(kg, slots)
  {
  }
}
