/**
 The integer index kept in a keyed table: the values are the positions 0..n-1 of the
 keys in a sequence, and inserting or deleting a position renumbers the others.
 */
module HashIndex {
  import opened HashSlots

  /** Makes room at position `p`. */
  function Up(p: Word, s: Slot): Slot {
    if s.Full? && p <= s.value && s.value < 0xFFFF_FFFF_FFFF_FFFF then s.(value := s.value + 1) else s
  }

  /** Closes the gap left at position `p`. */
  function Down(p: Word, s: Slot): Slot {
    if s.Full? && p < s.value then s.(value := s.value - 1) else s
  }

  ghost function UpBy(p: Word): Slot -> Slot { (s: Slot) => Up(p, s) }
  ghost function DownBy(p: Word): Slot -> Slot { (s: Slot) => Down(p, s) }

  /** The table maps each key of `ks`, and nothing else, to its position, counted once. */
  ghost predicate Indexes(kg: Keying, m: map<Word, Slot>, ks: seq<Word>) {
    && (forall p :: 0 <= p < |ks| ==>
         kg.rep(ks[p]) in m && m[kg.rep(ks[p])].Full? && m[kg.rep(ks[p])].key == ks[p] && m[kg.rep(ks[p])].value == p)
    && (forall k :: k in m ==> m[k].Full? && m[k].count == 1 && m[k].value < |ks| && kg.rep(ks[m[k].value]) == k)
  }

  ghost function Mapped(f: Slot -> Slot, slots: seq<Slot>): (r: seq<Slot>)
    ensures |r| == |slots|
    ensures forall i :: 0 <= i < |r| ==> r[i] == f(slots[i])
  {
    seq(|slots|, i requires 0 <= i < |slots| => f(slots[i]))
  }

  /** Slots that differ at most in their values. */
  ghost predicate Renumbers(a: seq<Slot>, b: seq<Slot>) {
    && |a| == |b|
    && forall i :: 0 <= i < |a| ==>
         match a[i]
         case Full(k, _, c) => b[i].Full? && b[i].key == k && b[i].count == c
         case _ => b[i] == a[i]
  }

  /** Renumbering moves nothing: keys, counts, probe paths and tallies stay. */
  lemma RenumberKeeps(kg: Keying, a: seq<Slot>, b: seq<Slot>)
    requires Renumbers(a, b) && Probed(kg, a)
    ensures Probed(kg, b)
    ensures UsedCount(b) == UsedCount(a) && DeletedCount(b) == DeletedCount(a)
    ensures Gather(b, KeyOf) == Gather(a, KeyOf)
    ensures forall key :: Absent(kg, a, key) <==> Absent(kg, b, key)
  {
    RenumberTallies(a, b);
    RenumberReachable(kg, a, b);
    forall key
      ensures Absent(kg, a, key) <==> Absent(kg, b, key)
    {
      assert forall i :: 0 <= i < |a| ==> (Matches(kg, a[i], key) <==> Matches(kg, b[i], key));
    }
  }

  lemma RenumberReachable(kg: Keying, a: seq<Slot>, b: seq<Slot>)
    requires Renumbers(a, b) && Reachable(kg, a)
    ensures Reachable(kg, b)
  {
  }

  lemma {:induction false} RenumberTallies(a: seq<Slot>, b: seq<Slot>)
    requires Renumbers(a, b)
    ensures UsedCount(b) == UsedCount(a) && DeletedCount(b) == DeletedCount(a)
    ensures Gather(b, KeyOf) == Gather(a, KeyOf)
  {
    if a != [] {
      RenumberTallies(a[..|a| - 1], b[..|b| - 1]);
    }
  }

  /** Renumbering upwards and entering `key` at `p` is insertion at index `p`. */
  lemma InsertIndex(kg: Keying, m: map<Word, Slot>, up: map<Word, Slot>, ks: seq<Word>, p: nat, key: Word)
    requires Indexes(kg, m, ks) && p <= |ks| < 0xFFFF_FFFF
    requires up.Keys == m.Keys && forall k :: k in m ==> up[k] == Up(p, m[k])
    requires kg.rep(key) !in m
    ensures Indexes(kg, up[kg.rep(key) := Full(key, p, 1)], ks[..p] + [key] + ks[p..])
  {
  }

  /** Renumbering downwards and dropping the key at `p` is deletion at index `p`. */
  lemma DeleteIndex(kg: Keying, m: map<Word, Slot>, down: map<Word, Slot>, ks: seq<Word>, p: nat)
    requires Indexes(kg, m, ks) && p < |ks| < 0xFFFF_FFFF
    requires down.Keys == m.Keys && forall k :: k in m ==> down[k] == Down(p, m[k])
    ensures Indexes(kg, down - {kg.rep(ks[p])}, ks[..p] + ks[p + 1..])
  {
  }

  lemma MappedEntries(kg: Keying, a: seq<Slot>, b: seq<Slot>, f: Slot -> Slot)
    requires DistinctKeys(kg, a) && DistinctKeys(kg, b) && b == Mapped(f, a) && Renumbers(a, b)
    ensures Entries(kg, b).Keys == Entries(kg, a).Keys
    ensures forall k :: k in Entries(kg, a) ==> Entries(kg, b)[k] == f(Entries(kg, a)[k])
  {
  }
}
