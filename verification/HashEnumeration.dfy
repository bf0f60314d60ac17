/**
 Reading a CFBasicHash from front to back: fast enumeration in batches, and the
 copying of all elements with their multiplicities into a buffer.
 */
module HashEnumeration {
  import opened HashSlots
  import opened HashSizes
  import opened BasicHash

  /** What `f` reads off the buckets, in bucket order. */
  ghost function Spread(slots: seq<Slot>, f: Slot -> seq<Word>): seq<Word> {
    if slots == [] then [] else Spread(slots[..|slots| - 1], f) + f(slots[|slots| - 1])
  }

  ghost function Repeat(w: Word, n: nat): (r: seq<Word>)
    ensures |r| == n && forall i :: 0 <= i < n ==> r[i] == w
  {
    seq(n, _ => w)
  }

  /** The key of an occupied bucket, once. */
  ghost function KeyOnce(s: Slot): seq<Word> { if s.Full? then [s.key] else [] }
  /** The key (value) of an occupied bucket as often as it counts. */
  ghost function KeyCopies(s: Slot): seq<Word> { if s.Full? then Repeat(s.key, s.count) else [] }
  ghost function ValueCopies(s: Slot): seq<Word> { if s.Full? then Repeat(s.value, s.count) else [] }

  ghost function UpTo(s: seq<Word>, n: nat): seq<Word> { if |s| <= n then s else s[..n] }

  lemma {:induction false} SpreadConcat(a: seq<Slot>, b: seq<Slot>, f: Slot -> seq<Word>)
    ensures Spread(a + b, f) == Spread(a, f) + Spread(b, f)
  {
    if b == [] {
      assert a + b == a;
    } else {
      var n := |b| - 1;
      SpreadConcat(a, b[..n], f);
      assert (a + b)[..|a + b| - 1] == a + b[..n];
    }
  }

  lemma SpreadStep(slots: seq<Slot>, lo: nat, i: nat, f: Slot -> seq<Word>)
    requires lo <= i < |slots|
    ensures Spread(slots[lo..i + 1], f) == Spread(slots[lo..i], f) + f(slots[i])
  {
    assert slots[lo..i + 1][..i - lo] == slots[lo..i];
  }

  lemma SpreadHalves(slots: seq<Slot>, i: nat, f: Slot -> seq<Word>)
    requires i <= |slots|
    ensures Spread(slots, f) == Spread(slots[..i], f) + Spread(slots[i..], f)
  {
    hide Spread;
    SpreadConcat(slots[..i], slots[i..], f);
    assert slots == slots[..i] + slots[i..];
  }

  lemma SpreadThirds(slots: seq<Slot>, lo: nat, hi: nat, f: Slot -> seq<Word>)
    requires lo <= hi <= |slots|
    ensures Spread(slots, f) == Spread(slots[..lo], f) + Spread(slots[lo..hi], f) + Spread(slots[hi..], f)
  {
    hide Spread;
    SpreadHalves(slots, hi, f);
    SpreadHalves(slots[..hi], lo, f);
    assert slots[..hi][..lo] == slots[..lo] && slots[..hi][lo..] == slots[lo..hi];
  }

  lemma NothingToSpread(slots: seq<Slot>, f: Slot -> seq<Word>)
    requires slots == []
    ensures Spread(slots, f) == []
  {
  }

  /** Each occupied bucket contributes one key. */
  lemma {:induction false} KeysAreUsed(slots: seq<Slot>)
    ensures |Spread(slots, KeyOnce)| == UsedCount(slots)
    ensures multiset(Spread(slots, KeyOnce)) == Gather(slots, KeyOf)
  {
    if slots != [] {
      KeysAreUsed(slots[..|slots| - 1]);
    }
  }

  lemma {:induction false} NoKeysNoCopies(slots: seq<Slot>)
    requires Spread(slots, KeyOnce) == []
    ensures Spread(slots, KeyCopies) == [] && Spread(slots, ValueCopies) == []
  {
    if slots != [] {
      NoKeysNoCopies(slots[..|slots| - 1]);
    }
  }

  /** The keys listed with multiplicity are the bag the table stands for. */
  lemma {:induction false} CopiesAreBag(kg: Keying, slots: seq<Slot>, k: Word)
    ensures Occurrences(kg, Spread(slots, KeyCopies), k) == Bag(kg, slots)[k]
  {
    if slots != [] {
      var n := |slots| - 1;
      CopiesAreBag(kg, slots[..n], k);
      OccurrencesConcat(kg, Spread(slots[..n], KeyCopies), KeyCopies(slots[n]), k);
      if slots[n].Full? {
        OccurrencesRepeat(kg, slots[n].key, slots[n].count, k);
      }
    }
  }

  /** How many words of `s` have representative `k`. */
  ghost function Occurrences(kg: Keying, s: seq<Word>, k: Word): nat {
    if s == [] then 0 else Occurrences(kg, s[..|s| - 1], k) + if kg.rep(s[|s| - 1]) == k then 1 else 0
  }

  lemma {:induction false} OccurrencesConcat(kg: Keying, a: seq<Word>, b: seq<Word>, k: Word)
    ensures Occurrences(kg, a + b, k) == Occurrences(kg, a, k) + Occurrences(kg, b, k)
  {
    if b == [] {
      assert a + b == a;
    } else {
      OccurrencesConcat(kg, a, b[..|b| - 1], k);
      assert (a + b)[..|a + b| - 1] == a + b[..|b| - 1];
    }
  }

  lemma {:induction false} OccurrencesRepeat(kg: Keying, w: Word, n: nat, k: Word)
    ensures Occurrences(kg, Repeat(w, n), k) == if kg.rep(w) == k then n else 0
  {
    if n > 0 {
      OccurrencesRepeat(kg, w, n - 1, k);
      assert Repeat(w, n)[..n - 1] == Repeat(w, n - 1);
    }
  }

  // ---------------------------------------------------------------- where elements come from

  /** Every bucket's position, as often as `times` says, in bucket order. */
  ghost function Places(slots: seq<Slot>, times: Slot -> nat): seq<nat> {
    if slots == [] then [] else
      var n := |slots| - 1;
      Places(slots[..n], times) + seq(times(slots[n]), _ => n)
  }

  ghost function Once(s: Slot): nat { if s.Full? then 1 else 0 }
  ghost function Times(s: Slot): nat { if s.Full? then s.count else 0 }

  lemma {:induction false} PlacesAscend(slots: seq<Slot>, times: Slot -> nat)
    ensures forall i :: 0 <= i < |Places(slots, times)| ==> Places(slots, times)[i] < |slots|
    ensures forall i, j :: 0 <= i < j < |Places(slots, times)| ==> Places(slots, times)[i] <= Places(slots, times)[j]
  {
    if slots != [] {
      PlacesAscend(slots[..|slots| - 1], times);
    }
  }

  lemma {:induction false} PlacesCount(slots: seq<Slot>, times: Slot -> nat, q: nat)
    ensures multiset(Places(slots, times))[q] == if q < |slots| then times(slots[q]) else 0
  {
    if slots != [] {
      var n := |slots| - 1;
      PlacesCount(slots[..n], times, q);
      SameOften(n, times(slots[n]));
    }
  }

  /** A bucket is named exactly when `times` is not zero for it. */
  lemma PlacesMember(slots: seq<Slot>, times: Slot -> nat, q: nat)
    ensures q in Places(slots, times) <==> q < |slots| && 0 < times(slots[q])
  {
    PlacesCount(slots, times, q);
    assert q in Places(slots, times) <==> q in multiset(Places(slots, times));
  }

  lemma {:induction false} SameOften(n: nat, k: nat)
    ensures multiset(seq(k, _ => n)) == multiset{}[n := k]
  {
    if 0 < k {
      SameOften(n, k - 1);
      assert seq(k, _ => n) == seq(k - 1, _ => n) + [n];
    }
  }

  /** What is read off the buckets comes from these places. */
  lemma {:induction false} PlacesSpread(slots: seq<Slot>, times: Slot -> nat, f: Slot -> seq<Word>, g: Slot -> Word)
    requires forall s :: |f(s)| == times(s) && forall i :: 0 <= i < |f(s)| ==> f(s)[i] == g(s)
    ensures |Spread(slots, f)| == |Places(slots, times)|
    ensures forall i :: 0 <= i < |Spread(slots, f)| ==>
              Places(slots, times)[i] < |slots| && Spread(slots, f)[i] == g(slots[Places(slots, times)[i]])
  {
    if slots != [] {
      PlacesSpread(slots[..|slots| - 1], times, f, g);
    }
  }

  lemma {:induction false} PlacesAreBag(kg: Keying, slots: seq<Slot>)
    ensures |Places(slots, Times)| == |Bag(kg, slots)|
  {
    if slots != [] {
      PlacesAreBag(kg, slots[..|slots| - 1]);
    }
  }

  lemma {:induction false} OnceAscends(slots: seq<Slot>)
    ensures forall i, j :: 0 <= i < j < |Places(slots, Once)| ==> Places(slots, Once)[i] < Places(slots, Once)[j]
  {
    if slots != [] {
      OnceAscends(slots[..|slots| - 1]);
      PlacesAscend(slots[..|slots| - 1], Once);
    }
  }

  ghost function KeyWord(s: Slot): Word { if s.Full? then s.key else 0 }
  ghost function ValueWord(s: Slot): Word { if s.Full? then s.value else 0 }

  /** The keys listed once each, and the buckets they come from. */
  lemma ListedOnce(slots: seq<Slot>, all: seq<Word>, at: seq<nat>)
    requires all == Spread(slots, KeyOnce) && at == Places(slots, Once)
    ensures |at| == |all|
    ensures forall i :: 0 <= i < |at| ==> at[i] < |slots| && slots[at[i]].Full? && all[i] == slots[at[i]].key
    ensures forall i, j :: 0 <= i < j < |at| ==> at[i] < at[j]
    ensures forall q :: 0 <= q < |slots| && slots[q].Full? ==> q in at
  {
    hide Places;
    hide Spread;
    OnceAscends(slots);
    PlacesSpread(slots, Once, KeyOnce, KeyWord);
    forall i | 0 <= i < |at|
      ensures slots[at[i]].Full?
    {
      PlacesMember(slots, Once, at[i]);
    }
    forall q | 0 <= q < |slots| && slots[q].Full?
      ensures q in at
    {
      PlacesMember(slots, Once, q);
    }
  }

  /** The elements with their multiplicities, cut off at `limit`, and the buckets they come from. */
  lemma ListedTimes(kg: Keying, slots: seq<Slot>, limit: nat, vs: seq<Word>, ks: seq<Word>, at: seq<nat>)
    requires vs == UpTo(Spread(slots, ValueCopies), limit) && ks == UpTo(Spread(slots, KeyCopies), limit)
    requires at == if |Places(slots, Times)| <= limit then Places(slots, Times) else Places(slots, Times)[..limit]
    ensures |vs| == |ks| == |at| == if |Bag(kg, slots)| <= limit then |Bag(kg, slots)| else limit
    ensures forall i :: 0 <= i < |at| ==>
              at[i] < |slots| && slots[at[i]].Full? && ks[i] == slots[at[i]].key && vs[i] == slots[at[i]].value
    ensures forall i, j :: 0 <= i < j < |at| ==> at[i] <= at[j]
    ensures |Bag(kg, slots)| <= limit ==>
              forall q :: 0 <= q < |slots| && slots[q].Full? ==> multiset(at)[q] == slots[q].count
  {
    hide Places;
    hide Spread;
    hide Bag;
    PlacesAscend(slots, Times);
    PlacesAreBag(kg, slots);
    PlacesSpread(slots, Times, KeyCopies, KeyWord);
    PlacesSpread(slots, Times, ValueCopies, ValueWord);
    var places := Places(slots, Times);
    forall i | 0 <= i < |at|
      ensures slots[at[i]].Full?
    {
      PlacesMember(slots, Times, places[i]);
    }
    forall q | 0 <= q < |slots| && slots[q].Full?
      ensures multiset(places)[q] == slots[q].count
    {
      PlacesCount(slots, Times, q);
    }
  }

  // ---------------------------------------------------------------- batches

  /** One batch: at most `count` keys, read from bucket `state` on. */
  method FastEnumeration(ht: Table, state: nat, count: nat) returns (items: seq<Word>, next: nat)
    requires ht.Valid() && state <= |ht.Slots()|
    ensures state <= next <= |ht.Slots()| && |items| <= count
    ensures items == Spread(ht.Slots()[state..next], KeyOnce)
    ensures |items| < count ==> Spread(ht.Slots()[next..], KeyOnce) == []
    ensures items != [] ==> state < next
  {
    hide Probed;
    hide Tally;
    hide Gather;
    hide Spread;
    hide DecodeStores;
    hide TableSize;
    ghost var slots := ht.Slots();
    KeysAreUsed(slots);
    var left := ht.used;
    items, next := [], state;
    NothingToSpread(slots[state..state], KeyOnce);
    while 0 < left && next < ht.values.Length && |items| < count
      invariant state <= next <= |slots| && |items| <= count
      invariant items == Spread(slots[state..next], KeyOnce)
      invariant 0 <= left && left + |items| == |Spread(slots, KeyOnce)|
      invariant items != [] ==> state < next
      invariant ht.Shape() && ht.Slots() == slots
    {
      SpreadStep(slots, state, next, KeyOnce);
      var b := ht.GetBucket(next);
      if 0 < b.count {
        items := items + [b.key];
        left := left - 1;
      }
      next := next + 1;
    }
    BatchComplete(slots, state, next);
  }

  /** A batch that has every key there is, or that reached the last bucket, leaves none behind. */
  lemma BatchComplete(slots: seq<Slot>, lo: nat, hi: nat)
    requires lo <= hi <= |slots|
    requires |Spread(slots[lo..hi], KeyOnce)| <= |Spread(slots, KeyOnce)|
    ensures |Spread(slots[lo..hi], KeyOnce)| == |Spread(slots, KeyOnce)| || hi == |slots| ==>
              Spread(slots[hi..], KeyOnce) == []
  {
    SpreadThirds(slots, lo, hi, KeyOnce);
  }

  /**
   Asking for batches of any positive sizes until one comes back empty lists every
   occupied bucket's key once, in bucket order.
   */
  method EnumerateAll(ht: Table, sizes: nat -> nat) returns (all: seq<Word>, ghost at: seq<nat>)
    requires ht.Valid() && forall i :: 0 < sizes(i)
    // each comes from its own bucket, in bucket order, and none is left out
    ensures |at| == |all|
    ensures forall i :: 0 <= i < |at| ==> at[i] < |ht.Slots()| && ht.Slots()[at[i]].Full? && all[i] == ht.Slots()[at[i]].key
    ensures forall i, j :: 0 <= i < j < |at| ==> at[i] < at[j]
    ensures forall q :: 0 <= q < |ht.Slots()| && ht.Slots()[q].Full? ==> q in at
    ensures multiset(all) == Gather(ht.Slots(), KeyOf) && |all| == ht.used
  {
    hide Probed;
    hide Tally;
    hide Gather;
    hide Spread;
    hide DecodeStores;
    hide TableSize;
    ghost var slots := ht.Slots();
    KeysAreUsed(slots);
    NothingToSpread(slots[..0], KeyOnce);
    var state, batch, i := 0, [], 0;
    all := [];
    var done := false;
    while !done
      invariant state <= |slots| && all == Spread(slots[..state], KeyOnce)
      invariant done ==> Spread(slots[state..], KeyOnce) == []
      invariant ht.Slots() == slots && ht.Valid()
      decreases |slots| - state, !done
    {
      ghost var was := state;
      batch, state := FastEnumeration(ht, state, sizes(i));
      SpreadConcat(slots[..was], slots[was..state], KeyOnce);
      assert slots[..was] + slots[was..state] == slots[..state];
      all := all + batch;
      done := batch == [];
      i := i + 1;
    }
    SpreadConcat(slots[..state], slots[state..], KeyOnce);
    assert slots[..state] + slots[state..] == slots;
    at := Places(slots, Once);
    ListedOnce(slots, all, at);
  }

  // ---------------------------------------------------------------- all elements

  /** Copies at most `limit` elements, each as often as it counts, values and keys side by side. */
  method GetElements(ht: Table, limit: nat) returns (vs: seq<Word>, ks: seq<Word>, ghost at: seq<nat>)
    requires ht.Valid()
    ensures |vs| == |ks| == |at| == if |Bag(ht.keying, ht.Slots())| <= limit then |Bag(ht.keying, ht.Slots())| else limit
    // each comes from an occupied bucket, in bucket order
    ensures forall i :: 0 <= i < |at| ==>
              at[i] < |ht.Slots()| && ht.Slots()[at[i]].Full? && ks[i] == ht.Slots()[at[i]].key && vs[i] == ht.Slots()[at[i]].value
    ensures forall i, j :: 0 <= i < j < |at| ==> at[i] <= at[j]
    // with enough room, from each as often as it counts
    ensures |Bag(ht.keying, ht.Slots())| <= limit ==>
              forall q :: 0 <= q < |ht.Slots()| && ht.Slots()[q].Full? ==> multiset(at)[q] == ht.Slots()[q].count
    // key and value belong together
    ensures forall i :: 0 <= i < |vs| ==>
              ht.keying.rep(ks[i]) in ht.Contents() && ht.Contents()[ht.keying.rep(ks[i])].value == vs[i]
  {
    vs, ks := CopyElements(ht, limit);
    hide Places;
    hide Spread;
    hide Gather;
    hide Tally;
    hide Entries;
    ghost var slots := ht.Slots();
    at := if |Places(slots, Times)| <= limit then Places(slots, Times) else Places(slots, Times)[..limit];
    ListedTimes(ht.keying, slots, limit, vs, ks, at);
    forall i | 0 <= i < |vs|
      ensures ht.keying.rep(ks[i]) in ht.Contents() && ht.Contents()[ht.keying.rep(ks[i])].value == vs[i]
    {
      EntryOf(ht.keying, slots, at[i]);
    }
  }

  /** The loop over the buckets. */
  method CopyElements(ht: Table, limit: nat) returns (vs: seq<Word>, ks: seq<Word>)
    requires ht.Valid()
    ensures vs == UpTo(Spread(ht.Slots(), ValueCopies), limit)
    ensures ks == UpTo(Spread(ht.Slots(), KeyCopies), limit)
  {
    hide Probed;
    hide Tally;
    hide Gather;
    hide Spread;
    hide DecodeStores;
    hide TableSize;
    ghost var slots := ht.Slots();
    KeysAreUsed(slots);
    var left := ht.used;
    vs, ks := [], [];
    var i := 0;
    NothingToSpread(slots[..0], ValueCopies);
    NothingToSpread(slots[..0], KeyCopies);
    NothingToSpread(slots[..0], KeyOnce);
    while 0 < left && i < ht.values.Length && |vs| < limit
      invariant i <= |slots| && |vs| == |ks| <= limit
      invariant vs == UpTo(Spread(slots[..i], ValueCopies), limit)
      invariant ks == UpTo(Spread(slots[..i], KeyCopies), limit)
      invariant 0 <= left && left + |Spread(slots[..i], KeyOnce)| == |Spread(slots, KeyOnce)|
      invariant ht.Shape() && ht.Slots() == slots
    {
      var b := ht.GetBucket(i);
      PrefixStep(slots, i, limit);
      if 0 < b.count {
        left := left - 1;
        vs, ks := AppendCopies(vs, ks, b, limit);
      }
      i := i + 1;
    }
    CopiesComplete(slots, i, limit);
  }

  /** The inner loop: one bucket's element, as often as it counts and as the buffer allows. */
  method AppendCopies(vs: seq<Word>, ks: seq<Word>, b: Bucket, limit: nat) returns (vs': seq<Word>, ks': seq<Word>)
    requires |vs| == |ks| <= limit
    ensures vs' == UpTo(vs + Repeat(b.value, b.count), limit)
    ensures ks' == UpTo(ks + Repeat(b.key, b.count), limit)
  {
    vs', ks' := vs, ks;
    var n := 0;
    while n < b.count && |vs'| < limit
      invariant n <= b.count && |vs'| == |ks'| == |vs| + n <= limit
      invariant vs' == vs + Repeat(b.value, n) && ks' == ks + Repeat(b.key, n)
    {
      vs', ks', n := vs' + [b.value], ks' + [b.key], n + 1;
    }
  }

  lemma PrefixStep(slots: seq<Slot>, i: nat, limit: nat)
    requires i < |slots|
    requires |UpTo(Spread(slots[..i], ValueCopies), limit)| < limit && |UpTo(Spread(slots[..i], KeyCopies), limit)| < limit
    ensures Spread(slots[..i + 1], ValueCopies) == UpTo(Spread(slots[..i], ValueCopies), limit) + ValueCopies(slots[i])
    ensures Spread(slots[..i + 1], KeyCopies) == UpTo(Spread(slots[..i], KeyCopies), limit) + KeyCopies(slots[i])
    ensures |Spread(slots[..i + 1], KeyOnce)| == |Spread(slots[..i], KeyOnce)| + |KeyOnce(slots[i])|
  {
    SpreadStep(slots, 0, i, ValueCopies);
    SpreadStep(slots, 0, i, KeyCopies);
    SpreadStep(slots, 0, i, KeyOnce);
  }

  /** Stopping with nothing left, or with a full buffer, leaves out nothing that would fit. */
  lemma CopiesComplete(slots: seq<Slot>, i: nat, limit: nat)
    requires i <= |slots|
    ensures i == |slots| || |Spread(slots[..i], KeyOnce)| == |Spread(slots, KeyOnce)| ||
            (limit <= |Spread(slots[..i], ValueCopies)| && limit <= |Spread(slots[..i], KeyCopies)|) ==>
              && UpTo(Spread(slots[..i], ValueCopies), limit) == UpTo(Spread(slots, ValueCopies), limit)
              && UpTo(Spread(slots[..i], KeyCopies), limit) == UpTo(Spread(slots, KeyCopies), limit)
  {
    SpreadConcat(slots[..i], slots[i..], KeyOnce);
    SpreadConcat(slots[..i], slots[i..], ValueCopies);
    SpreadConcat(slots[..i], slots[i..], KeyCopies);
    assert slots[..i] + slots[i..] == slots;
    if |Spread(slots[..i], KeyOnce)| == |Spread(slots, KeyOnce)| {
      NoKeysNoCopies(slots[i..]);
    }
  }
}
