/** Sorting and searching a CFArray by a comparator. */
module ArrayOrder {
  import opened Bits
  import opened CFArray

  /** A CFComparatorFunction: negative when the first argument comes before the second. */
  type Comparator = (Ptr, Ptr) -> int

  predicate Below(cmp: Comparator, x: Ptr, y: Ptr) { cmp(x, y) < 0 }

  /** What a comparator must be for sorting to make sense: `!Below(y, x)` is a total preorder. */
  ghost predicate WeakOrder(cmp: Comparator) {
    && (forall x, y :: Below(cmp, x, y) ==> !Below(cmp, y, x))
    && (forall x, y, z :: !Below(cmp, y, x) && !Below(cmp, z, y) ==> !Below(cmp, z, x))
  }

  ghost predicate Sorted(cmp: Comparator, s: seq<Ptr>) {
    forall i, j :: 0 <= i < j < |s| ==> !Below(cmp, s[j], s[i])
  }

  predicate Tied(cmp: Comparator, x: Ptr, y: Ptr) { !Below(cmp, x, y) && !Below(cmp, y, x) }

  /** `t` is `s` rearranged by `perm`, with tied values in their old order. */
  ghost predicate StableRearrangement(cmp: Comparator, s: seq<Ptr>, t: seq<Ptr>, perm: seq<nat>) {
    && |perm| == |s| == |t| && multiset(t) == multiset(s)
    && (forall i :: 0 <= i < |t| ==> perm[i] < |s| && t[i] == s[perm[i]])
    && (forall i, j :: 0 <= i < j < |t| ==> perm[i] != perm[j])
    && (forall i, j :: 0 <= i < j < |t| && Tied(cmp, t[i], t[j]) ==> perm[i] < perm[j])
  }

  /** Every value in its place. */
  ghost function Identity(n: nat): (perm: seq<nat>)
    ensures |perm| == n && forall i :: 0 <= i < n ==> perm[i] == i
  {
    seq(n, i => i)
  }

  ghost function Swapped<T>(s: seq<T>, k: nat): seq<T>
    requires k + 1 < |s|
  {
    s[k := s[k + 1]][k + 1 := s[k]]
  }

  /** Exchanging neighbours that are strictly out of order keeps ties in their old order. */
  lemma SwapIsStable(cmp: Comparator, s: seq<Ptr>, t: seq<Ptr>, perm: seq<nat>, k: nat)
    requires k + 1 < |t| && Below(cmp, t[k + 1], t[k]) && StableRearrangement(cmp, s, t, perm)
    ensures |perm| == |t|
    ensures StableRearrangement(cmp, s, Swapped(t, k), Swapped(perm, k))
  {
    var t', perm' := Swapped(t, k), Swapped(perm, k);
    forall i, j | 0 <= i < j < |t'|
      ensures perm'[i] != perm'[j]
      ensures Tied(cmp, t'[i], t'[j]) ==> perm'[i] < perm'[j]
    {
      var a, b := Place(i, k), Place(j, k);
      assert t'[i] == t[a] && t'[j] == t[b] && perm'[i] == perm[a] && perm'[j] == perm[b];
      assert a < b || (a == k + 1 && b == k);
    }
  }

  /** Where the value at `i` was before the neighbours at `k` changed places. */
  ghost function Place(i: nat, k: nat): nat {
    if i == k then k + 1 else if i == k + 1 then k else i
  }

  /** Everything from `cnt` on is in its final place. */
  ghost predicate Settled(cmp: Comparator, r: seq<Ptr>, cnt: nat) {
    forall i, j :: 0 <= i < j < |r| && cnt <= j ==> !Below(cmp, r[j], r[i])
  }

  /** The value at `k` is a greatest one so far. */
  ghost predicate Leads(cmp: Comparator, r: seq<Ptr>, k: nat) {
    k < |r| && forall i :: 0 <= i <= k ==> !Below(cmp, r[k], r[i])
  }

  lemma BubbleStep(cmp: Comparator, r: seq<Ptr>, k: nat, cnt: nat)
    requires WeakOrder(cmp) && k + 1 < cnt <= |r| && Settled(cmp, r, cnt) && Leads(cmp, r, k)
    ensures var r' := if Below(cmp, r[k + 1], r[k]) then Swapped(r, k) else r;
            Settled(cmp, r', cnt) && Leads(cmp, r', k + 1)
  {
  }

  lemma StableReflexive(cmp: Comparator, s: seq<Ptr>)
    ensures StableRearrangement(cmp, s, s, Identity(|s|))
  {
  }

  /**
   Exchange sort of a range: the range ends up sorted, `perm` says which value came
   from where and keeps ties in order, the rest of the array is untouched, and nothing
   is retained or released.
   */
  method ZSort(a: MutableArray, loc: nat, len: nat, cmp: Comparator) returns (ghost perm: seq<nat>)
    requires a.Valid() && loc + len <= a.count && WeakOrder(cmp)
    modifies a.store
    ensures a.Valid() && |a.Contents()| == |old(a.Contents())|
    ensures a.Contents()[..loc] == old(a.Contents())[..loc] && a.Contents()[loc + len..] == old(a.Contents())[loc + len..]
    ensures forall i, j :: 0 <= i < j < len ==> cmp(Window(a, loc, len)[j], Window(a, loc, len)[i]) >= 0
    ensures multiset(Window(a, loc, len)) == multiset(old(Window(a, loc, len)))
    ensures |perm| == len && forall i :: 0 <= i < len ==> perm[i] < len && Window(a, loc, len)[i] == old(Window(a, loc, len))[perm[i]]
    ensures forall i, j :: 0 <= i < j < len ==> perm[i] != perm[j]
    ensures forall i, j :: 0 <= i < j < len && cmp(Window(a, loc, len)[i], Window(a, loc, len)[j]) >= 0 ==> perm[i] < perm[j]
  {
    hide WeakOrder;
    hide StableRearrangement;
    hide Settled;
    hide Retained;
    hide Released;
    ghost var s := a.Contents();
    ghost var r;
    r, perm := SortLoop(a, loc, len, cmp);
    Partition(s[..loc], r, s[loc + len..]);
    SortMeans(cmp, s[loc..loc + len], r, perm);
  }

  lemma Partition(pre: seq<Ptr>, r: seq<Ptr>, post: seq<Ptr>)
    ensures var s := pre + r + post; var n := |pre| + |r|; s[..|pre|] == pre && s[|pre|..n] == r && s[n..] == post
  {
  }

  /** The outer loop; `r` is what becomes of the range. */
  method SortLoop(a: MutableArray, loc: nat, len: nat, cmp: Comparator) returns (ghost r: seq<Ptr>, ghost perm: seq<nat>)
    requires a.Valid() && loc + len <= a.count && WeakOrder(cmp)
    modifies a.store
    ensures a.Valid() && |r| == len && a.Contents() == old(a.Contents())[..loc] + r + old(a.Contents())[loc + len..]
    ensures Settled(cmp, r, 1) && StableRearrangement(cmp, old(a.Contents())[loc..loc + len], r, perm)
  {
    hide WeakOrder;
    hide StableRearrangement;
    hide Retained;
    hide Released;
    ghost var s := a.Contents();
    ghost var pre, r0, post := s[..loc], s[loc..loc + len], s[loc + len..];
    r, perm := r0, Identity(len);
    StableReflexive(cmp, r0);
    var cnt := len;
    while 1 < cnt
      invariant 0 <= cnt <= len == |r| && (cnt == 0 ==> len == 0)
      invariant a.Valid() && a.Contents() == pre + r + post
      invariant Settled(cmp, r, cnt) && StableRearrangement(cmp, r0, r, perm)
    {
      r, perm := BubblePass(a, loc, cnt, cmp, pre, r0, r, perm, post);
      cnt := cnt - 1;
    }
  }

  /** What it means to be settled from 1 on and stably rearranged, in terms of the comparator alone. */
  lemma SortMeans(cmp: Comparator, s: seq<Ptr>, t: seq<Ptr>, perm: seq<nat>)
    requires Settled(cmp, t, 1) && StableRearrangement(cmp, s, t, perm)
    ensures multiset(t) == multiset(s) && |perm| == |s| == |t|
    ensures forall i, j :: 0 <= i < j < |t| ==> cmp(t[j], t[i]) >= 0
    ensures forall i :: 0 <= i < |t| ==> perm[i] < |s| && t[i] == s[perm[i]]
    ensures forall i, j :: 0 <= i < j < |t| ==> perm[i] != perm[j]
    ensures forall i, j :: 0 <= i < j < |t| && cmp(t[i], t[j]) >= 0 ==> perm[i] < perm[j]
  {
    forall i, j | 0 <= i < j < |t|
      ensures cmp(t[j], t[i]) >= 0
      ensures cmp(t[i], t[j]) >= 0 ==> perm[i] < perm[j]
    {
      assert !Below(cmp, t[j], t[i]);
    }
  }

  /** The inner loop: a greatest value of the first `cnt` travels to their end. */
  method BubblePass(a: MutableArray, loc: nat, cnt: nat, cmp: Comparator, ghost pre: seq<Ptr>, ghost r0: seq<Ptr>, ghost r: seq<Ptr>,
                    ghost perm: seq<nat>, ghost post: seq<Ptr>)
    returns (ghost r': seq<Ptr>, ghost perm': seq<nat>)
    requires a.Valid() && WeakOrder(cmp) && |pre| == loc && 1 < cnt <= |r| && a.Contents() == pre + r + post
    requires Settled(cmp, r, cnt) && StableRearrangement(cmp, r0, r, perm)
    modifies a.store
    ensures a.Valid() && |r'| == |r| && a.Contents() == pre + r' + post
    ensures Settled(cmp, r', cnt - 1) && StableRearrangement(cmp, r0, r', perm')
  {
    hide WeakOrder;
    hide Settled;
    hide Leads;
    hide StableRearrangement;
    hide Retained;
    hide Released;
    r', perm' := r, perm;
    LeadsFirst(cmp, r);
    var idx := loc;
    while idx < loc + cnt - 1
      invariant loc <= idx <= loc + cnt - 1 && |r'| == |r|
      invariant a.Valid() && a.Contents() == pre + r' + post
      invariant Settled(cmp, r', cnt) && Leads(cmp, r', idx - loc) && StableRearrangement(cmp, r0, r', perm')
    {
      r', perm' := PassStep(cmp, pre, r0, r', perm', post, idx - loc, cnt);
      CompareExchange(a, idx, cmp);
      idx := idx + 1;
    }
    LeaderSettles(cmp, r', cnt);
  }

  /** One comparison of neighbours. */
  method CompareExchange(a: MutableArray, idx: nat, cmp: Comparator)
    requires a.Valid() && idx + 1 < a.count
    modifies a.store
    ensures a.Valid() && a.Contents() == Compared(cmp, old(a.Contents()), idx)
  {
    hide Retained;
    hide Released;
    var x := a.GetValueAtIndex(idx);
    var y := a.GetValueAtIndex(idx + 1);
    if Below(cmp, y, x) {
      a.ExchangeValuesAtIndices(idx, idx + 1);
    }
  }

  ghost function Compared(cmp: Comparator, s: seq<Ptr>, k: nat): seq<Ptr>
    requires k + 1 < |s|
  {
    if Below(cmp, s[k + 1], s[k]) then Swapped(s, k) else s
  }

  lemma PassStep(cmp: Comparator, pre: seq<Ptr>, r0: seq<Ptr>, r: seq<Ptr>, perm: seq<nat>, post: seq<Ptr>, k: nat, cnt: nat)
    returns (r': seq<Ptr>, perm': seq<nat>)
    requires WeakOrder(cmp) && k + 1 < cnt <= |r|
    requires Settled(cmp, r, cnt) && Leads(cmp, r, k) && StableRearrangement(cmp, r0, r, perm)
    ensures |r'| == |r| && Settled(cmp, r', cnt) && Leads(cmp, r', k + 1) && StableRearrangement(cmp, r0, r', perm')
    ensures |pre| + k + 1 < |pre + r + post| && Compared(cmp, pre + r + post, |pre| + k) == pre + r' + post
  {
    hide WeakOrder;
    hide Settled;
    hide Leads;
    hide StableRearrangement;
    BubbleStep(cmp, r, k, cnt);
    SwapInside(pre, r, post, k);
    r', perm' := Compared(cmp, r, k), perm;
    if Below(cmp, r[k + 1], r[k]) {
      SameLength(cmp, r0, r, perm);
      perm' := Swapped(perm, k);
      SwapIsStable(cmp, r0, r, perm, k);
    }
  }

  lemma SameLength(cmp: Comparator, s: seq<Ptr>, t: seq<Ptr>, perm: seq<nat>)
    requires StableRearrangement(cmp, s, t, perm)
    ensures |perm| == |s| == |t|
  {
  }

  lemma SwapInside(pre: seq<Ptr>, r: seq<Ptr>, post: seq<Ptr>, k: nat)
    requires k + 1 < |r|
    ensures var (s, i) := (pre + r + post, |pre| + k);
            s[i] == r[k] && s[i + 1] == r[k + 1] && s[i := s[i + 1]][i + 1 := s[i]] == pre + Swapped(r, k) + post
  {
  }

  lemma LeadsFirst(cmp: Comparator, r: seq<Ptr>)
    requires WeakOrder(cmp) && r != []
    ensures Leads(cmp, r, 0)
  {
  }

  lemma LeaderSettles(cmp: Comparator, r: seq<Ptr>, cnt: nat)
    requires 0 < cnt <= |r| && Settled(cmp, r, cnt) && Leads(cmp, r, cnt - 1)
    ensures Settled(cmp, r, cnt - 1)
  {
  }

  // ---------------------------------------------------------------- binary search

  /** In a sorted sequence, two neighbours decide where the lower bound is. */
  lemma BoundBetween(cmp: Comparator, s: seq<Ptr>, value: Ptr, i: nat)
    requires WeakOrder(cmp) && Sorted(cmp, s) && i <= |s|
    requires 0 < i ==> Below(cmp, s[i - 1], value)
    requires i < |s| ==> !Below(cmp, s[i], value)
    ensures forall j :: 0 <= j < i ==> cmp(s[j], value) < 0
    ensures forall j :: i <= j < |s| ==> cmp(s[j], value) >= 0
  {
  }

  lemma BelowIsPrefix(cmp: Comparator, s: seq<Ptr>, value: Ptr, i: nat, j: nat)
    requires WeakOrder(cmp) && Sorted(cmp, s) && i <= j < |s|
    ensures Below(cmp, s[j], value) ==> Below(cmp, s[i], value)
    ensures Below(cmp, value, s[i]) ==> !Below(cmp, s[i], value)
  {
  }

  /** The values of a range. */
  ghost function Window(a: MutableArray, loc: nat, len: nat): (s: seq<Ptr>)
    requires a.Shape() && loc + len <= a.count
    reads a`count, a`leftIdx, a`store, a.store
    ensures |s| == len
  {
    a.Contents()[loc..loc + len]
  }

  method ItemAt(a: MutableArray, loc: nat, len: nat, i: int) returns (item: Ptr)
    requires a.Shape() && loc + len <= a.count && 0 <= i < len
    ensures item == Window(a, loc, len)[i]
  {
    item := a.GetValueAtIndex(loc + i);
  }

  /** The uniform binary search, whose probes step by powers of two. */
  method BSearchValues(a: MutableArray, loc: nat, len: nat, value: Ptr, cmp: Comparator) returns (result: nat)
    requires a.Shape() && loc + len <= a.count && len < 0x8000_0000
    requires WeakOrder(cmp) && Sorted(cmp, Window(a, loc, len))
    ensures loc <= result <= loc + len
    ensures forall i :: 0 <= i < result - loc ==> cmp(Window(a, loc, len)[i], value) < 0
    ensures forall i :: result - loc <= i < len ==> cmp(Window(a, loc, len)[i], value) >= 0
  {
    hide WeakOrder;
    hide Sorted;
    hide Window;
    ghost var s := Window(a, loc, len);
    if len == 0 {
      BoundBetween(cmp, s, value, 0);
      return loc;
    }
    var item := ItemAt(a, loc, len, len - 1);
    if Below(cmp, item, value) {
      BoundBetween(cmp, s, value, len);
      return loc + len;
    }
    item := ItemAt(a, loc, len, 0);
    if Below(cmp, value, item) {
      BelowIsPrefix(cmp, s, value, 0, 0);
      BoundBetween(cmp, s, value, 0);
      return loc;
    }
    FlslBounds(len);
    var lg: nat := Flsl(len) - 1;
    item := ItemAt(a, loc, len, Pow2(lg) - 1);
    var idx: int := -1;
    if Below(cmp, item, value) {
      BelowIsPrefix(cmp, s, value, len - Pow2(lg), Pow2(lg) - 1);
      idx := len - Pow2(lg);
    }
    idx := Descend(a, loc, len, value, cmp, lg, idx);
    BoundBetween(cmp, s, value, idx + 1);
    result := idx + 1 + loc;
  }

  /** The probing loop: between `idx` and `idx + 2^lg` the answer changes from below to not below. */
  method Descend(a: MutableArray, loc: nat, len: nat, value: Ptr, cmp: Comparator, lg0: nat, idx0: int) returns (idx: int)
    requires a.Shape() && loc + len <= a.count && -1 <= idx0 && idx0 + Pow2(lg0) <= len
    requires 0 <= idx0 ==> Below(cmp, Window(a, loc, len)[idx0], value)
    requires idx0 + Pow2(lg0) < len ==> !Below(cmp, Window(a, loc, len)[idx0 + Pow2(lg0)], value)
    ensures -1 <= idx < len
    ensures 0 <= idx ==> Below(cmp, Window(a, loc, len)[idx], value)
    ensures idx + 1 < len ==> !Below(cmp, Window(a, loc, len)[idx + 1], value)
  {
    hide Window;
    ghost var s := Window(a, loc, len);
    idx := idx0;
    var lg := lg0;
    while 0 < lg
      invariant -1 <= idx && idx + Pow2(lg) <= len
      invariant 0 <= idx ==> Below(cmp, s[idx], value)
      invariant idx + Pow2(lg) < len ==> !Below(cmp, s[idx + Pow2(lg)], value)
      invariant s == Window(a, loc, len)
    {
      lg := lg - 1;
      var item := ItemAt(a, loc, len, idx + Pow2(lg));
      if Below(cmp, item, value) {
        idx := idx + Pow2(lg);
      }
    }
  }
}
