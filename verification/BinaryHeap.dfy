/**
 CFBinaryHeap: an array-backed heap whose sift loops move a hole instead of swapping.
 The hole is seen here as a place that already holds the value to be stored, so one
 step of a loop is one exchange in the heap's contents.
 */
module BinaryHeap {
  import opened Bits
  import opened CFArray

  /** The order of a heap: pointer order, or a compare callback that returns 1 for "greater". */
  datatype Ranking = ByPointer | ByCallback(cmp: (Ptr, Ptr) -> int)

  predicate Gt(rk: Ranking, x: Ptr, y: Ptr) {
    match rk
    case ByPointer => x > y
    case ByCallback(cmp) => cmp(x, y) == 1
  }

  /** "Not greater" is a total preorder. */
  ghost predicate TotalPreorder(rk: Ranking) {
    && (forall x, y :: !Gt(rk, x, y) || !Gt(rk, y, x))
    && (forall x, y, z :: !Gt(rk, x, y) && !Gt(rk, y, z) ==> !Gt(rk, x, z))
  }

  function Parent(i: nat): nat
    requires 0 < i
  {
    (i - 1) / 2
  }

  /** Position `i` is in order with its parent. */
  ghost predicate InOrder(rk: Ranking, s: seq<Ptr>, i: nat)
    requires i < |s|
  {
    0 < i ==> !Gt(rk, s[Parent(i)], s[i])
  }

  ghost predicate HeapOrdered(rk: Ranking, s: seq<Ptr>) {
    forall i :: 0 <= i < |s| ==> InOrder(rk, s, i)
  }

  ghost predicate IsMinimum(rk: Ranking, s: seq<Ptr>, x: Ptr) {
    x in s && forall i :: 0 <= i < |s| ==> !Gt(rk, x, s[i])
  }

  /** A minimum is numerically least, or not greater than any value by the callback. */
  lemma MinimumMeans(rk: Ranking, s: seq<Ptr>, x: Ptr)
    requires IsMinimum(rk, s, x)
    ensures rk.ByPointer? ==> forall i :: 0 <= i < |s| ==> x <= s[i]
    ensures rk.ByCallback? ==> forall i :: 0 <= i < |s| ==> rk.cmp(x, s[i]) != 1
  {
    assert forall i :: 0 <= i < |s| ==> !Gt(rk, x, s[i]);
  }

  /** Pointer order always makes a heap. */
  lemma PointersArePreordered()
    ensures TotalPreorder(ByPointer)
  {
  }

  lemma {:induction false} RootBelow(rk: Ranking, s: seq<Ptr>, i: nat)
    requires TotalPreorder(rk) && HeapOrdered(rk, s) && i < |s|
    ensures !Gt(rk, s[0], s[i])
  {
    if 0 < i {
      RootBelow(rk, s, Parent(i));
      assert InOrder(rk, s, i);
    }
  }

  lemma RootIsMinimum(rk: Ranking, s: seq<Ptr>)
    requires TotalPreorder(rk) && HeapOrdered(rk, s) && s != []
    ensures IsMinimum(rk, s, s[0])
  {
    forall i | 0 <= i < |s|
      ensures !Gt(rk, s[0], s[i])
    {
      RootBelow(rk, s, i);
    }
  }

  ghost function Exchanged(s: seq<Ptr>, i: nat, j: nat): (r: seq<Ptr>)
    requires i < |s| && j < |s|
    ensures multiset(r) == multiset(s)
  {
    s[i := s[j]][j := s[i]]
  }

  // ---------------------------------------------------------------- sifting up

  /** In order except at `idx`, whose children are in order with its parent. */
  ghost predicate Rising(rk: Ranking, s: seq<Ptr>, idx: nat) {
    && idx < |s|
    && (forall i :: 0 <= i < |s| && i != idx ==> InOrder(rk, s, i))
    && (forall c :: 0 < c < |s| && Parent(c) == idx && 0 < idx ==> !Gt(rk, s[Parent(idx)], s[c]))
  }

  lemma RiseStep(rk: Ranking, s: seq<Ptr>, idx: nat)
    requires TotalPreorder(rk) && Rising(rk, s, idx) && 0 < idx && Gt(rk, s[Parent(idx)], s[idx])
    ensures Rising(rk, Exchanged(s, idx, Parent(idx)), Parent(idx))
  {
    var p := Parent(idx);
    var t := Exchanged(s, idx, p);
    forall i | 0 <= i < |t| && i != p
      ensures InOrder(rk, t, i)
    {
      assert InOrder(rk, s, p);
      assert i != idx ==> InOrder(rk, s, i);
    }
    forall c | 0 < c < |t| && Parent(c) == p && 0 < p
      ensures !Gt(rk, t[Parent(p)], t[c])
    {
      assert InOrder(rk, s, p);
      assert c != idx ==> InOrder(rk, s, c);
    }
  }

  lemma RiseEnds(rk: Ranking, s: seq<Ptr>, idx: nat)
    requires Rising(rk, s, idx) && InOrder(rk, s, idx)
    ensures HeapOrdered(rk, s)
  {
  }

  lemma RiseBegins(rk: Ranking, s: seq<Ptr>, x: Ptr)
    requires HeapOrdered(rk, s)
    ensures Rising(rk, s + [x], |s|)
  {
    forall i | 0 <= i < |s|
      ensures InOrder(rk, s + [x], i)
    {
      assert InOrder(rk, s, i);
    }
  }

  // ---------------------------------------------------------------- sifting down

  /** In order except at the children of `idx`, which are in order with its parent. */
  ghost predicate Sinking(rk: Ranking, s: seq<Ptr>, idx: nat) {
    && idx < |s|
    && (forall i :: 0 < i < |s| && Parent(i) != idx ==> InOrder(rk, s, i))
    && (forall c :: 0 < c < |s| && Parent(c) == idx && 0 < idx ==> !Gt(rk, s[Parent(idx)], s[c]))
  }

  /** `c` is a child of `idx` that is not greater than its sibling. */
  ghost predicate LesserChild(rk: Ranking, s: seq<Ptr>, idx: nat, c: nat) {
    && 0 < c < |s| && Parent(c) == idx
    && forall d :: 0 < d < |s| && Parent(d) == idx ==> !Gt(rk, s[c], s[d])
  }

  lemma SinkStep(rk: Ranking, s: seq<Ptr>, idx: nat, c: nat)
    requires TotalPreorder(rk) && Sinking(rk, s, idx) && LesserChild(rk, s, idx, c) && !Gt(rk, s[c], s[idx])
    ensures Sinking(rk, Exchanged(s, idx, c), c)
  {
  }

  lemma SinkEnds(rk: Ranking, s: seq<Ptr>, idx: nat)
    requires TotalPreorder(rk) && Sinking(rk, s, idx)
    requires forall c :: 0 < c < |s| && Parent(c) == idx ==> !Gt(rk, s[idx], s[c])
    ensures HeapOrdered(rk, s)
  {
  }

  /** The child the loop picks is the lesser one. */
  lemma ChildPicked(rk: Ranking, s: seq<Ptr>, idx: nat, c: nat)
    requires TotalPreorder(rk) && idx < |s| && (c == 2 * idx + 1 || c == 2 * idx + 2) && c < |s|
    requires if c == 2 * idx + 1 then c + 1 < |s| ==> !Gt(rk, s[c], s[c + 1]) else Gt(rk, s[c - 1], s[c])
    ensures LesserChild(rk, s, idx, c)
  {
  }

  lemma SinkStops(rk: Ranking, s: seq<Ptr>, idx: nat, c: nat)
    requires TotalPreorder(rk) && Sinking(rk, s, idx) && LesserChild(rk, s, idx, c) && Gt(rk, s[c], s[idx])
    ensures HeapOrdered(rk, s)
  {
  }

  ghost function RootReplaced(s: seq<Ptr>, x: Ptr): (r: seq<Ptr>)
    requires s != []
    ensures |r| == |s|
  {
    s[0 := x]
  }

  /** Dropping the last value and putting it in the root's place removes exactly the root. */
  lemma LastReplacesRoot(s: seq<Ptr>)
    requires 1 < |s|
    ensures multiset(RootReplaced(s[..|s| - 1], s[|s| - 1])) == multiset(s) - multiset{s[0]}
  {
    var n := |s| - 1;
    assert s == [s[0]] + s[1..n] + [s[n]];
    assert s[..n][0 := s[n]] == [s[n]] + s[1..n];
  }

  /** The first `n` buckets as they will be once `x` fills the hole at `idx`. */
  ghost function HoleFilled(cells: seq<Ptr>, n: nat, idx: nat, x: Ptr): (r: seq<Ptr>)
    requires idx < n <= |cells|
    ensures |r| == n && r[idx] == x && forall j :: 0 <= j < n && j != idx ==> r[j] == cells[j]
  {
    cells[..n][idx := x]
  }

  /** Storing a neighbour in the hole and moving the hole there is an exchange in the contents. */
  lemma HoleMoves(cells: seq<Ptr>, n: nat, idx: nat, other: nat, x: Ptr)
    requires n <= |cells| && idx < n && other < n && idx != other
    ensures HoleFilled(cells[idx := cells[other]], n, other, x) == Exchanged(HoleFilled(cells, n, idx, x), idx, other)
  {
  }

  lemma HoleAtEnd(cells: seq<Ptr>, n: nat, x: Ptr)
    requires n < |cells|
    ensures HoleFilled(cells, n + 1, n, x) == cells[..n] + [x]
  {
  }

  lemma HoleCloses(cells: seq<Ptr>, n: nat, idx: nat, x: Ptr)
    requires idx < n <= |cells|
    ensures cells[idx := x][..n] == HoleFilled(cells, n, idx, x)
  {
  }

  lemma SinkBegins(rk: Ranking, s: seq<Ptr>, x: Ptr)
    requires HeapOrdered(rk, s) && s != []
    ensures Sinking(rk, RootReplaced(s, x), 0)
  {
    forall i | 0 < i < |s| && Parent(i) != 0
      ensures InOrder(rk, s[0 := x], i)
    {
      assert InOrder(rk, s, i);
    }
  }

  lemma PrefixOfPrefix(cells: seq<Ptr>, n: nat, m: nat)
    requires m <= n <= |cells|
    ensures cells[..n][..m] == cells[..m]
  {
  }

  lemma OnlyRoot(rk: Ranking, s: seq<Ptr>)
    requires |s| == 1
    ensures multiset(s) - multiset{s[0]} == multiset{} && HeapOrdered(rk, [])
  {
  }

  lemma PrefixOrdered(rk: Ranking, s: seq<Ptr>, n: nat)
    requires HeapOrdered(rk, s) && n <= |s|
    ensures HeapOrdered(rk, s[..n])
  {
    forall i | 0 <= i < n
      ensures InOrder(rk, s[..n], i)
    {
      assert InOrder(rk, s, i);
    }
  }

  // ---------------------------------------------------------------- capacities

  /** A full heap's capacity doubles exactly. */
  lemma GrowDoubles(n: nat)
    requires 2 <= n
    ensures RoundUpCapacity(Pow2(n) + 1) == Pow2(n + 1)
  {
    Pow2Grows(2, n);
    assert Pow2(2) == 4;
    var f := Flsl(Pow2(n) + 1);
    FlslBounds(Pow2(n) + 1);
    if f <= n {
      Pow2Grows(f, n);
    } else if n + 1 < f {
      Pow2Grows(n + 1, f - 1);
    }
  }

  // ---------------------------------------------------------------- the heap object

  lemma ReleaseBalances(retained: multiset<Ptr>, released: multiset<Ptr>, s: seq<Ptr>, x: Ptr)
    requires x in s
    ensures retained == released + multiset(s) ==> retained == released + multiset{x} + (multiset(s) - multiset{x})
  {
  }

  lemma RetainBalances(retained: multiset<Ptr>, released: multiset<Ptr>, s: multiset<Ptr>, x: Ptr)
    ensures retained == released + s ==> retained + multiset{x} == released + (s + multiset{x})
  {
  }

  ghost predicate HeapCapacity(capacity: nat) { exists n: nat :: 2 <= n && capacity == Pow2(n) }

  class Heap {
    const ranking: Ranking
    // whether there is a retain callback, which returns its argument, and a release callback
    const retains: bool
    const releases: bool
    var count: nat
    var capacity: nat
    var buckets: array<Ptr>

    // every call of the two callbacks
    ghost var retained: multiset<Ptr>
    ghost var released: multiset<Ptr>

    ghost predicate Shape()
      reads `count, `capacity, `buckets
    {
      count <= capacity == buckets.Length
    }

    ghost function Contents(): (s: seq<Ptr>)
      requires Shape()
      reads `count, `capacity, `buckets, buckets
      ensures |s| == count
    {
      buckets[..][..count]
    }

    /** Heap order, and a capacity that is a power of two, 4 or more. */
    ghost predicate Ordered()
      reads `count, `capacity, `buckets, buckets
    {
      && Shape()
      && HeapCapacity(capacity)
      && TotalPreorder(ranking)
      && HeapOrdered(ranking, Contents())
    }

    /** With both callbacks, every retain is released or accounted for by one occurrence. */
    ghost predicate Valid()
      reads `count, `capacity, `buckets, buckets, `retained, `released
    {
      && Ordered()
      && (retains && releases ==> retained == released + multiset(Contents()))
    }

    constructor (ranking: Ranking, retains: bool, releases: bool)
      requires TotalPreorder(ranking)
      ensures Valid() && Contents() == [] && capacity == 4 && fresh(buckets)
      ensures this.ranking == ranking && this.retains == retains && this.releases == releases
      ensures retained == released == multiset{}
    {
      this.ranking, this.retains, this.releases := ranking, retains, releases;
      retained, released := multiset{}, multiset{};
      count, capacity, buckets := 0, RoundUpCapacity(1), new Ptr[RoundUpCapacity(1)];
      new;
      assert Pow2(2) == 4;
    }

    /** Doubles a full heap's capacity; the contents stay. */
    method Grow()
      requires Ordered() && count == capacity && count + 1 < 0x4000_0000
      modifies `capacity, `buckets
      ensures Ordered() && fresh(buckets) && count < capacity == 2 * old(capacity) && Contents() == old(Contents())
    {
      ghost var n: nat :| 2 <= n && capacity == Pow2(n);
      GrowDoubles(n);
      assert Pow2(n + 1) == 2 * Pow2(n);
      hide RoundUpCapacity;
      hide Pow2;
      hide TotalPreorder;
      hide HeapOrdered;
      capacity := RoundUpCapacity(count + 1);
      var larger := new Ptr[capacity];
      var old_ := buckets;
      for i := 0 to count
        modifies larger
        invariant forall j :: 0 <= j < i ==> larger[j] == old_[j]
      {
        larger[i] := old_[i];
      }
      buckets := larger;
      assert Contents() == old(Contents());
    }

    /** The hole after the first `n` buckets rises to where `value` belongs, and is filled. */
    method SiftUp(value: Ptr, n: nat)
      requires n < buckets.Length && TotalPreorder(ranking) && HeapOrdered(ranking, buckets[..][..n])
      modifies buckets
      ensures HeapOrdered(ranking, buckets[..][..n + 1])
      ensures multiset(buckets[..][..n + 1]) == multiset(old(buckets[..])[..n]) + multiset{value}
    {
      hide TotalPreorder;
      hide Rising;
      hide HeapOrdered;
      hide HoleFilled;
      hide Exchanged;
      RiseBegins(ranking, buckets[..][..n], value);
      HoleAtEnd(buckets[..], n, value);
      ghost var h := HoleFilled(buckets[..], n + 1, n, value);
      ghost var start := h;
      var idx := n;
      while 0 < idx
        invariant idx <= n && h == HoleFilled(buckets[..], n + 1, idx, value)
        invariant Rising(ranking, h, idx) && multiset(h) == multiset(start)
      {
        var pidx := Parent(idx);
        var item := buckets[pidx];
        if !Gt(ranking, item, value) {
          break;
        }
        RiseStep(ranking, h, idx);
        HoleMoves(buckets[..], n + 1, idx, pidx, value);
        buckets[idx] := item;
        h := Exchanged(h, idx, pidx);
        idx := pidx;
      }
      RiseEnds(ranking, h, idx);
      HoleCloses(buckets[..], n + 1, idx, value);
      buckets[idx] := value;
    }

    /** Adds a value, doubling the capacity first when the heap is full. */
    method AddValue(value: Ptr)
      requires Valid() && count + 1 < 0x4000_0000
      modifies this, buckets
      ensures Valid() && (buckets == old(buckets) || fresh(buckets))
      ensures multiset(Contents()) == old(multiset(Contents())) + multiset{value}
      ensures count == old(count) + 1
      ensures released == old(released) && retained == old(retained) + if retains then multiset{value} else multiset{}
      ensures capacity == if old(count) == old(capacity) then 2 * old(capacity) else old(capacity)
    {
      hide TotalPreorder;
      hide HeapOrdered;
      hide HeapCapacity;
      ghost var s := multiset(Contents());
      EnterValue(value);
      RetainValue(value);
      RetainBalances(old(retained), released, s, value);
    }

    method RetainValue(value: Ptr)
      modifies `retained
      ensures retained == old(retained) + if retains then multiset{value} else multiset{}
    {
      if retains {
        retained := retained + multiset{value};
      }
    }

    method ReleaseValue(value: Ptr)
      modifies `released
      ensures released == old(released) + if releases then multiset{value} else multiset{}
    {
      if releases {
        released := released + multiset{value};
      }
    }

    /** Grows a full heap and takes the value in. */
    method EnterValue(value: Ptr)
      requires Ordered() && count + 1 < 0x4000_0000
      modifies `count, `capacity, `buckets, buckets
      ensures Ordered() && (buckets == old(buckets) || fresh(buckets)) && count == old(count) + 1
      ensures multiset(Contents()) == old(multiset(Contents())) + multiset{value}
      ensures capacity == if old(count) == old(capacity) then 2 * old(capacity) else old(capacity)
    {
      hide TotalPreorder;
      hide HeapOrdered;
      hide HeapCapacity;
      if count == capacity {
        Grow();
      }
      SiftUp(value, count);
      count := count + 1;
    }

    /** The lesser child of `idx`: the left one unless the right one exists and is less. */
    method PickChild(idx: nat, n: nat, ghost h: seq<Ptr>) returns (c: nat)
      requires TotalPreorder(ranking) && 2 * idx + 1 < n == |h| <= buckets.Length
      requires forall j :: 0 <= j < n && j != idx ==> h[j] == buckets[j]
      ensures idx < c < n && LesserChild(ranking, h, idx, c) && h[c] == buckets[c]
    {
      c := 2 * idx + 1;
      if c + 1 < n && Gt(ranking, buckets[c], buckets[c + 1]) {
        c := c + 1;
      }
      ChildPicked(ranking, h, idx, c);
    }

    /** The hole at the root sinks to where `val` belongs among the first `n` buckets, and is filled. */
    method SiftDown(val: Ptr, n: nat)
      requires 0 < n <= buckets.Length && TotalPreorder(ranking) && HeapOrdered(ranking, buckets[..][..n])
      modifies buckets
      ensures HeapOrdered(ranking, buckets[..][..n])
      ensures multiset(buckets[..][..n]) == multiset(RootReplaced(old(buckets[..])[..n], val))
    {
      hide TotalPreorder;
      hide Sinking;
      hide LesserChild;
      hide HeapOrdered;
      SinkBegins(ranking, buckets[..][..n], val);
      ghost var h := RootReplaced(buckets[..][..n], val);
      hide HoleFilled;
      hide Exchanged;
      ghost var start := h;
      var idx, cidx := 0, 1;
      while cidx < n
        invariant idx < n && cidx == 2 * idx + 1 && h == HoleFilled(buckets[..], n, idx, val)
        invariant Sinking(ranking, h, idx) && multiset(h) == multiset(start)
        decreases n - idx
      {
        cidx := PickChild(idx, n, h);
        var item := buckets[cidx];
        if Gt(ranking, item, val) {
          SinkStops(ranking, h, idx, cidx);
          break;
        }
        SinkStep(ranking, h, idx, cidx);
        HoleMoves(buckets[..], n, idx, cidx, val);
        buckets[idx] := item;
        h := Exchanged(h, idx, cidx);
        idx := cidx;
        cidx := 2 * idx + 1;
      }
      if n <= cidx {
        SinkEnds(ranking, h, idx);
      }
      HoleCloses(buckets[..], n, idx, val);
      buckets[idx] := val;
    }

    /** Removes a minimum: the last value takes the root's place and sinks. */
    method RemoveMinimumValue()
      requires Valid()
      modifies `count, buckets, `released
      ensures Valid()
      ensures old(count) == 0 ==> Contents() == []
      ensures released == old(released) + if releases && 0 < old(count) then multiset{old(Contents())[0]} else multiset{}
      ensures 0 < old(count) ==> IsMinimum(ranking, old(Contents()), old(Contents())[0])
      ensures ranking.ByPointer? ==> forall i :: 0 <= i < old(count) ==> old(Contents())[0] <= old(Contents())[i]
      ensures ranking.ByCallback? ==> forall i :: 0 <= i < old(count) ==> ranking.cmp(old(Contents())[0], old(Contents())[i]) != 1
      ensures 0 < old(count) ==> multiset(Contents()) == old(multiset(Contents())) - multiset{old(Contents())[0]}
      ensures count == if old(count) == 0 then 0 else old(count) - 1
    {
      hide TotalPreorder;
      hide HeapOrdered;
      hide HeapCapacity;
      hide RootReplaced;
      if count == 0 {
        return;
      }
      ghost var s := Contents();
      RootIsMinimum(ranking, s);
      MinimumMeans(ranking, s, s[0]);
      hide IsMinimum;
      var root := buckets[0];
      DropRoot();
      ReleaseValue(root);
      ReleaseBalances(retained, old(released), s, root);
    }

    /** One value fewer: the root's. */
    method DropRoot()
      requires Ordered() && 0 < count
      modifies `count, buckets
      ensures Ordered() && count == old(count) - 1
      ensures multiset(Contents()) == old(multiset(Contents())) - multiset{old(Contents())[0]}
    {
      hide TotalPreorder;
      hide HeapOrdered;
      hide HeapCapacity;
      count := count - 1;
      RefillRoot(count);
    }

    /** Puts the value after the first `n` buckets in the root's place and lets it sink among them. */
    method RefillRoot(n: nat)
      requires n < buckets.Length && TotalPreorder(ranking) && HeapOrdered(ranking, buckets[..][..n + 1])
      modifies buckets
      ensures HeapOrdered(ranking, buckets[..][..n])
      ensures var s := old(buckets[..])[..n + 1]; multiset(buckets[..][..n]) == multiset(s) - multiset{s[0]}
    {
      hide TotalPreorder;
      hide HeapOrdered;
      hide RootReplaced;
      ghost var cells := buckets[..];
      ghost var s := cells[..n + 1];
      var val := buckets[n];
      if 0 < n {
        PrefixOrdered(ranking, s, n);
        LastReplacesRoot(s);
        PrefixOfPrefix(cells, n + 1, n);
        SiftDown(val, n);
      } else {
        buckets[0] := val;
        OnlyRoot(ranking, s);
        assert buckets[..][..0] == [];
      }
    }

    /** The root, which is a minimum; NULL for an empty heap. */
    method GetMinimum() returns (p: Ptr)
      requires Valid()
      ensures count == 0 ==> p == NULL
      ensures 0 < count ==> p == Contents()[0] && IsMinimum(ranking, Contents(), p)
      ensures ranking.ByPointer? ==> forall i :: 0 <= i < count ==> p <= Contents()[i]
      ensures ranking.ByCallback? ==> forall i :: 0 <= i < count ==> ranking.cmp(p, Contents()[i]) != 1
    {
      if count == 0 {
        return NULL;
      }
      RootIsMinimum(ranking, Contents());
      p := buckets[0];
    }

    method RemoveAllValues()
      requires Valid()
      modifies `count, `released
      ensures Valid() && Contents() == [] && capacity == old(capacity)
      ensures released == old(released) + if releases then multiset(old(Contents())) else multiset{}
    {
      ghost var s := Contents();
      if releases {
        for i := 0 to count
          invariant released == old(released) + multiset(s[..i])
        {
          assert s[..i + 1] == s[..i] + [s[i]];
          released := released + multiset{buckets[i]};
        }
        assert s[..count] == s;
      }
      count := 0;
    }
  }

  // ---------------------------------------------------------------- copying and draining

  /** A copy is made by adding the values one by one to a new heap. */
  method CreateCopy(heap: Heap) returns (copy: Heap)
    requires heap.Valid() && heap.count < 0x4000_0000
    ensures fresh(copy) && fresh(copy.buckets) && copy.Valid() && copy.ranking == heap.ranking
    ensures multiset(copy.Contents()) == multiset(heap.Contents()) && copy.count == heap.count
    ensures copy.retains == heap.retains && copy.releases == heap.releases
    ensures copy.retained == (if heap.retains then multiset(heap.Contents()) else multiset{}) && copy.released == multiset{}
  {
    hide TotalPreorder;
    hide HeapOrdered;
    hide HeapCapacity;
    copy := new Heap(heap.ranking, heap.retains, heap.releases);
    ghost var s := heap.Contents();
    for i := 0 to heap.count
      invariant fresh(copy) && fresh(copy.buckets) && copy.Valid()
      invariant copy.count == i && multiset(copy.Contents()) == multiset(s[..i])
      invariant copy.retained == (if heap.retains then multiset(s[..i]) else multiset{}) && copy.released == multiset{}
    {
      assert heap.buckets[i] == s[i] && s[..i + 1] == s[..i] + [s[i]];
      copy.AddValue(heap.buckets[i]);
    }
    assert s[..heap.count] == s;
  }

  ghost predicate SortedBy(rk: Ranking, s: seq<Ptr>) {
    forall i, j :: 0 <= i < j < |s| ==> !Gt(rk, s[i], s[j])
  }

  /** The values drained so far are in order and none is greater than one still to come. */
  ghost predicate Drained(rk: Ranking, values: seq<Ptr>, rest: seq<Ptr>, all: multiset<Ptr>) {
    && multiset(values) + multiset(rest) == all
    && SortedBy(rk, values)
    && forall i, x :: 0 <= i < |values| && x in multiset(rest) ==> !Gt(rk, values[i], x)
  }

  lemma DrainStep(rk: Ranking, values: seq<Ptr>, rest: seq<Ptr>, all: multiset<Ptr>, x: Ptr, rest': seq<Ptr>)
    requires Drained(rk, values, rest, all) && IsMinimum(rk, rest, x) && multiset(rest') == multiset(rest) - multiset{x}
    ensures Drained(rk, values + [x], rest', all)
  {
    assert x in multiset(rest);
    forall y | y in multiset(rest')
      ensures !Gt(rk, x, y)
    {
      assert y in rest;
    }
  }

  /** Draining a copy lists the values in order and leaves the heap itself alone. */
  method GetValues(heap: Heap) returns (values: seq<Ptr>)
    requires heap.Valid() && heap.count < 0x4000_0000
    ensures SortedBy(heap.ranking, values) && multiset(values) == multiset(heap.Contents())
    ensures heap.ranking.ByPointer? ==> forall i, j :: 0 <= i < j < |values| ==> values[i] <= values[j]
    ensures heap.ranking.ByCallback? ==> forall i, j :: 0 <= i < j < |values| ==> heap.ranking.cmp(values[i], values[j]) != 1
  {
    hide TotalPreorder;
    hide HeapOrdered;
    hide IsMinimum;
    hide HeapCapacity;
    values := [];
    ghost var all := multiset(heap.Contents());
    var copy := CreateCopy(heap);
    assert Drained(heap.ranking, values, copy.Contents(), all);
    hide Drained;
    while 0 < copy.count
      invariant fresh(copy) && fresh(copy.buckets) && copy.Valid() && copy.ranking == heap.ranking
      invariant Drained(heap.ranking, values, copy.Contents(), all)
      decreases copy.count
    {
      ghost var before := copy.Contents();
      var value := copy.GetMinimum();
      copy.RemoveMinimumValue();
      DrainStep(heap.ranking, values, before, all, value, copy.Contents());
      values := values + [value];
    }
    DrainEnds(heap.ranking, values, copy.Contents(), all);
  }

  lemma DrainEnds(rk: Ranking, values: seq<Ptr>, rest: seq<Ptr>, all: multiset<Ptr>)
    requires Drained(rk, values, rest, all) && rest == []
    ensures SortedBy(rk, values) && multiset(values) == all
    ensures rk.ByPointer? ==> forall i, j :: 0 <= i < j < |values| ==> values[i] <= values[j]
    ensures rk.ByCallback? ==> forall i, j :: 0 <= i < j < |values| ==> rk.cmp(values[i], values[j]) != 1
  {
    assert forall i, j :: 0 <= i < j < |values| ==> !Gt(rk, values[i], values[j]);
  }

  // ---------------------------------------------------------------- runs

  datatype HeapOp = Push(value: Ptr) | Pop

  /** One step of a priority queue that is only a bag: any minimum may come out. */
  ghost predicate QueueStep(rk: Ranking, bag: multiset<Ptr>, op: HeapOp, out: Ptr, bag': multiset<Ptr>) {
    match op
    case Push(v) => bag' == bag + multiset{v}
    case Pop =>
      if |bag| == 0 then out == NULL && bag' == bag
      else out in bag && (forall y :: y in bag ==> !Gt(rk, out, y)) && bag' == bag - multiset{out}
  }

  ghost predicate QueueRun(rk: Ranking, bags: seq<multiset<Ptr>>, ops: seq<HeapOp>, outs: seq<Ptr>) {
    && |bags| == |ops| + 1 && |outs| == |ops|
    && forall i :: 0 <= i < |ops| ==> QueueStep(rk, bags[i], ops[i], outs[i], bags[i + 1])
  }

  method Step(heap: Heap, op: HeapOp) returns (out: Ptr)
    requires heap.Valid() && (op.Push? ==> heap.count + 1 < 0x4000_0000)
    modifies heap, heap.buckets
    ensures heap.Valid() && (heap.buckets == old(heap.buckets) || fresh(heap.buckets))
    ensures QueueStep(heap.ranking, old(multiset(heap.Contents())), op, out, multiset(heap.Contents()))
    ensures heap.count == SizeAfter(old(heap.count), [op])
  {
    hide TotalPreorder;
    hide HeapOrdered;
    hide HeapCapacity;
    match op
    case Push(v) =>
      out := NULL;
      heap.AddValue(v);
    case Pop =>
      out := heap.GetMinimum();
      assert forall y :: y in multiset(heap.Contents()) ==> y in heap.Contents();
      heap.RemoveMinimumValue();
  }

  lemma QueueRunStep(rk: Ranking, bags: seq<multiset<Ptr>>, ops: seq<HeapOp>, outs: seq<Ptr>, i: nat, out: Ptr, bag: multiset<Ptr>)
    requires i < |ops| && QueueRun(rk, bags, ops[..i], outs) && QueueStep(rk, bags[i], ops[i], out, bag)
    ensures QueueRun(rk, bags + [bag], ops[..i + 1], outs + [out])
  {
  }

  /** How many values a heap of `n` holds after a run. */
  ghost function SizeAfter(n: nat, ops: seq<HeapOp>): nat {
    if ops == [] then n else
      var before := SizeAfter(n, ops[..|ops| - 1]);
      if ops[|ops| - 1].Push? then before + 1 else if before == 0 then 0 else before - 1
  }

  /** Every run of adds and removals, however long, is a run of the bag, through every growth. */
  method Run(heap: Heap, ops: seq<HeapOp>) returns (outs: seq<Ptr>, ghost bags: seq<multiset<Ptr>>)
    requires heap.Valid()
    requires forall i :: 0 <= i < |ops| && ops[i].Push? ==> SizeAfter(heap.count, ops[..i]) + 1 < 0x4000_0000
    modifies heap, heap.buckets
    ensures heap.Valid() && QueueRun(heap.ranking, bags, ops, outs)
    // what comes out, in so many words
    ensures forall i :: 0 <= i < |ops| && ops[i].Push? ==> bags[i + 1] == bags[i] + multiset{ops[i].value}
    ensures forall i :: 0 <= i < |ops| && ops[i].Pop? && |bags[i]| == 0 ==> outs[i] == NULL && bags[i + 1] == bags[i]
    ensures forall i :: 0 <= i < |ops| && ops[i].Pop? && |bags[i]| != 0 ==> outs[i] in bags[i] && bags[i + 1] == bags[i] - multiset{outs[i]}
    ensures heap.ranking.ByPointer? ==>
              forall i, y :: 0 <= i < |ops| && ops[i].Pop? && y in bags[i] ==> outs[i] <= y
    ensures heap.ranking.ByCallback? ==>
              forall i, y :: 0 <= i < |ops| && ops[i].Pop? && y in bags[i] ==> heap.ranking.cmp(outs[i], y) != 1
    ensures bags[0] == old(multiset(heap.Contents())) && bags[|ops|] == multiset(heap.Contents())
  {
    outs, bags := [], [multiset(heap.Contents())];
    assert QueueRun(heap.ranking, bags, ops[..0], outs);
    hide QueueStep;
    hide QueueRun;
    hide TotalPreorder;
    hide HeapOrdered;
    hide HeapCapacity;
    for i := 0 to |ops|
      invariant heap.Valid() && (heap.buckets == old(heap.buckets) || fresh(heap.buckets))
      invariant heap.count == SizeAfter(old(heap.count), ops[..i])
      invariant |bags| == i + 1 && bags[0] == old(multiset(heap.Contents())) && bags[i] == multiset(heap.Contents())
      invariant QueueRun(heap.ranking, bags, ops[..i], outs)
    {
      assert ops[..i + 1][..i] == ops[..i];
      var out := Step(heap, ops[i]);
      QueueRunStep(heap.ranking, bags, ops, outs, i, out, multiset(heap.Contents()));
      outs, bags := outs + [out], bags + [multiset(heap.Contents())];
    }
    assert ops[..|ops|] == ops;
    QueueRunMeans(heap.ranking, bags, ops, outs);
  }

  lemma QueueRunMeans(rk: Ranking, bags: seq<multiset<Ptr>>, ops: seq<HeapOp>, outs: seq<Ptr>)
    requires QueueRun(rk, bags, ops, outs)
    ensures |bags| == |ops| + 1 && |outs| == |ops|
    ensures forall i :: 0 <= i < |ops| && ops[i].Push? ==> bags[i + 1] == bags[i] + multiset{ops[i].value}
    ensures forall i :: 0 <= i < |ops| && ops[i].Pop? && |bags[i]| == 0 ==> outs[i] == NULL && bags[i + 1] == bags[i]
    ensures forall i :: 0 <= i < |ops| && ops[i].Pop? && |bags[i]| != 0 ==> outs[i] in bags[i] && bags[i + 1] == bags[i] - multiset{outs[i]}
    ensures rk.ByPointer? ==> forall i, y :: 0 <= i < |ops| && ops[i].Pop? && y in bags[i] ==> outs[i] <= y
    ensures rk.ByCallback? ==> forall i, y :: 0 <= i < |ops| && ops[i].Pop? && y in bags[i] ==> rk.cmp(outs[i], y) != 1
  {
    forall i | 0 <= i < |ops| && ops[i].Push?
      ensures bags[i + 1] == bags[i] + multiset{ops[i].value}
    {
      assert QueueStep(rk, bags[i], ops[i], outs[i], bags[i + 1]);
    }
    forall i | 0 <= i < |ops| && ops[i].Pop? && |bags[i]| == 0
      ensures outs[i] == NULL && bags[i + 1] == bags[i]
    {
      assert QueueStep(rk, bags[i], ops[i], outs[i], bags[i + 1]);
    }
    forall i | 0 <= i < |ops| && ops[i].Pop? && |bags[i]| != 0
      ensures outs[i] in bags[i] && bags[i + 1] == bags[i] - multiset{outs[i]}
      ensures forall y :: y in bags[i] ==> !Gt(rk, outs[i], y)
    {
      assert QueueStep(rk, bags[i], ops[i], outs[i], bags[i + 1]);
    }
  }
}
