/**
 CFArray's mutable form: a deque of buckets with slack on both sides, in which
 replacing a range moves one of the two remaining regions, both, or everything to a
 larger store.
 */
module CFArray {
  import opened Bits
  import opened Memory

  /** A `const void *`; NULL is 0. */
  type Ptr = nat
  const NULL: Ptr := 0

  /** A call of the retain callback, with the pointer it returned, or of the release callback. */
  datatype Event = Retain(p: Ptr) | Release(p: Ptr)

  ghost function Retained(trace: seq<Event>): multiset<Ptr> {
    if trace == [] then multiset{} else
      var last := trace[|trace| - 1];
      Retained(trace[..|trace| - 1]) + if last.Retain? then multiset{last.p} else multiset{}
  }

  ghost function Released(trace: seq<Event>): multiset<Ptr> {
    if trace == [] then multiset{} else
      var last := trace[|trace| - 1];
      Released(trace[..|trace| - 1]) + if last.Release? then multiset{last.p} else multiset{}
  }

  ghost function Retains(ps: seq<Ptr>): (t: seq<Event>)
    ensures |t| == |ps| && forall i :: 0 <= i < |t| ==> t[i] == Retain(ps[i])
  {
    seq(|ps|, i requires 0 <= i < |ps| => Retain(ps[i]))
  }

  ghost function Releases(ps: seq<Ptr>): (t: seq<Event>)
    ensures |t| == |ps| && forall i :: 0 <= i < |t| ==> t[i] == Release(ps[i])
  {
    seq(|ps|, i requires 0 <= i < |ps| => Release(ps[i]))
  }

  lemma TraceSnoc(trace: seq<Event>, e: Event)
    ensures Retained(trace + [e]) == Retained(trace) + if e.Retain? then multiset{e.p} else multiset{}
    ensures Released(trace + [e]) == Released(trace) + if e.Release? then multiset{e.p} else multiset{}
  {
  }

  lemma MultisetSnoc(ps: seq<Ptr>)
    requires ps != []
    ensures multiset(ps) == multiset(ps[..|ps| - 1]) + multiset{ps[|ps| - 1]}
  {
    assert ps == ps[..|ps| - 1] + [ps[|ps| - 1]];
  }

  lemma {:induction false} CountRetains(trace: seq<Event>, ps: seq<Ptr>)
    ensures Retained(trace + Retains(ps)) == Retained(trace) + multiset(ps)
    ensures Released(trace + Retains(ps)) == Released(trace)
  {
    hide Retained;
    hide Released;
    if ps == [] {
      assert trace + Retains(ps) == trace;
    } else {
      var n := |ps| - 1;
      CountRetains(trace, ps[..n]);
      MultisetSnoc(ps);
      TraceSnoc(trace + Retains(ps[..n]), Retain(ps[n]));
      assert trace + Retains(ps) == trace + Retains(ps[..n]) + [Retain(ps[n])];
    }
  }

  lemma {:induction false} CountReleases(trace: seq<Event>, ps: seq<Ptr>)
    ensures Released(trace + Releases(ps)) == Released(trace) + multiset(ps)
    ensures Retained(trace + Releases(ps)) == Retained(trace)
  {
    hide Retained;
    hide Released;
    if ps == [] {
      assert trace + Releases(ps) == trace;
    } else {
      var n := |ps| - 1;
      CountReleases(trace, ps[..n]);
      MultisetSnoc(ps);
      TraceSnoc(trace + Releases(ps[..n]), Release(ps[n]));
      assert trace + Releases(ps) == trace + Releases(ps[..n]) + [Release(ps[n])];
    }
  }

  lemma ReleasesStep(trace: seq<Event>, s: seq<Ptr>, lo: nat, i: nat)
    requires lo <= i < |s|
    ensures trace + Releases(s[lo..i]) + [Release(s[i])] == trace + Releases(s[lo..i + 1])
  {
  }

  /** What replacing a range means. */
  ghost function Replaced(s: seq<Ptr>, loc: nat, len: nat, ps: seq<Ptr>): seq<Ptr>
    requires loc + len <= |s|
  {
    s[..loc] + ps + s[loc + len..]
  }

  lemma ReplacedMeans(s: seq<Ptr>, loc: nat, len: nat, ps: seq<Ptr>)
    requires loc + len <= |s|
    ensures Replaced(s, loc, len, ps) == s[..loc] + ps + s[loc + len..]
    ensures forall i :: 0 <= i < |ps| ==> Replaced(s, loc, len, ps)[loc + i] == ps[i]
  {
  }

  /** Retaining the new values and releasing the old ones keeps retains and releases in step with the contents. */
  lemma ReplaceBalances(trace: seq<Event>, s: seq<Ptr>, loc: nat, len: nat, ps: seq<Ptr>)
    requires loc + len <= |s| && Retained(trace) == Released(trace) + multiset(s)
    ensures var after := trace + Retains(ps) + Releases(s[loc..loc + len]);
            Retained(after) == Released(after) + multiset(Replaced(s, loc, len, ps))
  {
    hide Retained;
    hide Released;
    CountRetains(trace, ps);
    CountReleases(trace + Retains(ps), s[loc..loc + len]);
    assert s == s[..loc] + s[loc..loc + len] + s[loc + len..];
  }

  /**
   Regions A (`a` cells) and C (`c` cells) of one store, `b` cells apart from `l` on,
   reappear in another from `l'` on, `b'` cells apart.
   */
  ghost predicate Opened(cells: seq<Ptr>, l: nat, b: nat, cells': seq<Ptr>, l': nat, b': nat, a: nat, c: nat) {
    && l + a + b + c <= |cells| && l' + a + b' + c <= |cells'|
    && Part(cells', l', a) == Part(cells, l, a)
    && Part(cells', l' + a + b', c) == Part(cells, l + a + b, c)
  }

  /** Writing A and then C, or C and then A, leaves both when they do not overlap. */
  lemma WriteBoth(cells: seq<Ptr>, d: nat, ps: seq<Ptr>, e: nat, qs: seq<Ptr>)
    requires d + |ps| <= |cells| && e + |qs| <= |cells| && (d + |ps| <= e || e + |qs| <= d)
    ensures Part(Written(Written(cells, d, ps), e, qs), d, |ps|) == ps
    ensures Part(Written(Written(cells, d, ps), e, qs), e, |qs|) == qs
  {
    hide Written;
    hide Part;
    WrittenInside(cells, d, ps);
    WrittenOutside(Written(cells, d, ps), e, qs, d, |ps|);
    WrittenInside(Written(cells, d, ps), e, qs);
  }

  lemma OverwriteBalances(trace: seq<Event>, s: seq<Ptr>, i: nat, p: Ptr)
    requires i < |s| && Retained(trace) == Released(trace) + multiset(s)
    ensures var after := trace + [Retain(p)] + [Release(s[i])];
            Retained(after) == Released(after) + multiset(s[i := p])
  {
  }

  lemma ContentsParts(cells: seq<Ptr>, l: nat, a: nat, b: nat, c: nat)
    requires l + a + b + c <= |cells|
    ensures var s := cells[l..l + a + b + c];
            && s[..a] == Part(cells, l, a) && s[a + b..] == Part(cells, l + a + b, c)
            && s[a..a + b] == cells[l + a..l + a + b]
  {
    var s := cells[l..l + a + b + c];
    var middle, expected := s[a..a + b], cells[l + a..l + a + b];
    assert |middle| == |expected|;
    forall i | 0 <= i < b
      ensures middle[i] == expected[i]
    {
      assert middle[i] == s[a + i];
    }
  }

  lemma CopiedContents(blank: seq<Ptr>, cells: seq<Ptr>, l: nat, n: nat)
    requires |cells| <= |blank| && l + n <= |cells|
    ensures Written(blank, 0, Part(cells, 0, |cells|))[l..l + n] == cells[l..l + n]
  {
  }

  lemma SamePart(cells: seq<Ptr>, cells': seq<Ptr>, lo: nat, n: nat)
    requires lo + n <= |cells| == |cells'| && forall j :: lo <= j < lo + n ==> cells'[j] == cells[j]
    ensures Part(cells', lo, n) == Part(cells, lo, n)
  {
  }

  ghost predicate SameOutside(cells: seq<Ptr>, cells': seq<Ptr>, at: nat, len: nat) {
    |cells| == |cells'| && forall j :: 0 <= j < |cells| && !(at <= j < at + len) ==> cells'[j] == cells[j]
  }

  /** Changing region B leaves regions A and C of the contents where they are. */
  lemma StillAround(s: seq<Ptr>, cells: seq<Ptr>, cells': seq<Ptr>, l: nat, a: nat, b: nat, c: nat)
    requires l + a + b + c <= |cells| && SameOutside(cells, cells', l + a, b)
    requires s == cells[l..l + a + b + c]
    ensures s[a..a + b] == cells[l + a..l + a + b]
    ensures Part(cells', l, a) == s[..a] && Part(cells', l + a + b, c) == s[a + b..]
  {
    hide Part;
    ContentsParts(cells, l, a, b, c);
    SamePart(cells, cells', l, a);
    SamePart(cells, cells', l + a + b, c);
  }

  lemma NoParts(cells: seq<Ptr>, l: nat, n: nat)
    requires l + n <= |cells|
    ensures Part(cells, l, 0) == [] && Part(cells, l + n, 0) == []
  {
  }

  class MutableArray {
    const retains: bool
    const releases: bool
    /** The pointer the retain callback returns for a value. */
    const retained: Ptr -> Ptr

    var count: nat
    var leftIdx: nat
    var store: array?<Ptr>

    ghost var trace: seq<Event>

    ghost predicate Shape()
      reads `count, `leftIdx, `store
    {
      if store == null then count == 0 else
        leftIdx + count <= store.Length && 4 <= store.Length <= 0x4000_0000
    }

    ghost function Contents(): (s: seq<Ptr>)
      requires Shape()
      reads `count, `leftIdx, `store, store
      ensures |s| == count
    {
      if store == null then [] else store[..][leftIdx..leftIdx + count]
    }

    /** With both callbacks, every retain is either released or accounted for by one occurrence. */
    ghost predicate Valid()
      reads `count, `leftIdx, `store, `trace, store
    {
      && Shape()
      && (retains && releases ==> Retained(trace) == Released(trace) + multiset(Contents()))
    }

    constructor (retains: bool, releases: bool, retained: Ptr -> Ptr)
      ensures Valid() && Contents() == [] && store == null && trace == []
      ensures this.retains == retains && this.releases == releases && this.retained == retained
    {
      this.retains, this.releases, this.retained := retains, releases, retained;
      count, leftIdx, store, trace := 0, 0, null, [];
    }

    // ------------------------------------------------------------ the regions around a gap

    /** The slack kept when a store is reallocated. */
    function Wiggle(): nat
      requires store != null
      reads `store
    {
      if store.Length / 0x2_0000 < 4 then 4 else store.Length / 0x2_0000
    }

    method Reallocate(a: nat, b: nat, c: nat, newCount: nat, capacity: nat)
      requires Shape() && store != null && a + b + c == count
      requires a + newCount + c <= capacity && 4 <= capacity <= 0x4000_0000
      modifies `leftIdx, `store
      ensures fresh(store) && store.Length == capacity
      ensures Opened(old(store[..]), old(leftIdx), b, store[..], leftIdx, newCount, a, c)
    {
      hide Written;
      hide Part;
      var newStore := new Ptr[capacity];
      var newL := (capacity - (a + newCount + c)) / 2;
      var oldC0 := leftIdx + a + b;
      var newC0 := newL + a + newCount;
      ghost var blank := newStore[..];
      Memmove(newStore, newL, store, leftIdx, a, true);
      Memmove(newStore, newC0, store, oldC0, c, true);
      WriteBoth(blank, newL, Part(store[..], leftIdx, a), newC0, Part(store[..], oldC0, c));
      leftIdx, store := newL, newStore;
    }

    /** Region C closes up to the gap from the right, or gives way to it. */
    method MoveC(a: nat, b: nat, c: nat, newCount: nat)
      requires Shape() && store != null && a + b + c == count && leftIdx + a + newCount + c <= store.Length
      modifies store
      ensures Opened(old(store[..]), leftIdx, b, store[..], leftIdx, newCount, a, c)
    {
      hide Written;
      hide Part;
      ghost var cells := store[..];
      var oldC0 := leftIdx + a + b;
      var newC0 := leftIdx + a + newCount;
      Memmove(store, newC0, store, oldC0, c, newC0 <= oldC0);
      WrittenInside(cells, newC0, Part(cells, oldC0, c));
      WrittenOutside(cells, newC0, Part(cells, oldC0, c), leftIdx, a);
      if newC0 < oldC0 {
        ClearOutside(newC0 + c, oldC0 - newC0, leftIdx, a, newC0, c);
      }
    }

    /** Region A closes up to the gap from the left, or gives way to it. */
    method MoveA(a: nat, b: nat, c: nat, newCount: nat)
      requires Shape() && store != null && a + b + c == count && newCount <= leftIdx + b
      modifies `leftIdx, store
      ensures Opened(old(store[..]), old(leftIdx), b, store[..], leftIdx, newCount, a, c)
    {
      hide Written;
      hide Part;
      ghost var cells := store[..];
      var oldL := leftIdx;
      var newL := oldL + b - newCount;
      leftIdx := newL;
      Memmove(store, newL, store, oldL, a, newL <= oldL);
      WrittenInside(cells, newL, Part(cells, oldL, a));
      WrittenOutside(cells, newL, Part(cells, oldL, a), oldL + a + b, c);
      if oldL < newL {
        ClearOutside(oldL, newL - oldL, newL, a, oldL + a + b, c);
      }
    }

    /** Zeroes newly exposed cells; two other stretches stay as they are. */
    method ClearOutside(d: nat, n: nat, lo: nat, m: nat, lo2: nat, m2: nat)
      requires store != null && d + n <= store.Length && lo + m <= store.Length && lo2 + m2 <= store.Length
      requires (lo + m <= d || d + n <= lo) && (lo2 + m2 <= d || d + n <= lo2)
      modifies store
      ensures Part(store[..], lo, m) == old(Part(store[..], lo, m))
      ensures Part(store[..], lo2, m2) == old(Part(store[..], lo2, m2))
    {
      hide Written;
      hide Part;
      ghost var cells := store[..];
      Memset(store, d, n, NULL);
      WrittenOutside(cells, d, Filled(n, NULL), lo, m);
      WrittenOutside(cells, d, Filled(n, NULL), lo2, m2);
    }

    /** Both regions move within the store, A first because it moves to the left. */
    method RecenterLeft(a: nat, b: nat, c: nat, newCount: nat, newL: nat)
      requires Shape() && store != null && a + b + c == count && newL < leftIdx && newL + a + newCount + c <= store.Length
      modifies `leftIdx, store
      ensures leftIdx == newL
      ensures Opened(old(store[..]), old(leftIdx), b, store[..], leftIdx, newCount, a, c)
    {
      hide Written;
      hide Part;
      ghost var cells := store[..];
      var oldL := leftIdx;
      var oldC0 := oldL + a + b;
      var newC0 := newL + a + newCount;
      leftIdx := newL;
      Memmove(store, newL, store, oldL, a, true);
      WrittenOutside(cells, newL, Part(cells, oldL, a), oldC0, c);
      Memmove(store, newC0, store, oldC0, c, newC0 <= oldC0);
      WriteBoth(cells, newL, Part(cells, oldL, a), newC0, Part(cells, oldC0, c));
      if newC0 < oldC0 {
        ClearOutside(newC0 + c, oldC0 - newC0, newL, a, newC0, c);
      }
    }

    /** Both regions move within the store, C first because A moves to the right. */
    method RecenterRight(a: nat, b: nat, c: nat, newCount: nat, newL: nat)
      requires Shape() && store != null && a + b + c == count && leftIdx <= newL && newL + a + newCount + c <= store.Length
      modifies `leftIdx, store
      ensures leftIdx == newL
      ensures Opened(old(store[..]), old(leftIdx), b, store[..], leftIdx, newCount, a, c)
    {
      hide Written;
      hide Part;
      ghost var cells := store[..];
      var oldL := leftIdx;
      var oldC0 := oldL + a + b;
      var newC0 := newL + a + newCount;
      leftIdx := newL;
      Memmove(store, newC0, store, oldC0, c, newC0 <= oldC0);
      WrittenOutside(cells, newC0, Part(cells, oldC0, c), oldL, a);
      Memmove(store, newL, store, oldL, a, newL <= oldL);
      WriteBoth(cells, newC0, Part(cells, oldC0, c), newL, Part(cells, oldL, a));
      if oldL < newL {
        ClearOutside(oldL, newL - oldL, newL, a, newC0, c);
      }
    }

    /**
     Opens a gap of `newCount` cells where the `len` cells at `loc` were, by whichever
     of the five outcomes the sizes of the regions select.
     */
    method RepositionDequeRegions(loc: nat, len: nat, newCount: nat)
      requires Shape() && store != null && loc + len <= count
      requires count - len + newCount + Wiggle() < 0x4000_0000
      modifies `leftIdx, `store, store
      ensures store != null && (store == old(store) || fresh(store)) && 4 <= store.Length <= 0x4000_0000
      ensures Opened(old(store[..]), old(leftIdx), len, store[..], leftIdx, newCount, loc, count - len - loc)
      // a larger store exactly when the old one is too small or too full
      ensures var (future, capacity, wiggle) := (count - len + newCount, old(store.Length), old(Wiggle()));
              if capacity < future || (count < future && capacity - count < wiggle) then
                store != old(store) && store.Length == RoundUpCapacity(future + wiggle)
              else store == old(store)
    {
      hide Opened;
      hide RoundUpCapacity;
      var futureCnt := count - len + newCount;
      var L, A, B := leftIdx, loc, len;
      var C := count - B - A;
      var R := store.Length - count - L;
      var numNewElems := newCount - B;
      var wiggle := Wiggle();
      if store.Length < futureCnt || (count < futureCnt && L + R < wiggle) {
        assert RoundUpCapacity(futureCnt + wiggle) <= 0x4000_0000 by { RoundUpBounds(futureCnt + wiggle); }
        RoundUpBounds(futureCnt + wiggle);
        Reallocate(A, B, C, newCount, RoundUpCapacity(futureCnt + wiggle));
      } else if (numNewElems < 0 && C < A) || (numNewElems <= R && C < A) {
        MoveC(A, B, C, newCount);
      } else if numNewElems < 0 || (numNewElems <= L && A <= C) {
        MoveA(A, B, C, newCount);
      } else {
        var newL := (L + R - numNewElems) / 2;
        newL := newL - newL / 2;
        if newL < L {
          RecenterLeft(A, B, C, newCount, newL);
        } else {
          RecenterRight(A, B, C, newCount, newL);
        }
      }
    }

    // ------------------------------------------------------------ replacing a range

    /** The values to store: what the retain callback returns for each, in order. */
    ghost function Stored(values: seq<Ptr>): (r: seq<Ptr>)
      ensures |r| == |values|
      ensures forall i :: 0 <= i < |r| ==> r[i] == if retains then retained(values[i]) else values[i]
    {
      seq(|values|, i requires 0 <= i < |values| => if retains then retained(values[i]) else values[i])
    }

    method RetainValues(values: seq<Ptr>) returns (newv: seq<Ptr>)
      modifies `trace
      ensures newv == Stored(values)
      ensures trace == old(trace) + if retains then Retains(newv) else []
    {
      newv := values;
      if retains {
        newv := [];
        for i := 0 to |values|
          invariant newv == Stored(values)[..i]
          invariant trace == old(trace) + Retains(newv)
        {
          newv := newv + [retained(values[i])];
          trace := trace + [Retain(retained(values[i]))];
        }
      }
    }

    /** Regions A and C of `s` sit where they belong; region B may hold anything. */
    ghost predicate Around(s: seq<Ptr>, loc: nat, len: nat)
      requires Shape() && loc + len <= count
      reads `count, `leftIdx, `store, store
    {
      && |s| == count
      && (store != null ==> Part(store[..], leftIdx, loc) == s[..loc])
      && (store != null ==> Part(store[..], leftIdx + loc + len, count - loc - len) == s[loc + len..])
    }

    /** The loop that releases a range and clears its buckets. */
    method ClearRange(at: nat, len: nat)
      requires store != null && at + len <= store.Length
      modifies store, `trace
      ensures trace == old(trace) + if releases then Releases(old(store[..])[at..at + len]) else []
      ensures SameOutside(old(store[..]), store[..], at, len)
    {
      hide Releases;
      ghost var cells := store[..];
      assert Releases(cells[at..at]) == [];
      for i := at to at + len
        invariant forall j :: 0 <= j < store.Length && !(at <= j < i) ==> store[j] == cells[j]
        invariant trace == old(trace) + if releases then Releases(cells[at..i]) else []
      {
        if releases {
          ReleasesStep(old(trace), cells, at, i);
          trace := trace + [Release(store[i])];
        }
        store[i] := NULL;
      }
    }

    /** Releases a range, if there is anything to release, and leaves regions A and C alone. */
    method ReleaseValues(loc: nat, len: nat)
      requires Shape() && loc + len <= count
      modifies store, `trace
      ensures trace == old(trace) + if releases then Releases(old(Contents())[loc..loc + len]) else []
      ensures Around(old(Contents()), loc, len)
    {
      hide Part;
      hide SameOutside;
      ghost var s := Contents();
      if store == null {
        assert Releases(s[loc..loc + len]) == [];
        return;
      }
      hide Releases;
      var at := leftIdx + loc;
      ghost var cells, gone := store[..], s[loc..loc + len];
      ClearRange(at, len);
      StillAround(s, cells, store[..], leftIdx, loc, len, count - loc - len);
      assert gone == cells[at..at + len];
    }

    /** Copies the new values into the gap and takes over the new count. */
    method FillGap(loc: nat, newv: seq<Ptr>, futureCnt: nat)
      requires store != null && leftIdx + futureCnt <= store.Length && loc + |newv| <= futureCnt
      requires 4 <= store.Length <= 0x4000_0000
      modifies store, `count
      ensures count == futureCnt && Shape()
      ensures Contents() == old(Part(store[..], leftIdx, loc)) + newv
                            + old(Part(store[..], leftIdx + loc + |newv|, futureCnt - loc - |newv|))
    {
      var at := leftIdx + loc;
      ghost var cells := store[..];
      for i := 0 to |newv|
        modifies store
        invariant forall j :: 0 <= j < store.Length ==> store[j] == if at <= j < at + i then newv[j - at] else cells[j]
      {
        store[at + i] := newv[i];
      }
      assert store[..] == Written(cells, at, newv);
      WrittenAround(cells, leftIdx, loc, newv, futureCnt - loc - |newv|);
      count := futureCnt;
    }

    /** Opens the gap: a first store for an empty array, a repositioning when the lengths differ. */
    method MakeGap(loc: nat, len: nat, newCount: nat)
      requires Shape() && loc + len <= count
      requires count - len + newCount + (if store == null then 0 else Wiggle()) < 0x4000_0000
      modifies `leftIdx, `store, store
      ensures store != null && (store == old(store) || fresh(store)) && 4 <= store.Length <= 0x4000_0000
      ensures leftIdx + count - len + newCount <= store.Length
      ensures old(store) != null ==>
        Opened(old(if store == null then [] else store[..]), old(leftIdx), len, store[..], leftIdx, newCount, loc, count - len - loc)
      ensures old(store) == null ==> store.Length == RoundUpCapacity(count - len + newCount)
    {
      hide Part;
      if store == null {
        RoundUpBounds(count - len + newCount);
        hide RoundUpCapacity;
        var capacity := RoundUpCapacity(count - len + newCount);
        store := new Ptr[capacity];
        leftIdx := (capacity - newCount) / 2;
      } else if len != newCount {
        RepositionDequeRegions(loc, len, newCount);
      }
    }

    /** Puts the new values between regions A and C of `s`. */
    method Splice(loc: nat, len: nat, newv: seq<Ptr>, ghost s: seq<Ptr>)
      requires Shape() && loc + len <= count && Around(s, loc, len)
      requires count - len + |newv| + (if store == null then 0 else Wiggle()) < 0x4000_0000
      modifies `count, `leftIdx, `store, store
      ensures Shape() && (store == old(store) || fresh(store))
      ensures Contents() == Replaced(s, loc, len, newv)
    {
      hide Part;
      var futureCnt := count - len + |newv|;
      MakeGap(loc, len, |newv|);
      if old(store) == null {
        NoParts(store[..], leftIdx, |newv|);
      }
      FillGap(loc, newv, futureCnt);
    }

    /**
     Replaces a range.  All new values are retained before any old one is released,
     and the result is the splice, whichever way room was made for it.
     */
    method ReplaceValues(loc: nat, len: nat, newValues: seq<Ptr>)
      requires Valid() && loc + len <= count
      requires count - len + |newValues| + (if store == null then 0 else Wiggle()) < 0x4000_0000
      modifies this, store
      ensures Valid() && (store == old(store) || fresh(store))
      ensures Contents() == old(Contents())[..loc] + Stored(newValues) + old(Contents())[loc + len..]
      ensures forall i :: 0 <= i < |newValues| ==> Contents()[loc + i] == if retains then retained(newValues[i]) else newValues[i]
      ensures trace == old(trace) + (if retains then Retains(Stored(newValues)) else [])
                       + if releases then Releases(old(Contents())[loc..loc + len]) else []
    {
      hide Retained;
      hide Released;
      hide Replaced;
      hide Around;
      hide Contents;
      ghost var s := Contents();
      var newv := RetainValues(newValues);
      ReleaseValues(loc, len);
      Splice(loc, len, newv, s);
      ReplacedMeans(s, loc, len, newv);
      if retains && releases {
        ReplaceBalances(old(trace), s, loc, len, newv);
      }
    }

    // ------------------------------------------------------------ other operations

    method GetValueAtIndex(idx: nat) returns (p: Ptr)
      requires Shape() && idx < count
      ensures p == Contents()[idx]
    {
      p := store[leftIdx + idx];
    }

    /** Appends, or replaces one value, retaining the new one before releasing the old one. */
    method SetValueAtIndex(idx: nat, value: Ptr)
      requires Valid() && idx <= count
      requires idx == count ==> count + 1 + (if store == null then 0 else Wiggle()) < 0x4000_0000
      modifies this, store
      ensures Valid() && (store == old(store) || fresh(store))
      ensures var p := if retains then retained(value) else value;
              Contents() == if idx == old(count) then old(Contents()) + [p] else old(Contents())[idx := p]
    {
      if idx == count {
        ReplaceValues(idx, 0, [value]);
      } else {
        OverwriteValue(idx, value);
      }
    }

    method WriteBucket(idx: nat, p: Ptr)
      requires Shape() && idx < count
      modifies store
      ensures Contents() == old(Contents())[idx := p]
    {
      store[leftIdx + idx] := p;
      assert Contents() == old(Contents())[idx := p];
    }

    /** The new value is retained before the old one is released. */
    method OverwriteValue(idx: nat, value: Ptr)
      requires Valid() && idx < count
      modifies store, `trace
      ensures Valid()
      ensures Contents() == old(Contents())[idx := if retains then retained(value) else value]
      ensures trace == old(trace) + (if retains then [Retain(retained(value))] else [])
                       + if releases then [Release(old(Contents())[idx])] else []
    {
      hide Retained;
      hide Replaced;
      hide Released;
      hide Contents;
      ghost var s, t := Contents(), trace;
      var stored := if retains then retained(value) else value;
      LogRetain(stored);
      var oldValue := GetValueAtIndex(idx);
      WriteBucket(idx, stored);
      LogRelease(oldValue);
      if retains && releases {
        OverwriteBalances(t, s, idx, stored);
      }
    }

    method LogRetain(p: Ptr)
      modifies `trace
      ensures trace == old(trace) + if retains then [Retain(p)] else []
    {
      if retains {
        trace := trace + [Retain(p)];
      }
    }

    method LogRelease(p: Ptr)
      modifies `trace
      ensures trace == old(trace) + if releases then [Release(p)] else []
    {
      if releases {
        trace := trace + [Release(p)];
      }
    }

    /** Exchanges two values; nothing is retained or released. */
    method ExchangeValuesAtIndices(i: nat, j: nat)
      requires Valid() && i < count && j < count
      modifies store
      ensures Valid()
      ensures Contents() == old(Contents())[i := old(Contents())[j]][j := old(Contents())[i]]
    {
      hide Retained;
      hide Released;
      ghost var s := Contents();
      var tmp := store[leftIdx + i];
      store[leftIdx + i] := store[leftIdx + j];
      store[leftIdx + j] := tmp;
      assert Contents() == s[i := s[j]][j := s[i]];
    }

    /** Releases everything and gives the store back. */
    method RemoveAllValues()
      requires Valid()
      modifies this, store
      ensures Valid() && Contents() == [] && store == null
      ensures trace == old(trace) + if releases then Releases(old(Contents())) else []
    {
      hide Retained;
      hide Released;
      ghost var s := Contents();
      ReleaseValues(0, count);
      assert s[0..|s|] == s;
      count, store := 0, null;
      CountReleases(old(trace), s);
    }

    /** Moves the buckets to a store of the rounded capacity, which must not be smaller than the present one. */
    method SetCapacity(cap: nat)
      requires Valid() && count <= cap < 0x4000_0000
      requires store != null ==> store.Length <= RoundUpCapacity(cap)
      modifies `leftIdx, `store
      ensures Valid() && fresh(store) && store.Length == RoundUpCapacity(cap)
      ensures Contents() == old(Contents())
    {
      RoundUpBounds(cap);
      hide RoundUpCapacity;
      hide Retained;
      hide Released;
      hide Written;
      hide Part;
      var capacity := RoundUpCapacity(cap);
      var deque := new Ptr[capacity];
      if store == null {
        leftIdx := capacity / 2;
      } else {
        ghost var blank := deque[..];
        Memmove(deque, 0, store, 0, store.Length, true);
        CopiedContents(blank, store[..], leftIdx, count);
      }
      store := deque;
    }
  }
}
