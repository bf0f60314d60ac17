/** `memmove` and `memset` of minlibc, on cells of any type. */
module Memory {

  /** The `n` cells from index `lo` on. */
  ghost function Part<T>(cells: seq<T>, lo: nat, n: nat): (r: seq<T>)
    requires lo + n <= |cells|
    ensures |r| == n
  {
    cells[lo..lo + n]
  }

  /** `cells` with `chunk` written from index `d` on. */
  ghost function Written<T>(cells: seq<T>, d: nat, chunk: seq<T>): (r: seq<T>)
    requires d + |chunk| <= |cells|
    ensures |r| == |cells|
  {
    cells[..d] + chunk + cells[d + |chunk|..]
  }

  lemma WrittenInside<T>(cells: seq<T>, d: nat, chunk: seq<T>)
    requires d + |chunk| <= |cells|
    ensures Part(Written(cells, d, chunk), d, |chunk|) == chunk
  {
  }

  lemma WrittenOutside<T>(cells: seq<T>, d: nat, chunk: seq<T>, lo: nat, n: nat)
    requires d + |chunk| <= |cells| && lo + n <= |cells| && (lo + n <= d || d + |chunk| <= lo)
    ensures Part(Written(cells, d, chunk), lo, n) == Part(cells, lo, n)
  {
  }

  lemma WrittenAround<T>(cells: seq<T>, l: nat, a: nat, chunk: seq<T>, c: nat)
    requires l + a + |chunk| + c <= |cells|
    ensures Part(Written(cells, l + a, chunk), l, a + |chunk| + c) ==
            Part(cells, l, a) + chunk + Part(cells, l + a + |chunk|, c)
  {
  }

  /**
   Copies `n` cells as if through a temporary buffer, whatever the overlap.
   `ascending` is the outcome of comparing the two pointers: within one object it is
   the order of the indices, across objects it may be either.
   */
  method Memmove<T>(dst: array<T>, d: nat, src: array<T>, s: nat, n: nat, ascending: bool)
    requires d + n <= dst.Length && s + n <= src.Length
    requires dst == src ==> (ascending <==> d <= s)
    modifies dst
    ensures dst[..] == Written(old(dst[..]), d, Part(old(src[..]), s, n))
    ensures forall i :: 0 <= i < dst.Length ==> dst[i] == if d <= i < d + n then old(src[s + i - d]) else old(dst[i])
  {
    ghost var chunk := src[..][s..s + n];
    if ascending {
      for i := 0 to n
        invariant forall j :: d <= j < d + i ==> dst[j] == chunk[j - d]
        invariant forall j :: 0 <= j < dst.Length && !(d <= j < d + i) ==> dst[j] == old(dst[j])
      {
        assert src[s + i] == chunk[i];
        dst[d + i] := src[s + i];
      }
    } else {
      for i := n downto 0
        invariant forall j :: d + i <= j < d + n ==> dst[j] == chunk[j - d]
        invariant forall j :: 0 <= j < dst.Length && !(d + i <= j < d + n) ==> dst[j] == old(dst[j])
      {
        assert src[s + i] == chunk[i];
        dst[d + i] := src[s + i];
      }
    }
  }

  ghost function Filled<T>(n: nat, c: T): (r: seq<T>)
    ensures |r| == n && forall i :: 0 <= i < n ==> r[i] == c
  {
    seq(n, _ => c)
  }

  method Memset<T>(dst: array<T>, d: nat, n: nat, c: T)
    requires d + n <= dst.Length
    modifies dst
    ensures dst[..] == Written(old(dst[..]), d, Filled(n, c))
    ensures forall i :: 0 <= i < dst.Length ==> dst[i] == if d <= i < d + n then c else old(dst[i])
  {
    for i := 0 to n
      invariant forall j :: 0 <= j < dst.Length ==> dst[j] == if d <= j < d + i then c else old(dst[j])
    {
      dst[d + i] := c;
    }
  }

  // ---------------------------------------------------------------- why the direction matters

  /** What a copy that always ascends leaves in one object. */
  ghost function Ascending<T>(cells: seq<T>, d: nat, s: nat, n: nat): (r: seq<T>)
    requires d + n <= |cells| && s + n <= |cells|
    ensures |r| == |cells|
  {
    if n == 0 then cells else
      var before := Ascending(cells, d, s, n - 1);
      before[d + n - 1 := before[s + n - 1]]
  }

  /** Ascending is safe unless the destination starts inside the source. */
  lemma {:induction false} AscendingSafe<T>(cells: seq<T>, d: nat, s: nat, n: nat)
    requires d + n <= |cells| && s + n <= |cells| && (d <= s || s + n <= d)
    ensures Ascending(cells, d, s, n) == Written(cells, d, cells[s..s + n])
  {
    if n == 0 {
      assert Written(cells, d, cells[s..s]) == cells;
    } else {
      AscendingSafe(cells, d, s, n - 1);
      assert Written(cells, d, cells[s..s + n - 1])[s + n - 1] == cells[s + n - 1];
      assert Written(cells, d, cells[s..s + n - 1])[d + n - 1 := cells[s + n - 1]] == Written(cells, d, cells[s..s + n]);
    }
  }

  /** Otherwise the first cell of the source ends up where another belongs. */
  lemma {:induction false} AscendingRepeats<T>(cells: seq<T>, d: nat, s: nat, n: nat)
    requires d + n <= |cells| && s < d < s + n
    ensures Ascending(cells, d, s, n)[d] == cells[s]
    ensures d - s < n && Ascending(cells, d, s, n)[2 * d - s] == cells[s]
    decreases n
  {
    var m := d - s;
    AscendingSafe(cells, d, s, m);
    assert Ascending(cells, d, s, m)[d] == cells[s];
    assert Ascending(cells, d, s, m + 1)[d + m] == cells[s];
    AscendingStays(cells, d, s, m + 1, n, d);
    AscendingStays(cells, d, s, m + 1, n, d + m);
  }

  lemma {:induction false} AscendingStays<T>(cells: seq<T>, d: nat, s: nat, m: nat, n: nat, i: nat)
    requires d + n <= |cells| && s + n <= |cells| && m <= n && i < d + m
    ensures Ascending(cells, d, s, n)[i] == Ascending(cells, d, s, m)[i]
  {
    if m < n {
      AscendingStays(cells, d, s, m, n - 1, i);
    }
  }

  ghost predicate AscendingCorrect(len: nat, d: nat, s: nat, n: nat)
    requires d + n <= len && s + n <= len
  {
    forall cells: seq<int> :: |cells| == len ==> Ascending(cells, d, s, n) == Written(cells, d, cells[s..s + n])
  }

  /** Contents on which an ascending copy goes wrong. */
  lemma AscendingFails(len: nat, d: nat, s: nat, n: nat) returns (cells: seq<int>)
    requires d + n <= len && s < d < s + n
    ensures |cells| == len && Ascending(cells, d, s, n) != Written(cells, d, cells[s..s + n])
  {
    cells := seq(len, i => i);
    AscendingRepeats(cells, d, s, n);
    assert Written(cells, d, cells[s..s + n])[2 * d - s] == d;
  }

  /** The pointer comparison is exact: an ascending copy is a memmove on all contents iff the overlap is not of this kind. */
  lemma AscendingCorrectIff(len: nat, d: nat, s: nat, n: nat)
    requires d + n <= len && s + n <= len
    ensures AscendingCorrect(len, d, s, n) <==> d <= s || s + n <= d
  {
    hide Ascending;
    hide Written;
    if d <= s || s + n <= d {
      forall cells: seq<int> | |cells| == len
        ensures Ascending(cells, d, s, n) == Written(cells, d, cells[s..s + n])
      {
        AscendingSafe(cells, d, s, n);
      }
    } else {
      var cells := AscendingFails(len, d, s, n);
    }
  }
}
