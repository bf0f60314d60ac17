/** `strtok` of minlibc: tokens are cut out of the caller's buffer, with static state between calls. */
module Strtok {

  const NUL: char := '\0'

  // ---------------------------------------------------------------- what the tokens are

  /** `s[i..j]` is a maximal run of characters that are not delimiters. */
  ghost predicate IsRun(s: seq<char>, delims: seq<char>, i: int, j: int) {
    && 0 <= i < j <= |s|
    && (forall k :: i <= k < j ==> s[k] !in delims)
    && (i == 0 || s[i - 1] in delims)
    && (j == |s| || s[j] in delims)
  }

  /** The first position from `k` on that holds a delimiter, or the end. */
  ghost function RunEnd(s: seq<char>, delims: seq<char>, k: nat): (e: nat)
    requires k <= |s|
    ensures k <= e <= |s| && (e == |s| || s[e] in delims)
    ensures forall i :: k <= i < e ==> s[i] !in delims
    decreases |s| - k
  {
    if k == |s| || s[k] in delims then k else RunEnd(s, delims, k + 1)
  }

  /** The runs that begin at `k` or later, in order. */
  ghost function Spans(s: seq<char>, delims: seq<char>, k: nat): seq<(nat, nat)>
    requires k <= |s|
    decreases |s| - k
  {
    if k == |s| then [] else
    if s[k] in delims then Spans(s, delims, k + 1) else
    [(k, RunEnd(s, delims, k))] + Spans(s, delims, RunEnd(s, delims, k))
  }

  /** A place where no run is cut in two. */
  ghost predicate Boundary(s: seq<char>, delims: seq<char>, k: nat)
    requires k <= |s|
  {
    k == 0 || k == |s| || s[k - 1] in delims || s[k] in delims
  }

  lemma NoRunAt(s: seq<char>, delims: seq<char>, k: nat)
    requires k < |s| && s[k] in delims
    ensures forall i: nat, j: nat :: IsRun(s, delims, i, j) && k <= i <==> IsRun(s, delims, i, j) && k + 1 <= i
  {
  }

  lemma NotAtEnd(s: seq<char>, delims: seq<char>, k: nat, e: nat, i: nat, j: nat)
    requires k < e <= |s| && e == RunEnd(s, delims, k) && IsRun(s, delims, i, j) && e <= i
    ensures e < i
  {
  }

  /** The spans are exactly the maximal runs, each once and from left to right. */
  lemma {:induction false} SpansAreRuns(s: seq<char>, delims: seq<char>, k: nat)
    requires k <= |s| && Boundary(s, delims, k)
    ensures forall i: nat, j: nat :: (i, j) in Spans(s, delims, k) <==> IsRun(s, delims, i, j) && k <= i
    ensures forall a, b :: 0 <= a < b < |Spans(s, delims, k)| ==> Spans(s, delims, k)[a].1 < Spans(s, delims, k)[b].0
    decreases |s| - k
  {
    if k < |s| {
      hide IsRun;
      if s[k] in delims {
        SpansAreRuns(s, delims, k + 1);
        NoRunAt(s, delims, k);
      } else {
        var e := RunEnd(s, delims, k);
        SpansAreRuns(s, delims, e);
        RunsFrom(s, delims, k, e);
        var rest := Spans(s, delims, e);
        forall b | 0 <= b < |rest|
          ensures e < rest[b].0
        {
          assert rest[b] in rest;
          NotAtEnd(s, delims, k, e, rest[b].0, rest[b].1);
        }
      }
    }
  }

  /** A run that begins at `k` or later is the one at `k`, or begins after its end. */
  lemma RunsFrom(s: seq<char>, delims: seq<char>, k: nat, e: nat)
    requires k < e <= |s| && Boundary(s, delims, k) && s[k] !in delims && e == RunEnd(s, delims, k)
    ensures forall i: nat, j: nat :: IsRun(s, delims, i, j) && k <= i <==> (i, j) == (k, e) || (IsRun(s, delims, i, j) && e <= i)
  {
  }

  // ---------------------------------------------------------------- the function

  /** `strchr`: where a character first occurs, the terminator included, or -1 for NULL. */
  method Strchr(s: seq<char>, c: char) returns (p: int)
    ensures -1 <= p <= |s| && c !in s[..if p < 0 then |s| else p]
    ensures 0 <= p < |s| ==> s[p] == c
    ensures p == |s| ==> c == NUL
    ensures p == -1 ==> c != NUL
  {
    p := 0;
    while p < |s|
      invariant 0 <= p <= |s| && c !in s[..p]
    {
      if s[p] == c {
        return;
      }
      p := p + 1;
    }
    if c != NUL {
      p := -1;
    }
  }

  /** From position `p` on the buffer still holds the string `s` that it held at first. */
  ghost predicate HoldsFrom(cells: seq<char>, s: seq<char>, p: nat) {
    && p <= |s| < |cells| && cells[|s|] == NUL && NUL !in s
    && forall j :: p <= j < |s| ==> cells[j] == s[j]
  }

  /** The token at `i..j` stands in the buffer as a C string. */
  ghost predicate CutOut(cells: seq<char>, s: seq<char>, i: nat, j: nat) {
    i < j <= |s| && j < |cells| && cells[i..j] == s[i..j] && cells[j] == NUL
  }

  class State {
    /** Where the next search begins; NULL is a missing buffer. */
    var buffer: array?<char>
    var last: nat

    constructor ()
      ensures buffer == null
    {
      buffer, last := null, 0;
    }

    /** The spans still to come. */
    ghost function Pending(s: seq<char>, delims: seq<char>): seq<(nat, nat)>
      requires buffer != null ==> last <= |s|
      reads this
    {
      if buffer == null then [] else Spans(s, delims, last)
    }
  }

  method SkipDelimiters(cells: array<char>, p: nat, delim: seq<char>, ghost s: seq<char>) returns (q: nat)
    requires HoldsFrom(cells[..], s, p)
    ensures p <= q <= |s| && Spans(s, delim, q) == Spans(s, delim, p)
    ensures q == |s| || s[q] !in delim
  {
    q := p;
    while cells[q] != NUL
      invariant p <= q <= |s| && Spans(s, delim, q) == Spans(s, delim, p)
      decreases |s| - q
    {
      var at := Strchr(delim, cells[q]);
      if at < 0 {
        break;
      }
      q := q + 1;
    }
  }

  method FindEnd(cells: array<char>, p: nat, delim: seq<char>, ghost s: seq<char>) returns (q: nat)
    requires HoldsFrom(cells[..], s, p)
    ensures q == RunEnd(s, delim, p)
  {
    q := p;
    while cells[q] != NUL
      invariant p <= q <= |s| && RunEnd(s, delim, q) == RunEnd(s, delim, p)
      decreases |s| - q
    {
      var at := Strchr(delim, cells[q]);
      if 0 <= at {
        break;
      }
      q := q + 1;
    }
  }

  lemma FirstSpan(s: seq<char>, delims: seq<char>, k: nat)
    requires k <= |s| && (k == |s| || s[k] !in delims)
    ensures k == |s| ==> Spans(s, delims, k) == []
    ensures k < |s| ==> var e := RunEnd(s, delims, k);
                        k < e && Spans(s, delims, k) == [(k, e)] + Spans(s, delims, if e < |s| then e + 1 else e)
    ensures Spans(s, delims, |s|) == []
  {
  }

  /**
   One call.  A first call passes the buffer, later ones pass NULL; `s` is the string
   the buffer held before the first call.  The result is the next span's start, -1 for
   NULL, and the rest of the buffer is as it was.
   */
  method Next(st: State, str: array?<char>, delim: seq<char>, ghost s: seq<char>) returns (token: int)
    requires str != null ==> HoldsFrom(str[..], s, 0)
    requires str == null && st.buffer != null ==> HoldsFrom(st.buffer[..], s, st.last)
    modifies st, if str != null then str else st.buffer
    ensures st.buffer != null ==> st.last <= |s| && st.buffer == (if str != null then str else old(st.buffer))
    ensures st.buffer != null ==> HoldsFrom(st.buffer[..], s, st.last)
    ensures var spans := if str != null then Spans(s, delim, 0) else old(st.Pending(s, delim));
            var cells := if str != null then str else old(st.buffer);
            if spans == [] then token == -1 && st.buffer == null else
              && cells != null
              && token == spans[0].0
              && CutOut(cells[..], s, spans[0].0, spans[0].1)
              && st.Pending(s, delim) == spans[1..]
    ensures token == -1 ==> forall c: array<char> :: c in {str, old(st.buffer)} ==> c[..] == old(c[..])
    ensures 0 <= token ==> var cells := if str != null then str else old(st.buffer);
              cells != null && token <= cells.Length && cells[..token] == old(cells[..])[..token]
  {
    hide Spans;
    hide RunEnd;
    var cells, p := str, 0;
    if str == null {
      if st.buffer == null {
        return -1;
      }
      cells, p := st.buffer, st.last;
    }
    var start := SkipDelimiters(cells, p, delim, s);
    FirstSpan(s, delim, start);
    if cells[start] == NUL {
      st.buffer := null;
      return -1;
    }
    var end := FindEnd(cells, start, delim, s);
    assert cells[start..end] == s[start..end];
    if cells[end] != NUL {
      cells[end] := NUL;
      st.buffer, st.last := cells, end + 1;
    } else {
      st.buffer := null;
    }
    token := start;
  }

  lemma StaysCutOut(before: seq<char>, after: seq<char>, s: seq<char>, i: nat, j: nat, n: nat)
    requires CutOut(before, s, i, j) && j < n <= |before| == |after| && after[..n] == before[..n]
    ensures CutOut(after, s, i, j)
  {
    forall k | 0 <= k < n
      ensures after[k] == before[k]
    {
      assert after[k] == after[..n][k] && before[k] == before[..n][k];
    }
    assert after[i..j] == before[i..j];
  }

  /** The first `n` tokens, at `starts`, are cut out. */
  ghost predicate AllCutOut(cells: seq<char>, s: seq<char>, spans: seq<(nat, nat)>, starts: seq<nat>) {
    && |starts| <= |spans|
    && forall i :: 0 <= i < |starts| ==> starts[i] == spans[i].0 && CutOut(cells, s, spans[i].0, spans[i].1)
  }

  lemma AppendCutOut(cells: seq<char>, s: seq<char>, spans: seq<(nat, nat)>, starts: seq<nat>)
    requires AllCutOut(cells, s, spans, starts) && |starts| < |spans|
    requires CutOut(cells, s, spans[|starts|].0, spans[|starts|].1)
    ensures AllCutOut(cells, s, spans, starts + [spans[|starts|].0])
  {
  }

  /** Cutting out the next token leaves the earlier ones alone. */
  lemma StillCutOut(before: seq<char>, after: seq<char>, s: seq<char>, spans: seq<(nat, nat)>, starts: seq<nat>)
    requires AllCutOut(before, s, spans, starts) && |starts| < |spans|
    requires forall a, b :: 0 <= a < b < |spans| ==> spans[a].1 < spans[b].0
    requires var n := spans[|starts|].0; n <= |before| == |after| && after[..n] == before[..n]
    ensures AllCutOut(after, s, spans, starts)
  {
    var n := spans[|starts|].0;
    forall i | 0 <= i < |starts|
      ensures CutOut(after, s, spans[i].0, spans[i].1)
    {
      StaysCutOut(before, after, s, spans[i].0, spans[i].1, n);
    }
  }

  /** A NULL call when `n` tokens have been returned. */
  method Continue(st: State, str: array<char>, delim: seq<char>, ghost s: seq<char>, ghost spans: seq<(nat, nat)>, ghost n: nat)
    returns (token: int)
    requires st.buffer != null ==> st.last <= |s| && st.buffer == str && HoldsFrom(str[..], s, st.last)
    requires n <= |spans| && st.Pending(s, delim) == spans[n..]
    modifies st, str
    ensures st.buffer != null ==> st.last <= |s| && st.buffer == str && HoldsFrom(str[..], s, st.last)
    ensures n == |spans| ==> token == -1 && st.buffer == null && str[..] == old(str[..])
    ensures n < |spans| ==> token == spans[n].0 <= str.Length && str[..token] == old(str[..])[..token]
    ensures n < |spans| ==> CutOut(str[..], s, spans[n].0, spans[n].1) && st.Pending(s, delim) == spans[n + 1..]
  {
    hide Spans;
    hide CutOut;
    token := Next(st, null, delim, s);
  }

  /**
   A first call and then NULL calls until NULL comes back: the tokens are exactly the
   maximal runs in order, all of them standing in the buffer as C strings at the end,
   and every later NULL call returns NULL again.
   */
  method TokenizeAll(st: State, str: array<char>, delim: seq<char>, ghost s: seq<char>) returns (starts: seq<nat>, ghost ends: seq<nat>)
    requires HoldsFrom(str[..], s, 0)
    modifies st, str
    ensures st.buffer == null && |ends| == |starts|
    // each token is a maximal run
    ensures forall i :: 0 <= i < |starts| ==> starts[i] < ends[i] <= |s| < str.Length
    ensures forall i, k :: 0 <= i < |starts| && starts[i] <= k < ends[i] ==> s[k] !in delim
    ensures forall i :: 0 <= i < |starts| ==> starts[i] == 0 || s[starts[i] - 1] in delim
    ensures forall i :: 0 <= i < |starts| ==> ends[i] == |s| || s[ends[i]] in delim
    // it stands in the buffer as a C string
    ensures forall i, k :: 0 <= i < |starts| && starts[i] <= k < ends[i] ==> str[k] == s[k]
    ensures forall i :: 0 <= i < |starts| ==> str[ends[i]] == NUL
    // they come in order and nothing is left out
    ensures forall i, j :: 0 <= i < j < |starts| ==> ends[i] < starts[j]
    ensures forall k :: 0 <= k < |s| && s[k] !in delim ==> exists i :: 0 <= i < |starts| && starts[i] <= k < ends[i]
  {
    starts := TokenizeLoop(st, str, delim, s);
    ends := TokensMean(str[..], s, delim, starts);
  }

  /** What the spans and their being cut out mean. */
  lemma TokensMean(cells: seq<char>, s: seq<char>, delims: seq<char>, starts: seq<nat>) returns (ends: seq<nat>)
    requires AllCutOut(cells, s, Spans(s, delims, 0), starts) && |starts| == |Spans(s, delims, 0)| && |s| < |cells|
    ensures |ends| == |starts|
    ensures forall i :: 0 <= i < |starts| ==> starts[i] < ends[i] <= |s|
    ensures forall i, k :: 0 <= i < |starts| && starts[i] <= k < ends[i] ==> s[k] !in delims
    ensures forall i :: 0 <= i < |starts| ==> starts[i] == 0 || s[starts[i] - 1] in delims
    ensures forall i :: 0 <= i < |starts| ==> ends[i] == |s| || s[ends[i]] in delims
    ensures forall i, k :: 0 <= i < |starts| && starts[i] <= k < ends[i] ==> cells[k] == s[k]
    ensures forall i :: 0 <= i < |starts| ==> cells[ends[i]] == NUL
    ensures forall i, j :: 0 <= i < j < |starts| ==> ends[i] < starts[j]
    ensures forall k :: 0 <= k < |s| && s[k] !in delims ==> exists i :: 0 <= i < |starts| && starts[i] <= k < ends[i]
  {
    var spans := Spans(s, delims, 0);
    SpansAreRuns(s, delims, 0);
    hide Spans;
    hide RunEnd;
    ends := seq(|spans|, i requires 0 <= i < |spans| => spans[i].1);
    forall i | 0 <= i < |starts|
      ensures IsRun(s, delims, starts[i], ends[i]) && CutOut(cells, s, starts[i], ends[i])
    {
      assert spans[i] in spans;
    }
    forall i, k | 0 <= i < |starts| && starts[i] <= k < ends[i]
      ensures cells[k] == s[k]
    {
      assert cells[starts[i]..ends[i]][k - starts[i]] == s[starts[i]..ends[i]][k - starts[i]];
    }
    forall k | 0 <= k < |s| && s[k] !in delims
      ensures exists i :: 0 <= i < |starts| && starts[i] <= k < ends[i]
    {
      var a, b := RunAround(s, delims, k);
      assert (a, b) in spans;
      var i :| 0 <= i < |spans| && spans[i] == (a, b);
      assert starts[i] <= k < ends[i];
    }
  }

  /** A character that is not a delimiter belongs to a run. */
  lemma RunAround(s: seq<char>, delims: seq<char>, k: nat) returns (i: nat, j: nat)
    requires k < |s| && s[k] !in delims
    ensures i <= k < j && IsRun(s, delims, i, j)
  {
    j := RunEnd(s, delims, k);
    i := k;
    while 0 < i && s[i - 1] !in delims
      invariant i <= k && forall m :: i <= m < j ==> s[m] !in delims
    {
      i := i - 1;
    }
  }

  /** The calls. */
  method TokenizeLoop(st: State, str: array<char>, delim: seq<char>, ghost s: seq<char>) returns (starts: seq<nat>)
    requires HoldsFrom(str[..], s, 0)
    modifies st, str
    ensures |starts| == |Spans(s, delim, 0)| && st.buffer == null
    ensures AllCutOut(str[..], s, Spans(s, delim, 0), starts)
  {
    hide Spans;
    hide CutOut;
    hide HoldsFrom;
    hide AllCutOut;
    hide st.Pending;
    ghost var spans := Spans(s, delim, 0);
    assert forall a, b :: 0 <= a < b < |spans| ==> spans[a].1 < spans[b].0 by { SpansAreRuns(s, delim, 0); }
    starts := [];
    var token := Next(st, str, delim, s);
    NoneCutOut(str[..], s, spans);
    while token != -1
      invariant st.buffer != null ==> st.last <= |s| && st.buffer == str && HoldsFrom(str[..], s, st.last)
      invariant |starts| <= |spans| && AllCutOut(str[..], s, spans, starts)
      invariant token == -1 ==> |starts| == |spans| && st.buffer == null
      invariant token != -1 ==> |starts| < |spans| && token == spans[|starts|].0
      invariant token != -1 ==> CutOut(str[..], s, spans[|starts|].0, spans[|starts|].1) && st.Pending(s, delim) == spans[|starts| + 1..]
      decreases |spans| - |starts|
    {
      ghost var cells := str[..];
      AppendCutOut(cells, s, spans, starts);
      starts := starts + [token];
      token := Continue(st, str, delim, s, spans, |starts|);
      if token != -1 {
        StillCutOut(cells, str[..], s, spans, starts);
      }
    }
  }

  lemma NoneCutOut(cells: seq<char>, s: seq<char>, spans: seq<(nat, nat)>)
    ensures AllCutOut(cells, s, spans, [])
  {
  }
}
