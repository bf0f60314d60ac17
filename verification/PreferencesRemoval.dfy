/**
 Taking domains out of a search list.  The removal loop narrows its window too much
 after the second occurrence, so it is stated exactly how far it gets and when that is
 far enough.
 */
module PreferencesRemoval {
  import opened Preferences

  ghost function Other(d: Domain): Domain -> bool { (x: Domain) => x != d }

  /** The list without any occurrence of `d`. */
  ghost function Without(s: seq<Domain>, d: Domain): seq<Domain> { Kept(s, Other(d)) }

  /** Where `d` occurs, from left to right. */
  ghost function Positions(s: seq<Domain>, d: Domain): (ps: seq<nat>)
    ensures forall j :: 0 <= j < |ps| ==> ps[j] < |s| && s[ps[j]] == d
    ensures forall i, j :: 0 <= i < j < |ps| ==> ps[i] < ps[j]
    ensures forall i :: 0 <= i < |s| && s[i] == d ==> i in ps
  {
    if s == [] then [] else
      Positions(s[..|s| - 1], d) + if s[|s| - 1] == d then [|s| - 1] else []
  }

  /** How much the window has lost on top of the removed occurrences. */
  ghost function Drift(ps: seq<nat>, k: nat): int
    requires k <= |ps|
  {
    if k == 0 then 0 else Drift(ps, k - 1) + ps[k - 1] - (k - 1)
  }

  /** Occurrence `j` still lies in the window when its turn comes. */
  ghost predicate InReach(s: seq<Domain>, d: Domain, j: nat)
    requires j < |Positions(s, d)|
  {
    j < 2 || Positions(s, d)[j] + Drift(Positions(s, d), j - 1) < |s|
  }

  /** Every occurrence is in reach. */
  ghost predicate Swept(s: seq<Domain>, d: Domain) {
    forall j :: 0 <= j < |Positions(s, d)| ==> InReach(s, d, j)
  }

  /** Where the untouched rest of the list begins once `j` occurrences are gone. */
  ghost function Cut(s: seq<Domain>, d: Domain, j: nat): (c: nat)
    requires j <= |Positions(s, d)|
    ensures j <= c <= |s|
  {
    PositionsAscend(Positions(s, d));
    if j == 0 then 0 else Positions(s, d)[j - 1] + 1
  }

  /** The list without the first `j` occurrences. */
  ghost function WithoutFirst(s: seq<Domain>, d: Domain, j: nat): seq<Domain>
    requires j <= |Positions(s, d)|
  {
    Without(s[..Cut(s, d, j)], d) + s[Cut(s, d, j)..]
  }

  /** The first `j` occurrences are in reach, and the next one, if any, is not. */
  ghost predicate Stops(s: seq<Domain>, d: Domain, j: nat) {
    && j <= |Positions(s, d)|
    && (forall i :: 0 <= i < j ==> InReach(s, d, i))
    && (j < |Positions(s, d)| ==> !InReach(s, d, j))
  }

  lemma {:induction false} PositionsAscend(ps: seq<nat>)
    requires forall i, j :: 0 <= i < j < |ps| ==> ps[i] < ps[j]
    ensures forall i :: 0 <= i < |ps| ==> i <= ps[i]
  {
    if ps != [] {
      PositionsAscend(ps[..|ps| - 1]);
      assert |ps| > 1 ==> ps[..|ps| - 1][|ps| - 2] == ps[|ps| - 2];
    }
  }

  lemma {:induction false} DriftGrows(ps: seq<nat>, k: nat)
    requires k <= |ps| && forall i :: 0 <= i < |ps| ==> i <= ps[i]
    ensures 0 <= Drift(ps, k)
  {
    if 0 < k {
      DriftGrows(ps, k - 1);
    }
  }

  /** The first occurrence from `Cut` on is the next one. */
  lemma NextOccurrence(s: seq<Domain>, d: Domain, j: nat, q: nat)
    requires j <= |Positions(s, d)| && Cut(s, d, j) <= q < |s| && s[q] == d
    requires forall i :: Cut(s, d, j) <= i < q ==> s[i] != d
    ensures j < |Positions(s, d)| && Positions(s, d)[j] == q
  {
  }

  lemma {:induction false} KeptAll(s: seq<Domain>, f: Domain -> bool)
    requires forall x :: x in s ==> f(x)
    ensures Kept(s, f) == s
  {
    if s != [] {
      KeptAll(s[1..], f);
    }
  }

  /** Nothing between two occurrences goes. */
  lemma WithoutStep(s: seq<Domain>, d: Domain, c: nat, q: nat)
    requires c <= q < |s| && s[q] == d && forall i :: c <= i < q ==> s[i] != d
    ensures Without(s[..q + 1], d) == Without(s[..c], d) + s[c..q]
  {
    hide Kept;
    var a, b := s[..c], s[c..q];
    assert s[..q + 1] == a + b + [d];
    KeptConcat(a + b, [d], Other(d));
    KeptConcat(a, b, Other(d));
    KeptAll(b, Other(d));
    KeptNone(d);
  }

  lemma KeptNone(d: Domain)
    ensures Kept([d], Other(d)) == []
  {
  }

  lemma WithoutNothing(s: seq<Domain>, d: Domain)
    requires s == []
    ensures Without(s, d) == []
  {
  }

  lemma {:induction false} WithoutLength(s: seq<Domain>, d: Domain, j: nat)
    requires j <= |Positions(s, d)|
    ensures |Without(s[..Cut(s, d, j)], d)| == Cut(s, d, j) - j
  {
    hide Without;
    hide Positions;
    if j == 0 {
      WithoutNothing(s[..0], d);
    } else {
      var c, q := Cut(s, d, j - 1), Positions(s, d)[j - 1];
      WithoutLength(s, d, j - 1);
      NoneBetween(s, d, j - 1);
      WithoutStep(s, d, c, q);
    }
  }

  lemma NoneBetween(s: seq<Domain>, d: Domain, j: nat)
    requires j < |Positions(s, d)|
    ensures Cut(s, d, j) <= Positions(s, d)[j]
    ensures forall i :: Cut(s, d, j) <= i < Positions(s, d)[j] ==> s[i] != d
  {
    var ps := Positions(s, d);
    hide Positions;
    forall m | 0 <= m < |ps|
      ensures !(Cut(s, d, j) <= ps[m] < ps[j])
    {
      assert if m < j then ps[m] <= ps[j - 1] else ps[j] <= ps[m];
    }
  }

  lemma NoneAfter(s: seq<Domain>, d: Domain)
    ensures forall i :: Cut(s, d, |Positions(s, d)|) <= i < |s| ==> s[i] != d
  {
  }

  /** What holds before the search for occurrence `j`. */
  ghost predicate Progress(s: seq<Domain>, d: Domain, cur: seq<Domain>, location: int, length: int, j: nat) {
    && j <= |Positions(s, d)|
    && cur == WithoutFirst(s, d, j)
    && |cur| == |s| - j
    && location == (if j == 0 then 0 else Cut(s, d, j) - j)
    && location + length == |s| - j - (if j == 0 then 0 else Drift(Positions(s, d), j - 1))
    && 0 <= location && location + length <= |cur|
    && forall i :: 0 <= i < j ==> InReach(s, d, i)
  }

  lemma ProgressStart(s: seq<Domain>, d: Domain)
    ensures Progress(s, d, s, 0, |s|, 0)
  {
  }

  /** A list position from the window on is an original one. */
  lemma Untouched(s: seq<Domain>, d: Domain, j: nat, i: nat)
    requires j <= |Positions(s, d)| && Cut(s, d, j) - j <= i < |s| - j
    ensures |WithoutFirst(s, d, j)| == |s| - j && WithoutFirst(s, d, j)[i] == s[i + j]
  {
    hide Kept;
    WithoutLength(s, d, j);
  }

  lemma ProgressStep(s: seq<Domain>, d: Domain, cur: seq<Domain>, location: int, length: int, j: nat, idx: nat)
    requires Progress(s, d, cur, location, length, j)
    requires location <= idx < location + length && cur[idx] == d
    requires forall i :: location <= i < idx ==> cur[i] != d
    ensures Progress(s, d, cur[..idx] + cur[idx + 1..], idx, length - idx - 1, j + 1)
  {
    hide WithoutFirst;
    hide Positions;
    var ps := Positions(s, d);
    FoundNext(s, d, cur, location, length, j, idx);
    RemovedNext(s, d, j, idx);
    PositionsAscend(ps);
    DriftGrows(ps, j);
    WindowStep(s, d, location, length, j, idx);
  }

  /** Removing the occurrence found leaves the list without one more. */
  lemma RemovedNext(s: seq<Domain>, d: Domain, j: nat, idx: nat)
    requires j < |Positions(s, d)| && Positions(s, d)[j] == idx + j
    ensures idx < |WithoutFirst(s, d, j)|
    ensures var cur := WithoutFirst(s, d, j); cur[..idx] + cur[idx + 1..] == WithoutFirst(s, d, j + 1)
  {
    hide Without;
    hide Positions;
    var c, q := Cut(s, d, j), idx + j;
    NoneBetween(s, d, j);
    WithoutStep(s, d, c, q);
    WithoutLength(s, d, j);
    Removed(s, d, WithoutFirst(s, d, j), c, j, q);
  }

  /** The search finds the next occurrence. */
  lemma FoundNext(s: seq<Domain>, d: Domain, cur: seq<Domain>, location: int, length: int, j: nat, idx: nat)
    requires Progress(s, d, cur, location, length, j)
    requires location <= idx < location + length && cur[idx] == d
    requires forall i :: location <= i < idx ==> cur[i] != d
    ensures j < |Positions(s, d)| && Positions(s, d)[j] == idx + j
  {
    hide WithoutFirst;
    hide Positions;
    hide Drift;
    Untouched(s, d, j, idx);
    forall i | Cut(s, d, j) <= i < idx + j
      ensures s[i] != d
    {
      Untouched(s, d, j, i - j);
      assert cur[i - j] != d;
    }
    NextOccurrence(s, d, j, idx + j);
  }

  /** The window as the loop narrows it. */
  lemma WindowStep(s: seq<Domain>, d: Domain, location: int, length: int, j: nat, idx: nat)
    requires j < |Positions(s, d)| && Positions(s, d)[j] == idx + j && idx < location + length
    requires location == if j == 0 then 0 else Cut(s, d, j) - j
    requires location + length == |s| - j - if j == 0 then 0 else Drift(Positions(s, d), j - 1)
    ensures idx + (length - idx - 1) == |s| - (j + 1) - Drift(Positions(s, d), j)
    ensures InReach(s, d, j)
  {
  }

  /** Removing the next occurrence extends the part that is done. */
  lemma Removed(s: seq<Domain>, d: Domain, cur: seq<Domain>, c: nat, j: nat, q: nat)
    requires j <= c <= q < |s| && |Without(s[..c], d)| == c - j
    requires cur == Without(s[..c], d) + s[c..]
    requires Without(s[..q + 1], d) == Without(s[..c], d) + s[c..q]
    ensures cur[..q - j] + cur[q - j + 1..] == Without(s[..q + 1], d) + s[q + 1..]
  {
  }

  lemma ProgressEnds(s: seq<Domain>, d: Domain, cur: seq<Domain>, location: int, length: int, j: nat)
    requires Progress(s, d, cur, location, length, j)
    requires forall i :: location <= i < location + length ==> cur[i] != d
    ensures Stops(s, d, j)
  {
    if j < |Positions(s, d)| {
      hide Kept;
      var q := Positions(s, d)[j];
      NoneBetween(s, d, j);
      Untouched(s, d, j, q - j);
    }
  }

  lemma StopsOnce(s: seq<Domain>, d: Domain, i: nat, j: nat)
    requires Stops(s, d, i) && Stops(s, d, j)
    ensures i == j
  {
  }

  /** Stopping is complete exactly when every occurrence is in reach. */
  lemma SweptIff(s: seq<Domain>, d: Domain, j: nat)
    requires Stops(s, d, j)
    ensures WithoutFirst(s, d, j) == Without(s, d) <==> Swept(s, d)
    ensures d in WithoutFirst(s, d, j) <==> !Swept(s, d)
  {
    hide Without;
    hide Positions;
    WithoutMember(s, d);
    if j == |Positions(s, d)| {
      WithoutFirstAll(s, d);
    } else {
      hide WithoutFirst;
      var q := Positions(s, d)[j];
      NoneBetween(s, d, j);
      Untouched(s, d, j, q - j);
    }
  }

  lemma OthersStay(s: seq<Domain>, d: Domain, j: nat)
    requires Stops(s, d, j)
    ensures forall x :: x in s && x != d ==> x in WithoutFirst(s, d, j)
  {
    hide Kept;
    var c := Cut(s, d, j);
    hide Cut;
    assert s == s[..c] + s[c..];
    forall x | x in s && x != d
      ensures x in WithoutFirst(s, d, j)
    {
      KeptMember(s[..c], Other(d), x);
    }
  }

  lemma WithoutMember(s: seq<Domain>, d: Domain)
    ensures d !in Without(s, d)
  {
    KeptMember(s, Other(d), d);
  }

  lemma WithoutFirstAll(s: seq<Domain>, d: Domain)
    ensures WithoutFirst(s, d, |Positions(s, d)|) == Without(s, d)
  {
    hide Kept;
    hide Positions;
    var c := Cut(s, d, |Positions(s, d)|);
    hide Cut;
    NoneAfter(s, d);
    KeptConcat(s[..c], s[c..], Other(d));
    KeptAll(s[c..], Other(d));
    assert s == s[..c] + s[c..];
  }

  /** Three occurrences can be too many: the last one stays. */
  lemma ThirdStays(d: Domain, e: Domain)
    requires d != e
    ensures !Swept([e, d, d, d], d) && WithoutFirst([e, d, d, d], d, 2) == [e, d]
  {
    var s := [e, d, d, d];
    hide Kept;
    hide Positions;
    ThreePositions(d, e);
    assert Drift([1, 2, 3], 1) == 1;
    assert !InReach(s, d, 2);
    WithoutStep(s, d, 0, 1);
    WithoutStep(s, d, 2, 2);
    KeptAll(s[..0], Other(d));
  }

  lemma ThreePositions(d: Domain, e: Domain)
    requires d != e
    ensures Positions([e, d, d, d], d) == [1, 2, 3]
  {
    assert [e, d, d, d][..3] == [e, d, d];
    assert [e, d, d][..2] == [e, d];
    assert [e, d][..1] == [e];
    assert Positions([e], d) == [];
    assert Positions([e, d], d) == [1];
    assert Positions([e, d, d], d) == [1, 2];
  }

  // ---------------------------------------------------------------- the operations

  /** The first index of a range that holds `d`, or -1; a range of negative length is empty. */
  method FirstIndexOfValue(s: seq<Domain>, location: nat, length: int, d: Domain) returns (idx: int)
    requires location <= |s| && location + length <= |s|
    ensures idx == -1 || location <= idx < location + length
    ensures 0 <= idx ==> s[idx] == d && forall i :: location <= i < idx ==> s[i] != d
    ensures idx == -1 ==> forall i :: location <= i < location + length ==> s[i] != d
  {
    var i := 0;
    while i < length
      invariant 0 <= i && location + i <= |s| && forall k :: location <= k < location + i ==> s[k] != d
    {
      if s[location + i] == d {
        return location + i;
      }
      i := i + 1;
    }
    idx := -1;
  }

  /** Removes occurrences as far as the loop reaches: all of them exactly when all are in reach. */
  method RemoveDomain(prefs: AppPreferences, d: Domain)
    modifies prefs`search, prefs`dictRep
    ensures prefs.Valid() && prefs.dictRep == None
    ensures exists j :: Stops(old(prefs.search), d, j) && prefs.search == WithoutFirst(old(prefs.search), d, j)
    ensures prefs.search == Without(old(prefs.search), d) <==> Swept(old(prefs.search), d)
    ensures d in prefs.search <==> !Swept(old(prefs.search), d)
    ensures forall x :: x in old(prefs.search) && x != d ==> x in prefs.search
  {
    hide Merged;
    hide Stops;
    hide Swept;
    hide Without;
    hide WithoutFirst;
    ghost var s := prefs.search;
    ghost var j := Sweep(prefs, d);
    SweptIff(s, d, j);
    OthersStay(s, d, j);
    prefs.UpdateDictRep();
  }

  /** The loop: `j` occurrences go. */
  method Sweep(prefs: AppPreferences, d: Domain) returns (ghost j: nat)
    modifies prefs`search
    ensures Stops(old(prefs.search), d, j) && prefs.search == WithoutFirst(old(prefs.search), d, j)
  {
    hide Progress;
    hide Stops;
    hide WithoutFirst;
    ghost var s := prefs.search;
    j := 0;
    var location, length := 0, |prefs.search|;
    ProgressStart(s, d);
    var done := false;
    while !done
      invariant Progress(s, d, prefs.search, location, length, j)
      invariant done ==> forall i :: location <= i < location + length ==> 0 <= i < |prefs.search| && prefs.search[i] != d
      decreases !done, |prefs.search|
    {
      ProgressBounds(s, d, prefs.search, location, length, j);
      var idx := FirstIndexOfValue(prefs.search, location, length, d);
      if idx == -1 {
        done := true;
      } else {
        ProgressStep(s, d, prefs.search, location, length, j, idx);
        prefs.search := prefs.search[..idx] + prefs.search[idx + 1..];
        location := idx;
        length := length - idx - 1;
        j := j + 1;
      }
    }
    ProgressBounds(s, d, prefs.search, location, length, j);
    ProgressEnds(s, d, prefs.search, location, length, j);
  }

  lemma ProgressBounds(s: seq<Domain>, d: Domain, cur: seq<Domain>, location: int, length: int, j: nat)
    requires Progress(s, d, cur, location, length, j)
    ensures j <= |Positions(s, d)| && cur == WithoutFirst(s, d, j) && 0 <= location <= |cur| && location + length <= |cur|
  {
  }

  // ---------------------------------------------------------------- suites

  /** Not a domain of the suite that the store can provide. */
  ghost function Foreign(suite: App, available: Domain -> bool): Domain -> bool {
    (x: Domain) => !(x.Standard? && x.app == suite && available(x))
  }

  ghost function WithoutSuite(s: seq<Domain>, suite: App, available: Domain -> bool): seq<Domain> {
    Kept(s, Foreign(suite, available))
  }

  /** At most two occurrences are always in reach. */
  lemma TwoAreSwept(s: seq<Domain>, d: Domain)
    requires multiset(s)[d] <= 2
    ensures Swept(s, d)
  {
    PositionsCount(s, d);
  }

  lemma {:induction false} PositionsCount(s: seq<Domain>, d: Domain)
    ensures |Positions(s, d)| == multiset(s)[d]
  {
    if s != [] {
      var n := |s| - 1;
      PositionsCount(s[..n], d);
      assert s == s[..n] + [s[n]];
    }
  }

  lemma {:induction false} KeptTwice(s: seq<Domain>, f: Domain -> bool, g: Domain -> bool, h: Domain -> bool)
    requires forall x :: h(x) <==> f(x) && g(x)
    ensures Kept(Kept(s, f), g) == Kept(s, h)
  {
    if s != [] {
      KeptTwice(s[1..], f, g, h);
      if f(s[0]) {
        assert ([s[0]] + Kept(s[1..], f))[1..] == Kept(s[1..], f);
      } else {
        assert Kept(s, f) == Kept(s[1..], f);
      }
    }
  }

  lemma {:induction false} KeptCount(s: seq<Domain>, f: Domain -> bool, d: Domain)
    ensures multiset(Kept(s, f))[d] <= multiset(s)[d]
  {
    if s != [] {
      KeptCount(s[1..], f, d);
      assert s == [s[0]] + s[1..];
    }
  }

  lemma {:induction false} KeptSame(s: seq<Domain>, f: Domain -> bool, h: Domain -> bool)
    requires forall x :: x in s ==> (h(x) <==> f(x))
    ensures Kept(s, f) == Kept(s, h)
  {
    if s != [] {
      KeptSame(s[1..], f, h);
    }
  }

  /** The list without `d`, if the store can provide it. */
  ghost function Taken(s: seq<Domain>, d: Domain, available: Domain -> bool): seq<Domain> {
    if available(d) then Without(s, d) else s
  }

  ghost predicate SweptIfAvailable(s: seq<Domain>, d: Domain, available: Domain -> bool) {
    available(d) ==> Swept(s, d)
  }

  /** Every domain of the suite is in reach when its turn comes. */
  ghost predicate SuiteSwept(s: seq<Domain>, suite: App, available: Domain -> bool) {
    var s1 := Taken(s, Standard(suite, CurrentUser, AnyHost), available);
    var s2 := Taken(s1, Standard(suite, CurrentUser, CurrentHost), available);
    var s3 := Taken(s2, Standard(suite, AnyUser, AnyHost), available);
    && SweptIfAvailable(s, Standard(suite, CurrentUser, AnyHost), available)
    && SweptIfAvailable(s1, Standard(suite, CurrentUser, CurrentHost), available)
    && SweptIfAvailable(s2, Standard(suite, AnyUser, AnyHost), available)
    && SweptIfAvailable(s3, Standard(suite, AnyUser, CurrentHost), available)
  }

  lemma TakenStep(s: seq<Domain>, f: Domain -> bool, d: Domain, h: Domain -> bool, available: Domain -> bool)
    requires forall x :: h(x) <==> f(x) && !(x == d && available(d))
    ensures Taken(Kept(s, f), d, available) == Kept(s, h)
  {
    hide Kept;
    if available(d) {
      KeptTwice(s, f, Other(d), h);
    } else {
      KeptSame(s, f, h);
    }
  }

  /** Taking the four domains one by one takes the suite. */
  lemma FourTaken(s: seq<Domain>, suite: App, available: Domain -> bool)
    ensures var s1 := Taken(s, Standard(suite, CurrentUser, AnyHost), available);
            var s2 := Taken(s1, Standard(suite, CurrentUser, CurrentHost), available);
            var s3 := Taken(s2, Standard(suite, AnyUser, AnyHost), available);
            Taken(s3, Standard(suite, AnyUser, CurrentHost), available) == WithoutSuite(s, suite, available)
  {
    hide Kept;
    hide Taken;
    var f0 := (x: Domain) => true;
    var f1 := (x: Domain) => !(x == Standard(suite, CurrentUser, AnyHost) && available(x));
    var f2 := (x: Domain) => f1(x) && !(x == Standard(suite, CurrentUser, CurrentHost) && available(x));
    var f3 := (x: Domain) => f2(x) && !(x == Standard(suite, AnyUser, AnyHost) && available(x));
    var f4 := Foreign(suite, available);
    forall x
      ensures f4(x) <==> f3(x) && !(x == Standard(suite, AnyUser, CurrentHost) && available(x))
    {
      match x
      case Standard(a, CurrentUser, h) => assert h.AnyHost? || h.CurrentHost?;
      case Standard(a, AnyUser, h) => assert h.AnyHost? || h.CurrentHost?;
      case Custom(_) =>
    }
    KeptAll(s, f0);
    TakenStep(s, f0, Standard(suite, CurrentUser, AnyHost), f1, available);
    TakenStep(s, f1, Standard(suite, CurrentUser, CurrentHost), f2, available);
    TakenStep(s, f2, Standard(suite, AnyUser, AnyHost), f3, available);
    TakenStep(s, f3, Standard(suite, AnyUser, CurrentHost), f4, available);
  }

  /** When no domain of the suite is listed more than twice, all are in reach. */
  lemma TwoAreSuiteSwept(s: seq<Domain>, suite: App, available: Domain -> bool)
    requires forall u, h :: multiset(s)[Standard(suite, u, h)] <= 2
    ensures SuiteSwept(s, suite, available)
  {
    hide Swept;
    hide Taken;
    var s1 := Taken(s, Standard(suite, CurrentUser, AnyHost), available);
    var s2 := Taken(s1, Standard(suite, CurrentUser, CurrentHost), available);
    var s3 := Taken(s2, Standard(suite, AnyUser, AnyHost), available);
    TakenCount(s, Standard(suite, CurrentUser, AnyHost), available);
    TakenCount(s1, Standard(suite, CurrentUser, CurrentHost), available);
    TakenCount(s2, Standard(suite, AnyUser, AnyHost), available);
    TwoAreSwept(s, Standard(suite, CurrentUser, AnyHost));
    TwoAreSwept(s1, Standard(suite, CurrentUser, CurrentHost));
    TwoAreSwept(s2, Standard(suite, AnyUser, AnyHost));
    TwoAreSwept(s3, Standard(suite, AnyUser, CurrentHost));
  }

  lemma TakenCount(s: seq<Domain>, d: Domain, available: Domain -> bool)
    ensures forall x :: multiset(Taken(s, d, available))[x] <= multiset(s)[x]
  {
    hide Kept;
    forall x
      ensures multiset(Taken(s, d, available))[x] <= multiset(s)[x]
    {
      KeptCount(s, Other(d), x);
    }
  }

  /** One domain of the suite, if the store can provide it. */
  method RemoveIfAvailable(prefs: AppPreferences, d: Domain)
    requires prefs.Valid()
    modifies prefs`search, prefs`dictRep
    ensures prefs.Valid()
    ensures SweptIfAvailable(old(prefs.search), d, prefs.available) ==> prefs.search == Taken(old(prefs.search), d, prefs.available)
    ensures !SweptIfAvailable(old(prefs.search), d, prefs.available) ==> d in prefs.search && prefs.available(d)
    ensures forall x :: x in old(prefs.search) && x != d ==> x in prefs.search
  {
    hide Merged;
    hide Without;
    hide Swept;
    hide Stops;
    if prefs.available(d) {
      RemoveDomain(prefs, d);
    }
  }

  /** Takes out every domain of the suite if and only if each is in reach when its turn comes. */
  method RemoveSuitePreferences(prefs: AppPreferences, suite: App)
    requires prefs.Valid()
    modifies prefs`search, prefs`dictRep
    ensures prefs.Valid()
    ensures prefs.search == WithoutSuite(old(prefs.search), suite, prefs.available)
            <==> SuiteSwept(old(prefs.search), suite, prefs.available)
  {
    hide Merged;
    hide WithoutSuite;
    hide Taken;
    hide SweptIfAvailable;
    ghost var s := prefs.search;
    FourTaken(s, suite, prefs.available);
    RemoveIfAvailable(prefs, Standard(suite, CurrentUser, AnyHost));
    RemoveIfAvailable(prefs, Standard(suite, CurrentUser, CurrentHost));
    RemoveIfAvailable(prefs, Standard(suite, AnyUser, AnyHost));
    RemoveIfAvailable(prefs, Standard(suite, AnyUser, CurrentHost));
    NoneOfSuite(s, suite, prefs.available);
  }

  lemma NoneOfSuite(s: seq<Domain>, suite: App, available: Domain -> bool)
    ensures forall u, h :: available(Standard(suite, u, h)) ==> Standard(suite, u, h) !in WithoutSuite(s, suite, available)
  {
    hide Kept;
    forall u, h | available(Standard(suite, u, h))
      ensures Standard(suite, u, h) !in WithoutSuite(s, suite, available)
    {
      KeptMember(s, Foreign(suite, available), Standard(suite, u, h));
    }
  }

  lemma InsertedForeign(s: seq<Domain>, i: nat, suite: App, u: User, h: Host, available: Domain -> bool)
    requires i <= |s|
    ensures |s| <= |Inserted(s, i, Standard(suite, u, h), available)|
    ensures WithoutSuite(Inserted(s, i, Standard(suite, u, h), available), suite, available) == WithoutSuite(s, suite, available)
  {
    hide Kept;
    var d, f := Standard(suite, u, h), Foreign(suite, available);
    if available(d) {
      KeptConcat(s[..i], [d] + s[i..], f);
      KeptConcat([d], s[i..], f);
      KeptConcat(s[..i], s[i..], f);
      NotKept(d, f);
      assert s == s[..i] + s[i..];
      assert Inserted(s, i, d, available) == s[..i] + ([d] + s[i..]);
    }
  }

  lemma NotKept(d: Domain, f: Domain -> bool)
    requires !f(d)
    ensures Kept([d], f) == []
  {
  }

  /** A suite that is not listed is listed once after it was added, so its removal reaches everything. */
  lemma SuiteListedOnce(s: seq<Domain>, app: App, suite: App, available: Domain -> bool)
    requires forall u, h :: Standard(suite, u, h) !in s
    ensures forall u, h :: multiset(WithSuite(s, app, suite, available))[Standard(suite, u, h)] <= 1
  {
    hide Inserted;
    hide AnyUserIndex;
    hide IndexIfAvailable;
    var i := IndexIfAvailable(s, Standard(app, CurrentUser, AnyHost), available) + 1;
    InsertedOnce(s, i, Standard(suite, CurrentUser, AnyHost), available);
    var s1 := Inserted(s, i, Standard(suite, CurrentUser, AnyHost), available);
    InsertedOnce(s1, i, Standard(suite, CurrentUser, CurrentHost), available);
    var s2 := Inserted(s1, i, Standard(suite, CurrentUser, CurrentHost), available);
    var j := AnyUserIndex(s2, app, available);
    InsertedOnce(s2, j, Standard(suite, AnyUser, AnyHost), available);
    var s3 := Inserted(s2, j, Standard(suite, AnyUser, AnyHost), available);
    InsertedOnce(s3, j, Standard(suite, AnyUser, CurrentHost), available);
    assert forall u, h :: multiset(s)[Standard(suite, u, h)] == 0;
  }

  lemma InsertedOnce(s: seq<Domain>, i: nat, d: Domain, available: Domain -> bool)
    requires i <= |s|
    ensures |s| <= |Inserted(s, i, d, available)|
    ensures forall x :: multiset(Inserted(s, i, d, available))[x] <= multiset(s)[x] + if x == d then 1 else 0
  {
    assert s == s[..i] + s[i..];
  }

  /** Removing a suite undoes adding it, wherever its domains went. */
  lemma SuiteRoundTrip(s: seq<Domain>, app: App, suite: App, available: Domain -> bool)
    requires forall u, h :: Standard(suite, u, h) !in s
    ensures WithoutSuite(WithSuite(s, app, suite, available), suite, available) == s
  {
    hide WithoutSuite;
    hide Inserted;
    hide AnyUserIndex;
    hide IndexIfAvailable;
    var i := IndexIfAvailable(s, Standard(app, CurrentUser, AnyHost), available) + 1;
    InsertedForeign(s, i, suite, CurrentUser, AnyHost, available);
    var s1 := Inserted(s, i, Standard(suite, CurrentUser, AnyHost), available);
    InsertedForeign(s1, i, suite, CurrentUser, CurrentHost, available);
    var s2 := Inserted(s1, i, Standard(suite, CurrentUser, CurrentHost), available);
    var j := AnyUserIndex(s2, app, available);
    InsertedForeign(s2, j, suite, AnyUser, AnyHost, available);
    var s3 := Inserted(s2, j, Standard(suite, AnyUser, AnyHost), available);
    InsertedForeign(s3, j, suite, AnyUser, CurrentHost, available);
    NothingForeign(s, suite, available);
  }

  lemma NothingForeign(s: seq<Domain>, suite: App, available: Domain -> bool)
    requires forall u, h :: Standard(suite, u, h) !in s
    ensures WithoutSuite(s, suite, available) == s
  {
    hide Kept;
    forall x | x in s
      ensures Foreign(suite, available)(x)
    {
      if x.Standard? {
        assert Standard(suite, x.user, x.host) !in s;
      }
    }
    KeptAll(s, Foreign(suite, available));
  }
}
