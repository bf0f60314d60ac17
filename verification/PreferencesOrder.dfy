/**
 Where the domains of a suite end up: exactly when adding suites to the standard list
 gives the documented order.
 */
module PreferencesOrder {
  import opened Preferences
  import opened PreferencesRemoval

  lemma FirstIndexAfter(a: seq<Domain>, d: Domain, b: seq<Domain>)
    requires d !in a
    ensures FirstIndex(a + [d] + b, d) == |a|
  {
    assert (a + [d] + b)[|a|] == d;
  }

  /** The list in three parts: up to the application's any-host domain for this user, then for any user, then the rest. */
  ghost function Head(app: App): seq<Domain> { Pair(app, CurrentUser) }
  ghost function Middle(app: App): seq<Domain> { Pair(AnyApplication, CurrentUser) + Pair(app, AnyUser) }
  ghost function Tail(): seq<Domain> { Pair(AnyApplication, AnyUser) }

  lemma ListedParts(app: App, suites: seq<App>, available: Domain -> bool)
    ensures Listed(app, suites, available) ==
            Kept(Head(app), available) + Kept(Pairs(suites, CurrentUser), available) + Kept(Middle(app), available)
              + Kept(Pairs(suites, AnyUser), available) + Kept(Tail(), available)
  {
    hide Kept;
    KeptConcat(Head(app), Pairs(suites, CurrentUser), available);
    KeptConcat(Head(app) + Pairs(suites, CurrentUser), Middle(app), available);
    KeptConcat(Head(app) + Pairs(suites, CurrentUser) + Middle(app), Pairs(suites, AnyUser), available);
    KeptConcat(Head(app) + Pairs(suites, CurrentUser) + Middle(app) + Pairs(suites, AnyUser), Tail(), available);
  }

  /** Inserting the any-host domain and then the this-host one at the same place inserts the pair. */
  lemma InsertPair(a: seq<Domain>, b: seq<Domain>, suite: App, user: User, available: Domain -> bool)
    ensures |a| <= |Inserted(a + b, |a|, Standard(suite, user, AnyHost), available)|
    ensures Inserted(Inserted(a + b, |a|, Standard(suite, user, AnyHost), available), |a|, Standard(suite, user, CurrentHost), available)
            == a + Kept(Pair(suite, user), available) + b
  {
    hide Kept;
    PairKept(suite, user, available);
  }

  lemma PairKept(suite: App, user: User, available: Domain -> bool)
    ensures var here, anywhere := Standard(suite, user, CurrentHost), Standard(suite, user, AnyHost);
            Kept(Pair(suite, user), available) ==
            (if available(here) then [here] else []) + (if available(anywhere) then [anywhere] else [])
  {
    var anywhere := Standard(suite, user, AnyHost);
    assert [anywhere][1..] == [];
    assert Kept([anywhere], available) == if available(anywhere) then [anywhere] else [];
    assert Pair(suite, user)[1..] == [anywhere];
  }

  /** The last domain kept of a list that ends in an available one. */
  lemma KeptEndsIn(s: seq<Domain>, d: Domain, available: Domain -> bool)
    requires available(d)
    ensures Kept(s + [d], available) == Kept(s, available) + [d]
  {
    KeptConcat(s, [d], available);
    assert [d][1..] == [];
  }

  /** The application's any-host domain for this user ends the head of the list. */
  lemma HeadIndex(app: App, available: Domain -> bool, rest: seq<Domain>)
    requires available(Standard(app, CurrentUser, AnyHost))
    ensures FirstIndex(Kept(Head(app), available) + rest, Standard(app, CurrentUser, AnyHost)) + 1 == |Kept(Head(app), available)|
  {
    var d, e := Standard(app, CurrentUser, AnyHost), Standard(app, CurrentUser, CurrentHost);
    assert Head(app) == [e] + [d];
    KeptEndsIn([e], d, available);
    KeptMember([e], available, d);
    FirstIndexAfter(Kept([e], available), d, rest);
  }

  /** The application's any-host domain for any user ends the middle of the list. */
  lemma MiddleIndex(app: App, suites: seq<App>, available: Domain -> bool, rest: seq<Domain>)
    requires available(Standard(app, AnyUser, AnyHost))
    ensures var front := Kept(Head(app), available) + Kept(Pairs(suites, CurrentUser), available) + Kept(Middle(app), available);
            front != [] && FirstIndex(front + rest, Standard(app, AnyUser, AnyHost)) + 1 == |front|
  {
    hide Kept;
    hide FirstIndex;
    var d := Standard(app, AnyUser, AnyHost);
    var before := Pair(AnyApplication, CurrentUser) + [Standard(app, AnyUser, CurrentHost)];
    assert Middle(app) == before + [d];
    KeptEndsIn(before, d, available);
    KeptMember(before, available, d);
    KeptMember(Head(app), available, d);
    KeptMember(Pairs(suites, CurrentUser), available, d);
    if d in Pairs(suites, CurrentUser) {
      PairsApp(suites, CurrentUser, d);
    }
    var a := Kept(Head(app), available) + Kept(Pairs(suites, CurrentUser), available) + Kept(before, available);
    FirstIndexAfter(a, d, rest);
    assert a + [d] == Kept(Head(app), available) + Kept(Pairs(suites, CurrentUser), available) + Kept(Middle(app), available);
  }

  /** Below the application's domains for this user. */
  lemma CurrentUserPart(app: App, suite: App, rest: seq<Domain>, available: Domain -> bool)
    requires available(Standard(app, CurrentUser, AnyHost))
    ensures var head := Kept(Head(app), available);
            var i := IndexIfAvailable(head + rest, Standard(app, CurrentUser, AnyHost), available) + 1;
            var s1 := Inserted(head + rest, i, Standard(suite, CurrentUser, AnyHost), available);
            && i <= |s1|
            && Inserted(s1, i, Standard(suite, CurrentUser, CurrentHost), available)
               == head + Kept(Pair(suite, CurrentUser), available) + rest
  {
    hide Kept;
    hide FirstIndex;
    hide Inserted;
    HeadIndex(app, available, rest);
    InsertPair(Kept(Head(app), available), rest, suite, CurrentUser, available);
  }

  /** Below the application's domains for any user. */
  lemma AnyUserPart(app: App, suites: seq<App>, suite: App, rest: seq<Domain>, available: Domain -> bool)
    requires available(Standard(app, AnyUser, AnyHost))
    ensures var front := Kept(Head(app), available) + Kept(Pairs(suites, CurrentUser), available) + Kept(Middle(app), available);
            var j := AnyUserIndex(front + rest, app, available);
            var s3 := Inserted(front + rest, j, Standard(suite, AnyUser, AnyHost), available);
            && j <= |s3|
            && Inserted(s3, j, Standard(suite, AnyUser, CurrentHost), available)
               == front + Kept(Pair(suite, AnyUser), available) + rest
  {
    hide Kept;
    hide FirstIndex;
    hide Inserted;
    var front := Kept(Head(app), available) + Kept(Pairs(suites, CurrentUser), available) + Kept(Middle(app), available);
    MiddleIndex(app, suites, available, rest);
    InsertPair(front, rest, suite, AnyUser, available);
  }

  lemma PairsCons(suite: App, suites: seq<App>, user: User, available: Domain -> bool)
    ensures Kept(Pairs([suite] + suites, user), available) == Kept(Pair(suite, user), available) + Kept(Pairs(suites, user), available)
  {
    assert ([suite] + suites)[1..] == suites;
    KeptConcat(Pair(suite, user), Pairs(suites, user), available);
  }

  // ---------------------------------------------------------------- the documented order

  /**
   The documented order, place by place: this user before any user; for each, the
   application, the suites as they are given, any application; for each, this host
   before any host.
   */
  lemma OrderAt(app: App, suites: seq<App>, i: nat)
    ensures |DocumentedOrder(app, suites)| == 4 * (|suites| + 2)
    ensures var names := [app] + suites + [AnyApplication];
            i < 2 * |names| ==>
              && DocumentedOrder(app, suites)[i] == Standard(names[i / 2], CurrentUser, if i % 2 == 0 then CurrentHost else AnyHost)
              && DocumentedOrder(app, suites)[2 * |names| + i] == Standard(names[i / 2], AnyUser, if i % 2 == 0 then CurrentHost else AnyHost)
  {
    hide Pairs;
    HalfAt(app, suites, CurrentUser, i);
    HalfAt(app, suites, AnyUser, i);
    assert DocumentedOrder(app, suites) == HalfOrder(app, suites, CurrentUser) + HalfOrder(app, suites, AnyUser);
  }

  /** The order for one user. */
  ghost function HalfOrder(app: App, suites: seq<App>, user: User): seq<Domain> {
    Pair(app, user) + Pairs(suites, user) + Pair(AnyApplication, user)
  }

  lemma HalfAt(app: App, suites: seq<App>, user: User, i: nat)
    ensures |HalfOrder(app, suites, user)| == 2 * (|suites| + 2)
    ensures var names := [app] + suites + [AnyApplication];
            i < 2 * |names| ==> HalfOrder(app, suites, user)[i] == Standard(names[i / 2], user, if i % 2 == 0 then CurrentHost else AnyHost)
  {
    hide Pairs;
    PairsAt(suites, user, if 2 <= i < 2 * |suites| + 2 then i - 2 else 0);
  }

  lemma {:induction false} PairsAt(suites: seq<App>, user: User, i: nat)
    ensures |Pairs(suites, user)| == 2 * |suites|
    ensures i < 2 * |suites| ==> Pairs(suites, user)[i] == Standard(suites[i / 2], user, if i % 2 == 0 then CurrentHost else AnyHost)
  {
    if suites != [] {
      PairsAt(suites[1..], user, if 2 <= i then i - 2 else 0);
    }
  }

  // ---------------------------------------------------------------- the exact condition

  predicate NoneAvailable(app: App, user: User, available: Domain -> bool) {
    !available(Standard(app, user, CurrentHost)) && !available(Standard(app, user, AnyHost))
  }

  /** The suite's domains for this user do not go above the application's domain for this host. */
  predicate CurrentUserPlaced(app: App, suite: App, available: Domain -> bool) {
    || NoneAvailable(suite, CurrentUser, available)
    || available(Standard(app, CurrentUser, AnyHost))
    || !available(Standard(app, CurrentUser, CurrentHost))
  }

  /**
   The suite's domains for any user go neither above the application's domain for this
   host nor below everything else.
   */
  predicate AnyUserPlaced(app: App, suites: seq<App>, suite: App, available: Domain -> bool) {
    || NoneAvailable(suite, AnyUser, available)
    || available(Standard(app, AnyUser, AnyHost))
    || if !NoneAvailable(AnyApplication, CurrentUser, available) then !available(Standard(app, AnyUser, CurrentHost))
       else NoneAvailable(AnyApplication, AnyUser, available) && forall i :: 0 <= i < |suites| ==> NoneAvailable(suites[i], AnyUser, available)
  }

  ghost predicate Placed(app: App, suites: seq<App>, suite: App, available: Domain -> bool) {
    CurrentUserPlaced(app, suite, available) && AnyUserPlaced(app, suites, suite, available)
  }

  /** A new suite: not the application, not listed yet, and none of the names stands for any application. */
  ghost predicate NewSuite(app: App, suites: seq<App>, suite: App) {
    suite != app && suite !in suites && AnyApplication !in [app, suite] + suites
  }

  /** Two lists that begin differently change places only if one is empty. */
  lemma Displaced(a: seq<Domain>, m: seq<Domain>, p: seq<Domain>, b: seq<Domain>)
    requires m == [] || p == [] || m[0] != p[0]
    ensures a + p + m + b == a + m + p + b <==> m == [] || p == []
  {
    if m != [] && p != [] {
      assert (a + p + m + b)[|a|] == p[0];
      assert (a + m + p + b)[|a|] == m[0];
    }
  }

  lemma {:induction false} PairsApp(suites: seq<App>, user: User, d: Domain)
    requires d in Pairs(suites, user)
    ensures d.Standard? && d.app in suites && d.user == user
  {
    if d !in Pair(suites[0], user) {
      PairsApp(suites[1..], user, d);
    }
  }

  lemma {:induction false} NoPairs(suites: seq<App>, user: User, available: Domain -> bool)
    ensures Kept(Pairs(suites, user), available) == [] <==> forall i :: 0 <= i < |suites| ==> NoneAvailable(suites[i], user, available)
  {
    hide Kept;
    if suites == [] {
      KeptNothing(Pairs(suites, user), available);
    } else {
      var rest := suites[1..];
      NoPairs(rest, user, available);
      assert suites == [suites[0]] + rest;
      PairsCons(suites[0], rest, user, available);
      PairKept(suites[0], user, available);
    }
  }

  /** Where the search for the suite's place for this user leads. */
  lemma CurrentUserStep(app: App, suite: App, rest: seq<Domain>, available: Domain -> bool)
    ensures var head, p := Kept(Head(app), available), Kept(Pair(suite, CurrentUser), available);
            var i := IndexIfAvailable(head + rest, Standard(app, CurrentUser, AnyHost), available) + 1;
            var s1 := Inserted(head + rest, i, Standard(suite, CurrentUser, AnyHost), available);
            && i <= |s1|
            && Inserted(s1, i, Standard(suite, CurrentUser, CurrentHost), available)
               == if available(Standard(app, CurrentUser, AnyHost)) then head + p + rest else p + head + rest
  {
    hide Kept;
    hide FirstIndex;
    hide Inserted;
    var head := Kept(Head(app), available);
    if available(Standard(app, CurrentUser, AnyHost)) {
      CurrentUserPart(app, suite, rest, available);
    } else {
      InsertPair([], head + rest, suite, CurrentUser, available);
      assert [] + (head + rest) == head + rest;
      assert [] + Kept(Pair(suite, CurrentUser), available) + (head + rest) == Kept(Pair(suite, CurrentUser), available) + head + rest;
    }
  }

  /** Where the search for the place for any user leads. */
  ghost function AnyUserAdded(s: seq<Domain>, app: App, suite: App, available: Domain -> bool): seq<Domain> {
    var j := AnyUserIndex(s, app, available);
    Inserted(Inserted(s, j, Standard(suite, AnyUser, AnyHost), available), j, Standard(suite, AnyUser, CurrentHost), available)
  }

  lemma InsertPairAt(a: seq<Domain>, b: seq<Domain>, app: App, suite: App, available: Domain -> bool)
    requires AnyUserIndex(a + b, app, available) == |a|
    ensures AnyUserAdded(a + b, app, suite, available) == a + Kept(Pair(suite, AnyUser), available) + b
  {
    hide Kept;
    hide Inserted;
    hide AnyUserIndex;
    InsertPair(a, b, suite, AnyUser, available);
  }

  /** Without the application's any-host domain, the place is below the global ones for this user. */
  lemma GlobalIndex(app: App, a: seq<Domain>, b: seq<Domain>, available: Domain -> bool)
    requires !available(Standard(app, AnyUser, AnyHost)) && !NoneAvailable(AnyApplication, CurrentUser, available)
    requires forall x :: x in a ==> x.Standard? && x.app != AnyApplication
    ensures var front := a + Kept(Pair(AnyApplication, CurrentUser), available);
            AnyUserIndex(front + b, app, available) == |front|
  {
    hide Kept;
    hide FirstIndex;
    var here, global := Standard(AnyApplication, CurrentUser, CurrentHost), Standard(AnyApplication, CurrentUser, AnyHost);
    PairKept(AnyApplication, CurrentUser, available);
    var front := a + Kept(Pair(AnyApplication, CurrentUser), available);
    if available(global) {
      var before := a + if available(here) then [here] else [];
      assert front == before + [global];
      FirstIndexAfter(before, global, b);
    } else {
      assert front == a + [here];
      FirstIndexAfter(a, here, b);
    }
  }

  lemma BottomIndex(app: App, s: seq<Domain>, available: Domain -> bool)
    requires !available(Standard(app, AnyUser, AnyHost)) && NoneAvailable(AnyApplication, CurrentUser, available)
    ensures AnyUserIndex(s, app, available) == |s|
  {
  }

  lemma NothingAdded(s: seq<Domain>, app: App, suite: App, available: Domain -> bool)
    requires NoneAvailable(suite, AnyUser, available)
    ensures AnyUserAdded(s, app, suite, available) == s
  {
  }

  /** The any-user half: `y` is the list up to the middle, `au` and `tail` follow. */
  lemma AnyUserHalf(app: App, suites: seq<App>, suite: App, available: Domain -> bool)
    requires NewSuite(app, suites, suite)
    ensures var head, cu, mid := Kept(Head(app), available), Kept(Pairs([suite] + suites, CurrentUser), available), Kept(Middle(app), available);
            var au, tail := Kept(Pairs(suites, AnyUser), available), Kept(Tail(), available);
            AnyUserAdded(head + cu + mid + (au + tail), app, suite, available)
            == head + cu + mid + Kept(Pair(suite, AnyUser), available) + (au + tail)
            <==> AnyUserPlaced(app, suites, suite, available)
  {
    hide Kept;
    hide Inserted;
    hide AnyUserIndex;
    var head, cu, mid := Kept(Head(app), available), Kept(Pairs([suite] + suites, CurrentUser), available), Kept(Middle(app), available);
    var au, tail := Kept(Pairs(suites, AnyUser), available), Kept(Tail(), available);
    var r := Kept(Pair(suite, AnyUser), available);
    PairKept(suite, AnyUser, available);
    if available(Standard(app, AnyUser, AnyHost)) {
      AnyUserPart(app, [suite] + suites, suite, au + tail, available);
    } else if NoneAvailable(suite, AnyUser, available) {
      NothingAdded(head + cu + mid + (au + tail), app, suite, available);
    } else if NoneAvailable(AnyApplication, CurrentUser, available) {
      AtBottom(app, suites, suite, head + cu + mid, available);
    } else {
      BelowGlobal(app, suites, suite, au + tail, available);
    }
  }

  /** The domains go below everything: right only if nothing follows the middle. */
  lemma AtBottom(app: App, suites: seq<App>, suite: App, y: seq<Domain>, available: Domain -> bool)
    requires NewSuite(app, suites, suite) && !NoneAvailable(suite, AnyUser, available)
    requires !available(Standard(app, AnyUser, AnyHost)) && NoneAvailable(AnyApplication, CurrentUser, available)
    ensures var rest := Kept(Pairs(suites, AnyUser), available) + Kept(Tail(), available);
            AnyUserAdded(y + rest, app, suite, available) == y + Kept(Pair(suite, AnyUser), available) + rest
            <==> AnyUserPlaced(app, suites, suite, available)
  {
    hide Kept;
    hide Inserted;
    hide AnyUserIndex;
    var au, tail, r := Kept(Pairs(suites, AnyUser), available), Kept(Tail(), available), Kept(Pair(suite, AnyUser), available);
    var rest := au + tail;
    PairKept(suite, AnyUser, available);
    PairKept(AnyApplication, AnyUser, available);
    NoPairs(suites, AnyUser, available);
    BottomIndex(app, y + rest, available);
    assert y + rest == (y + rest) + [];
    InsertPairAt(y + rest, [], app, suite, available);
    if rest != [] {
      assert rest[0] in au || rest[0] in tail;
      FollowerApp(suites, rest[0], available);
    }
    Displaced(y, rest, r, []);
    assert y + r + rest + [] == y + r + rest;
  }

  lemma FollowerApp(suites: seq<App>, d: Domain, available: Domain -> bool)
    requires d in Kept(Pairs(suites, AnyUser), available) || d in Kept(Tail(), available)
    ensures d.Standard? && (d.app in suites || d.app == AnyApplication)
  {
    hide Kept;
    KeptMember(Pairs(suites, AnyUser), available, d);
    KeptMember(Tail(), available, d);
    if d in Pairs(suites, AnyUser) {
      PairsApp(suites, AnyUser, d);
    }
  }

  /** The domains go below the global ones: right only if the application has none for this host there. */
  lemma BelowGlobal(app: App, suites: seq<App>, suite: App, rest: seq<Domain>, available: Domain -> bool)
    requires NewSuite(app, suites, suite) && !NoneAvailable(suite, AnyUser, available)
    requires !available(Standard(app, AnyUser, AnyHost)) && !NoneAvailable(AnyApplication, CurrentUser, available)
    ensures var y := Kept(Head(app), available) + Kept(Pairs([suite] + suites, CurrentUser), available) + Kept(Middle(app), available);
            AnyUserAdded(y + rest, app, suite, available) == y + Kept(Pair(suite, AnyUser), available) + rest
            <==> !available(Standard(app, AnyUser, CurrentHost))
  {
    hide Kept;
    hide Inserted;
    hide AnyUserIndex;
    var before := Kept(Head(app), available) + Kept(Pairs([suite] + suites, CurrentUser), available);
    var globals, own := Kept(Pair(AnyApplication, CurrentUser), available), Kept(Pair(app, AnyUser), available);
    var r := Kept(Pair(suite, AnyUser), available);
    KeptConcat(Pair(AnyApplication, CurrentUser), Pair(app, AnyUser), available);
    PairKept(app, AnyUser, available);
    PairKept(suite, AnyUser, available);
    forall x | x in before
      ensures x.Standard? && x.app != AnyApplication
    {
      LeaderApp(app, [suite] + suites, x, available);
    }
    var front := before + globals;
    GlobalIndex(app, before, own + rest, available);
    InsertPairAt(front, own + rest, app, suite, available);
    assert before + (globals + own) + rest == front + (own + rest);
    Displaced(front, own, r, rest);
    assert front + r + (own + rest) == front + r + own + rest;
    assert before + (globals + own) + r + rest == front + own + r + rest;
  }

  lemma LeaderApp(app: App, suites: seq<App>, d: Domain, available: Domain -> bool)
    requires d in Kept(Head(app), available) || d in Kept(Pairs(suites, CurrentUser), available)
    ensures d.Standard? && (d.app == app || d.app in suites)
  {
    hide Kept;
    KeptMember(Head(app), available, d);
    KeptMember(Pairs(suites, CurrentUser), available, d);
    if d in Pairs(suites, CurrentUser) {
      PairsApp(suites, CurrentUser, d);
    }
  }

  /** Nothing goes above the first domain in the second half. */
  lemma FirstStays(s: seq<Domain>, app: App, suite: App, available: Domain -> bool)
    requires s != []
    ensures var t := AnyUserAdded(s, app, suite, available); t != [] && t[0] == s[0]
  {
    assert 0 < AnyUserIndex(s, app, available);
  }

  /** What the design wants, part by part. */
  lemma WantedParts(app: App, suites: seq<App>, suite: App, available: Domain -> bool)
    ensures var head, cu, mid := Kept(Head(app), available), Kept(Pairs(suites, CurrentUser), available), Kept(Middle(app), available);
            var au, tail := Kept(Pairs(suites, AnyUser), available), Kept(Tail(), available);
            var p, r := Kept(Pair(suite, CurrentUser), available), Kept(Pair(suite, AnyUser), available);
            && Kept(Pairs([suite] + suites, CurrentUser), available) == p + cu
            && Listed(app, suites, available) == head + (cu + mid + au + tail)
            && Listed(app, [suite] + suites, available) == head + (p + cu) + mid + r + (au + tail)
  {
    hide Kept;
    hide Listed;
    ListedParts(app, suites, available);
    ListedParts(app, [suite] + suites, available);
    PairsCons(suite, suites, CurrentUser, available);
    PairsCons(suite, suites, AnyUser, available);
  }

  /** What the code makes, part by part. */
  lemma MadeParts(app: App, suites: seq<App>, suite: App, available: Domain -> bool)
    ensures var head, cu, mid := Kept(Head(app), available), Kept(Pairs(suites, CurrentUser), available), Kept(Middle(app), available);
            var au, tail := Kept(Pairs(suites, AnyUser), available), Kept(Tail(), available);
            var p := Kept(Pair(suite, CurrentUser), available);
            WithSuite(Listed(app, suites, available), app, suite, available) == AnyUserAdded(
              if available(Standard(app, CurrentUser, AnyHost)) then head + (p + cu) + mid + (au + tail)
              else p + head + (cu + mid + au + tail), app, suite, available)
  {
    hide Kept;
    hide Listed;
    hide Inserted;
    hide AnyUserIndex;
    hide IndexIfAvailable;
    var head, cu, mid := Kept(Head(app), available), Kept(Pairs(suites, CurrentUser), available), Kept(Middle(app), available);
    var au, tail := Kept(Pairs(suites, AnyUser), available), Kept(Tail(), available);
    var p, rest := Kept(Pair(suite, CurrentUser), available), cu + mid + au + tail;
    WantedParts(app, suites, suite, available);
    CurrentUserStep(app, suite, rest, available);
    Reassociated(head, p, cu, mid, au, tail);
  }

  lemma Reassociated(head: seq<Domain>, p: seq<Domain>, cu: seq<Domain>, mid: seq<Domain>, au: seq<Domain>, tail: seq<Domain>)
    ensures head + p + (cu + mid + au + tail) == head + (p + cu) + mid + (au + tail)
  {
  }

  /** Adding a new suite gives the documented order if and only if both halves of the suite are placed right. */
  lemma SuiteOrder(app: App, suites: seq<App>, suite: App, available: Domain -> bool)
    requires NewSuite(app, suites, suite)
    ensures WithSuite(Listed(app, suites, available), app, suite, available) == Listed(app, [suite] + suites, available)
            <==> Placed(app, suites, suite, available)
  {
    hide Kept;
    hide Listed;
    hide WithSuite;
    hide AnyUserAdded;
    hide AnyUserPlaced;
    var head, cu, mid := Kept(Head(app), available), Kept(Pairs(suites, CurrentUser), available), Kept(Middle(app), available);
    var au, tail := Kept(Pairs(suites, AnyUser), available), Kept(Tail(), available);
    var p := Kept(Pair(suite, CurrentUser), available);
    PairKept(app, CurrentUser, available);
    PairKept(suite, CurrentUser, available);
    WantedParts(app, suites, suite, available);
    MadeParts(app, suites, suite, available);
    if CurrentUserPlaced(app, suite, available) {
      AnyUserHalf(app, suites, suite, available);
      assert p == [] || head == [] ==> p + head + (cu + mid + au + tail) == head + (p + cu) + mid + (au + tail);
    } else {
      FirstStays(p + head + (cu + mid + au + tail), app, suite, available);
    }
  }

  /** With the application's own any-host domains every suite is placed right, even one that is listed already. */
  lemma OwnDomainsSuffice(app: App, suites: seq<App>, suite: App, available: Domain -> bool)
    requires available(Standard(app, CurrentUser, AnyHost)) && available(Standard(app, AnyUser, AnyHost))
    ensures WithSuite(Listed(app, suites, available), app, suite, available) == Listed(app, [suite] + suites, available)
  {
    hide Kept;
    hide Listed;
    hide WithSuite;
    hide Inserted;
    hide AnyUserIndex;
    WantedParts(app, suites, suite, available);
    MadeParts(app, suites, suite, available);
    AnyUserPart(app, [suite] + suites, suite, Kept(Pairs(suites, AnyUser), available) + Kept(Tail(), available), available);
  }

  /** Each half can go wrong on the standard list, for every application and every new suite. */
  lemma SuiteOrderCanFail(app: App, suite: App)
    requires NewSuite(app, [], suite)
    ensures var available := (d: Domain) => d != Standard(app, CurrentUser, AnyHost);
            WithSuite(Listed(app, [], available), app, suite, available) != Listed(app, [suite], available)
    ensures var available := (d: Domain) => d != Standard(app, AnyUser, AnyHost);
            WithSuite(Listed(app, [], available), app, suite, available) != Listed(app, [suite], available)
  {
    hide Listed;
    hide WithSuite;
    SuiteOrder(app, [], suite, (d: Domain) => d != Standard(app, CurrentUser, AnyHost));
    SuiteOrder(app, [], suite, (d: Domain) => d != Standard(app, AnyUser, AnyHost));
    assert [suite] + [] == [suite];
  }

  // ---------------------------------------------------------------- sequences of suites

  /** Adding suites one after the other, oldest first. */
  ghost function WithSuites(s: seq<Domain>, app: App, suites: seq<App>, available: Domain -> bool): seq<Domain> {
    if suites == [] then s else WithSuite(WithSuites(s, app, suites[1..], available), app, suites[0], available)
  }

  /** Every suite is new when its turn comes. */
  ghost predicate NewSuites(app: App, suites: seq<App>) {
    forall k :: 0 <= k < |suites| ==> NewSuite(app, suites[k + 1..], suites[k])
  }

  /** Every suite is placed right when its turn comes. */
  ghost predicate AllPlaced(app: App, suites: seq<App>, available: Domain -> bool) {
    forall k :: 0 <= k < |suites| ==> Placed(app, suites[k + 1..], suites[k], available)
  }

  lemma NewSuitesStep(app: App, suites: seq<App>)
    requires suites != []
    ensures NewSuites(app, suites) <==> NewSuites(app, suites[1..]) && NewSuite(app, suites[1..], suites[0])
  {
    hide NewSuite;
    var rest := suites[1..];
    assert forall k :: 0 <= k < |rest| ==> rest[k] == suites[k + 1] && rest[k + 1..] == suites[k + 1 + 1..];
    if NewSuites(app, rest) && NewSuite(app, rest, suites[0]) {
      forall k | 0 <= k < |suites|
        ensures NewSuite(app, suites[k + 1..], suites[k])
      {
        assert 0 < k ==> NewSuite(app, rest[k - 1 + 1..], rest[k - 1]);
      }
    }
  }

  lemma AllPlacedStep(app: App, suites: seq<App>, available: Domain -> bool)
    requires suites != []
    ensures AllPlaced(app, suites, available) <==>
            AllPlaced(app, suites[1..], available) && Placed(app, suites[1..], suites[0], available)
  {
    hide Placed;
    var rest := suites[1..];
    assert forall k :: 0 <= k < |rest| ==> rest[k] == suites[k + 1] && rest[k + 1..] == suites[k + 1 + 1..];
    if AllPlaced(app, rest, available) && Placed(app, rest, suites[0], available) {
      forall k | 0 <= k < |suites|
        ensures Placed(app, suites[k + 1..], suites[k], available)
      {
        assert 0 < k ==> Placed(app, rest[k - 1 + 1..], rest[k - 1], available);
      }
    }
  }

  /** Only domains of the application, of any application and of the suites are listed. */
  ghost predicate OnlyOf(s: seq<Domain>, app: App, suites: seq<App>) {
    forall d :: d in s ==> d.Standard? && (d.app == app || d.app == AnyApplication || d.app in suites)
  }

  lemma ListedOnlyOf(app: App, suites: seq<App>, available: Domain -> bool)
    ensures OnlyOf(Listed(app, suites, available), app, suites) && OnlyOf(DocumentedOrder(app, suites), app, suites)
  {
    hide Kept;
    forall d | d in DocumentedOrder(app, suites)
      ensures d.Standard? && (d.app == app || d.app == AnyApplication || d.app in suites)
    {
      if d in Pairs(suites, CurrentUser) {
        PairsApp(suites, CurrentUser, d);
      } else if d in Pairs(suites, AnyUser) {
        PairsApp(suites, AnyUser, d);
      }
    }
    forall d | d in Listed(app, suites, available)
      ensures d in DocumentedOrder(app, suites)
    {
      KeptMember(DocumentedOrder(app, suites), available, d);
    }
  }

  lemma WithSuiteOnlyOf(s: seq<Domain>, app: App, suites: seq<App>, suite: App, available: Domain -> bool)
    requires OnlyOf(s, app, suites)
    ensures OnlyOf(WithSuite(s, app, suite, available), app, [suite] + suites)
  {
    hide AnyUserIndex;
    hide IndexIfAvailable;
    hide Inserted;
    assert OnlyOf(s, app, [suite] + suites);
    hide OnlyOf;
    var i := IndexIfAvailable(s, Standard(app, CurrentUser, AnyHost), available) + 1;
    InsertedOnlyOf(s, i, app, [suite] + suites, Standard(suite, CurrentUser, AnyHost), available);
    var s1 := Inserted(s, i, Standard(suite, CurrentUser, AnyHost), available);
    InsertedOnlyOf(s1, i, app, [suite] + suites, Standard(suite, CurrentUser, CurrentHost), available);
    var s2 := Inserted(s1, i, Standard(suite, CurrentUser, CurrentHost), available);
    var j := AnyUserIndex(s2, app, available);
    InsertedOnlyOf(s2, j, app, [suite] + suites, Standard(suite, AnyUser, AnyHost), available);
    var s3 := Inserted(s2, j, Standard(suite, AnyUser, AnyHost), available);
    InsertedOnlyOf(s3, j, app, [suite] + suites, Standard(suite, AnyUser, CurrentHost), available);
  }

  lemma InsertedOnlyOf(s: seq<Domain>, i: nat, app: App, suites: seq<App>, d: Domain, available: Domain -> bool)
    requires i <= |s| && OnlyOf(s, app, suites) && d.Standard? && d.app in suites
    ensures |s| <= |Inserted(s, i, d, available)| && OnlyOf(Inserted(s, i, d, available), app, suites)
  {
  }

  lemma {:induction false} WithSuitesOnlyOf(app: App, suites: seq<App>, available: Domain -> bool)
    ensures OnlyOf(WithSuites(Listed(app, [], available), app, suites, available), app, suites)
  {
    hide WithSuite;
    hide Listed;
    if suites == [] {
      ListedOnlyOf(app, [], available);
    } else {
      WithSuitesOnlyOf(app, suites[1..], available);
      WithSuiteOnlyOf(WithSuites(Listed(app, [], available), app, suites[1..], available), app, suites[1..], suites[0], available);
      assert [suites[0]] + suites[1..] == suites;
    }
  }

  /** The documented order without the newest suite is the documented order of the others. */
  lemma ListedWithout(app: App, suites: seq<App>, suite: App, available: Domain -> bool)
    requires NewSuite(app, suites, suite)
    ensures WithoutSuite(Listed(app, [suite] + suites, available), suite, available) == Listed(app, suites, available)
  {
    hide Kept;
    var h := (x: Domain) => available(x) && Foreign(suite, available)(x);
    KeptTwice(DocumentedOrder(app, [suite] + suites), available, Foreign(suite, available), h);
    ListedParts(app, suites, h);
    ListedParts(app, [suite] + suites, h);
    PairsCons(suite, suites, CurrentUser, h);
    PairsCons(suite, suites, AnyUser, h);
    PairKept(suite, CurrentUser, h);
    PairKept(suite, AnyUser, h);
    ListedOnlyOf(app, suites, available);
    KeptSame(DocumentedOrder(app, suites), available, h);
  }

  /** A list that went wrong is not put right by a further suite. */
  lemma NotMended(l: seq<Domain>, app: App, suites: seq<App>, suite: App, available: Domain -> bool)
    requires NewSuite(app, suites, suite) && OnlyOf(l, app, suites)
    requires WithSuite(l, app, suite, available) == Listed(app, [suite] + suites, available)
    ensures l == Listed(app, suites, available)
  {
    hide WithSuite;
    hide Listed;
    hide WithoutSuite;
    SuiteRoundTrip(l, app, suite, available);
    ListedWithout(app, suites, suite, available);
  }

  /** Any sequence of new suites ends up in the documented order if and only if each is placed right in its turn. */
  lemma {:induction false} SuitesOrder(app: App, suites: seq<App>, available: Domain -> bool)
    requires NewSuites(app, suites)
    ensures WithSuites(Listed(app, [], available), app, suites, available) == Listed(app, suites, available)
            <==> AllPlaced(app, suites, available)
  {
    hide Listed;
    hide WithSuite;
    hide Placed;
    hide NewSuite;
    hide OnlyOf;
    if suites != [] {
      var rest, suite := suites[1..], suites[0];
      var l := WithSuites(Listed(app, [], available), app, rest, available);
      assert [suite] + rest == suites;
      NewSuitesStep(app, suites);
      AllPlacedStep(app, suites, available);
      SuitesOrder(app, rest, available);
      SuiteOrder(app, rest, suite, available);
      WithSuitesOnlyOf(app, rest, available);
      if WithSuite(l, app, suite, available) == Listed(app, suites, available) {
        NotMended(l, app, rest, suite, available);
      }
    }
  }

  /** With the application's own any-host domains every sequence does, repeated suites included. */
  lemma {:induction false} OwnDomainsOrder(app: App, suites: seq<App>, available: Domain -> bool)
    requires available(Standard(app, CurrentUser, AnyHost)) && available(Standard(app, AnyUser, AnyHost))
    ensures WithSuites(Listed(app, [], available), app, suites, available) == Listed(app, suites, available)
  {
    hide Listed;
    hide WithSuite;
    if suites != [] {
      OwnDomainsOrder(app, suites[1..], available);
      OwnDomainsSuffice(app, suites[1..], suites[0], available);
      assert [suites[0]] + suites[1..] == suites;
    }
  }
}
