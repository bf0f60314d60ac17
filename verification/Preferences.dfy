/**
 CFApplicationPreferences for one application: a prioritised list of domains, and a
 cached dictionary that merges them.
 */
module Preferences {

  type Key = string
  type Value = nat
  type Dict = map<Key, Value>

  datatype Option<T> = None | Some(value: T)

  datatype App = AnyApplication | Named(name: string)
  datatype User = CurrentUser | AnyUser
  datatype Host = CurrentHost | AnyHost

  /** A standard domain, or one that a client made itself. */
  datatype Domain = Standard(app: App, user: User, host: Host) | Custom(id: nat)

  function Contents(store: map<Domain, Dict>, d: Domain): Dict {
    if d in store then store[d] else map[]
  }

  // ---------------------------------------------------------------- lookup and merge

  /** The value from the first domain of the list that has the key. */
  ghost function Lookup(search: seq<Domain>, store: map<Domain, Dict>, key: Key): Option<Value> {
    if search == [] then None
    else if key in Contents(store, search[0]) then Some(Contents(store, search[0])[key])
    else Lookup(search[1..], store, key)
  }

  /** All domains in one dictionary, earlier ones overriding later ones. */
  ghost function Merged(search: seq<Domain>, store: map<Domain, Dict>): Dict {
    if search == [] then map[] else Merged(search[1..], store) + Contents(store, search[0])
  }

  lemma {:induction false} MergedLooksUp(search: seq<Domain>, store: map<Domain, Dict>, key: Key)
    ensures Lookup(search, store, key) == if key in Merged(search, store) then Some(Merged(search, store)[key]) else None
  {
    if search != [] {
      MergedLooksUp(search[1..], store, key);
    }
  }

  /** The first domain that has the key decides. */
  lemma {:induction false} LookupMeans(search: seq<Domain>, store: map<Domain, Dict>, key: Key)
    ensures Lookup(search, store, key) == None <==> forall i :: 0 <= i < |search| ==> search[i] !in store || key !in store[search[i]]
    ensures Lookup(search, store, key) != None ==>
              exists i ::
                && 0 <= i < |search| && search[i] in store && key in store[search[i]]
                && Lookup(search, store, key) == Some(store[search[i]][key])
                && forall j :: 0 <= j < i ==> search[j] !in store || key !in store[search[j]]
  {
    if search != [] {
      var rest := search[1..];
      LookupMeans(rest, store, key);
      assert search == [search[0]] + rest;
      if key in Contents(store, search[0]) {
        assert search[0] in store && key in store[search[0]];
      } else if Lookup(rest, store, key) != None {
        var i :| 0 <= i < |rest| && rest[i] in store && key in store[rest[i]]
          && Lookup(rest, store, key) == Some(store[rest[i]][key])
          && forall j :: 0 <= j < i ==> rest[j] !in store || key !in store[rest[j]];
        assert search[i + 1] == rest[i];
      }
    }
  }

  /** A domain that is not searched does not matter. */
  lemma {:induction false} UnsearchedDomain(search: seq<Domain>, store: map<Domain, Dict>, d: Domain, dict: Dict)
    requires d !in search
    ensures Merged(search, store[d := dict]) == Merged(search, store)
  {
    if search != [] {
      UnsearchedDomain(search[1..], store, d, dict);
    }
  }

  // ---------------------------------------------------------------- search lists

  function FirstIndex(s: seq<Domain>, d: Domain): (i: int)
    ensures -1 <= i < |s|
    ensures 0 <= i ==> s[i] == d && d !in s[..i]
    ensures i == -1 ==> d !in s
  {
    if s == [] then -1 else if s[0] == d then 0 else
      var r := FirstIndex(s[1..], d);
      assert 0 <= r ==> s[..r + 1] == [s[0]] + s[1..][..r];
      if r < 0 then -1 else r + 1
  }

  function Inserted(s: seq<Domain>, i: int, d: Domain, available: Domain -> bool): seq<Domain>
    requires 0 <= i <= |s|
  {
    if available(d) then s[..i] + [d] + s[i..] else s
  }

  function IndexIfAvailable(s: seq<Domain>, d: Domain, available: Domain -> bool): (i: int)
    ensures -1 <= i < |s|
  {
    if available(d) then FirstIndex(s, d) else -1
  }

  /** Where the any-user domains of a suite go: below the application's, else below a global one, else last. */
  function AnyUserIndex(s: seq<Domain>, app: App, available: Domain -> bool): (i: int)
    ensures 0 <= i <= |s|
  {
    var own := IndexIfAvailable(s, Standard(app, AnyUser, AnyHost), available);
    if own != -1 then own + 1 else
    var global := IndexIfAvailable(s, Standard(AnyApplication, CurrentUser, AnyHost), available);
    if global != -1 then global + 1 else
    var globalHere := IndexIfAvailable(s, Standard(AnyApplication, CurrentUser, CurrentHost), available);
    if globalHere != -1 then globalHere + 1 else |s|
  }

  /** The search list after a suite was added. */
  ghost function WithSuite(s: seq<Domain>, app: App, suite: App, available: Domain -> bool): seq<Domain> {
    var i := IndexIfAvailable(s, Standard(app, CurrentUser, AnyHost), available) + 1;
    var s1 := Inserted(s, i, Standard(suite, CurrentUser, AnyHost), available);
    var s2 := Inserted(s1, i, Standard(suite, CurrentUser, CurrentHost), available);
    var j := AnyUserIndex(s2, app, available);
    var s3 := Inserted(s2, j, Standard(suite, AnyUser, AnyHost), available);
    Inserted(s3, j, Standard(suite, AnyUser, CurrentHost), available)
  }

  // ---------------------------------------------------------------- the documented order

  ghost function Kept(s: seq<Domain>, available: Domain -> bool): seq<Domain> {
    if s == [] then [] else (if available(s[0]) then [s[0]] else []) + Kept(s[1..], available)
  }

  /** The two domains of an application or suite for one user, this host first. */
  ghost function Pair(app: App, user: User): seq<Domain> {
    [Standard(app, user, CurrentHost), Standard(app, user, AnyHost)]
  }

  ghost function Pairs(suites: seq<App>, user: User): seq<Domain> {
    if suites == [] then [] else Pair(suites[0], user) + Pairs(suites[1..], user)
  }

  /**
   The priority order of the design: the application, its suites from the newest to
   the oldest, any application; first for this user, then for any user.
   */
  ghost function DocumentedOrder(app: App, suites: seq<App>): seq<Domain> {
    Pair(app, CurrentUser) + Pairs(suites, CurrentUser) + (Pair(AnyApplication, CurrentUser) + Pair(app, AnyUser))
      + Pairs(suites, AnyUser) + Pair(AnyApplication, AnyUser)
  }

  lemma KeptStep(s: seq<Domain>, available: Domain -> bool)
    requires s != []
    ensures Kept(s, available) == (if available(s[0]) then [s[0]] else []) + Kept(s[1..], available)
  {
  }

  lemma KeptNothing(s: seq<Domain>, available: Domain -> bool)
    requires s == []
    ensures Kept(s, available) == []
  {
  }

  lemma {:induction false} KeptConcat(a: seq<Domain>, b: seq<Domain>, available: Domain -> bool)
    ensures Kept(a + b, available) == Kept(a, available) + Kept(b, available)
  {
    hide Kept;
    if a == [] {
      KeptNothing(a, available);
      assert a + b == b;
    } else {
      KeptConcat(a[1..], b, available);
      KeptStep(a, available);
      KeptStep(a + b, available);
      assert (a + b)[1..] == a[1..] + b;
    }
  }

  lemma {:induction false} KeptMember(s: seq<Domain>, available: Domain -> bool, d: Domain)
    ensures d in Kept(s, available) <==> d in s && available(d)
  {
    if s != [] {
      KeptMember(s[1..], available, d);
    }
  }

  /** The standard list, with suites. */
  ghost function Listed(app: App, suites: seq<App>, available: Domain -> bool): seq<Domain> {
    Kept(DocumentedOrder(app, suites), available)
  }

  // ---------------------------------------------------------------- the object

  class AppPreferences {
    const app: App
    /** Whether the domain store can provide a standard domain. */
    const available: Domain -> bool
    var search: seq<Domain>
    var dictRep: Option<Dict>
    var store: map<Domain, Dict>

    /** The cached dictionary is absent or up to date. */
    ghost predicate Valid()
      reads this
    {
      dictRep.Some? ==> dictRep.value == Merged(search, store)
    }

    constructor (app: App, available: Domain -> bool, store: map<Domain, Dict>)
      ensures Valid() && search == [] && dictRep == None && this.store == store
      ensures this.app == app && this.available == available
    {
      this.app, this.available, this.store := app, available, store;
      search, dictRep := [], None;
    }

    method UpdateDictRep()
      modifies `dictRep
      ensures Valid() && dictRep == None
    {
      dictRep := None;
    }

    /** Merges from the last domain to the first, so that earlier ones override. */
    method ComputeDictRep() returns (dict: Dict)
      ensures dict == Merged(search, store)
    {
      dict := map[];
      var idx := |search|;
      while 0 < idx
        invariant 0 <= idx <= |search| && dict == Merged(search[idx..], store)
      {
        idx := idx - 1;
        assert search[idx..][1..] == search[idx + 1..];
        dict := dict + Contents(store, search[idx]);
      }
      assert search[0..] == search;
    }

    /** The value of a key, computing the cache when there is none. */
    method CreateValueForKey(key: Key) returns (result: Option<Value>)
      requires Valid()
      modifies `dictRep
      ensures Valid() && dictRep == Some(Merged(search, store))
      ensures result == Lookup(search, store, key)
      // nobody has the key, or the first that has it decides
      ensures result == None <==> forall i :: 0 <= i < |search| ==> search[i] !in store || key !in store[search[i]]
      ensures result != None ==>
                exists i ::
                  && 0 <= i < |search| && search[i] in store && key in store[search[i]]
                  && result == Some(store[search[i]][key])
                  && forall j :: 0 <= j < i ==> search[j] !in store || key !in store[search[j]]
    {
      if dictRep.None? {
        var dict := ComputeDictRep();
        dictRep := Some(dict);
      }
      MergedLooksUp(search, store, key);
      LookupMeans(search, store, key);
      result := if key in dictRep.value then Some(dictRep.value[key]) else None;
    }

    /** A domain gets new contents, and the cache goes if the domain is searched. */
    method ChangeDomain(d: Domain, dict: Dict)
      requires Valid()
      modifies `store, `dictRep
      ensures Valid() && store == old(store)[d := dict]
      ensures d in search ==> dictRep == None
    {
      if d !in search {
        UnsearchedDomain(search, store, d, dict);
      }
      store := store[d := dict];
      if d in search {
        UpdateDictRep();
      }
    }

    method Set(key: Key, value: Value)
      requires Valid()
      modifies `store, `dictRep
      ensures Valid()
      ensures var d := Standard(app, CurrentUser, AnyHost);
              store == if available(d) then old(store)[d := Contents(old(store), d)[key := value]] else old(store)
    {
      var d := Standard(app, CurrentUser, AnyHost);
      if available(d) {
        ChangeDomain(d, Contents(store, d)[key := value]);
      }
    }

    method Remove(key: Key)
      requires Valid()
      modifies `store, `dictRep
      ensures Valid()
      ensures var d := Standard(app, CurrentUser, AnyHost);
              store == if available(d) then old(store)[d := Contents(old(store), d) - {key}] else old(store)
    {
      var d := Standard(app, CurrentUser, AnyHost);
      if available(d) {
        ChangeDomain(d, Contents(store, d) - {key});
      }
    }

    method AppendIfAvailable(d: Domain)
      modifies `search
      ensures search == old(search) + if available(d) then [d] else []
    {
      if available(d) {
        search := search + [d];
      }
    }

    /** The standard list: what the design says, without suites. */
    method SetStandardSearchList()
      modifies `search, `dictRep
      ensures Valid() && search == Listed(app, [], available)
    {
      hide Merged;
      search := [];
      ghost var order := DocumentedOrder(app, []);
      var domains := [
        Standard(app, CurrentUser, CurrentHost), Standard(app, CurrentUser, AnyHost),
        Standard(AnyApplication, CurrentUser, CurrentHost), Standard(AnyApplication, CurrentUser, AnyHost),
        Standard(app, AnyUser, CurrentHost), Standard(app, AnyUser, AnyHost),
        Standard(AnyApplication, AnyUser, CurrentHost), Standard(AnyApplication, AnyUser, AnyHost)];
      assert domains == order;
      for i := 0 to |domains|
        invariant search == Kept(domains[..i], available)
      {
        assert domains[..i + 1] == domains[..i] + [domains[i]];
        KeptConcat(domains[..i], [domains[i]], available);
        assert [domains[i]][1..] == [];
        AppendIfAvailable(domains[i]);
      }
      assert domains[..|domains|] == domains;
      UpdateDictRep();
    }

    method InsertIfAvailable(i: int, d: Domain)
      requires 0 <= i <= |search|
      modifies `search
      ensures search == Inserted(old(search), i, d, available)
    {
      if available(d) {
        search := search[..i] + [d] + search[i..];
      }
    }

    method AddSuitePreferences(suite: App)
      modifies `search, `dictRep
      ensures Valid() && search == WithSuite(old(search), app, suite, available)
    {
      var idx := IndexIfAvailable(search, Standard(app, CurrentUser, AnyHost), available) + 1;
      InsertIfAvailable(idx, Standard(suite, CurrentUser, AnyHost));
      InsertIfAvailable(idx, Standard(suite, CurrentUser, CurrentHost));
      idx := AnyUserIndex(search, app, available);
      InsertIfAvailable(idx, Standard(suite, AnyUser, AnyHost));
      InsertIfAvailable(idx, Standard(suite, AnyUser, CurrentHost));
      UpdateDictRep();
    }

    method AddDomain(d: Domain, addAtTop: bool)
      modifies `search, `dictRep
      ensures Valid() && search == if addAtTop then [d] + old(search) else old(search) + [d]
    {
      search := if addAtTop then [d] + search else search + [d];
      UpdateDictRep();
    }
  }
}
