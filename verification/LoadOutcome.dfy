/** Where runs end, in closed form, and when lazy loading gives the eager graph. */
module LoadOutcome {
  import opened Wrappers
  import opened Digraphs
  import opened CrateWorld
  import opened CrateIndex
  import opened CrateLoading
  import opened LazyLoading
  import opened LoadRuns

  // ---- what a crate waits for ----

  /** How many calls name `d`. */
  ghost function Times(calls: seq<Call>, d: string): nat {
    if calls == [] then 0
    else Times(calls[..|calls| - 1], d) + if Names(calls[|calls| - 1], d) then 1 else 0
  }

  lemma {:induction false} TimesPositive(calls: seq<Call>, d: string)
    ensures Times(calls, d) > 0 <==> exists i :: 0 <= i < |calls| && Names(calls[i], d)
    ensures Times(calls, d) > 0 <==> d in NamedBy(calls)
  {
    if calls != [] {
      var before, c := calls[..|calls| - 1], calls[|calls| - 1];
      assert calls == before + [c];
      NamedByAdd(before, c);
      TimesPositive(before, d);
      if Names(c, d) {
        assert Names(calls[|calls| - 1], d);
      } else if Times(before, d) > 0 {
        var i :| 0 <= i < |before| && Names(before[i], d);
        assert Names(calls[i], d);
      }
    }
  }

  /** How often `d` is still to come, after the calls, for a crate whose last call is at `k`. */
  ghost function LeftOver(u: Setup, calls: seq<Call>, k: nat, d: string): nat
    requires k < |calls| && calls[k].LoadCrate?
  {
    var listed := if d in Have(u, calls[..k]) then 0 else Listings(ListOf(u, calls[k]), d);
    var crossed := Times(calls[k + 1..], d);
    if crossed < listed then listed - crossed else 0
  }

  /** `k` is the last call that names `n`. */
  predicate LastNames(calls: seq<Call>, n: string, k: nat) {
    k < |calls| && Names(calls[k], n) && forall j :: k < j < |calls| ==> !Names(calls[j], n)
  }

  lemma {:induction false} LastCall(calls: seq<Call>, n: string) returns (k: nat)
    requires n in NamedBy(calls)
    ensures LastNames(calls, n, k)
  {
    var before, c := calls[..|calls| - 1], calls[|calls| - 1];
    if Names(c, n) {
      k := |calls| - 1;
    } else {
      assert calls == before + [c];
      NamedByAdd(before, c);
      k := LastCall(before, n);
    }
  }

  /** Needs in closed form: what the last call listed and found without code, less one for every later naming. */
  lemma {:induction false} WaitingIs(u: Setup, calls: seq<Call>, n: string, k: nat, d: string)
    requires LastNames(calls, n, k)
    ensures Waiting(u, calls, n)[d] == LeftOver(u, calls, k, d)
    decreases |calls|
  {
    hide Have, Waiting, Times, Listings, NeedsOf, ListOf;
    var before, c := calls[..|calls| - 1], calls[|calls| - 1];
    assert calls == before + [c];
    OneMore(u, before, c, n);
    if k == |calls| - 1 {
      assert calls[k + 1..] == [] && calls[..k] == before;
      NoTimes(d);
      NeedsOfCount(ListOf(u, c), Have(u, before), d);
    } else {
      assert LastNames(before, n, k);
      WaitingIs(u, before, n, k, d);
      assert before[..k] == calls[..k] && calls[k + 1..] == before[k + 1..] + [c];
      TimesAdd(before[k + 1..], c, d);
    }
  }

  lemma NoTimes(d: string)
    ensures Times([], d) == 0
  {}

  lemma TimesAdd(calls: seq<Call>, c: Call, d: string)
    ensures Times(calls + [c], d) == Times(calls, d) + if Names(c, d) then 1 else 0
  {
    assert (calls + [c])[..|calls|] == calls;
  }

  // ---- what a crate is linked to ----

  /** Some call after `j` names `x` before any other names `n`. */
  ghost predicate ComesAfter(calls: seq<Call>, n: string, j: nat, x: string) {
    exists i :: j < i < |calls| && Names(calls[i], x) && forall l :: j < l <= i ==> !Names(calls[l], n)
  }

  /** The call at `j` for `n` leads to a link to `x`: a default crate, a dependency with code, or one named later. */
  ghost predicate LinksBy(u: Setup, calls: seq<Call>, n: string, j: nat, x: string) {
    && j < |calls| && Names(calls[j], n)
    && ((calls[j].code.Some? && x in DEFAULTS) ||
        (x in DepsOf(ListOf(u, calls[j])) && (x in Have(u, calls[..j]) || ComesAfter(calls, n, j, x))))
  }

  lemma LinksByStays(u: Setup, calls: seq<Call>, c: Call, n: string, j: nat, x: string)
    requires LinksBy(u, calls, n, j, x)
    ensures LinksBy(u, calls + [c], n, j, x)
  {
    hide Have, ListOf, DepsOf;
    var all := calls + [c];
    assert all[j] == calls[j] && all[..j] == calls[..j];
    if ComesAfter(calls, n, j, x) {
      var i :| j < i < |calls| && Names(calls[i], x) && forall l :: j < l <= i ==> !Names(calls[l], n);
      assert forall l :: j < l <= i ==> all[l] == calls[l];
      assert ComesAfter(all, n, j, x);
    }
  }

  lemma OwnIs(u: Setup, c: Call, have: set<string>, x: string)
    requires c.LoadCrate?
    ensures x in OwnOf(u, c, have) <==> (c.code.Some? && x in DEFAULTS) || (x in DepsOf(ListOf(u, c)) && x in have)
  {}

  /** Every link has its call. */
  lemma {:induction false} LinkHasCall(u: Setup, calls: seq<Call>, n: string, x: string) returns (j: nat)
    requires x in LinkedTo(u, calls, n)
    ensures LinksBy(u, calls, n, j, x)
    decreases |calls|
  {
    hide Have, ListOf, DepsOf, Waiting, OwnOf, NamedBy, LinksBy;
    var before, c := calls[..|calls| - 1], calls[|calls| - 1];
    assert calls == before + [c];
    OneMore(u, before, c, n);
    if x in LinkedTo(u, before, n) {
      j := LinkHasCall(u, before, n, x);
      LinksByStays(u, before, c, n, j, x);
    } else if c.name == n {
      j := |before|;
      OwnIs(u, c, Have(u, before), x);
      OwnLinksBy(u, calls, n, x);
    } else {
      j := WaitedLink(u, before, c, n, x);
    }
  }

  lemma OwnLinksBy(u: Setup, calls: seq<Call>, n: string, x: string)
    requires calls != []
    requires var c, before := calls[|calls| - 1], calls[..|calls| - 1];
      Names(c, n) && ((c.code.Some? && x in DEFAULTS) || (x in DepsOf(ListOf(u, c)) && x in Have(u, before)))
    ensures LinksBy(u, calls, n, |calls| - 1, x)
  {}

  /** What is waited for and then named becomes a link by the crate's last call. */
  lemma WaitedLink(u: Setup, before: seq<Call>, c: Call, n: string, x: string) returns (j: nat)
    requires Names(c, x) && x != n && x in Waiting(u, before, n)
    ensures LinksBy(u, before + [c], n, j, x)
  {
    hide Have, ListOf, DepsOf, Waiting, Listings, NeedsOf;
    if n !in NamedBy(before) {
      Unnamed(u, before, n);
      assert false;
    }
    j := LastCall(before, n);
    WaitingIs(u, before, n, j, x);
    NeedsOfCount(ListOf(u, before[j]), Have(u, before[..j]), x);
    var all := before + [c];
    assert all[j] == before[j] && all[..j] == before[..j] && all[|before|] == c;
    assert ComesAfter(all, n, j, x);
  }

  /** Every such call gives its link. */
  lemma {:induction false} CallGivesLink(u: Setup, calls: seq<Call>, n: string, j: nat, x: string)
    requires LinksBy(u, calls, n, j, x) && n != x
    ensures x in LinkedTo(u, calls, n)
    decreases |calls|
  {
    hide Have, ListOf, DepsOf, Waiting, OwnOf, NamedBy;
    var before, c := calls[..|calls| - 1], calls[|calls| - 1];
    assert calls == before + [c];
    OneMore(u, before, c, n);
    if LinksBy(u, before, n, j, x) {
      CallGivesLink(u, before, n, j, x);
    } else if j == |before| {
      OwnIs(u, c, Have(u, before), x);
      assert calls[..j] == before;
    } else {
      assert calls[..j] == before[..j] && calls[j] == before[j];
      OnlyTheLast(u, before, c, n, j, x);
      if LinksByAny(u, before, n, x) {
        var j' :| LinksBy(u, before, n, j', x);
        CallGivesLink(u, before, n, j', x);
      } else {
        LastOneWaits(u, before, n, j, x);
      }
    }
  }

  ghost predicate LinksByAny(u: Setup, calls: seq<Call>, n: string, x: string) {
    exists j :: LinksBy(u, calls, n, j, x)
  }

  /** A link that comes with the last call comes from the crate's last call before it. */
  lemma OnlyTheLast(u: Setup, before: seq<Call>, c: Call, n: string, j: nat, x: string)
    requires LinksBy(u, before + [c], n, j, x) && !LinksBy(u, before, n, j, x) && j < |before|
    ensures Names(c, x) && LastNames(before, n, j)
    ensures x in DepsOf(ListOf(u, before[j])) && x !in Have(u, before[..j]) && !ComesAfter(before, n, j, x)
  {
    hide Have, ListOf, DepsOf;
    var all := before + [c];
    assert all[j] == before[j] && all[..j] == before[..j];
    assert ComesAfter(all, n, j, x);
    var i :| j < i < |all| && Names(all[i], x) && forall l :: j < l <= i ==> !Names(all[l], n);
    assert forall l :: 0 <= l < |before| ==> all[l] == before[l];
    assert all[|before|] == c;
  }

  lemma LastOneWaits(u: Setup, before: seq<Call>, n: string, j: nat, x: string)
    requires LastNames(before, n, j) && x in DepsOf(ListOf(u, before[j])) && x !in Have(u, before[..j])
    requires !ComesAfter(before, n, j, x)
    ensures x in Waiting(u, before, n)
  {
    hide Have, ListOf, Waiting, Listings, NeedsOf;
    WaitingIs(u, before, n, j, x);
    NeedsOfCount(ListOf(u, before[j]), Have(u, before[..j]), x);
    TimesPositive(before[j + 1..], x);
    var later := before[j + 1..];
    forall i | 0 <= i < |later| ensures !Names(later[i], x) {
      assert later[i] == before[j + 1 + i];
    }
  }

  // ---- every run in closed form ----

  /** Where crate `n` stands in a state: its number `i`, and that it has a list of needs. */
  ghost predicate StandsAt(w: World, names: seq<string>, n: string, i: nat) {
    Indexed(w, names) && 4 <= i < |names| == |w.graph| && names[i] == n && n in w.needed
  }

  /**
    Every run, for each crate `n` it names, with or without code, once or again: what it waits for, counted by
    its last call `k`, and what it is linked to, call by call.
   */
  lemma RunEnds(u: Setup, ws: seq<World>, calls: seq<Call>, n: string) returns (names: seq<string>, i: nat, k: nat)
    requires u.Good() && IsLoadRun(u, ws, calls) && n in NamedBy(calls)
    ensures LastNames(calls, n, k) && StandsAt(ws[|calls|], names, n, i)
    ensures forall d :: multiset(ws[|calls|].needed[n])[d] == LeftOver(u, calls, k, d)
    ensures forall x :: x != n ==>
      (x in Links(ws[|calls|].graph, names, i) <==> exists j :: LinksBy(u, calls, n, j, x))
    ensures n !in Links(ws[|calls|].graph, names, i)
  {
    assert |ws| == |calls| + 1;
    hide IsLoadRun, NamedBy, DirectBy, Waiting, LinkedTo, LeftOver, LinksBy, Sound, Links, SetOf, Have, LocalPaths;
    k := LastCall(calls, n);
    names := RunTracks(u, ws, calls);
    TracksNeeds(u, ws[|calls|], names, calls);
    i := LibraryIndex(names, n);
    forall d ensures multiset(ws[|calls|].needed[n])[d] == LeftOver(u, calls, k, d) {
      WaitingIs(u, calls, n, k, d);
    }
    forall x | x != n ensures x in LinkedTo(u, calls, n) <==> exists j :: LinksBy(u, calls, n, j, x) {
      if x in LinkedTo(u, calls, n) {
        var j := LinkHasCall(u, calls, n, x);
      }
      if j :| LinksBy(u, calls, n, j, x) {
        CallGivesLink(u, calls, n, j, x);
      }
    }
    NoSelfLink(u, ws[|calls|], names, i);
  }

  lemma NoSelfLink(u: Setup, w: World, names: seq<string>, i: nat)
    requires u.Good() && Indexed(w, names) && Sound(w.graph, names, u.ms) && 4 <= i < |names|
    ensures names[i] !in Links(w.graph, names, i)
  {
    if names[i] in Links(w.graph, names, i) {
      var j: nat :| j in Edges(w.graph)[i] && j < |names| && names[j] == names[i];
      assert HasEdge(Edges(w.graph), i, j);
      assert Allowed(u.ms, names, i, j);
      if i != j && j > 0 {
        RootsDiffer(w, names, i, j);
      }
      NoSelfDep(u.ms, names[i]);
      assert false;
    }
  }

  // ---- orderly runs: every crate loaded at most once ----

  ghost function LoadedBy(calls: seq<Call>): set<string> {
    set c | c in calls && HasCode(c) :: c.name
  }

  /** A crate comes with code and manifest at most once; other calls for it come before, with neither. */
  ghost predicate Orderly(calls: seq<Call>) {
    forall k :: 0 <= k < |calls| && calls[k].LoadCrate? ==>
      && (if HasCode(calls[k]) then calls[k].withManifest else calls[k].code.None? && !calls[k].withManifest)
      && calls[k].name !in LoadedBy(calls[..k])
  }

  /** What the calls after position `k` name. */
  ghost function NamedAfter(calls: seq<Call>, k: nat): set<string>
    requires k < |calls|
  {
    NamedBy(calls[k + 1..])
  }

  /** The dependencies of `n` without code after the calls. */
  ghost function Missing(u: Setup, calls: seq<Call>, n: string): set<string> {
    DepsIn(u.ms, n) - Have(u, calls)
  }

  ghost predicate IsOrderlyRun(u: Setup, ws: seq<World>, calls: seq<Call>) {
    u.Good() && IsLoadRun(u, ws, calls) && Orderly(calls)
  }

  lemma LegalAt(u: Setup, ws: seq<World>, calls: seq<Call>, j: nat)
    requires IsLoadRun(u, ws, calls) && j < |calls| && calls[j].LoadCrate?
    ensures !IsDefault(calls[j].name) && (calls[j].withManifest ==> calls[j].name in u.ms)
  {
    hide Leads;
    assert LegalCall(u, calls[..j], calls[j]);
  }

  lemma LoadedByAdd(calls: seq<Call>, c: Call)
    ensures LoadedBy(calls + [c]) == LoadedBy(calls) + if HasCode(c) then {c.name} else {}
  {}

  /** In an orderly run nothing loses its code again. */
  lemma {:induction false} OrderlyHave(u: Setup, ws: seq<World>, calls: seq<Call>, k: nat)
    requires IsOrderlyRun(u, ws, calls) && k <= |calls|
    ensures Have(u, calls[..k]) == Filled(u.coreLib, u.allocLib, u.stdLib) + LoadedBy(calls[..k])
  {
    hide IsLoadRun, LoadedBy, Filled, Have, Orderly, IsDefault;
    if k == 0 {
      NothingLoaded(u);
      assert calls[..0] == [];
    } else {
      var before, c := calls[..k - 1], calls[k - 1];
      assert calls[..k] == before + [c];
      OrderlyHave(u, ws, calls, k - 1);
      if c.LoadCrate? {
        LegalAt(u, ws, calls, k - 1);
        OrderlyAt(calls, k - 1);
        NotFilled(u, c.name);
      }
      HaveStep(u, before, c);
    }
  }

  lemma NotFilled(u: Setup, n: string)
    requires !IsDefault(n)
    ensures n !in Filled(u.coreLib, u.allocLib, u.stdLib)
  {
    hide Filled, IsDefault;
    FilledIs(u.coreLib, u.allocLib, u.stdLib);
    DefaultNames();
  }

  lemma HaveStep(u: Setup, before: seq<Call>, c: Call)
    requires Have(u, before) == Filled(u.coreLib, u.allocLib, u.stdLib) + LoadedBy(before)
    requires c.LoadCrate? ==> c.name !in Filled(u.coreLib, u.allocLib, u.stdLib) && c.name !in LoadedBy(before)
    ensures Have(u, before + [c]) == Filled(u.coreLib, u.allocLib, u.stdLib) + LoadedBy(before + [c])
  {
    hide LoadedBy, Filled, Have, LoadedWith, HasCode;
    OneMore(u, before, c, "");
    LoadedByAdd(before, c);
    if c.LoadCrate? {
      LoadedOnTop(Filled(u.coreLib, u.allocLib, u.stdLib), LoadedBy(before), c);
    } else {
      FilesLoadNothing(c);
      assert LoadedBy(before) + {} == LoadedBy(before);
    }
  }

  lemma FilesLoadNothing(c: Call)
    requires c.LoadFiles?
    ensures !HasCode(c)
  {}

  lemma LoadedOnTop(base: set<string>, loaded: set<string>, c: Call)
    requires c.LoadCrate? && c.name !in base && c.name !in loaded
    ensures LoadedWith(base + loaded, c.name, c.code) == base + (loaded + if HasCode(c) then {c.name} else {})
  {}

  lemma NothingLoaded(u: Setup)
    ensures LoadedBy([]) == {} && Have(u, []) == Filled(u.coreLib, u.allocLib, u.stdLib)
  {}

  lemma OrderlyAt(calls: seq<Call>, k: nat)
    requires Orderly(calls) && k < |calls| && calls[k].LoadCrate?
    ensures calls[k].name !in LoadedBy(calls[..k]) && (HasCode(calls[k]) || calls[k].code.None?)
  {}

  lemma LoadCall(calls: seq<Call>, n: string) returns (k: nat)
    requires Orderly(calls) && n in LoadedBy(calls)
    ensures LastNames(calls, n, k) && HasCode(calls[k]) && calls[k].withManifest
    ensures forall j :: 0 <= j < k && Names(calls[j], n) ==> calls[j].code.None? && !calls[j].withManifest
    ensures n in NamedBy(calls)
  {
    var c :| c in calls && HasCode(c) && c.name == n;
    k :| 0 <= k < |calls| && calls[k] == c;
    forall j | k < j < |calls| ensures !Names(calls[j], n) {
      assert calls[..j][k] == c;
    }
    forall j | 0 <= j < k && Names(calls[j], n) ensures !HasCode(calls[j]) {
      assert calls[..k][j] == calls[j];
    }
  }

  /** With bare calls only before its load at `k`, a crate's links come from that call. */
  lemma LinksByLoad(u: Setup, calls: seq<Call>, n: string, k: nat, x: string)
    requires LastNames(calls, n, k) && calls[k].code.Some?
    requires forall j :: 0 <= j < k && Names(calls[j], n) ==> calls[j].code.None? && !calls[j].withManifest
    ensures (exists j :: LinksBy(u, calls, n, j, x)) <==>
            x in DEFAULTS ||
            (x in DepsOf(ListOf(u, calls[k])) && (x in Have(u, calls[..k]) || x in NamedAfter(calls, k)))
  {
    hide Have;
    forall j: nat | LinksBy(u, calls, n, j, x) ensures j == k {}
    ComesAfterIs(calls, n, k, x);
    assert LinksBy(u, calls, n, k, x) <==>
      x in DEFAULTS || (x in DepsOf(ListOf(u, calls[k])) && (x in Have(u, calls[..k]) || x in NamedAfter(calls, k)));
  }

  lemma ComesAfterIs(calls: seq<Call>, n: string, k: nat, x: string)
    requires LastNames(calls, n, k)
    ensures ComesAfter(calls, n, k, x) <==> x in NamedAfter(calls, k)
  {
    var later := calls[k + 1..];
    if x in NamedAfter(calls, k) {
      var c :| c in later && c.LoadCrate? && c.name == x;
      var i :| 0 <= i < |later| && later[i] == c;
      assert Names(calls[k + 1 + i], x);
    }
    if ComesAfter(calls, n, k, x) {
      var i :| k < i < |calls| && Names(calls[i], x) && forall l :: k < l <= i ==> !Names(calls[l], n);
      assert later[i - k - 1] == calls[i];
    }
  }

  /** What is loaded at the end was loaded before `k`, at `k`, or after. */
  lemma HaveSplit(u: Setup, ws: seq<World>, calls: seq<Call>, k: nat)
    requires IsOrderlyRun(u, ws, calls) && k < |calls| && HasCode(calls[k])
    ensures Have(u, calls[..k]) <= Have(u, calls)
    ensures Have(u, calls) <= Have(u, calls[..k]) + {calls[k].name} + NamedAfter(calls, k)
  {
    hide IsLoadRun, Have, Filled, Orderly;
    OrderlyHave(u, ws, calls, k);
    OrderlyHave(u, ws, calls, |calls|);
    assert calls[..|calls|] == calls && calls == calls[..k] + [calls[k]] + calls[k + 1..];
  }

  /**
    Every orderly run, for each crate `n` it loads, at call `k`: links to the default crates, to the dependencies
    with code, and to those without that a later call names.
   */
  lemma OrderlyEnds(u: Setup, ws: seq<World>, calls: seq<Call>, n: string)
    returns (names: seq<string>, i: nat, k: nat)
    requires IsOrderlyRun(u, ws, calls) && n in LoadedBy(calls)
    ensures LastNames(calls, n, k) && HasCode(calls[k]) && StandsAt(ws[|calls|], names, n, i)
    ensures forall d :: multiset(ws[|calls|].needed[n])[d] == LeftOver(u, calls, k, d)
    ensures Links(ws[|calls|].graph, names, i) ==
            SetOf(DEFAULTS) + DepsIn(u.ms, n) * Have(u, calls) + Missing(u, calls, n) * NamedAfter(calls, k)
    ensures n in u.ms && ListOf(u, calls[k]) == u.ms[n].dependencies
  {
    assert |ws| == |calls| + 1;
    hide IsLoadRun, LoadedBy, NamedBy, Have, LeftOver, LinksBy, Links, StandsAt, NamedAfter, Orderly, DepsOf, IsDefault;
    k := LoadCall(calls, n);
    LegalAt(u, ws, calls, k);
    names, i, k := RunEndsAt(u, ws, calls, n, k);
    DefaultNames();
    HaveSplit(u, ws, calls, k);
    NoSelfDep(u.ms, n);
    var links, deps, before, later :=
      Links(ws[|calls|].graph, names, i), DepsIn(u.ms, n), Have(u, calls[..k]), NamedAfter(calls, k);
    forall x ensures x in links <==> x in DEFAULTS || (x in deps && (x in before || x in later)) {
      LinksByLoad(u, calls, n, k, x);
    }
    hide DepsIn;
    AsSets(links, deps, before, Have(u, calls), later, n);
  }

  lemma DefaultNames()
    ensures forall x :: x in DEFAULTS <==> IsDefault(x)
  {
    assert DEFAULTS == ["core", "alloc", "std"];
    assert DEFAULTS[0] == "core" && DEFAULTS[1] == "alloc" && DEFAULTS[2] == "std";
  }

  lemma AsSets(links: set<string>, deps: set<string>, before: set<string>, have: set<string>, later: set<string>,
               n: string)
    requires before <= have <= before + {n} + later && n !in deps
    requires forall x :: x in links <==> x in DEFAULTS || (x in deps && (x in before || x in later))
    ensures links == SetOf(DEFAULTS) + deps * have + (deps - have) * later
  {}

  lemma RunEndsAt(u: Setup, ws: seq<World>, calls: seq<Call>, n: string, k: nat)
    returns (names: seq<string>, i: nat, k': nat)
    requires u.Good() && IsLoadRun(u, ws, calls) && LastNames(calls, n, k) && n in NamedBy(calls)
    ensures k' == k && StandsAt(ws[|calls|], names, n, i) && !IsDefault(n)
    ensures forall d :: multiset(ws[|calls|].needed[n])[d] == LeftOver(u, calls, k, d)
    ensures forall x :: x != n ==>
      (x in Links(ws[|calls|].graph, names, i) <==> exists j :: LinksBy(u, calls, n, j, x))
    ensures n !in Links(ws[|calls|].graph, names, i)
  {
    assert |ws| == |calls| + 1;
    hide IsLoadRun, NamedBy, LeftOver, LinksBy, Links, StandsAt;
    LegalAt(u, ws, calls, k);
    names, i, k' := RunEnds(u, ws, calls, n);
  }

  // ---- lazy against eager ----

  /** Crate `n` is linked and waits as if everything had been loaded at once. */
  ghost predicate IsEager(u: Setup, w: World, calls: seq<Call>, n: string, names: seq<string>, i: nat)
    requires StandsAt(w, names, n, i)
  {
    && Links(w.graph, names, i) == SetOf(DEFAULTS) + DepsIn(u.ms, n) * Have(u, calls)
    && SetOf(w.needed[n]) == Missing(u, calls, n)
  }

  /** Every dependency loaded after `k` is named as often as the manifest lists it. */
  ghost predicate NamedEnough(u: Setup, calls: seq<Call>, k: nat, n: string)
    requires k < |calls| && n in u.ms
  {
    forall d :: d in DepsIn(u.ms, n) * Have(u, calls) && d !in Have(u, calls[..k]) ==>
      Listings(u.ms[n].dependencies, d) <= Times(calls[k + 1..], d)
  }

  lemma LaterIsNoDefault(u: Setup, ws: seq<World>, calls: seq<Call>, k: nat)
    requires IsLoadRun(u, ws, calls) && k < |calls|
    ensures NamedAfter(calls, k) !! SetOf(DEFAULTS)
  {
    hide IsLoadRun;
    forall x | x in NamedAfter(calls, k) ensures x !in SetOf(DEFAULTS) {
      var c :| c in calls[k + 1..] && c.LoadCrate? && c.name == x;
      var j :| 0 <= j < |calls| && calls[j] == c;
      LegalAt(u, ws, calls, j);
    }
  }

  /** What a crate waits for, as a set: by how often it was listed and named since. */
  lemma NeedsSet(u: Setup, calls: seq<Call>, n: string, k: nat, need: seq<string>, d: string)
    requires LastNames(calls, n, k) && n in u.ms && ListOf(u, calls[k]) == u.ms[n].dependencies
    requires forall x :: multiset(need)[x] == LeftOver(u, calls, k, x)
    ensures d in SetOf(need) <==>
      && d in DepsIn(u.ms, n) && d !in Have(u, calls[..k])
      && Listings(u.ms[n].dependencies, d) > Times(calls[k + 1..], d)
  {
    hide Have, Times;
    NeedsOfCount(u.ms[n].dependencies, Have(u, calls[..k]), d);
    assert d in need <==> multiset(need)[d] > 0;
    assert multiset(need)[d] == LeftOver(u, calls, k, d);
  }

  /**
    A crate ends as in the eager graph if and only if no call after its own load names a dependency that stays
    without code, and each dependency that gets its code later is named as often as it is listed.
   */
  lemma EagerIff(u: Setup, ws: seq<World>, calls: seq<Call>, n: string)
    returns (names: seq<string>, i: nat, k: nat)
    requires IsOrderlyRun(u, ws, calls) && n in LoadedBy(calls)
    ensures LastNames(calls, n, k) && HasCode(calls[k]) && n in u.ms && StandsAt(ws[|calls|], names, n, i)
    ensures IsEager(u, ws[|calls|], calls, n, names, i) <==>
            Missing(u, calls, n) !! NamedAfter(calls, k) && NamedEnough(u, calls, k, n)
  {
    assert |ws| == |calls| + 1;
    hide IsLoadRun, LoadedBy, Have, LeftOver, StandsAt, Links, SetOf, NamedAfter, Orderly, Times, Listings, ListOf;
    names, i, k := OrderlyEnds(u, ws, calls, n);
    HaveSplit(u, ws, calls, k);
    LaterIsNoDefault(u, ws, calls, k);
    forall d ensures d in SetOf(ws[|calls|].needed[n]) <==>
      && d in DepsIn(u.ms, n) && d !in Have(u, calls[..k])
      && Listings(u.ms[n].dependencies, d) > Times(calls[k + 1..], d)
    {
      NeedsSet(u, calls, n, k, ws[|calls|].needed[n], d);
    }
    forall d | d in DepsIn(u.ms, n) && d !in NamedAfter(calls, k)
      ensures Listings(u.ms[n].dependencies, d) > Times(calls[k + 1..], d)
    {
      ListedNotNamed(u, calls, n, k, d);
    }
    EagerLinks(DepsIn(u.ms, n), Have(u, calls), NamedAfter(calls, k), SetOf(DEFAULTS));
  }

  lemma ListedNotNamed(u: Setup, calls: seq<Call>, n: string, k: nat, d: string)
    requires k < |calls| && n in u.ms && d in DepsIn(u.ms, n) && d !in NamedAfter(calls, k)
    ensures Listings(u.ms[n].dependencies, d) > Times(calls[k + 1..], d)
  {
    NeedsOfCount(u.ms[n].dependencies, {}, d);
    TimesPositive(calls[k + 1..], d);
  }

  lemma EagerLinks(deps: set<string>, have: set<string>, later: set<string>, base: set<string>)
    requires later !! base
    ensures base + deps * have + (deps - have) * later == base + deps * have <==> (deps - have) !! later
  {
    if !((deps - have) !! later) {
      var x :| x in deps - have && x in later;
      assert x in base + deps * have + (deps - have) * later && x !in base + deps * have;
    }
  }

  /** No dependency is listed twice, once with a dash and once with an underscore. */
  ghost predicate ListedOnce(u: Setup, n: string) {
    n in u.ms && forall d :: Listings(u.ms[n].dependencies, d) <= 1
  }

  lemma OnceIsEnough(u: Setup, ws: seq<World>, calls: seq<Call>, k: nat, n: string)
    requires IsOrderlyRun(u, ws, calls) && ListedOnce(u, n) && k < |calls| && Names(calls[k], n) && HasCode(calls[k])
    ensures NamedEnough(u, calls, k, n)
  {
    hide IsLoadRun, Have, Orderly;
    HaveSplit(u, ws, calls, k);
    NoSelfDep(u.ms, n);
    forall d | d in DepsIn(u.ms, n) * Have(u, calls) && d !in Have(u, calls[..k])
      ensures Listings(u.ms[n].dependencies, d) <= Times(calls[k + 1..], d)
    {
      TimesPositive(calls[k + 1..], d);
    }
  }

  /** A run that leaves no placeholder ends in the eager graph. */
  lemma RunEndsEager(u: Setup, ws: seq<World>, calls: seq<Call>, n: string) returns (names: seq<string>, i: nat)
    requires IsOrderlyRun(u, ws, calls) && n in LoadedBy(calls) && ListedOnce(u, n)
    requires LoadedBy(calls) == NamedBy(calls)
    ensures StandsAt(ws[|calls|], names, n, i) && IsEager(u, ws[|calls|], calls, n, names, i)
  {
    hide IsLoadRun, StandsAt, IsEager, NamedEnough, ListedOnce, Have, Orderly;
    var k;
    names, i, k := EagerIff(u, ws, calls, n);
    OnceIsEnough(u, ws, calls, k, n);
    OrderlyHave(u, ws, calls, |calls|);
    assert calls[..|calls|] == calls;
    assert NamedAfter(calls, k) <= NamedBy(calls);
  }

  /**
    Two orderly runs that load the same crates agree on the links of `n` if and only if the same dependencies
    without code are named after its load; and, with no dependency listed twice, on what it waits for as well.
   */
  lemma OrderMattersIff(u: Setup, ws: seq<World>, calls: seq<Call>, ws': seq<World>, calls': seq<Call>, n: string)
    returns (names: seq<string>, i: nat, k: nat, names': seq<string>, i': nat, k': nat)
    requires IsOrderlyRun(u, ws, calls) && IsOrderlyRun(u, ws', calls')
    requires LoadedBy(calls) == LoadedBy(calls') && n in LoadedBy(calls)
    ensures LastNames(calls, n, k) && HasCode(calls[k]) && StandsAt(ws[|calls|], names, n, i)
    ensures LastNames(calls', n, k') && HasCode(calls'[k']) && StandsAt(ws'[|calls'|], names', n, i')
    ensures Links(ws[|calls|].graph, names, i) == Links(ws'[|calls'|].graph, names', i') <==>
            Missing(u, calls, n) * NamedAfter(calls, k) == Missing(u, calls, n) * NamedAfter(calls', k')
    ensures ListedOnce(u, n) ==>
      (SetOf(ws[|calls|].needed[n]) == SetOf(ws'[|calls'|].needed[n]) <==>
       Missing(u, calls, n) * NamedAfter(calls, k) == Missing(u, calls, n) * NamedAfter(calls', k'))
  {
    assert |ws| == |calls| + 1 && |ws'| == |calls'| + 1;
    hide IsLoadRun, LoadedBy, Have, LeftOver, StandsAt, Links, SetOf, NamedAfter, Orderly, Times, Listings, ListOf,
      Missing, ListedOnce;
    names, i, k := OrderlyEnds(u, ws, calls, n);
    names', i', k' := OrderlyEnds(u, ws', calls', n);
    SameHave(u, ws, calls, ws', calls');
    SameMissing(u, calls, calls', n);
    LaterIsNoDefault(u, ws, calls, k);
    LaterIsNoDefault(u, ws', calls', k');
    var missing := Missing(u, calls, n);
    MissingOff(u, calls, n);
    LinksDiffer(SetOf(DEFAULTS) + DepsIn(u.ms, n) * Have(u, calls), missing * NamedAfter(calls, k),
                missing * NamedAfter(calls', k'), SetOf(DEFAULTS), DepsIn(u.ms, n) * Have(u, calls));
    if ListedOnce(u, n) {
      NeedsWhenOnce(u, ws, calls, n, k, ws[|calls|].needed[n]);
      NeedsWhenOnce(u, ws', calls', n, k', ws'[|calls'|].needed[n]);
      NeedsDiffer(missing, NamedAfter(calls, k), NamedAfter(calls', k'));
    }
  }

  lemma SameHave(u: Setup, ws: seq<World>, calls: seq<Call>, ws': seq<World>, calls': seq<Call>)
    requires IsOrderlyRun(u, ws, calls) && IsOrderlyRun(u, ws', calls') && LoadedBy(calls) == LoadedBy(calls')
    ensures Have(u, calls) == Have(u, calls')
  {
    hide IsLoadRun, LoadedBy, Have, Filled, Orderly;
    OrderlyHave(u, ws, calls, |calls|);
    OrderlyHave(u, ws', calls', |calls'|);
    assert calls[..|calls|] == calls && calls'[..|calls'|] == calls';
  }

  lemma SameMissing(u: Setup, calls: seq<Call>, calls': seq<Call>, n: string)
    requires Have(u, calls) == Have(u, calls')
    ensures Missing(u, calls, n) == Missing(u, calls', n)
  {}

  lemma MissingOff(u: Setup, calls: seq<Call>, n: string)
    ensures Missing(u, calls, n) !! DepsIn(u.ms, n) * Have(u, calls)
  {}

  lemma LinksDiffer(common: set<string>, a: set<string>, b: set<string>, base: set<string>, got: set<string>)
    requires common == base + got && a !! base && b !! base && a !! got && b !! got
    ensures common + a == common + b <==> a == b
  {
    if common + a == common + b {
      forall x ensures x in a <==> x in b {
        assert x in common + a <==> x in common + b;
      }
    }
  }

  lemma NeedsDiffer(missing: set<string>, a: set<string>, b: set<string>)
    ensures missing - a == missing - b <==> missing * a == missing * b
  {
    assert missing * a == missing - (missing - a) && missing * b == missing - (missing - b);
    assert missing - a == missing - missing * a && missing - b == missing - missing * b;
  }

  /** Listed once, a dependency is waited for while it has no code and no later call names it. */
  lemma NeedsWhenOnce(u: Setup, ws: seq<World>, calls: seq<Call>, n: string, k: nat, need: seq<string>)
    requires IsOrderlyRun(u, ws, calls) && ListedOnce(u, n) && LastNames(calls, n, k) && HasCode(calls[k])
    requires ListOf(u, calls[k]) == u.ms[n].dependencies
    requires forall x :: multiset(need)[x] == LeftOver(u, calls, k, x)
    ensures SetOf(need) == Missing(u, calls, n) - NamedAfter(calls, k)
  {
    hide IsLoadRun, Have, Orderly, LeftOver, SetOf, Times, ListOf, DepsOf;
    HaveSplit(u, ws, calls, k);
    NoSelfDep(u.ms, n);
    forall d ensures d in SetOf(need) <==> d in Missing(u, calls, n) - NamedAfter(calls, k) {
      NeedsSet(u, calls, n, k, need, d);
      TimesPositive(calls[k + 1..], d);
      NeedsOfCount(u.ms[n].dependencies, {}, d);
      assert Listings(u.ms[n].dependencies, d) <= 1;
    }
  }

  /** Without placeholders left, the order does not matter. */
  lemma LoadOrderDoesNotMatter(u: Setup, ws: seq<World>, calls: seq<Call>, ws': seq<World>, calls': seq<Call>,
                               n: string)
    returns (names: seq<string>, i: nat, names': seq<string>, i': nat)
    requires IsOrderlyRun(u, ws, calls) && IsOrderlyRun(u, ws', calls') && ListedOnce(u, n)
    requires LoadedBy(calls) == NamedBy(calls) == LoadedBy(calls') == NamedBy(calls') && n in LoadedBy(calls)
    ensures StandsAt(ws[|calls|], names, n, i) && StandsAt(ws'[|calls'|], names', n, i')
    ensures Links(ws[|calls|].graph, names, i) == Links(ws'[|calls'|].graph, names', i')
    ensures SetOf(ws[|calls|].needed[n]) == SetOf(ws'[|calls'|].needed[n])
  {
    hide IsLoadRun, StandsAt, LoadedBy, NamedBy, Have, Orderly, ListedOnce;
    names, i := RunEndsEager(u, ws, calls, n);
    names', i' := RunEndsEager(u, ws', calls', n);
    SameHave(u, ws, calls, ws', calls');
  }
}
