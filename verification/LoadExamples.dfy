/** Small runs that show where lazy loading depends on the order, and on how often a crate is listed or loaded. */
module LoadExamples {
  import opened Wrappers
  import opened Digraphs
  import opened CrateWorld
  import opened CrateIndex
  import opened CrateLoading
  import opened LazyLoading
  import opened LoadRuns
  import opened LoadOutcome

  // ---- two crates, of which `a` depends on `b_c` ----

  const ONCE: seq<string> := ["b_c"]
  const TWICE: seq<string> := ["b-c", "b_c"]

  ghost predicate ListsOnlyB(list: seq<string>) {
    list != [] && forall d :: d in list ==> Snake(d) == "b_c"
  }

  ghost function Pair(list: seq<string>): Setup {
    Setup(map["a" := Manifest("a", list, false), "b_c" := Manifest("b_c", [], false)], "core", "alloc", "std")
  }

  lemma Lists()
    ensures ListsOnlyB(ONCE) && ListsOnlyB(TWICE)
    ensures Listings(ONCE, "b_c") == 1 && Listings(TWICE, "b_c") == 2
  {
    assert Snake("b_c") == "b_c" && Snake("b-c") == "b_c";
    assert ONCE[..0] == [] && TWICE[..1] == ["b-c"] && ["b-c"][..0] == [];
    assert Listings(["b-c"], "b_c") == 1;
  }

  lemma PairDeps(list: seq<string>)
    requires ListsOnlyB(list)
    ensures DepsOf(list) == {"b_c"} && DepsOf([]) == {}
    ensures Wants(Pair(list).ms) == map["a" := {"b_c"}, "b_c" := {}]
  {
    assert list[0] in list;
  }

  lemma PairGood(list: seq<string>)
    requires ListsOnlyB(list)
    ensures Pair(list).Good()
  {
    PairDeps(list);
    var e := Wants(Pair(list).ms);
    forall p: seq<string> | Path(e, p) && |p| > 1 ensures p[0] != p[|p| - 1] {
      assert HasEdge(e, p[0], p[1]);
      assert HasEdge(e, p[|p| - 2], p[|p| - 1]);
    }
  }

  // ---- building runs ----

  predicate OfPair(c: Call) {
    c.LoadCrate? && (c.name == "a" || c.name == "b_c")
  }

  lemma {:induction false} NoFiles(calls: seq<Call>)
    requires forall c :: c in calls ==> c.LoadCrate?
    ensures LocalPaths(calls) == {CratePath(LOCAL_NAME)}
  {
    if calls != [] {
      NoFiles(calls[..|calls| - 1]);
      assert calls[|calls| - 1] in calls;
    }
  }

  lemma PairLegal(list: seq<string>, calls: seq<Call>, c: Call)
    requires ListsOnlyB(list) && OfPair(c) && forall x :: x in calls ==> OfPair(x)
    ensures LegalCall(Pair(list), calls, c)
  {
    hide Waiting;
    NoFiles(calls);
    PairDeps(list);
    forall n | n in Touches(Pair(list), calls, c) ensures CratePath(n) !in LocalPaths(calls) {
      assert n != LOCAL_NAME;
      CratePathInjective(n, LOCAL_NAME);
    }
  }

  lemma NeedsOfNamed(u: Setup, ws: seq<World>, calls: seq<Call>)
    requires u.Good() && IsLoadRun(u, ws, calls)
    ensures ws[|calls|].needed.Keys == NamedBy(calls)
  {
    hide LegalCall, Leads, NamedBy, Tracks;
    var names := RunTracks(u, ws, calls);
    TracksNeeds(u, ws[|calls|], names, calls);
  }

  /** A run followed by one more load. */
  lemma Extend(u: Setup, ws: seq<World>, calls: seq<Call>, c: Call) returns (ws': seq<World>)
    requires u.Good() && IsLoadRun(u, ws, calls) && c.LoadCrate? && LegalCall(u, calls, c)
    requires Enumerates(c.order, NamedBy(calls))
    ensures IsLoadRun(u, ws', calls + [c])
  {
    hide LegalCall, Load, Enumerates, NamedBy;
    NeedsOfNamed(u, ws, calls);
    NextCallSucceeds(u, ws, calls, c);
    var all := calls + [c];
    ws' := ws + [Load(ws[|calls|], c.name, c.code, ManifestFor(u, c), c.transitive, c.order).value.0];
    forall k | 0 <= k < |all| ensures LegalCall(u, all[..k], all[k]) && Leads(u, ws'[k], all[k], ws'[k + 1]) {
      assert all[..k] == calls[..k];
      if k == |calls| {
        assert calls[..k] == calls;
      }
    }
  }

  lemma NoCalls(u: Setup)
    ensures IsLoadRun(u, [u.Start()], [])
  {}

  /** A list of loads whose orders enumerate what was named before is a run. */
  lemma {:induction false} PairRun(list: seq<string>, calls: seq<Call>) returns (ws: seq<World>)
    requires ListsOnlyB(list)
    requires forall c :: c in calls ==> OfPair(c)
    requires forall k :: 0 <= k < |calls| ==> calls[k].LoadCrate? && Enumerates(calls[k].order, NamedBy(calls[..k]))
    ensures IsLoadRun(Pair(list), ws, calls)
  {
    hide LegalCall, Enumerates, NamedBy, Leads, IsLoadRun, Pair, ListsOnlyB;
    if calls == [] {
      NoCalls(Pair(list));
      ws := [Pair(list).Start()];
    } else {
      var before, c := calls[..|calls| - 1], calls[|calls| - 1];
      forall k | 0 <= k < |before| ensures before[k].LoadCrate? && Enumerates(before[k].order, NamedBy(before[..k])) {
        assert before[..k] == calls[..k] && before[k] == calls[k];
      }
      ws := PairRun(list, before);
      PairGood(list);
      assert c in calls && calls == before + [c];
      PairLegal(list, before, c);
      ws := Extend(Pair(list), ws, before, c);
    }
  }

  /** What `a` waits for at the end of such a run, by its last call `k`. */
  lemma PairNeeds(list: seq<string>, ws: seq<World>, calls: seq<Call>, k: nat)
    requires ListsOnlyB(list) && IsLoadRun(Pair(list), ws, calls)
    requires LastNames(calls, "a", k) && calls[k].withManifest && "b_c" !in Have(Pair(list), calls[..k])
    ensures "a" in ws[|calls|].needed
    ensures "b_c" in ws[|calls|].needed["a"] <==> Listings(list, "b_c") > Times(calls[k + 1..], "b_c")
  {
    assert |ws| == |calls| + 1;
    hide IsLoadRun, Times, Listings, Links, Have, LinksBy, Indexed;
    PairGood(list);
    LastIsNamed(calls, "a", k);
    var names, i, k' := RunEnds(Pair(list), ws, calls, "a");
    assert k' == k;
    assert "b_c" in ws[|calls|].needed["a"] <==> multiset(ws[|calls|].needed["a"])["b_c"] > 0;
    assert multiset(ws[|calls|].needed["a"])["b_c"] == LeftOver(Pair(list), calls, k, "b_c");
  }

  lemma LastIsNamed(calls: seq<Call>, n: string, k: nat)
    requires LastNames(calls, n, k)
    ensures n in NamedBy(calls)
  {}

  // ---- the calls of the examples ----

  function LoadA(order: seq<string>): Call {
    LoadCrate("a", Some("code"), true, true, order)
  }

  function NameB(order: seq<string>): Call {
    LoadCrate("b_c", None, false, true, order)
  }

  function LoadB(order: seq<string>): Call {
    LoadCrate("b_c", Some("code"), true, true, order)
  }

  lemma BHasNoCode(list: seq<string>, order: seq<string>)
    ensures "b_c" !in Have(Pair(list), []) && "b_c" !in Have(Pair(list), [NameB(order)])
  {
    FilledIs("core", "alloc", "std");
    assert [NameB(order)][..0] == [];
  }

  lemma TimesOne(c: Call, d: string)
    ensures Times([], d) == 0 && Times([c], d) == if Names(c, d) then 1 else 0
  {
    assert [c][..0] == [];
  }

  lemma TwoCalls(first: Call, second: Call)
    requires first.LoadCrate? && second.LoadCrate? && first.order == [] && second.order == [first.name]
    ensures forall k :: 0 <= k < 2 ==> Enumerates([first, second][k].order, NamedBy([first, second][..k]))
    ensures NamedBy([first, second]) == {first.name, second.name}
  {
    var calls := [first, second];
    assert calls[..0] == [] && calls[..1] == [first];
    assert NamedBy([]) == {} && NamedBy([first]) == {first.name};
  }

  /**
    Loading `a` and then `b_c` as a placeholder, or the other way round: both runs load and name the same crates,
    but only in the second does `a` still wait for `b_c`.
   */
  lemma PlaceholderOrderMatters() returns (ws: seq<World>, calls: seq<Call>, ws': seq<World>, calls': seq<Call>)
    ensures IsOrderlyRun(Pair(ONCE), ws, calls) && IsOrderlyRun(Pair(ONCE), ws', calls')
    ensures LoadedBy(calls) == LoadedBy(calls') == {"a"} && NamedBy(calls) == NamedBy(calls') == {"a", "b_c"}
    ensures "a" in ws[|calls|].needed && "b_c" !in ws[|calls|].needed["a"]
    ensures "a" in ws'[|calls'|].needed && "b_c" in ws'[|calls'|].needed["a"]
  {
    hide IsLoadRun, Have, Enumerates;
    Lists();
    PairGood(ONCE);
    calls, calls' := [LoadA([]), NameB(["a"])], [NameB([]), LoadA(["b_c"])];
    TwoCalls(calls[0], calls[1]);
    TwoCalls(calls'[0], calls'[1]);
    ws := PairRun(ONCE, calls);
    ws' := PairRun(ONCE, calls');
    BHasNoCode(ONCE, []);
    assert calls[..0] == [] && calls[1..] == [calls[1]] && calls'[..1] == [calls'[0]] && calls'[2..] == [];
    TimesOne(calls[1], "b_c");
    PairNeeds(ONCE, ws, calls, 0);
    PairNeeds(ONCE, ws', calls', 1);
    PairOrderly(calls, 0);
    PairOrderly(calls', 1);
  }

  lemma PairOrderly(calls: seq<Call>, k: nat)
    requires |calls| == 2 && k < 2 && calls[0].LoadCrate? && calls[1].LoadCrate?
    requires calls[k] == LoadA(calls[k].order) && calls[1 - k] == NameB(calls[1 - k].order)
    ensures Orderly(calls) && LoadedBy(calls) == {"a"}
  {
    assert calls == [calls[0], calls[1]] && calls[..0] == [] && calls[..1] == [calls[0]];
  }

  /** Listed with a dash and with an underscore, a dependency is still waited for after it is loaded. */
  lemma ListedTwiceStays() returns (ws: seq<World>, calls: seq<Call>)
    ensures IsLoadRun(Pair(TWICE), ws, calls) && "b_c" in Have(Pair(TWICE), calls)
    ensures "a" in ws[|calls|].needed && "b_c" in ws[|calls|].needed["a"]
  {
    hide IsLoadRun, Enumerates;
    Lists();
    calls := [LoadA([]), LoadB(["a"])];
    TwoCalls(calls[0], calls[1]);
    ws := PairRun(TWICE, calls);
    BHasNoCode(TWICE, []);
    assert calls[..0] == [] && calls[1..] == [calls[1]] && calls == [calls[0]] + [calls[1]];
    TimesOne(calls[1], "b_c");
    PairNeeds(TWICE, ws, calls, 0);
    OneMore(Pair(TWICE), [calls[0]], calls[1], "a");
  }

  /** Loaded again, a crate waits again for a placeholder that it is already linked to. */
  lemma LoadedAgainWaits() returns (ws: seq<World>, calls: seq<Call>, names: seq<string>, i: nat)
    ensures IsLoadRun(Pair(ONCE), ws, calls) && StandsAt(ws[|calls|], names, "a", i)
    ensures "b_c" in ws[|calls|].needed["a"] && "b_c" in Links(ws[|calls|].graph, names, i)
  {
    hide IsLoadRun, Have, Enumerates, StandsAt, Links, NamedBy, LeftOver;
    Lists();
    PairGood(ONCE);
    calls := [LoadA([]), NameB(["a"]), LoadA(["a", "b_c"])];
    ThreeCalls(calls);
    ws := PairRun(ONCE, calls);
    BHasNoCodeYet(calls);
    assert calls[3..] == [];
    TimesOne(calls[0], "b_c");
    PairNeeds(ONCE, ws, calls, 2);
    var k;
    names, i, k := RunEnds(Pair(ONCE), ws, calls, "a");
    PairDeps(ONCE);
    assert Names(calls[1], "b_c");
    assert ComesAfter(calls, "a", 0, "b_c");
    assert LinksBy(Pair(ONCE), calls, "a", 0, "b_c");
  }

  lemma ThreeCalls(calls: seq<Call>)
    requires calls == [LoadA([]), NameB(["a"]), LoadA(["a", "b_c"])]
    ensures forall k :: 0 <= k < 3 ==> Enumerates(calls[k].order, NamedBy(calls[..k]))
    ensures "a" in NamedBy(calls)
  {
    TwoCalls(calls[0], calls[1]);
    var two := [calls[0], calls[1]];
    assert calls[..0] == two[..0] && calls[..1] == two[..1] && calls[..2] == two;
    assert calls[0] in calls;
  }

  lemma BHasNoCodeYet(calls: seq<Call>)
    requires calls == [LoadA([]), NameB(["a"]), LoadA(["a", "b_c"])]
    ensures "b_c" !in Have(Pair(ONCE), calls[..2])
  {
    hide Filled;
    assert calls[..2] == [calls[0]] + [calls[1]];
    OneMore(Pair(ONCE), [calls[0]], calls[1], "a");
  }
}
