/**
  The three linking loops of a load: with acyclic manifests none of their links is refused, and each adds
  exactly the links, and leaves exactly the needs, that the manifests call for.
 */
module CrateLoading {
  import opened Wrappers
  import opened Digraphs
  import opened CrateWorld
  import opened CrateIndex

  // ---- manifests ----

  type Manifests = map<string, Manifest>

  predicate IsDefault(name: string) {
    name == "core" || name == "alloc" || name == "std"
  }

  ghost function DepsOf(names: seq<string>): set<string> {
    set d | d in names :: Snake(d)
  }

  /** Who asks for whom. */
  ghost function Wants(ms: Manifests): Digraph<string> {
    map n | n in ms :: DepsOf(ms[n].dependencies)
  }

  /** The dependencies of `n` by its manifest. */
  ghost function DepsIn(ms: Manifests, n: string): set<string> {
    if n in ms then DepsOf(ms[n].dependencies) else {}
  }

  /** How often a manifest lists `d`, dashes and underscores being the same. */
  ghost function Listings(deps: seq<string>, d: string): nat {
    if deps == [] then 0
    else Listings(deps[..|deps| - 1], d) + if Snake(deps[|deps| - 1]) == d then 1 else 0
  }

  /** What a list of dependencies leaves to wait for, each as often as it is listed. */
  ghost function NeedsOf(deps: seq<string>, loaded: set<string>): multiset<string> {
    if deps == [] then multiset{} else
    var before, d := NeedsOf(deps[..|deps| - 1], loaded), Snake(deps[|deps| - 1]);
    if d in loaded then before else before + multiset{d}
  }

  lemma {:induction false} NeedsOfCount(deps: seq<string>, loaded: set<string>, d: string)
    ensures NeedsOf(deps, loaded)[d] == if d in loaded then 0 else Listings(deps, d)
    ensures Listings(deps, d) > 0 <==> d in DepsOf(deps)
  {
    if deps != [] {
      NeedsOfCount(deps[..|deps| - 1], loaded, d);
      assert deps == deps[..|deps| - 1] + [deps[|deps| - 1]];
      DepsOfAdd(deps[..|deps| - 1], deps[|deps| - 1]);
    }
  }

  // ---- links ----

  /** The links the eager graph allows; crates 0 to 3 are the local crate, `core`, `alloc` and `std`. */
  ghost predicate Allowed(ms: Manifests, names: seq<string>, i: nat, j: nat) {
    && i < |names| && j < |names|
    && if i == 0 then j != 0
       else if i < 4 then 1 <= j < i
       else 1 <= j < 4 || (j >= 4 && HasEdge(Wants(ms), names[i], names[j]))
  }

  /** How far a crate other than the local one can still fall. */
  ghost function Height(ms: Manifests, names: seq<string>, i: nat): nat
    requires i < |names|
  {
    if i < 4 then i else 4 + |Reach(Wants(ms), {names[i]})|
  }

  lemma AllowedFalls(ms: Manifests, names: seq<string>, i: nat, j: nat)
    requires Acyclic(Wants(ms)) && Allowed(ms, names, i, j) && i != 0
    ensures j != 0 && Height(ms, names, j) < Height(ms, names, i)
  {
    if i >= 4 && j >= 4 {
      HeightFalls(Wants(ms), names[i], names[j]);
    }
  }

  ghost predicate Sound(g: CrateGraph, names: seq<string>, ms: Manifests) {
    && |names| == |g| && Named(g, names)
    && forall i: nat, j: nat :: HasEdge(Edges(g), i, j) ==> Allowed(ms, names, i, j)
  }

  /** Every dependency goes by the name of its crate. */
  ghost predicate Named(g: CrateGraph, names: seq<string>) {
    forall i, k :: 0 <= i < |g| && 0 <= k < |g[i].deps| ==>
      g[i].deps[k].crate < |names| && g[i].deps[k].name == names[g[i].deps[k].crate]
  }

  /** The names crate `i` is linked to. */
  ghost function Links(g: CrateGraph, names: seq<string>, i: nat): set<string>
    requires i < |g|
  {
    set j | j in Edges(g)[i] && j < |names| :: names[j]
  }

  /** `h` is `g` with the links `extra` added to crate `from`. */
  ghost predicate LinksAdded(g: CrateGraph, h: CrateGraph, names: seq<string>, from: nat, extra: set<string>)
    requires from < |g|
  {
    && SameCrates(g, h)
    && Links(h, names, from) == Links(g, names, from) + extra
    && forall i :: 0 <= i < |g| && i != from ==> Links(h, names, i) == Links(g, names, i)
  }

  /** The crates, other than the local one, that are no higher than `h`. */
  ghost function Below(names: seq<string>, ms: Manifests, h: nat): set<nat> {
    set i: nat | i < |names| && i != 0 && Height(ms, names, i) <= h
  }

  lemma BelowIsClosed(g: CrateGraph, names: seq<string>, ms: Manifests, h: nat)
    requires Sound(g, names, ms) && Acyclic(Wants(ms))
    ensures Next(Edges(g), Below(names, ms, h)) <= Below(names, ms, h)
  {
    forall j: nat | j in Next(Edges(g), Below(names, ms, h)) ensures j in Below(names, ms, h) {
      var i: nat :| i in Below(names, ms, h) && i in Edges(g) && j in Edges(g)[i];
      assert HasEdge(Edges(g), i, j);
      AllowedFalls(ms, names, i, j);
    }
  }

  /** No allowed link is ever refused. */
  lemma AllowedIsAccepted(g: CrateGraph, names: seq<string>, ms: Manifests, from: nat, to: nat)
    requires Sound(g, names, ms) && Acyclic(Wants(ms)) && Allowed(ms, names, from, to)
    ensures AddDep(g, from, Dependency(names[to], to)).Ok?
  {
    var h := Height(ms, names, to);
    BelowIsClosed(g, names, ms, h);
    if from != 0 {
      AllowedFalls(ms, names, from, to);
    }
    AcceptedBy(g, from, Dependency(names[to], to), Below(names, ms, h));
  }

  lemma EdgeAddedLinks(g: CrateGraph, h: CrateGraph, names: seq<string>, ms: Manifests, from: nat, to: nat)
    requires Sound(g, names, ms) && Allowed(ms, names, from, to) && SameCrates(g, h)
    requires Edges(h) == AddEdge(Edges(g), from, to) && Named(h, names)
    ensures Sound(h, names, ms) && LinksAdded(g, h, names, from, {names[to]})
  {}

  lemma NamedMore(g: CrateGraph, names: seq<string>, from: nat, to: nat)
    requires Named(g, names) && from < |g| && to < |names|
    requires AddDep(g, from, Dependency(names[to], to)).Ok?
    ensures Named(AddDep(g, from, Dependency(names[to], to)).value, names)
  {
    hide Edges, Reach;
    var h := AddDep(g, from, Dependency(names[to], to)).value;
    forall i, k | 0 <= i < |h| && 0 <= k < |h[i].deps|
      ensures h[i].deps[k].crate < |names| && h[i].deps[k].name == names[h[i].deps[k].crate]
    {
      if i == from && k == |g[i].deps| {
        assert h[i].deps[k] == Dependency(names[to], to);
      } else {
        assert h[i].deps[k] == g[i].deps[k];
      }
    }
  }

  lemma AddDepLinks(g: CrateGraph, names: seq<string>, ms: Manifests, from: nat, to: nat)
    requires Sound(g, names, ms) && Acyclic(Wants(ms)) && Allowed(ms, names, from, to)
    ensures var r := AddDep(g, from, Dependency(names[to], to));
      r.Ok? && Sound(r.value, names, ms) && LinksAdded(g, r.value, names, from, {names[to]})
  {
    AllowedIsAccepted(g, names, ms, from, to);
    AddDepAddsEdge(g, from, Dependency(names[to], to));
    NamedMore(g, names, from, to);
    EdgeAddedLinks(g, AddDep(g, from, Dependency(names[to], to)).value, names, ms, from, to);
  }

  // ---- looking up crates while linking ----

  /** Every name in `known` resolves to its crate, or to nothing when it has none. */
  ghost predicate Resolves(roots: Roots, g: CrateGraph, names: seq<string>, known: set<string>) {
    && |names| == |g| > 0
    && (forall i :: 1 <= i < |names| && names[i] in known ==> GetFileId(names[i], roots) == Some(g[i].rootFile))
    && (forall n :: n in known && n !in names[1..] ==> GetFileId(n, roots) == None)
    && (forall i, j :: 0 <= i < j < |g| ==> g[i].rootFile != g[j].rootFile)
  }

  lemma ResolvesSame(roots: Roots, g: CrateGraph, h: CrateGraph, names: seq<string>, known: set<string>)
    requires Resolves(roots, g, names, known) && SameCrates(g, h)
    ensures Resolves(roots, h, names, known)
  {}

  lemma ResolvedCrate(roots: Roots, g: CrateGraph, names: seq<string>, known: set<string>, i: nat)
    requires Resolves(roots, g, names, known) && 1 <= i < |names| && names[i] in known
    ensures GetCrateId(names[i], roots, g) == Some(i)
  {}

  lemma IndexResolves(w: World, names: seq<string>, known: set<string>)
    requires Indexed(w, names)
    requires forall n :: n in known ==> CratePath(n) !in w.roots[0].files
    ensures Resolves(w.roots, w.graph, names, known)
  {
    forall n | n in known {
      LookupFile(w, names, n);
    }
    forall i, j | 0 <= i < j < |w.graph| ensures w.graph[i].rootFile != w.graph[j].rootFile {
      assert i == 0 ==> LibraryOk(w, names, j);
    }
  }

  // ---- the three linking loops ----

  /** Crate `from` may be linked to the crate called `name`. */
  ghost predicate CanLink(ms: Manifests, names: seq<string>, known: set<string>, from: nat, name: string) {
    name in known && IsCrateName(name) && exists j: nat :: 1 <= j && Allowed(ms, names, from, j) && names[j] == name
  }

  lemma LinkLinks(g: CrateGraph, roots: Roots, names: seq<string>, ms: Manifests, known: set<string>, from: nat,
                  name: string)
    requires Sound(g, names, ms) && Acyclic(Wants(ms)) && Resolves(roots, g, names, known)
    requires from < |g| && CanLink(ms, names, known, from, name)
    ensures var r := Link(g, roots, from, name);
      r.Ok? && Sound(r.value, names, ms) && LinksAdded(g, r.value, names, from, {name})
  {
    var j: nat :| 1 <= j && Allowed(ms, names, from, j) && names[j] == name;
    ResolvedCrate(roots, g, names, known, j);
    AddDepLinks(g, names, ms, from, j);
  }

  lemma LinksAddedTwice(g: CrateGraph, h: CrateGraph, k: CrateGraph, names: seq<string>, from: nat, a: set<string>,
                        b: set<string>)
    requires from < |g| && LinksAdded(g, h, names, from, a) && LinksAdded(h, k, names, from, b)
    ensures LinksAdded(g, k, names, from, a + b)
  {}

  /** One more link on top of those already added. */
  lemma LinkAfter(g: CrateGraph, h: CrateGraph, roots: Roots, names: seq<string>, ms: Manifests, known: set<string>,
                  from: nat, a: set<string>, name: string)
    requires Sound(h, names, ms) && Acyclic(Wants(ms)) && Resolves(roots, g, names, known)
    requires from < |g| && CanLink(ms, names, known, from, name) && LinksAdded(g, h, names, from, a)
    ensures var r := Link(h, roots, from, name);
      r.Ok? && Sound(r.value, names, ms) && LinksAdded(g, r.value, names, from, a + {name})
  {
    ResolvesSame(roots, g, h, names, known);
    LinkLinks(h, roots, names, ms, known, from, name);
    LinksAddedTwice(g, h, Link(h, roots, from, name).value, names, from, a, {name});
  }

  ghost function SetOf(list: seq<string>): set<string> {
    set n | n in list
  }

  lemma {:induction false} LinkAllLinks(g: CrateGraph, roots: Roots, names: seq<string>, ms: Manifests,
                                        known: set<string>, from: nat, list: seq<string>)
    requires Sound(g, names, ms) && Acyclic(Wants(ms)) && Resolves(roots, g, names, known) && from < |g|
    requires forall n :: n in list ==> CanLink(ms, names, known, from, n)
    ensures var r := LinkAll(g, roots, from, list);
      r.Ok? && Sound(r.value, names, ms) && LinksAdded(g, r.value, names, from, SetOf(list))
    decreases |list|
  {
    hide Sound, Resolves, CanLink, Links;
    if list != [] {
      var init, last := list[..|list| - 1], list[|list| - 1];
      assert list == init + [last];
      LinkAllLinks(g, roots, names, ms, known, from, init);
      var h := LinkAll(g, roots, from, init).value;
      assert last in list;
      assert SetOf(list) == SetOf(init) + {last};
      LinkAfter(g, h, roots, names, ms, known, from, SetOf(init), last);
    }
  }

  ghost predicate NoRepeats(s: seq<string>) {
    forall i, j :: 0 <= i < j < |s| ==> s[i] != s[j]
  }

  lemma DepsOfAdd(init: seq<string>, last: string)
    ensures DepsOf(init + [last]) == DepsOf(init) + {Snake(last)}
  {}

  /** The loader sees correctly whether `d` is loaded, and may link to it if so. */
  ghost predicate DepReady(roots: Roots, texts: map<nat, string>, names: seq<string>, ms: Manifests, known: set<string>,
                           from: nat, loaded: set<string>, d: string)
  {
    IsLoaded(roots, texts, d) == Ok(d in loaded) && (d in loaded ==> CanLink(ms, names, known, from, d))
  }

  lemma LinkLoadedLast(g: CrateGraph, roots: Roots, texts: map<nat, string>, from: nat, init: seq<string>,
                       last: string, h: CrateGraph)
    requires from < |g| == |h| && LinkLoaded(g, roots, texts, from, init).Ok?
    requires LinkLoaded(g, roots, texts, from, init).value.0 == h
    ensures IsLoaded(roots, texts, Snake(last)) == Ok(false) ==>
      LinkLoaded(g, roots, texts, from, init + [last]).Ok? &&
        LinkLoaded(g, roots, texts, from, init + [last]).value.0 == h
    ensures IsLoaded(roots, texts, Snake(last)) == Ok(true) && Link(h, roots, from, Snake(last)).Ok? ==>
      LinkLoaded(g, roots, texts, from, init + [last]).Ok? &&
      LinkLoaded(g, roots, texts, from, init + [last]).value.0 == Link(h, roots, from, Snake(last)).value
  {}

  lemma LoadedDepsAdd(init: seq<string>, last: string, loaded: set<string>)
    ensures DepsOf(init + [last]) * loaded ==
            if Snake(last) in loaded then DepsOf(init) * loaded + {Snake(last)} else DepsOf(init) * loaded
  {}

  lemma LinkLoadedStep(g: CrateGraph, roots: Roots, texts: map<nat, string>, names: seq<string>, ms: Manifests,
                       known: set<string>, from: nat, init: seq<string>, last: string, loaded: set<string>)
    requires Acyclic(Wants(ms)) && Resolves(roots, g, names, known) && from < |g|
    requires var before := LinkLoaded(g, roots, texts, from, init);
      before.Ok? && Sound(before.value.0, names, ms) &&
        LinksAdded(g, before.value.0, names, from, DepsOf(init) * loaded)
    requires DepReady(roots, texts, names, ms, known, from, loaded, Snake(last))
    ensures var r := LinkLoaded(g, roots, texts, from, init + [last]);
      r.Ok? && Sound(r.value.0, names, ms) && LinksAdded(g, r.value.0, names, from, DepsOf(init + [last]) * loaded)
  {
    var h, name := LinkLoaded(g, roots, texts, from, init).value.0, Snake(last);
    LoadedDepsAdd(init, last, loaded);
    LinkLoadedLast(g, roots, texts, from, init, last, h);
    if name in loaded {
      LinkAfter(g, h, roots, names, ms, known, from, DepsOf(init) * loaded, name);
    }
  }

  /** Links to the loaded dependencies. */
  lemma {:induction false} LinkLoadedLinks(g: CrateGraph, roots: Roots, texts: map<nat, string>, names: seq<string>,
                                           ms: Manifests, known: set<string>, from: nat, deps: seq<string>,
                                           loaded: set<string>)
    requires Sound(g, names, ms) && Acyclic(Wants(ms)) && Resolves(roots, g, names, known) && from < |g|
    requires forall d :: d in deps ==> DepReady(roots, texts, names, ms, known, from, loaded, Snake(d))
    ensures var r := LinkLoaded(g, roots, texts, from, deps);
      r.Ok? && Sound(r.value.0, names, ms) && LinksAdded(g, r.value.0, names, from, DepsOf(deps) * loaded)
    decreases |deps|
  {
    if deps == [] {
      assert DepsOf(deps) * loaded == {};
    } else {
      var init, last := deps[..|deps| - 1], deps[|deps| - 1];
      assert deps == init + [last] && last in deps;
      LinkLoadedLinks(g, roots, texts, names, ms, known, from, init, loaded);
      LinkLoadedStep(g, roots, texts, names, ms, known, from, init, last, loaded);
    }
  }

  /** What is left to wait for: the dependencies that are not loaded, each as often as it is listed. */
  lemma {:induction false} LinkLoadedNeeds(g: CrateGraph, roots: Roots, texts: map<nat, string>, from: nat,
                                           deps: seq<string>, loaded: set<string>)
    requires from < |g| && LinkLoaded(g, roots, texts, from, deps).Ok?
    requires forall d :: d in deps ==> IsLoaded(roots, texts, Snake(d)) == Ok(Snake(d) in loaded)
    ensures multiset(LinkLoaded(g, roots, texts, from, deps).value.1) == NeedsOf(deps, loaded)
    decreases |deps|
  {
    if deps != [] {
      var init, last := deps[..|deps| - 1], deps[|deps| - 1];
      assert deps == init + [last];
      LinkLoadedNeeds(g, roots, texts, from, init, loaded);
      assert last in deps;
    }
  }

  // ---- giving a crate to those that wait for it ----

  ghost predicate Waits(needed: map<string, seq<string>>, order: seq<string>, n: string, name: string) {
    n in order && n in needed && name in needed[n]
  }

  /** `n` is a crate that, if it waits for `crate`, is known and may be linked to it. */
  ghost predicate WaiterOk(ms: Manifests, names: seq<string>, known: set<string>, needed: map<string, seq<string>>,
                           name: string, crate: nat, n: string)
  {
    && n in needed && (name in needed[n] ==> n in known)
    && exists i: nat :: 1 <= i < |names| && names[i] == n && (name in needed[n] ==> Allowed(ms, names, i, crate))
  }

  /** `h` is `g` with a link to `name` for every crate of `order` that waits for it. */
  ghost predicate Given(g: CrateGraph, h: CrateGraph, names: seq<string>, needed: map<string, seq<string>>,
                        order: seq<string>, name: string)
  {
    && SameCrates(g, h) && |names| == |g|
    && forall i :: 0 <= i < |g| ==>
         Links(h, names, i) == Links(g, names, i) + if i > 0 && Waits(needed, order, names[i], name) then {name} else {}
  }

  ghost predicate NeededAfter(needed: map<string, seq<string>>, after: map<string, seq<string>>, order: seq<string>,
                              name: string) {
    && after.Keys == needed.Keys
    && forall n :: n in needed ==>
         after[n] == if Waits(needed, order, n, name) then RemoveFirst(needed[n], name) else needed[n]
  }

  ghost predicate DistinctNames(names: seq<string>) {
    forall i, j :: 1 <= i < j < |names| ==> names[i] != names[j]
  }

  lemma GivenMore(g: CrateGraph, h: CrateGraph, k: CrateGraph, names: seq<string>, needed: map<string, seq<string>>,
                  init: seq<string>, last: string, name: string, at: nat)
    requires Given(g, h, names, needed, init, name) && DistinctNames(names)
    requires 1 <= at < |names| && names[at] == last && last in needed && last !in init
    requires if name in needed[last] then LinksAdded(h, k, names, at, {name}) else k == h
    ensures Given(g, k, names, needed, init + [last], name)
  {}

  lemma NeededMore(needed: map<string, seq<string>>, now: map<string, seq<string>>, init: seq<string>, last: string,
                   name: string)
    requires NeededAfter(needed, now, init, name) && last in needed && last !in init
    ensures now[last] == needed[last]
    ensures NeededAfter(needed,
                        if name in needed[last] then now[last := RemoveFirst(needed[last], name)] else now,
                        init + [last], name)
  {}

  /** One waiting crate: linked and taken off its list, or left alone. */
  lemma ResolveOne(h: CrateGraph, roots: Roots, now: map<string, seq<string>>, names: seq<string>, ms: Manifests,
                   known: set<string>, crate: nat, at: nat)
    requires Sound(h, names, ms) && Acyclic(Wants(ms)) && Resolves(roots, h, names, known)
    requires crate < |names| && IsCrateName(names[crate]) && 1 <= at < |names| && names[at] in now
    requires names[crate] in now[names[at]] ==> names[at] in known && Allowed(ms, names, at, crate)
    ensures var name, last := names[crate], names[at];
      var r := Resolve(h, roots, now, name, crate, last);
      && r.Ok? && Sound(r.value.0, names, ms)
      && (if name in now[last] then LinksAdded(h, r.value.0, names, at, {name}) else r.value.0 == h)
      && r.value.1 == if name in now[last] then now[last := RemoveFirst(now[last], name)] else now
  {
    if names[crate] in now[names[at]] {
      ResolvedCrate(roots, h, names, known, at);
      AddDepLinks(h, names, ms, at, crate);
    }
  }

  lemma ResolveLast(g: CrateGraph, h: CrateGraph, roots: Roots, needed: map<string, seq<string>>,
                    now: map<string, seq<string>>, names: seq<string>, ms: Manifests, known: set<string>,
                    crate: nat, init: seq<string>, at: nat)
    requires Sound(h, names, ms) && Acyclic(Wants(ms)) && Resolves(roots, h, names, known) && DistinctNames(names)
    requires crate < |names| && IsCrateName(names[crate])
    requires 1 <= at < |names| && names[at] in needed && names[at] !in init
    requires names[crate] in needed[names[at]] ==> names[at] in known && Allowed(ms, names, at, crate)
    requires Given(g, h, names, needed, init, names[crate]) && NeededAfter(needed, now, init, names[crate])
    ensures var r := Resolve(h, roots, now, names[crate], crate, names[at]);
      r.Ok? && Sound(r.value.0, names, ms) && Given(g, r.value.0, names, needed, init + [names[at]], names[crate])
      && NeededAfter(needed, r.value.1, init + [names[at]], names[crate])
  {
    var name, last := names[crate], names[at];
    NeededMore(needed, now, init, last, name);
    ResolveOne(h, roots, now, names, ms, known, crate, at);
    GivenMore(g, h, Resolve(h, roots, now, name, crate, last).value.0, names, needed, init, last, name, at);
  }

  ghost predicate ResolveDone(g: CrateGraph, roots: Roots, needed: map<string, seq<string>>, names: seq<string>,
                              ms: Manifests, name: string, crate: nat, order: seq<string>)
  {
    && (forall n :: n in order ==> n in needed)
    && var r := ResolveAll(g, roots, needed, name, crate, order);
    && r.Ok? && Sound(r.value.0, names, ms)
    && Given(g, r.value.0, names, needed, order, name) && NeededAfter(needed, r.value.1, order, name)
  }

  lemma ResolveAllLast(g: CrateGraph, roots: Roots, needed: map<string, seq<string>>, name: string, crate: nat,
                       init: seq<string>, last: string)
    requires (forall n :: n in init ==> n in needed) && last in needed
    requires ResolveAll(g, roots, needed, name, crate, init).Ok?
    ensures forall n :: n in init + [last] ==> n in needed
    ensures var before := ResolveAll(g, roots, needed, name, crate, init).value;
      ResolveAll(g, roots, needed, name, crate, init + [last]) == Resolve(before.0, roots, before.1, name, crate, last)
  {}

  lemma ResolveStep(g: CrateGraph, roots: Roots, needed: map<string, seq<string>>, names: seq<string>, ms: Manifests,
                    known: set<string>, name: string, crate: nat, init: seq<string>, last: string)
    requires Acyclic(Wants(ms)) && Resolves(roots, g, names, known) && DistinctNames(names)
    requires crate < |names| && names[crate] == name && IsCrateName(name)
    requires last !in init && WaiterOk(ms, names, known, needed, name, crate, last)
    requires ResolveDone(g, roots, needed, names, ms, name, crate, init)
    ensures ResolveDone(g, roots, needed, names, ms, name, crate, init + [last])
  {
    var (h, now) := ResolveAll(g, roots, needed, name, crate, init).value;
    ResolvesSame(roots, g, h, names, known);
    var at: nat :| 1 <= at < |names| && names[at] == last && (name in needed[last] ==> Allowed(ms, names, at, crate));
    ResolveLast(g, h, roots, needed, now, names, ms, known, crate, init, at);
    ResolveAllLast(g, roots, needed, name, crate, init, last);
  }

  lemma {:induction false} ResolveAllLinks(g: CrateGraph, roots: Roots, needed: map<string, seq<string>>,
                                           names: seq<string>,
                                           ms: Manifests, known: set<string>, name: string, crate: nat,
                                           order: seq<string>)
    requires Sound(g, names, ms) && Acyclic(Wants(ms)) && Resolves(roots, g, names, known) && DistinctNames(names)
    requires crate < |names| && names[crate] == name && IsCrateName(name)
    requires NoRepeats(order) && (forall n :: n in order ==> WaiterOk(ms, names, known, needed, name, crate, n))
    ensures ResolveDone(g, roots, needed, names, ms, name, crate, order)
    decreases |order|
  {
    if order != [] {
      var init, last := order[..|order| - 1], order[|order| - 1];
      assert order == init + [last];
      ResolveAllLinks(g, roots, needed, names, ms, known, name, crate, init);
      ResolveStep(g, roots, needed, names, ms, known, name, crate, init, last);
    }
  }
}
