/** The analysis state as an object: its methods update roots, graph, needed dependencies and texts in place. */
module WorldState {
  import opened Wrappers
  import opened Digraphs
  import opened CrateWorld

  // ---- the loops of loading, and when they stop ----

  lemma {:induction false} LinkAllStops(g: CrateGraph, roots: Roots, from: nat, names: seq<string>, k: nat)
    requires from < |g| && k <= |names| && LinkAll(g, roots, from, names[..k]).Err?
    ensures LinkAll(g, roots, from, names) == LinkAll(g, roots, from, names[..k])
    decreases |names|
  {
    if k < |names| {
      assert names[..|names| - 1][..k] == names[..k];
      LinkAllStops(g, roots, from, names[..|names| - 1], k);
    } else {
      assert names[..k] == names;
    }
  }

  lemma LinkNone(g: CrateGraph, roots: Roots, from: nat)
    requires from < |g|
    ensures LinkAll(g, roots, from, []) == Ok(g)
  {}

  lemma LinkAllNext(g: CrateGraph, roots: Roots, from: nat, names: seq<string>, i: nat)
    requires from < |g| && i < |names|
    ensures var before := LinkAll(g, roots, from, names[..i]);
      LinkAll(g, roots, from, names[..i + 1]) ==
      if before.Err? then before else Link(before.value, roots, from, names[i])
  {
    hide Link;
    assert names[..i + 1][..i] == names[..i];
  }

  method LinkDefaults(g: CrateGraph, roots: Roots, from: nat) returns (r: Result<CrateGraph, Fault>)
    requires from < |g|
    ensures r == LinkAll(g, roots, from, DEFAULTS)
  {
    hide LinkAll, Link;
    var graph := g;
    LinkNone(g, roots, from);
    for i := 0 to |DEFAULTS|
      invariant LinkAll(g, roots, from, DEFAULTS[..i]) == Ok(graph)
    {
      LinkAllNext(g, roots, from, DEFAULTS, i);
      var next := Link(graph, roots, from, DEFAULTS[i]);
      if next.Err? {
        LinkAllStops(g, roots, from, DEFAULTS, i + 1);
        return next;
      }
      graph := next.value;
    }
    assert DEFAULTS[..|DEFAULTS|] == DEFAULTS;
    return Ok(graph);
  }

  lemma {:induction false} LinkLoadedStops(g: CrateGraph, roots: Roots, texts: map<nat, string>, from: nat,
                                           names: seq<string>, k: nat)
    requires from < |g| && k <= |names| && LinkLoaded(g, roots, texts, from, names[..k]).Err?
    ensures LinkLoaded(g, roots, texts, from, names) == LinkLoaded(g, roots, texts, from, names[..k])
    decreases |names|
  {
    if k < |names| {
      assert names[..|names| - 1][..k] == names[..k];
      LinkLoadedStops(g, roots, texts, from, names[..|names| - 1], k);
    } else {
      assert names[..k] == names;
    }
  }

  method LinkDependencies(g: CrateGraph, roots: Roots, texts: map<nat, string>, from: nat, names: seq<string>)
    returns (r: Result<(CrateGraph, seq<string>), Fault>)
    requires from < |g|
    ensures r == LinkLoaded(g, roots, texts, from, names)
  {
    var graph, needed := g, [];
    for i := 0 to |names|
      invariant LinkLoaded(g, roots, texts, from, names[..i]) == Ok((graph, needed))
    {
      assert names[..i + 1][..i] == names[..i];
      var name := Snake(names[i]);
      var loaded := IsLoaded(roots, texts, name);
      if loaded.Err? {
        LinkLoadedStops(g, roots, texts, from, names, i + 1);
        return Err(loaded.error);
      }
      if loaded.value {
        var linked := Link(graph, roots, from, name);
        if linked.Err? {
          LinkLoadedStops(g, roots, texts, from, names, i + 1);
          return Err(linked.error);
        }
        graph := linked.value;
      } else {
        needed := needed + [name];
      }
    }
    assert names[..|names|] == names;
    return Ok((graph, needed));
  }

  lemma {:induction false} ResolveAllStops(g: CrateGraph, roots: Roots, needed: map<string, seq<string>>, name: string,
                                           crate: nat, order: seq<string>, k: nat)
    requires forall n :: n in order ==> n in needed
    requires k <= |order| && (forall n :: n in order[..k] ==> n in needed)
    requires ResolveAll(g, roots, needed, name, crate, order[..k]).Err?
    ensures ResolveAll(g, roots, needed, name, crate, order) == ResolveAll(g, roots, needed, name, crate, order[..k])
    decreases |order|
  {
    if k < |order| {
      assert order[..|order| - 1][..k] == order[..k];
      ResolveAllStops(g, roots, needed, name, crate, order[..|order| - 1], k);
    } else {
      assert order[..k] == order;
    }
  }

  /** Any start can be completed to an enumeration. */
  lemma {:induction false} Enumerate(keys: set<string>) returns (order: seq<string>)
    ensures Enumerates(order, keys)
    decreases |keys|
  {
    order := [];
    if keys != {} {
      var k :| k in keys;
      order := Enumerate(keys - {k});
      order := order + [k];
    }
  }

  lemma EnumeratesConcat(a: seq<string>, b: seq<string>, s: set<string>, t: set<string>)
    requires Enumerates(a, s) && Enumerates(b, t) && s !! t
    ensures Enumerates(a + b, s + t)
  {
    var all := a + b;
    forall i, j | 0 <= i < j < |all| ensures all[i] != all[j] {
      if i < |a| <= j {
        assert all[i] in a && all[j] in b;
      }
    }
  }

  method ResolveWaiting(g: CrateGraph, roots: Roots, needed: map<string, seq<string>>, name: string, crate: nat)
    returns (r: Result<(CrateGraph, map<string, seq<string>>), Fault>, ghost order: seq<string>)
    ensures Enumerates(order, needed.Keys)
    ensures r == ResolveAll(g, roots, needed, name, crate, order)
  {
    var graph, waiting := g, needed;
    var keys := needed.Keys;
    order := [];
    while keys != {}
      invariant keys <= needed.Keys == waiting.Keys
      invariant Enumerates(order, needed.Keys - keys)
      invariant ResolveAll(g, roots, needed, name, crate, order) == Ok((graph, waiting))
      decreases keys
    {
      var k :| k in keys;
      var next := Resolve(graph, roots, waiting, name, crate, k);
      EnumeratesConcat(order, [k], needed.Keys - keys, {k});
      assert needed.Keys - keys + {k} == needed.Keys - (keys - {k});
      assert (order + [k])[..|order|] == order;
      ghost var before := order;
      order := order + [k];
      keys := keys - {k};
      if next.Err? {
        var rest := Enumerate(keys);
        EnumeratesConcat(order, rest, needed.Keys - keys, keys);
        assert needed.Keys - keys + keys == needed.Keys;
        assert (order + rest)[..|order|] == order;
        ResolveAllStops(g, roots, needed, name, crate, order + rest, |order|);
        order := order + rest;
        return Err(next.error), order;
      }
      graph, waiting := next.value.0, next.value.1;
    }
    assert needed.Keys - keys == needed.Keys;
    return Ok((graph, waiting)), order;
  }

  /** Crates `k + 1` to `k + 3` depend only on those among them that come earlier. */
  ghost predicate DefaultsOrdered(g: CrateGraph, k: nat) {
    |g| == k + 4 && forall i, d :: k < i < k + 4 && 0 <= d < |g[i].deps| ==> k < g[i].deps[d].crate < i
  }

  lemma DefaultsAccepted(g: CrateGraph, k: nat, from: nat, dep: Dependency)
    requires DefaultsOrdered(g, k) && k < dep.crate < k + 4 && k <= from < k + 4 && (from == k || dep.crate < from)
    ensures AddDep(g, from, dep) == Ok(g[from := g[from].(deps := g[from].deps + [dep])])
    ensures DefaultsOrdered(AddDep(g, from, dep).value, k)
  {
    var c: set<nat> :=
      if dep.crate == k + 1 then {k + 1} else if dep.crate == k + 2 then {k + 1, k + 2} else {k + 1, k + 2, k + 3};
    assert Next(Edges(g), c) <= c;
    AcceptedBy(g, from, dep, c);
  }

  method LinkDefault(g: CrateGraph, ghost k: nat, from: nat, dep: Dependency) returns (linked: CrateGraph)
    requires DefaultsOrdered(g, k) && k < dep.crate < k + 4 && k <= from < k + 4 && (from == k || dep.crate < from)
    ensures linked == g[from := g[from].(deps := g[from].deps + [dep])]
    ensures DefaultsOrdered(linked, k)
  {
    DefaultsAccepted(g, k, from, dep);
    linked := AddDep(g, from, dep).value;
  }

  /** Add the default crates to a graph; none of the six links is refused, whatever the graph holds. */
  method LinkDefaultCrates(g: CrateGraph) returns (h: CrateGraph)
    ensures h == g + DefaultCratesFrom(|g|)
  {
    hide Edges, Reach;
    var k := |g|;
    h := g + DefaultCrates([], [], []);
    h := LinkDefault(h, k, k + 2, CoreDep(k));
    h := LinkDefault(h, k, k + 3, CoreDep(k));
    h := LinkDefault(h, k, k + 3, AllocDep(k));
    h := LinkDefault(h, k, k, CoreDep(k));
    h := LinkDefault(h, k, k, AllocDep(k));
    h := LinkDefault(h, k, k, StdDep(k));
    assert h[k].deps == [CoreDep(k), AllocDep(k), StdDep(k)];
    assert h[k + 2].deps == [CoreDep(k)] && h[k + 3].deps == [CoreDep(k), AllocDep(k)];
  }

  /** The file set and the texts of a new local root. */
  method ReadLocalFiles(roots: Roots, texts: map<nat, string>, files: seq<SourceFile>)
    returns (fileSet: FileSet, changed: map<nat, string>)
    ensures fileSet == LocalSet(roots, files) && changed == LocalTexts(roots, texts, files)
  {
    fileSet, changed := NO_FILES, texts;
    for i := 0 to |files|
      invariant fileSet == LocalSet(roots, files[..i])
      invariant changed == LocalTexts(roots, texts, files[..i])
    {
      var f := files[i];
      assert files[..i + 1][..i] == files[..i];
      var id := LocalId(roots, f.path);
      fileSet := fileSet.Insert(id, f.path);
      changed := changed[id := f.content];
    }
    assert files[..|files|] == files;
  }

  class WorldState {
    var roots: Roots
    var graph: CrateGraph
    var needed: map<string, seq<string>>
    var texts: map<nat, string>

    ghost function View(): World
      reads this
    {
      World(roots, graph, needed, texts)
    }

    constructor ()
      ensures View() == EMPTY
    {
      roots, graph, needed, texts := [], [], map[], map[];
    }

    /** Load `std`, `core` and `alloc` and the local crate; none of the six links is refused. */
    method LoadDefaultCrates(coreLib: string, allocLib: string, stdLib: string)
      modifies this
      ensures View() == LoadDefaults(old(View()), coreLib, allocLib, stdLib)
      ensures old(View()) == EMPTY ==> View() == DefaultWorld(coreLib, allocLib, stdLib)
    {
      roots := DefaultRoots();
      graph := LinkDefaultCrates(graph);
      texts := texts + map[0 := "", 1 := coreLib, 2 := allocLib, 3 := stdLib];
    }

    /** Replace the local crate's files. */
    method LoadLocalFiles(files: seq<SourceFile>) returns (r: Result<World, Fault>)
      modifies this
      ensures r == LoadLocal(old(View()), files)
      ensures r.Ok? ==> View() == r.value
    {
      if exists f :: f in files && !IsVirtual(f) {
        return Err(BadPath);
      }
      var fileSet, changed := ReadLocalFiles(roots, texts, files);
      if roots == [] {
        return Err(NoRoot);
      }
      roots, texts := roots[0 := fileSet], changed;
      return Ok(World(roots, graph, needed, texts));
    }

    /** Load one dependency, linking it to what is loaded and to whoever waits for it. */
    method LoadDependency(name: string, code: Option<string>, manifest: Option<Manifest>, transitive: bool)
      returns (r: Result<seq<string>, Fault>, ghost order: seq<string>)
      modifies this
      ensures Enumerates(order, old(needed).Keys)
      ensures r.Err? ==> Load(old(View()), name, code, manifest, transitive, order) == Err(r.error)
      ensures r.Ok? ==> Load(old(View()), name, code, manifest, transitive, order) == Ok((View(), r.value))
    {
      order := Enumerate(needed.Keys);
      var m := if manifest.Some? then manifest.value else NoManifest(name);
      var reg := Register(World(roots, graph, needed, texts), name, m, transitive);
      if reg.Err? {
        return Err(reg.error), order;
      }
      var (w, file, crate) := reg.value;
      roots, graph := w.roots, w.graph;
      if code.Some? {
        var linked := LinkDefaults(graph, roots, crate);
        if linked.Err? {
          return Err(linked.error), order;
        }
        graph := linked.value;
        if m.procMacro {
          graph := graph[crate := graph[crate].(procMacro := true)];
        }
      }
      var dependencies := LinkDependencies(graph, roots, texts, crate, m.dependencies);
      if dependencies.Err? {
        return Err(dependencies.error), order;
      }
      graph := dependencies.value.0;
      var resolved;
      resolved, order := ResolveWaiting(graph, roots, needed, name, crate);
      if resolved.Err? {
        return Err(resolved.error), order;
      }
      graph, needed := resolved.value.0, resolved.value.1[name := dependencies.value.1];
      texts := texts[file := if code.Some? then code.value else ""];
      return Ok(dependencies.value.1), order;
    }
  }
}
