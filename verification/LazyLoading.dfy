/** What every load keeps, and what exactly it changes: links, needs and texts. */
module LazyLoading {
  import opened Wrappers
  import opened Digraphs
  import opened CrateWorld
  import opened CrateIndex
  import opened CrateLoading

  // ---- one crate's links ----

  lemma MarkedLinks(g: CrateGraph, names: seq<string>, ms: Manifests, crate: nat, code: Option<string>, m: Manifest)
    requires crate < |g| && Sound(g, names, ms)
    ensures var h := MarkProcMacro(g, crate, code, m);
      Sound(h, names, ms) && SameCrates(g, h) && LinksAdded(g, h, names, crate, {})
  {}

  /** The links of the crate being loaded: the default crates if it has code, and its loaded dependencies. */
  ghost function OwnLinks(code: Option<string>, m: Manifest, loaded: set<string>): set<string> {
    (if code.Some? then SetOf(DEFAULTS) else {}) + DepsOf(m.dependencies) * loaded
  }

  ghost predicate CanLoad(w: World, names: seq<string>, ms: Manifests, known: set<string>, crate: nat,
                          code: Option<string>, m: Manifest, loaded: set<string>)
  {
    && Sound(w.graph, names, ms) && Acyclic(Wants(ms)) && DistinctNames(names)
    && Resolves(w.roots, w.graph, names, known)
    && 1 <= crate < |names| && IsCrateName(names[crate])
    && (code.Some? ==> forall n :: n in DEFAULTS ==> CanLink(ms, names, known, crate, n))
    && (forall d :: d in m.dependencies ==> DepReady(w.roots, w.texts, names, ms, known, crate, loaded, Snake(d)))
    && (forall n :: n in w.needed ==> WaiterOk(ms, names, known, w.needed, names[crate], crate, n))
  }

  /** The first two loops of a load. */
  ghost function LinkOwn(w: World, crate: nat, code: Option<string>, m: Manifest)
    : Result<(CrateGraph, seq<string>), Fault>
    requires crate < |w.graph|
  {
    var g1 :- if code.Some? then LinkAll(w.graph, w.roots, crate, DEFAULTS) else Ok(w.graph);
    LinkLoaded(MarkProcMacro(g1, crate, code, m), w.roots, w.texts, crate, m.dependencies)
  }

  lemma LinkDefaultsLinks(w: World, names: seq<string>, ms: Manifests, known: set<string>, crate: nat,
                          code: Option<string>, m: Manifest, loaded: set<string>)
    requires CanLoad(w, names, ms, known, crate, code, m, loaded)
    ensures var g1 := if code.Some? then LinkAll(w.graph, w.roots, crate, DEFAULTS) else Ok(w.graph);
      g1.Ok? && Sound(MarkProcMacro(g1.value, crate, code, m), names, ms)
      && LinksAdded(w.graph, MarkProcMacro(g1.value, crate, code, m), names, crate,
        if code.Some? then SetOf(DEFAULTS) else {})
  {
    var extra := if code.Some? then SetOf(DEFAULTS) else {};
    if code.Some? {
      LinkAllLinks(w.graph, w.roots, names, ms, known, crate, DEFAULTS);
    }
    var g1 := if code.Some? then LinkAll(w.graph, w.roots, crate, DEFAULTS).value else w.graph;
    MarkedLinks(g1, names, ms, crate, code, m);
    LinksAddedTwice(w.graph, g1, MarkProcMacro(g1, crate, code, m), names, crate, extra, {});
    assert extra + {} == extra;
  }

  lemma LinkOwnLinks(w: World, names: seq<string>, ms: Manifests, known: set<string>, crate: nat,
                     code: Option<string>, m: Manifest, loaded: set<string>)
    requires CanLoad(w, names, ms, known, crate, code, m, loaded)
    ensures var r := LinkOwn(w, crate, code, m);
      && r.Ok? && Sound(r.value.0, names, ms) && LinksAdded(w.graph, r.value.0, names, crate, OwnLinks(code, m, loaded))
      && multiset(r.value.1) == NeedsOf(m.dependencies, loaded)
  {
    hide LinksAdded, Resolves, Edges, SetOf, Allowed, NeedsOf;
    LinkDefaultsLinks(w, names, ms, known, crate, code, m, loaded);
    var g1 := if code.Some? then LinkAll(w.graph, w.roots, crate, DEFAULTS).value else w.graph;
    var marked := MarkProcMacro(g1, crate, code, m);
    ResolvesSame(w.roots, w.graph, marked, names, known);
    LinkLoadedLinks(marked, w.roots, w.texts, names, ms, known, crate, m.dependencies, loaded);
    LinkLoadedNeeds(marked, w.roots, w.texts, crate, m.dependencies, loaded);
    LinksAddedTwice(w.graph, marked, LinkLoaded(marked, w.roots, w.texts, crate, m.dependencies).value.0, names, crate,
                    if code.Some? then SetOf(DEFAULTS) else {}, DepsOf(m.dependencies) * loaded);
  }

  /** `n` is on record as waiting for `name`. */
  ghost predicate WaitsFor(needed: map<string, seq<string>>, n: string, name: string) {
    n in needed && name in needed[n]
  }

  /** The links after a load: the crate's own, and one for everybody who waited for it. */
  ghost predicate LoadLinks(g: CrateGraph, h: CrateGraph, names: seq<string>, crate: nat, own: set<string>,
                            needed: map<string, seq<string>>)
  {
    && SameCrates(g, h) && crate < |names| == |g|
    && forall i :: 0 <= i < |g| ==>
         Links(h, names, i) == Links(g, names, i) + (if i == crate then own else {})
                               + (if i > 0 && WaitsFor(needed, names[i], names[crate]) then {names[crate]} else {})
  }

  lemma LinkUpLinks(w: World, names: seq<string>, ms: Manifests, known: set<string>, crate: nat,
                    code: Option<string>, m: Manifest, loaded: set<string>, order: seq<string>)
    requires CanLoad(w, names, ms, known, crate, code, m, loaded) && Enumerates(order, w.needed.Keys)
    ensures var r := LinkUp(w, names[crate], crate, code, m, order);
      && r.Ok? && Sound(r.value.0, names, ms)
      && LoadLinks(w.graph, r.value.0, names, crate, OwnLinks(code, m, loaded), w.needed)
      && NeededAfter(w.needed, r.value.1, order, names[crate])
      && multiset(r.value.2) == NeedsOf(m.dependencies, loaded)
  {
    var name := names[crate];
    LinkOwnLinks(w, names, ms, known, crate, code, m, loaded);
    var h := LinkOwn(w, crate, code, m).value.0;
    ResolvesSame(w.roots, w.graph, h, names, known);
    ResolveAllLinks(h, w.roots, w.needed, names, ms, known, name, crate, order);
    var end := ResolveAll(h, w.roots, w.needed, name, crate, order).value.0;
    GivenAfterOwn(w.graph, h, end, names, crate, OwnLinks(code, m, loaded), w.needed, order);
    assert LinkUp(w, name, crate, code, m, order) ==
           Ok((end, ResolveAll(h, w.roots, w.needed, name, crate, order).value.1, LinkOwn(w, crate, code, m).value.1));
  }

  lemma GivenAfterOwn(g: CrateGraph, h: CrateGraph, end: CrateGraph, names: seq<string>, crate: nat, own: set<string>,
                      needed: map<string, seq<string>>, order: seq<string>)
    requires crate < |names| == |g| && LinksAdded(g, h, names, crate, own) && Enumerates(order, needed.Keys)
    requires Given(h, end, names, needed, order, names[crate])
    ensures LoadLinks(g, end, names, crate, own, needed)
  {}

  // ---- the state between calls ----

  ghost function LibraryNames(names: seq<string>): set<string> {
    set i | 4 <= i < |names| :: names[i]
  }

  /** A crate's text tells whether it has code. */
  ghost predicate TextShows(texts: map<nat, string>, g: CrateGraph, names: seq<string>, loaded: set<string>, i: nat)
    requires i < |names| == |g|
  {
    g[i].rootFile in texts && (texts[g[i].rootFile] != "" <==> names[i] in loaded)
  }

  /** `loaded` are the crates with code, default crates among them; a crate waits only for its own dependencies. */
  ghost predicate Linked(w: World, names: seq<string>, ms: Manifests, loaded: set<string>) {
    && Acyclic(Wants(ms)) && Indexed(w, names) && Sound(w.graph, names, ms)
    && (forall n :: n in LibraryNames(names) ==> IsCrateName(n) && !IsDefault(n))
    && (forall n :: n in loaded ==> n in names[1..])
    && (forall i :: 1 <= i < |names| ==> TextShows(w.texts, w.graph, names, loaded, i))
    && w.needed.Keys == LibraryNames(names)
    && (forall n :: n in w.needed ==> SetOf(w.needed[n]) <= DepsIn(ms, n))
  }

  /** No local file sits on the path of one of the crates. */
  ghost predicate Off(w: World, crates: set<string>) {
    w.roots != [] && forall n :: n in crates ==> CratePath(n) !in w.roots[0].files
  }

  /** The names a load looks up: the crate, what it may be linked to, and who waits for it. */
  ghost function Touched(needed: map<string, seq<string>>, name: string, code: Option<string>, m: Manifest)
    : set<string>
  {
    {name} + (if code.Some? then SetOf(DEFAULTS) else {}) + DepsOf(m.dependencies)
    + set n | n in needed && name in needed[n]
  }

  lemma DefaultsKnown(names: seq<string>)
    requires |names| >= 4 && names[..4] == [LOCAL_NAME] + DEFAULTS
    ensures names[1] == "core" && names[2] == "alloc" && names[3] == "std"
    ensures forall n :: n in DEFAULTS ==> IsCrateName(n) && exists j: nat :: 1 <= j < 4 && names[j] == n
  {}

  lemma LibraryIndex(names: seq<string>, n: string) returns (i: nat)
    requires n in LibraryNames(names)
    ensures 4 <= i < |names| && names[i] == n
  {
    i :| 4 <= i < |names| && names[i] == n;
  }

  lemma NotDefault(names: seq<string>, n: string)
    requires |names| >= 4 && names[..4] == [LOCAL_NAME] + DEFAULTS && !IsDefault(n)
    ensures n in names[1..] <==> n in LibraryNames(names)
  {}

  // ---- registering a crate ----

  /** A name away from the local files is found exactly when it is registered. */
  lemma FoundIffRegistered(w: World, names: seq<string>, ms: Manifests, loaded: set<string>, n: string)
    requires Linked(w, names, ms, loaded) && !IsDefault(n) && CratePath(n) !in w.roots[0].files
    ensures GetFileId(n, w.roots).Some? <==> n in LibraryNames(names)
    ensures forall i :: 4 <= i < |names| && names[i] == n ==> GetFileId(n, w.roots) == Some(w.graph[i].rootFile)
  {
    hide Sound, TextShows;
    LookupFile(w, names, n);
    NotDefault(names, n);
    if n in LibraryNames(names) {
      var i := LibraryIndex(names, n);
    }
  }

  /** The links of crate `i`; a crate that is not there yet has none. */
  ghost function LinksAt(w: World, names: seq<string>, i: nat): set<string> {
    if i < |w.graph| then Links(w.graph, names, i) else {}
  }

  /** What registering leaves to the linking loops; `direct` is what the local crate is newly linked to. */
  ghost predicate Registered(w: World, w1: World, names: seq<string>, names1: seq<string>, ms: Manifests,
                             direct: set<string>, crate: nat)
  {
    && |names| <= |names1| == |w1.graph| && names == names1[..|names|] && |names| == |w.graph| >= 4
    && Sound(w1.graph, names1, ms)
    && 4 <= crate < |names1| && (|names1| == |names| || (|names1| == |names| + 1 && crate == |names|))
    && (forall i: nat :: i < |names1| ==>
          Links(w1.graph, names1, i) == LinksAt(w, names, i) + if i == 0 then direct else {})
    && w1.needed == w.needed && w1.texts == w.texts
    && (forall i :: 0 <= i < |names| ==> w1.graph[i].rootFile == w.graph[i].rootFile)
  }

  lemma RegisterKnown(w: World, names: seq<string>, ms: Manifests, loaded: set<string>, name: string, m: Manifest,
                      transitive: bool)
    requires Linked(w, names, ms, loaded) && name in LibraryNames(names) && CratePath(name) !in w.roots[0].files
    ensures var r := Register(w, name, m, transitive);
      && r.Ok? && r.value.2 < |names| && names[r.value.2] == name
      && Registered(w, r.value.0, names, names, ms, {}, r.value.2)
  {
    hide Links, TextShows;
    FoundIffRegistered(w, names, ms, loaded, name);
    var i := LibraryIndex(names, name);
    RootCrate(w, names, i);
    assert names[..|names|] == names;
  }

  lemma GrownLinks(g: CrateGraph, data: CrateData, names: seq<string>, name: string, ms: Manifests)
    requires Sound(g, names, ms) && data.deps == []
    ensures Sound(g + [data], names + [name], ms)
    ensures Links(g + [data], names + [name], |g|) == {}
    ensures forall i :: 0 <= i < |g| ==> Links(g + [data], names + [name], i) == Links(g, names, i)
  {
    var h, names1 := g + [data], names + [name];
    forall i: nat | i < |g| ensures Edges(h)[i] == Edges(g)[i] {
      assert h[i] == g[i];
    }
    assert Edges(h)[|g|] == {};
    forall i: nat, j: nat | HasEdge(Edges(h), i, j) ensures Allowed(ms, names1, i, j) {
      assert HasEdge(Edges(g), i, j);
    }
    forall i: nat | i < |g| ensures Links(h, names1, i) == Links(g, names, i) {
      forall j: nat | j in Edges(g)[i] ensures j < |names| {
        assert HasEdge(Edges(g), i, j);
      }
    }
  }

  lemma RegisteredGrown(w: World, w1: World, names: seq<string>, name: string, ms: Manifests, data: CrateData)
    requires |names| == |w.graph| >= 4 && Sound(w.graph, names, ms) && data.deps == []
    requires w1.graph == w.graph + [data] && w1.needed == w.needed && w1.texts == w.texts
    ensures Registered(w, w1, names, names + [name], ms, {}, |names|)
  {
    hide Sound, Links;
    GrownLinks(w.graph, data, names, name, ms);
    assert (names + [name])[..|names|] == names;
  }

  /** The local crate is linked to the new crate. */
  lemma RegisteredDirect(w: World, w1: World, w2: World, names: seq<string>, name: string, ms: Manifests)
    requires Registered(w, w1, names, names + [name], ms, {}, |names|)
    requires Sound(w2.graph, names + [name], ms) && LinksAdded(w1.graph, w2.graph, names + [name], 0, {name})
    requires w2.needed == w1.needed && w2.texts == w1.texts
    ensures Registered(w, w2, names, names + [name], ms, {name}, |names|)
  {
    hide Sound, Links;
  }

  lemma RegisterNew(w: World, names: seq<string>, ms: Manifests, loaded: set<string>, name: string, m: Manifest,
                    transitive: bool)
    requires Linked(w, names, ms, loaded) && IsCrateName(name) && !IsDefault(name)
    requires name !in LibraryNames(names) && CratePath(name) !in w.roots[0].files
    ensures var r := Register(w, name, m, transitive);
      && r.Ok? && r.value.2 == |names|
      && Registered(w, r.value.0, names, names + [name], ms, if transitive then {} else {name}, |names|)
  {
    hide Registered, Edges, LibraryNames, FileForPath, Reach, TextShows;
    FoundIffRegistered(w, names, ms, loaded, name);
    var data := CrateData(NextFileId(w.roots), m.package, [], m.procMacro);
    var w1 := w.(roots := w.roots + [LibraryRoot(name, NextFileId(w.roots))], graph := w.graph + [data]);
    RegisteredGrown(w, w1, names, name, ms, data);
    GrownLinks(w.graph, data, names, name, ms);
    if !transitive {
      assert (names + [name])[|names|] == name;
      AddDepLinks(w1.graph, names + [name], ms, 0, |names|);
      RegisteredDirect(w, w1, Register(w, name, m, transitive).value.0, names, name, ms);
    }
  }

  ghost function NamesWith(names: seq<string>, name: string): seq<string> {
    if name in LibraryNames(names) then names else names + [name]
  }

  /** What the local crate is newly linked to: a crate first loaded directly. */
  ghost function DirectlyNew(names: seq<string>, name: string, transitive: bool): set<string> {
    if transitive || name in LibraryNames(names) then {} else {name}
  }

  lemma RegisterWorks(w: World, names: seq<string>, ms: Manifests, loaded: set<string>, name: string, m: Manifest,
                      transitive: bool)
    requires Linked(w, names, ms, loaded) && IsCrateName(name) && !IsDefault(name)
    requires CratePath(name) !in w.roots[0].files
    ensures var r, names1 := Register(w, name, m, transitive), NamesWith(names, name);
      && r.Ok? && r.value.2 < |names1| && names1[r.value.2] == name
      && Registered(w, r.value.0, names, names1, ms, DirectlyNew(names, name, transitive), r.value.2)
  {
    hide Linked, Registered, Register;
    if name in LibraryNames(names) {
      RegisterKnown(w, names, ms, loaded, name, m, transitive);
    } else {
      RegisterNew(w, names, ms, loaded, name, m, transitive);
    }
  }

  lemma RegisterIndexed(w: World, names: seq<string>, ms: Manifests, loaded: set<string>, name: string, m: Manifest,
                        transitive: bool, text: string, known: set<string>)
    requires Linked(w, names, ms, loaded) && !IsDefault(name) && name in known && Off(w, known)
    requires Register(w, name, m, transitive).Ok?
    ensures var (w1, file, crate) := Register(w, name, m, transitive).value;
      && w1.graph[crate].rootFile == file
      && Indexed(w1.(texts := w1.texts[file := text]), NamesWith(names, name))
      && w1.roots != [] && w1.roots[0] == w.roots[0]
      && Resolves(w1.roots, w1.graph, NamesWith(names, name), known)
  {
    hide Resolves, Sound, TextShows, NextFileId;
    FoundIffRegistered(w, names, ms, loaded, name);
    RegisterKeepsIndex(w, names, name, m, transitive, text);
    var (w1, file, crate) := Register(w, name, m, transitive).value;
    IndexResolves(w1.(texts := w1.texts[file := text]), NamesWith(names, name), known);
  }

  /** The arguments of a load: any code, and the crate's own manifest or none. */
  ghost predicate LoadArgs(ms: Manifests, name: string, manifest: Option<Manifest>) {
    && IsCrateName(name) && !IsDefault(name)
    && (manifest.Some? ==> name in ms && manifest.value == ms[name])
  }

  ghost function ManifestOf(name: string, manifest: Option<Manifest>): Manifest {
    if manifest.Some? then manifest.value else NoManifest(name)
  }

  lemma ManifestDeps(ms: Manifests, name: string, manifest: Option<Manifest>)
    requires LoadArgs(ms, name, manifest)
    ensures DepsOf(ManifestOf(name, manifest).dependencies) == if manifest.Some? then DepsIn(ms, name) else {}
  {}

  lemma NoSelfDep(ms: Manifests, n: string)
    requires Acyclic(Wants(ms))
    ensures n !in DepsIn(ms, n)
  {
    if n in DepsIn(ms, n) {
      assert Path(Wants(ms), [n, n]);
      assert false;
    }
  }

  /** The texts tell which crates other than `crate` have code. */
  ghost predicate TextsShow(texts: map<nat, string>, g: CrateGraph, names: seq<string>, loaded: set<string>,
                            crate: nat) {
    && |names| == |g| > 0
    && (forall n :: n in loaded ==> n in names[1..])
    && forall i :: 1 <= i < |names| && i != crate ==> TextShows(texts, g, names, loaded, i)
  }

  lemma RegisteredTexts(w: World, names: seq<string>, ms: Manifests, loaded: set<string>,
                        w1: World, names1: seq<string>, direct: set<string>, crate: nat)
    requires Linked(w, names, ms, loaded) && Registered(w, w1, names, names1, ms, direct, crate)
    ensures TextsShow(w1.texts, w1.graph, names1, loaded, crate)
  {
    hide Sound, Links, SetOf, Indexed;
    forall i | 1 <= i < |names1| && i != crate ensures TextShows(w1.texts, w1.graph, names1, loaded, i) {
      assert TextShows(w.texts, w.graph, names, loaded, i);
    }
    forall n | n in loaded ensures n in names1[1..] {
      var i :| 0 <= i < |names[1..]| && names[1..][i] == n;
      assert names1[1..][i] == n;
    }
  }

  /** While a crate is being loaded, every other known name is seen to have code exactly when it has. */
  lemma SeenAsLoaded(roots: Roots, texts: map<nat, string>, g: CrateGraph, names: seq<string>, known: set<string>,
                     loaded: set<string>, crate: nat, d: string)
    requires Resolves(roots, g, names, known) && TextsShow(texts, g, names, loaded, crate)
    requires crate < |names| && d in known && d != names[crate]
    ensures IsLoaded(roots, texts, d) == Ok(d in loaded)
  {
    if d in names[1..] {
      var i :| 1 <= i < |names| && names[i] == d;
      assert TextShows(texts, g, names, loaded, i);
    }
  }

  // ---- a load is never refused ----

  lemma DefaultsLinkable(names: seq<string>, ms: Manifests, known: set<string>, crate: nat, n: string)
    requires |names| >= 4 && names[..4] == [LOCAL_NAME] + DEFAULTS && 4 <= crate < |names|
    requires n in DEFAULTS && n in known
    ensures CanLink(ms, names, known, crate, n)
  {
    DefaultsKnown(names);
    var j: nat :| 1 <= j < 4 && names[j] == n;
    assert Allowed(ms, names, crate, j);
  }

  lemma SnakeIsCrateName(name: string)
    ensures IsCrateName(Snake(name))
  {}

  lemma DepLinkable(names: seq<string>, ms: Manifests, known: set<string>, crate: nat, d: string)
    requires 4 <= crate < |names| && Snake(d) in DepsIn(ms, names[crate]) && Snake(d) in known && Snake(d) in names[1..]
    ensures CanLink(ms, names, known, crate, Snake(d))
  {
    var j: nat :| 1 <= j < |names| && names[j] == Snake(d);
    assert HasEdge(Wants(ms), names[crate], Snake(d));
    assert Allowed(ms, names, crate, j);
    SnakeIsCrateName(d);
  }

  lemma DepIsReady(w1: World, names1: seq<string>, ms: Manifests, known: set<string>, loaded: set<string>, crate: nat,
                   d: string)
    requires Acyclic(Wants(ms)) && Resolves(w1.roots, w1.graph, names1, known)
    requires TextsShow(w1.texts, w1.graph, names1, loaded, crate)
    requires 4 <= crate < |names1| && Snake(d) in DepsIn(ms, names1[crate]) && Snake(d) in known
    ensures DepReady(w1.roots, w1.texts, names1, ms, known, crate, loaded, Snake(d))
  {
    hide Resolves, Acyclic, CanLink, TextShows;
    NoSelfDep(ms, names1[crate]);
    SeenAsLoaded(w1.roots, w1.texts, w1.graph, names1, known, loaded, crate, Snake(d));
    if Snake(d) in loaded {
      DepLinkable(names1, ms, known, crate, d);
    }
  }

  lemma WaiterIsOk(w: World, names: seq<string>, ms: Manifests, loaded: set<string>, known: set<string>,
                   names1: seq<string>, crate: nat, n: string)
    requires Linked(w, names, ms, loaded) && n in w.needed
    requires |names| <= |names1| && names == names1[..|names|] && 4 <= crate < |names1|
    requires WaitsFor(w.needed, n, names1[crate]) ==> n in known
    ensures WaiterOk(ms, names1, known, w.needed, names1[crate], crate, n)
  {
    hide Sound, Indexed, TextShows;
    var i := LibraryIndex(names, n);
    assert names1[i] == n;
    if names1[crate] in w.needed[n] {
      assert names1[crate] in SetOf(w.needed[n]);
      assert HasEdge(Wants(ms), n, names1[crate]);
    }
  }

  lemma CanLoadFrom(w: World, names: seq<string>, ms: Manifests, loaded: set<string>, known: set<string>,
                    w1: World, names1: seq<string>, crate: nat, code: Option<string>, m: Manifest)
    requires Linked(w, names, ms, loaded)
    requires |names| <= |names1| && names == names1[..|names|] && 4 <= crate < |names1|
    requires names1[..4] == [LOCAL_NAME] + DEFAULTS && DistinctNames(names1) && IsCrateName(names1[crate])
    requires Sound(w1.graph, names1, ms) && Resolves(w1.roots, w1.graph, names1, known)
    requires TextsShow(w1.texts, w1.graph, names1, loaded, crate) && w1.needed == w.needed
    requires DepsOf(m.dependencies) <= DepsIn(ms, names1[crate]) && Touched(w.needed, names1[crate], code, m) <= known
    ensures CanLoad(w1, names1, ms, known, crate, code, m, loaded)
  {
    hide Sound, Resolves, TextsShow, CanLink, DepReady, WaiterOk, DepsIn;
    if code.Some? {
      forall n | n in DEFAULTS ensures CanLink(ms, names1, known, crate, n) {
        assert n in SetOf(DEFAULTS);
        DefaultsLinkable(names1, ms, known, crate, n);
      }
    }
    forall d | d in m.dependencies
      ensures DepReady(w1.roots, w1.texts, names1, ms, known, crate, loaded, Snake(d))
    {
      assert Snake(d) in DepsOf(m.dependencies);
      DepIsReady(w1, names1, ms, known, loaded, crate, d);
    }
    forall n | n in w1.needed ensures WaiterOk(ms, names1, known, w1.needed, names1[crate], crate, n) {
      WaiterIsOk(w, names, ms, loaded, known, names1, crate, n);
    }
  }

  /** A load that looks up no name with a local file on its path. */
  ghost predicate CanBegin(w: World, names: seq<string>, ms: Manifests, loaded: set<string>, name: string,
                           code: Option<string>, manifest: Option<Manifest>)
  {
    Linked(w, names, ms, loaded) && LoadArgs(ms, name, manifest) &&
    Off(w, Touched(w.needed, name, code, ManifestOf(name, manifest)))
  }

  lemma NamesShape(w: World, names: seq<string>, w1: World, names1: seq<string>)
    requires Indexed(w1, names1)
    ensures |names1| >= 4 && names1[..4] == [LOCAL_NAME] + DEFAULTS && DistinctNames(names1) && |names1| == |w1.graph|
  {}

  lemma LoadIsReady(w: World, names: seq<string>, ms: Manifests, loaded: set<string>, name: string,
                    code: Option<string>, manifest: Option<Manifest>, transitive: bool)
    requires CanBegin(w, names, ms, loaded, name, code, manifest)
    ensures var m, names1 := ManifestOf(name, manifest), NamesWith(names, name);
      var r := Register(w, name, m, transitive);
      && r.Ok? && r.value.2 < |names1| && names1[r.value.2] == name && r.value.0.needed == w.needed
      && CanLoad(r.value.0, names1, ms, Touched(w.needed, name, code, m), r.value.2, code, m, loaded)
  {
    hide Linked, CanLoad, Resolves, Sound, TextsShow, Register, Links, DepsOf, SetOf, Indexed;
    var m, names1 := ManifestOf(name, manifest), NamesWith(names, name);
    var known := Touched(w.needed, name, code, m);
    ManifestDeps(ms, name, manifest);
    RegisterWorks(w, names, ms, loaded, name, m, transitive);
    RegisterIndexed(w, names, ms, loaded, name, m, transitive, "", known);
    var (w1, file, crate) := Register(w, name, m, transitive).value;
    NamesShape(w, names, w1.(texts := w1.texts[file := ""]), names1);
    RegisteredTexts(w, names, ms, loaded, w1, names1, DirectlyNew(names, name, transitive), crate);
    CanLoadFrom(w, names, ms, loaded, known, w1, names1, crate, code, m);
  }

  // ---- what a load changes ----

  ghost function LoadedWith(loaded: set<string>, name: string, code: Option<string>): set<string> {
    if code.Some? && code.value != "" then loaded + {name} else loaded - {name}
  }

  lemma {:induction false} RemoveFirstCount(s: seq<string>, x: string)
    ensures multiset(RemoveFirst(s, x)) == multiset(s) - multiset{x}
    decreases |s|
  {
    if s != [] {
      assert s == [s[0]] + s[1..];
      if s[0] != x {
        RemoveFirstCount(s[1..], x);
      }
    }
  }

  /** What a load produces, stage by stage. */
  ghost predicate LoadedAs(w: World, w1: World, w2: World, names1: seq<string>, ms: Manifests, loaded: set<string>,
                           crate: nat, code: Option<string>, m: Manifest)
  {
    && crate < |names1| == |w1.graph| == |w2.graph|
    && var name := names1[crate];
    && w2.needed.Keys == w.needed.Keys + {name}
    && SameCrates(w1.graph, w2.graph) && Sound(w2.graph, names1, ms)
    && LoadLinks(w1.graph, w2.graph, names1, crate, OwnLinks(code, m, loaded), w.needed)
    && (forall n :: n in w.needed && n != name ==>
          w2.needed[n] == if name in w.needed[n] then RemoveFirst(w.needed[n], name) else w.needed[n])
    && multiset(w2.needed[name]) == NeedsOf(m.dependencies, loaded)
    && w2.texts == w1.texts[w1.graph[crate].rootFile := if code.Some? then code.value else ""]
    && w2.roots == w1.roots
  }

  lemma StagesFromParts(w: World, w1: World, names1: seq<string>, ms: Manifests, loaded: set<string>, crate: nat,
                        code: Option<string>, m: Manifest, order: seq<string>,
                        g: CrateGraph, after: map<string, seq<string>>, need: seq<string>)
    requires crate < |names1| == |w1.graph| && w1.needed == w.needed && Enumerates(order, w.needed.Keys)
    requires Sound(g, names1, ms) && LoadLinks(w1.graph, g, names1, crate, OwnLinks(code, m, loaded), w.needed)
    requires NeededAfter(w.needed, after, order, names1[crate])
    requires multiset(need) == NeedsOf(m.dependencies, loaded)
    ensures LoadedAs(w, w1, World(w1.roots, g, after[names1[crate] := need],
                                  w1.texts[w1.graph[crate].rootFile := if code.Some? then code.value else ""]),
                     names1, ms, loaded, crate, code, m)
  {
    hide Sound, Links, OwnLinks, NeedsOf;
  }

  lemma LoadStages(w: World, names: seq<string>, ms: Manifests, loaded: set<string>, name: string,
                   code: Option<string>, manifest: Option<Manifest>, transitive: bool, order: seq<string>)
    requires CanBegin(w, names, ms, loaded, name, code, manifest) && Enumerates(order, w.needed.Keys)
    ensures var m := ManifestOf(name, manifest);
      var r, reg := Load(w, name, code, manifest, transitive, order), Register(w, name, m, transitive);
      && r.Ok? && reg.Ok?
      && LoadedAs(w, reg.value.0, r.value.0, NamesWith(names, name), ms, loaded, reg.value.2, code, m)
  {
    hide Linked, CanLoad, Registered, Indexed, Resolves, LoadedAs, LoadLinks, NeededAfter, Off, Register, NeedsOf;
    var m, names1 := ManifestOf(name, manifest), NamesWith(names, name);
    var known := Touched(w.needed, name, code, m);
    LoadIsReady(w, names, ms, loaded, name, code, manifest, transitive);
    RegisterIndexed(w, names, ms, loaded, name, m, transitive, "", known);
    var (w1, file, crate) := Register(w, name, m, transitive).value;
    LinkUpLinks(w1, names1, ms, known, crate, code, m, loaded, order);
    var r := LinkUp(w1, names1[crate], crate, code, m, order).value;
    CanLoadShape(w1, names1, ms, known, crate, code, m, loaded);
    StagesFromParts(w, w1, names1, ms, loaded, crate, code, m, order, r.0, r.1, r.2);
  }

  lemma CanLoadShape(w: World, names: seq<string>, ms: Manifests, known: set<string>, crate: nat,
                     code: Option<string>, m: Manifest, loaded: set<string>)
    requires CanLoad(w, names, ms, known, crate, code, m, loaded)
    ensures crate < |names| == |w.graph|
  {}

  lemma LibraryNamesWith(names: seq<string>, name: string)
    requires |names| >= 4
    ensures LibraryNames(NamesWith(names, name)) == LibraryNames(names) + {name}
  {
    var names1 := NamesWith(names, name);
    forall n ensures n in LibraryNames(names1) <==> n in LibraryNames(names) + {name} {
      if n in LibraryNames(names) {
        var i := LibraryIndex(names, n);
        assert names1[i] == n;
      }
      if n == name && name !in LibraryNames(names) {
        assert names1[|names|] == name;
      }
      if n in LibraryNames(names1) {
        var i := LibraryIndex(names1, n);
        assert i < |names| ==> names[i] == n;
      }
    }
  }

  lemma RootsDiffer(w: World, names: seq<string>, i: nat, j: nat)
    requires Indexed(w, names) && i < |names| && j < |names| && i != j && i > 0 && j > 0
    ensures w.graph[i].rootFile != w.graph[j].rootFile && names[i] != names[j]
  {}

  /** What every crate waits for after a load, with multiplicity. */
  lemma NeedsAfterLoad(w: World, names: seq<string>, ms: Manifests, loaded: set<string>, name: string,
                       code: Option<string>, manifest: Option<Manifest>, transitive: bool, order: seq<string>,
                       n: string)
    requires CanBegin(w, names, ms, loaded, name, code, manifest) && Enumerates(order, w.needed.Keys)
    requires n in w.needed || n == name
    ensures var r := Load(w, name, code, manifest, transitive, order);
      && r.Ok? && n in r.value.0.needed
      && multiset(r.value.0.needed[n]) ==
         if n == name then NeedsOf(ManifestOf(name, manifest).dependencies, loaded)
         else multiset(w.needed[n]) - multiset{name}
  {
    hide Linked, Load, Register, Registered, NeedsOf, LoadLinks, Sound, Off;
    var m := ManifestOf(name, manifest);
    RegisterWorks(w, names, ms, loaded, name, m, transitive) by { OffName(w, name, code, m); }
    LoadStages(w, names, ms, loaded, name, code, manifest, transitive, order);
    if n != name {
      RemoveFirstCount(w.needed[n], name);
    }
  }

  lemma OffName(w: World, name: string, code: Option<string>, m: Manifest)
    requires Off(w, Touched(w.needed, name, code, m))
    ensures w.roots != [] && CratePath(name) !in w.roots[0].files
  {}

  /** The links of every crate after a load. */
  ghost function LinksAfter(w: World, names: seq<string>, loaded: set<string>, name: string, code: Option<string>,
                            m: Manifest, transitive: bool, i: nat): set<string>
    requires i < |NamesWith(names, name)|
  {
    LinksAt(w, names, i) +
    (if i == 0 then DirectlyNew(names, name, transitive)
     else if NamesWith(names, name)[i] == name && i >= 4 then OwnLinks(code, m, loaded)
     else if WaitsFor(w.needed, NamesWith(names, name)[i], name) && i >= 4 then {name}
     else {})
  }

  lemma OnlyLibrariesWait(w: World, names: seq<string>, ms: Manifests, loaded: set<string>, i: nat, name: string)
    requires Linked(w, names, ms, loaded) && i < |names| && WaitsFor(w.needed, names[i], name)
    ensures i == 0 || i >= 4
    ensures names[i] != name
  {
    hide Sound, TextShows;
    NoSelfDep(ms, name);
    assert name in SetOf(w.needed[names[i]]);
    var j := LibraryIndex(names, names[i]);
  }

  lemma LinksAfterLoad(w: World, names: seq<string>, ms: Manifests, loaded: set<string>, name: string,
                       code: Option<string>, manifest: Option<Manifest>, transitive: bool, order: seq<string>, i: nat)
    requires CanBegin(w, names, ms, loaded, name, code, manifest) && Enumerates(order, w.needed.Keys)
    requires i < |NamesWith(names, name)|
    ensures var r, names1 := Load(w, name, code, manifest, transitive, order), NamesWith(names, name);
      && r.Ok? && |names1| == |r.value.0.graph|
      && Links(r.value.0.graph, names1, i) ==
         LinksAfter(w, names, loaded, name, code, ManifestOf(name, manifest), transitive, i)
  {
    hide Linked, Load, Register, NeedsOf, Sound, Off, Links, OwnLinks, Indexed;
    var m, names1 := ManifestOf(name, manifest), NamesWith(names, name);
    OffName(w, name, code, m);
    RegisterWorks(w, names, ms, loaded, name, m, transitive);
    RegisterIndexed(w, names, ms, loaded, name, m, transitive, "", Touched(w.needed, name, code, m));
    LoadStages(w, names, ms, loaded, name, code, manifest, transitive, order);
    var (w1, file, crate) := Register(w, name, m, transitive).value;
    if 0 < i != crate {
      RootsDiffer(w1.(texts := w1.texts[file := ""]), names1, i, crate);
    }
    if WaitsFor(w.needed, names1[i], name) {
      WaiterPlace(w, names, ms, loaded, name, i);
    }
  }

  lemma WaiterPlace(w: World, names: seq<string>, ms: Manifests, loaded: set<string>, name: string, i: nat)
    requires Linked(w, names, ms, loaded) && i < |NamesWith(names, name)|
    requires WaitsFor(w.needed, NamesWith(names, name)[i], name)
    ensures i < |names| && (i == 0 || i >= 4) && NamesWith(names, name)[i] != name
  {
    hide Sound, TextShows;
    NoSelfDep(ms, name);
    assert NamesWith(names, name)[i] == name ==> name in SetOf(w.needed[name]);
    OnlyLibrariesWait(w, names, ms, loaded, i, name);
  }

  lemma TextShowsStill(texts: map<nat, string>, g: CrateGraph, names: seq<string>, loaded: set<string>, i: nat,
                       texts': map<nat, string>, g': CrateGraph, names': seq<string>, loaded': set<string>)
    requires i < |names| == |g| && i < |names'| == |g'| && TextShows(texts, g, names, loaded, i)
    requires names'[i] == names[i] && g'[i].rootFile == g[i].rootFile && (names[i] in loaded <==> names[i] in loaded')
    requires g[i].rootFile in texts ==> g[i].rootFile in texts' && texts'[g[i].rootFile] == texts[g[i].rootFile]
    ensures TextShows(texts', g', names', loaded', i)
  {}

  lemma TextAfterLoad(w: World, names: seq<string>, ms: Manifests, loaded: set<string>, name: string,
                      code: Option<string>, manifest: Option<Manifest>, transitive: bool, order: seq<string>, i: nat)
    requires CanBegin(w, names, ms, loaded, name, code, manifest) && Enumerates(order, w.needed.Keys)
    requires 1 <= i < |NamesWith(names, name)|
    ensures var r, names1 := Load(w, name, code, manifest, transitive, order), NamesWith(names, name);
      && r.Ok? && |names1| == |r.value.0.graph|
      && TextShows(r.value.0.texts, r.value.0.graph, names1, LoadedWith(loaded, name, code), i)
  {
    hide Linked, Load, Register, NeedsOf, Sound, Off, Links, OwnLinks, Indexed, LoadLinks, TextShows;
    var m, names1 := ManifestOf(name, manifest), NamesWith(names, name);
    OffName(w, name, code, m);
    RegisterWorks(w, names, ms, loaded, name, m, transitive);
    RegisterIndexed(w, names, ms, loaded, name, m, transitive, "", Touched(w.needed, name, code, m));
    LoadStages(w, names, ms, loaded, name, code, manifest, transitive, order);
    var (w1, file, crate) := Register(w, name, m, transitive).value;
    var w2 := Load(w, name, code, manifest, transitive, order).value.0;
    if i == crate {
      TextShowsNew(w2, names1, LoadedWith(loaded, name, code), crate, if code.Some? then code.value else "");
    } else {
      RootsDiffer(w1.(texts := w1.texts[file := ""]), names1, i, crate);
      TextOf(w, names, ms, loaded, i);
      TextShowsStill(w.texts, w.graph, names, loaded, i, w2.texts, w2.graph, names1, LoadedWith(loaded, name, code));
    }
  }

  lemma TextShowsNew(w: World, names: seq<string>, loaded: set<string>, i: nat, text: string)
    requires i < |names| == |w.graph| && w.graph[i].rootFile in w.texts && w.texts[w.graph[i].rootFile] == text
    requires text != "" <==> names[i] in loaded
    ensures TextShows(w.texts, w.graph, names, loaded, i)
  {}

  lemma TextOf(w: World, names: seq<string>, ms: Manifests, loaded: set<string>, i: nat)
    requires Linked(w, names, ms, loaded) && 1 <= i < |names|
    ensures |names| == |w.graph| && TextShows(w.texts, w.graph, names, loaded, i)
  {}

  /** The rest of the state after a load. */
  lemma HeadsAfterLoad(w: World, names: seq<string>, ms: Manifests, loaded: set<string>, name: string,
                       code: Option<string>, manifest: Option<Manifest>, transitive: bool, order: seq<string>)
    requires CanBegin(w, names, ms, loaded, name, code, manifest) && Enumerates(order, w.needed.Keys)
    ensures var r, names1 := Load(w, name, code, manifest, transitive, order), NamesWith(names, name);
      && r.Ok? && Sound(r.value.0.graph, names1, ms) && Indexed(r.value.0, names1)
      && r.value.0.needed.Keys == w.needed.Keys + {name}
      && w.roots != [] && r.value.0.roots != [] && r.value.0.roots[0] == w.roots[0]
  {
    hide Linked, Load, Register, NeedsOf, Sound, Off, Links, OwnLinks, Indexed, LoadLinks, Registered, GetFileId;
    var m, names1 := ManifestOf(name, manifest), NamesWith(names, name);
    OffName(w, name, code, m);
    RegisterWorks(w, names, ms, loaded, name, m, transitive);
    RegisterIndexed(w, names, ms, loaded, name, m, transitive, "", Touched(w.needed, name, code, m));
    LoadStages(w, names, ms, loaded, name, code, manifest, transitive, order);
    FoundIffRegistered(w, names, ms, loaded, name);
    LinkedIsIndexed(w, names, ms, loaded);
    LoadKeepsIndex(w, names, name, code, manifest, transitive, order);
  }

  lemma LinkedIsIndexed(w: World, names: seq<string>, ms: Manifests, loaded: set<string>)
    requires Linked(w, names, ms, loaded)
    ensures Indexed(w, names) && Acyclic(Wants(ms)) && |names| == |w.graph| >= 4
  {}

  lemma NeedsStayOwn(w: World, names: seq<string>, ms: Manifests, loaded: set<string>, name: string,
                     code: Option<string>, manifest: Option<Manifest>, transitive: bool, order: seq<string>, n: string)
    requires CanBegin(w, names, ms, loaded, name, code, manifest) && Enumerates(order, w.needed.Keys)
    requires n in w.needed || n == name
    ensures var r := Load(w, name, code, manifest, transitive, order);
      r.Ok? && n in r.value.0.needed && SetOf(r.value.0.needed[n]) <= DepsIn(ms, n)
  {
    hide Load, Indexed, Sound, TextShows, Off, NeedsOf;
    NeedsAfterLoad(w, names, ms, loaded, name, code, manifest, transitive, order, n);
    ManifestDeps(ms, name, manifest);
    var need := Load(w, name, code, manifest, transitive, order).value.0.needed[n];
    forall x | x in need ensures x in DepsIn(ms, n) {
      assert x in multiset(need);
      if n == name {
        NeedsOfCount(ManifestOf(name, manifest).dependencies, loaded, x);
      } else {
        assert x in multiset(w.needed[n]);
        assert x in SetOf(w.needed[n]);
      }
    }
  }

  /** A load that stays off the local files never panics, and leaves the state in order. */
  lemma LoadKeepsLinked(w: World, names: seq<string>, ms: Manifests, loaded: set<string>, name: string,
                        code: Option<string>, manifest: Option<Manifest>, transitive: bool, order: seq<string>)
    requires CanBegin(w, names, ms, loaded, name, code, manifest) && Enumerates(order, w.needed.Keys)
    ensures var r := Load(w, name, code, manifest, transitive, order);
      r.Ok? && Linked(r.value.0, NamesWith(names, name), ms, LoadedWith(loaded, name, code))
  {
    hide Sound, Load, TextShows, Indexed, SetOf, DepsIn, Off, LibraryNames, NamesWith, LoadedWith, Touched, Acyclic;
    HeadsAfterLoad(w, names, ms, loaded, name, code, manifest, transitive, order);
    var w2, names1 := Load(w, name, code, manifest, transitive, order).value.0, NamesWith(names, name);
    var loaded1 := LoadedWith(loaded, name, code);
    LinkedIsIndexed(w, names, ms, loaded);
    LibraryNamesWith(names, name);
    NamesGrow(names, loaded, name, code);
    forall i | 1 <= i < |names1| ensures |names1| == |w2.graph| && TextShows(w2.texts, w2.graph, names1, loaded1, i) {
      TextAfterLoad(w, names, ms, loaded, name, code, manifest, transitive, order, i);
    }
    forall n | n in w2.needed ensures SetOf(w2.needed[n]) <= DepsIn(ms, n) {
      NeedsStayOwn(w, names, ms, loaded, name, code, manifest, transitive, order, n);
    }
  }

  lemma NamesGrow(names: seq<string>, loaded: set<string>, name: string, code: Option<string>)
    requires |names| >= 4 && forall n :: n in loaded ==> n in names[1..]
    ensures |NamesWith(names, name)| >= 4
    ensures forall n :: n in LoadedWith(loaded, name, code) ==> n in NamesWith(names, name)[1..]
  {
    var names1 := NamesWith(names, name);
    forall n | n in loaded + {name} ensures n in names1[1..] {
      if n == name && name in LibraryNames(names) {
        var i := LibraryIndex(names, name);
        assert names1[1..][i - 1] == name;
      } else if n == name {
        assert names1[1..][|names| - 1] == name;
      } else {
        var i :| 0 <= i < |names[1..]| && names[1..][i] == n;
        assert names1[1..][i] == n;
      }
    }
  }

  // ---- the other calls ----

  lemma DefaultLinks(coreLib: string, allocLib: string, stdLib: string, ms: Manifests)
    ensures var w, names := DefaultWorld(coreLib, allocLib, stdLib), [LOCAL_NAME] + DEFAULTS;
      Sound(w.graph, names, ms) && Links(w.graph, names, 0) == SetOf(DEFAULTS)
  {
    var w, names := DefaultWorld(coreLib, allocLib, stdLib), [LOCAL_NAME] + DEFAULTS;
    var e := Edges(w.graph);
    assert e[0] == {1, 2, 3} by {
      assert w.graph[0].deps[0].crate == 1 && w.graph[0].deps[1].crate == 2 && w.graph[0].deps[2].crate == 3;
    }
    assert e[1] == {} && e[2] == {1} && e[3] == {1, 2} by {
      assert w.graph[2].deps[0].crate == 1 && w.graph[3].deps[0].crate == 1 && w.graph[3].deps[1].crate == 2;
    }
    assert names[1] == DEFAULTS[0] && names[2] == DEFAULTS[1] && names[3] == DEFAULTS[2];
  }

  /** The default crates that come with code. */
  ghost function Filled(coreLib: string, allocLib: string, stdLib: string): set<string> {
    set i: nat | i < 3 && [coreLib, allocLib, stdLib][i] != "" :: DEFAULTS[i]
  }

  lemma FilledIs(coreLib: string, allocLib: string, stdLib: string)
    ensures var f := Filled(coreLib, allocLib, stdLib);
      && f <= SetOf(DEFAULTS)
      && (DEFAULTS[0] in f <==> coreLib != "")
      && (DEFAULTS[1] in f <==> allocLib != "")
      && (DEFAULTS[2] in f <==> stdLib != "")
  {
    var libs := [coreLib, allocLib, stdLib];
    assert libs[0] == coreLib && libs[1] == allocLib && libs[2] == stdLib;
    assert DEFAULTS[0] != DEFAULTS[1] && DEFAULTS[0] != DEFAULTS[2] && DEFAULTS[1] != DEFAULTS[2];
  }

  lemma DefaultTexts(coreLib: string, allocLib: string, stdLib: string, i: nat)
    requires 1 <= i < 4
    ensures var w := DefaultWorld(coreLib, allocLib, stdLib);
      TextShows(w.texts, w.graph, [LOCAL_NAME] + DEFAULTS, Filled(coreLib, allocLib, stdLib), i)
  {
    hide Filled;
    FilledIs(coreLib, allocLib, stdLib);
    assert ([LOCAL_NAME] + DEFAULTS)[i] == DEFAULTS[i - 1];
  }

  lemma DefaultIsLinked(coreLib: string, allocLib: string, stdLib: string, ms: Manifests)
    requires Acyclic(Wants(ms))
    ensures Linked(DefaultWorld(coreLib, allocLib, stdLib), [LOCAL_NAME] + DEFAULTS, ms,
                   Filled(coreLib, allocLib, stdLib))
  {
    hide Filled, TextShows, Sound, Links, Indexed, Acyclic;
    var w, names := DefaultWorld(coreLib, allocLib, stdLib), [LOCAL_NAME] + DEFAULTS;
    DefaultIsIndexed(coreLib, allocLib, stdLib);
    DefaultLinks(coreLib, allocLib, stdLib, ms);
    FilledIs(coreLib, allocLib, stdLib);
    forall i | 1 <= i < 4 ensures TextShows(w.texts, w.graph, names, Filled(coreLib, allocLib, stdLib), i) {
      DefaultTexts(coreLib, allocLib, stdLib, i);
    }
    assert names[1..] == DEFAULTS;
    assert LibraryNames(names) == {};
  }

  lemma {:induction false} LocalSetIs(roots: Roots, files: seq<SourceFile>)
    ensures LocalSet(roots, files).files.Keys == set f | f in files :: f.path
  {
    if files != [] {
      LocalSetIs(roots, files[..|files| - 1]);
      assert files == files[..|files| - 1] + [files[|files| - 1]];
    }
  }

  /** Replacing the local files, whatever they are, changes nothing for the libraries. */
  lemma LocalKeepsLinked(w: World, names: seq<string>, ms: Manifests, loaded: set<string>, files: seq<SourceFile>)
    requires Linked(w, names, ms, loaded) && LoadLocal(w, files).Ok?
    ensures var w' := LoadLocal(w, files).value;
      && Linked(w', names, ms, loaded) && w'.graph == w.graph && w'.needed == w.needed
      && w'.roots != [] && w'.roots[0].files.Keys == set f | f in files :: f.path
  {
    hide LocalSet, LocalTexts, Sound, Indexed;
    var w' := LoadLocal(w, files).value;
    LoadLocalKeepsIndex(w, names, files);
    LinkedIsIndexed(w, names, ms, loaded);
    LocalSetIs(w.roots, files);
    forall i | 1 <= i < |names| ensures TextShows(w'.texts, w'.graph, names, loaded, i) {
      TextOf(w, names, ms, loaded, i);
      LocalSetIsLocal(w, names, files, i);
    }
  }
}
