/**
  The lazily loaded crate graph behind the playground's Rust analysis: source roots, file texts, the
  crate graph, and the dependencies each crate is still waiting for.
 */
module CrateWorld {
  import opened Wrappers
  import opened Digraphs

  // ---- paths and file sets ----

  const LOCAL_FILE: nat := 0
  const LOCAL_CRATE: nat := 0
  const LOCAL_NAME := "solpg"

  function CratePath(name: string): string {
    "/" + name + "/src/lib.rs"
  }

  /** The last index of `c` before `n`, or -1. */
  function LastBefore(s: string, c: char, n: nat): (r: int)
    requires n <= |s|
    ensures -1 <= r < n
    ensures r >= 0 ==> s[r] == c
    ensures forall i :: r < i < n ==> s[i] != c
  {
    if n == 0 then -1 else if s[n - 1] == c then n - 1 else LastBefore(s, c, n - 1)
  }

  /**
    The file name of a virtual path, up to its last dot, is `lib`. One trailing slash is ignored, and a
    dot in front of the whole name does not start an extension.
   */
  predicate IsLib(path: string) {
    var n := if |path| > 0 && path[|path| - 1] == '/' then |path| - 1 else |path|;
    var start, dot := LastBefore(path, '/', n) + 1, LastBefore(path, '.', n);
    var end := if dot > start then dot else n;
    end - start == 3 && path[start] == 'l' && path[start + 1] == 'i' && path[start + 2] == 'b'
  }

  /** A file set is indexed both ways; two paths may share an id. */
  datatype FileSet = FileSet(files: map<string, nat>, paths: map<nat, string>) {
    function Insert(id: nat, path: string): FileSet {
      FileSet(files[path := id], paths[id := path])
    }
  }

  const NO_FILES := FileSet(map[], map[])

  type Roots = seq<FileSet>

  function LibraryRoot(name: string, id: nat): FileSet {
    NO_FILES.Insert(id, CratePath(name))
  }

  /** The first source root that knows the path answers. */
  function FileForPath(roots: Roots, path: string): Option<nat> {
    if roots == [] then None
    else if path in roots[0].files then Some(roots[0].files[path])
    else FileForPath(roots[1..], path)
  }

  function GetFileId(name: string, roots: Roots): Option<nat> {
    FileForPath(roots, CratePath(name))
  }

  lemma {:induction false} FindMax(ids: set<nat>) returns (m: nat)
    requires ids != {}
    ensures m in ids && forall j :: j in ids ==> j <= m
    decreases |ids|
  {
    var x :| x in ids;
    m := x;
    if ids != {x} {
      var other := FindMax(ids - {x});
      m := if other > x then other else x;
      forall j | j in ids ensures j <= m {
        assert j == x || j in ids - {x};
      }
    }
  }

  lemma HasMax(ids: set<nat>)
    requires ids != {}
    ensures exists m :: m in ids && forall j :: j in ids ==> j <= m
  {
    var _ := FindMax(ids);
  }

  function MaxId(ids: set<nat>): (m: nat)
    ensures forall i :: i in ids ==> i <= m
    ensures if ids == {} then m == 0 else m in ids
  {
    if ids == {} then 0 else
    HasMax(ids);
    var m :| m in ids && forall j :: j in ids ==> j <= m;
    m
  }

  function FileIds(roots: Roots): set<nat> {
    set i, id | 0 <= i < |roots| && id in roots[i].paths :: id
  }

  function LastFileId(roots: Roots): nat {
    MaxId(FileIds(roots))
  }

  function NextFileId(roots: Roots): nat {
    LastFileId(roots) + 1
  }

  // ---- the crate graph ----

  datatype Dependency = Dependency(name: string, crate: nat)

  datatype CrateData = CrateData(rootFile: nat, package: string, deps: seq<Dependency>, procMacro: bool)

  /** Crate ids are positions. */
  type CrateGraph = seq<CrateData>

  datatype Fault = Cyclic | BadName | BadPath | NoCrate | NoText | NoRoot

  function Edges(g: CrateGraph): Digraph<nat> {
    map i: nat | i < |g| :: set k | 0 <= k < |g[i].deps| :: g[i].deps[k].crate
  }

  /** The same crates with the same root files; only dependencies differ. */
  ghost predicate SameCrates(g: CrateGraph, h: CrateGraph) {
    |g| == |h| && forall i :: 0 <= i < |g| ==> g[i].rootFile == h[i].rootFile
  }

  /** Add a dependency, unless the depending crate can already be reached from it. */
  function AddDep(g: CrateGraph, from: nat, dep: Dependency): Result<CrateGraph, Fault>
    requires from < |g|
  {
    if from in Reach(Edges(g), {dep.crate}) then Err(Cyclic)
    else Ok(g[from := g[from].(deps := g[from].deps + [dep])])
  }

  lemma AddDepAddsEdge(g: CrateGraph, from: nat, dep: Dependency)
    requires from < |g| && AddDep(g, from, dep).Ok?
    ensures Edges(AddDep(g, from, dep).value) == AddEdge(Edges(g), from, dep.crate)
  {
    var g' := AddDep(g, from, dep).value;
    var before, after := g[from].deps, g'[from].deps;
    assert forall k :: 0 <= k < |before| ==> after[k] == before[k];
    assert Edges(g')[from] == Edges(g)[from] + {dep.crate} by {
      assert after[|before|] == dep;
    }
  }

  /** Dependencies are refused exactly when they would close a cycle. */
  lemma AddDepRefusesCycles(g: CrateGraph, from: nat, dep: Dependency)
    requires from < |g| && Acyclic(Edges(g))
    ensures AddDep(g, from, dep).Ok? <==> Acyclic(AddEdge(Edges(g), from, dep.crate))
    ensures AddDep(g, from, dep).Ok? ==> Acyclic(Edges(AddDep(g, from, dep).value))
  {
    AddEdgeAcyclic(Edges(g), from, dep.crate);
    if AddDep(g, from, dep).Ok? {
      AddDepAddsEdge(g, from, dep);
    }
  }

  /** A dependency is accepted when a set closed under dependencies holds its target but not its source. */
  lemma AcceptedBy(g: CrateGraph, from: nat, dep: Dependency, c: set<nat>)
    requires from < |g| && from !in c && dep.crate in c && Next(Edges(g), c) <= c
    ensures AddDep(g, from, dep).Ok?
  {
    ReachWithin(Edges(g), {dep.crate}, c);
  }

  /** The crate whose root is the given file. */
  function CrateOfRoot(g: CrateGraph, file: nat): (r: Option<nat>)
    ensures r.Some? ==> r.value < |g| && g[r.value].rootFile == file
    ensures r.None? ==> forall i :: 0 <= i < |g| ==> g[i].rootFile != file
  {
    if g == [] then None
    else if g[|g| - 1].rootFile == file then Some(|g| - 1)
    else CrateOfRoot(g[..|g| - 1], file)
  }

  function GetCrateId(name: string, roots: Roots, g: CrateGraph): (r: Option<nat>)
    ensures r.Some? ==> r.value < |g|
  {
    var file := GetFileId(name, roots);
    if file.None? then None else CrateOfRoot(g, file.value)
  }

  // ---- the state and its operations ----

  datatype World = World(roots: Roots, graph: CrateGraph, needed: map<string, seq<string>>, texts: map<nat, string>)

  datatype Manifest = Manifest(package: string, dependencies: seq<string>, procMacro: bool)

  const DEFAULTS := ["core", "alloc", "std"]

  function Snake(name: string): string {
    seq(|name|, i requires 0 <= i < |name| => if name[i] == '-' then '_' else name[i])
  }

  predicate IsCrateName(name: string) {
    '-' !in name
  }

  /** Make crate `from` depend on the loaded crate called `name`. */
  function Link(g: CrateGraph, roots: Roots, from: nat, name: string): (r: Result<CrateGraph, Fault>)
    requires from < |g|
    ensures r.Ok? ==> SameCrates(g, r.value)
  {
    if !IsCrateName(name) then Err(BadName) else
    var id := GetCrateId(name, roots, g);
    if id.None? then Err(NoCrate) else AddDep(g, from, Dependency(name, id.value))
  }

  function LinkAll(g: CrateGraph, roots: Roots, from: nat, names: seq<string>): (r: Result<CrateGraph, Fault>)
    requires from < |g|
    ensures r.Ok? ==> SameCrates(g, r.value)
  {
    if names == [] then Ok(g) else
    var before :- LinkAll(g, roots, from, names[..|names| - 1]);
    Link(before, roots, from, names[|names| - 1])
  }

  /** The dependency is loaded: its root file has text. Reading a text that was never set is a fault. */
  function IsLoaded(roots: Roots, texts: map<nat, string>, name: string): Result<bool, Fault> {
    var file := GetFileId(name, roots);
    if file.None? then Ok(false)
    else if file.value !in texts then Err(NoText)
    else Ok(texts[file.value] != "")
  }

  /** Link the loaded dependencies; collect the others. */
  function LinkLoaded(g: CrateGraph, roots: Roots, texts: map<nat, string>, from: nat, names: seq<string>)
    : (r: Result<(CrateGraph, seq<string>), Fault>)
    requires from < |g|
    ensures r.Ok? ==> SameCrates(g, r.value.0)
  {
    if names == [] then Ok((g, [])) else
    var before :- LinkLoaded(g, roots, texts, from, names[..|names| - 1]);
    var name := Snake(names[|names| - 1]);
    var loaded :- IsLoaded(roots, texts, name);
    if loaded then
      var linked :- Link(before.0, roots, from, name);
      Ok((linked, before.1))
    else
      Ok((before.0, before.1 + [name]))
  }

  function RemoveFirst(s: seq<string>, x: string): seq<string> {
    if s == [] then []
    else if s[0] == x then s[1..]
    else [s[0]] + RemoveFirst(s[1..], x)
  }

  /** Give `crate` to one crate that was waiting for `name`. */
  function Resolve(g: CrateGraph, roots: Roots, needed: map<string, seq<string>>, name: string, crate: nat,
                   waiting: string)
    : (r: Result<(CrateGraph, map<string, seq<string>>), Fault>)
    requires waiting in needed
    ensures r.Ok? ==> SameCrates(g, r.value.0) && r.value.1.Keys == needed.Keys
  {
    if name !in needed[waiting] then Ok((g, needed)) else
    var id := GetCrateId(waiting, roots, g);
    if id.None? then Err(NoCrate)
    else if !IsCrateName(name) then Err(BadName)
    else
      var linked :- AddDep(g, id.value, Dependency(name, crate));
      Ok((linked, needed[waiting := RemoveFirst(needed[waiting], name)]))
  }

  /** Walk the waiting crates in the order given. */
  function ResolveAll(g: CrateGraph, roots: Roots, needed: map<string, seq<string>>, name: string, crate: nat,
                      order: seq<string>)
    : (r: Result<(CrateGraph, map<string, seq<string>>), Fault>)
    requires forall n :: n in order ==> n in needed
    ensures r.Ok? ==> SameCrates(g, r.value.0) && r.value.1.Keys == needed.Keys
  {
    if order == [] then Ok((g, needed)) else
    assert forall n :: n in order[..|order| - 1] ==> n in order;
    var before :- ResolveAll(g, roots, needed, name, crate, order[..|order| - 1]);
    Resolve(before.0, roots, before.1, name, crate, order[|order| - 1])
  }

  /** The root file and crate of a dependency, registering it on first sight. */
  function Register(w: World, name: string, manifest: Manifest, transitive: bool)
    : (r: Result<(World, nat, nat), Fault>)
    ensures r.Ok? ==> r.value.2 < |r.value.0.graph|
    ensures r.Ok? ==> r.value.0.needed == w.needed && r.value.0.texts == w.texts
  {
    var known := GetFileId(name, w.roots);
    if known.Some? then
      var id := CrateOfRoot(w.graph, known.value);
      if id.None? then Err(NoCrate) else Ok((w, known.value, id.value))
    else
      var file, crate := NextFileId(w.roots), |w.graph|;
      var roots := w.roots + [LibraryRoot(name, file)];
      var graph := w.graph + [CrateData(file, manifest.package, [], manifest.procMacro)];
      if transitive then Ok((w.(roots := roots, graph := graph), file, crate))
      else if !IsCrateName(name) then Err(BadName)
      else if |w.graph| == 0 then Err(NoCrate)
      else
        var linked :- AddDep(graph, LOCAL_CRATE, Dependency(name, crate));
        Ok((w.(roots := roots, graph := linked), file, crate))
  }

  function NoManifest(name: string): Manifest {
    Manifest(name, [], false)
  }

  function MarkProcMacro(g: CrateGraph, crate: nat, code: Option<string>, manifest: Manifest): CrateGraph
    requires crate < |g|
  {
    if code.Some? && manifest.procMacro then g[crate := g[crate].(procMacro := true)] else g
  }

  ghost predicate Enumerates(order: seq<string>, keys: set<string>) {
    && (forall i, j :: 0 <= i < j < |order| ==> order[i] != order[j])
    && (forall n :: n in order <==> n in keys)
  }

  /** Link a registered crate: the default crates if it has code, its dependencies, and who waits for it. */
  ghost function LinkUp(w: World, name: string, crate: nat, code: Option<string>, m: Manifest, order: seq<string>)
    : (r: Result<(CrateGraph, map<string, seq<string>>, seq<string>), Fault>)
    requires crate < |w.graph| && Enumerates(order, w.needed.Keys)
    ensures r.Ok? ==> SameCrates(w.graph, r.value.0)
  {
    var g1 :- if code.Some? then LinkAll(w.graph, w.roots, crate, DEFAULTS) else Ok(w.graph);
    var g2 :- LinkLoaded(MarkProcMacro(g1, crate, code, m), w.roots, w.texts, crate, m.dependencies);
    var g3 :- ResolveAll(g2.0, w.roots, w.needed, name, crate, order);
    Ok((g3.0, g3.1, g2.1))
  }

  /** Load one dependency; the result is the new state and what the crate still needs. */
  ghost function Load(w: World, name: string, code: Option<string>, manifest: Option<Manifest>, transitive: bool,
                      order: seq<string>)
    : Result<(World, seq<string>), Fault>
    requires Enumerates(order, w.needed.Keys)
  {
    var m := if manifest.Some? then manifest.value else NoManifest(name);
    var reg :- Register(w, name, m, transitive);
    var (w1, file, crate) := reg;
    var linked :- LinkUp(w1, name, crate, code, m, order);
    var text := if code.Some? then code.value else "";
    Ok((World(w1.roots, linked.0, linked.1[name := linked.2], w1.texts[file := text]), linked.2))
  }

  // ---- the local crate's files ----

  datatype SourceFile = SourceFile(path: string, content: string)

  /**
    The id a local file gets: the library root keeps its fixed id, a known path keeps its id, and any
    other path gets the next free id of the roots as they were before the call.
   */
  function LocalId(roots: Roots, path: string): nat {
    if IsLib(path) then LOCAL_FILE else
    var known := FileForPath(roots, path);
    if known.Some? then known.value else NextFileId(roots)
  }

  function LocalSet(roots: Roots, files: seq<SourceFile>): FileSet {
    if files == [] then NO_FILES else
    var f := files[|files| - 1];
    LocalSet(roots, files[..|files| - 1]).Insert(LocalId(roots, f.path), f.path)
  }

  function LocalTexts(roots: Roots, texts: map<nat, string>, files: seq<SourceFile>): map<nat, string> {
    if files == [] then texts else
    var f := files[|files| - 1];
    LocalTexts(roots, texts, files[..|files| - 1])[LocalId(roots, f.path) := f.content]
  }

  predicate IsVirtual(f: SourceFile) {
    |f.path| > 0 && f.path[0] == '/'
  }

  /** Replace the local root by the given files. */
  function LoadLocal(w: World, files: seq<SourceFile>): Result<World, Fault> {
    if exists f :: f in files && !IsVirtual(f) then Err(BadPath)
    else if w.roots == [] then Err(NoRoot)
    else Ok(w.(roots := w.roots[0 := LocalSet(w.roots, files)], texts := LocalTexts(w.roots, w.texts, files)))
  }

  // ---- the default crates ----

  const EMPTY := World([], [], map[], map[])

  function CoreDep(k: nat): Dependency {
    Dependency("core", k + 1)
  }

  function AllocDep(k: nat): Dependency {
    Dependency("alloc", k + 2)
  }

  function StdDep(k: nat): Dependency {
    Dependency("std", k + 3)
  }

  function DefaultRoots(): Roots {
    [NO_FILES.Insert(LOCAL_FILE, CratePath(LOCAL_NAME)),
     LibraryRoot("core", 1), LibraryRoot("alloc", 2), LibraryRoot("std", 3)]
  }

  /** The four default crates with the given dependencies. */
  function DefaultCrates(local: seq<Dependency>, alloc: seq<Dependency>, std: seq<Dependency>): CrateGraph {
    [CrateData(0, LOCAL_NAME, local, false), CrateData(1, "core", [], false),
     CrateData(2, "alloc", alloc, false), CrateData(3, "std", std, false)]
  }

  /** The default crates as the crates from number `k` on. */
  function DefaultCratesFrom(k: nat): CrateGraph {
    DefaultCrates([CoreDep(k), AllocDep(k), StdDep(k)], [CoreDep(k)], [CoreDep(k), AllocDep(k)])
  }

  /** Loading the default crates replaces the roots, and appends to the graph. */
  function LoadDefaults(w: World, coreLib: string, allocLib: string, stdLib: string): World {
    World(DefaultRoots(), w.graph + DefaultCratesFrom(|w.graph|), w.needed,
          w.texts + map[0 := "", 1 := coreLib, 2 := allocLib, 3 := stdLib])
  }

  function DefaultWorld(coreLib: string, allocLib: string, stdLib: string): World {
    LoadDefaults(EMPTY, coreLib, allocLib, stdLib)
  }

  lemma DefaultWorldIs(coreLib: string, allocLib: string, stdLib: string)
    ensures var w := DefaultWorld(coreLib, allocLib, stdLib);
      && w.roots == DefaultRoots() && w.graph == DefaultCratesFrom(0) && w.needed == map[]
      && w.texts == map[0 := "", 1 := coreLib, 2 := allocLib, 3 := stdLib]
  {}
}
