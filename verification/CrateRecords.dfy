/** What a crate is recorded as: its package, whether it is a procedural macro, its text, and the names of its links. */
module CrateRecords {
  import opened Wrappers
  import opened Digraphs
  import opened CrateWorld
  import opened CrateIndex
  import opened CrateLoading
  import opened LazyLoading
  import opened LoadRuns

  // ---- linking leaves the records alone ----

  ghost predicate SameRecords(g: CrateGraph, h: CrateGraph) {
    |g| == |h| &&
    forall i :: 0 <= i < |g| ==> g[i].package == h[i].package && g[i].procMacro == h[i].procMacro
  }

  lemma LinkRecords(g: CrateGraph, roots: Roots, from: nat, name: string)
    requires from < |g| && Link(g, roots, from, name).Ok?
    ensures SameRecords(g, Link(g, roots, from, name).value)
  {
    hide Reach, Edges, GetCrateId;
  }

  lemma {:induction false} LinkAllRecords(g: CrateGraph, roots: Roots, from: nat, names: seq<string>)
    requires from < |g| && LinkAll(g, roots, from, names).Ok?
    ensures SameRecords(g, LinkAll(g, roots, from, names).value)
    decreases |names|
  {
    hide Link;
    if names != [] {
      LinkAllRecords(g, roots, from, names[..|names| - 1]);
      LinkRecords(LinkAll(g, roots, from, names[..|names| - 1]).value, roots, from, names[|names| - 1]);
    }
  }

  lemma {:induction false} LinkLoadedRecords(g: CrateGraph, roots: Roots, texts: map<nat, string>, from: nat,
                                             names: seq<string>)
    requires from < |g| && LinkLoaded(g, roots, texts, from, names).Ok?
    ensures SameRecords(g, LinkLoaded(g, roots, texts, from, names).value.0)
    decreases |names|
  {
    hide Link, IsLoaded;
    if names != [] {
      var before := LinkLoaded(g, roots, texts, from, names[..|names| - 1]).value.0;
      LinkLoadedRecords(g, roots, texts, from, names[..|names| - 1]);
      if IsLoaded(roots, texts, Snake(names[|names| - 1])) == Ok(true) {
        LinkRecords(before, roots, from, Snake(names[|names| - 1]));
      }
    }
  }

  lemma ResolveRecords(g: CrateGraph, roots: Roots, needed: map<string, seq<string>>, name: string, crate: nat,
                       waiting: string)
    requires waiting in needed && Resolve(g, roots, needed, name, crate, waiting).Ok?
    ensures SameRecords(g, Resolve(g, roots, needed, name, crate, waiting).value.0)
  {
    hide Reach, Edges, GetCrateId;
  }

  lemma {:induction false} ResolveAllRecords(g: CrateGraph, roots: Roots, needed: map<string, seq<string>>,
                                             name: string, crate: nat, order: seq<string>)
    requires forall n :: n in order ==> n in needed
    requires ResolveAll(g, roots, needed, name, crate, order).Ok?
    ensures SameRecords(g, ResolveAll(g, roots, needed, name, crate, order).value.0)
    decreases |order|
  {
    hide Resolve;
    if order != [] {
      var init, last := order[..|order| - 1], order[|order| - 1];
      assert forall n :: n in init ==> n in order;
      ResolveAllRecords(g, roots, needed, name, crate, init);
      var before := ResolveAll(g, roots, needed, name, crate, init).value;
      assert last in order;
      ResolveRecords(before.0, roots, before.1, name, crate, last);
    }
  }

  lemma LinkUpRecords(w: World, name: string, crate: nat, code: Option<string>, m: Manifest, order: seq<string>)
    requires crate < |w.graph| && Enumerates(order, w.needed.Keys)
    requires LinkUp(w, name, crate, code, m, order).Ok?
    ensures SameRecords(MarkProcMacro(w.graph, crate, code, m), LinkUp(w, name, crate, code, m, order).value.0)
  {
    hide LinkAll, LinkLoaded, ResolveAll;
    if code.Some? {
      LinkAllRecords(w.graph, w.roots, crate, DEFAULTS);
    }
    var g1 := if code.Some? then LinkAll(w.graph, w.roots, crate, DEFAULTS).value else w.graph;
    var marked := MarkProcMacro(g1, crate, code, m);
    LinkLoadedRecords(marked, w.roots, w.texts, crate, m.dependencies);
    var g2 := LinkLoaded(marked, w.roots, w.texts, crate, m.dependencies).value.0;
    ResolveAllRecords(g2, w.roots, w.needed, name, crate, order);
  }

  lemma RegisterRecords(w: World, name: string, m: Manifest, transitive: bool)
    requires Register(w, name, m, transitive).Ok?
    ensures var (w1, file, crate) := Register(w, name, m, transitive).value;
      && |w.graph| <= |w1.graph| <= |w.graph| + 1
      && (forall i :: 0 <= i < |w.graph| ==>
            w1.graph[i].package == w.graph[i].package && w1.graph[i].procMacro == w.graph[i].procMacro)
      && (|w1.graph| > |w.graph| ==> w1.graph[|w.graph|].package == m.package &&
                                     w1.graph[|w.graph|].procMacro == m.procMacro)
  {
    hide Reach, Edges, NextFileId, GetFileId, CrateOfRoot;
  }

  // ---- what a load records ----

  datatype Record = Record(package: string, procMacro: bool, text: string)

  ghost predicate Recorded(w: World, i: nat, r: Record) {
    && i < |w.graph| && w.graph[i].package == r.package && w.graph[i].procMacro == r.procMacro
    && w.graph[i].rootFile in w.texts && w.texts[w.graph[i].rootFile] == r.text
  }

  /** The record of a loaded crate: package and macro from its first manifest, macro also from later ones with code. */
  function Renewed(was: Option<Record>, code: Option<string>, m: Manifest): Record {
    var text := if code.Some? then code.value else "";
    if was.None? then Record(m.package, m.procMacro, text)
    else Record(was.value.package, was.value.procMacro || (code.Some? && m.procMacro), text)
  }

  lemma LoadRecordsRest(w: World, names: seq<string>, ms: Manifests, loaded: set<string>, name: string,
                        code: Option<string>, manifest: Option<Manifest>, transitive: bool, order: seq<string>)
    returns (w1: World, file: nat, crate: nat)
    requires CanBegin(w, names, ms, loaded, name, code, manifest) && Enumerates(order, w.needed.Keys)
    ensures var r := Load(w, name, code, manifest, transitive, order);
      var m, names1 := ManifestOf(name, manifest), NamesWith(names, name);
      && r.Ok? && Register(w, name, m, transitive) == Ok((w1, file, crate))
      && 4 <= crate < |names1| == |w1.graph| == |r.value.0.graph| && names1[crate] == name && |names| == |w.graph| >= 4
      && (|names1| == |names| || crate == |names| == |names1| - 1)
      && names == names1[..|names|]
      && SameCrates(w1.graph, r.value.0.graph)
      && SameRecords(MarkProcMacro(w1.graph, crate, code, m), r.value.0.graph)
      && r.value.0.texts == w.texts[w1.graph[crate].rootFile := if code.Some? then code.value else ""]
      && (forall i :: 0 <= i < |names| ==> w1.graph[i].rootFile == w.graph[i].rootFile)
      && (forall i :: 1 <= i < |names1| && i != crate ==> w1.graph[i].rootFile != w1.graph[crate].rootFile)
  {
    hide Linked, Register, LoadLinks, Sound, NeedsOf, Off, Links, Indexed, LinkUp, MarkProcMacro;
    var m, names1 := ManifestOf(name, manifest), NamesWith(names, name);
    OffName(w, name, code, m);
    RegisterWorks(w, names, ms, loaded, name, m, transitive);
    RegisterIndexed(w, names, ms, loaded, name, m, transitive, "", Touched(w.needed, name, code, m));
    LoadStages(w, names, ms, loaded, name, code, manifest, transitive, order);
    var reg := Register(w, name, m, transitive).value;
    w1, file, crate := reg.0, reg.1, reg.2;
    LinkUpRecords(w1, name, crate, code, m, order);
    forall i | 1 <= i < |names1| && i != crate ensures w1.graph[i].rootFile != w1.graph[crate].rootFile {
      RootsDiffer(w1.(texts := w1.texts[file := ""]), names1, i, crate);
    }
  }

  /** After a load, crate `i` has its old record, or a renewed one if it is the crate loaded. */
  lemma RecordAfterLoad(w: World, names: seq<string>, ms: Manifests, loaded: set<string>, name: string,
                        code: Option<string>, manifest: Option<Manifest>, transitive: bool, order: seq<string>,
                        i: nat, was: Option<Record>)
    requires CanBegin(w, names, ms, loaded, name, code, manifest) && Enumerates(order, w.needed.Keys)
    requires 1 <= i < |NamesWith(names, name)|
    requires if i < |names| then was.Some? && Recorded(w, i, was.value) else was.None?
    ensures var r := Load(w, name, code, manifest, transitive, order);
      r.Ok? && Recorded(r.value.0, i, if NamesWith(names, name)[i] == name && i >= 4
                                      then Renewed(was, code, ManifestOf(name, manifest)) else was.value)
  {
    var m := ManifestOf(name, manifest);
    var w1, file, crate := LoadRecordsRest(w, names, ms, loaded, name, code, manifest, transitive, order);
    hide Load, Register, CanBegin;
    RegisterRecords(w, name, m, transitive);
    OneOfTheName(w, names, ms, loaded, name, code, manifest, transitive, order, crate, i);
  }

  lemma OneOfTheName(w: World, names: seq<string>, ms: Manifests, loaded: set<string>, name: string,
                     code: Option<string>, manifest: Option<Manifest>, transitive: bool, order: seq<string>,
                     crate: nat, i: nat)
    requires CanBegin(w, names, ms, loaded, name, code, manifest) && Enumerates(order, w.needed.Keys)
    requires 1 <= i < |NamesWith(names, name)| && 4 <= crate < |NamesWith(names, name)|
    requires NamesWith(names, name)[crate] == name
    ensures NamesWith(names, name)[i] == name <==> i == crate
  {
    hide Linked, Load, Sound, Off, Links;
    HeadsAfterLoad(w, names, ms, loaded, name, code, manifest, transitive, order);
    var w2 := Load(w, name, code, manifest, transitive, order).value.0;
    if i != crate {
      RootsDiffer(w2, NamesWith(names, name), i, crate);
    }
  }

  // ---- whole runs ----

  /** The record of `n` by the calls: renewed by every call that names it. */
  ghost function RecordOf(u: Setup, calls: seq<Call>, n: string): Option<Record> {
    if calls == [] then None else
    var before, c := RecordOf(u, calls[..|calls| - 1], n), calls[|calls| - 1];
    if Names(c, n) then Some(Renewed(before, c.code, ManifestOf(n, ManifestFor(u, c)))) else before
  }

  ghost predicate RecordsMatch(u: Setup, w: World, calls: seq<Call>, names: seq<string>) {
    && |names| >= 4
    && (forall i :: 1 <= i < 4 ==> Recorded(w, i, Record(names[i], false, [u.coreLib, u.allocLib, u.stdLib][i - 1])))
    && (forall i :: 4 <= i < |names| ==>
          RecordOf(u, calls, names[i]).Some? && Recorded(w, i, RecordOf(u, calls, names[i]).value))
  }

  lemma RecordMore(u: Setup, calls: seq<Call>, c: Call, n: string)
    ensures RecordOf(u, calls + [c], n) ==
            if Names(c, n) then Some(Renewed(RecordOf(u, calls, n), c.code, ManifestOf(n, ManifestFor(u, c))))
            else RecordOf(u, calls, n)
  {
    assert (calls + [c])[..|calls|] == calls;
  }

  lemma {:induction false} UnnamedHasNone(u: Setup, calls: seq<Call>, n: string)
    requires n !in NamedBy(calls)
    ensures RecordOf(u, calls, n).None?
  {
    if calls != [] {
      var before, c := calls[..|calls| - 1], calls[|calls| - 1];
      assert calls == before + [c];
      NamedByAdd(before, c);
      UnnamedHasNone(u, before, n);
    }
  }

  lemma LoadKeepsRecords(u: Setup, w: World, w': World, names: seq<string>, calls: seq<Call>, c: Call)
    requires Tracks(u, w, calls, names) && LegalCall(u, calls, c) && Leads(u, w, c, w') && c.LoadCrate?
    requires RecordsMatch(u, w, calls, names)
    ensures RecordsMatch(u, w', calls + [c], NamesWith(names, c.name))
  {
    hide Load, Linked, Waiting, LinkedTo, DirectBy, Links, Have, NamedBy, LocalPaths, CanBegin, LegalCall, Recorded,
      Renewed;
    var names1 := NamesWith(names, c.name);
    LegalBegins(u, w, names, calls, c);
    forall i | 1 <= i < 4
      ensures Recorded(w', i, Record(names1[i], false, [u.coreLib, u.allocLib, u.stdLib][i - 1]))
    {
      RecordAfterLoad(w, names, u.ms, Have(u, calls), c.name, c.code, ManifestFor(u, c), c.transitive, c.order, i,
                      Some(Record(names[i], false, [u.coreLib, u.allocLib, u.stdLib][i - 1])));
    }
    forall i | 4 <= i < |names1|
      ensures RecordOf(u, calls + [c], names1[i]).Some?
      ensures Recorded(w', i, RecordOf(u, calls + [c], names1[i]).value)
    {
      RecordMore(u, calls, c, names1[i]);
      if i >= |names| {
        UnnamedHasNone(u, calls, c.name);
      }
      RecordAfterLoad(w, names, u.ms, Have(u, calls), c.name, c.code, ManifestFor(u, c), c.transitive, c.order, i,
                      RecordOf(u, calls, names1[i]));
    }
  }

  lemma FilesKeepRecords(u: Setup, w: World, w': World, names: seq<string>, calls: seq<Call>, c: Call)
    requires Tracks(u, w, calls, names) && Leads(u, w, c, w') && c.LoadFiles? && RecordsMatch(u, w, calls, names)
    ensures RecordsMatch(u, w', calls + [c], names)
  {
    hide Linked, Waiting, LinkedTo, DirectBy, Links, Have, NamedBy, LocalPaths, LoadLocal, Indexed;
    TracksNeeds(u, w, names, calls);
    LoadLocalKeepsIndex(w, names, c.files);
    forall n ensures RecordOf(u, calls + [c], n) == RecordOf(u, calls, n) {
      RecordMore(u, calls, c, n);
    }
  }

  ghost predicate InRecord(u: Setup, w: World, calls: seq<Call>) {
    exists names :: Tracks(u, w, calls, names) && RecordsMatch(u, w, calls, names)
  }

  lemma StartRecord(u: Setup, i: nat)
    requires 1 <= i < 4
    ensures Recorded(u.Start(), i,
                     Record(([LOCAL_NAME] + DEFAULTS)[i], false, [u.coreLib, u.allocLib, u.stdLib][i - 1]))
  {
    DefaultWorldIs(u.coreLib, u.allocLib, u.stdLib);
    hide DefaultWorld;
    var names, w := [LOCAL_NAME] + DEFAULTS, u.Start();
    assert names[1] == "core" && names[2] == "alloc" && names[3] == "std";
    assert w.graph[i].rootFile == i && w.graph[i].package == names[i] && !w.graph[i].procMacro;
  }

  lemma StartInRecord(u: Setup)
    requires u.Good()
    ensures InRecord(u, u.Start(), [])
  {
    hide Tracks, Recorded, DefaultWorld;
    var names := [LOCAL_NAME] + DEFAULTS;
    StartTracks(u);
    forall i | 1 <= i < 4
      ensures Recorded(u.Start(), i, Record(names[i], false, [u.coreLib, u.allocLib, u.stdLib][i - 1]))
    {
      StartRecord(u, i);
    }
    assert RecordsMatch(u, u.Start(), [], names);
  }

  /**
    After every call of every run: the package and macro flag of every crate are those of its first manifest, the flag
    also set by later manifests with code; its text is that of its last call; the default crates stay as they came.
   */
  lemma {:induction false} RunKeepsRecords(u: Setup, ws: seq<World>, calls: seq<Call>, k: nat)
    requires u.Good() && IsLoadRun(u, ws, calls) && k <= |calls|
    ensures InRecord(u, ws[k], calls[..k])
  {
    hide LegalCall, Leads, Tracks, RecordsMatch;
    if k == 0 {
      StartInRecord(u);
      assert calls[..0] == [];
    } else {
      RunKeepsRecords(u, ws, calls, k - 1);
      var before, c := calls[..k - 1], calls[k - 1];
      var names :| Tracks(u, ws[k - 1], before, names) && RecordsMatch(u, ws[k - 1], before, names);
      assert calls[..k] == before + [c];
      if c.LoadCrate? {
        LoadTracks(u, ws[k - 1], ws[k], names, before, c);
        LoadKeepsRecords(u, ws[k - 1], ws[k], names, before, c);
      } else {
        FilesTrack(u, ws[k - 1], ws[k], names, before, c);
        FilesKeepRecords(u, ws[k - 1], ws[k], names, before, c);
      }
    }
  }

  /** The call at `j` makes `n` a procedural macro: its manifest says so, and it comes first for `n` or has code. */
  ghost predicate MakesMacro(u: Setup, calls: seq<Call>, n: string, j: nat) {
    && j < |calls| && Names(calls[j], n) && ManifestOf(n, ManifestFor(u, calls[j])).procMacro
    && (calls[j].code.Some? || n !in NamedBy(calls[..j]))
  }

  /** A crate is a procedural macro exactly when one of its calls makes it one. */
  lemma {:induction false} MacroIff(u: Setup, calls: seq<Call>, n: string)
    requires n in NamedBy(calls)
    ensures RecordOf(u, calls, n).Some?
    ensures RecordOf(u, calls, n).value.procMacro <==> exists j :: MakesMacro(u, calls, n, j)
  {
    var before, c := calls[..|calls| - 1], calls[|calls| - 1];
    assert calls == before + [c];
    NamedByAdd(before, c);
    forall j | 0 <= j < |before| ensures MakesMacro(u, calls, n, j) <==> MakesMacro(u, before, n, j) {
      assert calls[..j] == before[..j] && calls[j] == before[j];
    }
    assert calls[..|before|] == before;
    if n in NamedBy(before) {
      MacroIff(u, before, n);
      if j :| MakesMacro(u, before, n, j) {
        assert MakesMacro(u, calls, n, j);
      }
    } else {
      UnnamedHasNone(u, before, n);
      forall j | 0 <= j < |before| ensures !Names(before[j], n) {
        assert before[j] in before;
      }
    }
    if RecordOf(u, calls, n).value.procMacro && !(n in NamedBy(before) && RecordOf(u, before, n).value.procMacro) {
      assert MakesMacro(u, calls, n, |before|);
    }
  }

  // ---- the names of the links ----

  /** In every state of every run, each dependency of each crate goes by the name of the crate it leads to. */
  lemma DependenciesAreNamed(u: Setup, ws: seq<World>, calls: seq<Call>, k: nat) returns (names: seq<string>)
    requires u.Good() && IsLoadRun(u, ws, calls) && k <= |calls|
    ensures Indexed(ws[k], names) && LibraryNames(names) == NamedBy(calls[..k])
    ensures var g := ws[k].graph;
      forall i, d :: 0 <= i < |g| && 0 <= d < |g[i].deps| ==>
        g[i].deps[d].crate < |names| && g[i].deps[d].name == names[g[i].deps[d].crate]
  {
    hide Leads, LegalCall, Waiting, LinkedTo, Have, Links, NamedBy, DirectBy, LocalPaths;
    RunStaysInStep(u, ws, calls, k);
    names :| Tracks(u, ws[k], calls[..k], names);
  }

  // ---- what a load answers ----

  /** The dependencies without code, in the order of the manifest. */
  function NeedsInOrder(deps: seq<string>, loaded: set<string>): seq<string> {
    if deps == [] then []
    else if Snake(deps[0]) in loaded then NeedsInOrder(deps[1..], loaded)
    else [Snake(deps[0])] + NeedsInOrder(deps[1..], loaded)
  }

  lemma {:induction false} NeedsInOrderLast(deps: seq<string>, d: string, loaded: set<string>)
    ensures NeedsInOrder(deps + [d], loaded) ==
            NeedsInOrder(deps, loaded) + if Snake(d) in loaded then [] else [Snake(d)]
  {
    if deps == [] {
      assert [] + [d] == [d] && [d][1..] == [];
    } else {
      assert (deps + [d])[1..] == deps[1..] + [d];
      NeedsInOrderLast(deps[1..], d, loaded);
    }
  }

  lemma {:induction false} LinkLoadedOrder(g: CrateGraph, roots: Roots, texts: map<nat, string>, from: nat,
                                           deps: seq<string>, loaded: set<string>)
    requires from < |g| && LinkLoaded(g, roots, texts, from, deps).Ok?
    requires forall d :: d in deps ==> IsLoaded(roots, texts, Snake(d)) == Ok(Snake(d) in loaded)
    ensures LinkLoaded(g, roots, texts, from, deps).value.1 == NeedsInOrder(deps, loaded)
    decreases |deps|
  {
    hide Link, IsLoaded, Snake;
    if deps != [] {
      var init, last := deps[..|deps| - 1], deps[|deps| - 1];
      assert deps == init + [last] && last in deps;
      LinkLoadedOrder(g, roots, texts, from, init, loaded);
      NeedsInOrderLast(init, last, loaded);
    }
  }

  /** A load answers with the dependencies it found without code, in order, and records the same list. */
  lemma LoadAnswers(w: World, names: seq<string>, ms: Manifests, loaded: set<string>, name: string,
                    code: Option<string>, manifest: Option<Manifest>, transitive: bool, order: seq<string>)
    requires CanBegin(w, names, ms, loaded, name, code, manifest) && Enumerates(order, w.needed.Keys)
    ensures var r := Load(w, name, code, manifest, transitive, order);
      && r.Ok? && name in r.value.0.needed
      && r.value.1 == r.value.0.needed[name] == NeedsInOrder(ManifestOf(name, manifest).dependencies, loaded)
  {
    hide Linked, Register, Sound, Off, Links, Indexed, LinkAll, LinkLoaded, ResolveAll, IsLoaded, NeedsInOrder,
      Resolves, CanLink, WaiterOk, MarkProcMacro, Touched, LoadedAs;
    var m, names1 := ManifestOf(name, manifest), NamesWith(names, name);
    LoadStages(w, names, ms, loaded, name, code, manifest, transitive, order);
    LoadIsReady(w, names, ms, loaded, name, code, manifest, transitive);
    var (w1, file, crate) := Register(w, name, m, transitive).value;
    var g1 := if code.Some? then LinkAll(w1.graph, w1.roots, crate, DEFAULTS).value else w1.graph;
    LinkLoadedOrder(MarkProcMacro(g1, crate, code, m), w1.roots, w1.texts, crate, m.dependencies, loaded);
  }

  // ---- the local files ----

  lemma {:induction false} LocalSetMaps(roots: Roots, files: seq<SourceFile>, f: SourceFile)
    requires f in files
    ensures f.path in LocalSet(roots, files).files && LocalSet(roots, files).files[f.path] == LocalId(roots, f.path)
    decreases |files|
  {
    hide LocalId;
    var init, last := files[..|files| - 1], files[|files| - 1];
    if f.path != last.path {
      LocalSetMaps(roots, init, f);
    }
  }

  lemma {:induction false} LastTextStays(roots: Roots, texts: map<nat, string>, files: seq<SourceFile>, k: nat)
    requires k < |files|
    requires forall j :: k < j < |files| ==> LocalId(roots, files[j].path) != LocalId(roots, files[k].path)
    ensures var id := LocalId(roots, files[k].path);
      id in LocalTexts(roots, texts, files) && LocalTexts(roots, texts, files)[id] == files[k].content
    decreases |files|
  {
    hide LocalId;
    if k < |files| - 1 {
      LastTextStays(roots, texts, files[..|files| - 1], k);
    }
  }

  /** Every local file is found under its path, with its own text unless a later file of the call has the same id. */
  lemma LocalFilesAreRead(w: World, files: seq<SourceFile>, k: nat)
    requires LoadLocal(w, files).Ok? && k < |files|
    ensures var w', id := LoadLocal(w, files).value, LocalId(w.roots, files[k].path);
      && FileForPath(w'.roots, files[k].path) == Some(id)
      && ((forall j :: k < j < |files| ==> LocalId(w.roots, files[j].path) != id) ==>
            id in w'.texts && w'.texts[id] == files[k].content)
  {
    hide LocalId, LocalSet, LocalTexts;
    LocalSetMaps(w.roots, files, files[k]);
    var id := LocalId(w.roots, files[k].path);
    if forall j :: k < j < |files| ==> LocalId(w.roots, files[j].path) != id {
      LastTextStays(w.roots, w.texts, files, k);
    }
  }

  /** Loading local files fails exactly on a path that is not virtual, or without any root. */
  lemma LocalFails(w: World, files: seq<SourceFile>)
    ensures LoadLocal(w, files).Err? <==> w.roots == [] || exists f :: f in files && (f.path == "" || f.path[0] != '/')
  {}
}
