/** Names, files and crates always agree: what every sequence of loads keeps, whatever its arguments. */
module CrateIndex {
  import opened Wrappers
  import opened Digraphs
  import opened CrateWorld
  import opened WorldState

  /**
    Crate `i` of the graph is source root `i`. Library roots hold one file each, under distinct paths and
    ids that the local root never uses; the local root's library file has id 0.
   */
  ghost predicate Indexed(w: World, names: seq<string>) {
    && |names| == |w.roots| == |w.graph| >= 4
    && names[..4] == [LOCAL_NAME] + DEFAULTS
    && LocalRootOk(w.roots[0])
    && w.graph[0].rootFile == LOCAL_FILE
    && (forall i :: 1 <= i < |names| ==> LibraryOk(w, names, i))
    && (forall i, j :: 1 <= i < j < |names| ==> names[i] != names[j] && w.graph[i].rootFile != w.graph[j].rootFile)
  }

  ghost predicate LocalRootOk(root: FileSet) {
    forall p :: p in root.files ==> root.files[p] in root.paths && (IsLib(p) <==> root.files[p] == LOCAL_FILE)
  }

  ghost predicate LibraryOk(w: World, names: seq<string>, i: nat)
    requires i < |names| == |w.roots| == |w.graph| && 0 < |w.roots|
  {
    var file := w.graph[i].rootFile;
    && w.roots[i] == LibraryRoot(names[i], file)
    && file != LOCAL_FILE && file !in w.roots[0].paths && file in w.texts
  }

  // ---- library roots among paths ----

  lemma LastAt(s: string, c: char, n: nat, at: nat)
    requires at < n <= |s| && s[at] == c && forall i :: at < i < n ==> s[i] != c
    ensures LastBefore(s, c, n) == at
  {}

  /** A file is a library root exactly when its name up to the last dot is `lib`. */
  lemma LibByStem(dir: string, stem: string, ext: string)
    requires '/' !in stem && stem != "" && '/' !in ext && '.' !in ext
    ensures IsLib(dir + "/" + stem + "." + ext) <==> stem == "lib"
  {
    hide LastBefore;
    var path := dir + "/" + stem + "." + ext;
    var start, dot := |dir| + 1, |dir| + 1 + |stem|;
    assert path[|dir|] == '/' && path[dot] == '.';
    assert forall i :: start <= i < dot ==> path[i] == stem[i - start];
    assert forall i :: dot < i < |path| ==> path[i] == ext[i - dot - 1];
    assert path[|path| - 1] != '/';
    LastAt(path, '/', |path|, |dir|);
    LastAt(path, '.', |path|, dot);
    ThreeLetters(path, start, stem);
  }

  /** Without a dot the whole name counts. */
  lemma LibByName(dir: string, stem: string)
    requires '/' !in stem && '.' !in stem && stem != ""
    ensures IsLib(dir + "/" + stem) <==> stem == "lib"
  {
    hide LastBefore;
    var path := dir + "/" + stem;
    var start := |dir| + 1;
    assert path[|dir|] == '/';
    assert forall i :: start <= i < |path| ==> path[i] == stem[i - start];
    LastAt(path, '/', |path|, |dir|);
    NoneAfter(path, '.', |path|, start);
    ThreeLetters(path, start, stem);
  }

  /** A name that starts with its only dot has no extension, and one trailing slash does not count. */
  lemma LibOtherwise(dir: string, ext: string)
    requires '/' !in ext && '.' !in ext
    ensures !IsLib(dir + "/" + "." + ext)
    ensures dir != "" && dir[|dir| - 1] != '/' ==> (IsLib(dir + "/") <==> IsLib(dir))
  {
    hide LastBefore;
    var path := dir + "/" + "." + ext;
    var start := |dir| + 1;
    assert path[|dir|] == '/' && path[start] == '.';
    assert forall i :: start < i < |path| ==> path[i] == ext[i - start - 1];
    assert path[|path| - 1] != '/';
    LastAt(path, '/', |path|, |dir|);
    LastAt(path, '.', |path|, start);
    SameBefore(dir, "/", '/', |dir|);
    SameBefore(dir, "/", '.', |dir|);
    var slashed := dir + "/";
    assert slashed[|dir|] == '/' && forall i :: 0 <= i < |dir| ==> slashed[i] == dir[i];
  }

  lemma {:induction false} SameBefore(s: string, t: string, c: char, n: nat)
    requires n <= |s|
    ensures LastBefore(s + t, c, n) == LastBefore(s, c, n)
  {
    if n > 0 {
      SameBefore(s, t, c, n - 1);
    }
  }

  lemma NoneAfter(s: string, c: char, n: nat, start: nat)
    requires start <= n <= |s| && forall i :: start <= i < n ==> s[i] != c
    ensures LastBefore(s, c, n) < start
  {}

  lemma ThreeLetters(path: string, start: nat, stem: string)
    requires start + |stem| <= |path| && forall i :: start <= i < start + |stem| ==> path[i] == stem[i - start]
    ensures stem == "lib" <==>
            |stem| == 3 && path[start] == 'l' && path[start + 1] == 'i' && path[start + 2] == 'b'
  {
    if |stem| == 3 {
      assert path[start] == stem[0] && path[start + 1] == stem[1] && path[start + 2] == stem[2];
      assert stem == [stem[0], stem[1], stem[2]];
    }
  }

  /** In every indexed state, a local file with another name keeps away from the library root's id. */
  lemma OtherFilesStayAway(w: World, names: seq<string>, dir: string, stem: string, ext: string)
    requires Indexed(w, names) && '/' !in stem && stem != "" && '/' !in ext && '.' !in ext
    ensures LocalId(w.roots, dir + "/" + stem + "." + ext) == 0 <==> stem == "lib"
  {
    LibByStem(dir, stem, ext);
    LocalIdIsLocal(w, names, dir + "/" + stem + "." + ext);
  }

  /** The next file id is the first one above all others. */
  lemma NextFileIdIs(roots: Roots)
    ensures forall id :: id in FileIds(roots) ==> id < NextFileId(roots)
    ensures NextFileId(roots) == 1 || NextFileId(roots) - 1 in FileIds(roots)
    ensures NextFileId(roots) >= 1
  {}

  /** A name with a dash is no crate name: linking it, or registering it directly, fails. */
  lemma DashesFail(w: World, from: nat, name: string, m: Manifest)
    requires from < |w.graph| && '-' in name
    ensures Link(w.graph, w.roots, from, name) == Err(BadName)
    ensures GetFileId(name, w.roots).None? ==>
      Register(w, name, m, false) == Err(BadName) && Register(w, name, m, true).Ok?
  {}

  /** Dashes become underscores, and nothing else changes. */
  lemma SnakeIs(name: string, i: nat)
    ensures |Snake(name)| == |name| && '-' !in Snake(name)
    ensures i < |name| && name[i] == '-' ==> Snake(name)[i] == '_'
    ensures i < |name| && name[i] != '-' ==> Snake(name)[i] == name[i]
  {}

  // ---- lookups ----

  lemma CratePathEnds(name: string, k: nat)
    requires k < 11
    ensures |CratePath(name)| == |name| + 12 && CratePath(name)[|name| + 1 + k] == "/src/lib.rs"[k]
  {}

  lemma CratePathIsLib(name: string)
    ensures IsLib(CratePath(name))
  {
    hide CratePath, LastBefore;
    var n, p := |name| + 1, CratePath(name);
    CratePathEnds(name, 4);
    CratePathEnds(name, 5);
    CratePathEnds(name, 6);
    CratePathEnds(name, 7);
    CratePathEnds(name, 8);
    CratePathEnds(name, 9);
    CratePathEnds(name, 10);
    assert p[n + 4] == '/' && p[n + 5] == 'l' && p[n + 6] == 'i' && p[n + 7] == 'b';
    assert p[n + 8] == '.' && p[n + 9] == 'r' && p[n + 10] == 's';
    assert LastBefore(p, '/', |p|) == n + 4 && LastBefore(p, '.', |p|) == n + 8;
  }

  lemma CratePathInjective(a: string, b: string)
    ensures CratePath(a) == CratePath(b) <==> a == b
  {
    if CratePath(a) == CratePath(b) {
      assert |a| == |b|;
      assert CratePath(a)[1..|a| + 1] == a && CratePath(b)[1..|b| + 1] == b;
    }
  }

  lemma {:induction false} FirstRootAnswers(roots: Roots, path: string, i: nat)
    requires i < |roots| && path in roots[i].files
    requires forall j :: 0 <= j < i ==> path !in roots[j].files
    ensures FileForPath(roots, path) == Some(roots[i].files[path])
    decreases |roots|
  {
    if i > 0 {
      FirstRootAnswers(roots[1..], path, i - 1);
    }
  }

  lemma {:induction false} NoRootAnswers(roots: Roots, path: string)
    requires forall j :: 0 <= j < |roots| ==> path !in roots[j].files
    ensures FileForPath(roots, path) == None
    decreases |roots|
  {
    if roots != [] {
      NoRootAnswers(roots[1..], path);
    }
  }

  /** A name is found in the local root, or in the one library root of that name, or nowhere. */
  lemma LookupFile(w: World, names: seq<string>, name: string)
    requires Indexed(w, names)
    ensures CratePath(name) in w.roots[0].files ==> GetFileId(name, w.roots) == Some(LOCAL_FILE)
    ensures CratePath(name) !in w.roots[0].files ==>
      (name !in names[1..] ==> GetFileId(name, w.roots) == None) &&
      (forall i :: 1 <= i < |names| && names[i] == name ==> GetFileId(name, w.roots) == Some(w.graph[i].rootFile))
  {
    var path := CratePath(name);
    CratePathIsLib(name);
    forall i | 1 <= i < |names| ensures path in w.roots[i].files <==> names[i] == name {
      CratePathInjective(names[i], name);
      assert LibraryOk(w, names, i);
    }
    if path in w.roots[0].files {
      FirstRootAnswers(w.roots, path, 0);
    } else {
      forall i | 1 <= i < |names| && names[i] == name
        ensures GetFileId(name, w.roots) == Some(w.graph[i].rootFile)
      {
        assert LibraryOk(w, names, i);
        FirstRootAnswers(w.roots, path, i);
      }
      if name !in names[1..] {
        forall j | 0 <= j < |w.roots| ensures path !in w.roots[j].files {
          assert j > 0 ==> names[1..][j - 1] == names[j];
        }
        NoRootAnswers(w.roots, path);
      }
    }
  }

  lemma RootCrate(w: World, names: seq<string>, i: nat)
    requires Indexed(w, names) && i < |names|
    ensures CrateOfRoot(w.graph, w.graph[i].rootFile) == Some(i)
  {
    var r := CrateOfRoot(w.graph, w.graph[i].rootFile);
    if r.Some? {
      var j := r.value;
      assert j > 0 ==> LibraryOk(w, names, j);
      assert i > 0 ==> LibraryOk(w, names, i);
    }
  }

  /** A file found by crate name is the root of exactly one crate. */
  lemma FileIdGivesCrateId(w: World, names: seq<string>, name: string)
    requires Indexed(w, names) && GetFileId(name, w.roots).Some?
    ensures GetCrateId(name, w.roots, w.graph).Some?
    ensures forall i :: 0 <= i < |w.graph| && w.graph[i].rootFile == GetFileId(name, w.roots).value ==>
              GetCrateId(name, w.roots, w.graph) == Some(i)
  {
    LookupFile(w, names, name);
    var file := GetFileId(name, w.roots).value;
    assert exists i :: 0 <= i < |w.graph| && w.graph[i].rootFile == file by {
      if CratePath(name) !in w.roots[0].files {
        var k :| 0 <= k < |names[1..]| && names[1..][k] == name;
        assert names[k + 1] == name;
      }
    }
    forall i | 0 <= i < |w.graph| && w.graph[i].rootFile == file
      ensures GetCrateId(name, w.roots, w.graph) == Some(i)
    {
      RootCrate(w, names, i);
    }
  }

  // ---- what every load keeps ----

  lemma NextFileIdIsFresh(roots: Roots, i: nat, id: nat)
    requires i < |roots| && id in roots[i].paths
    ensures id < NextFileId(roots)
  {
    assert id in FileIds(roots);
  }

  lemma IndexedGraph(w: World, names: seq<string>, g: CrateGraph, needed: map<string, seq<string>>)
    requires Indexed(w, names) && SameCrates(w.graph, g)
    ensures Indexed(w.(graph := g, needed := needed), names)
  {
    var w' := w.(graph := g, needed := needed);
    forall i | 1 <= i < |names| ensures LibraryOk(w', names, i) {
      assert LibraryOk(w, names, i);
    }
  }

  lemma IndexedText(w: World, names: seq<string>, file: nat, text: string)
    requires Indexed(w, names)
    ensures Indexed(w.(texts := w.texts[file := text]), names)
  {
    var w' := w.(texts := w.texts[file := text]);
    forall i | 1 <= i < |names| ensures LibraryOk(w', names, i) {
      assert LibraryOk(w, names, i);
    }
  }

  /** A new library root and crate with a fresh file. */
  lemma IndexedAppend(w: World, names: seq<string>, name: string, file: nat, crate: CrateData, text: string)
    requires Indexed(w, names) && name !in names[1..]
    requires file == NextFileId(w.roots) && crate.rootFile == file
    ensures Indexed(w.(roots := w.roots + [LibraryRoot(name, file)], graph := w.graph + [crate],
                       texts := w.texts[file := text]), names + [name])
  {
    var w' := w.(roots := w.roots + [LibraryRoot(name, file)], graph := w.graph + [crate],
                 texts := w.texts[file := text]);
    var names' := names + [name];
    assert names'[..4] == names[..4];
    assert file !in w.roots[0].paths by {
      if file in w.roots[0].paths {
        NextFileIdIsFresh(w.roots, 0, file);
        assert false;
      }
    }
    forall i | 1 <= i < |names| ensures LibraryOk(w', names', i) && w.graph[i].rootFile != file && names[i] != name {
      assert LibraryOk(w, names, i);
      NextFileIdIsFresh(w.roots, i, w.graph[i].rootFile);
      assert names[i] == names[1..][i - 1];
    }
    assert LibraryOk(w', names', |names|);
  }

  ghost function NamesAfter(names: seq<string>, w: World, name: string): seq<string> {
    if GetFileId(name, w.roots).Some? then names else names + [name]
  }

  lemma RegisterKeepsIndex(w: World, names: seq<string>, name: string, m: Manifest, transitive: bool, text: string)
    requires Indexed(w, names) && Register(w, name, m, transitive).Ok?
    ensures var (w', file, crate) := Register(w, name, m, transitive).value;
      && Indexed(w'.(texts := w'.texts[file := text]), NamesAfter(names, w, name))
      && w'.graph[crate].rootFile == file
  {
    var (w', file, crate) := Register(w, name, m, transitive).value;
    if GetFileId(name, w.roots).Some? {
      IndexedText(w, names, file, text);
    } else {
      LookupFile(w, names, name);
      var data := CrateData(file, m.package, [], m.procMacro);
      IndexedAppend(w, names, name, file, data, text);
      var grown := w.(roots := w.roots + [LibraryRoot(name, file)], graph := w.graph + [data],
                      texts := w.texts[file := text]);
      IndexedGraph(grown, names + [name], w'.graph, w.needed);
      assert w'.(texts := w'.texts[file := text]) == grown.(graph := w'.graph, needed := w.needed);
    }
  }

  /** Loading a dependency, whatever its arguments, keeps names, files and crates in step. */
  lemma LoadKeepsIndex(w: World, names: seq<string>, name: string, code: Option<string>, manifest: Option<Manifest>,
                       transitive: bool, order: seq<string>)
    requires Indexed(w, names) && Enumerates(order, w.needed.Keys)
    requires Load(w, name, code, manifest, transitive, order).Ok?
    ensures Indexed(Load(w, name, code, manifest, transitive, order).value.0, NamesAfter(names, w, name))
  {
    var m := if manifest.Some? then manifest.value else NoManifest(name);
    var text := if code.Some? then code.value else "";
    RegisterKeepsIndex(w, names, name, m, transitive, text);
    var (w1, file, crate) := Register(w, name, m, transitive).value;
    var end := Load(w, name, code, manifest, transitive, order).value.0;
    assert SameCrates(w1.graph, end.graph);
    var texted := w1.(texts := w1.texts[file := text]);
    IndexedGraph(texted, NamesAfter(names, w, name), end.graph, end.needed);
    assert end == texted.(graph := end.graph, needed := end.needed);
  }

  // ---- the local root ----

  /** A local file's id belongs to no library. */
  lemma LocalIdIsLocal(w: World, names: seq<string>, path: string)
    requires Indexed(w, names)
    ensures LocalId(w.roots, path) == LOCAL_FILE <==> IsLib(path)
    ensures forall i :: 1 <= i < |names| ==> LocalId(w.roots, path) != w.graph[i].rootFile
  {
    if !IsLib(path) {
      forall i | 1 <= i < |w.roots| ensures path !in w.roots[i].files {
        assert LibraryOk(w, names, i);
        CratePathIsLib(names[i]);
      }
      if path in w.roots[0].files {
        FirstRootAnswers(w.roots, path, 0);
      } else {
        NoRootAnswers(w.roots, path);
      }
    }
    forall i | 1 <= i < |names| ensures LocalId(w.roots, path) != w.graph[i].rootFile {
      assert LibraryOk(w, names, i);
      NextFileIdIsFresh(w.roots, i, w.graph[i].rootFile);
    }
  }

  lemma {:induction false} LocalSetIsLocal(w: World, names: seq<string>, files: seq<SourceFile>, i: nat)
    requires Indexed(w, names) && 1 <= i < |names|
    ensures LocalRootOk(LocalSet(w.roots, files))
    ensures w.graph[i].rootFile !in LocalSet(w.roots, files).paths
    ensures w.graph[i].rootFile in LocalTexts(w.roots, w.texts, files)
    ensures w.graph[i].rootFile in w.texts
    ensures LocalTexts(w.roots, w.texts, files)[w.graph[i].rootFile] == w.texts[w.graph[i].rootFile]
    decreases |files|
  {
    if files == [] {
      assert LibraryOk(w, names, i);
    } else {
      LocalSetIsLocal(w, names, files[..|files| - 1], i);
      LocalIdIsLocal(w, names, files[|files| - 1].path);
    }
  }

  /** Replacing the local files keeps every library's file id and text. */
  lemma LoadLocalKeepsIndex(w: World, names: seq<string>, files: seq<SourceFile>)
    requires Indexed(w, names) && LoadLocal(w, files).Ok?
    ensures var w' := LoadLocal(w, files).value;
      && Indexed(w', names) && w'.graph == w.graph
      && forall i :: 1 <= i < |names| ==>
           var file := w.graph[i].rootFile; file in w.texts && file in w'.texts && w'.texts[file] == w.texts[file]
  {
    var w' := LoadLocal(w, files).value;
    forall i | 1 <= i < |names|
      ensures LibraryOk(w', names, i) && LibraryOk(w, names, i)
      ensures w'.texts[w.graph[i].rootFile] == w.texts[w.graph[i].rootFile]
    {
      assert LibraryOk(w, names, i);
      LocalSetIsLocal(w, names, files, i);
    }
    LocalSetIsLocal(w, names, files, 1);
  }

  lemma LocalRootOf(name: string)
    ensures LocalRootOk(NO_FILES.Insert(LOCAL_FILE, CratePath(name)))
  {
    CratePathIsLib(name);
  }

  lemma DefaultIsIndexed(coreLib: string, allocLib: string, stdLib: string)
    ensures Indexed(DefaultWorld(coreLib, allocLib, stdLib), [LOCAL_NAME] + DEFAULTS)
  {
    var w, names := DefaultWorld(coreLib, allocLib, stdLib), [LOCAL_NAME] + DEFAULTS;
    assert names[1] == "core" && names[2] == "alloc" && names[3] == "std";
    LocalRootOf(LOCAL_NAME);
    assert LibraryOk(w, names, 1) && LibraryOk(w, names, 2) && LibraryOk(w, names, 3);
  }

  /** Exactly one crate has its root in the file. */
  ghost predicate OneCrate(g: CrateGraph, file: nat) {
    exists i :: 0 <= i < |g| && g[i].rootFile == file && forall j :: 0 <= j < |g| && g[j].rootFile == file ==> j == i
  }

  ghost predicate TwoCrates(g: CrateGraph, file: nat) {
    exists i, j :: 0 <= i < j < |g| && g[i].rootFile == g[j].rootFile == file
  }

  lemma DefaultFileAt(g: CrateGraph, j: nat)
    requires j < |g| + 4
    ensures var h := g + DefaultCratesFrom(|g|);
      |h| == |g| + 4 && h[j].rootFile == if j < |g| then g[j].rootFile else j - |g|
  {}

  lemma DefaultFile(g: CrateGraph, f: nat)
    requires f < 4
    ensures var h := g + DefaultCratesFrom(|g|);
      && (OneCrate(h, f) <==> forall i :: 0 <= i < |g| ==> g[i].rootFile != f)
      && (TwoCrates(h, f) <==> exists i :: 0 <= i < |g| && g[i].rootFile == f)
  {
    var k, h := |g|, g + DefaultCratesFrom(|g|);
    hide DefaultCratesFrom;
    forall j: nat | j < k + 4
      ensures |h| == k + 4 && h[j].rootFile == if j < k then g[j].rootFile else j - k
    {
      DefaultFileAt(g, j);
    }
    DefaultFileAt(g, k + f);
    if i :| 0 <= i < k && g[i].rootFile == f {
      assert h[i].rootFile == f == h[k + f].rootFile;
    } else {
      assert h[k + f].rootFile == f;
    }
  }

  /** Loading the default crates leaves each of their files with one crate exactly when no crate had one of them. */
  lemma OneCrateIff(w: World, coreLib: string, allocLib: string, stdLib: string)
    ensures (forall f: nat :: f < 4 ==> OneCrate(LoadDefaults(w, coreLib, allocLib, stdLib).graph, f)) <==>
            forall i :: 0 <= i < |w.graph| ==> w.graph[i].rootFile >= 4
  {
    hide OneCrate, DefaultCratesFrom;
    var h := LoadDefaults(w, coreLib, allocLib, stdLib).graph;
    forall f: nat | f < 4 ensures OneCrate(h, f) <==> forall i :: 0 <= i < |w.graph| ==> w.graph[i].rootFile != f {
      DefaultFile(w.graph, f);
    }
    if i :| 0 <= i < |w.graph| && w.graph[i].rootFile < 4 {
      assert !OneCrate(h, w.graph[i].rootFile);
    }
  }

  // ---- no cycle, ever ----

  lemma {:induction false} LinkAllAcyclic(g: CrateGraph, roots: Roots, from: nat, names: seq<string>)
    requires from < |g| && Acyclic(Edges(g)) && LinkAll(g, roots, from, names).Ok?
    ensures Acyclic(Edges(LinkAll(g, roots, from, names).value))
    decreases |names|
  {
    if names != [] {
      var init, name := names[..|names| - 1], names[|names| - 1];
      LinkAllAcyclic(g, roots, from, init);
      var before := LinkAll(g, roots, from, init).value;
      AddDepRefusesCycles(before, from, Dependency(name, GetCrateId(name, roots, before).value));
    }
  }

  lemma {:induction false} LinkLoadedAcyclic(g: CrateGraph, roots: Roots, texts: map<nat, string>, from: nat,
                                             names: seq<string>)
    requires from < |g| && Acyclic(Edges(g)) && LinkLoaded(g, roots, texts, from, names).Ok?
    ensures Acyclic(Edges(LinkLoaded(g, roots, texts, from, names).value.0))
    decreases |names|
  {
    if names != [] {
      var init, name := names[..|names| - 1], Snake(names[|names| - 1]);
      LinkLoadedAcyclic(g, roots, texts, from, init);
      var before := LinkLoaded(g, roots, texts, from, init).value.0;
      if IsLoaded(roots, texts, name).value {
        AddDepRefusesCycles(before, from, Dependency(name, GetCrateId(name, roots, before).value));
      }
    }
  }

  lemma {:induction false} ResolveAllAcyclic(g: CrateGraph, roots: Roots, needed: map<string, seq<string>>,
                                             name: string, crate: nat, order: seq<string>)
    requires forall n :: n in order ==> n in needed
    requires Acyclic(Edges(g)) && ResolveAll(g, roots, needed, name, crate, order).Ok?
    ensures Acyclic(Edges(ResolveAll(g, roots, needed, name, crate, order).value.0))
    decreases |order|
  {
    if order != [] {
      var init, last := order[..|order| - 1], order[|order| - 1];
      ResolveAllAcyclic(g, roots, needed, name, crate, init);
      var before := ResolveAll(g, roots, needed, name, crate, init).value;
      if name in before.1[last] {
        AddDepRefusesCycles(before.0, GetCrateId(last, roots, before.0).value, Dependency(name, crate));
      }
    }
  }

  lemma SameEdgesAcyclic(g: CrateGraph, h: CrateGraph)
    requires Acyclic(Edges(g))
    requires forall x, y :: HasEdge(Edges(h), x, y) ==> HasEdge(Edges(g), x, y)
    ensures Acyclic(Edges(h))
  {}

  lemma RegisterAcyclic(w: World, name: string, m: Manifest, transitive: bool)
    requires Acyclic(Edges(w.graph)) && Register(w, name, m, transitive).Ok?
    ensures Acyclic(Edges(Register(w, name, m, transitive).value.0.graph))
  {
    if GetFileId(name, w.roots).None? {
      var crate := |w.graph|;
      var grown := w.graph + [CrateData(NextFileId(w.roots), m.package, [], m.procMacro)];
      SameEdgesAcyclic(w.graph, grown);
      if !transitive {
        AddDepRefusesCycles(grown, LOCAL_CRATE, Dependency(name, crate));
      }
    }
  }

  lemma MarkedEdges(g: CrateGraph, crate: nat, code: Option<string>, m: Manifest)
    requires crate < |g|
    ensures Edges(MarkProcMacro(g, crate, code, m)) == Edges(g)
  {}

  lemma LinkUpAcyclic(w: World, name: string, crate: nat, code: Option<string>, m: Manifest, order: seq<string>)
    requires crate < |w.graph| && Enumerates(order, w.needed.Keys) && Acyclic(Edges(w.graph))
    requires LinkUp(w, name, crate, code, m, order).Ok?
    ensures Acyclic(Edges(LinkUp(w, name, crate, code, m, order).value.0))
  {
    var g1 := if code.Some? then LinkAll(w.graph, w.roots, crate, DEFAULTS).value else w.graph;
    if code.Some? {
      LinkAllAcyclic(w.graph, w.roots, crate, DEFAULTS);
    }
    MarkedEdges(g1, crate, code, m);
    var marked := MarkProcMacro(g1, crate, code, m);
    LinkLoadedAcyclic(marked, w.roots, w.texts, crate, m.dependencies);
    var g2 := LinkLoaded(marked, w.roots, w.texts, crate, m.dependencies).value.0;
    ResolveAllAcyclic(g2, w.roots, w.needed, name, crate, order);
  }

  /** Loading a dependency, whatever its arguments, never leaves a cycle behind. */
  lemma LoadKeepsAcyclic(w: World, name: string, code: Option<string>, manifest: Option<Manifest>, transitive: bool,
                         order: seq<string>)
    requires Acyclic(Edges(w.graph)) && Enumerates(order, w.needed.Keys)
    requires Load(w, name, code, manifest, transitive, order).Ok?
    ensures Acyclic(Edges(Load(w, name, code, manifest, transitive, order).value.0.graph))
  {
    var m := if manifest.Some? then manifest.value else NoManifest(name);
    RegisterAcyclic(w, name, m, transitive);
    var (w1, file, crate) := Register(w, name, m, transitive).value;
    LinkUpAcyclic(w1, name, crate, code, m, order);
  }

  // ---- every reachable state ----

  ghost function DefaultRank(i: nat): nat {
    if i == 0 then 4 else i
  }

  lemma {:induction false} DefaultPathFalls(e: Digraph<nat>, p: seq<nat>)
    requires Path(e, p) && |p| > 1
    requires forall x, y :: HasEdge(e, x, y) ==> DefaultRank(y) < DefaultRank(x)
    ensures DefaultRank(p[|p| - 1]) < DefaultRank(p[0])
    decreases |p|
  {
    var init := p[..|p| - 1];
    assert HasEdge(e, p[|p| - 2], p[|p| - 1]);
    if |p| > 2 {
      assert Path(e, init);
      DefaultPathFalls(e, init);
    }
  }

  lemma DefaultIsAcyclic(coreLib: string, allocLib: string, stdLib: string)
    ensures Acyclic(Edges(DefaultWorld(coreLib, allocLib, stdLib).graph))
  {
    var e := Edges(DefaultWorld(coreLib, allocLib, stdLib).graph);
    forall p | Path(e, p) && |p| > 1 ensures p[0] != p[|p| - 1] {
      DefaultPathFalls(e, p);
    }
  }

  /** One call that does not panic: replace the local files, or load a dependency with any arguments. */
  ghost predicate Step(w: World, w': World) {
    || (exists files :: LoadLocal(w, files) == Ok(w'))
    || (exists name, code, manifest, transitive, order, needs ::
          Enumerates(order, w.needed.Keys) && Load(w, name, code, manifest, transitive, order) == Ok((w', needs)))
  }

  ghost predicate IsRun(ws: seq<World>, coreLib: string, allocLib: string, stdLib: string) {
    && |ws| > 0
    && ws[0] == DefaultWorld(coreLib, allocLib, stdLib)
    && forall k :: 0 <= k < |ws| - 1 ==> Step(ws[k], ws[k + 1])
  }

  ghost predicate Consistent(w: World) {
    Acyclic(Edges(w.graph)) && exists names :: Indexed(w, names)
  }

  lemma StepKeepsConsistent(w: World, w': World)
    requires Consistent(w) && Step(w, w')
    ensures Consistent(w')
  {
    var names :| Indexed(w, names);
    if files :| LoadLocal(w, files) == Ok(w') {
      LoadLocalKeepsIndex(w, names, files);
    } else {
      var name, code, manifest, transitive, order, needs :|
        Enumerates(order, w.needed.Keys) && Load(w, name, code, manifest, transitive, order) == Ok((w', needs));
      LoadKeepsIndex(w, names, name, code, manifest, transitive, order);
      LoadKeepsAcyclic(w, name, code, manifest, transitive, order);
    }
  }

  /** After any calls, in any order and with any arguments, the index agrees and the graph has no cycle. */
  lemma {:induction false} EveryStateIsConsistent(ws: seq<World>, coreLib: string, allocLib: string, stdLib: string,
                                                  k: nat)
    requires IsRun(ws, coreLib, allocLib, stdLib) && k < |ws|
    ensures Consistent(ws[k])
  {
    if k == 0 {
      DefaultIsIndexed(coreLib, allocLib, stdLib);
      DefaultIsAcyclic(coreLib, allocLib, stdLib);
    } else {
      EveryStateIsConsistent(ws, coreLib, allocLib, stdLib, k - 1);
      StepKeepsConsistent(ws[k - 1], ws[k]);
    }
  }

  // ---- two new local files ----

  lemma StepKeepsRoots(w: World, w': World, i: nat)
    requires Step(w, w') && i < |w.graph|
    ensures i < |w'.graph| && w'.graph[i].rootFile == w.graph[i].rootFile
  {
    hide LinkUp, NextFileId, GetFileId, LocalSet, LocalTexts;
  }

  /** The default crates keep their files in every state. */
  lemma {:induction false} DefaultsStay(ws: seq<World>, coreLib: string, allocLib: string, stdLib: string, k: nat,
                                        f: nat)
    requires IsRun(ws, coreLib, allocLib, stdLib) && k < |ws| && f < 4
    ensures f < |ws[k].graph| && ws[k].graph[f].rootFile == f
  {
    hide Step;
    if k == 0 {
      DefaultWorldIs(coreLib, allocLib, stdLib);
    } else {
      DefaultsStay(ws, coreLib, allocLib, stdLib, k - 1, f);
      StepKeepsRoots(ws[k - 1], ws[k], f);
    }
  }

  /** Loading the default crates again, in any state of any run, leaves each of their files with two crates. */
  lemma SecondDefaultsDouble(ws: seq<World>, coreLib: string, allocLib: string, stdLib: string, k: nat, f: nat,
                             coreLib': string, allocLib': string, stdLib': string)
    requires IsRun(ws, coreLib, allocLib, stdLib) && k < |ws| && f < 4
    ensures TwoCrates(LoadDefaults(ws[k], coreLib', allocLib', stdLib').graph, f)
  {
    hide IsRun, TwoCrates, DefaultCratesFrom;
    DefaultsStay(ws, coreLib, allocLib, stdLib, k, f);
    DefaultFile(ws[k].graph, f);
  }

  /**
    Two local paths loaded together get the same id exactly when both are library files, both are new, or
    they already shared one.
   */
  lemma SharedLocalId(w: World, names: seq<string>, p: string, q: string)
    requires Indexed(w, names)
    ensures LocalId(w.roots, p) == LocalId(w.roots, q) <==>
      || (IsLib(p) && IsLib(q))
      || (!IsLib(p) && !IsLib(q) && p !in w.roots[0].files && q !in w.roots[0].files)
      || (!IsLib(p) && !IsLib(q) && p in w.roots[0].files && q in w.roots[0].files
          && w.roots[0].files[p] == w.roots[0].files[q])
  {
    if !IsLib(p) {
      LocalIdValue(w, names, p);
    }
    if !IsLib(q) {
      LocalIdValue(w, names, q);
    }
  }

  lemma LocalIdValue(w: World, names: seq<string>, p: string)
    requires Indexed(w, names) && !IsLib(p)
    ensures LocalId(w.roots, p) ==
            if p in w.roots[0].files then w.roots[0].files[p] else NextFileId(w.roots)
    ensures p in w.roots[0].files ==> w.roots[0].files[p] < NextFileId(w.roots)
  {
    forall i | 1 <= i < |w.roots| ensures p !in w.roots[i].files {
      assert LibraryOk(w, names, i);
      CratePathIsLib(names[i]);
    }
    if p in w.roots[0].files {
      FirstRootAnswers(w.roots, p, 0);
      NextFileIdIsFresh(w.roots, 0, w.roots[0].files[p]);
    } else {
      NoRootAnswers(w.roots, p);
    }
  }

  /** Loaded together, two new local files end up as one: both paths lead to the later file's text. */
  lemma NewFilesOverwrite(w: World, names: seq<string>, first: SourceFile, second: SourceFile)
    requires Indexed(w, names) && IsVirtual(first) && IsVirtual(second)
    requires !IsLib(first.path) && first.path !in w.roots[0].files
    requires !IsLib(second.path) && second.path !in w.roots[0].files
    ensures LoadLocal(w, [first, second]).Ok?
    ensures var w', id := LoadLocal(w, [first, second]).value, NextFileId(w.roots);
      && FileForPath(w'.roots, first.path) == FileForPath(w'.roots, second.path) == Some(id)
      && w'.texts[id] == second.content
  {
    var files, id := [first, second], NextFileId(w.roots);
    LocalIdValue(w, names, first.path);
    LocalIdValue(w, names, second.path);
    LocalSetLast(w.roots, w.texts, [], first);
    LocalSetLast(w.roots, w.texts, [first], second);
    assert [] + [first] == [first] && [first] + [second] == files;
    var w' := LoadLocal(w, files).value;
    FirstRootAnswers(w'.roots, first.path, 0);
    FirstRootAnswers(w'.roots, second.path, 0);
  }

  lemma LocalSetLast(roots: Roots, texts: map<nat, string>, files: seq<SourceFile>, f: SourceFile)
    ensures LocalSet(roots, files + [f]) == LocalSet(roots, files).Insert(LocalId(roots, f.path), f.path)
    ensures LocalTexts(roots, texts, files + [f]) ==
      LocalTexts(roots, texts, files)[LocalId(roots, f.path) := f.content]
  {}

  // ---- a local file on a crate's path ----

  /** A crate with a local file on its path is taken for the local crate, and no other is. */
  lemma TakenForLocal(w: World, names: seq<string>, name: string)
    requires Indexed(w, names)
    ensures GetFileId(name, w.roots) == Some(LOCAL_FILE) <==> CratePath(name) in w.roots[0].files
    ensures CratePath(name) in w.roots[0].files ==> GetCrateId(name, w.roots, w.graph) == Some(LOCAL_CRATE)
  {
    LookupFile(w, names, name);
    RootCrate(w, names, 0);
    if CratePath(name) !in w.roots[0].files && name in names[1..] {
      var i :| 1 <= i < |names| && names[i] == name;
      assert LibraryOk(w, names, i);
    }
  }

  /**
    Loading a crate overwrites the local library's text, and registers nothing, exactly when a local file
    sits on its path.
   */
  lemma LoadOverwritesLocal(w: World, names: seq<string>, name: string, code: Option<string>,
                            manifest: Option<Manifest>, transitive: bool, order: seq<string>)
    requires Indexed(w, names) && Enumerates(order, w.needed.Keys)
    requires Load(w, name, code, manifest, transitive, order).Ok?
    ensures var w' := Load(w, name, code, manifest, transitive, order).value.0;
      var text := if code.Some? then code.value else "";
      if CratePath(name) in w.roots[0].files then
        w'.roots == w.roots && |w'.graph| == |w.graph| && w'.texts == w.texts[LOCAL_FILE := text]
      else
        (LOCAL_FILE in w'.texts <==> LOCAL_FILE in w.texts) &&
        (LOCAL_FILE in w.texts ==> w'.texts[LOCAL_FILE] == w.texts[LOCAL_FILE])
  {
    hide Indexed, LinkUp, LinkAll, GetFileId, CratePath, FileIds;
    TakenForLocal(w, names, name);
    var m := if manifest.Some? then manifest.value else NoManifest(name);
    var reg := Register(w, name, m, transitive).value;
    var linked := LinkUp(reg.0, name, reg.2, code, m, order).value;
    assert |linked.0| == |reg.0.graph|;
  }

  /** Depending on such a crate is depending on the local crate: refused exactly when that one is already behind it. */
  lemma LinkToLocal(w: World, names: seq<string>, from: nat, name: string)
    requires Indexed(w, names) && from < |w.graph| && IsCrateName(name) && CratePath(name) in w.roots[0].files
    ensures Link(w.graph, w.roots, from, name) == AddDep(w.graph, from, Dependency(name, LOCAL_CRATE))
    ensures Link(w.graph, w.roots, from, name).Err? <==> from in Reach(Edges(w.graph), {LOCAL_CRATE})
  {
    TakenForLocal(w, names, name);
  }

  /** The local crate can always be linked to default crates again. */
  lemma {:induction false} LinksDefaultsAgain(w: World, names: seq<string>, list: seq<string>)
    requires Indexed(w, names) && DefaultsOrdered(w.graph, 0)
    requires forall n :: n in list ==> n in DEFAULTS && CratePath(n) !in w.roots[0].files
    ensures var r := LinkAll(w.graph, w.roots, LOCAL_CRATE, list);
      r.Ok? && DefaultsOrdered(r.value, 0)
    decreases |list|
  {
    assert |w.graph| == 4;
    hide Indexed, DefaultsOrdered;
    if list != [] {
      var init, name := list[..|list| - 1], list[|list| - 1];
      LinksDefaultsAgain(w, names, init);
      var g := LinkAll(w.graph, w.roots, LOCAL_CRATE, init).value;
      IndexedGraph(w, names, g, w.needed);
      var i := DefaultCrateOf(w.(graph := g), names, name);
      DefaultsAccepted(g, 0, LOCAL_CRATE, Dependency(name, i));
    }
  }

  lemma DefaultCrateOf(w: World, names: seq<string>, name: string) returns (i: nat)
    requires Indexed(w, names) && name in DEFAULTS && CratePath(name) !in w.roots[0].files
    ensures 1 <= i < 4 && GetCrateId(name, w.roots, w.graph) == Some(i) && IsCrateName(name)
  {
    LookupFile(w, names, name);
    i := if name == DEFAULTS[0] then 1 else if name == DEFAULTS[1] then 2 else 3;
    assert DEFAULTS[i - 1] == name;
    assert names[i] == names[..4][i] == ([LOCAL_NAME] + DEFAULTS)[i];
    RootCrate(w, names, i);
  }

  lemma StartIsOrdered(coreLib: string, allocLib: string, stdLib: string)
    ensures DefaultsOrdered(DefaultWorld(coreLib, allocLib, stdLib).graph, 0)
    ensures forall n :: n in DEFAULTS ==> CratePath(n) !in DefaultWorld(coreLib, allocLib, stdLib).roots[0].files
  {
    DefaultWorldIs(coreLib, allocLib, stdLib);
    forall n | n in DEFAULTS ensures CratePath(n) !in DefaultRoots()[0].files {
      assert n != LOCAL_NAME;
      CratePathInjective(n, LOCAL_NAME);
    }
  }

  /** It happens: right after start, loading a crate of the local crate's name overwrites the local library's text. */
  lemma LocalNameOverwrites(coreLib: string, allocLib: string, stdLib: string, text: string)
    ensures var w := DefaultWorld(coreLib, allocLib, stdLib);
      && w.texts[LOCAL_FILE] == "" && CratePath(LOCAL_NAME) in w.roots[0].files && Enumerates([], w.needed.Keys)
      && var r := Load(w, LOCAL_NAME, Some(text), None, true, []);
         r.Ok? && r.value.0.roots == w.roots && r.value.0.texts == w.texts[LOCAL_FILE := text]
  {
    var w, names := DefaultWorld(coreLib, allocLib, stdLib), [LOCAL_NAME] + DEFAULTS;
    DefaultWorldIs(coreLib, allocLib, stdLib);
    DefaultIsIndexed(coreLib, allocLib, stdLib);
    hide DefaultWorld, Indexed, LinkAll, CratePath, GetFileId, DefaultsOrdered;
    TakenForLocal(w, names, LOCAL_NAME);
    StartIsOrdered(coreLib, allocLib, stdLib);
    LinksDefaultsAgain(w, names, DEFAULTS);
    RootCrate(w, names, 0);
    LoadOverwritesLocal(w, names, LOCAL_NAME, Some(text), None, true, []);
  }
}
