/** Whole runs of calls on the analysis state: what each crate ends up linked to and waiting for, in every order. */
module LoadRuns {
  import opened Wrappers
  import opened Digraphs
  import opened CrateWorld
  import opened CrateIndex
  import opened CrateLoading
  import opened LazyLoading

  // ---- calls ----

  /** What a run works with: the manifests, and the texts of the default crates. */
  datatype Setup = Setup(ms: Manifests, coreLib: string, allocLib: string, stdLib: string) {
    ghost function Start(): World {
      DefaultWorld(coreLib, allocLib, stdLib)
    }

    ghost predicate Good() {
      Acyclic(Wants(ms))
    }
  }

  /** A load passes the crate's manifest or none; `order` is the order in which the waiting crates are visited. */
  datatype Call =
    | LoadCrate(name: string, code: Option<string>, withManifest: bool, transitive: bool, order: seq<string>)
    | LoadFiles(files: seq<SourceFile>)

  predicate Names(c: Call, n: string) {
    c.LoadCrate? && c.name == n
  }

  predicate HasCode(c: Call) {
    c.LoadCrate? && c.code.Some? && c.code.value != ""
  }

  ghost function ManifestFor(u: Setup, c: Call): Option<Manifest>
    requires c.LoadCrate?
  {
    if c.withManifest && c.name in u.ms then Some(u.ms[c.name]) else None
  }

  /** The dependencies a call lists. */
  ghost function ListOf(u: Setup, c: Call): seq<string>
    requires c.LoadCrate?
  {
    ManifestOf(c.name, ManifestFor(u, c)).dependencies
  }

  ghost function NamedBy(calls: seq<Call>): set<string> {
    set c | c in calls && c.LoadCrate? :: c.name
  }

  /** The crates that have code after the calls. */
  ghost function Have(u: Setup, calls: seq<Call>): set<string> {
    if calls == [] then Filled(u.coreLib, u.allocLib, u.stdLib) else
    var before, c := Have(u, calls[..|calls| - 1]), calls[|calls| - 1];
    if c.LoadFiles? then before else LoadedWith(before, c.name, c.code)
  }

  /** The crates whose first call is not transitive: those the local crate depends on. */
  ghost function DirectBy(calls: seq<Call>): set<string> {
    if calls == [] then {} else
    var before, c := calls[..|calls| - 1], calls[|calls| - 1];
    if c.LoadCrate? && !c.transitive && c.name !in NamedBy(before) then DirectBy(before) + {c.name}
    else DirectBy(before)
  }

  /** The paths of the local files. */
  ghost function LocalPaths(calls: seq<Call>): set<string> {
    if calls == [] then {CratePath(LOCAL_NAME)} else
    var c := calls[|calls| - 1];
    if c.LoadFiles? then set f | f in c.files :: f.path else LocalPaths(calls[..|calls| - 1])
  }

  /** What `n` waits for: set anew by every call that names it, and crossed off once by every call for another crate. */
  ghost function Waiting(u: Setup, calls: seq<Call>, n: string): multiset<string> {
    if calls == [] then multiset{} else
    var before, c := calls[..|calls| - 1], calls[|calls| - 1];
    if c.LoadFiles? then Waiting(u, before, n)
    else if c.name != n then Waiting(u, before, n) - multiset{c.name}
    else NeedsOf(ListOf(u, c), Have(u, before))
  }

  /** What `n` is linked to: its own links at every call that names it, and what it waited for when that is named. */
  ghost function LinkedTo(u: Setup, calls: seq<Call>, n: string): set<string> {
    if calls == [] then {} else
    var before, c := calls[..|calls| - 1], calls[|calls| - 1];
    if c.LoadFiles? then LinkedTo(u, before, n)
    else if c.name == n then LinkedTo(u, before, n) + OwnOf(u, c, Have(u, before))
    else if c.name in Waiting(u, before, n) then LinkedTo(u, before, n) + {c.name}
    else LinkedTo(u, before, n)
  }

  ghost function OwnOf(u: Setup, c: Call, have: set<string>): set<string>
    requires c.LoadCrate?
  {
    OwnLinks(c.code, ManifestOf(c.name, ManifestFor(u, c)), have)
  }

  /** The names a call looks up: the crate, what it may be linked to, and who waits for it. */
  ghost function Touches(u: Setup, calls: seq<Call>, c: Call): set<string>
    requires c.LoadCrate?
  {
    {c.name} + (if c.code.Some? then SetOf(DEFAULTS) else {}) + DepsOf(ListOf(u, c))
    + set n | n in NamedBy(calls) && c.name in Waiting(u, calls, n)
  }

  /**
    A call the playground may make: any local files, or a load that looks up no name with a local file on
    its path.
   */
  ghost predicate LegalCall(u: Setup, calls: seq<Call>, c: Call) {
    match c
    case LoadCrate(name, _, withManifest, _, _) =>
      && IsCrateName(name) && !IsDefault(name) && (withManifest ==> name in u.ms)
      && forall n :: n in Touches(u, calls, c) ==> CratePath(n) !in LocalPaths(calls)
    case LoadFiles(files) => forall f :: f in files ==> IsVirtual(f)
  }

  /** `w'` is the state the call leaves. */
  ghost predicate Leads(u: Setup, w: World, c: Call, w': World) {
    match c
    case LoadCrate(name, code, _, transitive, order) =>
      && Enumerates(order, w.needed.Keys)
      && var r := Load(w, name, code, ManifestFor(u, c), transitive, order);
         r.Ok? && r.value.0 == w'
    case LoadFiles(files) => LoadLocal(w, files) == Ok(w')
  }

  ghost predicate IsLoadRun(u: Setup, ws: seq<World>, calls: seq<Call>) {
    && |ws| == |calls| + 1 && ws[0] == u.Start()
    && forall k :: 0 <= k < |calls| ==> LegalCall(u, calls[..k], calls[k]) && Leads(u, ws[k], calls[k], ws[k + 1])
  }

  lemma NamedByAdd(calls: seq<Call>, c: Call)
    ensures NamedBy(calls + [c]) == NamedBy(calls) + if c.LoadCrate? then {c.name} else {}
  {}

  /** One more call, as each of the functions of the calls sees it. */
  lemma OneMore(u: Setup, calls: seq<Call>, c: Call, n: string)
    ensures Have(u, calls + [c]) ==
            if c.LoadFiles? then Have(u, calls) else LoadedWith(Have(u, calls), c.name, c.code)
    ensures LocalPaths(calls + [c]) == if c.LoadFiles? then set f | f in c.files :: f.path else LocalPaths(calls)
    ensures DirectBy(calls + [c]) ==
            if c.LoadCrate? && !c.transitive && c.name !in NamedBy(calls) then DirectBy(calls) + {c.name}
            else DirectBy(calls)
    ensures Waiting(u, calls + [c], n) ==
            if c.LoadFiles? then Waiting(u, calls, n)
            else if c.name != n then Waiting(u, calls, n) - multiset{c.name}
            else NeedsOf(ListOf(u, c), Have(u, calls))
    ensures LinkedTo(u, calls + [c], n) ==
            if c.LoadFiles? then LinkedTo(u, calls, n)
            else if c.name == n then LinkedTo(u, calls, n) + OwnOf(u, c, Have(u, calls))
            else if c.name in Waiting(u, calls, n) then LinkedTo(u, calls, n) + {c.name}
            else LinkedTo(u, calls, n)
  {
    hide NamedBy, OwnOf, ListOf, LoadedWith, NeedsOf;
    assert (calls + [c])[..|calls|] == calls;
  }

  // ---- every state of every run ----

  /** The state is what the calls made so far determine; crate `i` is called `names[i]`. */
  ghost predicate Tracks(u: Setup, w: World, calls: seq<Call>, names: seq<string>) {
    && Linked(w, names, u.ms, Have(u, calls))
    && LibraryNames(names) == NamedBy(calls)
    && w.roots[0].files.Keys == LocalPaths(calls)
    && (forall n :: n in w.needed ==> multiset(w.needed[n]) == Waiting(u, calls, n))
    && (forall i :: 4 <= i < |names| ==> Links(w.graph, names, i) == LinkedTo(u, calls, names[i]))
    && Links(w.graph, names, 0) == SetOf(DEFAULTS) + DirectBy(calls)
  }

  ghost predicate InStep(u: Setup, w: World, calls: seq<Call>) {
    exists names :: Tracks(u, w, calls, names)
  }

  lemma TracksNeeds(u: Setup, w: World, names: seq<string>, calls: seq<Call>)
    requires Tracks(u, w, calls, names)
    ensures w.needed.Keys == NamedBy(calls) && w.roots != [] && |names| == |w.graph| >= 4
    ensures Indexed(w, names) && Sound(w.graph, names, u.ms)
  {}

  lemma TouchedIs(u: Setup, w: World, names: seq<string>, calls: seq<Call>, c: Call)
    requires Tracks(u, w, calls, names) && c.LoadCrate?
    ensures Touched(w.needed, c.name, c.code, ManifestOf(c.name, ManifestFor(u, c))) == Touches(u, calls, c)
  {
    hide Linked, Waiting, NamedBy, SetOf, DepsOf, Links, LinkedTo, LocalPaths;
    TracksNeeds(u, w, names, calls);
    forall n ensures n in w.needed && c.name in w.needed[n] <==> n in NamedBy(calls) && c.name in Waiting(u, calls, n) {
      if n in w.needed {
        assert c.name in w.needed[n] <==> c.name in multiset(w.needed[n]);
      }
    }
  }

  /** A legal load can begin. */
  lemma LegalBegins(u: Setup, w: World, names: seq<string>, calls: seq<Call>, c: Call)
    requires Tracks(u, w, calls, names) && c.LoadCrate? && LegalCall(u, calls, c)
    ensures CanBegin(w, names, u.ms, Have(u, calls), c.name, c.code, ManifestFor(u, c))
  {
    hide Linked, Waiting, NamedBy, Touched, Touches, LocalPaths, Links, LinkedTo, CratePath;
    TracksNeeds(u, w, names, calls);
    TouchedIs(u, w, names, calls, c);
  }

  lemma LinksTrack(u: Setup, w: World, w': World, names: seq<string>, calls: seq<Call>, c: Call, i: nat)
    requires Tracks(u, w, calls, names) && LegalCall(u, calls, c) && Leads(u, w, c, w') && c.LoadCrate?
    requires i < |NamesWith(names, c.name)| && (i == 0 || i >= 4)
    ensures |NamesWith(names, c.name)| == |w'.graph|
    ensures i >= 4 ==> Links(w'.graph, NamesWith(names, c.name), i) ==
                       LinkedTo(u, calls + [c], NamesWith(names, c.name)[i])
    ensures i == 0 ==> Links(w'.graph, NamesWith(names, c.name), 0) == SetOf(DEFAULTS) + DirectBy(calls + [c])
  {
    hide Linked, Load, Waiting, LinkedTo, DirectBy, Links, Have, NamedBy, LocalPaths, SetOf, OwnLinks, CanBegin,
      LegalCall;
    var names1 := NamesWith(names, c.name);
    LegalBegins(u, w, names, calls, c);
    TracksNeeds(u, w, names, calls);
    LinksAfterLoad(w, names, u.ms, Have(u, calls), c.name, c.code, ManifestFor(u, c), c.transitive, c.order, i);
    OneMore(u, calls, c, names1[i]);
    if i >= 4 {
      if i >= |names| {
        NewHasNoLinks(u, names, calls, c.name, i);
      }
      WaitsTracks(u, w, names, calls, names1[i], c.name);
    }
  }

  lemma WaitsTracks(u: Setup, w: World, names: seq<string>, calls: seq<Call>, n: string, x: string)
    requires Tracks(u, w, calls, names)
    ensures WaitsFor(w.needed, n, x) <==> n in NamedBy(calls) && x in Waiting(u, calls, n)
    ensures n !in NamedBy(calls) ==> Waiting(u, calls, n) == multiset{} && LinkedTo(u, calls, n) == {}
  {
    hide Linked, LocalPaths, Links, DirectBy;
    TracksNeeds(u, w, names, calls);
    if n in w.needed {
      hide Waiting;
      assert x in w.needed[n] <==> x in multiset(w.needed[n]);
    } else {
      Unnamed(u, calls, n);
    }
  }

  lemma {:induction false} Unnamed(u: Setup, calls: seq<Call>, n: string)
    requires n !in NamedBy(calls)
    ensures Waiting(u, calls, n) == multiset{} && LinkedTo(u, calls, n) == {}
  {
    if calls != [] {
      var before, c := calls[..|calls| - 1], calls[|calls| - 1];
      assert calls == before + [c];
      NamedByAdd(before, c);
      Unnamed(u, before, n);
    }
  }

  lemma NewHasNoLinks(u: Setup, names: seq<string>, calls: seq<Call>, name: string, i: nat)
    requires LibraryNames(names) == NamedBy(calls) && |names| <= i < |NamesWith(names, name)|
    ensures NamesWith(names, name)[i] == name && LinkedTo(u, calls, name) == {}
  {
    Unnamed(u, calls, name);
  }

  lemma NeedsTrack(u: Setup, w: World, w': World, names: seq<string>, calls: seq<Call>, c: Call, n: string)
    requires Tracks(u, w, calls, names) && LegalCall(u, calls, c) && Leads(u, w, c, w')
    requires c.LoadCrate? && (n in w.needed || n == c.name)
    ensures n in w'.needed && multiset(w'.needed[n]) == Waiting(u, calls + [c], n)
  {
    hide Linked, Load, Waiting, LinkedTo, DirectBy, Links, Have, NamedBy, LocalPaths, SetOf, CanBegin, LegalCall,
      NeedsOf;
    LegalBegins(u, w, names, calls, c);
    NeedsAfterLoad(w, names, u.ms, Have(u, calls), c.name, c.code, ManifestFor(u, c), c.transitive, c.order, n);
    OneMore(u, calls, c, n);
  }

  lemma LoadTracks(u: Setup, w: World, w': World, names: seq<string>, calls: seq<Call>, c: Call)
    requires Tracks(u, w, calls, names) && LegalCall(u, calls, c) && Leads(u, w, c, w') && c.LoadCrate?
    ensures Tracks(u, w', calls + [c], NamesWith(names, c.name))
  {
    hide Linked, Load, Waiting, LinkedTo, DirectBy, Links, Have, NamedBy, LocalPaths, SetOf, CanBegin, LegalCall,
      LibraryNames;
    var names1 := NamesWith(names, c.name);
    LegalBegins(u, w, names, calls, c);
    TracksNeeds(u, w, names, calls);
    LoadKeepsLinked(w, names, u.ms, Have(u, calls), c.name, c.code, ManifestFor(u, c), c.transitive, c.order);
    HeadsAfterLoad(w, names, u.ms, Have(u, calls), c.name, c.code, ManifestFor(u, c), c.transitive, c.order);
    LibraryNamesWith(names, c.name);
    NamedByAdd(calls, c);
    OneMore(u, calls, c, c.name);
    forall n | n in w'.needed ensures multiset(w'.needed[n]) == Waiting(u, calls + [c], n) {
      NeedsTrack(u, w, w', names, calls, c, n);
    }
    LinksTrack(u, w, w', names, calls, c, 0);
    forall i | 4 <= i < |names1| ensures Links(w'.graph, names1, i) == LinkedTo(u, calls + [c], names1[i]) {
      LinksTrack(u, w, w', names, calls, c, i);
    }
  }

  lemma FilesTrack(u: Setup, w: World, w': World, names: seq<string>, calls: seq<Call>, c: Call)
    requires Tracks(u, w, calls, names) && Leads(u, w, c, w') && c.LoadFiles?
    ensures Tracks(u, w', calls + [c], names)
  {
    hide Linked, Waiting, LinkedTo, DirectBy, Links, Have, NamedBy, LocalPaths, SetOf, LibraryNames, LoadLocal;
    TracksNeeds(u, w, names, calls);
    LocalKeepsLinked(w, names, u.ms, Have(u, calls), c.files);
    NamedByAdd(calls, c);
    assert NamedBy(calls) + {} == NamedBy(calls);
    OneMore(u, calls, c, "");
    forall n ensures Waiting(u, calls + [c], n) == Waiting(u, calls, n)
             ensures LinkedTo(u, calls + [c], n) == LinkedTo(u, calls, n) {
      OneMore(u, calls, c, n);
    }
  }

  lemma CallStaysInStep(u: Setup, w: World, w': World, calls: seq<Call>, c: Call)
    requires InStep(u, w, calls) && LegalCall(u, calls, c) && Leads(u, w, c, w')
    ensures InStep(u, w', calls + [c])
  {
    hide Tracks, LegalCall, Leads;
    var names :| Tracks(u, w, calls, names);
    if c.LoadCrate? {
      LoadTracks(u, w, w', names, calls, c);
    } else {
      FilesTrack(u, w, w', names, calls, c);
    }
  }

  lemma StartTracks(u: Setup)
    requires u.Good()
    ensures Tracks(u, u.Start(), [], [LOCAL_NAME] + DEFAULTS)
  {
    hide Linked, Filled, Links;
    var names := [LOCAL_NAME] + DEFAULTS;
    DefaultIsLinked(u.coreLib, u.allocLib, u.stdLib, u.ms);
    DefaultLinks(u.coreLib, u.allocLib, u.stdLib, u.ms);
    assert NamedBy([]) == {} && LibraryNames(names) == {};
    assert SetOf(DEFAULTS) + {} == SetOf(DEFAULTS);
  }

  lemma StartInStep(u: Setup)
    requires u.Good()
    ensures InStep(u, u.Start(), [])
  {
    hide Tracks;
    StartTracks(u);
  }

  /** After every call of every run the state is in step: who is linked to whom, and who waits for what. */
  lemma {:induction false} RunStaysInStep(u: Setup, ws: seq<World>, calls: seq<Call>, k: nat)
    requires u.Good() && IsLoadRun(u, ws, calls) && k <= |calls|
    ensures InStep(u, ws[k], calls[..k])
  {
    hide InStep, LegalCall, Leads;
    if k == 0 {
      StartInStep(u);
      assert calls[..0] == [];
    } else {
      RunStaysInStep(u, ws, calls, k - 1);
      CallStaysInStep(u, ws[k - 1], ws[k], calls[..k - 1], calls[k - 1]);
      assert calls[..k] == calls[..k - 1] + [calls[k - 1]];
    }
  }

  lemma RunTracks(u: Setup, ws: seq<World>, calls: seq<Call>) returns (names: seq<string>)
    requires u.Good() && IsLoadRun(u, ws, calls)
    ensures Tracks(u, ws[|calls|], calls, names)
  {
    hide Tracks, LegalCall, Leads;
    RunStaysInStep(u, ws, calls, |calls|);
    assert calls[..|calls|] == calls;
    names :| Tracks(u, ws[|calls|], calls, names);
  }

  /** The next legal load goes through, whatever was called before. */
  lemma NextCallSucceeds(u: Setup, ws: seq<World>, calls: seq<Call>, c: Call)
    requires u.Good() && IsLoadRun(u, ws, calls) && c.LoadCrate? && LegalCall(u, calls, c)
    requires Enumerates(c.order, ws[|calls|].needed.Keys)
    ensures Load(ws[|calls|], c.name, c.code, ManifestFor(u, c), c.transitive, c.order).Ok?
  {
    hide Tracks, Leads, LegalCall, Load, Enumerates, CanBegin;
    var names := RunTracks(u, ws, calls);
    LegalBegins(u, ws[|calls|], names, calls, c);
    LoadKeepsLinked(ws[|calls|], names, u.ms, Have(u, calls), c.name, c.code, ManifestFor(u, c), c.transitive, c.order);
  }

  /** The local crate is linked to the default crates and to what was first loaded directly, and to nothing else. */
  lemma LocalLinksAreDirect(u: Setup, ws: seq<World>, calls: seq<Call>) returns (names: seq<string>)
    requires u.Good() && IsLoadRun(u, ws, calls)
    ensures Indexed(ws[|calls|], names) && LibraryNames(names) == NamedBy(calls) && ws[|calls|].graph != []
    ensures Links(ws[|calls|].graph, names, 0) == SetOf(DEFAULTS) + DirectBy(calls)
  {
    hide Leads, LegalCall, NamedBy, DirectBy, Have, Sound, Links, Waiting, LinkedTo, LocalPaths;
    names := RunTracks(u, ws, calls);
  }
}
