/** Flattening a compiled source tree into alternating file paths and file contents. */
module SourceTree {

  /** A node lists its children in the order in which its map is iterated. */
  datatype Tree = Leaf(src: string) | Node(children: seq<Child>)

  datatype Child = Child(name: string, tree: Tree)

  // ---- path buffers ----

  predicate EndsInSlash(path: string) {
    path != "" && path[|path| - 1] == '/'
  }

  function PathJoin(path: string, name: string): string {
    if name != "" && name[0] == '/' then name
    else if path == "" || EndsInSlash(path) then path + name
    else path + "/" + name
  }

  /** The path up to the end of its last component that is not `.`. */
  function FileEnd(path: string): string {
    if EndsInSlash(path) then FileEnd(path[..|path| - 1])
    else if |path| > 1 && path[|path| - 1] == '.' && path[|path| - 2] == '/' then FileEnd(path[..|path| - 1])
    else path
  }

  /** The part after the last slash. */
  function LastComponent(path: string): (name: string)
    ensures |name| <= |path|
  {
    if path == "" || EndsInSlash(path) then "" else LastComponent(path[..|path| - 1]) + [path[|path| - 1]]
  }

  /** A component without its extension; a leading dot starts no extension. */
  function Stem(name: string): (stem: string)
    ensures |stem| <= |name|
  {
    var k := LastDot(name, |name|);
    if k == 0 then name else name[..k]
  }

  /** The position of the last dot among the first `n` characters, 0 when there is none. */
  function LastDot(name: string, n: nat): (k: nat)
    requires n <= |name|
    ensures k <= n
  {
    if n == 0 then 0 else if name[n - 1] == '.' then n - 1 else LastDot(name, n - 1)
  }

  function WithExtension(path: string): string {
    var end := FileEnd(path);
    var name := LastComponent(end);
    if name == "" || name == "." || name == ".." then path
    else end[..|end| - |name|] + Stem(name) + ".rs"
  }

  // ---- flattening ----

  function BuildSrcTree(tree: Tree, path: string): seq<string> {
    match tree
    case Leaf(src) => [WithExtension(path), src]
    case Node(children) => BuildAll(children, path)
  }

  function BuildAll(children: seq<Child>, path: string): seq<string> {
    if children == [] then []
    else BuildSrcTree(children[0].tree, PathJoin(path, children[0].name)) + BuildAll(children[1..], path)
  }

  // ---- the leaves, by the names on the way to them ----

  datatype File = File(names: seq<string>, src: string)

  function Files(tree: Tree, names: seq<string>): seq<File> {
    match tree
    case Leaf(src) => [File(names, src)]
    case Node(children) => AllFiles(children, names)
  }

  function AllFiles(children: seq<Child>, names: seq<string>): seq<File> {
    if children == [] then []
    else Files(children[0].tree, names + [children[0].name]) + AllFiles(children[1..], names)
  }

  // ---- names and paths ----

  /** A name that is one path component: not empty, no slash, and neither `.` nor `..`. */
  predicate FileName(name: string) {
    name != "" && '/' !in name && name != "." && name != ".."
  }

  /** All names are file names, and siblings have different names, as the keys of a map do. */
  predicate WellNamed(tree: Tree) {
    tree.Leaf? || AllWellNamed(tree.children)
  }

  predicate AllWellNamed(children: seq<Child>) {
    children == [] ||
    (&& FileName(children[0].name)
     && WellNamed(children[0].tree)
     && (forall i :: 1 <= i < |children| ==> children[i].name != children[0].name)
     && AllWellNamed(children[1..]))
  }

  /** No two leaves of one node have the same name up to the extension. */
  predicate StemsDiffer(tree: Tree) {
    tree.Leaf? || AllStemsDiffer(tree.children)
  }

  predicate AllStemsDiffer(children: seq<Child>) {
    children == [] || (StemIsFree(children) && StemsDiffer(children[0].tree) && AllStemsDiffer(children[1..]))
  }

  /** The first child, if a leaf, shares its stem with no later leaf. */
  predicate StemIsFree(children: seq<Child>)
    requires children != []
  {
    children[0].tree.Leaf? ==>
      forall i :: 1 <= i < |children| && children[i].tree.Leaf? ==> Stem(children[i].name) != Stem(children[0].name)
  }

  ghost predicate FileNames(names: seq<string>) {
    forall name :: name in names ==> FileName(name)
  }

  const BASE: string := "/src"

  function PathText(names: seq<string>): string {
    if names == [] then BASE else PathText(names[..|names| - 1]) + "/" + names[|names| - 1]
  }

  function LeafPath(names: seq<string>): string {
    WithExtension(PathText(names))
  }

  function Flat(files: seq<File>): seq<string> {
    if files == [] then [] else [LeafPath(files[0].names), files[0].src] + Flat(files[1..])
  }

  /** Where a leaf ends up: its names, the last one without its extension. */
  function Place(names: seq<string>): seq<string> {
    if names == [] then [] else names[..|names| - 1] + [Stem(names[|names| - 1])]
  }

  // ---- the path of a leaf ----

  lemma {:induction false} LastComponentIs(prefix: string, name: string)
    requires '/' !in name
    ensures LastComponent(prefix + "/" + name) == name
  {
    var path := prefix + "/" + name;
    if name != "" {
      assert path[..|path| - 1] == prefix + "/" + name[..|name| - 1];
      LastComponentIs(prefix, name[..|name| - 1]);
      assert name == name[..|name| - 1] + [name[|name| - 1]];
    }
  }

  lemma StemHasNoSlash(name: string)
    requires FileName(name)
    ensures '/' !in Stem(name)
  {}

  lemma ExtensionOf(prefix: string, name: string)
    requires FileName(name)
    ensures WithExtension(prefix + "/" + name) == prefix + "/" + (Stem(name) + ".rs")
  {
    var path := prefix + "/" + name;
    assert path[|path| - 1] == name[|name| - 1];
    assert |name| > 1 ==> path[|path| - 2] == name[|name| - 2];
    assert FileEnd(path) == path;
    LastComponentIs(prefix, name);
    assert path[..|path| - |name|] == prefix + "/";
    assert prefix + "/" + Stem(name) + ".rs" == prefix + "/" + (Stem(name) + ".rs");
  }

  lemma PathTextEnds(names: seq<string>)
    requires FileNames(names)
    ensures PathText(names) != "" && !EndsInSlash(PathText(names))
  {
    if names != [] {
      var name := names[|names| - 1];
      assert FileName(name);
      assert PathText(names)[|PathText(names)| - 1] == name[|name| - 1];
    }
  }

  lemma JoinIsText(names: seq<string>, name: string)
    requires FileNames(names) && FileName(name)
    ensures PathJoin(PathText(names), name) == PathText(names + [name])
  {
    PathTextEnds(names);
    assert (names + [name])[..|names|] == names;
  }

  lemma SplitLast(a: string, x: string, b: string, y: string)
    requires '/' !in x && '/' !in y && a + "/" + x == b + "/" + y
    ensures a == b && x == y
  {
    LastComponentIs(a, x);
    LastComponentIs(b, y);
    assert (a + "/" + x)[..|a|] == a && (b + "/" + y)[..|b|] == b;
  }

  lemma {:induction false} PathTextLonger(names: seq<string>)
    ensures |PathText(names)| >= |BASE| + |names|
  {
    if names != [] {
      PathTextLonger(names[..|names| - 1]);
    }
  }

  /** Different names give different directories. */
  lemma {:induction false} PathTextInjective(a: seq<string>, b: seq<string>)
    requires FileNames(a) && FileNames(b) && PathText(a) == PathText(b)
    ensures a == b
  {
    PathTextLonger(a);
    PathTextLonger(b);
    if a != [] && b != [] {
      var x, y := a[|a| - 1], b[|b| - 1];
      assert FileName(x) && FileName(y);
      SplitLast(PathText(a[..|a| - 1]), x, PathText(b[..|b| - 1]), y);
      PathTextInjective(a[..|a| - 1], b[..|b| - 1]);
      assert a == a[..|a| - 1] + [x] && b == b[..|b| - 1] + [y];
    }
  }

  /** A leaf's path: the directory above it, a slash, and its stem with the new extension. */
  lemma LeafPathIs(names: seq<string>) returns (above: string, stem: string)
    requires FileNames(names)
    ensures LeafPath(names) == above + "/" + (stem + ".rs") && '/' !in stem
    ensures if names == [] then above == "" && stem == "src"
            else above == PathText(names[..|names| - 1]) && stem == Stem(names[|names| - 1])
  {
    hide WithExtension, Stem;
    if names == [] {
      above, stem := "", "src";
      assert BASE == "" + "/" + "src";
      ExtensionOf("", "src");
      SrcStem();
    } else {
      var name := names[|names| - 1];
      assert FileName(name);
      above, stem := PathText(names[..|names| - 1]), Stem(name);
      ExtensionOf(above, name);
      StemHasNoSlash(name);
    }
  }

  lemma SrcStem()
    ensures Stem("src") == "src" && '/' !in "src"
  {
    NoDot("src", 3);
  }

  lemma {:induction false} NoDot(name: string, n: nat)
    requires n <= |name| && '.' !in name
    ensures LastDot(name, n) == 0
  {
    if n > 0 {
      NoDot(name, n - 1);
    }
  }

  /** Two leaves get one path exactly when they end up in one place. */
  lemma SamePathIff(a: seq<string>, b: seq<string>)
    requires FileNames(a) && FileNames(b)
    ensures LeafPath(a) == LeafPath(b) <==> Place(a) == Place(b)
  {
    hide WithExtension, Stem, LeafPath;
    var p, x := LeafPathIs(a);
    var q, y := LeafPathIs(b);
    PlaceIs(a, b);
    if LeafPath(a) == LeafPath(b) {
      SplitLast(p, x + ".rs", q, y + ".rs");
      assert (x + ".rs")[..|x|] == x && (y + ".rs")[..|y|] == y;
      PathTextLonger(a[..if a == [] then 0 else |a| - 1]);
      PathTextLonger(b[..if b == [] then 0 else |b| - 1]);
      if a != [] && b != [] {
        PathTextInjective(a[..|a| - 1], b[..|b| - 1]);
      }
    }
  }

  lemma PlaceIs(a: seq<string>, b: seq<string>)
    ensures Place(a) == Place(b) <==>
      (a == [] && b == []) ||
      (a != [] && b != [] && a[..|a| - 1] == b[..|b| - 1] && Stem(a[|a| - 1]) == Stem(b[|b| - 1]))
  {
    hide Stem;
    if a != [] && b != [] && Place(a) == Place(b) {
      assert Place(a)[..|a| - 1] == a[..|a| - 1] && Place(b)[..|b| - 1] == b[..|b| - 1];
      assert Place(a)[|a| - 1] == Stem(a[|a| - 1]) && Place(b)[|b| - 1] == Stem(b[|b| - 1]);
    }
  }

  // ---- the flat form is the leaves in order ----

  lemma {:induction false} FlatOver(a: seq<File>, b: seq<File>)
    ensures Flat(a + b) == Flat(a) + Flat(b)
  {
    hide LeafPath;
    if a == [] {
      assert a + b == b;
    } else {
      FlatOver(a[1..], b);
      assert (a + b)[1..] == a[1..] + b;
    }
  }

  lemma {:induction false} BuildIsFlat(tree: Tree, names: seq<string>)
    requires WellNamed(tree) && FileNames(names)
    ensures BuildSrcTree(tree, PathText(names)) == Flat(Files(tree, names))
    decreases tree
  {
    match tree
    case Leaf(src) => assert Flat([]) == [];
    case Node(children) => BuildAllIsFlat(children, names);
  }

  lemma {:induction false} BuildAllIsFlat(children: seq<Child>, names: seq<string>)
    requires AllWellNamed(children) && FileNames(names)
    ensures BuildAll(children, PathText(names)) == Flat(AllFiles(children, names))
    decreases children
  {
    if children != [] {
      var name, tree := children[0].name, children[0].tree;
      JoinIsText(names, name);
      BuildIsFlat(tree, names + [name]);
      BuildAllIsFlat(children[1..], names);
      FlatOver(Files(tree, names + [name]), AllFiles(children[1..], names));
    }
  }

  lemma {:induction false} FlatAlternates(files: seq<File>, i: nat)
    ensures |Flat(files)| == 2 * |files|
    ensures i < |files| ==> Flat(files)[2 * i] == LeafPath(files[i].names) && Flat(files)[2 * i + 1] == files[i].src
  {
    hide LeafPath;
    if files != [] {
      var rest := Flat(files[1..]);
      FlatAlternates(files[1..], if i == 0 then 0 else i - 1);
      assert Flat(files) == [LeafPath(files[0].names), files[0].src] + rest;
      if 0 < i < |files| {
        assert Flat(files)[2 * i] == rest[2 * (i - 1)] && Flat(files)[2 * i + 1] == rest[2 * (i - 1) + 1];
      }
    }
  }

  // ---- which leaves share a place ----

  /** `f` lies below `names`: deeper than it, or at it if that is a leaf. */
  predicate Below(names: seq<string>, f: File) {
    |names| <= |f.names| && f.names[..|names|] == names
  }

  /** `f` lies below the child at `i` of the node called `names`; right there only if that is a leaf. */
  predicate BelowChild(children: seq<Child>, names: seq<string>, f: File, i: nat) {
    && i < |children| && Below(names + [children[i].name], f)
    && (|f.names| == |names| + 1 ==> children[i].tree.Leaf?)
  }

  lemma {:induction false} FilesAreBelow(tree: Tree, names: seq<string>, f: File)
    requires WellNamed(tree) && FileNames(names) && f in Files(tree, names)
    ensures Below(names, f) && FileNames(f.names) && (|f.names| == |names| ==> tree.Leaf?)
    decreases tree
  {
    match tree
    case Leaf(_) =>
    case Node(children) =>
      var i := AllFilesAreBelow(children, names, f);
      BelowParent(names, children[i].name, f);
  }

  lemma BelowParent(names: seq<string>, name: string, f: File)
    requires Below(names + [name], f)
    ensures Below(names, f) && |names| < |f.names| && f.names[|names|] == name
  {
    var up := names + [name];
    assert f.names[|names|] == f.names[..|up|][|names|];
    assert f.names[..|names|] == f.names[..|up|][..|names|];
  }

  lemma {:induction false} AllFilesAreBelow(children: seq<Child>, names: seq<string>, f: File) returns (i: nat)
    requires AllWellNamed(children) && FileNames(names) && f in AllFiles(children, names)
    ensures BelowChild(children, names, f, i) && FileNames(f.names)
    decreases children
  {
    var name, tree := children[0].name, children[0].tree;
    if f in Files(tree, names + [name]) {
      FilesAreBelow(tree, names + [name], f);
      i := 0;
    } else {
      i := AllFilesAreBelow(children[1..], names, f);
      i := i + 1;
    }
  }

  lemma {:induction false} LeafIsListed(children: seq<Child>, names: seq<string>, i: nat)
    requires i < |children| && children[i].tree.Leaf?
    ensures File(names + [children[i].name], children[i].tree.src) in AllFiles(children, names)
  {
    if i > 0 {
      LeafIsListed(children[1..], names, i - 1);
    }
  }

  ghost predicate Apart(a: seq<File>, b: seq<File>) {
    forall f, g :: f in a && g in b ==> Place(f.names) != Place(g.names)
  }

  ghost predicate DistinctPlaces(files: seq<File>) {
    forall i, j :: 0 <= i < j < |files| ==> Place(files[i].names) != Place(files[j].names)
  }

  lemma DistinctOver(a: seq<File>, b: seq<File>)
    ensures DistinctPlaces(a + b) <==> DistinctPlaces(a) && DistinctPlaces(b) && Apart(a, b)
  {
    hide Place;
    var all := a + b;
    assert forall i :: 0 <= i < |a| ==> all[i] == a[i];
    assert forall i :: 0 <= i < |b| ==> all[|a| + i] == b[i];
    if DistinctPlaces(all) {
      forall f, g | f in a && g in b ensures Place(f.names) != Place(g.names) {
        var i, j :| 0 <= i < |a| && 0 <= j < |b| && a[i] == f && b[j] == g;
        assert all[i] == f && all[|a| + j] == g;
      }
      forall i, j | 0 <= i < j < |b| ensures Place(b[i].names) != Place(b[j].names) {
        assert all[|a| + i] == b[i] && all[|a| + j] == b[j];
      }
      forall i, j | 0 <= i < j < |a| ensures Place(a[i].names) != Place(a[j].names) {
        assert all[i] == a[i] && all[j] == a[j];
      }
    } else {
      var i, j :| 0 <= i < j < |all| && Place(all[i].names) == Place(all[j].names);
      if j < |a| {
        assert !DistinctPlaces(a);
      } else if |a| <= i {
        assert all[i] == b[i - |a|] && all[j] == b[j - |a|];
      } else {
        assert a[i] in a && b[j - |a|] in b;
      }
    }
  }

  /** Files below different children share a place only if both are leaves with one stem. */
  lemma ChildrenApart(children: seq<Child>, names: seq<string>, f: File, g: File, i: nat)
    requires AllWellNamed(children) && children != [] && 0 < i
    requires BelowChild(children, names, f, 0) && BelowChild(children, names, g, i)
    requires Place(f.names) == Place(g.names)
    ensures children[0].tree.Leaf? && children[i].tree.Leaf? && Stem(children[0].name) == Stem(children[i].name)
  {
    hide Stem;
    BelowParent(names, children[0].name, f);
    BelowParent(names, children[i].name, g);
    PlaceIs(f.names, g.names);
  }

  lemma ApartIff(children: seq<Child>, names: seq<string>)
    requires AllWellNamed(children) && children != [] && FileNames(names)
    ensures Apart(Files(children[0].tree, names + [children[0].name]), AllFiles(children[1..], names)) <==>
      StemIsFree(children)
  {
    hide Place, Stem;
    var first, rest := Files(children[0].tree, names + [children[0].name]), AllFiles(children[1..], names);
    if StemIsFree(children) {
      forall f, g | f in first && g in rest ensures Place(f.names) != Place(g.names) {
        FilesAreBelow(children[0].tree, names + [children[0].name], f);
        var i := AllFilesAreBelow(children[1..], names, g);
        assert BelowChild(children, names, g, i + 1);
        if Place(f.names) == Place(g.names) {
          ChildrenApart(children, names, f, g, i + 1);
        }
      }
    } else {
      var i :| 1 <= i < |children| && children[i].tree.Leaf? && Stem(children[i].name) == Stem(children[0].name);
      LeafIsListed(children[1..], names, i - 1);
      var f := File(names + [children[0].name], children[0].tree.src);
      var g := File(names + [children[i].name], children[i].tree.src);
      assert f in first && g in rest;
      assert f.names[..|names|] == names && g.names[..|names|] == names;
      PlaceIs(f.names, g.names);
    }
  }

  lemma {:induction false} DistinctIff(tree: Tree, names: seq<string>)
    requires WellNamed(tree) && FileNames(names)
    ensures DistinctPlaces(Files(tree, names)) <==> StemsDiffer(tree)
    decreases tree
  {
    match tree
    case Leaf(_) =>
    case Node(children) => AllDistinctIff(children, names);
  }

  lemma {:induction false} AllDistinctIff(children: seq<Child>, names: seq<string>)
    requires AllWellNamed(children) && FileNames(names)
    ensures DistinctPlaces(AllFiles(children, names)) <==> AllStemsDiffer(children)
    decreases children
  {
    hide Place, Stem, StemIsFree, Apart, DistinctPlaces;
    if children == [] {
      NoPlaces();
    } else {
      var name, tree := children[0].name, children[0].tree;
      DistinctIff(tree, names + [name]);
      AllDistinctIff(children[1..], names);
      DistinctOver(Files(tree, names + [name]), AllFiles(children[1..], names));
      ApartIff(children, names);
    }
  }

  lemma NoPlaces()
    ensures DistinctPlaces([])
  {}

  // ---- what the caller gets ----

  /**
    Path and content alternate, two entries per leaf, in order. No two leaves share a path if and only if no
    two leaves of one node have the same name up to the extension.
   */
  lemma OutputListsEachLeaf(tree: Tree)
    requires WellNamed(tree)
    ensures var out, files := BuildSrcTree(tree, BASE), Files(tree, []);
      && |out| == 2 * |files|
      && (forall i :: 0 <= i < |files| ==> out[2 * i] == LeafPath(files[i].names) && out[2 * i + 1] == files[i].src)
      && ((forall i, j :: 0 <= i < j < |files| ==> out[2 * i] != out[2 * j]) <==> StemsDiffer(tree))
  {
    hide LeafPath, Place, BuildSrcTree, StemsDiffer;
    var files := Files(tree, []);
    BuildIsFlat(tree, []);
    FlatAlternates(files, 0);
    DistinctIff(tree, []);
    forall i | 0 <= i < |files|
      ensures Flat(files)[2 * i] == LeafPath(files[i].names) && Flat(files)[2 * i + 1] == files[i].src
      ensures FileNames(files[i].names)
    {
      FlatAlternates(files, i);
      assert files[i] in files;
      FilesAreBelow(tree, [], files[i]);
    }
    forall i, j | 0 <= i < j < |files|
      ensures Flat(files)[2 * i] == Flat(files)[2 * j] <==> Place(files[i].names) == Place(files[j].names)
    {
      SamePathIff(files[i].names, files[j].names);
    }
  }

  ghost predicate SamePlaces(a: seq<File>, b: seq<File>) {
    |a| == |b| && forall i :: 0 <= i < |a| ==> Place(a[i].names) == Place(b[i].names) && a[i].src == b[i].src
  }

  /** The leaves can be recovered up to their extensions: outputs agree exactly when places and contents do. */
  lemma OutputDeterminesLeaves(s: Tree, t: Tree)
    requires WellNamed(s) && WellNamed(t)
    ensures BuildSrcTree(s, BASE) == BuildSrcTree(t, BASE) <==> SamePlaces(Files(s, []), Files(t, []))
  {
    hide LeafPath, Place, BuildSrcTree;
    var a, b := Files(s, []), Files(t, []);
    BuildIsFlat(s, []);
    BuildIsFlat(t, []);
    FlatAlternates(a, 0);
    FlatAlternates(b, 0);
    if |a| == |b| {
      forall i | 0 <= i < |a|
        ensures Place(a[i].names) == Place(b[i].names) && a[i].src == b[i].src <==>
                Flat(a)[2 * i] == Flat(b)[2 * i] && Flat(a)[2 * i + 1] == Flat(b)[2 * i + 1]
      {
        assert a[i] in a && b[i] in b;
        FilesAreBelow(s, [], a[i]);
        FilesAreBelow(t, [], b[i]);
        FlatAlternates(a, i);
        FlatAlternates(b, i);
        SamePathIff(a[i].names, b[i].names);
      }
      SameByPairs(Flat(a), Flat(b), |a|);
    }
  }

  lemma SameByPairs(a: seq<string>, b: seq<string>, n: nat)
    requires |a| == |b| == 2 * n
    ensures a == b <==> forall i :: 0 <= i < n ==> a[2 * i] == b[2 * i] && a[2 * i + 1] == b[2 * i + 1]
  {
    if forall i :: 0 <= i < n ==> a[2 * i] == b[2 * i] && a[2 * i + 1] == b[2 * i + 1] {
      forall k | 0 <= k < 2 * n ensures a[k] == b[k] {
        var i := k / 2;
        assert k == 2 * i || k == 2 * i + 1;
      }
    }
  }

  // ---- names with a dot ----

  /** A name's stem ends before its last dot, unless that is its first character. */
  lemma StemIs(a: string, b: string)
    requires '.' !in b
    ensures Stem(a + "." + b) == if a == "" then "." + b else a
    ensures Stem(b) == b
  {
    OnlyDot(a, b, |a + "." + b|);
    NoDot(b, |b|);
    assert a + "." + b == if a == "" then "." + b else a + "." + b;
    assert (a + "." + b)[..|a|] == a;
  }

  lemma {:induction false} OnlyDot(a: string, b: string, n: nat)
    requires '.' !in b && |a| < n <= |a| + 1 + |b|
    ensures LastDot(a + "." + b, n) == |a|
  {
    var name := a + "." + b;
    if n - 1 > |a| {
      assert name[n - 1] == b[n - 2 - |a|];
      OnlyDot(a, b, n - 1);
    }
  }

  lemma DottedStem(a: string, b: string)
    requires FileName(a) && '.' !in a && '.' !in b && '/' !in b
    ensures FileName(a + "." + b) && a + "." + b != a && Stem(a + "." + b) == a && Stem(a) == a
  {
    OnlyDot(a, b, |a + "." + b|);
    NoDot(a, |a|);
    assert (a + "." + b)[..|a|] == a;
  }

  /** The text after the last dot is taken for an extension, so `a.b` and `a` side by side get one path. */
  lemma DottedNamesCollide(a: string, b: string, x: string, y: string)
    requires FileName(a) && '.' !in a && '.' !in b && '/' !in b
    ensures var tree := Node([Child(a + "." + b, Leaf(x)), Child(a, Leaf(y))]);
      && WellNamed(tree) && !StemsDiffer(tree)
      && Files(tree, []) == [File([a + "." + b], x), File([a], y)] && LeafPath([a + "." + b]) == LeafPath([a])
  {
    hide LeafPath, Stem, FileName;
    var dotted := a + "." + b;
    DottedStem(a, b);
    var first, second := Child(dotted, Leaf(x)), Child(a, Leaf(y));
    var children := [first, second];
    assert children[1..] == [second] && [second][1..] == [];
    assert AllWellNamed([]) && AllWellNamed([second]) && AllWellNamed(children);
    assert !StemIsFree(children);
    assert [] + [a] == [a] && [] + [dotted] == [dotted];
    assert AllFiles([second], []) == [File([a], y)] + AllFiles([], []);
    assert AllFiles(children, []) == [File([dotted], x)] + AllFiles([second], []);
    SamePathIff([dotted], [a]);
    assert [dotted][..0] == [] && [a][..0] == [];
  }
}
