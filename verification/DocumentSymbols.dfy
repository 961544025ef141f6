/** The outline of a file: a list of nodes with parent positions becomes a forest, built in place from the end. */
module DocumentSymbols {
  import opened Wrappers

  datatype StructureNode = StructureNode(name: string, detail: Option<string>, parent: Option<nat>)

  datatype DocumentSymbol = DocumentSymbol(name: string, detail: string, children: Children)

  datatype Children = Absent | Present(symbols: seq<DocumentSymbol>)

  /** The symbol of a node with the given children; no children are absent children. */
  function SymbolOf(node: StructureNode, children: seq<DocumentSymbol>): DocumentSymbol {
    DocumentSymbol(node.name, if node.detail.Some? then node.detail.value else node.name,
                   if children == [] then Absent else Present(children))
  }

  /** Every parent comes before its children. */
  predicate ParentsFirst(nodes: seq<StructureNode>, from: nat) {
    forall i :: from <= i < |nodes| && nodes[i].parent.Some? ==> nodes[i].parent.value < i
  }

  // ---- the forest the parent positions describe ----

  function Tree(nodes: seq<StructureNode>, k: nat): DocumentSymbol
    requires k < |nodes|
    decreases |nodes| - k, 0
  {
    SymbolOf(nodes[k], Trees(nodes, Some(k), k + 1))
  }

  /** The trees of the nodes with the given parent, from position `from` on, last node first. */
  function Trees(nodes: seq<StructureNode>, parent: Option<nat>, from: nat): seq<DocumentSymbol>
    requires from <= |nodes|
    decreases |nodes| - from, 1
  {
    if from == |nodes| then []
    else if nodes[from].parent == parent then Trees(nodes, parent, from + 1) + [Tree(nodes, from)]
    else Trees(nodes, parent, from + 1)
  }

  /** The positions of the nodes with the given parent, from `from` on, last node first. */
  function Positions(nodes: seq<StructureNode>, parent: Option<nat>, from: nat): seq<nat>
    requires from <= |nodes|
    decreases |nodes| - from
  {
    if from == |nodes| then []
    else if nodes[from].parent == parent then Positions(nodes, parent, from + 1) + [from]
    else Positions(nodes, parent, from + 1)
  }

  ghost predicate Descending(ks: seq<nat>) {
    forall i, j :: 0 <= i < j < |ks| ==> ks[j] < ks[i]
  }

  lemma {:induction false} PositionsDescend(nodes: seq<StructureNode>, parent: Option<nat>, from: nat)
    requires from <= |nodes|
    ensures forall k :: k in Positions(nodes, parent, from) ==> from <= k < |nodes|
    ensures Descending(Positions(nodes, parent, from))
    decreases |nodes| - from
  {
    if from < |nodes| {
      PositionsDescend(nodes, parent, from + 1);
      DescendingMore(Positions(nodes, parent, from + 1), from);
    }
  }

  lemma DescendingMore(ks: seq<nat>, k: nat)
    requires Descending(ks) && forall x :: x in ks ==> k < x
    ensures Descending(ks + [k])
  {
    forall i, j | 0 <= i < j < |ks + [k]| ensures (ks + [k])[j] < (ks + [k])[i] {
      assert ks[i] in ks;
    }
  }

  lemma {:induction false} PositionsAreAll(nodes: seq<StructureNode>, parent: Option<nat>, from: nat, k: nat)
    requires from <= k < |nodes|
    ensures k in Positions(nodes, parent, from) <==> nodes[k].parent == parent
    decreases |nodes| - from
  {
    PositionsDescend(nodes, parent, from + 1);
    var rest := Positions(nodes, parent, from + 1);
    assert Positions(nodes, parent, from) == if nodes[from].parent == parent then rest + [from] else rest;
    if from < k {
      PositionsAreAll(nodes, parent, from + 1, k);
    }
  }

  lemma {:induction false} TreesAtPositions(nodes: seq<StructureNode>, parent: Option<nat>, from: nat, i: nat)
    requires from <= |nodes|
    ensures |Trees(nodes, parent, from)| == |Positions(nodes, parent, from)|
    ensures i < |Positions(nodes, parent, from)| ==>
      Positions(nodes, parent, from)[i] < |nodes| &&
      Trees(nodes, parent, from)[i] == Tree(nodes, Positions(nodes, parent, from)[i])
    decreases |nodes| - from
  {
    hide Tree;
    if from < |nodes| {
      TreesAtPositions(nodes, parent, from + 1, i);
    }
  }

  /** Siblings, and roots, are exactly the nodes with that parent, each once, in descending order of position. */
  lemma SiblingsDescend(nodes: seq<StructureNode>, parent: Option<nat>, from: nat)
    requires from <= |nodes|
    ensures var ks := Positions(nodes, parent, from); var ts := Trees(nodes, parent, from);
            && |ts| == |ks|
            && (forall i :: 0 <= i < |ks| ==> ks[i] < |nodes| && ts[i] == Tree(nodes, ks[i]))
            && Descending(ks)
            && (forall k :: from <= k < |nodes| ==> (k in ks <==> nodes[k].parent == parent))
  {
    hide Tree, Trees, Positions;
    PositionsDescend(nodes, parent, from);
    TreesAtPositions(nodes, parent, from, 0);
    forall i | 0 <= i < |Positions(nodes, parent, from)|
      ensures Positions(nodes, parent, from)[i] < |nodes|
      ensures Trees(nodes, parent, from)[i] == Tree(nodes, Positions(nodes, parent, from)[i])
    {
      TreesAtPositions(nodes, parent, from, i);
    }
    forall k | from <= k < |nodes| ensures k in Positions(nodes, parent, from) <==> nodes[k].parent == parent {
      PositionsAreAll(nodes, parent, from, k);
    }
  }

  // ---- building it ----

  type Stack = seq<(DocumentSymbol, Option<nat>)>

  /** The stack after the nodes from `n` on are placed: each node left carries its children so far. */
  ghost predicate Placed(nodes: seq<StructureNode>, stack: Stack, roots: seq<DocumentSymbol>, n: nat) {
    && |stack| == n <= |nodes|
    && roots == Trees(nodes, None, n)
    && forall j :: 0 <= j < n ==> stack[j] == (SymbolOf(nodes[j], Trees(nodes, Some(j), n)), nodes[j].parent)
  }

  function AddChild(symbol: DocumentSymbol, child: DocumentSymbol): DocumentSymbol {
    symbol.(children := Present((if symbol.children.Absent? then [] else symbol.children.symbols) + [child]))
  }

  lemma AddChildIs(node: StructureNode, children: seq<DocumentSymbol>, child: DocumentSymbol)
    ensures AddChild(SymbolOf(node, children), child) == SymbolOf(node, children + [child])
  {}

  /** Popping a root adds it to the result. */
  lemma PlaceRoot(nodes: seq<StructureNode>, stack: Stack, roots: seq<DocumentSymbol>, n: nat)
    requires Placed(nodes, stack, roots, n + 1) && stack[n].1 == None
    ensures Placed(nodes, stack[..n], roots + [stack[n].0], n)
  {}

  /** Popping a child adds it to its parent. */
  lemma PlaceChild(nodes: seq<StructureNode>, stack: Stack, roots: seq<DocumentSymbol>, n: nat)
    requires Placed(nodes, stack, roots, n + 1) && stack[n].1.Some? && stack[n].1.value < n
    ensures var p := stack[n].1.value;
      Placed(nodes, stack[..n][p := (AddChild(stack[p].0, stack[n].0), stack[p].1)], roots, n)
  {
    hide SymbolOf, AddChild;
    var p := stack[n].1.value;
    AddChildIs(nodes[p], Trees(nodes, Some(p), n + 1), stack[n].0);
    assert stack[n].0 == Tree(nodes, n);
  }

  lemma NothingPlaced(nodes: seq<StructureNode>, stack: Stack)
    requires |stack| == |nodes|
    requires forall j :: 0 <= j < |nodes| ==> stack[j] == (SymbolOf(nodes[j], []), nodes[j].parent)
    ensures Placed(nodes, stack, [], |nodes|)
  {}

  /** The pop loop gives the forest, or indexes out of range exactly when some parent does not come first. */
  method BuildOutline(nodes: seq<StructureNode>) returns (r: Option<seq<DocumentSymbol>>)
    ensures r.None? <==> !ParentsFirst(nodes, 0)
    ensures r.Some? ==> r.value == Trees(nodes, None, 0)
  {
    hide Trees, Tree, SymbolOf, AddChild;
    var stack: Stack := [];
    for i := 0 to |nodes|
      invariant |stack| == i
      invariant forall j :: 0 <= j < i ==> stack[j] == (SymbolOf(nodes[j], []), nodes[j].parent)
    {
      stack := stack + [(SymbolOf(nodes[i], []), nodes[i].parent)];
    }
    NothingPlaced(nodes, stack);
    var roots: seq<DocumentSymbol> := [];
    while stack != []
      invariant Placed(nodes, stack, roots, |stack|)
      invariant ParentsFirst(nodes, |stack|)
      decreases |stack|
    {
      ghost var before := stack;
      var n := |stack| - 1;
      var (symbol, parent) := stack[n];
      stack := stack[..n];
      if parent.None? {
        PlaceRoot(nodes, before, roots, n);
        roots := roots + [symbol];
      } else {
        var p := parent.value;
        if p >= |stack| {
          return None;
        }
        PlaceChild(nodes, before, roots, n);
        stack := stack[p := (AddChild(stack[p].0, symbol), stack[p].1)];
      }
    }
    return Some(roots);
  }

  // ---- every symbol exactly once ----

  type Entry = (string, string)

  function EntryOf(node: StructureNode): Entry {
    (node.name, if node.detail.Some? then node.detail.value else node.name)
  }

  function Entries(symbol: DocumentSymbol): multiset<Entry> {
    multiset{(symbol.name, symbol.detail)} +
    if symbol.children.Absent? then multiset{} else AllEntries(symbol.children.symbols)
  }

  function AllEntries(symbols: seq<DocumentSymbol>): multiset<Entry> {
    if symbols == [] then multiset{} else AllEntries(symbols[..|symbols| - 1]) + Entries(symbols[|symbols| - 1])
  }

  function NodeEntries(nodes: seq<StructureNode>, from: nat): multiset<Entry>
    requires from <= |nodes|
    decreases |nodes| - from
  {
    if from == |nodes| then multiset{} else NodeEntries(nodes, from + 1) + multiset{EntryOf(nodes[from])}
  }

  /** The entries already hanging below the first `j` nodes once the nodes from `from` on are placed. */
  ghost function Hanging(nodes: seq<StructureNode>, from: nat, j: nat): multiset<Entry>
    requires j <= |nodes| && from <= |nodes|
  {
    if j == 0 then multiset{} else Hanging(nodes, from, j - 1) + AllEntries(Trees(nodes, Some(j - 1), from))
  }

  lemma TreesStep(nodes: seq<StructureNode>, parent: Option<nat>, from: nat)
    requires from < |nodes|
    ensures AllEntries(Trees(nodes, parent, from)) ==
            AllEntries(Trees(nodes, parent, from + 1)) +
            if nodes[from].parent == parent then Entries(Tree(nodes, from)) else multiset{}
  {}

  lemma TreeEntries(nodes: seq<StructureNode>, k: nat)
    requires k < |nodes|
    ensures Entries(Tree(nodes, k)) == multiset{EntryOf(nodes[k])} + AllEntries(Trees(nodes, Some(k), k + 1))
  {}

  lemma {:induction false} HangingStep(nodes: seq<StructureNode>, from: nat, j: nat)
    requires j <= from < |nodes|
    ensures Hanging(nodes, from, j) ==
            Hanging(nodes, from + 1, j) +
            if nodes[from].parent.Some? && nodes[from].parent.value < j then Entries(Tree(nodes, from)) else multiset{}
  {
    hide Tree, Trees, Entries, AllEntries;
    if j > 0 {
      HangingStep(nodes, from, j - 1);
      TreesStep(nodes, Some(j - 1), from);
    }
  }

  lemma Regroup(roots: multiset<Entry>, hanging: multiset<Entry>, below: multiset<Entry>, entry: multiset<Entry>)
    ensures (roots + (entry + below)) + hanging == roots + (hanging + below) + entry
    ensures roots + (hanging + (entry + below)) == roots + (hanging + below) + entry
  {}

  /** Placing one more node moves its entry from the nodes to the forest. */
  lemma PlaceOne(nodes: seq<StructureNode>, from: nat)
    requires from < |nodes| && (nodes[from].parent.Some? ==> nodes[from].parent.value < from)
    ensures AllEntries(Trees(nodes, None, from)) + Hanging(nodes, from, from) ==
            AllEntries(Trees(nodes, None, from + 1)) + Hanging(nodes, from + 1, from + 1)
              + multiset{EntryOf(nodes[from])}
  {
    hide Tree, Trees, Entries, AllEntries, EntryOf;
    var roots, hanging := AllEntries(Trees(nodes, None, from + 1)), Hanging(nodes, from + 1, from);
    var below, entry := AllEntries(Trees(nodes, Some(from), from + 1)), multiset{EntryOf(nodes[from])};
    TreesStep(nodes, None, from);
    HangingStep(nodes, from, from);
    TreeEntries(nodes, from);
    Regroup(roots, hanging, below, entry);
    assert Hanging(nodes, from + 1, from + 1) == hanging + below;
    hide Hanging;
    if nodes[from].parent.None? {
      assert hanging + multiset{} == hanging;
    } else {
      assert roots + multiset{} == roots;
    }
  }

  /** Placing the nodes from the end loses and invents nothing. */
  lemma {:induction false} NothingLost(nodes: seq<StructureNode>, from: nat)
    requires from <= |nodes| && ParentsFirst(nodes, 0)
    ensures AllEntries(Trees(nodes, None, from)) + Hanging(nodes, from, from) == NodeEntries(nodes, from)
    decreases |nodes| - from
  {
    hide Tree, Trees, Entries, AllEntries, EntryOf, Hanging;
    if from == |nodes| {
      NothingPlacedYet(nodes);
    } else {
      NothingLost(nodes, from + 1);
      PlaceOne(nodes, from);
    }
  }

  lemma NothingPlacedYet(nodes: seq<StructureNode>)
    ensures AllEntries(Trees(nodes, None, |nodes|)) + Hanging(nodes, |nodes|, |nodes|) == multiset{}
  {
    NothingHangs(nodes, |nodes|);
  }

  lemma {:induction false} NothingHangs(nodes: seq<StructureNode>, j: nat)
    requires j <= |nodes|
    ensures Hanging(nodes, |nodes|, j) == multiset{}
  {
    if j > 0 {
      NothingHangs(nodes, j - 1);
    }
  }

  /** The outline holds every node exactly once. */
  lemma OutlineIsComplete(nodes: seq<StructureNode>)
    requires ParentsFirst(nodes, 0)
    ensures AllEntries(Trees(nodes, None, 0)) == NodeEntries(nodes, 0)
  {
    NothingLost(nodes, 0);
  }

  /** A symbol lists children only if it has some, and so do they. */
  predicate Tidy(symbol: DocumentSymbol) {
    symbol.children.Present? ==> symbol.children.symbols != [] && AllTidy(symbol.children.symbols)
  }

  predicate AllTidy(symbols: seq<DocumentSymbol>) {
    forall i :: 0 <= i < |symbols| ==> Tidy(symbols[i])
  }

  /** No symbol of the outline has an empty list of children. */
  lemma {:induction false} OutlineIsTidy(nodes: seq<StructureNode>, parent: Option<nat>, from: nat)
    requires from <= |nodes|
    ensures AllTidy(Trees(nodes, parent, from))
    decreases |nodes| - from
  {
    if from < |nodes| {
      OutlineIsTidy(nodes, parent, from + 1);
      OutlineIsTidy(nodes, Some(from), from + 1);
    }
  }

  /** A symbol carries its node's name, and its detail or else the name again. */
  lemma SymbolShows(nodes: seq<StructureNode>, k: nat)
    requires k < |nodes|
    ensures Tree(nodes, k).name == nodes[k].name
    ensures nodes[k].detail.Some? ==> Tree(nodes, k).detail == nodes[k].detail.value
    ensures nodes[k].detail.None? ==> Tree(nodes, k).detail == nodes[k].name
    ensures Tree(nodes, k).children.Absent? <==> forall j :: k < j < |nodes| ==> nodes[j].parent != Some(k)
  {
    SiblingsDescend(nodes, Some(k), k + 1);
    var ks := Positions(nodes, Some(k), k + 1);
    if ks == [] {
      assert forall j :: k < j < |nodes| ==> j !in ks;
    } else {
      PositionsDescend(nodes, Some(k), k + 1);
      assert ks[0] in ks;
    }
  }
}
