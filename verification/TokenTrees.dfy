/**
  The token-tree reader behind the built-in macro expansions: it reads back the text the expansions print.
 */
module TokenTrees {
  import opened Wrappers
  import opened Texts

  datatype DelimiterKind = Brace | Parenthesis | Bracket

  datatype TokenTree = Ident(text: string) | Punct(ch: char) | Nested(subtree: Subtree)

  datatype Subtree = Subtree(delimiter: Option<DelimiterKind>, trees: seq<TokenTree>)

  // ---- characters and words ----

  predicate IsOpen(c: char) {
    c == '{' || c == '(' || c == '['
  }

  predicate IsClose(c: char) {
    c == '}' || c == ')' || c == ']'
  }

  predicate IsPunct(c: char) {
    c == ':' || c == ';' || c == ','
  }

  function CloseOf(open: char): char
    requires IsOpen(open)
  {
    if open == '{' then '}' else if open == '(' then ')' else ']'
  }

  function KindOf(open: char): DelimiterKind
    requires IsOpen(open)
  {
    if open == '{' then Brace else if open == '(' then Parenthesis else Bracket
  }

  function DropLeading(s: string, c: char): (r: string)
    ensures |r| <= |s| && (s != [] && s[0] == c ==> |r| < |s|)
  {
    if s != [] && s[0] == c then DropLeading(s[1..], c) else s
  }

  function DropTrailing(s: string, c: char): (r: string)
    ensures |r| <= |s|
  {
    if s != [] && s[|s| - 1] == c then DropTrailing(s[..|s| - 1], c) else s
  }

  function WordLength(s: string): (n: nat)
    ensures n <= |s| && (forall i :: 0 <= i < n ==> !IsWhite(s[i])) && (n < |s| ==> IsWhite(s[n]))
  {
    if s == [] || IsWhite(s[0]) then 0 else 1 + WordLength(s[1..])
  }

  predicate NoEmpty(words: seq<string>) {
    forall i :: 0 <= i < |words| ==> words[i] != []
  }

  /** The words of a text, separated by white space. */
  function Words(s: string): (ws: seq<string>)
    ensures NoEmpty(ws)
    ensures |ws| <= |s|
    decreases |s|
  {
    if s == [] then []
    else if IsWhite(s[0]) then Words(s[1..])
    else [s[..WordLength(s)]] + Words(s[WordLength(s)..])
  }

  // ---- finding the text between brackets ----

  /** The positions of `c` in `s`, from `start` on. */
  function Indices(s: string, c: char, start: nat): (r: seq<nat>)
    requires start <= |s|
    ensures forall i :: 0 <= i < |r| ==> start <= r[i] < |s| && s[r[i]] == c
    decreases |s| - start
  {
    if start == |s| then []
    else if s[start] == c then [start] + Indices(s, c, start + 1)
    else Indices(s, c, start + 1)
  }

  /** A search that finds a text and what follows it, finds nothing, or indexes out of range. */
  datatype Wrapped = Found(inside: string, remaining: string) | NotFound | OutOfRange

  function WrapFrom(content: string, opens: seq<nat>, closes: seq<nat>, i: nat): Wrapped
    requires i <= |opens|
    requires forall k :: 0 <= k < |opens| ==> opens[k] < |content|
    requires forall k :: 0 <= k < |closes| ==> closes[k] < |content|
    decreases |opens| - i
  {
    if i == |opens| then NotFound
    else if i >= |closes| then OutOfRange
    else if exists k :: 0 <= k < |opens| && opens[k] < closes[i] then
      if opens[i] > closes[i] + 1 then OutOfRange
      else Found(content[opens[i]..closes[i] + 1], content[closes[i] + 1..])
    else WrapFrom(content, opens, closes, i + 1)
  }

  function Wrap(content: string, open: char): Wrapped
    requires IsOpen(open)
  {
    WrapFrom(content, Indices(content, open, 0), Indices(content, CloseOf(open), 0), 0)
  }

  lemma {:induction false} WrapIsInside(content: string, opens: seq<nat>, closes: seq<nat>, i: nat)
    requires i <= |opens|
    requires forall k :: 0 <= k < |opens| ==> opens[k] < |content|
    requires forall k :: 0 <= k < |closes| ==> closes[k] < |content|
    ensures var r := WrapFrom(content, opens, closes, i);
      r.Found? ==> |r.remaining| < |content| && exists k :: 0 <= k < |opens| && |r.inside| <= |content| - opens[k]
    decreases |opens| - i
  {
    if i < |opens| && i < |closes| && !(exists k :: 0 <= k < |opens| && opens[k] < closes[i]) {
      WrapIsInside(content, opens, closes, i + 1);
    }
  }

  /** What is found is no longer than the text, and shorter unless the text starts with the bracket. */
  lemma WrapShortens(content: string, open: char)
    requires IsOpen(open)
    ensures var r := Wrap(content, open);
      r.Found? ==>
        && |r.remaining| < |content| && |r.inside| <= |content|
        && (content[0] != open ==> |r.inside| < |content|)
  {
    var opens, closes := Indices(content, open, 0), Indices(content, CloseOf(open), 0);
    WrapIsInside(content, opens, closes, 0);
  }

  // ---- reading ----

  const USIZE_SIZE: nat := 0x1_0000_0000

  /** The text left to search is shorter than `n`, or as long but not starting with a bracket. */
  predicate Within(remaining: string, n: nat) {
    |remaining| < n || (|remaining| == n && (n == 0 || !IsOpen(remaining[0])))
  }

  /** Read a subtree from a text; `None` is a panic. */
  function CreateSubtree(text: string): Option<Subtree>
    decreases |text|, 1, 0
  {
    var s := Trim(text);
    var delimited := s != [] && IsOpen(s[0]);
    var tokens := if delimited then DropTrailing(DropLeading(s, s[0]), CloseOf(s[0])) else s;
    var trees := ReadWords(Words(tokens), 0, tokens, |text|);
    if trees.None? then None
    else Some(Subtree(if delimited then Some(KindOf(s[0])) else None, trees.value))
  }

  /** Read word by word; `open` counts brackets not yet closed, and `remaining` is the text not yet searched. */
  function ReadWords(words: seq<string>, open: nat, remaining: string, n: nat): Option<seq<TokenTree>>
    requires NoEmpty(words)
    requires Within(remaining, n) && (words != [] ==> n > 0)
    decreases n, 0, |words|
  {
    if words == [] then Some([]) else
    var word, rest := words[0], words[1..];
    var c := word[0];
    if IsClose(c) then ReadWords(rest, if open == 0 then USIZE_SIZE - 1 else open - 1, remaining, n)
    else if open != 0 then ReadWords(rest, open, remaining, n)
    else if IsOpen(c) then
      WrapShortens(remaining, c);
      var w := Wrap(remaining, c);
      if w.OutOfRange? then None else
      var (inside, next) := if w.Found? then (w.inside, w.remaining) else ("", "");
      assert |inside| < n;
      var sub := CreateSubtree(inside);
      if sub.None? then None else Prepend([Nested(sub.value)], ReadWords(rest, 1, next, n))
    else
      Prepend([if IsPunct(c) then Punct(c) else Ident(word)], ReadWords(rest, 0, remaining, n))
  }

  function Prepend(a: seq<TokenTree>, b: Option<seq<TokenTree>>): Option<seq<TokenTree>> {
    if b.None? then None else Some(a + b.value)
  }

  // ---- flat texts ----

  /** A word that is not made of brackets and does not start with punctuation, such as an identifier. */
  predicate IsName(s: string) {
    s != [] && !IsPunct(s[0]) && NoBrackets(s) && forall i :: 0 <= i < |s| ==> !IsWhite(s[i])
  }

  predicate NoBrackets(s: string) {
    forall i :: 0 <= i < |s| ==> !IsOpen(s[i]) && !IsClose(s[i])
  }

  datatype Leaf = Word(text: string) | Mark(ch: char)

  /** A name, a punctuation character, or a bracket group of such. */
  datatype Item = Single(leaf: Leaf) | Group(open: char, inner: seq<Leaf>)

  predicate GoodLeaf(leaf: Leaf) {
    match leaf case Word(text) => IsName(text) case Mark(ch) => IsPunct(ch)
  }

  predicate GoodItem(item: Item) {
    match item
    case Single(leaf) => GoodLeaf(leaf)
    case Group(open, inner) => IsOpen(open) && GoodLeaves(inner)
  }

  predicate GoodLeaves(leaves: seq<Leaf>) {
    forall i :: 0 <= i < |leaves| ==> GoodLeaf(leaves[i])
  }

  predicate GoodItems(items: seq<Item>) {
    forall i :: 0 <= i < |items| ==> GoodItem(items[i])
  }

  function LeafText(leaf: Leaf): string {
    match leaf case Word(text) => text case Mark(ch) => [ch]
  }

  function InnerText(inner: seq<Leaf>): string {
    if inner == [] then "" else LeafText(inner[0]) + " " + InnerText(inner[1..])
  }

  function GroupText(open: char, inner: seq<Leaf>): string
    requires IsOpen(open)
  {
    [open] + " " + InnerText(inner) + [CloseOf(open)]
  }

  function ItemText(item: Item): string
    requires GoodItem(item)
  {
    match item case Single(leaf) => LeafText(leaf) case Group(open, inner) => GroupText(open, inner)
  }

  /** The items, separated by spaces. */
  function TextOf(items: seq<Item>): string
    requires GoodItems(items)
    decreases |items|, 0
  {
    if items == [] then "" else ItemText(items[0]) + TailOf(items[1..])
  }

  function TailOf(items: seq<Item>): string
    requires GoodItems(items)
    decreases |items|, 1
  {
    if items == [] then "" else " " + TextOf(items)
  }

  function LeafTree(leaf: Leaf): TokenTree {
    match leaf case Word(text) => Ident(text) case Mark(ch) => Punct(ch)
  }

  function LeafTrees(leaves: seq<Leaf>): seq<TokenTree> {
    if leaves == [] then [] else [LeafTree(leaves[0])] + LeafTrees(leaves[1..])
  }

  function ItemTree(item: Item): TokenTree
    requires GoodItem(item)
  {
    match item
    case Single(leaf) => LeafTree(leaf)
    case Group(open, inner) => Nested(Subtree(Some(KindOf(open)), LeafTrees(inner)))
  }

  /** One tree for every item. */
  function TreesOf(items: seq<Item>): (r: seq<TokenTree>)
    requires GoodItems(items)
    ensures |r| == |items|
  {
    if items == [] then [] else [ItemTree(items[0])] + TreesOf(items[1..])
  }

  // ---- their words ----

  predicate IsWord(w: string) {
    w != [] && forall i :: 0 <= i < |w| ==> !IsWhite(w[i])
  }

  lemma {:induction false} WordLengthIs(w: string, rest: string)
    requires (forall i :: 0 <= i < |w| ==> !IsWhite(w[i])) && (rest == [] || IsWhite(rest[0]))
    ensures WordLength(w + rest) == |w|
    decreases |w|
  {
    if w != [] {
      assert (w + rest)[1..] == w[1..] + rest;
      WordLengthIs(w[1..], rest);
    } else {
      assert w + rest == rest;
    }
  }

  lemma WordsCons(w: string, rest: string)
    requires IsWord(w) && (rest == [] || IsWhite(rest[0]))
    ensures Words(w + rest) == [w] + Words(rest)
  {
    WordLengthIs(w, rest);
    assert (w + rest)[..|w|] == w && (w + rest)[|w|..] == rest;
  }

  lemma WordsSkip(rest: string)
    ensures Words(" " + rest) == Words(rest)
  {
    assert (" " + rest)[1..] == rest;
  }

  /** A word, a space, and the rest. */
  lemma WordsNext(w: string, rest: string)
    requires IsWord(w)
    ensures Words(w + " " + rest) == [w] + Words(rest)
  {
    assert w + " " + rest == w + (" " + rest);
    WordsCons(w, " " + rest);
    WordsSkip(rest);
  }

  lemma LeafIsWord(leaf: Leaf)
    requires GoodLeaf(leaf)
    ensures IsWord(LeafText(leaf)) && NoBrackets(LeafText(leaf))
  {}

  lemma BracketIsWord(c: char)
    requires IsOpen(c) || IsClose(c)
    ensures IsWord([c])
  {}

  function LeafWords(leaves: seq<Leaf>): seq<string> {
    if leaves == [] then [] else [LeafText(leaves[0])] + LeafWords(leaves[1..])
  }

  function ItemWords(item: Item): seq<string>
    requires GoodItem(item)
  {
    match item
    case Single(leaf) => [LeafText(leaf)]
    case Group(open, inner) => [[open]] + (LeafWords(inner) + [[CloseOf(open)]])
  }

  function AllWords(items: seq<Item>): seq<string>
    requires GoodItems(items)
  {
    if items == [] then [] else ItemWords(items[0]) + AllWords(items[1..])
  }

  lemma {:induction false} InnerWords(inner: seq<Leaf>, rest: string)
    requires GoodLeaves(inner)
    ensures Words(InnerText(inner) + rest) == LeafWords(inner) + Words(rest)
    decreases |inner|
  {
    hide Words, LeafText;
    if inner == [] {
      assert InnerText(inner) + rest == rest;
    } else {
      var w, tail := LeafText(inner[0]), InnerText(inner[1..]) + rest;
      LeafIsWord(inner[0]);
      assert InnerText(inner) + rest == w + " " + tail;
      WordsNext(w, tail);
      InnerWords(inner[1..], rest);
    }
  }

  lemma GroupWords(open: char, inner: seq<Leaf>, rest: string)
    requires IsOpen(open) && GoodLeaves(inner) && (rest == [] || IsWhite(rest[0]))
    ensures Words(GroupText(open, inner) + rest) == [[open]] + (LeafWords(inner) + [[CloseOf(open)]]) + Words(rest)
  {
    hide Words, InnerText, LeafWords;
    var c := [CloseOf(open)];
    assert GroupText(open, inner) + rest == [open] + " " + (InnerText(inner) + (c + rest));
    BracketIsWord(open);
    BracketIsWord(CloseOf(open));
    WordsNext([open], InnerText(inner) + (c + rest));
    InnerWords(inner, c + rest);
    WordsCons(c, rest);
  }

  lemma {:induction false} TextWords(items: seq<Item>)
    requires GoodItems(items)
    ensures Words(TextOf(items)) == AllWords(items)
    decreases |items|
  {
    hide Words, GroupText, LeafText;
    if items == [] {
      NoWords();
    } else {
      var rest := TailOf(items[1..]);
      TextWords(items[1..]);
      if items[1..] == [] {
        NoWords();
      } else {
        WordsSkip(TextOf(items[1..]));
      }
      match items[0] {
        case Single(leaf) =>
          LeafIsWord(leaf);
          WordsCons(LeafText(leaf), rest);
        case Group(open, inner) =>
          GroupWords(open, inner, rest);
      }
    }
  }

  lemma NoWords()
    ensures Words("") == []
  {}

  // ---- reading leaves and groups ----

  lemma PrependTwice(a: seq<TokenTree>, b: seq<TokenTree>, x: Option<seq<TokenTree>>)
    ensures Prepend(a, Prepend(b, x)) == Prepend(a + b, x)
  {
    if x.Some? {
      assert a + (b + x.value) == a + b + x.value;
    }
  }

  lemma PrependNothing(x: Option<seq<TokenTree>>)
    ensures Prepend([], x) == x
  {
    if x.Some? {
      assert [] + x.value == x.value;
    }
  }

  lemma ReadLeaf(leaf: Leaf, ws: seq<string>, remaining: string, n: nat)
    requires GoodLeaf(leaf) && NoEmpty(ws) && Within(remaining, n) && n > 0
    ensures NoEmpty([LeafText(leaf)] + ws)
    ensures ReadWords([LeafText(leaf)] + ws, 0, remaining, n) ==
            Prepend([LeafTree(leaf)], ReadWords(ws, 0, remaining, n))
    ensures ReadWords([LeafText(leaf)] + ws, 1, remaining, n) == ReadWords(ws, 1, remaining, n)
  {
    var words := [LeafText(leaf)] + ws;
    assert words[1..] == ws && words[0] == LeafText(leaf);
  }

  lemma {:induction false} ReadLeaves(leaves: seq<Leaf>, ws: seq<string>, remaining: string, n: nat)
    requires GoodLeaves(leaves) && NoEmpty(ws) && Within(remaining, n) && n > 0
    ensures NoEmpty(LeafWords(leaves) + ws)
    ensures ReadWords(LeafWords(leaves) + ws, 0, remaining, n) ==
            Prepend(LeafTrees(leaves), ReadWords(ws, 0, remaining, n))
    ensures ReadWords(LeafWords(leaves) + ws, 1, remaining, n) == ReadWords(ws, 1, remaining, n)
    decreases |leaves|
  {
    hide ReadWords, LeafText, LeafTree, Prepend;
    if leaves == [] {
      assert LeafWords(leaves) + ws == ws;
      PrependNothing(ReadWords(ws, 0, remaining, n));
    } else {
      var rest := LeafWords(leaves[1..]) + ws;
      ReadLeaves(leaves[1..], ws, remaining, n);
      assert LeafWords(leaves) + ws == [LeafText(leaves[0])] + rest;
      ReadLeaf(leaves[0], rest, remaining, n);
      PrependTwice([LeafTree(leaves[0])], LeafTrees(leaves[1..]), ReadWords(ws, 0, remaining, n));
    }
  }

  lemma {:induction false} InnerEnds(inner: seq<Leaf>)
    requires GoodLeaves(inner)
    ensures NoBrackets(InnerText(inner))
    ensures inner == [] ==> InnerText(inner) == ""
    ensures inner != [] ==> InnerText(inner) != "" && InnerText(inner)[|InnerText(inner)| - 1] == ' '
    decreases |inner|
  {
    if inner != [] {
      LeafIsWord(inner[0]);
      InnerEnds(inner[1..]);
    }
  }

  /** Of a group's text, the brackets are stripped and nothing else. */
  lemma Stripped(open: char, inner: seq<Leaf>)
    requires IsOpen(open) && GoodLeaves(inner)
    ensures var s := GroupText(open, inner);
      Trim(s) == s && DropTrailing(DropLeading(s, open), CloseOf(open)) == " " + InnerText(inner)
  {
    hide InnerText, TrimStart, TrimEnd;
    var s, t := GroupText(open, inner), " " + InnerText(inner);
    var close := CloseOf(open);
    InnerEnds(inner);
    NotTrimmed(s);
    assert t[0] == ' ';
    assert s[1..] == t + [close];
    assert (t + [close])[0] == t[0];
    assert DropLeading(t + [close], open) == t + [close];
    assert DropLeading(s, open) == DropLeading(t + [close], open);
    assert (t + [close])[..|t|] == t && t[|t| - 1] == ' ';
    assert DropTrailing(t, close) == t;
    assert DropTrailing(t + [close], close) == DropTrailing(t, close);
  }

  lemma NotTrimmed(s: string)
    requires s != "" && !IsWhite(s[0]) && !IsWhite(s[|s| - 1])
    ensures Trim(s) == s
  {}

  /** The three pairs of brackets. */
  lemma BracketsAre(c: char)
    ensures IsOpen(c) <==> c in "{(["
    ensures IsClose(c) <==> c in "})]"
    ensures IsPunct(c) <==> c in ":;,"
    ensures CloseOf('{') == '}' && CloseOf('(') == ')' && CloseOf('[') == ']'
    ensures KindOf('{') == Brace && KindOf('(') == Parenthesis && KindOf('[') == Bracket
  {
    assert "{(["[0] == '{' && "{(["[1] == '(' && "{(["[2] == '[';
    assert "})]"[0] == '}' && "})]"[1] == ')' && "})]"[2] == ']';
    assert ":;,"[0] == ':' && ":;,"[1] == ';' && ":;,"[2] == ',';
  }

  /** A group by itself is read as its subtree. */
  lemma GroupReads(open: char, inner: seq<Leaf>)
    requires IsOpen(open) && GoodLeaves(inner)
    ensures CreateSubtree(GroupText(open, inner)) == Some(Subtree(Some(KindOf(open)), LeafTrees(inner)))
  {
    hide ReadWords, Words, Trim, DropLeading, DropTrailing, InnerText;
    var s, tokens := GroupText(open, inner), " " + InnerText(inner);
    Stripped(open, inner);
    InnerWords(inner, "");
    assert InnerText(inner) + "" == InnerText(inner);
    WordsSkip(InnerText(inner));
    NoWords();
    assert LeafWords(inner) + [] == LeafWords(inner);
    ReadLeaves(inner, [], tokens, |s|);
    NothingLeft(tokens, |s|);
  }

  lemma NothingLeft(remaining: string, n: nat)
    requires Within(remaining, n)
    ensures NoEmpty([]) && ReadWords([], 0, remaining, n) == Some([])
    ensures forall a :: Prepend(a, Some([])) == Some(a)
  {
    forall a: seq<TokenTree> ensures a + [] == a {}
  }

  lemma {:induction false} FirstIndex(s: string, c: char, start: nat, at: nat)
    requires start <= at < |s| && s[at] == c && (forall i :: start <= i < at ==> s[i] != c)
    ensures Indices(s, c, start) != [] && Indices(s, c, start)[0] == at
    decreases at - start
  {
    if start < at {
      FirstIndex(s, c, start + 1, at);
    }
  }

  /** The first group is found, whatever comes before and after. */
  lemma WrapFirst(pre: string, open: char, inner: seq<Leaf>, suf: string)
    requires NoBrackets(pre) && IsOpen(open) && GoodLeaves(inner)
    ensures Wrap(pre + GroupText(open, inner) + suf, open) == Found(GroupText(open, inner), suf)
  {
    hide InnerText, Indices;
    var g := GroupText(open, inner);
    var s, at, end := pre + g + suf, |pre|, |pre| + |g| - 1;
    InnerEnds(inner);
    assert g[0] == open && g[1] == ' ' && g[|g| - 1] == CloseOf(open);
    assert forall i :: 2 <= i < |g| - 1 ==> g[i] == InnerText(inner)[i - 2];
    assert s[at] == open && s[end] == CloseOf(open);
    FirstIndex(s, open, 0, at);
    FirstIndex(s, CloseOf(open), 0, end);
    assert s[at..end + 1] == g && s[end + 1..] == suf;
  }

  /** The search goes from the first open bracket to the first close bracket, whatever else lies between. */
  lemma WrapToFirstClose(pre: string, open: char, mid: string, suf: string)
    requires IsOpen(open) && open !in pre && CloseOf(open) !in pre && CloseOf(open) !in mid
    ensures Wrap(pre + [open] + mid + [CloseOf(open)] + suf, open) == Found([open] + mid + [CloseOf(open)], suf)
  {
    hide Indices;
    var g := [open] + mid + [CloseOf(open)];
    var s, at, end := pre + [open] + mid + [CloseOf(open)] + suf, |pre|, |pre| + 1 + |mid|;
    assert s == pre + g + suf;
    assert s[at] == open && s[end] == CloseOf(open);
    assert forall i :: 0 <= i < at ==> s[i] == pre[i];
    assert forall i :: at < i < end ==> s[i] == mid[i - at - 1];
    FirstIndex(s, open, 0, at);
    FirstIndex(s, CloseOf(open), 0, end);
    assert s[at..end + 1] == g && s[end + 1..] == suf;
  }

  lemma {:induction false} NoIndex(s: string, c: char, start: nat)
    requires start <= |s| && c !in s[start..]
    ensures Indices(s, c, start) == []
    decreases |s| - start
  {
    if start < |s| {
      assert s[start] in s[start..];
      assert forall x :: x in s[start + 1..] ==> x in s[start..];
      NoIndex(s, c, start + 1);
    }
  }

  lemma {:induction false} SomeIndex(s: string, c: char, start: nat, at: nat)
    requires start <= at < |s| && s[at] == c
    ensures Indices(s, c, start) != []
    decreases at - start
  {
    if start < at {
      SomeIndex(s, c, start + 1, at);
    }
  }

  /** Without an open bracket nothing is found; with one but no close bracket the search panics. */
  lemma WrapFails(s: string, open: char)
    requires IsOpen(open)
    ensures open !in s ==> Wrap(s, open) == NotFound
    ensures open in s && CloseOf(open) !in s ==> Wrap(s, open) == OutOfRange
  {
    hide Indices;
    assert s[0..] == s;
    if open !in s {
      NoIndex(s, open, 0);
    } else if CloseOf(open) !in s {
      var at :| 0 <= at < |s| && s[at] == open;
      SomeIndex(s, open, 0, at);
      NoIndex(s, CloseOf(open), 0);
    }
  }

  lemma {:induction false} SkipLeaves(leaves: seq<Leaf>, open: nat, remaining: string, n: nat)
    requires GoodLeaves(leaves) && open != 0 && Within(remaining, n) && n > 0
    ensures NoEmpty(LeafWords(leaves)) && ReadWords(LeafWords(leaves), open, remaining, n) == Some([])
    decreases |leaves|
  {
    if leaves != [] {
      LeafIsWord(leaves[0]);
      SkipLeaves(leaves[1..], open, remaining, n);
      assert LeafWords(leaves)[1..] == LeafWords(leaves[1..]);
    }
  }

  /** A close bracket too many makes the count wrap around, and nothing after it is read. */
  lemma UnmatchedCloseStops(close: char, leaves: seq<Leaf>, remaining: string, n: nat)
    requires IsClose(close) && GoodLeaves(leaves) && Within(remaining, n) && n > 0
    ensures NoEmpty([[close]] + LeafWords(leaves))
    ensures ReadWords([[close]] + LeafWords(leaves), 0, remaining, n) == Some([])
  {
    SkipLeaves(leaves, USIZE_SIZE - 1, remaining, n);
    assert ([[close]] + LeafWords(leaves))[1..] == LeafWords(leaves);
  }

  lemma ReadOpen(open: char, ws: seq<string>, remaining: string, n: nat, inside: string, next: string, sub: Subtree)
    requires IsOpen(open) && NoEmpty(ws) && Within(remaining, n) && n > 0
    requires Wrap(remaining, open) == Found(inside, next) && CreateSubtree(inside) == Some(sub)
    ensures NoEmpty([[open]] + ws) && Within(next, n)
    ensures ReadWords([[open]] + ws, 0, remaining, n) == Prepend([Nested(sub)], ReadWords(ws, 1, next, n))
  {
    hide Wrap, CreateSubtree;
    WrapShortens(remaining, open);
    assert ([[open]] + ws)[1..] == ws && ([[open]] + ws)[0] == [open];
  }

  lemma ReadClose(close: char, ws: seq<string>, remaining: string, n: nat)
    requires IsClose(close) && NoEmpty(ws) && Within(remaining, n) && n > 0
    ensures NoEmpty([[close]] + ws) && ReadWords([[close]] + ws, 1, remaining, n) == ReadWords(ws, 0, remaining, n)
  {
    assert ([[close]] + ws)[1..] == ws && ([[close]] + ws)[0] == [close];
  }

  /** A group is read as its subtree, leaving the text after it. */
  lemma ReadGroup(pre: string, open: char, inner: seq<Leaf>, ws: seq<string>, suf: string, n: nat)
    requires NoBrackets(pre) && IsOpen(open) && GoodLeaves(inner) && NoEmpty(ws) && n > 0
    requires Within(pre + GroupText(open, inner) + suf, n)
    ensures var words := [[open]] + (LeafWords(inner) + [[CloseOf(open)]]) + ws;
      && NoEmpty(words) && Within(suf, n)
      && ReadWords(words, 0, pre + GroupText(open, inner) + suf, n) ==
         Prepend([Nested(Subtree(Some(KindOf(open)), LeafTrees(inner)))], ReadWords(ws, 0, suf, n))
  {
    hide Wrap, CreateSubtree, ReadWords, GroupText, LeafWords, LeafTrees, Within;
    var close := [CloseOf(open)];
    var sub := Subtree(Some(KindOf(open)), LeafTrees(inner));
    WrapFirst(pre, open, inner, suf);
    GroupReads(open, inner);
    SuffixWithin(pre, GroupText(open, inner), suf, n, open);
    ReadClose(close[0], ws, suf, n);
    ReadLeaves(inner, [close] + ws, suf, n);
    ReadOpen(open, LeafWords(inner) + ([close] + ws), pre + GroupText(open, inner) + suf, n,
             GroupText(open, inner), suf, sub);
    assert [[open]] + (LeafWords(inner) + [close]) + ws == [[open]] + (LeafWords(inner) + ([close] + ws));
  }

  lemma SuffixWithin(pre: string, g: string, suf: string, n: nat, open: char)
    requires IsOpen(open) && Within(pre + g + suf, n) && Wrap(pre + g + suf, open) == Found(g, suf)
    ensures Within(suf, n)
  {
    hide Wrap;
    WrapShortens(pre + g + suf, open);
  }

  // ---- reading a whole text ----

  lemma {:induction false} AllWordsNoEmpty(items: seq<Item>)
    requires GoodItems(items)
    ensures NoEmpty(AllWords(items))
  {
    TextWords(items);
  }

  /** The rest of a text is read tree by tree; `pre` is what was read since the last group. */
  lemma {:induction false} ReadAll(pre: string, items: seq<Item>, n: nat)
    requires NoBrackets(pre) && GoodItems(items) && n > 0 && Within(pre + TextOf(items), n)
    ensures NoEmpty(AllWords(items))
    ensures ReadWords(AllWords(items), 0, pre + TextOf(items), n) == Some(TreesOf(items))
    decreases |items|
  {
    hide ReadWords, GroupText, LeafText, LeafTrees, LeafTree, LeafWords, NoEmpty, Within;
    AllWordsNoEmpty(items);
    if items == [] {
      NothingLeft(pre + TextOf(items), n);
    } else {
      var rest := items[1..];
      AllWordsNoEmpty(rest);
      match items[0] {
        case Single(leaf) =>
          var now := pre + LeafText(leaf) + if rest == [] then "" else " ";
          assert pre + TextOf(items) == now + TextOf(rest);
          LeafIsWord(leaf);
          ReadAll(now, rest, n);
          ReadLeaf(leaf, AllWords(rest), pre + TextOf(items), n);
        case Group(open, inner) =>
          var suf := TailOf(rest);
          assert pre + TextOf(items) == pre + GroupText(open, inner) + suf;
          ReadGroup(pre, open, inner, AllWords(rest), suf, n);
          assert suf == (if rest == [] then "" else " ") + TextOf(rest);
          ReadAll(if rest == [] then "" else " ", rest, n);
      }
    }
  }

  lemma {:induction false} TextEnds(items: seq<Item>)
    requires GoodItems(items) && items != []
    ensures var s := TextOf(items); s != "" && !IsWhite(s[|s| - 1])
    ensures items[0].Single? ==> !IsWhite(TextOf(items)[0]) && !IsOpen(TextOf(items)[0])
    decreases |items|
  {
    hide InnerText;
    var first, s := ItemText(items[0]), TextOf(items);
    assert first != "" && !IsWhite(first[|first| - 1]) by {
      ItemEnds(items[0]);
    }
    if items[1..] != [] {
      TextEnds(items[1..]);
    }
    if items[0].Single? {
      LeafIsWord(items[0].leaf);
      assert s[0] == first[0];
    }
  }

  lemma ItemEnds(item: Item)
    requires GoodItem(item)
    ensures var s := ItemText(item); s != "" && !IsWhite(s[|s| - 1])
  {
    if item.Single? {
      LeafIsWord(item.leaf);
    }
  }

  /** Names, punctuation and flat groups, printed with spaces, are read back as one tree each, without panic. */
  lemma TextReadsBack(items: seq<Item>)
    requires GoodItems(items) && (items == [] || items[0].Single?)
    ensures CreateSubtree(TextOf(items)) == Some(Subtree(None, TreesOf(items)))
  {
    hide ReadWords, Words, Trim, AllWords, TextOf, ItemTree;
    var s := TextOf(items);
    TextWords(items);
    if items == [] {
      NothingToRead();
      assert TextOf([]) == "" by { NoText(); }
    } else {
      TextEnds(items);
      NotTrimmed(s);
      assert "" + s == s;
      ReadAll("", items, |s|);
    }
  }

  lemma NoText()
    ensures TextOf([]) == ""
  {}

  lemma NothingToRead()
    ensures CreateSubtree("") == Some(Subtree(None, []))
  {}

  // ---- the expansions ----

  lemma {:induction false} TextOver(a: seq<Item>, b: seq<Item>)
    requires GoodItems(a) && GoodItems(b) && a != []
    ensures GoodItems(a + b) && TextOf(a + b) == TextOf(a) + TailOf(b) && TreesOf(a + b) == TreesOf(a) + TreesOf(b)
    decreases |a|
  {
    hide ItemText, ItemTree;
    assert (a + b)[1..] == a[1..] + b;
    if a[1..] == [] {
      assert (a + b)[1..] == b;
    } else {
      TextOver(a[1..], b);
    }
  }

  /** The text an expansion prints for one trait. */
  function ImplText(t: string, item: string): string {
    "impl " + t + " for " + item + " { }"
  }

  function Joined(traits: seq<string>, item: string): string {
    if traits == [] then ""
    else if |traits| == 1 then ImplText(traits[0], item)
    else ImplText(traits[0], item) + " " + Joined(traits[1..], item)
  }

  /** Five trees for each trait: four identifiers and an empty pair of braces. */
  function ImplTrees(t: string, item: string): seq<TokenTree> {
    [Ident("impl"), Ident(t), Ident("for"), Ident(item), Nested(Subtree(Some(Brace), []))]
  }

  function Expected(traits: seq<string>, item: string): (r: seq<TokenTree>)
    ensures |r| == 5 * |traits|
  {
    if traits == [] then [] else ImplTrees(traits[0], item) + Expected(traits[1..], item)
  }

  function ImplItems(t: string, item: string): seq<Item> {
    [Single(Word("impl")), Single(Word(t)), Single(Word("for")), Single(Word(item)), Group('{', [])]
  }

  function AllImplItems(traits: seq<string>, item: string): seq<Item> {
    if traits == [] then [] else ImplItems(traits[0], item) + AllImplItems(traits[1..], item)
  }

  ghost predicate AllNames(traits: seq<string>) {
    forall i :: 0 <= i < |traits| ==> IsName(traits[i])
  }

  lemma OneText(first: Item, rest: seq<Item>)
    requires GoodItem(first) && GoodItems(rest)
    ensures GoodItems([first] + rest) && TextOf([first] + rest) == ItemText(first) + TailOf(rest)
    ensures TreesOf([first] + rest) == [ItemTree(first)] + TreesOf(rest)
  {
    hide ItemText, ItemTree, GoodItem;
    assert ([first] + rest)[1..] == rest;
  }

  lemma ImplIsText(t: string, item: string)
    requires IsName(t) && IsName(item)
    ensures GoodItems(ImplItems(t, item)) && TextOf(ImplItems(t, item)) == ImplText(t, item)
    ensures TreesOf(ImplItems(t, item)) == ImplTrees(t, item)
  {
    hide IsName, TextOf, TreesOf;
    FixedNames();
    var braces := Group('{', []);
    var i5 := [braces];
    var i4 := [Single(Word(item))] + i5;
    var i3 := [Single(Word("for"))] + i4;
    var i2 := [Single(Word(t))] + i3;
    assert [braces] + [] == i5;
    OneText(braces, []);
    OneText(Single(Word(item)), i5);
    OneText(Single(Word("for")), i4);
    OneText(Single(Word(t)), i3);
    OneText(Single(Word("impl")), i2);
    assert ImplItems(t, item) == [Single(Word("impl"))] + i2;
    NoTrees();
    assert ItemText(braces) == "{ }";
    assert "impl" + (" " + (t + (" " + ("for" + (" " + (item + (" " + "{ }"))))))) == ImplText(t, item);
  }

  lemma FixedNames()
    ensures IsName("impl") && IsName("for")
  {}

  lemma NoTrees()
    ensures TreesOf([]) == [] && LeafTrees([]) == [] && InnerText([]) == "" && TailOf([]) == ""
  {}

  lemma {:induction false} JoinedIsText(traits: seq<string>, item: string)
    requires AllNames(traits) && IsName(item)
    ensures GoodItems(AllImplItems(traits, item)) && TextOf(AllImplItems(traits, item)) == Joined(traits, item)
    ensures TreesOf(AllImplItems(traits, item)) == Expected(traits, item)
    ensures traits != [] ==> AllImplItems(traits, item) != [] && AllImplItems(traits, item)[0].Single?
    decreases |traits|
  {
    hide TextOf, TreesOf, ImplText, ImplTrees;
    if traits == [] {
      NoText();
      NoTrees();
    } else {
      var first, rest := ImplItems(traits[0], item), AllImplItems(traits[1..], item);
      ImplIsText(traits[0], item);
      JoinedIsText(traits[1..], item);
      TextOver(first, rest);
      assert |traits| == 1 ==> rest == [];
      assert TextOf(first) + "" == TextOf(first);
    }
  }

  /** What an expansion prints for any traits is read back as five trees for each, and nothing else. */
  lemma ExpansionReadsBack(traits: seq<string>, item: string)
    requires AllNames(traits) && IsName(item)
    ensures CreateSubtree(Joined(traits, item)) == Some(Subtree(None, Expected(traits, item)))
  {
    hide CreateSubtree, Expected, TreesOf, TextOf;
    JoinedIsText(traits, item);
    TextReadsBack(AllImplItems(traits, item));
  }

  function IdItems(): seq<Item> {
    [Single(Word("pub")), Single(Word("static")), Single(Word("ID")), Single(Mark(':')), Single(Word("Pubkey")),
     Single(Mark(';'))]
  }

  lemma IdNames()
    ensures IsName("pub") && IsName("static") && IsName("ID") && IsName("Pubkey")
  {}

  /** The last two words, and the four before them. */
  lemma IdTail()
    ensures var end := [Single(Word("Pubkey")), Single(Mark(';'))];
      GoodItems(end) && TextOf(end) == "Pubkey ;" && TreesOf(end) == [Ident("Pubkey"), Punct(';')]
  {
    hide IsName, TextOf, TreesOf;
    IdNames();
    NoTrees();
    var last, first := Single(Mark(';')), Single(Word("Pubkey"));
    assert [last] + [] == [last] && [first] + [last] == [first, last];
    OneText(last, []);
    OneText(first, [last]);
    assert ";" + "" == ";" && "Pubkey" + (" " + ";") == "Pubkey ;";
  }

  lemma IdLiterals()
    ensures ":" + (" " + "Pubkey ;") == ": Pubkey ;" && "ID" + (" " + ": Pubkey ;") == "ID : Pubkey ;"
    ensures "static" + (" " + "ID : Pubkey ;") == "static ID : Pubkey ;"
    ensures "pub" + (" " + "static ID : Pubkey ;") == "pub static ID : Pubkey ;"
  {}

  /** One more item in front of a text. */
  lemma InFront(first: Item, rest: seq<Item>, text: string, whole: string)
    requires GoodItem(first) && GoodItems(rest) && rest != [] && TextOf(rest) == text
    requires ItemText(first) + (" " + text) == whole
    ensures GoodItems([first] + rest) && TextOf([first] + rest) == whole
    ensures TreesOf([first] + rest) == [ItemTree(first)] + TreesOf(rest)
  {
    hide ItemText, ItemTree, GoodItem;
    OneText(first, rest);
  }

  lemma IdIsText()
    ensures GoodItems(IdItems()) && TextOf(IdItems()) == "pub static ID : Pubkey ;"
    ensures TreesOf(IdItems()) == [Ident("pub"), Ident("static"), Ident("ID"), Punct(':'), Ident("Pubkey"), Punct(';')]
  {
    hide IsName, TextOf, TreesOf;
    IdNames();
    IdTail();
    IdLiterals();
    var i5 := [Single(Word("Pubkey")), Single(Mark(';'))];
    var i4 := [Single(Mark(':'))] + i5;
    var i3 := [Single(Word("ID"))] + i4;
    var i2 := [Single(Word("static"))] + i3;
    assert [':'] == ":";
    InFront(Single(Mark(':')), i5, "Pubkey ;", ": Pubkey ;");
    InFront(Single(Word("ID")), i4, ": Pubkey ;", "ID : Pubkey ;");
    InFront(Single(Word("static")), i3, "ID : Pubkey ;", "static ID : Pubkey ;");
    InFront(Single(Word("pub")), i2, "static ID : Pubkey ;", "pub static ID : Pubkey ;");
    assert IdItems() == [Single(Word("pub"))] + i2;
  }

  /** And so is the text of the function-like expansions. */
  lemma DeclareIdReadsBack()
    ensures CreateSubtree("pub static ID : Pubkey ;") ==
            Some(Subtree(None, [Ident("pub"), Ident("static"), Ident("ID"), Punct(':'), Ident("Pubkey"), Punct(';')]))
  {
    hide CreateSubtree, TextOf, TreesOf, GoodItems;
    IdIsText();
    TextReadsBack(IdItems());
  }

  // ---- the reader as it runs ----

  /** The search loop of `get_wrapping_subtree`. */
  method FindWrapping(content: string, open: char) returns (r: Wrapped)
    requires IsOpen(open)
    ensures r == Wrap(content, open)
  {
    var opens := Indices(content, open, 0);
    var closes := Indices(content, CloseOf(open), 0);
    for i := 0 to |opens|
      invariant Wrap(content, open) == WrapFrom(content, opens, closes, i)
    {
      if i >= |closes| {
        return OutOfRange;
      }
      if exists k :: 0 <= k < |opens| && opens[k] < closes[i] {
        if opens[i] > closes[i] + 1 {
          return OutOfRange;
        }
        return Found(content[opens[i]..closes[i] + 1], content[closes[i] + 1..]);
      }
    }
    return NotFound;
  }

  /** Reading with a running count of open brackets and the text not yet searched. */
  method ReadSubtree(text: string) returns (r: Option<Subtree>)
    ensures r == CreateSubtree(text)
    decreases |text|
  {
    var s := Trim(text);
    var tokens, delimiter := s, None;
    if s != [] && IsOpen(s[0]) {
      tokens := DropTrailing(DropLeading(s, s[0]), CloseOf(s[0]));
      delimiter := Some(KindOf(s[0]));
    }
    var trees := ReadTokens(Words(tokens), tokens, |text|);
    return if trees.None? then None else Some(Subtree(delimiter, trees.value));
  }

  method ReadTokens(words: seq<string>, tokens: string, n: nat) returns (r: Option<seq<TokenTree>>)
    requires NoEmpty(words) && Within(tokens, n) && (words != [] ==> n > 0)
    ensures r == ReadWords(words, 0, tokens, n)
    decreases n, 0
  {
    var remaining, open: nat, trees: seq<TokenTree> := tokens, 0, [];
    assert words[0..] == words;
    PrependNothing(ReadWords(words, 0, tokens, n));
    for i := 0 to |words|
      invariant Within(remaining, n)
      invariant Prepend(trees, ReadWords(words[i..], open, remaining, n)) == ReadWords(words, 0, tokens, n)
    {
      var word := words[i];
      var c := word[0];
      assert words[i..][0] == word && words[i..][1..] == words[i + 1..];
      if IsClose(c) {
        open := if open == 0 then USIZE_SIZE - 1 else open - 1;
      } else if open != 0 {
      } else if IsOpen(c) {
        open := 1;
        WrapShortens(remaining, c);
        var w := FindWrapping(remaining, c);
        if w.OutOfRange? {
          return None;
        }
        var inside := if w.Found? then w.inside else "";
        remaining := if w.Found? then w.remaining else "";
        var sub := ReadSubtree(inside);
        if sub.None? {
          return None;
        }
        PrependTwice(trees, [Nested(sub.value)], ReadWords(words[i + 1..], open, remaining, n));
        trees := trees + [Nested(sub.value)];
      } else {
        var leaf := if IsPunct(c) then Punct(c) else Ident(word);
        PrependTwice(trees, [leaf], ReadWords(words[i + 1..], open, remaining, n));
        trees := trees + [leaf];
      }
    }
    assert words[|words|..] == [] && trees + [] == trees;
    return Some(trees);
  }

  // ---- characters at the ends, and white space between words ----

  predicate Only(s: string, c: char) {
    forall i :: 0 <= i < |s| ==> s[i] == c
  }

  /** All leading copies of a character go, and nothing else. */
  lemma {:induction false} DropLeadingIs(copies: string, s: string, c: char)
    requires Only(copies, c) && (s == "" || s[0] != c)
    ensures DropLeading(copies + s, c) == s
  {
    if copies == "" {
      assert copies + s == s;
    } else {
      assert (copies + s)[1..] == copies[1..] + s;
      DropLeadingIs(copies[1..], s, c);
    }
  }

  /** All trailing copies of a character go, and nothing else. */
  lemma {:induction false} DropTrailingIs(s: string, copies: string, c: char)
    requires Only(copies, c) && (s == "" || s[|s| - 1] != c)
    ensures DropTrailing(s + copies, c) == s
    decreases |copies|
  {
    if copies == "" {
      assert s + copies == s;
    } else {
      assert (s + copies)[..|s + copies| - 1] == s + copies[..|copies| - 1];
      DropTrailingIs(s, copies[..|copies| - 1], c);
    }
  }

  /** Words are what white space of any kind separates. */
  lemma {:induction false} WordsBetween(white: string, w: string, rest: string)
    requires AllWhite(white) && IsWord(w) && (rest == "" || IsWhite(rest[0]))
    ensures Words(white + w + rest) == [w] + Words(rest)
    ensures Words(white) == []
  {
    if white == "" {
      assert white + w + rest == w + rest;
      WordsCons(w, rest);
    } else {
      assert (white + w + rest)[1..] == white[1..] + w + rest;
      WordsBetween(white[1..], w, rest);
    }
  }
}
