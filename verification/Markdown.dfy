/** Rust documentation as editor markdown: rust code blocks are tagged and lose the lines that rustdoc hides. */
module Markdown {
  import opened Texts

  /** Whether the text after an opening fence marks a rust block. */
  type RustFence = string -> bool

  // ---- text and lines ----

  function FindNewline(text: string, from: nat): (k: nat)
    requires from <= |text|
    ensures from <= k <= |text|
    ensures k < |text| ==> text[k] == '\n'
    ensures forall i :: from <= i < k ==> text[i] != '\n'
    decreases |text| - from
  {
    if from == |text| || text[from] == '\n' then from else FindNewline(text, from + 1)
  }

  function DropReturn(line: string): string {
    if line != "" && line[|line| - 1] == '\r' then line[..|line| - 1] else line
  }

  /** The lines of a text: each ends at a line feed, with or without a carriage return before it. */
  function Lines(text: string): (lines: seq<string>)
    ensures forall line :: line in lines ==> '\n' !in line
  {
    if text == "" then [] else
    var k := FindNewline(text, 0);
    if k == |text| then [text] else [DropReturn(text[..k])] + Lines(text[k + 1..])
  }

  /** A line ends at its first line feed; one carriage return before that goes with it. */
  lemma LinesSplit(line: string, rest: string)
    requires '\n' !in line
    ensures Lines(line + "\n" + rest) ==
            [if line != "" && line[|line| - 1] == '\r' then line[..|line| - 1] else line] + Lines(rest)
    ensures Lines(line) == if line == "" then [] else [line]
  {
    var text := line + "\n" + rest;
    assert text[|line|] == '\n' && forall i :: 0 <= i < |line| ==> text[i] == line[i];
    assert FindNewline(text, 0) == |line|;
    assert text[..|line|] == line && text[|line| + 1..] == rest;
    assert line != "" ==> FindNewline(line, 0) == |line|;
  }

  function Join(lines: seq<string>): string {
    if lines == [] then "" else if |lines| == 1 then lines[0] else lines[0] + "\n" + Join(lines[1..])
  }

  // ---- blocks ----

  predicate IsFence(line: string) {
    |line| >= 3 && line[0] == '`' && line[1] == '`' && line[2] == '`'
  }

  function Header(line: string): string
    requires IsFence(line)
  {
    line[3..]
  }

  function FenceCount(lines: seq<string>): nat {
    if lines == [] then 0
    else FenceCount(lines[..|lines| - 1]) + if IsFence(lines[|lines| - 1]) then 1 else 0
  }

  /** After an odd number of fences comes code. */
  predicate InCode(lines: seq<string>) {
    FenceCount(lines) % 2 == 1
  }

  /** After the lines comes rust code: the last fence opened a block and its header says rust. */
  predicate InRust(isRust: RustFence, lines: seq<string>) {
    lines != [] && InCode(lines) &&
    var last := lines[|lines| - 1];
    if IsFence(last) then isRust(Header(last)) else InRust(isRust, lines[..|lines| - 1])
  }

  /** The lines that rustdoc hides. */
  predicate HiddenByRustdoc(line: string) {
    var t := Trim(line);
    |t| > 0 && t[0] == '#' && (|t| == 1 || t[1] == ' ' || t[1] == '\t')
  }

  predicate IsEscaped(line: string) {
    var t := TrimStart(line);
    |t| >= 2 && t[0] == '#' && t[1] == '#'
  }

  /** A line that starts with `#` is hidden if white space follows to its end, or a space or tab comes next. */
  lemma HiddenIff(white: string, rest: string)
    requires AllWhite(white)
    ensures HiddenByRustdoc(white + "#" + rest) <==>
            AllWhite(rest) || (rest != "" && (rest[0] == ' ' || rest[0] == '\t'))
  {
    var core, tail := LastNonWhite(rest);
    var t := "#" + core;
    assert white + "#" + rest == white + ("#" + rest);
    TrimStartIs(white, "#" + rest);
    assert "#" + rest == t + tail;
    assert t[|t| - 1] == if core == "" then '#' else core[|core| - 1];
    TrimEndIs(t, tail);
    assert Trim(white + "#" + rest) == t;
    if core == "" {
      assert rest == tail;
    } else {
      assert t[1] == core[0] == rest[0];
      assert rest[|core| - 1] == core[|core| - 1];
    }
  }

  /** No other line is hidden. */
  lemma OthersAreShown(white: string, rest: string)
    requires AllWhite(white) && (rest == "" || (!IsWhite(rest[0]) && rest[0] != '#'))
    ensures !HiddenByRustdoc(white + rest) && !IsEscaped(white + rest)
  {
    TrimStartIs(white, rest);
    if rest != "" {
      var core, tail := LastNonWhite(rest);
      assert core == "" ==> rest == tail;
      TrimEndIs(core, tail);
      assert core[0] == rest[0];
    } else {
      TrimEndIs("", "");
      assert "" + "" == "";
    }
  }

  /** A line is escaped if it starts with `##`, and loses the white space in front and one `#`. */
  lemma EscapedIff(white: string, rest: string)
    requires AllWhite(white)
    ensures IsEscaped(white + "#" + rest) <==> rest != "" && rest[0] == '#'
    ensures IsEscaped(white + "#" + rest) ==> TrimStart(white + "#" + rest)[1..] == rest
  {
    assert white + "#" + rest == white + ("#" + rest);
    TrimStartIs(white, "#" + rest);
    assert ("#" + rest)[1..] == rest;
  }

  /** A fence is three backticks and a header. */
  lemma FenceIs(line: string, header: string)
    ensures IsFence("```" + header) && Header("```" + header) == header
    ensures IsFence(line) ==> line == "```" + Header(line)
  {
    assert ("```" + header)[3..] == header;
    if IsFence(line) {
      assert line == line[..3] + line[3..] && line[..3] == "```";
    }
  }

  const RUST_OPENING: string := "```rust"

  /** What becomes of a line that follows the lines `before`. */
  function Piece(isRust: RustFence, before: seq<string>, line: string): seq<string> {
    if IsFence(line) then
      [if !InCode(before) && isRust(Header(line)) then RUST_OPENING else line]
    else if !InCode(before) then [line]
    else if InRust(isRust, before) && HiddenByRustdoc(line) then []
    else [if IsEscaped(line) then TrimStart(line)[1..] else line]
  }

  function Rendered(isRust: RustFence, lines: seq<string>): seq<string> {
    if lines == [] then [] else
    Rendered(isRust, lines[..|lines| - 1]) + Piece(isRust, lines[..|lines| - 1], lines[|lines| - 1])
  }

  // ---- the line loop ----

  lemma {:induction false} TrimStartOf(line: string)
    ensures line != "" && !IsWhite(line[0]) ==> TrimStart(line) == line
    ensures forall c :: c in TrimStart(line) ==> c in line
  {
    if line != "" && IsWhite(line[0]) {
      TrimStartOf(line[1..]);
    }
  }

  lemma {:induction false} TrimEndOf(line: string)
    ensures line != "" && !IsWhite(line[0]) ==> TrimEnd(line) != "" && TrimEnd(line)[0] == line[0]
  {
    if line != "" && IsWhite(line[|line| - 1]) {
      TrimEndOf(line[..|line| - 1]);
    }
  }

  /** A fence is never hidden and never unescaped. */
  lemma FenceStays(line: string)
    requires IsFence(line)
    ensures !HiddenByRustdoc(line) && !IsEscaped(line)
  {
    TrimStartOf(line);
    TrimEndOf(line);
  }

  lemma RustOpeningIsFence()
    ensures IsFence(RUST_OPENING) && Header(RUST_OPENING) == "rust"
  {}

  lemma LineStep(isRust: RustFence, before: seq<string>, line: string)
    ensures InCode(before + [line]) == (InCode(before) != IsFence(line))
    ensures InRust(isRust, before + [line]) ==
            (InCode(before + [line]) && if IsFence(line) then isRust(Header(line)) else InRust(isRust, before))
    ensures Rendered(isRust, before + [line]) == Rendered(isRust, before) + Piece(isRust, before, line)
  {}

  lemma NoLines(isRust: RustFence)
    ensures !InCode([]) && Rendered(isRust, []) == []
  {}

  method MarkdownString(isRust: RustFence, src: string) returns (r: string)
    ensures r == Join(Rendered(isRust, Lines(src)))
  {
    hide HiddenByRustdoc, IsEscaped, InCode, InRust, Rendered;
    var lines := Lines(src);
    NoLines(isRust);
    var processed: seq<string> := [];
    var inCode, rust := false, false;
    RustOpeningIsFence();
    for i := 0 to |lines|
      invariant processed == Rendered(isRust, lines[..i])
      invariant inCode == InCode(lines[..i])
      invariant inCode ==> rust == InRust(isRust, lines[..i])
    {
      var line := lines[i];
      assert lines[..i + 1] == lines[..i] + [line];
      LineStep(isRust, lines[..i], line);
      if IsFence(line) {
        FenceStays(line);
        FenceStays(RUST_OPENING);
      }
      if inCode && rust && HiddenByRustdoc(line) {
        assert processed + [] == processed;
        continue;
      }
      if IsFence(line) {
        var header := Header(line);
        inCode := !inCode;
        if inCode {
          rust := isRust(header);
          if rust {
            line := RUST_OPENING;
          }
        }
      }
      if inCode {
        if IsEscaped(line) {
          line := Unescaped(line);
        }
      }
      processed := processed + [line];
    }
    assert lines[..|lines|] == lines;
    r := Join(processed);
  }

  function Unescaped(line: string): (r: string)
    requires IsEscaped(line)
    ensures r == TrimStart(line)[1..] && !IsFence(r)
  {
    TrimStart(line)[1..]
  }

  // ---- the output has the same blocks ----

  datatype Fence = Opening(rust: bool) | Closing

  /** The fences of a text in order, as a reader of the lines meets them. */
  function Fences(isRust: RustFence, lines: seq<string>): seq<Fence> {
    if lines == [] then [] else
    var before, line := lines[..|lines| - 1], lines[|lines| - 1];
    if !IsFence(line) then Fences(isRust, before)
    else Fences(isRust, before) + [if InCode(before) then Closing else Opening(isRust(Header(line)))]
  }

  lemma FencesSnoc(isRust: RustFence, lines: seq<string>, line: string)
    ensures FenceCount(lines + [line]) == FenceCount(lines) + if IsFence(line) then 1 else 0
    ensures Fences(isRust, lines + [line]) ==
            if !IsFence(line) then Fences(isRust, lines)
            else Fences(isRust, lines) + [if InCode(lines) then Closing else Opening(isRust(Header(line)))]
  {}

  lemma {:induction false} RenderedKeepsFences(isRust: RustFence, lines: seq<string>)
    requires isRust("rust")
    ensures FenceCount(Rendered(isRust, lines)) == FenceCount(lines)
    ensures Fences(isRust, Rendered(isRust, lines)) == Fences(isRust, lines)
  {
    hide Piece, FenceCount, Fences;
    if lines != [] {
      var before, line := lines[..|lines| - 1], lines[|lines| - 1];
      RenderedKeepsFences(isRust, before);
      assert lines == before + [line];
      FencesSnoc(isRust, before, line);
      PieceKeepsFences(isRust, before, line, Rendered(isRust, before));
    }
  }

  lemma PieceKeepsFences(isRust: RustFence, before: seq<string>, line: string, done: seq<string>)
    requires isRust("rust")
    requires FenceCount(done) == FenceCount(before) && Fences(isRust, done) == Fences(isRust, before)
    ensures var piece := Piece(isRust, before, line);
            FenceCount(done + piece) == FenceCount(before + [line]) &&
              Fences(isRust, done + piece) == Fences(isRust, before + [line])
  {
    hide FenceCount, Fences, HiddenByRustdoc, IsEscaped;
    FencesSnoc(isRust, before, line);
    var piece := Piece(isRust, before, line);
    if piece == [] {
      assert done + piece == done;
    } else {
      var x := piece[0];
      assert piece == [x];
      FencesSnoc(isRust, done, x);
      RustOpeningIsFence();
      if IsEscaped(line) && !IsFence(line) {
        var u := Unescaped(line);
      }
    }
  }

  // ---- and so has its text, read back as lines ----

  /** The lines a joined text is read back as: returns before a line feed go, and so does a last empty line. */
  function Settled(lines: seq<string>): seq<string> {
    if lines == [] then []
    else if |lines| == 1 then if lines[0] == "" then [] else lines
    else [DropReturn(lines[0])] + Settled(lines[1..])
  }

  lemma FirstNewline(line: string, rest: string)
    requires '\n' !in line
    ensures FindNewline(line + "\n" + rest, 0) == |line|
  {
    var text := line + "\n" + rest;
    var k := FindNewline(text, 0);
    assert text[|line|] == '\n';
  }

  lemma {:induction false} LinesOfJoin(lines: seq<string>)
    requires forall line :: line in lines ==> '\n' !in line
    ensures Lines(Join(lines)) == Settled(lines)
  {
    if |lines| == 1 {
      var line := lines[0];
      if line != "" {
        assert line in lines && '\n' !in line;
        assert FindNewline(line, 0) == |line|;
        assert lines == [line];
      }
    } else if |lines| > 1 {
      var line, rest := lines[0], Join(lines[1..]);
      assert '\n' !in line;
      FirstNewline(line, rest);
      var text := line + "\n" + rest;
      assert text[..|line|] == line && text[|line| + 1..] == rest;
      forall x | x in lines[1..] ensures '\n' !in x { assert x in lines; }
      LinesOfJoin(lines[1..]);
    }
  }

  /** A carriage return at the end of a header does not change its language. */
  ghost predicate IgnoresReturn(isRust: RustFence) {
    forall h: string :: isRust(DropReturn(h)) == isRust(h)
  }

  lemma DropReturnFence(isRust: RustFence, line: string)
    requires IgnoresReturn(isRust)
    ensures IsFence(DropReturn(line)) == IsFence(line)
    ensures IsFence(line) ==> isRust(Header(DropReturn(line))) == isRust(Header(line))
  {
    if IsFence(line) && DropReturn(line) != line {
      assert Header(DropReturn(line)) == DropReturn(Header(line));
    }
  }

  lemma {:induction false} FencesPointwise(isRust: RustFence, a: seq<string>, b: seq<string>)
    requires |a| == |b|
    requires forall i :: 0 <= i < |a| ==>
      IsFence(a[i]) == IsFence(b[i]) && (IsFence(a[i]) ==> isRust(Header(a[i])) == isRust(Header(b[i])))
    ensures FenceCount(a) == FenceCount(b) && Fences(isRust, a) == Fences(isRust, b)
  {
    if a != [] {
      FencesPointwise(isRust, a[..|a| - 1], b[..|a| - 1]);
    }
  }

  lemma {:induction false} SettledIs(lines: seq<string>)
    ensures |Settled(lines)| == if lines != [] && lines[|lines| - 1] == "" then |lines| - 1 else |lines|
    ensures forall i :: 0 <= i < |Settled(lines)| ==>
      Settled(lines)[i] == lines[i] || Settled(lines)[i] == DropReturn(lines[i])
  {
    if |lines| > 1 {
      SettledIs(lines[1..]);
    }
  }

  lemma SettledKeepsFences(isRust: RustFence, lines: seq<string>)
    requires IgnoresReturn(isRust)
    ensures Fences(isRust, Settled(lines)) == Fences(isRust, lines)
  {
    SettledIs(lines);
    var s := Settled(lines);
    forall i | 0 <= i < |s|
      ensures IsFence(s[i]) == IsFence(lines[..|s|][i])
      ensures IsFence(s[i]) ==> isRust(Header(s[i])) == isRust(Header(lines[..|s|][i]))
    {
      DropReturnFence(isRust, lines[i]);
    }
    FencesPointwise(isRust, s, lines[..|s|]);
    if |s| == |lines| {
      assert lines[..|s|] == lines;
    } else {
      assert lines == lines[..|s|] + [""];
      FencesSnoc(isRust, lines[..|s|], "");
    }
  }

  lemma {:induction false} RenderedHasNoNewline(isRust: RustFence, lines: seq<string>)
    requires forall line :: line in lines ==> '\n' !in line
    ensures forall line :: line in Rendered(isRust, lines) ==> '\n' !in line
  {
    hide HiddenByRustdoc, InRust, InCode;
    if lines != [] {
      var before, line := lines[..|lines| - 1], lines[|lines| - 1];
      RenderedHasNoNewline(isRust, before);
      assert line in lines && '\n' !in line;
      TrimStartOf(line);
      forall x | x in Piece(isRust, before, line) ensures '\n' !in x {
        assert x == RUST_OPENING || x == line || (TrimStart(line) != "" && x == TrimStart(line)[1..]);
      }
    }
  }

  /** Reading the produced text again finds the same blocks, in the same order and of the same language. */
  lemma SameBlocks(isRust: RustFence, src: string)
    requires isRust("rust") && IgnoresReturn(isRust)
    ensures Fences(isRust, Lines(Join(Rendered(isRust, Lines(src))))) == Fences(isRust, Lines(src))
  {
    var rendered := Rendered(isRust, Lines(src));
    RenderedKeepsFences(isRust, Lines(src));
    RenderedHasNoNewline(isRust, Lines(src));
    LinesOfJoin(rendered);
    SettledKeepsFences(isRust, rendered);
  }

  // ---- what is kept ----

  function Dropped(isRust: RustFence, lines: seq<string>): nat {
    if lines == [] then 0 else
    var before, line := lines[..|lines| - 1], lines[|lines| - 1];
    Dropped(isRust, before) + if InRust(isRust, before) && HiddenByRustdoc(line) then 1 else 0
  }

  /** Only the hidden lines of rust blocks go. */
  lemma {:induction false} OnlyHiddenLinesGo(isRust: RustFence, lines: seq<string>)
    ensures |Rendered(isRust, lines)| + Dropped(isRust, lines) == |lines|
  {
    hide HiddenByRustdoc, IsEscaped;
    if lines != [] {
      OnlyHiddenLinesGo(isRust, lines[..|lines| - 1]);
      if IsFence(lines[|lines| - 1]) {
        FenceStays(lines[|lines| - 1]);
      }
    }
  }

  /** A line that is kept stands where it stood, moved up by the lines dropped before it. */
  lemma {:induction false} KeptLinesStayInOrder(isRust: RustFence, lines: seq<string>, i: nat)
    requires i < |lines| && !(InRust(isRust, lines[..i]) && HiddenByRustdoc(lines[i]))
    ensures 0 <= i - Dropped(isRust, lines[..i]) < |Rendered(isRust, lines)|
    ensures Piece(isRust, lines[..i], lines[i]) == [Rendered(isRust, lines)[i - Dropped(isRust, lines[..i])]]
    decreases |lines|
  {
    hide HiddenByRustdoc, IsEscaped, InRust, InCode;
    var before := lines[..|lines| - 1];
    OnlyHiddenLinesGo(isRust, before);
    if i < |before| {
      assert before[..i] == lines[..i];
      KeptLinesStayInOrder(isRust, before, i);
    } else {
      assert before == lines[..i];
    }
  }

  /** Outside code blocks nothing changes but the opening fences of rust blocks; inside, only escapes do. */
  lemma KeptLines(isRust: RustFence, lines: seq<string>, i: nat)
    requires i < |lines| && !(InRust(isRust, lines[..i]) && HiddenByRustdoc(lines[i]))
    ensures 0 <= i - Dropped(isRust, lines[..i]) < |Rendered(isRust, lines)|
    ensures var x := Rendered(isRust, lines)[i - Dropped(isRust, lines[..i])];
      && (!InCode(lines[..i]) && !IsFence(lines[i]) ==> x == lines[i])
      && (InCode(lines[..i]) && !IsEscaped(lines[i]) ==> x == lines[i])
      && (InCode(lines[..i]) && IsEscaped(lines[i]) ==> ['#'] + x == TrimStart(lines[i]))
      && (!InCode(lines[..i]) && IsFence(lines[i]) ==> x == if isRust(Header(lines[i])) then RUST_OPENING else lines[i])
  {
    hide HiddenByRustdoc, InRust, InCode, Rendered, Dropped;
    KeptLinesStayInOrder(isRust, lines, i);
    if IsFence(lines[i]) {
      FenceStays(lines[i]);
    }
  }
}
