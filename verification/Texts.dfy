/** White space at the ends of a text. */
module Texts {

  /** Characters with the Unicode property White_Space. */
  predicate IsWhite(c: char) {
    var n := c as int;
    9 <= n <= 13 || n == 0x20 || n == 0x85 || n == 0xA0 || n == 0x1680 || 0x2000 <= n <= 0x200A
    || n == 0x2028 || n == 0x2029 || n == 0x202F || n == 0x205F || n == 0x3000
  }

  function TrimStart(s: string): (r: string)
    ensures |r| <= |s| && (r != [] ==> !IsWhite(r[0]))
  {
    if s == [] || !IsWhite(s[0]) then s else TrimStart(s[1..])
  }

  function TrimEnd(s: string): (r: string)
    ensures r <= s
    ensures r != [] ==> !IsWhite(r[|r| - 1])
  {
    if s == [] || !IsWhite(s[|s| - 1]) then s else TrimEnd(s[..|s| - 1])
  }

  function Trim(s: string): (r: string)
    ensures |r| <= |s|
  {
    TrimEnd(TrimStart(s))
  }

  /** All of it is white space. */
  predicate AllWhite(s: string) {
    forall i :: 0 <= i < |s| ==> IsWhite(s[i])
  }

  /** White_Space by its code points. */
  lemma WhiteSpaceIs(c: char)
    ensures IsWhite(c) <==>
      c as int in {0x9, 0xA, 0xB, 0xC, 0xD, 0x20, 0x85, 0xA0, 0x1680, 0x2000, 0x2001, 0x2002, 0x2003, 0x2004, 0x2005,
                   0x2006, 0x2007, 0x2008, 0x2009, 0x200A, 0x2028, 0x2029, 0x202F, 0x205F, 0x3000}
  {}

  /** White space in front goes, and nothing else. */
  lemma {:induction false} TrimStartIs(white: string, s: string)
    requires AllWhite(white) && (s == "" || !IsWhite(s[0]))
    ensures TrimStart(white + s) == s
  {
    if white == "" {
      assert white + s == s;
    } else {
      assert (white + s)[1..] == white[1..] + s;
      TrimStartIs(white[1..], s);
    }
  }

  /** White space at the end goes, and nothing else. */
  lemma {:induction false} TrimEndIs(s: string, white: string)
    requires AllWhite(white) && (s == "" || !IsWhite(s[|s| - 1]))
    ensures TrimEnd(s + white) == s
    decreases |white|
  {
    if white == "" {
      assert s + white == s;
    } else {
      assert (s + white)[..|s + white| - 1] == s + white[..|white| - 1];
      TrimEndIs(s, white[..|white| - 1]);
    }
  }

  /** A text is white space, or has a first and a last character that are not. */
  lemma {:induction false} LastNonWhite(s: string) returns (core: string, white: string)
    ensures s == core + white && AllWhite(white) && (core == "" || !IsWhite(core[|core| - 1]))
  {
    if s == "" || !IsWhite(s[|s| - 1]) {
      core, white := s, "";
    } else {
      core, white := LastNonWhite(s[..|s| - 1]);
      white := white + [s[|s| - 1]];
    }
  }
}
