/**
  Passing strings to WebAssembly memory: UTF-16 in, UTF-8 out, with an in-place fast path for ASCII.
  UTF-8 follows section 3 of RFC 3629, decoding UTF-16 section 2.2 of RFC 2781.
 */
module WasmStrings {
  import opened Wrappers

  type Byte = n: nat | n < 0x100
  type Unit = n: nat | n < 0x1_0000

  type Utf16 = seq<Unit>

  predicate IsHigh(u: Unit) {
    0xD800 <= u < 0xDC00
  }

  predicate IsLow(u: Unit) {
    0xDC00 <= u < 0xE000
  }

  predicate IsScalar(c: nat) {
    c < 0x11_0000 && !(0xD800 <= c < 0xE000)
  }

  // ---- encoding ----

  /** How many units the first character takes. */
  function Width(s: Utf16): (w: nat)
    requires s != []
    ensures 1 <= w <= |s|
  {
    if IsHigh(s[0]) && |s| > 1 && IsLow(s[1]) then 2 else 1
  }

  /** The first character; an unpaired surrogate is replaced by U+FFFD. */
  function First(s: Utf16): (c: nat)
    requires s != []
    ensures IsScalar(c)
    ensures Width(s) == 2 ==> c >= 0x1_0000
    ensures Width(s) == 1 ==> c < 0x1_0000
  {
    if Width(s) == 2 then
      var high: int, low: int := s[0], s[1];
      0x1_0000 + (high - 0xD800) * 0x400 + (low - 0xDC00)
    else if IsHigh(s[0]) || IsLow(s[0]) then 0xFFFD
    else s[0]
  }

  /** The bytes of one character. */
  function EncodeChar(c: nat): (b: seq<Byte>)
    requires IsScalar(c)
    ensures |b| == if c < 0x80 then 1 else if c < 0x800 then 2 else if c < 0x1_0000 then 3 else 4
  {
    if c < 0x80 then [c]
    else if c < 0x800 then [0xC0 + c / 0x40, 0x80 + c % 0x40]
    else if c < 0x1_0000 then [0xE0 + c / 0x1000, 0x80 + c / 0x40 % 0x40, 0x80 + c % 0x40]
    else [0xF0 + c / 0x4_0000, 0x80 + c / 0x1000 % 0x40, 0x80 + c / 0x40 % 0x40, 0x80 + c % 0x40]
  }

  /** The UTF-8 encoding of a string. */
  function Encode(s: Utf16): (b: seq<Byte>)
    ensures |b| <= 3 * |s|
    decreases |s|
  {
    if s == [] then [] else EncodeChar(First(s)) + Encode(s[Width(s)..])
  }

  /** What `encodeInto` writes: whole characters, as long as they fit; also how many units it read. */
  function EncodeInto(s: Utf16, room: nat): (r: (nat, seq<Byte>))
    ensures |r.1| <= room
    decreases |s|
  {
    if s == [] then (0, []) else
    var b := EncodeChar(First(s));
    if |b| > room then (0, []) else
    var rest := EncodeInto(s[Width(s)..], room - |b|);
    (Width(s) + rest.0, b + rest.1)
  }

  /** Three bytes for every unit are always enough. */
  lemma {:induction false} EncodeIntoFits(s: Utf16, room: nat)
    requires room >= 3 * |s|
    ensures EncodeInto(s, room) == (|s|, Encode(s))
    decreases |s|
  {
    if s != [] {
      EncodeIntoFits(s[Width(s)..], room - |EncodeChar(First(s))|);
    }
  }

  predicate IsAscii(s: Utf16) {
    forall i :: 0 <= i < |s| ==> s[i] < 0x80
  }

  function AsAscii(s: Utf16): (b: seq<Byte>)
    requires IsAscii(s)
    ensures |b| == |s|
  {
    seq(|s|, i requires 0 <= i < |s| => s[i])
  }

  lemma EncodeAsciiFirst(u: Unit, s: Utf16)
    requires u < 0x80
    ensures Encode([u] + s) == [u] + Encode(s)
  {
    hide EncodeChar;
    var all := [u] + s;
    assert Width(all) == 1 && First(all) == u && all[1..] == s;
    EncodeAsciiChar(u);
  }

  /** An ASCII start is copied as it is. */
  lemma {:induction false} EncodeAsciiPrefix(a: Utf16, s: Utf16)
    requires IsAscii(a)
    ensures Encode(a + s) == AsAscii(a) + Encode(s)
    decreases |a|
  {
    hide Encode;
    if a == [] {
      assert a + s == s;
    } else {
      assert a + s == [a[0]] + (a[1..] + s);
      EncodeAsciiFirst(a[0], a[1..] + s);
      EncodeAsciiPrefix(a[1..], s);
      assert AsAscii(a) == [a[0]] + AsAscii(a[1..]);
    }
  }

  lemma EncodeAsciiChar(c: nat)
    requires c < 0x80
    ensures EncodeChar(c) == [c]
  {}

  /** How far the string is plain ASCII. */
  function AsciiLength(s: Utf16): (n: nat)
    ensures n <= |s| && IsAscii(s[..n]) && (n < |s| ==> s[n] >= 0x80)
    decreases |s|
  {
    if s == [] || s[0] >= 0x80 then 0 else
    var n := AsciiLength(s[1..]);
    assert s[..n + 1] == [s[0]] + s[1..][..n];
    n + 1
  }

  // ---- decoding, as `getStringFromWasm0` does with a fatal decoder ----

  predicate IsContinuation(b: Byte) {
    0x80 <= b < 0xC0
  }

  /** The number of bytes a first byte announces; 0 if it cannot start a character. */
  function Announced(b: Byte): nat {
    if b < 0x80 then 1 else if b < 0xC0 then 0 else if b < 0xE0 then 2
    else if b < 0xF0 then 3 else if b < 0xF8 then 4 else 0
  }

  /** The first character and its length; `None` for bytes that are not the shortest form of a scalar value. */
  function DecodeChar(b: seq<Byte>): (r: Option<(nat, nat)>)
    requires b != []
    ensures r.Some? ==> IsScalar(r.value.0) && 1 <= r.value.1 <= |b|
  {
    var n := Announced(b[0]);
    if n == 0 || n > |b| then None
    else if n == 1 then Some((b[0], 1))
    else if !IsContinuation(b[1]) || (n > 2 && !IsContinuation(b[2])) || (n > 3 && !IsContinuation(b[3])) then None
    else if n == 2 then
      var c := (b[0] as int - 0xC0) * 0x40 + (b[1] as int - 0x80);
      if c < 0x80 then None else Some((c, 2))
    else if n == 3 then
      var c := (b[0] as int - 0xE0) * 0x1000 + (b[1] as int - 0x80) * 0x40 + (b[2] as int - 0x80);
      if c < 0x800 || !IsScalar(c) then None else Some((c, 3))
    else
      var c := (b[0] as int - 0xF0) * 0x4_0000 + (b[1] as int - 0x80) * 0x1000 + (b[2] as int - 0x80) * 0x40
        + (b[3] as int - 0x80);
      if c < 0x1_0000 || !IsScalar(c) then None else Some((c, 4))
  }

  /** One character in UTF-16. */
  function Units(c: nat): Utf16
    requires IsScalar(c)
  {
    if c < 0x1_0000 then [c] else [0xD800 + (c - 0x1_0000) / 0x400, 0xDC00 + (c - 0x1_0000) % 0x400]
  }

  function Decode(b: seq<Byte>): Option<Utf16>
    decreases |b|
  {
    if b == [] then Some([]) else
    var first := DecodeChar(b);
    if first.None? then None else
    var rest := Decode(b[first.value.1..]);
    if rest.None? then None else Some(Units(first.value.0) + rest.value)
  }

  lemma DecodesChar(c: nat, rest: seq<Byte>)
    requires IsScalar(c)
    ensures DecodeChar(EncodeChar(c) + rest) == Some((c, |EncodeChar(c)|))
  {
    assert c / 0x40 / 0x40 == c / 0x1000 && c / 0x1000 / 0x40 == c / 0x4_0000;
  }

  /** The string with every unpaired surrogate replaced by U+FFFD. */
  function Repaired(s: Utf16): Utf16
    decreases |s|
  {
    if s == [] then [] else Units(First(s)) + Repaired(s[Width(s)..])
  }

  /** Decoding what was encoded gives the string back, except for its unpaired surrogates. */
  lemma {:induction false} DecodeEncode(s: Utf16)
    ensures Decode(Encode(s)) == Some(Repaired(s))
    decreases |s|
  {
    hide EncodeChar, DecodeChar, Units, First;
    if s != [] {
      var c, rest := First(s), Encode(s[Width(s)..]);
      DecodesChar(c, rest);
      assert (EncodeChar(c) + rest)[|EncodeChar(c)|..] == rest;
      DecodeEncode(s[Width(s)..]);
      FirstIsEncoded(s);
    }
  }

  lemma FirstIsEncoded(s: Utf16)
    requires s != []
    ensures EncodeChar(First(s)) != []
  {}

  /** Every high surrogate is followed by a low one, every low one preceded by a high one. */
  predicate WellFormed(s: Utf16) {
    forall i :: 0 <= i < |s| ==> PairedAt(s, i)
  }

  predicate PairedAt(s: Utf16, i: nat)
    requires i < |s|
  {
    (IsHigh(s[i]) ==> i + 1 < |s| && IsLow(s[i + 1])) && (IsLow(s[i]) ==> i > 0 && IsHigh(s[i - 1]))
  }

  lemma FirstUnits(s: Utf16)
    requires s != []
    ensures |Units(First(s))| == Width(s)
    ensures Units(First(s)) == s[..Width(s)] <==> Width(s) == 2 || !(IsHigh(s[0]) || IsLow(s[0]))
  {}

  lemma PairedShift(s: Utf16, i: nat)
    requires s != [] && i < |s| - Width(s)
    ensures PairedAt(s[Width(s)..], i) <==> PairedAt(s, i + Width(s))
  {}

  lemma WellFormedStep(s: Utf16)
    requires s != []
    ensures WellFormed(s) <==> (Width(s) == 2 || !(IsHigh(s[0]) || IsLow(s[0]))) && WellFormed(s[Width(s)..])
  {
    var w := Width(s);
    var rest := s[w..];
    if WellFormed(s) {
      assert PairedAt(s, 0);
      forall i | 0 <= i < |rest| ensures PairedAt(rest, i) {
        PairedShift(s, i);
      }
    }
    if (w == 2 || !(IsHigh(s[0]) || IsLow(s[0]))) && WellFormed(rest) {
      forall i | 0 <= i < |s| ensures PairedAt(s, i) {
        if i >= w {
          PairedShift(s, i - w);
        }
      }
    }
  }

  lemma {:induction false} RepairedIsSame(s: Utf16)
    ensures Repaired(s) == s <==> WellFormed(s)
    ensures |Repaired(s)| == |s|
    decreases |s|
  {
    hide Units, First, WellFormed;
    if s == [] {
      EmptyIsWellFormed();
    } else {
      var w := Width(s);
      FirstUnits(s);
      WellFormedStep(s);
      RepairedIsSame(s[w..]);
      assert s == s[..w] + s[w..];
      var head := Units(First(s));
      assert Repaired(s) == head + Repaired(s[w..]);
      assert Repaired(s)[..w] == head && Repaired(s)[w..] == Repaired(s[w..]);
    }
  }

  lemma EmptyIsWellFormed()
    ensures WellFormed([])
  {}

  /** A string survives the trip into WebAssembly memory and back exactly when its surrogates are paired. */
  lemma StringRoundTrip(s: Utf16)
    ensures Decode(Encode(s)) == Some(s) <==> WellFormed(s)
  {
    DecodeEncode(s);
    RepairedIsSame(s);
  }

  lemma Digits(top: nat, mid: nat, low: nat)
    requires mid < 0x40 && low < 0x40
    ensures var n := top * 0x1000 + mid * 0x40 + low;
      n % 0x40 == low && n / 0x40 == top * 0x40 + mid && n / 0x40 % 0x40 == mid && n / 0x1000 == top
  {}

  /** The four digits of a long form are found again. */
  lemma FourDigits(d0: nat, d1: nat, d2: nat, d3: nat)
    requires d1 < 0x40 && d2 < 0x40 && d3 < 0x40
    ensures var c := d0 * 0x4_0000 + d1 * 0x1000 + d2 * 0x40 + d3;
      c / 0x4_0000 == d0 && c / 0x1000 % 0x40 == d1 && c / 0x40 % 0x40 == d2 && c % 0x40 == d3
  {
    var c := d0 * 0x4_0000 + d1 * 0x1000 + d2 * 0x40 + d3;
    Digits(d0 * 0x40 + d1, d2, d3);
    assert c == (d0 * 0x40 + d1) * 0x1000 + d2 * 0x40 + d3;
  }

  lemma EncodesShort(b: seq<Byte>)
    requires b != [] && DecodeChar(b).Some? && DecodeChar(b).value.1 < 4
    ensures EncodeChar(DecodeChar(b).value.0) == b[..DecodeChar(b).value.1]
  {
    var (c, n) := DecodeChar(b).value;
    if n == 2 {
      Digits(0, b[0] as int - 0xC0, b[1] as int - 0x80);
    } else if n == 3 {
      Digits(b[0] as int - 0xE0, b[1] as int - 0x80, b[2] as int - 0x80);
    }
  }

  lemma EncodesLong(b: seq<Byte>)
    requires b != [] && DecodeChar(b).Some? && DecodeChar(b).value.1 == 4
    ensures EncodeChar(DecodeChar(b).value.0) == b[..4]
  {
    FourDigits(b[0] as int - 0xF0, b[1] as int - 0x80, b[2] as int - 0x80, b[3] as int - 0x80);
  }

  lemma EncodesChar(b: seq<Byte>)
    requires b != [] && DecodeChar(b).Some?
    ensures EncodeChar(DecodeChar(b).value.0) == b[..DecodeChar(b).value.1]
  {
    if DecodeChar(b).value.1 < 4 {
      EncodesShort(b);
    } else {
      EncodesLong(b);
    }
  }

  lemma UnitsFirst(c: nat, t: Utf16)
    requires IsScalar(c)
    ensures var s := Units(c) + t; First(s) == c && s[Width(s)..] == t
  {}

  /** The decoder accepts nothing but encodings: what it reads, encoded again, is the same bytes. */
  lemma {:induction false} EncodeDecode(b: seq<Byte>)
    requires Decode(b).Some?
    ensures Encode(Decode(b).value) == b
    decreases |b|
  {
    hide EncodeChar, DecodeChar, Units, First;
    if b != [] {
      var (c, n) := DecodeChar(b).value;
      EncodeDecode(b[n..]);
      EncodesChar(b);
      UnitsFirst(c, Decode(b[n..]).value);
      NonEmptyUnits(c);
      assert b == b[..n] + b[n..];
    }
  }

  lemma NonEmptyUnits(c: nat)
    requires IsScalar(c)
    ensures Units(c) != []
  {}

  // ---- writing into memory ----

  /** Copy bytes to `at`. */
  method Write(mem: array<Byte>, at: nat, bytes: seq<Byte>)
    requires at + |bytes| <= mem.Length
    modifies mem
    ensures mem[at..at + |bytes|] == bytes
    ensures forall i :: 0 <= i < mem.Length && !(at <= i < at + |bytes|) ==> mem[i] == old(mem[i])
  {
    for k := 0 to |bytes|
      invariant forall i :: 0 <= i < k ==> mem[at + i] == bytes[i]
      invariant forall i :: 0 <= i < mem.Length && !(at <= i < at + k) ==> mem[i] == old(mem[i])
    {
      mem[at + k] := bytes[k];
    }
  }

  /** The allocator moves a block of `len` bytes; what lies elsewhere stays. */
  method Reallocate(mem: array<Byte>, from: nat, len: nat, to: nat)
    requires from + len <= mem.Length && to + len <= mem.Length
    modifies mem
    ensures mem[to..to + len] == old(mem[from..from + len])
    ensures forall i :: 0 <= i < mem.Length && !(to <= i < to + len) ==> mem[i] == old(mem[i])
  {
    Write(mem, to, mem[from..from + len]);
  }

  /** Copy the ASCII start of the string, stopping at the first other unit. */
  method WriteAscii(mem: array<Byte>, arg: Utf16, ptr: nat) returns (offset: nat)
    requires ptr + |arg| <= mem.Length
    modifies mem
    ensures offset <= |arg| && IsAscii(arg[..offset]) && (offset < |arg| ==> arg[offset] >= 0x80)
    ensures mem[ptr..ptr + offset] == AsAscii(arg[..offset])
    ensures forall i :: 0 <= i < mem.Length && !(ptr <= i < ptr + offset) ==> mem[i] == old(mem[i])
  {
    offset := 0;
    while offset < |arg| && arg[offset] < 0x80
      invariant offset <= |arg| && IsAscii(arg[..offset])
      invariant forall i :: 0 <= i < offset ==> mem[ptr + i] == arg[i]
      invariant forall i :: 0 <= i < mem.Length && !(ptr <= i < ptr + offset) ==> mem[i] == old(mem[i])
    {
      mem[ptr + offset] := arg[offset];
      offset := offset + 1;
    }
  }

  /** A moved block keeps its first `keep` bytes. */
  method MoveStart(mem: array<Byte>, from: nat, len: nat, to: nat, keep: nat)
    requires from + len <= mem.Length && to + len <= mem.Length && keep <= len
    modifies mem
    ensures mem[to..to + keep] == old(mem[from..from + keep])
    ensures forall i :: 0 <= i < mem.Length && !(to <= i < to + len) ==> mem[i] == old(mem[i])
  {
    Reallocate(mem, from, len, to);
    assert mem[to..to + keep] == mem[to..to + len][..keep];
    assert old(mem[from..from + len])[..keep] == old(mem[from..from + keep]);
  }

  /** Writing behind the first `offset` bytes of a block extends them. */
  method WriteAfter(mem: array<Byte>, at: nat, offset: nat, bytes: seq<Byte>)
    requires at + offset + |bytes| <= mem.Length
    modifies mem
    ensures mem[at..at + offset + |bytes|] == old(mem[at..at + offset]) + bytes
    ensures forall i :: 0 <= i < mem.Length && !(at + offset <= i < at + offset + |bytes|) ==> mem[i] == old(mem[i])
  {
    Write(mem, at + offset, bytes);
    assert mem[at..at + offset] == old(mem[at..at + offset]);
    assert mem[at..at + offset + |bytes|] == mem[at..at + offset] + mem[at + offset..at + offset + |bytes|];
  }

  /** The slow path: move the block, leave room for three bytes per remaining unit, and encode the rest there. */
  method WriteRest(mem: array<Byte>, arg: Utf16, ptr: nat, to: nat, offset: nat) returns (len: nat)
    requires ptr + |arg| <= mem.Length && offset <= |arg| && to + offset + 3 * (|arg| - offset) <= mem.Length
    requires IsAscii(arg[..offset]) && mem[ptr..ptr + offset] == AsAscii(arg[..offset])
    modifies mem
    ensures len == |Encode(arg)| && to + len <= mem.Length && mem[to..to + len] == Encode(arg)
    ensures forall i :: 0 <= i < mem.Length && !(to <= i < to + offset + 3 * (|arg| - offset)) ==> mem[i] == old(mem[i])
  {
    hide Encode, EncodeInto, AsAscii, IsAscii;
    var rest := arg[offset..];
    MoveStart(mem, ptr, |arg|, to, offset);
    var written := EncodeInto(rest, 3 * |rest|).1;
    WriteAfter(mem, to, offset, written);
    len := offset + |written|;
    EncodeSplit(arg, offset);
  }

  /** The ASCII start and what `encodeInto` writes for the rest make up the encoding. */
  lemma EncodeSplit(arg: Utf16, offset: nat)
    requires offset <= |arg| && IsAscii(arg[..offset])
    ensures Encode(arg) == AsAscii(arg[..offset]) + EncodeInto(arg[offset..], 3 * |arg[offset..]|).1
  {
    hide Encode, EncodeInto, AsAscii;
    var rest := arg[offset..];
    EncodeIntoFits(rest, 3 * |rest|);
    EncodeAsciiPrefix(arg[..offset], rest);
    assert arg == arg[..offset] + rest;
  }

  /**
    Pass a string to WebAssembly memory. `ptr` is the block the allocator gave first; `realloc` is where it
    moves the block if more room is needed, or absent for the one-shot form.
   */
  method PassString(mem: array<Byte>, arg: Utf16, ptr: nat, realloc: Option<nat>) returns (at: nat, len: nat)
    requires realloc.None? ==> ptr + |Encode(arg)| <= mem.Length
    requires realloc.Some? ==> ptr + |arg| <= mem.Length
    requires realloc.Some? && !IsAscii(arg) ==> realloc.value + Room(arg) <= mem.Length
    modifies mem
    ensures at == if realloc.Some? && !IsAscii(arg) then realloc.value else ptr
    ensures len == |Encode(arg)| && at + len <= mem.Length && mem[at..at + len] == Encode(arg)
    ensures realloc.None? ==> forall i :: 0 <= i < mem.Length && !(at <= i < at + len) ==> mem[i] == old(mem[i])
    ensures realloc.Some? ==>
      forall i :: 0 <= i < mem.Length && !(ptr <= i < ptr + |arg|) && !(at <= i < at + Room(arg)) ==>
        mem[i] == old(mem[i])
  {
    hide Encode, EncodeInto, AsAscii;
    AsciiWhole(arg);
    if realloc.None? {
      EncodeLength(arg);
      Write(mem, ptr, Encode(arg));
      return ptr, |Encode(arg)|;
    }
    var offset := WriteAscii(mem, arg, ptr);
    AsciiLengthIs(arg, offset);
    if offset != |arg| {
      at := realloc.value;
      len := WriteRest(mem, arg, ptr, at, offset);
    } else {
      at, len := ptr, offset;
      EncodeAscii(arg);
      assert arg[..offset] == arg;
    }
  }

  /** The room `realloc` is asked for: one byte for each leading ASCII unit, three for every other unit. */
  function Room(arg: Utf16): nat {
    AsciiLength(arg) + 3 * (|arg| - AsciiLength(arg))
  }

  lemma EncodeAscii(s: Utf16)
    requires IsAscii(s)
    ensures Encode(s) == AsAscii(s)
  {}

  lemma AsciiWhole(s: Utf16)
    ensures AsciiLength(s) == |s| <==> IsAscii(s)
  {
    assert s[..|s|] == s;
    if IsAscii(s) {
      assert AsciiLength(s) == |s|;
    }
  }

  lemma AsciiLengthIs(s: Utf16, n: nat)
    requires n <= |s| && IsAscii(s[..n]) && (n < |s| ==> s[n] >= 0x80)
    ensures AsciiLength(s) == n
  {
    hide AsciiLength;
  }

  lemma EncodeLength(s: Utf16)
    ensures |Encode(s)| <= Room(s)
  {}

  // ---- the bytes by their binary digits ----

  /** Two bytes hold 5 and 6 bits, three bytes 4, 6 and 6, four bytes 3, 6, 6 and 6, the highest first. */
  lemma EncodeTwo(d1: nat, d0: nat)
    requires 2 <= d1 < 0x20 && d0 < 0x40
    ensures IsScalar(d1 * 0x40 + d0) && EncodeChar(d1 * 0x40 + d0) == [0xC0 + d1, 0x80 + d0]
  {}

  lemma EncodeThree(d2: nat, d1: nat, d0: nat)
    requires d2 < 0x10 && d1 < 0x40 && d0 < 0x40
    requires d2 * 0x1000 + d1 * 0x40 + d0 >= 0x800 && IsScalar(d2 * 0x1000 + d1 * 0x40 + d0)
    ensures EncodeChar(d2 * 0x1000 + d1 * 0x40 + d0) == [0xE0 + d2, 0x80 + d1, 0x80 + d0]
  {
    Digits(d2, d1, d0);
  }

  lemma EncodeFour(d3: nat, d2: nat, d1: nat, d0: nat)
    requires d3 < 0x8 && d2 < 0x40 && d1 < 0x40 && d0 < 0x40
    requires 0x1_0000 <= d3 * 0x4_0000 + d2 * 0x1000 + d1 * 0x40 + d0 < 0x11_0000
    ensures EncodeChar(d3 * 0x4_0000 + d2 * 0x1000 + d1 * 0x40 + d0) == [0xF0 + d3, 0x80 + d2, 0x80 + d1, 0x80 + d0]
  {
    FourDigits(d3, d2, d1, d0);
  }

  /** A surrogate pair holds 10 and 10 bits above 0x10000. */
  lemma EncodePair(a: nat, b: nat, s: Utf16)
    requires a < 0x400 && b < 0x400
    ensures Encode([0xD800 + a, 0xDC00 + b] + s) == EncodeChar(0x1_0000 + a * 0x400 + b) + Encode(s)
  {
    hide EncodeChar;
    var all := [0xD800 + a, 0xDC00 + b] + s;
    assert all[2..] == s && Width(all) == 2 && First(all) == 0x1_0000 + a * 0x400 + b;
  }

  lemma UnpairedFirst(u: Unit, s: Utf16)
    requires 0xD800 <= u < 0xE000 && !(u < 0xDC00 && s != [] && 0xDC00 <= s[0] < 0xE000)
    ensures Width([u] + s) == 1 && First([u] + s) == 0xFFFD
  {
    var all := [u] + s;
    assert all[0] == u && (|all| > 1 ==> all[1] == s[0]);
  }

  lemma ReplacementBytes()
    ensures IsScalar(0xFFFD) && EncodeChar(0xFFFD) == [0xEF, 0xBF, 0xBD]
  {}

  /** An unpaired surrogate is encoded as U+FFFD. */
  lemma EncodeUnpaired(u: Unit, s: Utf16)
    requires 0xD800 <= u < 0xE000 && !(u < 0xDC00 && s != [] && 0xDC00 <= s[0] < 0xE000)
    ensures Encode([u] + s) == [0xEF, 0xBF, 0xBD] + Encode(s)
  {
    hide EncodeChar, First, Width;
    UnpairedFirst(u, s);
    ReplacementBytes();
    assert ([u] + s)[1..] == s;
  }
}
