/** C-style escaping of byte strings: the escape table (`cet`, `ec`), the
    per-byte length estimate `byte_c_escape_len`, the one-shot escaper
    `c42_u8a_c_escape` with its sizing helper `c42_u8a_c_escape_len`, the
    escape item shared with the streaming escaper, and a decoder of the C
    escape rules (section 6.4.4.4 of ISO/IEC 9899) used as their reference. */
module CEscape {
  import opened Bytes
  import opened Prim

  const BACKSLASH: u8 := 92
  const LETTER_X: u8 := 120

  /** The bytes whose bit is set in the 256-bit table `cet`: every control byte
      below 0x20, '"', '\'', '\\' and every byte from 0x80 up. */
  predicate NeedsEscape(v: u8)
  {
    v < 32 || v == 34 || v == 39 || v == 92 || v >= 128
  }

  /** The escapes that take a letter of `ec` = "abtnvfr" (bytes 7 to 13) or repeat
      the byte itself ('"', '\'', '\\'). */
  predicate ShortEscape(v: u8)
  {
    NeedsEscape(v) && ((7 <= v <= 13) || v == 34 || v == 39 || v == 92)
  }

  /** `ec[v - 7]`. */
  function EscLetter(v: u8): (c: u8)
    requires 7 <= v <= 13
  {
    ['a' as int, 'b' as int, 't' as int, 'n' as int, 'v' as int, 'f' as int, 'r' as int][v - 7]
  }

  /** The second byte of a short escape: the letter for 7..13, the byte itself otherwise. */
  function ShortTail(v: u8): u8
    requires ShortEscape(v)
  {
    if v < 32 then EscLetter(v) else v
  }

  /** Three octal digits of a byte, most significant first. */
  function Oct3(v: u8): seq<u8>
  {
    [DigitChar(v / 64), DigitChar((v / 8) % 8), DigitChar(v % 8)]
  }

  /** `byte_c_escape_len` as written: 1 for a byte kept as is, 2 for bytes 7..13
      and for every escaped byte from 0x20 up (including 0x80..0xFF), 4 otherwise. */
  function ByteCEscapeLen(v: u8): nat
  {
    if !NeedsEscape(v) then 1 else if (7 <= v <= 13) || v >= 32 then 2 else 4
  }

  /** The length each byte actually takes in the escaper's output: bytes from 0x80 up
      take four bytes, as every other non-short escape does. */
  function ByteCEscapeLenFixed(v: u8): (n: nat)
    ensures n == 1 <==> !NeedsEscape(v)
    ensures n == 2 <==> ShortEscape(v)
  {
    if !NeedsEscape(v) then 1 else if ShortEscape(v) then 2 else 4
  }

  /** The test that `c42_u8a_c_escape` applies to the byte after a numeric escape:
      as written it uses `< '9'`, `< 'F'` and `< 'f'`, so '9', 'F' and 'f' fail it. */
  predicate LooseHexDigit(b: u8)
  {
    ('0' as int <= b < '9' as int) || ('A' as int <= b < 'F' as int) || ('a' as int <= b < 'f' as int)
  }

  /** One byte's escape in `c42_u8a_c_escape` as written; `next` is the following byte,
      None at the end of the input. */
  function OneShotItem(v: u8, next: Option<u8>): seq<u8>
  {
    if !NeedsEscape(v) then [v]
    else if ShortEscape(v) then [BACKSLASH, ShortTail(v)]
    else if next.None? || LooseHexDigit(next.value) then [BACKSLASH] + Oct3(v)
    else [BACKSLASH, LETTER_X] + HexPair(v)
  }

  /** One byte's escape with the intended test: octal form when the next byte is any
      hex digit (or there is none), so that no `\x` escape can absorb the next byte. */
  function OneShotItemFixed(v: u8, next: Option<u8>): (r: seq<u8>)
    ensures |r| == ByteCEscapeLenFixed(v)
  {
    if !NeedsEscape(v) then [v]
    else if ShortEscape(v) then [BACKSLASH, ShortTail(v)]
    else if next.None? || IsHexDigit(next.value) then [BACKSLASH] + Oct3(v)
    else [BACKSLASH, LETTER_X] + HexPair(v)
  }

  /** One byte's escape in the streaming escaper `c42_clconv_c_escape`: the numeric form
      is octal when a hex digit follows and `\xHH` otherwise, including when the byte is
      the last of the stream (flushed by the finalize call). */
  function StreamItem(v: u8, next: Option<u8>): (r: seq<u8>)
    ensures |r| == ByteCEscapeLenFixed(v)
  {
    if !NeedsEscape(v) then [v]
    else if ShortEscape(v) then [BACKSLASH, ShortTail(v)]
    else if next.Some? && IsHexDigit(next.value) then [BACKSLASH] + Oct3(v)
    else [BACKSLASH, LETTER_X] + HexPair(v)
  }

  /** The byte following position 0 of `s`, if any. */
  function NextOf(s: seq<u8>): Option<u8>
    requires |s| > 0
  {
    if |s| > 1 then Some(s[1]) else None
  }

  /** `c42_u8a_c_escape` output (without the NUL) for the input `s`, as written. */
  function OneShot(s: seq<u8>): seq<u8>
  {
    if s == [] then [] else OneShotItem(s[0], NextOf(s)) + OneShot(s[1..])
  }

  /** The corrected one-shot escape. */
  function OneShotFixed(s: seq<u8>): seq<u8>
  {
    if s == [] then [] else OneShotItemFixed(s[0], NextOf(s)) + OneShotFixed(s[1..])
  }

  /** The whole output of the streaming escaper for the stream `s`, finalize included. */
  function StreamEscape(s: seq<u8>): seq<u8>
  {
    if s == [] then [] else StreamItem(s[0], NextOf(s)) + StreamEscape(s[1..])
  }

  /** `c42_u8a_c_escape_len` as written: the sum of `byte_c_escape_len`. */
  function EscapeLenSum(s: seq<u8>): nat
  {
    if s == [] then 0 else ByteCEscapeLen(s[0]) + EscapeLenSum(s[1..])
  }

  /** The intended sizing sum. */
  function EscapeLenSumFixed(s: seq<u8>): nat
  {
    if s == [] then 0 else ByteCEscapeLenFixed(s[0]) + EscapeLenSumFixed(s[1..])
  }

  // ---------------------------------------------------------------------------
  // Reference decoder: how a C compiler reads the escapes in a string literal.

  /** The number of leading hex digits of `t` (a `\x` escape takes all of them). */
  function HexRun(t: seq<u8>): (k: nat)
    ensures k <= |t|
  {
    if t == [] || !IsHexDigit(t[0]) then 0 else 1 + HexRun(t[1..])
  }

  /** The value of a run of hex digits. */
  function HexValue(t: seq<u8>): nat
  {
    if t == [] then 0 else HexValue(t[..|t| - 1]) * 16 + Nonneg(DigitFromChar(t[|t| - 1], 16))
  }

  function Nonneg(x: int): nat
  {
    if x < 0 then 0 else x
  }

  predicate IsOctDigit(b: u8)
  {
    '0' as int <= b <= '7' as int
  }

  /** The number of leading octal digits of `t`, at most three. */
  function OctRun(t: seq<u8>, max: nat): (k: nat)
    ensures k <= |t| && k <= max
  {
    if t == [] || max == 0 || !IsOctDigit(t[0]) then 0 else 1 + OctRun(t[1..], max - 1)
  }

  /** The value of a run of octal digits. */
  function OctValue(t: seq<u8>): nat
  {
    if t == [] then 0 else OctValue(t[..|t| - 1]) * 8 + Nonneg(t[|t| - 1] - '0' as int)
  }

  /** The byte a simple escape letter stands for: a b t n v f r, or the letter itself. */
  function SimpleValue(c: u8): u8
  {
    if c == 'a' as int then 7 else if c == 'b' as int then 8 else if c == 't' as int then 9
    else if c == 'n' as int then 10 else if c == 'v' as int then 11
    else if c == 'f' as int then 12 else if c == 'r' as int then 13 else c
  }

  /** One unit of a C string literal body: the byte it stands for and how many bytes of
      the text it takes. */
  datatype Unit = Unit(byte: u8, size: nat)

  /** Reads the unit at the start of `t`: a plain byte, `\x` with every hex digit that
      follows, `\` with one to three octal digits, or `\` with a simple escape letter. */
  function FirstUnit(t: seq<u8>): (u: Unit)
    requires t != []
    ensures 1 <= u.size <= |t|
  {
    if t[0] != BACKSLASH || |t| == 1 then Unit(t[0], 1)
    else if t[1] == LETTER_X then
      var k := HexRun(t[2..]);
      Unit(HexValue(t[2..2 + k]) % 256, 2 + k)
    else if IsOctDigit(t[1]) then
      var k := OctRun(t[1..], 3);
      Unit(OctValue(t[1..1 + k]) % 256, 1 + k)
    else Unit(SimpleValue(t[1]), 2)
  }

  /** Decodes the escapes of a C string literal body. */
  function Unescape(t: seq<u8>): seq<u8>
    decreases |t|
  {
    if t == [] then []
    else
      var u := FirstUnit(t);
      [u.byte] + Unescape(t[u.size..])
  }

  // ---------------------------------------------------------------------------
  // Properties.

  /** The first byte an item starts with: the raw byte, or a backslash. */
  function ItemHead(v: u8): u8
  {
    if NeedsEscape(v) then BACKSLASH else v
  }

  /** What decoding needs to know about the text after an item: it is empty exactly when
      there is no next byte, and it starts with that byte's item otherwise. */
  predicate Follows(next: Option<u8>, rest: seq<u8>)
  {
    if next.None? then rest == [] else rest != [] && rest[0] == ItemHead(next.value)
  }

  lemma {:induction false} DecodeRaw(v: u8, rest: seq<u8>)
    requires !NeedsEscape(v)
    ensures Unescape([v] + rest) == [v] + Unescape(rest)
  {
    var t := [v] + rest;
    assert FirstUnit(t) == Unit(v, 1);
    assert t[1..] == rest;
  }

  lemma {:induction false} DecodeShort(v: u8, rest: seq<u8>)
    requires ShortEscape(v)
    ensures Unescape([BACKSLASH, ShortTail(v)] + rest) == [v] + Unescape(rest)
  {
    var t := [BACKSLASH, ShortTail(v)] + rest;
    assert FirstUnit(t) == Unit(v, 2);
    assert t[2..] == rest;
  }

  lemma OctDigitValue(d: nat)
    requires d < 8
    ensures IsOctDigit(DigitChar(d)) && Nonneg(DigitChar(d) - '0' as int) == d
  {
  }

  lemma OctValue3(a: nat, b: nat, c: nat)
    requires a < 8 && b < 8 && c < 8
    ensures OctValue([DigitChar(a), DigitChar(b), DigitChar(c)]) == 64 * a + 8 * b + c
  {
    OctDigitValue(a);
    OctDigitValue(b);
    OctDigitValue(c);
    var t := [DigitChar(a), DigitChar(b), DigitChar(c)];
    assert t[..2] == [DigitChar(a), DigitChar(b)];
    assert t[..2][..1] == [DigitChar(a)];
    assert t[..2][..1][..0] == [];
    assert OctValue(t[..2][..1]) == a;
    assert OctValue(t[..2]) == 8 * a + b;
  }

  lemma {:induction false} OctRun3(a: nat, b: nat, c: nat, rest: seq<u8>)
    requires a < 8 && b < 8 && c < 8
    ensures OctRun([DigitChar(a), DigitChar(b), DigitChar(c)] + rest, 3) == 3
  {
    OctDigitValue(a);
    OctDigitValue(b);
    OctDigitValue(c);
    var u := [DigitChar(a), DigitChar(b), DigitChar(c)] + rest;
    assert u[1..] == [DigitChar(b), DigitChar(c)] + rest;
    assert u[1..][1..] == [DigitChar(c)] + rest;
    assert OctRun(u[1..][1..][1..], 0) == 0;
    assert OctRun(u[1..][1..], 1) == 1;
    assert OctRun(u[1..], 2) == 2;
  }

  /** `\` and three octal digits form one unit whatever follows them. */
  lemma {:induction false} OctUnit(v: u8, rest: seq<u8>)
    ensures FirstUnit([BACKSLASH] + Oct3(v) + rest) == Unit(v, 4)
  {
    var a, b, c := v / 64, (v / 8) % 8, v % 8;
    OctValue3(a, b, c);
    OctRun3(a, b, c, rest);
    assert 64 * a + 8 * b + c == v;
    var t := [BACKSLASH] + Oct3(v) + rest;
    assert t[1..] == Oct3(v) + rest;
    assert t[1..4] == Oct3(v);
    OctDigitValue(a);
    FirstUnitOct(t);
  }

  lemma {:induction false} FirstUnitOct(t: seq<u8>)
    requires |t| >= 2 && t[0] == BACKSLASH && IsOctDigit(t[1])
    ensures FirstUnit(t) == Unit(OctValue(t[1..1 + OctRun(t[1..], 3)]) % 256, 1 + OctRun(t[1..], 3))
  {
  }

  /** Three octal digits are read whatever follows them. */
  lemma {:induction false} DecodeOct(v: u8, rest: seq<u8>)
    ensures Unescape([BACKSLASH] + Oct3(v) + rest) == [v] + Unescape(rest)
  {
    var t := [BACKSLASH] + Oct3(v) + rest;
    OctUnit(v, rest);
    assert t[4..] == rest;
  }

  lemma HexDigitValue(d: nat)
    requires d < 16
    ensures IsHexDigit(DigitChar(d)) && Nonneg(DigitFromChar(DigitChar(d), 16)) == d
  {
  }

  lemma HexValue2(a: nat, b: nat)
    requires a < 16 && b < 16
    ensures HexValue([DigitChar(a), DigitChar(b)]) == 16 * a + b
  {
    HexDigitValue(a);
    HexDigitValue(b);
    var t := [DigitChar(a), DigitChar(b)];
    assert t[..1] == [DigitChar(a)];
    assert t[..1][..0] == [];
    assert HexValue(t[..1]) == a;
  }

  lemma {:induction false} HexRun2(a: nat, b: nat, rest: seq<u8>)
    requires a < 16 && b < 16 && (rest == [] || !IsHexDigit(rest[0]))
    ensures HexRun([DigitChar(a), DigitChar(b)] + rest) == 2
  {
    HexDigitValue(a);
    HexDigitValue(b);
    var u := [DigitChar(a), DigitChar(b)] + rest;
    assert u[1..] == [DigitChar(b)] + rest;
    assert u[1..][1..] == rest;
    assert HexRun(rest) == 0;
  }

  lemma {:induction false} FirstUnitHex(t: seq<u8>)
    requires |t| >= 2 && t[0] == BACKSLASH && t[1] == LETTER_X
    ensures FirstUnit(t) == Unit(HexValue(t[2..2 + HexRun(t[2..])]) % 256, 2 + HexRun(t[2..]))
  {
  }

  /** `\x` and two hex digits form one unit when no hex digit follows them. */
  lemma {:induction false} HexUnit(v: u8, rest: seq<u8>)
    requires rest == [] || !IsHexDigit(rest[0])
    ensures FirstUnit([BACKSLASH, LETTER_X] + HexPair(v) + rest) == Unit(v, 4)
  {
    var hi, lo := v / 16, v % 16;
    HexValue2(hi, lo);
    HexRun2(hi, lo, rest);
    var t := [BACKSLASH, LETTER_X] + HexPair(v) + rest;
    assert t[2..] == HexPair(v) + rest;
    assert t[2..4] == HexPair(v);
    FirstUnitHex(t);
  }

  /** Two hex digits are read alone when no hex digit follows them. */
  lemma {:induction false} DecodeHex(v: u8, rest: seq<u8>)
    requires rest == [] || !IsHexDigit(rest[0])
    ensures Unescape([BACKSLASH, LETTER_X] + HexPair(v) + rest) == [v] + Unescape(rest)
  {
    var t := [BACKSLASH, LETTER_X] + HexPair(v) + rest;
    HexUnit(v, rest);
    assert t[4..] == rest;
  }

  /** A streaming item decodes back to its byte when followed by the next byte's item. */
  lemma {:induction false} DecodeStreamItem(v: u8, next: Option<u8>, rest: seq<u8>)
    requires Follows(next, rest)
    ensures Unescape(StreamItem(v, next) + rest) == [v] + Unescape(rest)
  {
    if !NeedsEscape(v) {
      DecodeRaw(v, rest);
    } else if ShortEscape(v) {
      DecodeShort(v, rest);
    } else if next.Some? && IsHexDigit(next.value) {
      DecodeOct(v, rest);
    } else {
      DecodeHex(v, rest);
    }
  }

  /** The same for a corrected one-shot item. */
  lemma {:induction false} DecodeOneShotItemFixed(v: u8, next: Option<u8>, rest: seq<u8>)
    requires Follows(next, rest)
    ensures Unescape(OneShotItemFixed(v, next) + rest) == [v] + Unescape(rest)
  {
    if !NeedsEscape(v) {
      DecodeRaw(v, rest);
    } else if ShortEscape(v) {
      DecodeShort(v, rest);
    } else if next.None? || IsHexDigit(next.value) {
      DecodeOct(v, rest);
    } else {
      DecodeHex(v, rest);
    }
  }

  /** The streaming escaper's output decodes back to its input: the escaper is lossless
      under C's reading of escapes. */
  lemma {:induction false} StreamEscapeDecodes(s: seq<u8>)
    ensures Unescape(StreamEscape(s)) == s
  {
    if s != [] {
      var rest := StreamEscape(s[1..]);
      StreamEscapeDecodes(s[1..]);
      if |s| > 1 {
        assert rest == StreamItem(s[1], NextOf(s[1..])) + StreamEscape(s[1..][1..]);
        assert StreamItem(s[1], NextOf(s[1..]))[0] == ItemHead(s[1]);
      }
      DecodeStreamItem(s[0], NextOf(s), rest);
    }
  }

  /** The corrected one-shot escaper is lossless as well. */
  lemma {:induction false} OneShotFixedDecodes(s: seq<u8>)
    ensures Unescape(OneShotFixed(s)) == s
  {
    if s != [] {
      var rest := OneShotFixed(s[1..]);
      OneShotFixedDecodes(s[1..]);
      if |s| > 1 {
        assert rest == OneShotItemFixed(s[1], NextOf(s[1..])) + OneShotFixed(s[1..][1..]);
        assert OneShotItemFixed(s[1], NextOf(s[1..]))[0] == ItemHead(s[1]);
      }
      DecodeOneShotItemFixed(s[0], NextOf(s), rest);
    }
  }

  /** As written, the one-shot escaper is not lossless: byte 0x01 followed by '9' is
      written as `\x019`, which C reads as the single byte 0x19. */
  lemma OneShotLosesNextDigit()
    ensures OneShot([1, 57]) == [BACKSLASH, LETTER_X, 48, 49, 57]
    ensures Unescape(OneShot([1, 57])) == [0x19]
  {
    assert [1, 57][1..] == [57];
    var t: seq<u8> := [BACKSLASH, LETTER_X, 48, 49, 57];
    assert OneShot([1, 57]) == t;
    var u: seq<u8> := [48, 49, 57];
    assert t[2..] == u;
    assert HexRun(u) == 3 by {
      assert u[1..] == [49, 57];
      assert u[1..][1..] == [57];
      assert u[1..][1..][1..] == [];
    }
    assert t[2..5] == u;
    assert HexValue(u) == 0x19 by {
      assert u[..2] == [48, 49];
      assert u[..2][..1] == [48];
      assert u[..2][..1][..0] == [];
    }
    assert FirstUnit(t) == Unit(0x19, 5);
    assert t[5..] == [];
  }

  /** The corrected per-byte lengths add up to the escaper's output length. */
  lemma {:induction false} OneShotFixedLength(s: seq<u8>)
    ensures |OneShotFixed(s)| == EscapeLenSumFixed(s)
  {
    if s != [] {
      OneShotFixedLength(s[1..]);
    }
  }

  /** As written, `c42_u8a_c_escape_len` undercounts bytes from 0x80 up: for the single
      byte 0x80 it returns 2 while `c42_u8a_c_escape` writes four bytes. */
  lemma EscapeLenUndercounts()
    ensures EscapeLenSum([0x80]) == 2
    ensures |OneShot([0x80])| == 4
  {
    assert [0x80][1..] == [];
  }

  // ---------------------------------------------------------------------------
  // The C functions.

  /** `c42_u8a_c_escape_len` as written. */
  method U8aCEscapeLen(data: array<u8>, len: nat) returns (elen: nat)
    requires len <= data.Length
    ensures elen == EscapeLenSum(data[..len])
    ensures elen <= 4 * len && elen >= len
  {
    elen := 0;
    var i := 0;
    while i < len
      invariant 0 <= i <= len
      invariant elen + EscapeLenSum(data[i..len]) == EscapeLenSum(data[..len])
      invariant elen <= 4 * i && elen >= i
    {
      assert data[i..len][1..] == data[i + 1..len];
      elen := elen + ByteCEscapeLen(data[i]);
      i := i + 1;
    }
  }

  /** One step of `c42_u8a_c_escape`: writes the escape of `v` at `o`. */
  method PutOneShotItem(out: array<u8>, o: nat, v: u8, next: Option<u8>) returns (o2: nat)
    requires o + |OneShotItem(v, next)| <= out.Length
    modifies out
    ensures o2 == o + |OneShotItem(v, next)|
    ensures out[..o] == old(out[..o]) && out[o..o2] == OneShotItem(v, next)
    ensures forall k :: o2 <= k < out.Length ==> out[k] == old(out[k])
  {
    if !NeedsEscape(v) {
      out[o] := v;
      return o + 1;
    }
    out[o] := BACKSLASH;
    if 7 <= v <= 13 {
      out[o + 1] := EscLetter(v);
      o2 := o + 2;
    } else if v == 92 || v == 39 || v == 34 {
      out[o + 1] := v;
      o2 := o + 2;
    } else {
      var b1, b2, b3;
      if next.None? || LooseHexDigit(next.value) {
        b1, b2, b3 := DigitChar(v / 64), DigitChar((v / 8) % 8), DigitChar(v % 8);
      } else {
        b1, b2, b3 := LETTER_X, DigitChar(v / 16), DigitChar(v % 16);
      }
      assert OneShotItem(v, next) == [BACKSLASH, b1, b2, b3];
      PutTail(out, o, b1, b2, b3);
      o2 := o + 4;
    }
  }

  /** Writes the three bytes of a numeric escape after the backslash at `o`. */
  method PutTail(out: array<u8>, o: nat, b1: u8, b2: u8, b3: u8)
    requires o + 4 <= out.Length && out[o] == BACKSLASH
    modifies out
    ensures out[..o] == old(out[..o]) && out[o..o + 4] == [BACKSLASH, b1, b2, b3]
    ensures forall k :: o + 4 <= k < out.Length ==> out[k] == old(out[k])
  {
    out[o + 1] := b1;
    out[o + 2] := b2;
    out[o + 3] := b3;
  }

  /** `c42_u8a_c_escape` as written: writes the escaped text followed by a NUL and
      returns its length. */
  method U8aCEscape(out: array<u8>, data: array<u8>, len: nat) returns (n: nat)
    requires len <= data.Length && out != data
    requires |OneShot(data[..len])| < out.Length
    modifies out
    ensures n == |OneShot(data[..len])|
    ensures out[..n] == OneShot(data[..len]) && out[n] == 0
    ensures out[n + 1..] == old(out[n + 1..])
  {
    ghost var s := data[..len];
    var o := 0;
    var i := 0;
    while i < len
      invariant 0 <= i <= len
      invariant o + |OneShot(s[i..])| == |OneShot(s)|
      invariant out[..o] + OneShot(s[i..]) == OneShot(s)
      invariant forall k :: o <= k < out.Length ==> out[k] == old(out[k])
    {
      ghost var done := out[..o];
      o := EscapeStep(out, data, len, i, o);
      assert out[..o] + OneShot(s[i + 1..]) == done + OneShot(s[i..]);
      i := i + 1;
    }
    assert s[len..] == [];
    ghost var written := out[..o];
    out[o] := 0;
    assert out[..o] == written;
    n := o;
  }

  /** `OneShot` of a suffix starts with the item of its first byte. */
  lemma {:induction false} OneShotCons(s: seq<u8>, i: nat)
    requires i < |s|
    ensures s[i..][1..] == s[i + 1..]
    ensures NextOf(s[i..]) == if i + 1 < |s| then Some(s[i + 1]) else None
    ensures OneShot(s[i..]) == OneShotItem(s[i], NextOf(s[i..])) + OneShot(s[i + 1..])
  {
    assert s[i..][1..] == s[i + 1..];
  }

  /** One round of the loop of `c42_u8a_c_escape`: appends the escape of `data[i]`, which
      is where `OneShot` of the rest of the input starts. */
  method EscapeStep(out: array<u8>, data: array<u8>, len: nat, i: nat, o: nat) returns (o2: nat)
    requires i < len <= data.Length && out != data
    requires o + |OneShot(data[i..len])| <= out.Length
    modifies out
    ensures o2 + |OneShot(data[i + 1..len])| == o + |OneShot(data[i..len])|
    ensures out[..o2] + OneShot(data[i + 1..len]) == old(out[..o]) + OneShot(data[i..len])
    ensures forall k :: o2 <= k < out.Length ==> out[k] == old(out[k])
  {
    var next := if i + 1 < len then Some(data[i + 1]) else None;
    ghost var s := data[..len];
    OneShotCons(s, i);
    assert s[i..] == data[i..len] && s[i + 1..] == data[i + 1..len];
    ghost var item := OneShotItem(data[i], next);
    ghost var done := out[..o];
    o2 := PutOneShotItem(out, o, data[i], next);
    assert out[..o2] == done + item;
  }
}
