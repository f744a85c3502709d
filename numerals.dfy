/** Numerals: `c42_u64_to_str` (digits generated least significant first, then
    reversed in place), `c42_i64_to_str` (sign and prefix in front of a body)
    and the checked inverse `c42_u64_from_str`. */
module Numerals {
  import opened Bytes
  import opened Prim

  const SIGN_NONE: nat := 0
  const SIGN_NEG: nat := 1
  const SIGN_ALWAYS: nat := 2
  const SIGN_ALIGN: nat := 3

  const U64_OK: nat := 0
  const U64_STOP: nat := 1
  const U64_OVERFLOW: nat := 2

  const MINUS: u8 := 45
  const PLUS: u8 := 43
  const SPACE: u8 := 32

  type Radix = r: nat | 2 <= r <= 36 witness 2

  function Reverse(s: seq<u8>): (r: seq<u8>)
    ensures |r| == |s|
    ensures forall k :: 0 <= k < |s| ==> r[k] == s[|s| - 1 - k]
  {
    if s == [] then [] else Reverse(s[1..]) + [s[0]]
  }

  // ---------------------------------------------------------------------------
  // Rendering.

  /** The characters the digit loop of `c42_u64_to_str` stores, in storage order
      (least significant digit first), from loop state `value`, `i`, `g`: one digit per
      round while `i < width` or `value != 0`, followed by `sep` whenever the
      incremented group counter reaches `group`. */
  function Gen(value: nat, radix: Radix, width: nat, group: nat, sep: u8, i: nat, g: nat): seq<u8>
    decreases value, if i < width then width - i else 0
  {
    if !(i < width || value != 0) then []
    else
      DivShrinks(value, radix);
      var d := DigitChar(value % radix);
      if g + 1 == group then [d, sep] + Gen(value / radix, radix, width, group, sep, i + 2, 0)
      else [d] + Gen(value / radix, radix, width, group, sep, i + 1, g + 1)
  }

  /** One round of the digit loop. */
  lemma GenStep(value: nat, radix: Radix, width: nat, group: nat, sep: u8, i: nat, g: nat)
    requires i < width || value != 0
    ensures Gen(value, radix, width, group, sep, i, g) ==
      if g + 1 == group then [DigitChar(value % radix), sep] + Gen(value / radix, radix, width, group, sep, i + 2, 0)
      else [DigitChar(value % radix)] + Gen(value / radix, radix, width, group, sep, i + 1, g + 1)
  {
  }

  /** The text `c42_u64_to_str` leaves in `str` before its NUL. */
  function Render(value: u64, radix: Radix, width: nat, group: nat, sep: u8): seq<u8>
  {
    Reverse(Gen(value, radix, width, group, sep, 0, 0))
  }

  /** Each round stores one or two characters and advances `i` by as many. */
  lemma {:induction false} GenReachesWidth(value: nat, radix: Radix, width: nat, group: nat, sep: u8, i: nat, g: nat)
    ensures i + |Gen(value, radix, width, group, sep, i, g)| >= width
    decreases value, if i < width then width - i else 0
  {
    if i < width || value != 0 {
      var q := value / radix;
      DivShrinks(value, radix);
      if g + 1 == group {
        GenReachesWidth(q, radix, width, group, sep, i + 2, 0);
      } else {
        GenReachesWidth(q, radix, width, group, sep, i + 1, g + 1);
      }
    }
  }

  lemma DivShrinks(value: nat, radix: Radix)
    ensures 0 <= value / radix <= value
    ensures value != 0 ==> value / radix < value
  {
  }

  /** The width is a guaranteed minimum size of the output. */
  lemma RenderAtLeastWidth(value: u64, radix: Radix, width: nat, group: nat, sep: u8)
    ensures |Render(value, radix, width, group, sep)| >= width
  {
    GenReachesWidth(value, radix, width, group, sep, 0, 0);
  }

  /** The text is empty only for value 0 with width 0, the case `c42_u64_to_str` cannot handle. */
  lemma RenderNonEmpty(value: u64, radix: Radix, width: nat, group: nat, sep: u8)
    ensures |Render(value, radix, width, group, sep)| == 0 <==> value == 0 && width == 0
  {
  }

  /** Padding zeros are grouped like digits: 0xAB, width 4, groups of 2 gives "0_AB". */
  lemma RenderGroupedExample()
    ensures Render(0xAB, 16, 4, 2, 95) == [48, 95, 65, 66]
  {
    assert Gen(0xAB, 16, 4, 2, 95, 0, 0) == [66, 65, 95, 48];
  }

  /** A group boundary that coincides with the last digit leaves a leading separator:
      0xAB, width 1, groups of 2 gives "_AB". */
  lemma RenderLeadingSeparatorExample()
    ensures Render(0xAB, 16, 1, 2, 95) == [95, 65, 66]
  {
    assert Gen(0xAB, 16, 1, 2, 95, 0, 0) == [66, 65, 95];
  }

  /** `c42_u64_to_str` on the buffer starting at `str[at]`: writes the digits of `value`
      least significant first with a separator after every `group` digits, zero padded up
      to `width`, then reverses the run in place; returns its length, with a NUL after it. */
  method U64ToStr(str: array<u8>, at: nat, value: u64, radix: Radix, width: u32, group: u8, sep: u8)
    returns (n: nat)
    requires width >= 1 || value != 0
    requires at + |Render(value, radix, width, group, sep)| < str.Length
    modifies str
    ensures n == |Render(value, radix, width, group, sep)|
    ensures str[at..at + n] == Render(value, radix, width, group, sep) && str[at + n] == 0
    ensures str[..at] == old(str[..at]) && str[at + n + 1..] == old(str[at + n + 1..])
  {
    var i := GenDigits(str, at, value, radix, width, group, sep);
    ghost var gen := str[..];
    assert gen[at + i + 1..] == gen[at + i..][1..] == old(str[at + i..])[1..] == old(str[at + i + 1..]);
    str[at + i] := 0;
    assert str[at + i + 1..] == gen[at + i + 1..];
    ghost var mid := str[..];
    ReverseRun(str, at, i);
    n := i;
    assert str[at + n] == mid[at + n] == 0;
    assert str[..at] == mid[..at];
    assert str[at + n + 1..] == str[at + n..][1..] == mid[at + n..][1..] == mid[at + n + 1..];
  }

  /** The digit loop of `c42_u64_to_str`: stores the characters least significant first
      from `str[at]` and returns how many. */
  method GenDigits(str: array<u8>, at: nat, value: u64, radix: Radix, width: u32, group: u8, sep: u8)
    returns (i: nat)
    requires width >= 1 || value != 0
    requires at + |Gen(value, radix, width, group, sep, 0, 0)| < str.Length
    modifies str
    ensures i == |Gen(value, radix, width, group, sep, 0, 0)| && at + i < str.Length
    ensures str[at..at + i] == Gen(value, radix, width, group, sep, 0, 0) && i >= 1
    ensures str[..at] == old(str[..at]) && str[at + i..] == old(str[at + i..])
  {
    ghost var gen := Gen(value, radix, width, group, sep, 0, 0);
    var v: nat := value;
    i := 0;
    var g: nat := 0;
    while i < width || v != 0
      invariant at + i + |Gen(v, radix, width, group, sep, i, g)| == at + |gen| < str.Length
      invariant str[at..at + i] + Gen(v, radix, width, group, sep, i, g) == gen
      invariant str[..at] == old(str[..at]) && str[at + i..] == old(str[at + i..])
      decreases v, if i < width then width - i else 0
    {
      DivShrinks(v, radix);
      v, i, g := DigitRound(str, at, v, radix, width, group, sep, i, g);
    }
  }

  /** One round of the digit loop: stores the next digit (and a separator when the group
      is complete) at `str[at + i]`; the stored text and what remains to be generated
      together are what was to be generated before. */
  method DigitRound(str: array<u8>, at: nat, v: nat, radix: Radix, width: nat, group: nat, sep: u8, i: nat, g: nat)
    returns (v2: nat, i2: nat, g2: nat)
    requires i < width || v != 0
    requires at + i + |Gen(v, radix, width, group, sep, i, g)| < str.Length
    modifies str
    ensures v2 == v / radix && i2 > i
    ensures at + i2 + |Gen(v2, radix, width, group, sep, i2, g2)| == at + i + |Gen(v, radix, width, group, sep, i, g)|
    ensures str[at..at + i2] + Gen(v2, radix, width, group, sep, i2, g2) ==
            old(str[at..at + i]) + Gen(v, radix, width, group, sep, i, g)
    ensures str[..at + i] == old(str[..at + i]) && str[at + i2..] == old(str[at + i2..])
  {
    GenStep(v, radix, width, group, sep, i, g);
    DivShrinks(v, radix);
    ghost var before := str[at..at + i];
    var digit := v % radix;
    v2 := v / radix;
    var pos := at + i;
    str[pos] := DigitChar(digit);
    g2 := g + 1;
    ghost var item: seq<u8>;
    if g2 == group {
      i2 := i + 1;
      str[at + i2] := sep;
      g2 := 0;
      item := [DigitChar(digit), sep];
      assert str[at..pos] == before;
      assert str[at..pos + 2] == str[at..pos] + [str[pos], str[pos + 1]];
    } else {
      i2 := i;
      item := [DigitChar(digit)];
      assert str[at..pos] == before;
      assert str[at..pos + 1] == str[at..pos] + [str[pos]];
    }
    i2 := i2 + 1;
    assert Gen(v, radix, width, group, sep, i, g) == item + Gen(v2, radix, width, group, sep, i2, g2);
    assert str[at..at + i2] == before + item;
    ConcatAssoc(before, item, Gen(v2, radix, width, group, sep, i2, g2));
  }

  /** The swap loop of `c42_u64_to_str`: reverses `str[at..at + len]` in place. */
  method ReverseRun(str: array<u8>, at: nat, len: nat)
    requires 1 <= len && at + len <= str.Length
    modifies str
    ensures str[at..at + len] == Reverse(old(str[at..at + len]))
    ensures str[..at] == old(str[..at]) && str[at + len..] == old(str[at + len..])
  {
    ghost var s := str[..];
    var a: nat := 0;
    var b: nat := len - 1;
    while a < b
      invariant a + b == len - 1 && b < len
      invariant str[..] == Mirror(s, at, len, a)
    {
      MirrorStep(s, at, len, a);
      var ch := str[at + a];
      str[at + a] := str[at + b];
      str[at + b] := ch;
      a := a + 1;
      b := b - 1;
    }
    MirrorDone(s, at, len, a);
  }

  /** `s` with the first `a` and the last `a` positions of the run `s[at..at + len]`
      taken from their mirror images: the state of the swap loop after `a` rounds. */
  function Mirror(s: seq<u8>, at: nat, len: nat, a: nat): (r: seq<u8>)
    requires at + len <= |s| && a <= len
    ensures |r| == |s|
  {
    seq(|s|, k requires 0 <= k < |s| =>
      if at <= k < at + a || at + len - a <= k < at + len then s[2 * at + len - 1 - k] else s[k])
  }

  /** One swap moves the loop from `a` rounds to `a + 1`. */
  lemma MirrorStep(s: seq<u8>, at: nat, len: nat, a: nat)
    requires at + len <= |s| && a < len - 1 - a
    ensures Mirror(s, at, len, a + 1) ==
            Mirror(s, at, len, a)[at + a := s[at + len - 1 - a]][at + len - 1 - a := s[at + a]]
  {
  }

  /** Once the two ends have met, the run is reversed and nothing else changed. */
  lemma MirrorDone(s: seq<u8>, at: nat, len: nat, a: nat)
    requires at + len <= |s| && a <= len && 2 * a + 1 >= len
    ensures Mirror(s, at, len, a)[at..at + len] == Reverse(s[at..at + len])
    ensures Mirror(s, at, len, a)[..at] == s[..at] && Mirror(s, at, len, a)[at + len..] == s[at + len..]
  {
    var m := Mirror(s, at, len, a);
    var r := Reverse(s[at..at + len]);
    forall k | 0 <= k < len
      ensures m[at + k] == r[k]
    {
    }
    assert m[at..at + len] == r;
  }

  // ---------------------------------------------------------------------------
  // Signed rendering.

  /** A sign prefix and the unsigned value whose digits follow it. */
  datatype Signed = Signed(sign: seq<u8>, mag: u64)

  /** The sign bytes `c42_i64_to_str` writes for `sign_mode`, and the value whose digits
      follow. SIGN_NEG negates with 64-bit wrap-around (INT64_MIN stays INT64_MIN, whose
      unsigned reading is 2^63); SIGN_ALWAYS and SIGN_ALIGN subtract a negative value from
      itself, leaving 0. An unknown mode writes no sign. */
  function Lead(value: i64, signMode: nat): Signed
  {
    if signMode == SIGN_NEG && value < 0 then Signed([MINUS], ToU64(ToI64(-(value as int))))
    else if (signMode == SIGN_ALWAYS || signMode == SIGN_ALIGN) && value < 0 then Signed([MINUS], 0)
    else if signMode == SIGN_ALWAYS then Signed([if value != 0 then PLUS else SPACE], value)
    else if signMode == SIGN_ALIGN then Signed([SPACE], value)
    else Signed([], ToU64(value))
  }

  /** The sign handling SIGN_ALWAYS and SIGN_ALIGN evidently intend: the magnitude of a
      negative value follows the '-'. */
  function LeadFixed(value: i64, signMode: nat): Signed
  {
    if (signMode == SIGN_NEG || signMode == SIGN_ALWAYS || signMode == SIGN_ALIGN) && value < 0 then
      Signed([MINUS], -(value as int))
    else if signMode == SIGN_ALWAYS then Signed([if value != 0 then PLUS else SPACE], value)
    else if signMode == SIGN_ALIGN then Signed([SPACE], value)
    else Signed([], ToU64(value))
  }

  /** The width left for the body once the sign and prefix take `w` bytes. */
  function BodyWidth(width: nat, w: nat): nat
  {
    if w > width then 0 else width - w
  }

  /** The text `c42_i64_to_str` writes (as written) for a prefix string `prefix`. */
  function I64Text(value: i64, signMode: nat, radix: Radix, prefix: seq<u8>, width: nat, group: nat, sep: u8): seq<u8>
  {
    var l := Lead(value, signMode);
    l.sign + prefix + Render(l.mag, radix, BodyWidth(width, |l.sign| + |prefix|), group, sep)
  }

  /** The same text with the corrected sign handling. */
  function I64TextFixed(value: i64, signMode: nat, radix: Radix, prefix: seq<u8>, width: nat, group: nat, sep: u8): seq<u8>
  {
    var l := LeadFixed(value, signMode);
    l.sign + prefix + Render(l.mag, radix, BodyWidth(width, |l.sign| + |prefix|), group, sep)
  }

  /** When `c42_i64_to_str` is defined: the body must not be the empty rendering. */
  predicate I64Defined(value: i64, signMode: nat, prefixLen: nat, width: nat)
  {
    var l := Lead(value, signMode);
    BodyWidth(width, |l.sign| + prefixLen) >= 1 || l.mag != 0
  }

  /** The sign byte is '-' exactly for negative values in the signed modes, and the body
      under SIGN_NEG is the magnitude, INT64_MIN included. */
  lemma LeadSign(value: i64, signMode: nat)
    requires signMode in {SIGN_NEG, SIGN_ALWAYS, SIGN_ALIGN}
    ensures value < 0 ==> Lead(value, signMode).sign == [MINUS]
    ensures value >= 0 ==> MINUS !in Lead(value, signMode).sign
    ensures signMode == SIGN_NEG ==> Lead(value, signMode).mag == if value < 0 then -(value as int) else value
  {
  }

  /** The whole text is at least `width` long. */
  lemma I64TextAtLeastWidth(value: i64, signMode: nat, radix: Radix, prefix: seq<u8>, width: nat, group: nat, sep: u8)
    ensures |I64Text(value, signMode, radix, prefix, width, group, sep)| >= width
  {
    var l := Lead(value, signMode);
    RenderAtLeastWidth(l.mag, radix, BodyWidth(width, |l.sign| + |prefix|), group, sep);
  }

  lemma I64NegExample()
    ensures I64Text(-52, SIGN_NEG, 10, [], 5, 64, 95) == [45, 48, 48, 53, 50]
  {
    assert Gen(0, 10, 4, 64, 95, 4, 4) == [];
    assert Gen(0, 10, 4, 64, 95, 3, 3) == [48];
    assert Gen(0, 10, 4, 64, 95, 2, 2) == [48, 48];
    assert Gen(5, 10, 4, 64, 95, 1, 1) == [53, 48, 48];
    assert Gen(52, 10, 4, 64, 95, 0, 0) == [50, 53, 48, 48];
  }

  /** As written, SIGN_ALWAYS renders -5 in width 2 as "-0"; the corrected text is "-5". */
  lemma I64AlwaysLosesMagnitude()
    ensures I64Text(-5, SIGN_ALWAYS, 10, [], 2, 64, 95) == [45, 48]
    ensures I64TextFixed(-5, SIGN_ALWAYS, 10, [], 2, 64, 95) == [45, 53]
  {
    assert Gen(0, 10, 1, 64, 95, 0, 0) == [48];
    assert Gen(5, 10, 1, 64, 95, 0, 0) == [53];
  }

  /** The C string a prefix pointer designates; NULL designates none. */
  ghost function PrefixText(prefix: Option<array<u8>>): seq<u8>
    requires prefix.Some? ==> Terminated(prefix.value)
    reads if prefix.Some? then {prefix.value} else {}
  {
    if prefix.Some? then ZStr(prefix.value[..]) else []
  }

  /** `c42_i64_to_str`: writes the sign, then the prefix C string (if any), then the body,
      and returns the total length, with a NUL after it. */
  method I64ToStr(str: array<u8>, value: i64, signMode: u8, radix: Radix, prefix: Option<array<u8>>,
                  width: u32, group: u8, sep: u8) returns (n: nat)
    requires prefix.Some? ==> Terminated(prefix.value) && prefix.value != str
    requires I64Defined(value, signMode, |PrefixText(prefix)|, width)
    requires |I64Text(value, signMode, radix, PrefixText(prefix), width, group, sep)| < str.Length
    modifies str
    ensures n == |old(I64Text(value, signMode, radix, PrefixText(prefix), width, group, sep))|
    ensures str[..n] == old(I64Text(value, signMode, radix, PrefixText(prefix), width, group, sep))
    ensures str[n] == 0
    ensures str[n + 1..] == old(str[n + 1..])
  {
    ghost var l := Lead(value, signMode);
    ghost var pre := PrefixText(prefix);
    ghost var orig := str[..];
    var w, mag := WriteLead(str, value, signMode, prefix);
    ghost var lead := str[..w];
    ghost var mid := str[..];
    var bodyWidth: u32 := if w > width as nat then 0 else width - w;
    ghost var body := Render(mag, radix, bodyWidth, group, sep);
    assert I64Text(value, signMode, radix, pre, width, group, sep) == lead + body;
    var bodyLen := U64ToStr(str, w, mag, radix, bodyWidth, group, sep);
    n := w + bodyLen;
    assert str[..w] == lead && str[w..n] == body;
    assert str[..n] == lead + body;
    assert str[n + 1..] == mid[n + 1..] == orig[n + 1..];
  }

  /** The sign and the prefix of `c42_i64_to_str`: returns their total length `w` and the
      value left to render. */
  method WriteLead(str: array<u8>, value: i64, signMode: u8, prefix: Option<array<u8>>)
    returns (w: nat, mag: u64)
    requires prefix.Some? ==> Terminated(prefix.value) && prefix.value != str
    requires |Lead(value, signMode).sign| + |PrefixText(prefix)| < str.Length
    modifies str
    ensures w == |Lead(value, signMode).sign| + |old(PrefixText(prefix))| && mag == Lead(value, signMode).mag
    ensures str[..w] == Lead(value, signMode).sign + old(PrefixText(prefix))
    ensures str[w + 1..] == old(str[w + 1..])
  {
    ghost var orig := str[..];
    ghost var pre := PrefixText(prefix);
    w, mag := WriteSign(str, value, signMode);
    ghost var sign := str[..w];
    if prefix.Some? {
      ghost var mid := str[..];
      var end := U8zCopy(str, w, prefix.value);
      assert str[..end] == str[..w] + str[w..end];
      assert str[end + 1..] == mid[end + 1..] == orig[end + 1..];
      w := end;
    }
  }

  /** The `switch (sign_mode)` of `c42_i64_to_str`: writes the sign byte, if any, at the
      start of `str` and returns how many bytes it wrote and the value left to render. */
  method WriteSign(str: array<u8>, value: i64, signMode: u8) returns (at: nat, mag: u64)
    requires str.Length >= 1
    modifies str
    ensures at <= 1 && str[..at] == Lead(value, signMode).sign && mag == Lead(value, signMode).mag
    ensures str[at..] == old(str[at..])
  {
    var v: int := value;
    at := 0;
    if signMode == SIGN_NEG as u8 {
      if v < 0 {
        v := ToI64(-v);
        str[at] := MINUS;
        at := at + 1;
      }
    } else if signMode == SIGN_ALWAYS as u8 {
      if v < 0 {
        str[at] := MINUS;
        at := at + 1;
        v := v - v;
      } else {
        str[at] := if v != 0 then PLUS else SPACE;
        at := at + 1;
      }
    } else if signMode == SIGN_ALIGN as u8 {
      if v < 0 {
        str[at] := MINUS;
        at := at + 1;
        v := v - v;
      } else {
        str[at] := SPACE;
        at := at + 1;
      }
    }
    mag := ToU64(v);
  }

  // ---------------------------------------------------------------------------
  // Parsing.

  /** The outcome of `c42_u64_from_str`: status, `*value` and `*used_len`. */
  datatype Parsed = Parsed(status: nat, value: u64, used: nat)

  /** The digit value the parse loop computes for `ch`: '0'-'9', then letters of either
      case from 10 up; any other byte counts as `radix` (and so stops the parse). */
  function CDigit(ch: u8, radix: nat): nat
  {
    if '0' as int <= ch <= '9' as int then ch - '0' as int
    else if 'a' as int <= Or20(ch) <= 'z' as int then Or20(ch) - 'a' as int + 10
    else radix
  }

  /** The radix and start index after auto-detection (radix 0 only). */
  function Detect(s: seq<u8>, radix: nat): (d: (nat, nat))
    requires |s| > 0
    ensures d.1 <= |s| && d.0 >= 1
    ensures radix != 0 ==> d == (radix, 0)
    ensures d.1 == 2 <==> radix == 0 && |s| > 1 && s[0] == '0' as int && s[1] in {98, 100, 111, 120}
  {
    if radix != 0 then (radix, 0)
    else if s[0] != '0' as int || |s| == 1 then (10, 0)
    else if s[1] == 'b' as int then (2, 2)
    else if s[1] == 'o' as int then (8, 2)
    else if s[1] == 'd' as int then (10, 2)
    else if s[1] == 'x' as int then (16, 2)
    else (10, 0)
  }

  /** The parse loop from index `i` with accumulated value `acc`, in exact arithmetic:
      a multiplication that would exceed 2^64-1 stops with the old value, an addition that
      would exceed it stops with the wrapped sum. */
  function Scan(s: seq<u8>, radix: nat, i: nat, acc: u64): (r: Parsed)
    requires radix >= 1 && i <= |s|
    ensures i <= r.used <= |s|
    decreases |s| - i
  {
    if i == |s| then Parsed(U64_OK, acc, i)
    else
      var d := CDigit(s[i], radix);
      if d >= radix then Parsed(U64_STOP, acc, i)
      else if acc * radix >= U64_LIMIT then Parsed(U64_OVERFLOW, acc, i)
      else if acc * radix + d >= U64_LIMIT then Parsed(U64_OVERFLOW, acc * radix + d - U64_LIMIT, i)
      else Scan(s, radix, i + 1, acc * radix + d)
  }

  /** `c42_u64_from_str` on `s` with `radix`; `value0` and `used0` are what the caller's
      outputs held before (they are left alone for an empty input). */
  function Parse(s: seq<u8>, radix: nat, value0: u64, used0: nat): Parsed
  {
    if |s| == 0 then Parsed(U64_STOP, value0, used0)
    else
      var (r, start) := Detect(s, radix);
      Scan(s, r, start, 0)
  }

  /** The value of a digit run in `radix`, most significant first (a reference definition
      independent of the wrap-around checks). */
  function ValueOf(t: seq<u8>, radix: nat): nat
  {
    if t == [] then 0 else ValueOf(t[..|t| - 1], radix) * radix + CDigit(t[|t| - 1], radix)
  }

  /** Every byte of `t` is a digit below `radix`. */
  predicate AllDigits(t: seq<u8>, radix: nat)
  {
    forall k :: 0 <= k < |t| ==> CDigit(t[k], radix) < radix
  }

  lemma ValueOfSnoc(s: seq<u8>, start: nat, i: nat, radix: nat)
    requires start <= i < |s|
    ensures ValueOf(s[start..i + 1], radix) == ValueOf(s[start..i], radix) * radix + CDigit(s[i], radix)
  {
    assert s[start..i + 1][..i - start] == s[start..i];
  }

  /** What a scan result means for the digits from `start`: it stopped at the first
      non-digit (STOP), at the first digit whose prefix value exceeds 2^64-1 (OVERFLOW), or at
      the end (OK); in the OK and STOP cases the value is the prefix's value. */
  predicate ScanOutcome(s: seq<u8>, radix: nat, start: nat, r: Parsed)
  {
    start <= r.used <= |s| &&
    AllDigits(s[start..r.used], radix) && ValueOf(s[start..r.used], radix) < U64_LIMIT &&
    r.status in {U64_OK, U64_STOP, U64_OVERFLOW} &&
    (r.status == U64_OK ==> r.used == |s| && r.value == ValueOf(s[start..], radix)) &&
    (r.status == U64_STOP ==> r.used < |s| && CDigit(s[r.used], radix) >= radix &&
                              r.value == ValueOf(s[start..r.used], radix)) &&
    (r.status == U64_OVERFLOW ==> r.used < |s| && CDigit(s[r.used], radix) < radix &&
                                  ValueOf(s[start..r.used + 1], radix) >= U64_LIMIT)
  }

  lemma {:induction false} ScanMeaning(s: seq<u8>, radix: nat, start: nat, i: nat, acc: u64)
    requires radix >= 1 && start <= i <= |s|
    requires AllDigits(s[start..i], radix) && acc == ValueOf(s[start..i], radix)
    ensures ScanOutcome(s, radix, start, Scan(s, radix, i, acc))
    decreases |s| - i
  {
    if i == |s| {
      assert s[start..] == s[start..i];
    } else if CDigit(s[i], radix) >= radix {
      ScanStops(s, radix, start, i, acc);
    } else {
      var next := ScanStep(s, radix, start, i, acc);
      if next.Some? {
        ScanMeaning(s, radix, start, i + 1, next.value);
      }
    }
  }

  /** One digit of the scan: either it overflows (and the outcome is settled) or the scan
      goes on from `i + 1` with the prefix value of one more digit. */
  lemma ScanStep(s: seq<u8>, radix: nat, start: nat, i: nat, acc: u64) returns (next: Option<u64>)
    requires radix >= 1 && start <= i < |s| && CDigit(s[i], radix) < radix
    requires AllDigits(s[start..i], radix) && acc == ValueOf(s[start..i], radix)
    ensures next.None? ==> ScanOutcome(s, radix, start, Scan(s, radix, i, acc))
    ensures next.Some? ==> AllDigits(s[start..i + 1], radix) && next.value == ValueOf(s[start..i + 1], radix) &&
                           Scan(s, radix, i, acc) == Scan(s, radix, i + 1, next.value)
  {
    ValueOfSnoc(s, start, i, radix);
    assert s[start..i + 1] == s[start..i] + [s[i]];
    ValueOfSnocDigit(s[start..i], s[i], radix);
    var d := CDigit(s[i], radix);
    if acc * radix + d >= U64_LIMIT {
      ScanOverflows(s, radix, start, i, Scan(s, radix, i, acc));
      next := None;
    } else {
      next := Some(acc * radix + d);
    }
  }

  lemma ScanStops(s: seq<u8>, radix: nat, start: nat, i: nat, acc: u64)
    requires radix >= 1 && start <= i < |s| && CDigit(s[i], radix) >= radix
    requires AllDigits(s[start..i], radix) && acc == ValueOf(s[start..i], radix)
    ensures ScanOutcome(s, radix, start, Scan(s, radix, i, acc))
  {
    assert Scan(s, radix, i, acc) == Parsed(U64_STOP, acc, i);
  }

  lemma ScanOverflows(s: seq<u8>, radix: nat, start: nat, i: nat, r: Parsed)
    requires radix >= 1 && start <= i < |s| && CDigit(s[i], radix) < radix
    requires AllDigits(s[start..i], radix) && ValueOf(s[start..i], radix) < U64_LIMIT
    requires ValueOf(s[start..i + 1], radix) >= U64_LIMIT
    requires r.status == U64_OVERFLOW && r.used == i
    ensures ScanOutcome(s, radix, start, r)
  {
  }

  lemma ParseHexExample()
    ensures Parse([48, 120, 49, 65], 0, 7, 7) == Parsed(U64_OK, 26, 4)
  {
  }

  lemma ParseStopExample()
    ensures Parse([49, 50, 122], 10, 7, 7) == Parsed(U64_STOP, 12, 2)
  {
  }

  lemma ParseEmptyKeepsOutputs(radix: nat, value0: u64, used0: nat)
    ensures Parse([], radix, value0, used0) == Parsed(U64_STOP, value0, used0)
  {
  }

  /** The overflow test of the C: with `w = v * radix` wrapped to 64 bits, `w / radix != v`
      exactly when the product exceeds 2^64-1. */
  lemma MulWrapDetect(v: u64, radix: nat)
    requires 1 <= radix < 0x100
    ensures ((v * radix) % U64_LIMIT) / radix == v <==> v * radix < U64_LIMIT
  {
    var p := v * radix;
    var w := p % U64_LIMIT;
    if p < U64_LIMIT {
      assert w == p;
      DivOfMul(v, radix);
    } else {
      assert w <= p - U64_LIMIT;
      DivMulLe(w, radix);
      if w / radix == v {
        assert false;
      }
    }
  }

  lemma DivOfMul(v: nat, r: nat)
    requires r >= 1
    ensures (v * r) / r == v
  {
    var p := v * r;
    var q := p / r;
    assert q * r <= p < q * r + r;
    if q < v {
      MulLe(q + 1, v, r);
      assert false;
    } else if q > v {
      MulLe(v + 1, q, r);
      assert false;
    }
  }

  lemma MulLe(a: nat, b: nat, r: nat)
    requires a <= b
    ensures a * r <= b * r
  {
  }

  lemma DivMulLe(w: nat, r: nat)
    requires r >= 1
    ensures (w / r) * r <= w
  {
  }

  /** The addition test of the C: the wrapped sum is below `w` exactly when it wrapped. */
  lemma AddWrapDetect(w: u64, d: nat)
    requires d < 0x100
    ensures (w + d) % U64_LIMIT < w <==> w + d >= U64_LIMIT
  {
  }

  /** One digit of the C loop, with its two wrap-around tests, is one step of `Scan`. */
  lemma ScanDigit(s: seq<u8>, r: nat, i: nat, v: u64, digit: nat, w: u64)
    requires 1 <= r < 0x100 && i < |s| && digit == CDigit(s[i], r) && digit < r
    requires w == (v * r) % U64_LIMIT
    ensures w / r != v ==> Scan(s, r, i, v) == Parsed(U64_OVERFLOW, v, i)
    ensures w / r == v && (w + digit) % U64_LIMIT < w ==>
              Scan(s, r, i, v) == Parsed(U64_OVERFLOW, (w + digit) % U64_LIMIT, i)
    ensures w / r == v && (w + digit) % U64_LIMIT >= w ==>
              Scan(s, r, i, v) == Scan(s, r, i + 1, (w + digit) % U64_LIMIT)
  {
    var p := v * r;
    MulWrapDetect(v, r);
    if w / r != v {
      ScanStepCases(s, r, i, v, p);
    } else {
      assert w == p;
      AddWrapDetect(w, digit);
      ScanStepCases(s, r, i, v, p);
    }
  }

  /** `Scan` at a digit, by the size of the product `p` of the value and the radix. */
  lemma ScanStepCases(s: seq<u8>, r: nat, i: nat, v: u64, p: nat)
    requires 1 <= r && i < |s| && CDigit(s[i], r) < r && p == v * r
    ensures p >= U64_LIMIT ==> Scan(s, r, i, v) == Parsed(U64_OVERFLOW, v, i)
    ensures p < U64_LIMIT && p + CDigit(s[i], r) >= U64_LIMIT ==>
              Scan(s, r, i, v) == Parsed(U64_OVERFLOW, p + CDigit(s[i], r) - U64_LIMIT, i)
    ensures p + CDigit(s[i], r) < U64_LIMIT ==> Scan(s, r, i, v) == Scan(s, r, i + 1, p + CDigit(s[i], r))
  {
  }

  /** `c42_u64_from_str`: parses up to `len` bytes; `value0`/`used0` are the caller's
      previous `*value` and `*used_len`, returned unchanged when `len` is 0. */
  method U64FromStr(str: array<u8>, len: nat, radix: u8, value0: u64, used0: nat)
    returns (status: nat, value: u64, used: nat)
    requires len <= str.Length
    ensures Parsed(status, value, used) == Parse(str[..len], radix, value0, used0)
  {
    if len == 0 {
      return U64_STOP, value0, used0;
    }
    ghost var s := str[..len];
    var i: nat := 0;
    var r: nat := radix;
    if radix == 0 {
      if str[0] != '0' as int || len == 1 {
        r := 10;
      } else if str[1] == 'b' as int {
        r, i := 2, 2;
      } else if str[1] == 'o' as int {
        r, i := 8, 2;
      } else if str[1] == 'd' as int {
        r, i := 10, 2;
      } else if str[1] == 'x' as int {
        r, i := 16, 2;
      } else {
        r := 10;
      }
    }
    assert (r, i) == Detect(s, radix);
    var v: u64 := 0;
    status := U64_OK;
    while i < len
      invariant i <= len
      invariant Scan(s, r, i, v) == Parse(s, radix, value0, used0)
      decreases len - i
    {
      var digit: nat;
      if '0' as int <= str[i] <= '9' as int {
        digit := str[i] - '0' as int;
      } else {
        digit := Or20(str[i]);
        if 'a' as int <= digit <= 'z' as int {
          digit := digit - ('a' as int - 10);
        } else {
          digit := r;
        }
      }
      assert digit == CDigit(s[i], r);
      if digit >= r {
        status := U64_STOP;
        break;
      }
      var w: u64 := (v * r) % U64_LIMIT;
      ScanDigit(s, r, i, v, digit, w);
      if w / r != v {
        status := U64_OVERFLOW;
        break;
      }
      v := (w + digit) % U64_LIMIT;
      if v < w {
        status := U64_OVERFLOW;
        break;
      }
      i := i + 1;
    }
    value := v;
    used := i;
  }

  // ---------------------------------------------------------------------------
  // Round trip.

  function Pow(b: nat, e: nat): nat
  {
    if e == 0 then 1 else b * Pow(b, e - 1)
  }

  lemma {:induction false} PowAtLeastPow2(b: nat, e: nat)
    requires b >= 2
    ensures Pow(b, e) >= Pow(2, e)
  {
    if e > 0 {
      PowAtLeastPow2(b, e - 1);
      assert b * Pow(b, e - 1) >= 2 * Pow(b, e - 1);
    }
  }

  lemma {:induction false} PowAdd(b: nat, x: nat, y: nat)
    ensures Pow(b, x + y) == Pow(b, x) * Pow(b, y)
    decreases y
  {
    if y > 0 {
      PowAdd(b, x, y - 1);
      assert Pow(b, x + y) == b * (Pow(b, x) * Pow(b, y - 1));
    }
  }

  lemma Pow2At64()
    ensures Pow(2, 64) == U64_LIMIT
  {
    assert Pow(2, 8) == 0x100;
    PowAdd(2, 8, 8);
    PowAdd(2, 16, 16);
    PowAdd(2, 32, 32);
  }

  /** Every 64-bit value has at most 64 digits in any radix. */
  lemma U64FitsDigits(value: u64, radix: Radix)
    ensures value < Pow(radix, 64)
  {
    Pow2At64();
    PowAtLeastPow2(radix, 64);
  }

  lemma DivBelow(value: nat, radix: Radix, p: nat)
    requires value < radix * p
    ensures value / radix < p
  {
  }

  lemma DivModSplit(value: nat, radix: Radix)
    ensures value == (value / radix) * radix + value % radix
  {
  }

  lemma CDigitOfDigitChar(d: nat, radix: Radix)
    requires d < radix
    ensures CDigit(DigitChar(d), radix) == d
  {
  }

  /** With `group` above 64, `width` at most 64 and a value of at most `64 - i` digits,
      the digit loop never emits a separator, and the text is the value's digits. */
  lemma {:induction false} GenPlain(value: nat, radix: Radix, width: nat, group: nat, sep: u8, i: nat)
    requires i <= 64 && width <= 64 && group > 64 && value < Pow(radix, 64 - i)
    ensures AllDigits(Reverse(Gen(value, radix, width, group, sep, i, i)), radix)
    ensures ValueOf(Reverse(Gen(value, radix, width, group, sep, i, i)), radix) == value
    decreases value, if i < width then width - i else 0
  {
    if i < width || value != 0 {
      assert i < 64 by {
        if i == 64 {
          assert false;
        }
      }
      DivShrinks(value, radix);
      var q := value / radix;
      var d := DigitChar(value % radix);
      GenStep(value, radix, width, group, sep, i, i);
      var rest := Gen(q, radix, width, group, sep, i + 1, i + 1);
      assert Pow(radix, 64 - i) == radix * Pow(radix, 64 - (i + 1));
      DivBelow(value, radix, Pow(radix, 64 - (i + 1)));
      GenPlain(q, radix, width, group, sep, i + 1);
      ReverseCons(d, rest);
      CDigitOfDigitChar(value % radix, radix);
      ValueOfSnocDigit(Reverse(rest), d, radix);
      DivModSplit(value, radix);
    }
  }

  lemma ReverseCons(d: u8, rest: seq<u8>)
    ensures Reverse([d] + rest) == Reverse(rest) + [d]
  {
    assert ([d] + rest)[1..] == rest;
  }

  lemma ValueOfSnocDigit(u: seq<u8>, c: u8, radix: nat)
    requires AllDigits(u, radix) && CDigit(c, radix) < radix
    ensures ValueOf(u + [c], radix) == ValueOf(u, radix) * radix + CDigit(c, radix)
    ensures AllDigits(u + [c], radix)
  {
    assert (u + [c])[..|u|] == u;
    forall k | 0 <= k < |u| + 1
      ensures CDigit((u + [c])[k], radix) < radix
    {
      if k < |u| {
        assert (u + [c])[k] == u[k];
      }
    }
  }

  /** Parsing a digit run whose value fits gives that value and uses every byte. */
  lemma ParseDigits(t: seq<u8>, radix: Radix)
    requires |t| > 0 && AllDigits(t, radix) && ValueOf(t, radix) < U64_LIMIT
    ensures Parse(t, radix, 0, 0) == Parsed(U64_OK, ValueOf(t, radix), |t|)
  {
    assert t[0..0] == [];
    ScanMeaning(t, radix, 0, 0, 0);
    var r := Scan(t, radix, 0, 0);
    assert t[0..] == t;
    if r.status == U64_OVERFLOW {
      ValueOfPrefix(t, r.used + 1, radix);
      assert false;
    }
  }

  /** A prefix of a digit run has no larger value. */
  lemma {:induction false} ValueOfPrefix(t: seq<u8>, k: nat, radix: nat)
    requires k <= |t| && radix >= 1
    ensures ValueOf(t[..k], radix) <= ValueOf(t, radix)
    decreases |t|
  {
    if k < |t| {
      var init := t[..|t| - 1];
      ValueOfPrefix(init, k, radix);
      assert init[..k] == t[..k];
      MulAtLeast(ValueOf(init, radix), radix);
    } else {
      assert t[..k] == t;
    }
  }

  lemma MulAtLeast(a: nat, r: nat)
    requires r >= 1
    ensures a * r >= a
  {
  }

  /** `c42_u64_from_str` inverts `c42_u64_to_str`: for widths 1 to 64 and grouping
      disabled (group above 64), parsing the rendered text with the same radix gives back
      the value, status OK and the whole length. */
  lemma RoundTrip(value: u64, radix: Radix, width: nat, group: nat, sep: u8)
    requires 1 <= width <= 64 && group > 64
    ensures Parse(Render(value, radix, width, group, sep), radix, 0, 0) ==
            Parsed(U64_OK, value, |Render(value, radix, width, group, sep)|)
  {
    Pow2At64();
    PowAtLeastPow2(radix, 64);
    GenPlain(value, radix, width, group, sep, 0);
    RenderAtLeastWidth(value, radix, width, group, sep);
    ParseDigits(Render(value, radix, width, group, sep), radix);
  }

  // ---------------------------------------------------------------------------
  // Grouping of 64.

  /** The digits of 0 zero padded to 64 with groups of 64, from round `i` on: the
      remaining zeros, then the separator that the 64th digit triggers. */
  lemma {:induction false} GenZeroGroup64(radix: Radix, sep: u8, i: nat)
    requires i < 64
    ensures Gen(0, radix, 64, 64, sep, i, i) == seq(64 - i, _ => DigitChar(0)) + [sep]
    decreases 64 - i
  {
    GenStep(0, radix, 64, 64, sep, i, i);
    if i + 1 < 64 {
      GenZeroGroup64(radix, sep, i + 1);
      assert [DigitChar(0)] + seq(64 - (i + 1), _ => DigitChar(0)) == seq(64 - i, _ => DigitChar(0));
    } else {
      assert Gen(0, radix, 64, 64, sep, 65, 0) == [];
    }
  }

  /** As written, a group of 64 still separates: 0 in radix 2, width 64, groups of 64 is
      "_" and 64 zeros, and parsing it back stops at once on the separator. */
  lemma Group64Separates()
    ensures |Render(0, 2, 64, 64, 95)| == 65 && Render(0, 2, 64, 64, 95)[0] == 95
    ensures Parse(Render(0, 2, 64, 64, 95), 2, 0, 0) == Parsed(U64_STOP, 0, 0)
  {
    GenZeroGroup64(2, 95, 0);
    var t := Render(0, 2, 64, 64, 95);
    assert t[0] == 95;
  }

  /** The digit loop with grouping as documented: a group of 64 or more writes no
      separator. Below 64 it is `Gen` (`GenFixedBelow64`). */
  function GenFixed(value: nat, radix: Radix, width: nat, group: nat, sep: u8, i: nat, g: nat): seq<u8>
    decreases value, if i < width then width - i else 0
  {
    if !(i < width || value != 0) then []
    else
      DivShrinks(value, radix);
      var d := DigitChar(value % radix);
      if group < 64 && g + 1 == group then [d, sep] + GenFixed(value / radix, radix, width, group, sep, i + 2, 0)
      else [d] + GenFixed(value / radix, radix, width, group, sep, i + 1, g + 1)
  }

  /** The corrected text of `c42_u64_to_str`. */
  function RenderFixed(value: u64, radix: Radix, width: nat, group: nat, sep: u8): seq<u8>
  {
    Reverse(GenFixed(value, radix, width, group, sep, 0, 0))
  }

  /** Below 64 the correction changes nothing. */
  lemma {:induction false} GenFixedBelow64(value: nat, radix: Radix, width: nat, group: nat, sep: u8, i: nat, g: nat)
    requires group < 64
    ensures GenFixed(value, radix, width, group, sep, i, g) == Gen(value, radix, width, group, sep, i, g)
    decreases value, if i < width then width - i else 0
  {
    if i < width || value != 0 {
      DivShrinks(value, radix);
      GenStep(value, radix, width, group, sep, i, g);
      if g + 1 == group {
        GenFixedBelow64(value / radix, radix, width, group, sep, i + 2, 0);
      } else {
        GenFixedBelow64(value / radix, radix, width, group, sep, i + 1, g + 1);
      }
    }
  }

  /** With a group of 64 or more the corrected loop writes only digits, and for at most
      `64 - i` digits of value their reading is the value. */
  lemma {:induction false} GenFixedPlain(value: nat, radix: Radix, width: nat, group: nat, sep: u8, i: nat, g: nat)
    requires i <= 64 && width <= 64 && group >= 64 && value < Pow(radix, 64 - i)
    ensures AllDigits(Reverse(GenFixed(value, radix, width, group, sep, i, g)), radix)
    ensures ValueOf(Reverse(GenFixed(value, radix, width, group, sep, i, g)), radix) == value
    decreases value, if i < width then width - i else 0
  {
    if i < width || value != 0 {
      assert i < 64 by {
        if i == 64 {
          assert false;
        }
      }
      DivShrinks(value, radix);
      var q := value / radix;
      var d := DigitChar(value % radix);
      var rest := GenFixed(q, radix, width, group, sep, i + 1, g + 1);
      assert GenFixed(value, radix, width, group, sep, i, g) == [d] + rest;
      assert Pow(radix, 64 - i) == radix * Pow(radix, 64 - (i + 1));
      DivBelow(value, radix, Pow(radix, 64 - (i + 1)));
      GenFixedPlain(q, radix, width, group, sep, i + 1, g + 1);
      ReverseCons(d, rest);
      CDigitOfDigitChar(value % radix, radix);
      ValueOfSnocDigit(Reverse(rest), d, radix);
      DivModSplit(value, radix);
    }
  }

  /** With the corrected grouping the round trip holds for every group the header calls
      "no grouping", 64 included. */
  lemma RoundTripFixed(value: u64, radix: Radix, width: nat, group: nat, sep: u8)
    requires 1 <= width <= 64 && group >= 64
    ensures Parse(RenderFixed(value, radix, width, group, sep), radix, 0, 0) ==
            Parsed(U64_OK, value, |RenderFixed(value, radix, width, group, sep)|)
  {
    Pow2At64();
    PowAtLeastPow2(radix, 64);
    GenFixedPlain(value, radix, width, group, sep, 0, 0);
    var t := RenderFixed(value, radix, width, group, sep);
    assert |t| >= 1 by {
      assert width >= 1;
      assert GenFixed(value, radix, width, group, sep, 0, 0) != [];
    }
    ParseDigits(t, radix);
  }

  /** With the corrected sign handling, every signed mode renders a negative value as '-'
      followed by digits that parse back to its magnitude. */
  lemma I64FixedRoundTrip(value: i64, signMode: nat, radix: Radix, width: nat, group: nat, sep: u8)
    requires signMode in {SIGN_NEG, SIGN_ALWAYS, SIGN_ALIGN}
    requires 2 <= width <= 65 && group > 64 && value < 0
    ensures var t := I64TextFixed(value, signMode, radix, [], width, group, sep);
      |t| >= 2 && t[0] == MINUS && Parse(t[1..], radix, 0, 0).value == -(value as int)
  {
    var body := Render(-(value as int), radix, width - 1, group, sep);
    var t := I64TextFixed(value, signMode, radix, [], width, group, sep);
    assert t == [MINUS] + body;
    assert t[1..] == body;
    RoundTrip(-(value as int), radix, width - 1, group, sep);
    RenderAtLeastWidth(-(value as int), radix, width - 1, group, sep);
  }
}
