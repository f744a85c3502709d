/** UTF-16LE to UTF-8 conversion: `c42_utf16le_to_utf8_len`, which sizes the output
    (or rejects the input), and `c42_utf16le_to_utf8`, which writes it. Surrogate
    pairs are combined as in section 2.2 of RFC 2781; the flags select the MUTF-8
    variations (a two-byte NUL, surrogates left unpaired). */
module Utf16 {
  import opened Bytes
  import opened Utf8

  /** `C42_TWO_BYTE_NUL`: encode U+0000 as the two bytes C0 80. */
  const TWO_BYTE_NUL: nat := 1
  /** `C42_ALLOW_UNPAIRED_SURROGATES`: accept a surrogate that is not part of a pair. */
  const ALLOW_UNPAIRED_SURROGATES: nat := 2
  /** `C42_NEVER_PAIR_SURROGATES`: treat every 16-bit unit on its own. */
  const NEVER_PAIR_SURROGATES: nat := 4

  /** `flags & bit` is non-zero, for a single-bit `bit`. */
  predicate HasFlag(flags: u32, bit: nat)
    requires bit in {TWO_BYTE_NUL, ALLOW_UNPAIRED_SURROGATES, NEVER_PAIR_SURROGATES}
  {
    (flags / bit) % 2 == 1
  }

  /** The little-endian 16-bit unit at byte offset `i`. */
  function UnitAt(s: seq<u8>, i: nat): (u: u16)
    requires i + 2 <= |s|
  {
    s[i] + 0x100 * (s[i + 1] as int)
  }

  /** The test both functions use to combine a pair: the unit at `i` is a high (lead)
      surrogate D800-DBFF, another unit follows, and that unit's high byte is DC-DF,
      i.e. the unit is a low (trail) surrogate. */
  predicate PairsAt(s: seq<u8>, i: nat)
    requires i + 2 <= |s|
  {
    0xD800 <= UnitAt(s, i) < 0xDC00 && i + 4 <= |s| && 0xDC <= s[i + 3] < 0xE0
  }

  /** The code point of the pair at `i`, assembled as the converter does: the ten low
      bits of the lead shifted by ten, the low byte of the trail, and the two low bits of
      its high byte shifted by eight (the three parts occupy disjoint bits, so the C's
      bitwise or is a sum), plus 0x10000. */
  function PairValue(s: seq<u8>, i: nat): (ucp: u32)
    requires i + 4 <= |s|
  {
    0x10000 + (UnitAt(s, i) % 0x400) * 0x400 + s[i + 2] + (s[i + 3] as int % 4) * 0x100
  }

  /** The pair value is the one section 2.2 of RFC 2781 defines: 0x10000 plus ten bits
      from each surrogate, and it lies in the supplementary planes 0x10000-0x10FFFF. */
  lemma PairFormula(s: seq<u8>, i: nat)
    requires i + 4 <= |s| && PairsAt(s, i)
    ensures 0xDC00 <= UnitAt(s, i + 2) < 0xE000
    ensures PairValue(s, i) == 0x10000 + (UnitAt(s, i) - 0xD800) * 0x400 + (UnitAt(s, i + 2) - 0xDC00)
    ensures 0x10000 <= PairValue(s, i) < 0x110000 && UcpIsValid(PairValue(s, i))
  {
    var hi := UnitAt(s, i);
    assert hi % 0x400 == hi - 0xD800;
    assert s[i + 3] % 4 == s[i + 3] - 0xDC;
  }

  // ---------------------------------------------------------------------------
  // One round of either loop.

  /** The bytes of input one round consumes: a pair, unless pairing is switched off,
      else a single unit. */
  function StepSize(s: seq<u8>, flags: u32, i: nat): (n: nat)
    requires i + 2 <= |s|
    ensures n == 2 || n == 4
    ensures i + n <= |s|
  {
    if !HasFlag(flags, NEVER_PAIR_SURROGATES) && PairsAt(s, i) then 4 else 2
  }

  /** The code point one round reads: the pair's value, or the unit itself. */
  function StepUcp(s: seq<u8>, flags: u32, i: nat): u32
    requires i + 2 <= |s|
  {
    if StepSize(s, flags, i) == 4 then PairValue(s, i) else UnitAt(s, i)
  }

  /** The bytes the converter writes in one round: C0 80 for NUL under `TWO_BYTE_NUL`,
      else the UTF-8 encoding of the code point (three bytes for a surrogate left
      unpaired, whatever the flags). */
  function StepBytes(s: seq<u8>, flags: u32, i: nat): seq<u8>
    requires i + 2 <= |s|
  {
    if StepSize(s, flags, i) == 2 && UnitAt(s, i) == 0 && HasFlag(flags, TWO_BYTE_NUL) then [0xC0, 0x80]
    else Encode(StepUcp(s, flags, i))
  }

  /** The bytes the length function adds for a unit that is not a surrogate. As written
      it adds 2 from 0x800 up (and for NUL under `TWO_BYTE_NUL`) and 1 otherwise, while
      the encoder writes 1, 2 or 3 bytes; the corrected count is that of the encoder. */
  function UnitCost(u: u16, flags: u32, fixed: bool): (n: nat)
  {
    if u == 0 && HasFlag(flags, TWO_BYTE_NUL) then 2
    else if fixed then Utf8Len(u)
    else if u >= 0x800 then 2
    else 1
  }

  /** What one round of the length function adds, in the order of the C's tests: a
      surrogate costs 3 under `NEVER_PAIR_SURROGATES`, a pair costs 4, an unpaired
      surrogate costs 3 if allowed and fails with -2 otherwise. */
  function LenStep(s: seq<u8>, flags: u32, i: nat, fixed: bool): (c: int)
    requires i + 2 <= |s|
    ensures c == -2 || c >= 1
  {
    var u := UnitAt(s, i);
    if IsSurrogate(u) then
      if HasFlag(flags, NEVER_PAIR_SURROGATES) then 3
      else if PairsAt(s, i) then 4
      else if !HasFlag(flags, ALLOW_UNPAIRED_SURROGATES) then -2
      else 3
    else UnitCost(u, flags, fixed)
  }

  /** The corrected count of a round is the number of bytes the converter writes in
      it; the count as written fails exactly when the corrected one does, and is never
      larger. */
  lemma StepCost(s: seq<u8>, flags: u32, i: nat)
    requires i + 2 <= |s|
    ensures LenStep(s, flags, i, true) != -2 ==> LenStep(s, flags, i, true) == |StepBytes(s, flags, i)|
    ensures LenStep(s, flags, i, false) == -2 <==> LenStep(s, flags, i, true) == -2
    ensures LenStep(s, flags, i, false) <= LenStep(s, flags, i, true)
  {
    if StepSize(s, flags, i) == 4 {
      PairFormula(s, i);
    }
  }

  /** Without the MUTF-8 flags, a round that the length function accepts writes the
      encoding of a code point that UTF-8 validation accepts. */
  lemma StepAcceptable(s: seq<u8>, flags: u32, i: nat)
    requires i + 2 <= |s|
    requires !HasFlag(flags, TWO_BYTE_NUL) && !HasFlag(flags, NEVER_PAIR_SURROGATES)
    requires !HasFlag(flags, ALLOW_UNPAIRED_SURROGATES) && LenStep(s, flags, i, true) != -2
    ensures StepBytes(s, flags, i) == Encode(StepUcp(s, flags, i))
    ensures Acceptable(StepUcp(s, flags, i)) && UcpIsValid(StepUcp(s, flags, i))
  {
    if StepSize(s, flags, i) == 4 {
      PairFormula(s, i);
    }
  }

  // ---------------------------------------------------------------------------
  // Output length.

  /** The loop of `c42_utf16le_to_utf8_len` from byte offset `i` with running total
      `o`: -2 at the first unpaired surrogate when those are not allowed, else the
      total. `fixed` selects the corrected count for plain units. */
  function LenFrom(s: seq<u8>, flags: u32, i: nat, o: nat, fixed: bool): (r: int)
    requires i <= |s|
    ensures r == -2 || r >= o
    decreases |s| - i
  {
    if |s| < i + 2 then o
    else
      var c := LenStep(s, flags, i, fixed);
      if c < 0 then -2 else LenFrom(s, flags, i + StepSize(s, flags, i), o + c, fixed)
  }

  /** `c42_utf16le_to_utf8_len` on the `len` = |s| bytes of `s`: -1 for an odd length. */
  function Utf16LeToUtf8Len(s: seq<u8>, flags: u32): int
  {
    if |s| % 2 != 0 then -1 else LenFrom(s, flags, 0, 0, false)
  }

  /** The corrected length: the number of bytes `c42_utf16le_to_utf8` writes. */
  function Utf16LeToUtf8LenFixed(s: seq<u8>, flags: u32): int
  {
    if |s| % 2 != 0 then -1 else LenFrom(s, flags, 0, 0, true)
  }

  /** The method form of `c42_utf16le_to_utf8_len` over the first `len` bytes of `data`. */
  method Utf16LeToUtf8LenOf(data: array<u8>, len: nat, flags: u32) returns (r: int)
    requires len <= data.Length
    ensures r == Utf16LeToUtf8Len(data[..len], flags)
  {
    if len % 2 != 0 {
      return -1;
    }
    ghost var s := data[..len];
    ghost var units: nat := len / 2;
    var o := 0;
    var i := 0;
    while i < len
      invariant len == i + 2 * units
      invariant LenFrom(s, flags, i, o, false) == LenFrom(s, flags, 0, 0, false)
      decreases len - i
    {
      var u: u16 := data[i] + 0x100 * (data[i + 1] as int);
      assert u == UnitAt(s, i);
      ghost var i0 := i;
      ghost var i2 := i + StepSize(s, flags, i);
      i := i + 2;
      if 0xD800 <= u < 0xE000 {
        if (flags / NEVER_PAIR_SURROGATES) % 2 == 1 {
          o := o + 3;
        } else if u < 0xDC00 && i < len && 0xDC <= data[i + 1] < 0xE0 {
          o := o + 4;
          i := i + 2;
        } else {
          if (flags / ALLOW_UNPAIRED_SURROGATES) % 2 == 0 {
            return -2;
          }
          o := o + 3;
        }
      } else {
        o := o + if u >= 0x800 || (u == 0 && flags % 2 == 1) then 2 else 1;
      }
      assert i == i2;
      units := if i2 == i0 + 2 then units - 1 else units - 2;
    }
    r := o;
  }

  /** The codes of the length function: -1 exactly for an odd length, -2 or a
      non-negative size otherwise; the corrected function fails in the same cases and
      never reports less. */
  lemma LenCodes(s: seq<u8>, flags: u32)
    ensures Utf16LeToUtf8Len(s, flags) == -1 <==> |s| % 2 != 0
    ensures |s| % 2 == 0 ==> Utf16LeToUtf8Len(s, flags) == -2 || Utf16LeToUtf8Len(s, flags) >= 0
    ensures Utf16LeToUtf8Len(s, flags) == -2 <==> Utf16LeToUtf8LenFixed(s, flags) == -2
    ensures Utf16LeToUtf8Len(s, flags) <= Utf16LeToUtf8LenFixed(s, flags)
  {
    if |s| % 2 == 0 {
      LenFromFails(s, flags, 0, 0, 0);
    }
  }

  lemma {:induction false} LenFromFails(s: seq<u8>, flags: u32, i: nat, o: nat, o2: nat)
    requires i <= |s| && o <= o2
    ensures LenFrom(s, flags, i, o, false) == -2 <==> LenFrom(s, flags, i, o2, true) == -2
    ensures LenFrom(s, flags, i, o, false) <= LenFrom(s, flags, i, o2, true)
    decreases |s| - i
  {
    if i + 2 <= |s| {
      StepCost(s, flags, i);
      var c, c2 := LenStep(s, flags, i, false), LenStep(s, flags, i, true);
      if c >= 0 {
        LenFromFails(s, flags, i + StepSize(s, flags, i), o + c, o2 + c2);
      }
    }
  }

  /** The cases `test.c` checks. */
  lemma LenExamples()
    ensures Utf16LeToUtf8Len([0x00], 0) == -1
    ensures Utf16LeToUtf8Len([0x00, 0xD8], 0) == -2
    ensures Utf16LeToUtf8Len([0x00, 0xD8], ALLOW_UNPAIRED_SURROGATES as u32) == 3
    ensures Utf16LeToUtf8Len([0x45, 0xDB, 0x0C, 0xDC], 0) == 4
    ensures Utf16LeToUtf8Len([0x45, 0xDB, 0x0C, 0xDC], NEVER_PAIR_SURROGATES as u32) == 6
    ensures Utf16LeToUtf8Len([0x0C, 0xDC, 0x45, 0xDB], 0) == -2
  {
    assert UnitAt([0x00, 0xD8], 0) == 0xD800;
    assert UnitAt([0x45, 0xDB, 0x0C, 0xDC], 0) == 0xDB45;
    assert UnitAt([0x45, 0xDB, 0x0C, 0xDC], 2) == 0xDC0C;
    assert UnitAt([0x0C, 0xDC, 0x45, 0xDB], 0) == 0xDC0C;
  }

  // ---------------------------------------------------------------------------
  // Conversion.

  /** The bytes `c42_utf16le_to_utf8` writes for the units from byte offset `i`. */
  function ConvertFrom(s: seq<u8>, flags: u32, i: nat): seq<u8>
    requires i <= |s|
    decreases |s| - i
  {
    if |s| < i + 2 then [] else StepBytes(s, flags, i) + ConvertFrom(s, flags, i + StepSize(s, flags, i))
  }

  /** The output of `c42_utf16le_to_utf8` on all of `s`. */
  function Convert(s: seq<u8>, flags: u32): seq<u8>
  {
    ConvertFrom(s, flags, 0)
  }

  /** `c42_utf16le_to_utf8`: converts `data[..len]` into `out` from its start and
      returns the output length. The caller sizes `out` with the length function, which
      also rejects an odd `len`. */
  method Utf16LeToUtf8(out: array<u8>, data: array<u8>, len: nat, flags: u32) returns (o: nat)
    requires len <= data.Length && len % 2 == 0 && out != data
    requires |Convert(data[..len], flags)| <= out.Length
    modifies out
    ensures o == |Convert(data[..len], flags)|
    ensures out[..o] == Convert(data[..len], flags)
    ensures forall k :: o <= k < out.Length ==> out[k] == old(out[k])
  {
    ghost var s := data[..len];
    ghost var units: nat := len / 2;
    o := 0;
    var i := 0;
    while i < len
      invariant len == i + 2 * units
      invariant o + |ConvertFrom(s, flags, i)| == |Convert(s, flags)|
      invariant out[..o] + ConvertFrom(s, flags, i) == Convert(s, flags)
      invariant forall k :: o <= k < out.Length ==> out[k] == old(out[k])
      decreases len - i
    {
      ghost var done := out[..o];
      ghost var rest := ConvertFrom(s, flags, i);
      ghost var bytes := StepBytes(s, flags, i);
      ConvertFromCons(s, flags, i);
      ghost var i0 := i;
      i, o := ConvertUnit(out, data, len, flags, i, o, units);
      units := if i == i0 + 2 then units - 1 else units - 2;
      ConcatAssoc(done, bytes, ConvertFrom(s, flags, i));
    }
    assert out[..o] + [] == out[..o];
  }

  /** The converter's output from `i` is the bytes of the round at `i` followed by the
      output from the next round. */
  lemma ConvertFromCons(s: seq<u8>, flags: u32, i: nat)
    requires i + 2 <= |s|
    ensures ConvertFrom(s, flags, i) == StepBytes(s, flags, i) + ConvertFrom(s, flags, i + StepSize(s, flags, i))
  {
  }

  /** One round of the loop of `c42_utf16le_to_utf8`: reads a unit, or a pair, at
      `data[i]` and writes its bytes at `out[o]`. */
  method ConvertUnit(out: array<u8>, data: array<u8>, len: nat, flags: u32, i: nat, o: nat, ghost units: nat)
    returns (i2: nat, o2: nat)
    requires len <= data.Length && len == i + 2 * units && i < len && out != data
    requires o + |StepBytes(data[..len], flags, i)| <= out.Length
    modifies out
    ensures i2 == i + StepSize(data[..len], flags, i)
    ensures o2 == o + |StepBytes(data[..len], flags, i)|
    ensures out[..o2] == old(out[..o]) + StepBytes(data[..len], flags, i)
    ensures forall k :: o2 <= k < out.Length ==> out[k] == old(out[k])
  {
    ghost var s := data[..len];
    var u: u32 := data[i] + 0x100 * (data[i + 1] as int);
    assert u == UnitAt(s, i);
    i2 := i + 2;
    if 0xD800 <= u < 0xDC00 && (flags / NEVER_PAIR_SURROGATES) % 2 == 0
       && i2 < len && 0xDC <= data[i2 + 1] < 0xE0 {
      u := 0x10000 + (u % 0x400) * 0x400 + data[i2] + (data[i2 + 1] as int % 4) * 0x100;
      assert u == PairValue(s, i);
      i2 := i2 + 2;
    } else if u == 0 && flags % 2 == 1 {
      out[o] := 0xC0;
      out[o + 1] := 0x80;
      o2 := o + 2;
      assert out[..o2] == old(out[..o]) + [0xC0, 0x80];
      return;
    }
    var n := UcpToUtf8(out, o, u);
    o2 := o + n;
  }

  /** The corrected length is the length of the converter's output. */
  lemma {:induction false} LenFixedFrom(s: seq<u8>, flags: u32, i: nat, o: nat)
    requires i <= |s|
    requires LenFrom(s, flags, i, o, true) != -2
    ensures LenFrom(s, flags, i, o, true) == o + |ConvertFrom(s, flags, i)|
    decreases |s| - i
  {
    if i + 2 <= |s| {
      StepCost(s, flags, i);
      LenFixedFrom(s, flags, i + StepSize(s, flags, i), o + LenStep(s, flags, i, true));
    }
  }

  lemma LenFixedIsOutputLength(s: seq<u8>, flags: u32)
    requires |s| % 2 == 0 && Utf16LeToUtf8LenFixed(s, flags) != -2
    ensures Utf16LeToUtf8LenFixed(s, flags) == |Convert(s, flags)|
  {
    LenFixedFrom(s, flags, 0, 0);
  }

  /** As written, the length function undercounts: the unit U+00E9 is sized as one
      byte, while the converter writes the two bytes C3 A9. */
  lemma LenUndercounts()
    ensures Utf16LeToUtf8Len([0xE9, 0x00], 0) == 1
    ensures Convert([0xE9, 0x00], 0) == [0xC3, 0xA9]
    ensures Utf16LeToUtf8LenFixed([0xE9, 0x00], 0) == 2
  {
    assert UnitAt([0xE9, 0x00], 0) == 0xE9;
  }

  /** Without the MUTF-8 flags, input whose surrogates all pair up converts to UTF-8
      that the corrected validator accepts in full. */
  lemma {:induction false} ConvertValidFrom(s: seq<u8>, flags: u32, i: nat, o: nat)
    requires i <= |s|
    requires !HasFlag(flags, TWO_BYTE_NUL) && !HasFlag(flags, NEVER_PAIR_SURROGATES)
    requires !HasFlag(flags, ALLOW_UNPAIRED_SURROGATES) && LenFrom(s, flags, i, o, true) != -2
    ensures ValidateFixed(ConvertFrom(s, flags, i)) == Verdict(UTF8_VALID, |ConvertFrom(s, flags, i)|)
    decreases |s| - i
  {
    if i + 2 <= |s| {
      StepAcceptable(s, flags, i);
      var n := StepSize(s, flags, i);
      ConvertValidFrom(s, flags, i + n, o + LenStep(s, flags, i, true));
      ValidateFixedCons(StepUcp(s, flags, i), ConvertFrom(s, flags, i + n));
    }
  }

  lemma ConvertValid(s: seq<u8>, flags: u32)
    requires |s| % 2 == 0 && Utf16LeToUtf8Len(s, flags) >= 0
    requires !HasFlag(flags, TWO_BYTE_NUL) && !HasFlag(flags, NEVER_PAIR_SURROGATES)
    requires !HasFlag(flags, ALLOW_UNPAIRED_SURROGATES)
    ensures ValidateFixed(Convert(s, flags)) == Verdict(UTF8_VALID, |Convert(s, flags)|)
  {
    LenCodes(s, flags);
    ConvertValidFrom(s, flags, 0, 0);
  }
}
