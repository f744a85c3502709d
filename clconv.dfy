/** The chunked linear converters (`c42_clconv_f`): `c42_clconv_bin_to_hex_line`,
    `c42_clconv_hex_to_bin` and `c42_clconv_c_escape_force_hex`. Each call consumes
    input until it is exhausted or the output cannot hold another item, and reports
    how much input it used and how much output it produced. */
module Clconv {
  import opened Bytes
  import opened Prim
  import opened CEscape

  const CLCONV_OK: nat := 0
  const CLCONV_MALFORMED: nat := 1
  const CLCONV_INCOMPLETE: nat := 2
  const CLCONV_FULL: nat := 3

  /** What one converter call reports: its status code, the input it used and the
      bytes it wrote at the start of the output buffer. */
  datatype Chunk = Chunk(status: nat, used: nat, bytes: seq<u8>)

  function Prepend(b: seq<u8>, r: Chunk): Chunk
  {
    Chunk(r.status, r.used, b + r.bytes)
  }

  function Min(a: nat, b: nat): nat
  {
    if a < b then a else b
  }

  // ---------------------------------------------------------------------------
  // c42_clconv_bin_to_hex_line

  /** The result of `c42_clconv_bin_to_hex_line` on input `s` with `room` bytes of
      output: as many whole bytes as fit as two hex digits each. */
  function BinToHex(s: seq<u8>, room: nat): (r: Chunk)
    ensures r.used == Min(|s|, room / 2) && |r.bytes| == 2 * r.used <= room
    ensures r.status == CLCONV_OK <==> r.used == |s|
    ensures r.status == CLCONV_FULL <==> r.used < |s|
  {
    var n := Min(|s|, room / 2);
    Chunk(if n == |s| then CLCONV_OK else CLCONV_FULL, n, HexText(s[..n]))
  }

  /** `c42_clconv_bin_to_hex_line`. */
  method BinToHexLine(inp: array<u8>, inLen: nat, out: array<u8>, outLen: nat)
    returns (status: nat, inUsed: nat, outUsed: nat)
    requires inLen <= inp.Length && outLen <= out.Length && out != inp
    modifies out
    ensures outUsed <= outLen
    ensures Chunk(status, inUsed, out[..outUsed]) == BinToHex(inp[..inLen], outLen)
    ensures forall k :: outUsed <= k < out.Length ==> out[k] == old(out[k])
  {
    var ol := outLen - outLen % 2;
    var i: nat, o: nat := 0, 0;
    while i < inLen && o < ol
      invariant i <= inLen && o == 2 * i <= ol
      invariant out[..o] == HexText(inp[..i])
      invariant forall k :: o <= k < out.Length ==> out[k] == old(out[k])
    {
      out[o] := DigitChar(inp[i] / 16);
      out[o + 1] := DigitChar(inp[i] % 16);
      assert inp[..i + 1][..i] == inp[..i];
      o := o + 2;
      i := i + 1;
    }
    assert inp[..inLen][..i] == inp[..i];
    status := if i == inLen then CLCONV_OK else CLCONV_FULL;
    inUsed, outUsed := i, o;
  }

  // ---------------------------------------------------------------------------
  // c42_clconv_hex_to_bin

  /** The byte a pair of hex digits stands for. */
  function PairByte(hi: u8, lo: u8): u8
    requires IsHexDigit(hi) && IsHexDigit(lo)
  {
    DigitFromChar(hi, 16) * 16 + DigitFromChar(lo, 16)
  }

  /** `c42_clconv_hex_to_bin` from input position `i` with `room` bytes of output left:
      bytes of `skip` that are not hex digits are passed over; a non-hex byte that is
      not in `skip` is MALFORMED, reported at its own position (for the low digit of a
      pair, that of the low digit); a high digit with no byte after it is INCOMPLETE;
      a complete pair with no room left is FULL; both report the pair's position. */
  function HexDecode(s: seq<u8>, skip: seq<u8>, room: nat, i: nat): (r: Chunk)
    requires i <= |s|
    decreases |s| - i
    ensures i <= r.used <= |s| && |r.bytes| <= room
    ensures r.status == CLCONV_OK <==> r.used == |s|
    ensures r.status in {CLCONV_OK, CLCONV_MALFORMED, CLCONV_INCOMPLETE, CLCONV_FULL}
    ensures r.status == CLCONV_FULL ==> |r.bytes| == room
  {
    if i == |s| then Chunk(CLCONV_OK, i, [])
    else if !IsHexDigit(s[i]) then
      if s[i] in skip then HexDecode(s, skip, room, i + 1) else Chunk(CLCONV_MALFORMED, i, [])
    else if i + 1 == |s| then Chunk(CLCONV_INCOMPLETE, i, [])
    else if !IsHexDigit(s[i + 1]) then Chunk(CLCONV_MALFORMED, i + 1, [])
    else if room == 0 then Chunk(CLCONV_FULL, i, [])
    else Prepend([PairByte(s[i], s[i + 1])], HexDecode(s, skip, room - 1, i + 2))
  }

  /** The skip list the caller passes as context: none, or a C string. */
  ghost function SkipBytes(skipList: Option<array<u8>>): seq<u8>
    reads if skipList.Some? then {skipList.value} else {}
  {
    if skipList.Some? && Terminated(skipList.value) then ZStr(skipList.value[..]) else []
  }

  /** `c42_clconv_hex_to_bin`; the context is the optional skip list. */
  method HexToBin(inp: array<u8>, inLen: nat, out: array<u8>, outLen: nat, skipList: Option<array<u8>>)
    returns (status: nat, inUsed: nat, outUsed: nat)
    requires inLen <= inp.Length && outLen <= out.Length && out != inp
    requires skipList.Some? ==> Terminated(skipList.value) && skipList.value != out
    modifies out
    ensures outUsed <= outLen
    ensures Chunk(status, inUsed, out[..outUsed]) == HexDecode(inp[..inLen], SkipBytes(skipList), outLen, 0)
    ensures forall k :: outUsed <= k < out.Length ==> out[k] == old(out[k])
  {
    ghost var s := inp[..inLen];
    ghost var skip := SkipBytes(skipList);
    ghost var total := HexDecode(s, skip, outLen, 0);
    var i: nat, o: nat := 0, 0;
    while i < inLen
      invariant i <= inLen && o <= outLen
      invariant total == Prepend(out[..o], HexDecode(s, skip, outLen - o, i))
      invariant forall k :: o <= k < out.Length ==> out[k] == old(out[k])
      decreases inLen - i
    {
      var stop: bool;
      stop, status, i, o := HexRound(inp, inLen, out, outLen, skipList, i, o, s, skip, total);
      if stop {
        inUsed, outUsed := i, o;
        return;
      }
    }
    status, inUsed, outUsed := CLCONV_OK, i, o;
  }

  /** One round of the loop of `c42_clconv_hex_to_bin` from input position `i` with `o`
      bytes written: it skips one byte, decodes one pair, or stops with a status. */
  method HexRound(inp: array<u8>, inLen: nat, out: array<u8>, outLen: nat, skipList: Option<array<u8>>,
                  i: nat, o: nat, ghost s: seq<u8>, ghost skip: seq<u8>, ghost total: Chunk)
    returns (stop: bool, status: nat, i2: nat, o2: nat)
    requires i < inLen <= inp.Length && o <= outLen <= out.Length && out != inp
    requires skipList.Some? ==> Terminated(skipList.value) && skipList.value != out
    requires skip == SkipBytes(skipList)
    requires s == inp[..inLen] && total == Prepend(out[..o], HexDecode(s, skip, outLen - o, i))
    modifies out
    ensures i <= i2 <= inLen && o <= o2 <= outLen
    ensures stop ==> total == Chunk(status, i2, out[..o2])
    ensures !stop ==> i < i2 && total == Prepend(out[..o2], HexDecode(s, skip, outLen - o2, i2))
    ensures forall k :: o2 <= k < out.Length ==> out[k] == old(out[k])
  {
    var hi := DigitFromChar(inp[i], 16);
    HexDigitDecodes(inp[i]);
    if hi < 0 {
      if skipList.Some? {
        var found := U8zScan(skipList.value, inp[i]);
        if found.Some? {
          HexDecodeSkip(s, skip, outLen - o, i);
          return false, CLCONV_OK, i + 1, o;
        }
      }
      return true, CLCONV_MALFORMED, i, o;
    }
    stop, status, i2, o2 := PairRound(inp, inLen, out, outLen, i, o, s, skip, total);
  }

  /** The part of a round that follows a high hex digit at `i`. */
  method PairRound(inp: array<u8>, inLen: nat, out: array<u8>, outLen: nat,
                   i: nat, o: nat, ghost s: seq<u8>, ghost skip: seq<u8>, ghost total: Chunk)
    returns (stop: bool, status: nat, i2: nat, o2: nat)
    requires i < inLen <= inp.Length && o <= outLen <= out.Length && out != inp
    requires IsHexDigit(inp[i])
    requires s == inp[..inLen] && total == Prepend(out[..o], HexDecode(s, skip, outLen - o, i))
    modifies out
    ensures i <= i2 <= inLen && o <= o2 <= outLen
    ensures stop ==> total == Chunk(status, i2, out[..o2])
    ensures !stop ==> i < i2 && total == Prepend(out[..o2], HexDecode(s, skip, outLen - o2, i2))
    ensures forall k :: o2 <= k < out.Length ==> out[k] == old(out[k])
  {
    var hi := DigitFromChar(inp[i], 16);
    HexDigitDecodes(inp[i]);
    if i + 1 == inLen {
      return true, CLCONV_INCOMPLETE, i, o;
    }
    var lo := DigitFromChar(inp[i + 1], 16);
    HexDigitDecodes(inp[i + 1]);
    if lo < 0 {
      return true, CLCONV_MALFORMED, i + 1, o;
    }
    if o == outLen {
      return true, CLCONV_FULL, i, o;
    }
    ghost var done := out[..o];
    assert hi * 16 + lo == PairByte(s[i], s[i + 1]);
    out[o] := hi * 16 + lo;
    HexDecodePair(s, skip, outLen - o, i, done);
    assert out[..o + 1] == done + [PairByte(s[i], s[i + 1])];
    return false, CLCONV_OK, i + 2, o + 1;
  }

  lemma {:induction false} HexDecodeSkip(s: seq<u8>, skip: seq<u8>, room: nat, i: nat)
    requires i < |s| && !IsHexDigit(s[i]) && s[i] in skip
    ensures HexDecode(s, skip, room, i) == HexDecode(s, skip, room, i + 1)
  {
  }

  /** One decoded pair moves from the rest of the result to the written prefix. */
  lemma {:induction false} HexDecodePair(s: seq<u8>, skip: seq<u8>, room: nat, i: nat, done: seq<u8>)
    requires i + 1 < |s| && IsHexDigit(s[i]) && IsHexDigit(s[i + 1]) && room > 0
    ensures Prepend(done, HexDecode(s, skip, room, i)) ==
            Prepend(done + [PairByte(s[i], s[i + 1])], HexDecode(s, skip, room - 1, i + 2))
  {
  }

  /** Hex digits decode back to their byte. */
  lemma PairByteOfHexPair(b: u8)
    ensures IsHexDigit(HexPair(b)[0]) && IsHexDigit(HexPair(b)[1])
    ensures PairByte(HexPair(b)[0], HexPair(b)[1]) == b
  {
  }

  /** Feeding the output of `c42_clconv_bin_to_hex_line` to `c42_clconv_hex_to_bin`
      gives back the original bytes, with OK when the output has room for all of them
      and FULL after exactly `room` of them otherwise, whatever the skip list. */
  lemma {:induction false} HexRoundTrip(b: seq<u8>, skip: seq<u8>, room: nat)
    ensures HexDecode(HexText(b), skip, room, 0) ==
            if |b| <= room then Chunk(CLCONV_OK, 2 * |b|, b) else Chunk(CLCONV_FULL, 2 * room, b[..room])
  {
    HexRoundTripFrom(b, skip, room, 0);
    assert b[0..] == b;
  }

  lemma {:induction false} HexRoundTripFrom(b: seq<u8>, skip: seq<u8>, room: nat, k: nat)
    requires k <= |b|
    ensures HexDecode(HexText(b), skip, room, 2 * k) ==
            if |b| - k <= room then Chunk(CLCONV_OK, 2 * |b|, b[k..])
            else Chunk(CLCONV_FULL, 2 * (k + room), b[k..k + room])
    decreases |b| - k
  {
    var s := HexText(b);
    if k < |b| {
      HexTextAt(b, k);
      PairByteOfHexPair(b[k]);
      if room > 0 {
        HexRoundTripFrom(b, skip, room - 1, k + 1);
        assert b[k..] == [b[k]] + b[k + 1..];
        if |b| - k > room {
          assert b[k..k + room] == [b[k]] + b[k + 1..k + 1 + room - 1];
        }
      }
    }
  }

  /** The chunked contract of `c42_clconv_hex_to_bin`: when a call stops at FULL,
      calling again on the rest of the input with more room continues exactly where
      it stopped, so splitting the output buffer does not change the decoded bytes. */
  lemma {:induction false} HexDecodeResume(s: seq<u8>, skip: seq<u8>, a: nat, b: nat, i: nat)
    requires i <= |s| && HexDecode(s, skip, a, i).status == CLCONV_FULL
    ensures var r1 := HexDecode(s, skip, a, i);
            HexDecode(s, skip, a + b, i) == Prepend(r1.bytes, HexDecode(s, skip, b, r1.used))
    decreases |s| - i
  {
    if IsHexDigit(s[i]) && i + 1 < |s| && IsHexDigit(s[i + 1]) && a > 0 {
      var p := [PairByte(s[i], s[i + 1])];
      var r1 := HexDecode(s, skip, a - 1, i + 2);
      assert HexDecode(s, skip, a, i) == Prepend(p, r1);
      assert HexDecode(s, skip, a + b, i) == Prepend(p, HexDecode(s, skip, a - 1 + b, i + 2));
      HexDecodeResume(s, skip, a - 1, b, i + 2);
      PrependTwice(p, r1.bytes, HexDecode(s, skip, b, r1.used));
    } else if !IsHexDigit(s[i]) && s[i] in skip {
      HexDecodeResume(s, skip, a, b, i + 1);
    }
  }

  lemma {:induction false} PrependTwice(p: seq<u8>, q: seq<u8>, r: Chunk)
    ensures Prepend(p, Prepend(q, r)) == Prepend(p + q, r)
  {
    assert p + (q + r.bytes) == (p + q) + r.bytes;
  }

  /** MALFORMED stops at the offending byte: the byte at the reported position is not a
      hex digit and not skipped, or it is the low digit of a pair. */
  lemma {:induction false} HexDecodeMalformed(s: seq<u8>, skip: seq<u8>, room: nat, i: nat)
    requires i <= |s| && HexDecode(s, skip, room, i).status == CLCONV_MALFORMED
    ensures var u := HexDecode(s, skip, room, i).used;
            u < |s| && !IsHexDigit(s[u]) && (s[u] !in skip || (u > 0 && IsHexDigit(s[u - 1])))
    decreases |s| - i
  {
    if !IsHexDigit(s[i]) && s[i] in skip {
      HexDecodeMalformed(s, skip, room, i + 1);
    } else if IsHexDigit(s[i]) && i + 1 < |s| && IsHexDigit(s[i + 1]) && room > 0 {
      HexDecodeMalformed(s, skip, room - 1, i + 2);
    }
  }

  /** INCOMPLETE is reported at a lone high digit, the last byte of the input. */
  lemma {:induction false} HexDecodeIncomplete(s: seq<u8>, skip: seq<u8>, room: nat, i: nat)
    requires i <= |s| && HexDecode(s, skip, room, i).status == CLCONV_INCOMPLETE
    ensures var u := HexDecode(s, skip, room, i).used; u + 1 == |s| && IsHexDigit(s[u])
    decreases |s| - i
  {
    if !IsHexDigit(s[i]) && s[i] in skip {
      HexDecodeIncomplete(s, skip, room, i + 1);
    } else if IsHexDigit(s[i]) && i + 1 < |s| && IsHexDigit(s[i + 1]) && room > 0 {
      HexDecodeIncomplete(s, skip, room - 1, i + 2);
    }
  }

  /** With the skip list " ", the text "41 42" decodes to 0x41 0x42 using all five bytes. */
  lemma SkipListExample()
    ensures HexDecode([52, 49, 32, 52, 50], [32], 8, 0) == Chunk(CLCONV_OK, 5, [0x41, 0x42])
  {
    var t: seq<u8> := [52, 49, 32, 52, 50];
    assert PairByte(52, 49) == 0x41 && PairByte(52, 50) == 0x42;
    assert HexDecode(t, [32], 6, 5) == Chunk(CLCONV_OK, 5, []);
    assert HexDecode(t, [32], 7, 3) == Chunk(CLCONV_OK, 5, [0x42]);
    assert HexDecode(t, [32], 7, 2) == HexDecode(t, [32], 7, 3);
  }

  // ---------------------------------------------------------------------------
  // c42_clconv_c_escape_force_hex

  /** One byte's output in `c42_clconv_c_escape_force_hex` as written: its length is
      `byte_c_escape_len`, so bytes from 0x80 up, which that function counts as 2, come
      out as a backslash followed by the raw byte. */
  function ForceHexItem(v: u8): (r: seq<u8>)
    ensures |r| == ByteCEscapeLen(v)
  {
    if ByteCEscapeLen(v) == 1 then [v]
    else if ByteCEscapeLen(v) == 4 then [BACKSLASH, LETTER_X] + HexPair(v)
    else if 7 <= v <= 13 then [BACKSLASH, EscLetter(v)]
    else [BACKSLASH, v]
  }

  /** The item as documented: every byte that needs escaping and has no short escape
      becomes `\x` and exactly two hex digits. */
  function ForceHexItemFixed(v: u8): (r: seq<u8>)
    ensures |r| == ByteCEscapeLenFixed(v)
  {
    if !NeedsEscape(v) then [v]
    else if ShortEscape(v) then [BACKSLASH, ShortTail(v)]
    else [BACKSLASH, LETTER_X] + HexPair(v)
  }

  /** `c42_clconv_c_escape_force_hex` on input `s` with `room` bytes of output: whole
      items while they fit, OK when all input is used and FULL otherwise. */
  function ForceHex(s: seq<u8>, room: nat, i: nat): (r: Chunk)
    requires i <= |s|
    decreases |s| - i
    ensures i <= r.used <= |s| && |r.bytes| <= room
    ensures r.status == CLCONV_OK <==> r.used == |s|
    ensures r.status == CLCONV_FULL <==> r.used < |s|
    ensures r.used < |s| ==> |r.bytes| + ByteCEscapeLen(s[r.used]) > room
  {
    if i == |s| then Chunk(CLCONV_OK, i, [])
    else
      var item := ForceHexItem(s[i]);
      if |item| > room then Chunk(CLCONV_FULL, i, [])
      else Prepend(item, ForceHex(s, room - |item|, i + 1))
  }

  /** `c42_clconv_c_escape_force_hex`. */
  method ForceHexConv(inp: array<u8>, inLen: nat, out: array<u8>, outLen: nat)
    returns (status: nat, inUsed: nat, outUsed: nat)
    requires inLen <= inp.Length && outLen <= out.Length && out != inp
    modifies out
    ensures outUsed <= outLen
    ensures Chunk(status, inUsed, out[..outUsed]) == ForceHex(inp[..inLen], outLen, 0)
    ensures forall k :: outUsed <= k < out.Length ==> out[k] == old(out[k])
  {
    ghost var s := inp[..inLen];
    ghost var total := ForceHex(s, outLen, 0);
    var i: nat, o: nat := 0, 0;
    while i < inLen
      invariant i <= inLen && o <= outLen
      invariant total == Prepend(out[..o], ForceHex(s, outLen - o, i))
      invariant forall k :: o <= k < out.Length ==> out[k] == old(out[k])
    {
      var v := inp[i];
      var cl := ByteCEscapeLen(v);
      ForceHexCons(s, i, outLen - o, out[..o]);
      if o + cl > outLen {
        status, inUsed, outUsed := CLCONV_FULL, i, o;
        return;
      }
      o := PutForceHexItem(out, o, v);
      i := i + 1;
    }
    status, inUsed, outUsed := CLCONV_OK, i, o;
  }

  /** The item at `i` goes to the written prefix when it fits. */
  lemma {:induction false} ForceHexCons(s: seq<u8>, i: nat, room: nat, done: seq<u8>)
    requires i < |s|
    ensures |ForceHexItem(s[i])| > room ==>
              Prepend(done, ForceHex(s, room, i)) == Chunk(CLCONV_FULL, i, done)
    ensures |ForceHexItem(s[i])| <= room ==>
              Prepend(done, ForceHex(s, room, i)) ==
              Prepend(done + ForceHexItem(s[i]), ForceHex(s, room - |ForceHexItem(s[i])|, i + 1))
  {
  }

  /** One round of the loop of `c42_clconv_c_escape_force_hex`: writes the item of `v`
      at `o`. */
  method PutForceHexItem(out: array<u8>, o: nat, v: u8) returns (o2: nat)
    requires o + ByteCEscapeLen(v) <= out.Length
    modifies out
    ensures o2 == o + ByteCEscapeLen(v)
    ensures out[..o2] == old(out[..o]) + ForceHexItem(v)
    ensures forall k :: o2 <= k < out.Length ==> out[k] == old(out[k])
  {
    ghost var done := out[..o];
    var cl := ByteCEscapeLen(v);
    if cl == 1 {
      out[o] := v;
    } else {
      out[o] := BACKSLASH;
      if cl == 4 {
        out[o + 1] := LETTER_X;
        out[o + 2] := DigitChar(v / 16);
        out[o + 3] := DigitChar(v % 16);
      } else if 7 <= v <= 13 {
        out[o + 1] := EscLetter(v);
      } else {
        out[o + 1] := v;
      }
    }
    o2 := o + cl;
    assert out[..o] == done && out[o..o2] == ForceHexItem(v);
    assert out[..o2] == out[..o] + out[o..o2];
  }

  /** The escape sequences section 6.4.4.4 of ISO/IEC 9899 defines: a backslash may be
      followed by a simple-escape character, an octal digit or `x`. */
  predicate DefinedEscape(c: u8)
  {
    c in {'\'' as int, '"' as int, '?' as int, '\\' as int, 'a' as int, 'b' as int, 'f' as int,
          'n' as int, 'r' as int, 't' as int, 'v' as int, 'x' as int}
    || IsOctDigit(c)
  }

  /** How Python reads escapes in a literal, which the documentation of the force-hex
      escaper refers to: `\x` takes exactly two hex digits. */
  function PyFirstUnit(t: seq<u8>): (u: Unit)
    requires t != []
    ensures 1 <= u.size <= |t|
  {
    if t[0] != BACKSLASH || |t| == 1 then Unit(t[0], 1)
    else if t[1] == LETTER_X && |t| >= 4 && IsHexDigit(t[2]) && IsHexDigit(t[3]) then
      Unit(PairByte(t[2], t[3]), 4)
    else Unit(SimpleValue(t[1]), 2)
  }

  function PyUnescape(t: seq<u8>): seq<u8>
    decreases |t|
  {
    if t == [] then [] else var u := PyFirstUnit(t); [u.byte] + PyUnescape(t[u.size..])
  }

  /** The whole force-hex output for `s`, item by item. */
  function ForceHexTextFixed(s: seq<u8>): seq<u8>
  {
    if s == [] then [] else ForceHexItemFixed(s[0]) + ForceHexTextFixed(s[1..])
  }

  lemma {:induction false} ForceHexItemFixedDecodes(v: u8, rest: seq<u8>)
    ensures PyUnescape(ForceHexItemFixed(v) + rest) == [v] + PyUnescape(rest)
  {
    var t := ForceHexItemFixed(v) + rest;
    var n := |ForceHexItemFixed(v)|;
    assert t[n..] == rest;
    if !NeedsEscape(v) {
      assert PyFirstUnit(t) == Unit(v, 1);
    } else if ShortEscape(v) {
      assert PyFirstUnit(t) == Unit(v, 2);
    } else {
      PairByteOfHexPair(v);
      assert PyFirstUnit(t) == Unit(v, 4);
    }
  }

  /** The documented escaper is lossless when `\x` takes exactly two digits, and its
      output is ASCII with only defined escapes: every backslash it writes is followed
      by a character C defines as an escape. */
  lemma {:induction false} ForceHexFixedDecodes(s: seq<u8>)
    ensures PyUnescape(ForceHexTextFixed(s)) == s
  {
    if s != [] {
      ForceHexFixedDecodes(s[1..]);
      ForceHexItemFixedDecodes(s[0], ForceHexTextFixed(s[1..]));
    }
  }

  lemma ForceHexItemFixedDefined(v: u8)
    ensures forall k :: 0 <= k < |ForceHexItemFixed(v)| ==> ForceHexItemFixed(v)[k] < 0x80
    ensures NeedsEscape(v) ==> ForceHexItemFixed(v)[0] == BACKSLASH && DefinedEscape(ForceHexItemFixed(v)[1])
  {
  }

  /** As written, byte 0x80 comes out as a backslash and the raw byte 0x80: not a `\x`
      escape, not ASCII, and not an escape C defines. */
  lemma ForceHexHighByte()
    ensures ForceHex([0x80], 2, 0) == Chunk(CLCONV_OK, 1, [BACKSLASH, 0x80])
    ensures !DefinedEscape(0x80)
    ensures ForceHexItemFixed(0x80) == [BACKSLASH, LETTER_X, '8' as int, '0' as int]
  {
  }
}
