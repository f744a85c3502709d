/** Properties of the format engine: what a writer with limited room receives, what the
    converters' writes decode to, where the padding goes, which codes the engine can
    return, and worked templates. */
module FmtProps {
  import opened Bytes
  import opened Prim
  import opened Numerals
  import opened Utf8
  import opened CEscape
  import opened Clconv
  import opened EscStream
  import opened FmtSpec

  // ---------------------------------------------------------------------------
  // Delivery.

  /** What was taken before, followed by what is taken next. */
  function JoinFed(done: seq<u8>, f: Fed): Fed
  {
    Fed(done + f.bytes, f.ok)
  }

  /** One writer call followed by the rest: the call is taken whole when it fits, and
      otherwise in part, which ends the delivery. */
  lemma FeedCons(x: seq<u8>, rest: seq<seq<u8>>, room: nat)
    ensures Feed([x] + rest, room) ==
            if |x| <= room then JoinFed(x, Feed(rest, room - |x|)) else Fed(x[..room], false)
  {
    assert ([x] + rest)[1..] == rest;
  }

  /** Two runs of calls: the second is delivered with the room the first leaves, and
      only when the first was taken whole. */
  lemma {:induction false} FeedAppend(ws1: seq<seq<u8>>, ws2: seq<seq<u8>>, room: nat)
    ensures var f1 := Feed(ws1, room);
            Feed(ws1 + ws2, room) == if f1.ok then JoinFed(f1.bytes, Feed(ws2, room - |f1.bytes|)) else f1
    decreases |ws1|
  {
    if ws1 == [] {
      assert ws1 + ws2 == ws2;
    } else {
      assert (ws1 + ws2)[0] == ws1[0];
      assert (ws1 + ws2)[1..] == ws1[1..] + ws2;
      if |ws1[0]| <= room {
        FeedAppend(ws1[1..], ws2, room - |ws1[0]|);
      }
    }
  }

  /** The writer ends up holding the first `room` bytes of everything the engine
      writes, and every call was taken whole exactly when everything fits. */
  lemma {:induction false} FeedFlatten(ws: seq<seq<u8>>, room: nat)
    ensures |Flatten(ws)| <= room ==> Feed(ws, room) == Fed(Flatten(ws), true)
    ensures |Flatten(ws)| > room ==> Feed(ws, room) == Fed(Flatten(ws)[..room], false)
    decreases |ws|
  {
    if ws != [] {
      var rest := Flatten(ws[1..]);
      if |ws[0]| <= room {
        FeedFlatten(ws[1..], room - |ws[0]|);
        if |Flatten(ws)| > room {
          assert (ws[0] + rest)[..room] == ws[0] + rest[..room - |ws[0]|];
        }
      } else {
        assert (ws[0] + rest)[..room] == ws[0][..room];
      }
    }
  }

  /** The code and bytes a writer with `room` bytes of room sees: the engine's own code
      and all its output when that fits, and otherwise `C42_FMT_WRITE_ERROR` with the
      output cut at `room`. */
  lemma DeliverFlat(o: Outcome, room: nat)
    requires o.Out?
    ensures var all := Flatten(o.writes);
            Deliver(o, room) ==
              if |all| <= room then Effect(o.status, all) else Effect(FMT_WRITE_ERROR, all[..room])
  {
    FeedFlatten(o.writes, room);
  }

  // ---------------------------------------------------------------------------
  // Padding.

  /** The padding is `n` spaces, in calls of 1 to 64 bytes, as few as that allows. */
  lemma {:induction false} PadSpaces(n: nat)
    ensures Flatten(Pad(n)) == Repeat(SPACE, n)
    ensures |Pad(n)| == (n + SPACES - 1) / SPACES
    ensures forall i :: 0 <= i < |Pad(n)| ==> 1 <= |Pad(n)[i]| <= SPACES
    decreases n
  {
    if n > 0 {
      var c := Min(n, SPACES);
      PadSpaces(n - c);
      assert Pad(n)[1..] == Pad(n - c);
      assert Repeat(SPACE, c) + Repeat(SPACE, n - c) == Repeat(SPACE, n);
    }
  }

  /** A directive writes its padding before the content when right-aligned, after it
      when left-aligned, and none under the default alignment (which the `c` and integer
      letters replace, but `s` keeps). A width that reads as a non-negative `size_t`
      below the requested width is padded up to it. */
  lemma EmitsText(m: Mods, c: Content)
    ensures var spaces := Repeat(SPACE, PadWidth(m.reqWidth, c.width));
            Flatten(Emits(m, c)) ==
              (if m.align == ALIGN_RIGHT then spaces else []) + Flatten(ContentWrites(c)) +
              (if m.align == ALIGN_LEFT then spaces else [])
    ensures c.width >= 0 ==> PadWidth(m.reqWidth, c.width) == if c.width < m.reqWidth then m.reqWidth - c.width else 0
  {
    var pad := Pad(PadWidth(m.reqWidth, c.width));
    PadSpaces(PadWidth(m.reqWidth, c.width));
    var before := if m.align == ALIGN_RIGHT then pad else [];
    var after := if m.align == ALIGN_LEFT then pad else [];
    FlattenAppend(before + ContentWrites(c), after);
    FlattenAppend(before, ContentWrites(c));
  }

  // ---------------------------------------------------------------------------
  // The converters as the engine drives them.

  /** The hex writes spell the whole input as hex digit pairs, and the last one (the
      final call) is empty. */
  lemma {:induction false} HexWritesText(s: seq<u8>)
    ensures Flatten(HexWrites(s)) == HexText(s)
    ensures HexWrites(s)[|HexWrites(s)| - 1] == []
    decreases |s|
  {
    if s != [] {
      var r := BinToHex(s, BUFFER_SIZE);
      var rest := s[r.used..];
      HexWritesText(rest);
      HexTextAppend(s[..r.used], rest);
      assert s[..r.used] + rest == s;
      assert HexWrites(s)[1..] == HexWrites(rest);
    }
  }

  /** Given what the escaper has consumed and written so far, the rest of its writes
      complete an output that decodes to the whole input. */
  lemma {:induction false} EscWritesDecode(fed: seq<u8>, emitted: seq<u8>, p: Pending, s: seq<u8>)
    requires StreamState(fed, emitted, p)
    ensures Unescape(emitted + Flatten(EscWrites(p, s))) == fed + s
    decreases |s|
  {
    if s == [] {
      var last := if p == NO_BYTE then [] else HexEscape(p);
      assert Flatten(EscWrites(p, s)) == last;
      assert fed + s == fed;
      if p == NO_BYTE {
        SettledDecodes(fed, emitted);
        assert emitted + last == emitted;
      } else {
        FlushDecodes(fed, emitted, p);
      }
    } else {
      var r := EscapeChunk(p, s, BUFFER_SIZE);
      ChunkProgress(p, s, BUFFER_SIZE);
      EscapeChunkKeeps(fed, emitted, p, s, BUFFER_SIZE);
      var rest := EscWrites(r.pending, s[r.used..]);
      EscWritesDecode(fed + s[..r.used], emitted + r.bytes, r.pending, s[r.used..]);
      assert EscWrites(p, s)[1..] == rest;
      ConcatAssoc(emitted, r.bytes, Flatten(rest));
      ConcatAssoc(fed, s[..r.used], s[r.used..]);
      assert s[..r.used] + s[r.used..] == s;
    }
  }

  /** The C-escape writes of a whole string decode back to it. */
  lemma EscWritesRoundTrip(s: seq<u8>)
    ensures Unescape(Flatten(EscWrites(NO_BYTE, s))) == s
  {
    EscWritesDecode([], [], NO_BYTE, s);
    assert [] + Flatten(EscWrites(NO_BYTE, s)) == Flatten(EscWrites(NO_BYTE, s));
  }

  // ---------------------------------------------------------------------------
  // Reading the template.

  /** The width and precision digits give their decimal value modulo 2^64. */
  lemma NumberValue(t: seq<u8>, k: nat)
    requires k <= |t|
    ensures var r := Number(t, k, 0);
            AllDigits(t[k..r.1], 10) && r.0 == ValueOf(t[k..r.1], 10) % U64_LIMIT
  {
    NumberFrom(t, k, k, 0);
  }

  lemma {:induction false} NumberFrom(t: seq<u8>, k: nat, j: nat, acc: u64)
    requires k <= j <= |t| && AllDigits(t[k..j], 10) && acc == ValueOf(t[k..j], 10) % U64_LIMIT
    ensures var r := Number(t, j, acc);
            AllDigits(t[k..r.1], 10) && r.0 == ValueOf(t[k..r.1], 10) % U64_LIMIT
    decreases |t| - j
  {
    if IsDecDigit(At(t, j)) {
      var acc2 := ToU64(acc * 10 + t[j] - '0' as int);
      NumberStep(t, k, j, acc, acc2);
      assert Number(t, j, acc) == Number(t, j + 1, acc2);
      NumberFrom(t, k, j + 1, acc2);
    } else {
      assert Number(t, j, acc) == (acc, j);
    }
  }

  /** One digit of the number loop. */
  lemma NumberStep(t: seq<u8>, k: nat, j: nat, acc: u64, acc2: u64)
    requires k <= j < |t| && IsDecDigit(t[j]) && AllDigits(t[k..j], 10)
    requires acc == ValueOf(t[k..j], 10) % U64_LIMIT && acc2 == ToU64(acc * 10 + t[j] - '0' as int)
    ensures AllDigits(t[k..j + 1], 10) && acc2 == ValueOf(t[k..j + 1], 10) % U64_LIMIT
  {
    var d := t[j] - '0' as int;
    assert acc * 10 + t[j] - '0' as int == acc * 10 + d;
    ValueOfSnoc(t, k, j, 10);
    WrapStep(ValueOf(t[k..j], 10), d);
    assert t[k..j + 1] == t[k..j] + [t[j]];
    DigitsSnoc(t[k..j], t[j]);
  }

  /** One decimal digit more, in `size_t` arithmetic. */
  lemma WrapStep(v: nat, d: nat)
    ensures ToU64((v % U64_LIMIT) * 10 + d) == (v * 10 + d) % U64_LIMIT
  {
    assert v * 10 + d == (v % U64_LIMIT) * 10 + d + (v / U64_LIMIT) * 10 * U64_LIMIT;
  }

  lemma DigitsSnoc(u: seq<u8>, c: u8)
    requires AllDigits(u, 10) && IsDecDigit(c)
    ensures AllDigits(u + [c], 10)
  {
    assert forall i :: 0 <= i < |u| ==> (u + [c])[i] == u[i];
  }

  // ---------------------------------------------------------------------------
  // What the engine returns.

  /** A byte that begins a modifier or a command; any other byte after `$` (the NUL
      included) is malformed. */
  predicate IsDirectiveByte(c: u8)
  {
    IsDecDigit(c) || c == 99 || IsIntLetter(c) || IsRadixLetter(c) || c in {46, 47, 60, 62, 101, 115}
  }

  /** Text without a `$` is written as one call followed by the NUL. */
  lemma {:induction false} LiteralOnly(t: seq<u8>, args: seq<Arg>, wf: WidthFn)
    requires DOLLAR !in t
    ensures Format(t, args, wf) == Out((if t == [] then [] else [t]) + [[0]], FMT_OK)
  {
    assert Literal(t, 0) == |t|;
    assert RunAt(t, |t|, args, 0, wf) == Out([[0]], FMT_OK);
    if t != [] {
      assert t[0..|t|] == t;
    }
  }

  /** A `$` followed by a byte that starts no directive ends the engine with
      `C42_FMT_MALFORMED` once the text before it is written. */
  lemma {:induction false} UnknownDirective(t: seq<u8>, k: nat, args: seq<Arg>, a: nat, wf: WidthFn)
    requires k <= |t| && Literal(t, k) < |t| && !IsDirectiveByte(At(t, Literal(t, k) + 1))
    ensures var q := Literal(t, k);
            Run(t, k, args, a, wf) == Out(if q > k then [t[k..q]] else [], FMT_MALFORMED)
  {
    var q := Literal(t, k);
    assert ModStep(t, q + 1, args, a, DEFAULT_MODS, wf) == Stop(FMT_MALFORMED);
  }

  /** The engine itself returns only success, a malformed template or a width error:
      the converter error codes are never produced, and a write error comes only from
      the writer. On success the last call writes the terminating NUL. */
  lemma {:induction false} RunCodes(t: seq<u8>, k: nat, args: seq<Arg>, a: nat, wf: WidthFn)
    requires k <= |t|
    ensures var o := Run(t, k, args, a, wf);
            o.Out? ==> o.status in {FMT_OK, FMT_MALFORMED, FMT_WIDTH_ERROR} &&
                       (o.status == FMT_OK ==> o.writes != [] && o.writes[|o.writes| - 1] == [0])
    decreases |t| - k, 2
  {
    var q := Literal(t, k);
    RunAtCodes(t, q, args, a, wf);
    PrefixCodes(if q > k then [t[k..q]] else [], RunAt(t, q, args, a, wf));
  }

  /** Writes put in front keep the status and the last write. */
  lemma PrefixCodes(ws: seq<seq<u8>>, o: Outcome)
    requires o.Out? ==> o.status in {FMT_OK, FMT_MALFORMED, FMT_WIDTH_ERROR} &&
                        (o.status == FMT_OK ==> o.writes != [] && o.writes[|o.writes| - 1] == [0])
    ensures var p := Prefix(ws, o);
            p.Out? ==> p.status in {FMT_OK, FMT_MALFORMED, FMT_WIDTH_ERROR} &&
                       (p.status == FMT_OK ==> p.writes != [] && p.writes[|p.writes| - 1] == [0])
  {
    if o.Out? && o.status == FMT_OK {
      assert (ws + o.writes)[|ws + o.writes| - 1] == o.writes[|o.writes| - 1];
    }
  }

  lemma {:induction false} RunAtCodes(t: seq<u8>, q: nat, args: seq<Arg>, a: nat, wf: WidthFn)
    requires q <= |t| && (q == |t| || t[q] == DOLLAR)
    ensures var o := RunAt(t, q, args, a, wf);
            o.Out? ==> o.status in {FMT_OK, FMT_MALFORMED, FMT_WIDTH_ERROR} &&
                       (o.status == FMT_OK ==> o.writes != [] && o.writes[|o.writes| - 1] == [0])
    decreases |t| - q, 1
  {
    if q < |t| {
      var d := Directive(t, q + 1, args, a, DEFAULT_MODS, wf);
      if d.Done? {
        RunCodes(t, d.k, args, d.a, wf);
        PrefixCodes(Emits(d.m, d.c), Run(t, d.k, args, d.a, wf));
      }
    }
  }

  // ---------------------------------------------------------------------------
  // Worked templates, with a width function that counts bytes.

  function ByteWidth(b: seq<u8>): (w: i32)
    ensures |b| <= I32_MAX ==> w == |b|
  {
    if |b| <= I32_MAX then |b| else 0
  }

  /** A template that is one directive: its writes, then the NUL. */
  lemma SingleDirective(t: seq<u8>, args: seq<Arg>, wf: WidthFn)
    requires |t| >= 2 && t[0] == DOLLAR
    requires var d := Directive(t, 1, args, 0, DEFAULT_MODS, wf); d.Done? && d.k == |t|
    ensures var d := Directive(t, 1, args, 0, DEFAULT_MODS, wf);
            Format(t, args, wf) == Out(Emits(d.m, d.c) + [[0]], FMT_OK)
  {
    var d := Directive(t, 1, args, 0, DEFAULT_MODS, wf);
    assert Literal(t, 0) == 0;
    assert Literal(t, |t|) == |t|;
    assert Run(t, |t|, args, d.a, wf) == Out([[0]], FMT_OK) by {
      assert [] + [[0 as u8]] == [[0 as u8]];
    }
    assert RunAt(t, 0, args, 0, wf) == Out(Emits(d.m, d.c) + [[0]], FMT_OK);
    assert [] + (Emits(d.m, d.c) + [[0]]) == Emits(d.m, d.c) + [[0]];
  }

  /** `$05B` with -52: zero fill to width 5 after the sign gives `-0052`. */
  lemma ZeroFillExample()
    ensures Format([36, 48, 53, 66], [Num(-52)], ByteWidth) == Out([[45, 48, 48, 53, 50], [0]], FMT_OK)
  {
    var t: seq<u8> := [36, 48, 53, 66];
    var args := [Num(-52)];
    var m1 := DEFAULT_MODS.(zeroFill := true);
    var m2 := m1.(reqWidth := 5);
    var text: seq<u8> := [45, 48, 48, 53, 50];
    var d := Done(4, 1, m2.(align := ALIGN_RIGHT), Buf(text, 5));
    assert Directive(t, 1, args, 0, DEFAULT_MODS, ByteWidth) == d by {
      assert Number(t, 2, 0) == (5, 3);
      assert ModStep(t, 1, args, 0, DEFAULT_MODS, ByteWidth) == Next(2, 0, m1);
      assert ModStep(t, 2, args, 0, m1, ByteWidth) == Next(3, 0, m2);
      ZeroFillInt();
    }
    assert Emits(d.m, d.c) == [text];
    SingleDirective(t, args, ByteWidth);
  }

  /** The `B` step of `$05B`: -52 read as a signed byte, rendered in width 5. */
  lemma ZeroFillInt()
    ensures var m := DEFAULT_MODS.(zeroFill := true, reqWidth := 5);
            IntStep(66, 3, [Num(-52)], 0, m, ByteWidth)
            == Done(4, 1, m.(align := ALIGN_RIGHT), Buf([45, 48, 48, 53, 50], 5))
  {
    var m := DEFAULT_MODS.(zeroFill := true, reqWidth := 5);
    assert InVaRange(66, -52);
    assert Cast(66, -52) == -52;
    assert IntSign(66, m) == SIGN_NEG;
    assert IntWidth(m) == 5;
    assert IntRadix(66, m) == 10;
    assert I64Defined(-52, SIGN_NEG, 0, 5) by {
      assert Lead(-52, SIGN_NEG).mag == 52;
    }
    var bytes: seq<u8> := [45, 48, 48, 53, 50];
    assert I64Text(-52, SIGN_NEG, 10, [], 5, 64, 95) == bytes by {
      I64NegExample();
    }
    assert ByteWidth(bytes) == 5;
  }

  /** `$5s` pads nothing: a string keeps the default alignment, which pads neither side. */
  lemma StringUnpaddedExample()
    ensures Format([36, 53, 115], [Text([97, 98, 0])], ByteWidth) == Out([[97, 98], [0]], FMT_OK)
  {
    var t: seq<u8> := [36, 53, 115];
    var args := [Text([97, 98, 0])];
    var m := DEFAULT_MODS.(reqWidth := 5);
    var d := Done(3, 1, m, Str([97, 98], 2));
    assert Directive(t, 1, args, 0, DEFAULT_MODS, ByteWidth) == d by {
      assert Number(t, 1, 0) == (5, 2);
      assert ModStep(t, 1, args, 0, DEFAULT_MODS, ByteWidth) == Next(2, 0, m);
      StringAb(2, m);
    }
    assert Emits(d.m, d.c) == [[97, 98]];
    SingleDirective(t, args, ByteWidth);
  }

  lemma ThreeSpaces()
    ensures Pad(3) == [[32, 32, 32]]
  {
    assert Repeat(SPACE, 3) == [32, 32, 32];
    assert Pad(3) == [Repeat(SPACE, 3)] + Pad(0);
  }

  /** The `s` step on the C string "ab" without precision or escape. */
  lemma StringAb(k: nat, m: Mods)
    requires m.prec == SIZE_MAX && m.esc == ESC_NONE
    ensures StrStep(k, [Text([97, 98, 0])], 0, m, ByteWidth) == Done(k + 1, 1, m, Str([97, 98], 2))
  {
    assert ZStr([97, 98, 0]) == [97, 98];
  }

  /** The directive of `$>5s` on "ab". */
  lemma RightAlignedReads()
    ensures Directive([36, 62, 53, 115], 1, [Text([97, 98, 0])], 0, DEFAULT_MODS, ByteWidth)
            == Done(4, 1, DEFAULT_MODS.(align := ALIGN_RIGHT, reqWidth := 5), Str([97, 98], 2))
  {
    var t: seq<u8> := [36, 62, 53, 115];
    var args := [Text([97, 98, 0])];
    var m1 := DEFAULT_MODS.(align := ALIGN_RIGHT);
    var m := m1.(reqWidth := 5);
    var d := Done(4, 1, m, Str([97, 98], 2));
    assert ModStep(t, 1, args, 0, DEFAULT_MODS, ByteWidth) == Next(2, 0, m1);
    RightAlignedWidth();
    StringAb(3, m);
  }

  /** The width 5 of `$>5s`, read after the alignment. */
  lemma RightAlignedWidth()
    ensures var m1 := DEFAULT_MODS.(align := ALIGN_RIGHT);
            ModStep([36, 62, 53, 115], 2, [Text([97, 98, 0])], 0, m1, ByteWidth) == Next(3, 0, m1.(reqWidth := 5))
  {
    assert Number([36, 62, 53, 115], 2, 0) == (5, 3);
  }

  /** `$>5s` pads the same string on the left with three spaces. */
  lemma StringRightAlignedExample()
    ensures Format([36, 62, 53, 115], [Text([97, 98, 0])], ByteWidth) == Out([[32, 32, 32], [97, 98], [0]], FMT_OK)
  {
    var t: seq<u8> := [36, 62, 53, 115];
    var args := [Text([97, 98, 0])];
    var m1 := DEFAULT_MODS.(align := ALIGN_RIGHT);
    var m := m1.(reqWidth := 5);
    var d := Done(4, 1, m, Str([97, 98], 2));
    RightAlignedReads();
    assert Emits(d.m, d.c) == [[32, 32, 32], [97, 98]] by {
      assert PadWidth(5, 2) == 3;
      ThreeSpaces();
    }
    SingleDirective(t, args, ByteWidth);
  }

  /** The directive of `$.3s`. */
  lemma PrecisionReads()
    ensures Directive([36, 46, 51, 115], 1, [Text([97, 0, 98])], 0, DEFAULT_MODS, ByteWidth)
            == Done(4, 1, DEFAULT_MODS.(prec := 3), Str([97, 0, 98], 3))
  {
    var t: seq<u8> := [36, 46, 51, 115];
    var args := [Text([97, 0, 98])];
    var m := DEFAULT_MODS.(prec := 3);
    var d := Done(4, 1, m, Str([97, 0, 98], 3));
    assert Number(t, 2, 0) == (3, 3);
    assert ModStep(t, 1, args, 0, DEFAULT_MODS, ByteWidth) == Next(3, 0, m);
    assert [97, 0, 98][..3] == [97, 0, 98];
    assert StrStep(3, args, 0, m, ByteWidth) == d;
  }

  /** `$.3s` writes exactly three bytes, a NUL among them: the precision is not cut at
      the end of the C string. */
  lemma PrecisionPastNulExample()
    ensures Format([36, 46, 51, 115], [Text([97, 0, 98])], ByteWidth) == Out([[97, 0, 98], [0]], FMT_OK)
  {
    var t: seq<u8> := [36, 46, 51, 115];
    var args := [Text([97, 0, 98])];
    var m := DEFAULT_MODS.(prec := 3);
    var d := Done(4, 1, m, Str([97, 0, 98], 3));
    PrecisionReads();
    assert Emits(d.m, d.c) == [[97, 0, 98]];
    SingleDirective(t, args, ByteWidth);
  }

  /** The directive of `$xs` on the byte 0xAB. */
  lemma HexStringReads()
    ensures Directive([36, 120, 115], 1, [Text([0xAB, 0])], 0, DEFAULT_MODS, ByteWidth)
            == Done(3, 1, RadixMods(120, DEFAULT_MODS), Conv([0xAB], ESC_HEX, 0))
  {
    var t: seq<u8> := [36, 120, 115];
    var args := [Text([0xAB, 0])];
    var m := RadixMods(120, DEFAULT_MODS);
    var d := Done(3, 1, m, Conv([0xAB], ESC_HEX, 0));
    assert ModStep(t, 1, args, 0, DEFAULT_MODS, ByteWidth) == Next(2, 0, m);
    assert ZStr([0xAB, 0]) == [0xAB];
    assert StrStep(2, args, 0, m, ByteWidth) == d;
  }

  /** `$xs` writes the hex digits, then makes the converter's final call, which writes
      nothing: the writer is called with a length of 0. */
  lemma ZeroLengthWriteExample()
    ensures Format([36, 120, 115], [Text([0xAB, 0])], ByteWidth) == Out([[65, 66], [], [0]], FMT_OK)
  {
    var t: seq<u8> := [36, 120, 115];
    var args := [Text([0xAB, 0])];
    var m := RadixMods(120, DEFAULT_MODS);
    var d := Done(3, 1, m, Conv([0xAB], ESC_HEX, 0));
    HexStringReads();
    assert Emits(d.m, d.c) == [[65, 66], []] by {
      HexOneByte();
    }
    SingleDirective(t, args, ByteWidth);
  }

  /** The converter's writes for the one byte 0xAB: its two digits, then nothing. */
  lemma HexOneByte()
    ensures HexWrites([0xAB]) == [[65, 66], []]
  {
    assert HexText([0xAB]) == [65, 66];
    assert BinToHex([0xAB], BUFFER_SIZE).bytes == [65, 66];
    assert [0xAB][1..] == [];
  }

  /** `$xd` with 0 is undefined: the sign and the prefix leave no digit width, and
      `c42_u64_to_str` cannot render 0 in width 0. */
  lemma ZeroWithPrefixUndefined()
    ensures Format([36, 120, 100], [Num(0)], ByteWidth) == Undefined
  {
    var t: seq<u8> := [36, 120, 100];
    var args := [Num(0)];
    var m := RadixMods(120, DEFAULT_MODS);
    assert Directive(t, 1, args, 0, DEFAULT_MODS, ByteWidth) == Undef by {
      assert ModStep(t, 1, args, 0, DEFAULT_MODS, ByteWidth) == Next(2, 0, m);
      assert !I64Defined(0, SIGN_NEG, 2, 1);
      assert IntStep(100, 2, args, 0, m, ByteWidth) == Undef;
    }
    assert Literal(t, 0) == 0;
  }

  /** `$4c` encodes the code point as UTF-8 and writes it left-aligned. */
  lemma CharExample()
    ensures Format([36, 52, 99], [Num(0x20AC)], ByteWidth) == Out([[0xE2, 0x82, 0xAC], [32], [0]], FMT_OK)
  {
    var t: seq<u8> := [36, 52, 99];
    var args := [Num(0x20AC)];
    var m := DEFAULT_MODS.(reqWidth := 4);
    var d := Done(3, 1, m.(align := ALIGN_LEFT), Buf([0xE2, 0x82, 0xAC], 3));
    assert Directive(t, 1, args, 0, DEFAULT_MODS, ByteWidth) == d by {
      assert Number(t, 1, 0) == (4, 2);
      assert Encode(0x20AC) == [0xE2, 0x82, 0xAC];
      assert CharStep(2, args, 0, m, ByteWidth) == d;
    }
    assert Emits(d.m, d.c) == [[0xE2, 0x82, 0xAC], [32]] by {
      assert Repeat(SPACE, 1) == [32];
      assert Pad(1) == [Repeat(SPACE, 1)] + Pad(0);
    }
    SingleDirective(t, args, ByteWidth);
  }

  /** `q` reads a `uint64_t` but stores it in an `int64_t`: 2^63 prints with a '-'. */
  lemma UnsignedQuadWrapsNegative()
    ensures Cast(113, 0x8000_0000_0000_0000) == I64_MIN
    ensures I64Text(Cast(113, 0x8000_0000_0000_0000), SIGN_NEG, 10, [], 1, 64, 95)[0] == MINUS
  {
  }

  // ---------------------------------------------------------------------------
  // Empty writes.

  /** The writes with the empty ones left out: what the engine would make if it kept
      to the writer's rule that a call never has a length of 0. */
  function NonEmpty(ws: seq<seq<u8>>): (r: seq<seq<u8>>)
    ensures forall i :: 0 <= i < |r| ==> r[i] != []
    ensures |r| <= |ws|
  {
    if ws == [] then []
    else if ws[0] == [] then NonEmpty(ws[1..])
    else [ws[0]] + NonEmpty(ws[1..])
  }

  /** Leaving out the empty writes changes nothing a writer sees: the bytes it takes
      and whether every call was taken whole. */
  lemma {:induction false} NonEmptyFeedsSame(ws: seq<seq<u8>>, room: nat)
    ensures Flatten(NonEmpty(ws)) == Flatten(ws)
    ensures Feed(NonEmpty(ws), room) == Feed(ws, room)
    decreases |ws|
  {
    if ws != [] {
      if ws[0] == [] {
        NonEmptyFeedsSame(ws[1..], room);
        assert Flatten(ws) == [] + Flatten(ws[1..]);
      } else {
        var rest := NonEmpty(ws[1..]);
        if |ws[0]| <= room {
          NonEmptyFeedsSame(ws[1..], room - |ws[0]|);
        } else {
          NonEmptyFeedsSame(ws[1..], 0);
        }
        assert ([ws[0]] + rest)[0] == ws[0];
        assert ([ws[0]] + rest)[1..] == rest;
      }
    }
  }

  /** The engine with the empty writes left out. */
  function FormatFixed(t: seq<u8>, args: seq<Arg>, wf: WidthFn): (o: Outcome)
    ensures o.Out? ==> forall i :: 0 <= i < |o.writes| ==> o.writes[i] != []
  {
    var r := Format(t, args, wf);
    if r.Undefined? then Undefined else Out(NonEmpty(r.writes), r.status)
  }

  /** The corrected engine never calls the writer with a length of 0, and every writer
      ends up with the same code and bytes as from the engine as written. */
  lemma FormatFixedDeliversSame(t: seq<u8>, args: seq<Arg>, wf: WidthFn, room: nat)
    ensures FormatFixed(t, args, wf).Out? == Format(t, args, wf).Out?
    ensures Format(t, args, wf).Out? ==>
              Deliver(FormatFixed(t, args, wf), room) == Deliver(Format(t, args, wf), room)
  {
    var r := Format(t, args, wf);
    if r.Out? {
      NonEmptyFeedsSame(r.writes, room);
    }
  }

  /** As written, `$xs` on 0xAB calls the writer with a length of 0; the corrected engine
      writes the same bytes in two calls. */
  lemma ZeroLengthWriteFixed()
    ensures FormatFixed([36, 120, 115], [Text([0xAB, 0])], ByteWidth) == Out([[65, 66], [0]], FMT_OK)
  {
    ZeroLengthWriteExample();
    var ws: seq<seq<u8>> := [[65, 66], [], [0]];
    assert ws[1..] == [[], [0]];
    assert ws[1..][1..] == [[0]];
    assert ws[1..][1..][1..] == [];
  }
}
