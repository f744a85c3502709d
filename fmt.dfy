/** `c42_write_vfmt`: the engine as a method over a writer object, proved to make the
    writer calls and return the code that `FmtSpec.Format` describes. */
module Fmt {
  import opened Bytes
  import opened Prim
  import opened Numerals
  import opened Utf8
  import opened CEscape
  import opened Clconv
  import opened EscStream
  import opened FmtSpec
  import opened FmtProps

  /** A `c42_utf8_writer_f` with its context: it takes the bytes it is offered while it
      has room, and reports how many it took. */
  class Writer {
    var accepted: seq<u8>
    var room: nat

    constructor (room: nat)
      ensures accepted == [] && this.room == room
    {
      accepted := [];
      this.room := room;
    }

    method Write(data: seq<u8>) returns (n: nat)
      modifies this
      ensures n == Min(|data|, old(room))
      ensures accepted == old(accepted) + data[..n] && room == old(room) - n
    {
      n := Min(|data|, room);
      accepted := accepted + data[..n];
      room := room - n;
    }
  }

  /** The writer holds `acc0` followed by `taken`, and its room has shrunk by as much. */
  ghost predicate Took(w: Writer, acc0: seq<u8>, room0: nat, taken: seq<u8>)
    reads w
  {
    |taken| <= room0 && w.accepted == acc0 + taken && w.room == room0 - |taken|
  }

  /** `empty_spaces`: the 64 spaces padding is written from. */
  const EMPTY_SPACES: seq<u8> := Repeat(SPACE, SPACES)

  /** The template array holds the C string `t`. */
  ghost predicate Template(fmt: array<u8>, t: seq<u8>)
    reads fmt
  {
    0 in fmt[..] && t == ZStr(fmt[..])
  }

  lemma TemplateAt(fmt: array<u8>, t: seq<u8>, k: nat)
    requires Template(fmt, t) && k <= |t|
    ensures k < fmt.Length && fmt[k] == At(t, k)
  {
  }

  lemma TemplateSlice(fmt: array<u8>, t: seq<u8>, k: nat, q: nat)
    requires Template(fmt, t) && k <= q <= |t|
    ensures fmt[k..q] == t[k..q]
  {
    assert t == fmt[..][..|t|];
    assert forall i :: k <= i < q ==> fmt[k..q][i - k] == fmt[i] == t[i] == t[k..q][i - k];
  }

  /** A fresh array holding `s`: the converters read the remaining input through it. */
  method ArrayOf(s: seq<u8>) returns (a: array<u8>)
    ensures fresh(a) && a[..] == s
  {
    a := new u8[|s|](i => if 0 <= i < |s| then s[i] else 0);
  }

  // ---------------------------------------------------------------------------
  // Writer calls.

  /** One writer call; it succeeds when every byte was taken. */
  method Put(w: Writer, data: seq<u8>) returns (ok: bool)
    modifies w
    ensures ok == (|data| <= old(w.room))
    ensures w.accepted == old(w.accepted) + (if ok then data else data[..old(w.room)])
    ensures w.room == if ok then old(w.room) - |data| else 0
  {
    var n := w.Write(data);
    ok := n == |data|;
    if ok {
      assert data[..n] == data;
    }
  }

  /** One call of a run of calls: `goal` is what the whole run delivers, `done` what
      the writer took of it so far, and `[x] + rest` the calls still to make. When the
      call is taken whole, the rest is still to come; otherwise the run is over and the
      writer holds all it will take. */
  method PutNext(w: Writer, x: seq<u8>, ghost rest: seq<seq<u8>>, ghost goal: Fed,
                 ghost acc0: seq<u8>, ghost room0: nat, ghost done: seq<u8>)
    returns (ok: bool, ghost done2: seq<u8>)
    requires Took(w, acc0, room0, done) && goal == JoinFed(done, Feed([x] + rest, w.room))
    modifies w
    ensures ok ==> Took(w, acc0, room0, done2) && goal == JoinFed(done2, Feed(rest, w.room))
    ensures !ok ==> !goal.ok && Took(w, acc0, room0, goal.bytes)
  {
    ghost var room := w.room;
    FeedCons(x, rest, room);
    ok := Put(w, x);
    done2 := done + x;
  }

  /** The last call of a run. */
  method PutLast(w: Writer, x: seq<u8>, ghost goal: Fed, ghost acc0: seq<u8>, ghost room0: nat, ghost done: seq<u8>)
    returns (ok: bool)
    requires Took(w, acc0, room0, done) && goal == JoinFed(done, Feed([x], w.room))
    modifies w
    ensures ok == goal.ok && Took(w, acc0, room0, goal.bytes)
  {
    ghost var room := w.room;
    assert [x] == [x] + [];
    FeedCons(x, [], room);
    ok := Put(w, x);
  }

  /** The padding loop: `n` spaces in calls of at most 64. */
  method WritePad(w: Writer, n: nat) returns (ok: bool)
    modifies w
    ensures var f := Feed(Pad(n), old(w.room)); ok == f.ok && Took(w, old(w.accepted), old(w.room), f.bytes)
  {
    ghost var acc0, room0 := w.accepted, w.room;
    ghost var goal := Feed(Pad(n), room0);
    ghost var done: seq<u8> := [];
    assert goal == JoinFed(done, goal);
    var left := n;
    while left > 0
      invariant Took(w, acc0, room0, done) && goal == JoinFed(done, Feed(Pad(left), w.room))
      decreases left
    {
      var clen := Min(left, SPACES);
      assert EMPTY_SPACES[..clen] == Repeat(SPACE, clen);
      assert Pad(left) == [EMPTY_SPACES[..clen]] + Pad(left - clen);
      ok, done := PutNext(w, EMPTY_SPACES[..clen], Pad(left - clen), goal, acc0, room0, done);
      if !ok {
        return;
      }
      left := left - clen;
    }
    assert done + [] == done;
    return true;
  }

  /** What the hex write pass still has to deliver from input position `ofs` on. */
  ghost predicate HexLeft(goal: Fed, done: seq<u8>, room: nat, s: seq<u8>, ofs: nat)
  {
    ofs <= |s| && goal == JoinFed(done, Feed(HexWrites(s[ofs..]), room))
  }

  /** The write pass of `c42_clconv_bin_to_hex_line`: each chunk of the input converted
      into the scratch buffer and written, then the final call's output. */
  method WriteHex(w: Writer, s: seq<u8>, buffer: array<u8>) returns (ok: bool)
    requires buffer.Length == BUFFER_SIZE
    modifies w, buffer
    ensures var f := Feed(HexWrites(s), old(w.room)); ok == f.ok && Took(w, old(w.accepted), old(w.room), f.bytes)
  {
    ghost var acc0, room0 := w.accepted, w.room;
    ghost var goal := Feed(HexWrites(s), room0);
    ghost var done: seq<u8> := [];
    assert goal == JoinFed(done, goal) && s[0..] == s;
    var ofs := 0;
    while ofs < |s|
      invariant Took(w, acc0, room0, done) && HexLeft(goal, done, w.room, s, ofs)
      decreases |s| - ofs
    {
      var ofs2;
      ok, ofs2, done := HexChunk(w, s, ofs, buffer, goal, acc0, room0, done);
      if !ok {
        return;
      }
      ofs := ofs2;
    }
    assert s[ofs..] == [];
    ok := HexFinal(w, buffer, goal, acc0, room0, done);
  }

  /** The final call of the hex write pass, with no input: it writes nothing, and the
      writer is still called. */
  method HexFinal(w: Writer, buffer: array<u8>,
                  ghost goal: Fed, ghost acc0: seq<u8>, ghost room0: nat, ghost done: seq<u8>)
    returns (ok: bool)
    requires buffer.Length == BUFFER_SIZE
    requires Took(w, acc0, room0, done) && goal == JoinFed(done, Feed(HexWrites([]), w.room))
    modifies w, buffer
    ensures ok == goal.ok && Took(w, acc0, room0, goal.bytes)
  {
    var none := new u8[0];
    var status, used, outLen := BinToHexLine(none, 0, buffer, BUFFER_SIZE);
    assert none[..0] == [];
    ok := PutLast(w, buffer[..outLen], goal, acc0, room0, done);
  }

  /** One round of the hex write pass: the rest of the input converted into the scratch
      buffer, as much as fits, and written. */
  method HexChunk(w: Writer, s: seq<u8>, ofs: nat, buffer: array<u8>,
                  ghost goal: Fed, ghost acc0: seq<u8>, ghost room0: nat, ghost done: seq<u8>)
    returns (ok: bool, ofs2: nat, ghost done2: seq<u8>)
    requires ofs < |s| && buffer.Length == BUFFER_SIZE
    requires Took(w, acc0, room0, done) && HexLeft(goal, done, w.room, s, ofs)
    modifies w, buffer
    ensures ok ==> ofs < ofs2 && Took(w, acc0, room0, done2) && HexLeft(goal, done2, w.room, s, ofs2)
    ensures !ok ==> !goal.ok && Took(w, acc0, room0, goal.bytes)
  {
    var inp := ArrayOf(s[ofs..]);
    assert inp[..|s| - ofs] == s[ofs..];
    var status, used, outLen := BinToHexLine(inp, |s| - ofs, buffer, BUFFER_SIZE);
    ofs2 := ofs + used;
    HexRound(s, ofs, used, buffer[..outLen], ofs2);
    ok, done2 := PutNext(w, buffer[..outLen], HexWrites(s[ofs2..]), goal, acc0, room0, done);
  }

  /** One round of the hex loop: the chunk written is the first of the writes left. */
  lemma HexRound(s: seq<u8>, ofs: nat, used: nat, x: seq<u8>, ofs2: nat)
    requires ofs < |s| && ofs2 == ofs + used
    requires var r := BinToHex(s[ofs..], BUFFER_SIZE); r.used == used && r.bytes == x
    ensures ofs < ofs2 <= |s| && HexWrites(s[ofs..]) == [x] + HexWrites(s[ofs2..])
  {
    assert s[ofs..][used..] == s[ofs2..];
  }

  /** What the escape write pass still has to deliver from input position `ofs` on,
      with `p` in the context. */
  ghost predicate EscLeft(goal: Fed, done: seq<u8>, room: nat, p: Pending, s: seq<u8>, ofs: nat)
  {
    ofs <= |s| && goal == JoinFed(done, Feed(EscWrites(p, s[ofs..]), room))
  }

  /** The write pass of `c42_clconv_c_escape` with a freshly initialised context: each
      chunk escaped into the scratch buffer and written, then the final call's output. */
  method WriteEsc(w: Writer, s: seq<u8>, buffer: array<u8>) returns (ok: bool)
    requires buffer.Length == BUFFER_SIZE
    modifies w, buffer
    ensures var f := Feed(EscWrites(NO_BYTE, s), old(w.room)); ok == f.ok && Took(w, old(w.accepted), old(w.room), f.bytes)
  {
    ghost var acc0, room0 := w.accepted, w.room;
    ghost var goal := Feed(EscWrites(NO_BYTE, s), room0);
    ghost var done: seq<u8> := [];
    assert goal == JoinFed(done, goal) && s[0..] == s;
    var ctx := new CEscapeCtx.Init();
    var ofs := 0;
    while ofs < |s|
      invariant fresh(ctx)
      invariant Took(w, acc0, room0, done) && EscLeft(goal, done, w.room, ctx.crtByte, s, ofs)
      decreases |s| - ofs
    {
      var ofs2;
      ok, ofs2, done := EscChunk(w, ctx, s, ofs, buffer, goal, acc0, room0, done);
      if !ok {
        return;
      }
      ofs := ofs2;
    }
    assert s[ofs..] == [];
    ok := EscFinal(w, ctx, buffer, goal, acc0, room0, done);
  }

  /** One round of the escape write pass. */
  method EscChunk(w: Writer, ctx: CEscapeCtx, s: seq<u8>, ofs: nat, buffer: array<u8>,
                  ghost goal: Fed, ghost acc0: seq<u8>, ghost room0: nat, ghost done: seq<u8>)
    returns (ok: bool, ofs2: nat, ghost done2: seq<u8>)
    requires ofs < |s| && buffer.Length == BUFFER_SIZE
    requires Took(w, acc0, room0, done) && EscLeft(goal, done, w.room, ctx.crtByte, s, ofs)
    modifies w, ctx, buffer
    ensures ok ==> ofs < ofs2 && Took(w, acc0, room0, done2) && EscLeft(goal, done2, w.room, ctx.crtByte, s, ofs2)
    ensures !ok ==> !goal.ok && Took(w, acc0, room0, goal.bytes)
  {
    var inp := ArrayOf(s[ofs..]);
    assert inp[..|s| - ofs] == s[ofs..];
    ghost var p := ctx.crtByte;
    var status, used, outLen := ctx.Convert(inp, |s| - ofs, buffer, BUFFER_SIZE, 0, 0);
    ofs2 := ofs + used;
    EscRound(p, s, ofs, EscOut(status, used, buffer[..outLen], ctx.crtByte), buffer[..outLen], ctx.crtByte, ofs2);
    ok, done2 := PutNext(w, buffer[..outLen], EscWrites(ctx.crtByte, s[ofs2..]), goal, acc0, room0, done);
  }

  /** The final call of the escape write pass flushes the byte held back. */
  method EscFinal(w: Writer, ctx: CEscapeCtx, buffer: array<u8>,
                  ghost goal: Fed, ghost acc0: seq<u8>, ghost room0: nat, ghost done: seq<u8>)
    returns (ok: bool)
    requires buffer.Length == BUFFER_SIZE
    requires Took(w, acc0, room0, done) && goal == JoinFed(done, Feed(EscWrites(ctx.crtByte, []), w.room))
    modifies w, ctx, buffer
    ensures ok == goal.ok && Took(w, acc0, room0, goal.bytes)
  {
    var status, outLen := ctx.Finish(buffer, BUFFER_SIZE, 0);
    assert buffer[..outLen] == if ctx.crtByte == NO_BYTE then [] else HexEscape(ctx.crtByte);
    ok := PutLast(w, buffer[..outLen], goal, acc0, room0, done);
  }

  /** One round of the escape loop: the chunk written is the first of the writes left,
      and at least one byte of input is used. */
  lemma EscRound(p: Pending, s: seq<u8>, ofs: nat, r: EscOut, x: seq<u8>, p2: Pending, ofs2: nat)
    requires ofs < |s| && r == EscapeChunk(p, s[ofs..], BUFFER_SIZE)
    requires x == r.bytes && p2 == r.pending && ofs2 == ofs + r.used
    ensures ofs < ofs2 <= |s|
    ensures EscWrites(p, s[ofs..]) == [x] + EscWrites(p2, s[ofs2..])
  {
    ChunkProgress(p, s[ofs..], BUFFER_SIZE);
    assert s[ofs..][r.used..] == s[ofs + r.used..];
  }

  // ---------------------------------------------------------------------------
  // Reading a directive.

  /** The decimal number loop of the width and precision modifiers. */
  method ReadNumber(fmt: array<u8>, ghost t: seq<u8>, k: nat) returns (v: u64, e: nat)
    requires Template(fmt, t) && k <= |t|
    ensures (v, e) == Number(t, k, 0)
  {
    v, e := 0, k;
    TemplateAt(fmt, t, e);
    while '0' as int <= fmt[e] <= '9' as int
      invariant k <= e <= |t| && e < fmt.Length && fmt[e] == At(t, e)
      invariant Number(t, e, v) == Number(t, k, 0)
      decreases |t| - e
    {
      v := ToU64(v * 10 + fmt[e] - '0' as int);
      e := e + 1;
      TemplateAt(fmt, t, e);
    }
  }

  /** The prefix C string `c42_i64_to_str` is given: none, or a fresh copy of the
      radix letter's string literal. */
  method PrefixArray(p: seq<u8>) returns (r: Option<array<u8>>)
    requires 0 !in p
    ensures r.Some? ==> fresh(r.value) && Terminated(r.value)
    ensures PrefixText(r) == p
  {
    if p == [] {
      return None;
    }
    var a := new u8[|p| + 1](i => if 0 <= i < |p| then p[i] else 0);
    assert a[..] == p + [0];
    assert a[..][|p|] == 0;
    return Some(a);
  }

  /** `c`: the code point encoded into the scratch buffer and measured. */
  method CharRound(k: nat, args: seq<Arg>, a: nat, m: Mods, wf: WidthFn, buffer: array<u8>) returns (r: Step)
    requires buffer.Length == BUFFER_SIZE && CharStep(k, args, a, m, wf) != Undef
    modifies buffer
    ensures r == CharStep(k, args, a, m, wf)
    ensures r.Done? ==> r.c.Buf? && |r.c.bytes| <= BUFFER_SIZE && buffer[..|r.c.bytes|] == r.c.bytes
  {
    var n := UcpToUtf8(buffer, 0, args[a].v);
    assert buffer[..n] == buffer[0..n];
    var width := wf(buffer[..n]);
    if width < 0 {
      return Stop(FMT_WIDTH_ERROR);
    }
    var m2 := if m.align == ALIGN_DEFAULT then m.(align := ALIGN_LEFT) else m;
    return Done(k + 1, a + 1, m2, Buf(buffer[..n], width));
  }

  /** The integer letters: the value cast, formatted into the scratch buffer by
      `c42_i64_to_str` and measured. */
  method IntRound(c: u8, k: nat, args: seq<Arg>, a: nat, m: Mods, wf: WidthFn, buffer: array<u8>) returns (r: Step)
    requires IsIntLetter(c) && ModsOk(m) && buffer.Length == BUFFER_SIZE
    requires IntStep(c, k, args, a, m, wf) != Undef
    modifies buffer
    ensures r == IntStep(c, k, args, a, m, wf)
    ensures r.Done? ==> r.c.Buf? && |r.c.bytes| <= BUFFER_SIZE && buffer[..|r.c.bytes|] == r.c.bytes
  {
    var x := Cast(c, args[a].v);
    var sm := IntSign(c, m);
    var pfx := PrefixArray(m.prefix);
    var n := I64ToStr(buffer, x, sm as u8, IntRadix(c, m), pfx, IntWidth(m) as u32, m.group as u8, m.sep);
    var width := wf(buffer[..n]);
    if width < 0 {
      return Stop(FMT_WIDTH_ERROR);
    }
    var m2 := if m.align == ALIGN_DEFAULT then m.(align := ALIGN_RIGHT) else m;
    return Done(k + 1, a + 1, m2.(signMode := sm), Buf(buffer[..n], width));
  }

  /** The width pass of a converted string: the widths of the converter's writes
      summed, or None on a width error. */
  method MeasureConv(esc: nat, s: seq<u8>, wf: WidthFn, buffer: array<u8>) returns (r: Option<i32>)
    requires buffer.Length == BUFFER_SIZE
    modifies buffer
    ensures r == Measure(ConvWrites(esc, s), wf, 0)
  {
    if esc == ESC_HEX {
      r := MeasureHex(s, wf, buffer);
    } else {
      r := MeasureEsc(s, wf, buffer);
    }
  }

  /** What the width pass still has to add from input position `ofs` on, `width`
      being the sum so far. */
  ghost predicate HexMeasure(total: Option<i32>, wf: WidthFn, s: seq<u8>, ofs: nat, width: i32)
  {
    ofs <= |s| && forall ws :: ws == HexWrites(s[ofs..]) ==> total == Measure(ws, wf, width)
  }

  ghost predicate EscMeasure(total: Option<i32>, wf: WidthFn, p: Pending, s: seq<u8>, ofs: nat, width: i32)
  {
    ofs <= |s| && forall ws :: ws == EscWrites(p, s[ofs..]) ==> total == Measure(ws, wf, width)
  }

  /** One call's width added to the sum, or a width error. */
  lemma MeasureCons(x: seq<u8>, rest: seq<seq<u8>>, wf: WidthFn, acc: i32)
    ensures Measure([x] + rest, wf, acc) == if wf(x) < 0 then None else Measure(rest, wf, ToI32(acc + wf(x)))
  {
    assert ([x] + rest)[1..] == rest;
  }

  method MeasureHex(s: seq<u8>, wf: WidthFn, buffer: array<u8>) returns (r: Option<i32>)
    requires buffer.Length == BUFFER_SIZE
    modifies buffer
    ensures r == Measure(HexWrites(s), wf, 0)
  {
    ghost var total := Measure(HexWrites(s), wf, 0);
    var width: i32 := 0;
    var ofs: nat := 0;
    assert s[0..] == s;
    while ofs < |s|
      invariant HexMeasure(total, wf, s, ofs, width)
      decreases |s| - ofs
    {
      var ok, width2, ofs2 := HexWidthChunk(s, ofs, wf, buffer, width, total);
      if !ok {
        return None;
      }
      width, ofs := width2, ofs2;
    }
    var none := new u8[0];
    var status, used, outLen := BinToHexLine(none, 0, buffer, BUFFER_SIZE);
    assert s[ofs..] == [] && none[..0] == [] && buffer[..outLen] == [];
    MeasureCons([], [], wf, width);
    var w := wf(buffer[..outLen]);
    if w < 0 {
      return None;
    }
    return Some(ToI32(width + w));
  }

  /** One round of the hex width pass. */
  method HexWidthChunk(s: seq<u8>, ofs: nat, wf: WidthFn, buffer: array<u8>, width: i32, ghost total: Option<i32>)
    returns (ok: bool, width2: i32, ofs2: nat)
    requires ofs < |s| && buffer.Length == BUFFER_SIZE && HexMeasure(total, wf, s, ofs, width)
    modifies buffer
    ensures !ok ==> total == None
    ensures ok ==> ofs < ofs2 && HexMeasure(total, wf, s, ofs2, width2)
  {
    var inp := ArrayOf(s[ofs..]);
    assert inp[..|s| - ofs] == s[ofs..];
    var status, used, outLen := BinToHexLine(inp, |s| - ofs, buffer, BUFFER_SIZE);
    ofs2 := ofs + used;
    HexRound(s, ofs, used, buffer[..outLen], ofs2);
    var w := wf(buffer[..outLen]);
    ok, width2 := w >= 0, ToI32(width + w);
    HexMeasureStep(total, wf, s, ofs, ofs2, buffer[..outLen], width, width2);
  }

  /** The width pass over one write of the converter and the writes after it. */
  lemma HexMeasureStep(total: Option<i32>, wf: WidthFn, s: seq<u8>, ofs: nat, ofs2: nat, x: seq<u8>, width: i32, width2: i32)
    requires ofs2 <= |s| && HexMeasure(total, wf, s, ofs, width)
    requires HexWrites(s[ofs..]) == [x] + HexWrites(s[ofs2..]) && width2 == ToI32(width + wf(x))
    ensures wf(x) < 0 ==> total == None
    ensures wf(x) >= 0 ==> HexMeasure(total, wf, s, ofs2, width2)
  {
    assert total == Measure(HexWrites(s[ofs..]), wf, width);
    MeasureCons(x, HexWrites(s[ofs2..]), wf, width);
  }

  method MeasureEsc(s: seq<u8>, wf: WidthFn, buffer: array<u8>) returns (r: Option<i32>)
    requires buffer.Length == BUFFER_SIZE
    modifies buffer
    ensures r == Measure(EscWrites(NO_BYTE, s), wf, 0)
  {
    ghost var total := Measure(EscWrites(NO_BYTE, s), wf, 0);
    var ctx := new CEscapeCtx.Init();
    var width: i32 := 0;
    var ofs := 0;
    assert s[0..] == s;
    while ofs < |s|
      invariant fresh(ctx) && EscMeasure(total, wf, ctx.crtByte, s, ofs, width)
      decreases |s| - ofs
    {
      var ok, width2, ofs2 := EscWidthChunk(ctx, s, ofs, wf, buffer, width, total);
      if !ok {
        return None;
      }
      width, ofs := width2, ofs2;
    }
    assert s[ofs..] == [];
    r := EscWidthFinal(ctx, wf, buffer, width, total);
  }

  /** One round of the escape width pass. */
  method EscWidthChunk(ctx: CEscapeCtx, s: seq<u8>, ofs: nat, wf: WidthFn, buffer: array<u8>, width: i32,
                       ghost total: Option<i32>)
    returns (ok: bool, width2: i32, ofs2: nat)
    requires ofs < |s| && buffer.Length == BUFFER_SIZE && EscMeasure(total, wf, ctx.crtByte, s, ofs, width)
    modifies ctx, buffer
    ensures !ok ==> total == None
    ensures ok ==> ofs < ofs2 && EscMeasure(total, wf, ctx.crtByte, s, ofs2, width2)
  {
    var inp := ArrayOf(s[ofs..]);
    assert inp[..|s| - ofs] == s[ofs..];
    ghost var p := ctx.crtByte;
    var status, used, outLen := ctx.Convert(inp, |s| - ofs, buffer, BUFFER_SIZE, 0, 0);
    ghost var r := EscOut(status, used, buffer[..outLen], ctx.crtByte);
    var w := wf(buffer[..outLen]);
    ok, width2, ofs2 := w >= 0, ToI32(width + w), ofs + used;
    EscMeasureStep(total, wf, p, s, ofs, r, width, ctx.crtByte, ofs2, width2);
  }

  /** The width pass over one converter call and the calls after it. */
  lemma EscMeasureStep(total: Option<i32>, wf: WidthFn, p: Pending, s: seq<u8>, ofs: nat, r: EscOut,
                       width: i32, p2: Pending, ofs2: nat, width2: i32)
    requires ofs < |s| && r == EscapeChunk(p, s[ofs..], BUFFER_SIZE) && EscMeasure(total, wf, p, s, ofs, width)
    requires p2 == r.pending && ofs2 == ofs + r.used && width2 == ToI32(width + wf(r.bytes))
    ensures ofs < ofs2 <= |s|
    ensures wf(r.bytes) < 0 ==> total == None
    ensures wf(r.bytes) >= 0 ==> EscMeasure(total, wf, p2, s, ofs2, width2)
  {
    EscRound(p, s, ofs, r, r.bytes, p2, ofs2);
    var ws := EscWrites(p, s[ofs..]);
    var rest := EscWrites(p2, s[ofs2..]);
    assert total == Measure(ws, wf, width);
    MeasureCons(r.bytes, rest, wf, width);
  }

  /** The final call of the escape width pass. */
  method EscWidthFinal(ctx: CEscapeCtx, wf: WidthFn, buffer: array<u8>, width: i32, ghost total: Option<i32>)
    returns (r: Option<i32>)
    requires buffer.Length == BUFFER_SIZE && total == Measure(EscWrites(ctx.crtByte, []), wf, width)
    modifies ctx, buffer
    ensures r == total
  {
    var status, outLen := ctx.Finish(buffer, BUFFER_SIZE, 0);
    assert buffer[..outLen] == if ctx.crtByte == NO_BYTE then [] else HexEscape(ctx.crtByte);
    MeasureCons(buffer[..outLen], [], wf, width);
    assert [buffer[..outLen]] + [] == EscWrites(ctx.crtByte, []);
    var w := wf(buffer[..outLen]);
    if w < 0 {
      return None;
    }
    return Some(ToI32(width + w));
  }

  /** `s`: the string's bytes, measured directly, or through the converter when an
      escape and a width were given. */
  method StrRound(k: nat, args: seq<Arg>, a: nat, m: Mods, wf: WidthFn, buffer: array<u8>) returns (r: Step)
    requires buffer.Length == BUFFER_SIZE && StrStep(k, args, a, m, wf) != Undef
    modifies buffer
    ensures r == StrStep(k, args, a, m, wf)
  {
    var mem := args[a].mem;
    var bytes := if m.prec == SIZE_MAX then ZStr(mem) else mem[..m.prec];
    if m.esc == ESC_NONE {
      var width := wf(bytes);
      if width < 0 {
        return Stop(FMT_WIDTH_ERROR);
      }
      return Done(k + 1, a + 1, m, Str(bytes, width));
    }
    if m.reqWidth == 0 {
      return Done(k + 1, a + 1, m, Conv(bytes, m.esc, 0));
    }
    var width := MeasureConv(m.esc, bytes, wf, buffer);
    if width.None? {
      return Stop(FMT_WIDTH_ERROR);
    }
    return Done(k + 1, a + 1, m, Conv(bytes, m.esc, width.value));
  }

  /** `.`: the precision from the arguments or from the digits that follow. */
  method PrecRound(fmt: array<u8>, ghost t: seq<u8>, k: nat, args: seq<Arg>, a: nat, m: Mods) returns (r: Step)
    requires Template(fmt, t) && k < |t| && PrecStep(t, k, args, a, m) != Undef
    ensures r == PrecStep(t, k, args, a, m)
  {
    TemplateAt(fmt, t, k + 1);
    if fmt[k + 1] == 42 {
      return Next(k + 2, a + 1, m.(prec := args[a].v));
    }
    var v, e := ReadNumber(fmt, t, k + 1);
    return Next(e, a, m.(prec := v));
  }

  /** One round of the modifier loop: the `switch` on the template byte at `k`. */
  method ModRound(fmt: array<u8>, ghost t: seq<u8>, k: nat, args: seq<Arg>, a: nat, m: Mods, wf: WidthFn,
                  buffer: array<u8>) returns (r: Step)
    requires Template(fmt, t) && k <= |t| && ModsOk(m)
    requires buffer.Length == BUFFER_SIZE && buffer != fmt
    requires ModStep(t, k, args, a, m, wf) != Undef
    modifies buffer
    ensures r == ModStep(t, k, args, a, m, wf)
    ensures r.Done? && r.c.Buf? ==> |r.c.bytes| <= BUFFER_SIZE && buffer[..|r.c.bytes|] == r.c.bytes
  {
    TemplateAt(fmt, t, k);
    var c := fmt[k];
    if c == 48 {
      r := Next(k + 1, a, m.(zeroFill := true));
    } else if IsDecDigit(c) {
      var v, e := ReadNumber(fmt, t, k);
      r := Next(e, a, m.(reqWidth := v));
    } else if c == 99 {
      r := CharRound(k, args, a, m, wf, buffer);
    } else if IsIntLetter(c) {
      r := IntRound(c, k, args, a, m, wf, buffer);
    } else if IsRadixLetter(c) {
      r := Next(k + 1, a, RadixMods(c, m));
    } else if c == 115 {
      r := StrRound(k, args, a, m, wf, buffer);
    } else if c == 46 {
      r := PrecRound(fmt, t, k, args, a, m);
    } else if c == 60 {
      r := Next(k + 1, a, m.(align := ALIGN_LEFT));
    } else if c == 62 {
      r := Next(k + 1, a, m.(align := ALIGN_RIGHT));
    } else if c == 47 {
      TemplateAt(fmt, t, k + 1);
      if !IsDecDigit(fmt[k + 1]) {
        r := Stop(FMT_MALFORMED);
      } else {
        TemplateAt(fmt, t, k + 2);
        if fmt[k + 2] == 0 {
          r := Stop(FMT_MALFORMED);
        } else {
          r := Next(k + 3, a, m.(group := fmt[k + 1] - 48, sep := fmt[k + 2]));
        }
      }
    } else if c == 101 {
      r := Next(k + 1, a, m.(esc := ESC_C));
    } else {
      r := Stop(FMT_MALFORMED);
    }
  }

  /** The modifier loop, from the byte after `$` until a command is set or the engine
      returns. */
  method ReadDirective(fmt: array<u8>, ghost t: seq<u8>, k0: nat, args: seq<Arg>, a0: nat, wf: WidthFn,
                       buffer: array<u8>) returns (r: Step)
    requires Template(fmt, t) && k0 <= |t| && buffer.Length == BUFFER_SIZE && buffer != fmt
    requires Directive(t, k0, args, a0, DEFAULT_MODS, wf) != Undef
    modifies buffer
    ensures r == Directive(t, k0, args, a0, DEFAULT_MODS, wf)
    ensures r.Done? && r.c.Buf? ==> |r.c.bytes| <= BUFFER_SIZE && buffer[..|r.c.bytes|] == r.c.bytes
  {
    var k, a, m := k0, a0, DEFAULT_MODS;
    while true
      invariant k <= |t| && ModsOk(m)
      invariant Directive(t, k, args, a, m, wf) == Directive(t, k0, args, a0, DEFAULT_MODS, wf)
      decreases |t| - k
    {
      r := ModRound(fmt, t, k, args, a, m, wf, buffer);
      if !r.Next? {
        return;
      }
      k, a, m := r.k, r.a, r.m;
    }
  }

  // ---------------------------------------------------------------------------
  // Writing a directive.

  /** One writer call, taken whole or in part. */
  lemma FeedOne(x: seq<u8>, room: nat)
    ensures Feed([x], room) == if |x| <= room then Fed(x, true) else Fed(x[..room], false)
  {
    assert [x] == [x] + [];
    FeedCons(x, [], room);
  }

  /** The command's own writes: the scratch buffer, the string, or the converter's
      second pass. */
  method WriteContent(w: Writer, c: Content, buffer: array<u8>) returns (ok: bool)
    requires buffer.Length == BUFFER_SIZE
    requires c.Buf? ==> |c.bytes| <= BUFFER_SIZE && buffer[..|c.bytes|] == c.bytes
    modifies w, buffer
    ensures var f := Feed(ContentWrites(c), old(w.room)); ok == f.ok && Took(w, old(w.accepted), old(w.room), f.bytes)
  {
    FeedOne(if c.Conv? then [] else c.bytes, w.room);
    match c
    case Buf(b, _) =>
      ok := Put(w, buffer[..|b|]);
    case Str(b, _) =>
      ok := Put(w, b);
    case Conv(s, esc, _) =>
      if esc == ESC_HEX {
        ok := WriteHex(w, s, buffer);
      } else {
        ok := WriteEsc(w, s, buffer);
      }
  }

  /** A run of writes `ws1` made, then `ws2` delivered with the room that is left. */
  lemma TookThen(w: Writer, acc0: seq<u8>, room0: nat, ws1: seq<seq<u8>>, ws2: seq<seq<u8>>, acc1: seq<u8>, room1: nat)
    requires var f1 := Feed(ws1, room0); f1.ok && acc1 == acc0 + f1.bytes && room1 == room0 - |f1.bytes|
    requires var f2 := Feed(ws2, room1); Took(w, acc1, room1, f2.bytes)
    ensures var f := Feed(ws1 + ws2, room0); f.ok == Feed(ws2, room1).ok && Took(w, acc0, room0, f.bytes)
  {
    FeedAppend(ws1, ws2, room0);
    var f1, f2 := Feed(ws1, room0), Feed(ws2, room1);
    assert acc0 + f1.bytes + f2.bytes == acc0 + (f1.bytes + f2.bytes);
  }

  /** The padding and the writes of one directive, as `FmtSpec.Emits` lists them. */
  method EmitDirective(w: Writer, m: Mods, c: Content, buffer: array<u8>) returns (ok: bool)
    requires buffer.Length == BUFFER_SIZE
    requires c.Buf? ==> |c.bytes| <= BUFFER_SIZE && buffer[..|c.bytes|] == c.bytes
    modifies w, buffer
    ensures var f := Feed(Emits(m, c), old(w.room)); ok == f.ok && Took(w, old(w.accepted), old(w.room), f.bytes)
  {
    var n := PadWidth(m.reqWidth, c.width);
    ghost var pre: seq<seq<u8>> := if m.align == ALIGN_RIGHT then Pad(n) else [];
    ghost var post: seq<seq<u8>> := if m.align == ALIGN_LEFT then Pad(n) else [];
    assert Emits(m, c) == pre + (ContentWrites(c) + post);
    ghost var acc0, room0 := w.accepted, w.room;
    if m.align == ALIGN_RIGHT {
      ok := WritePad(w, n);
      if !ok {
        FeedAppend(pre, ContentWrites(c) + post, room0);
        return;
      }
    }
    ghost var acc1, room1 := w.accepted, w.room;
    assert Feed(pre, room0).ok && acc1 == acc0 + Feed(pre, room0).bytes && room1 == room0 - |Feed(pre, room0).bytes|;
    ok := EmitTail(w, m, c, n, buffer, post);
    TookThen(w, acc0, room0, pre, ContentWrites(c) + post, acc1, room1);
  }

  /** The content and the padding after it. */
  method EmitTail(w: Writer, m: Mods, c: Content, n: nat, buffer: array<u8>, ghost post: seq<seq<u8>>)
    returns (ok: bool)
    requires buffer.Length == BUFFER_SIZE
    requires c.Buf? ==> |c.bytes| <= BUFFER_SIZE && buffer[..|c.bytes|] == c.bytes
    requires post == if m.align == ALIGN_LEFT then Pad(n) else []
    modifies w, buffer
    ensures var f := Feed(ContentWrites(c) + post, old(w.room));
            ok == f.ok && Took(w, old(w.accepted), old(w.room), f.bytes)
  {
    ghost var acc0, room0 := w.accepted, w.room;
    ok := WriteContent(w, c, buffer);
    if !ok {
      FeedAppend(ContentWrites(c), post, room0);
      return;
    }
    ghost var acc1, room1 := w.accepted, w.room;
    if m.align == ALIGN_LEFT {
      ok := WritePad(w, n);
    } else {
      assert Feed(post, room1) == Fed([], true);
    }
    TookThen(w, acc0, room0, ContentWrites(c), post, acc1, room1);
  }

  // ---------------------------------------------------------------------------
  // The template loop.

  /** The run of calls `ws1 + ws2` delivered after `done`: once `ws1` is delivered, the
      rest is `ws2` when every call of `ws1` was taken whole, and nothing otherwise. */
  lemma Advance(goal: Fed, done: seq<u8>, room: nat, ws1: seq<seq<u8>>, ws2: seq<seq<u8>>)
    requires goal == JoinFed(done, Feed(ws1 + ws2, room))
    ensures var f1 := Feed(ws1, room);
            if f1.ok then goal == JoinFed(done + f1.bytes, Feed(ws2, room - |f1.bytes|))
            else goal == Fed(done + f1.bytes, false)
  {
    FeedAppend(ws1, ws2, room);
    var f1 := Feed(ws1, room);
    if f1.ok {
      var f2 := Feed(ws2, room - |f1.bytes|);
      assert done + (f1.bytes + f2.bytes) == done + f1.bytes + f2.bytes;
    }
  }

  /** The literal scan: the first `$` or NUL at or after `k`. */
  method ScanLiteral(fmt: array<u8>, ghost t: seq<u8>, k: nat) returns (q: nat)
    requires Template(fmt, t) && k <= |t|
    ensures q == Literal(t, k) && q < fmt.Length && fmt[q] == At(t, q)
  {
    q := k;
    TemplateAt(fmt, t, q);
    while fmt[q] != 0 && fmt[q] != DOLLAR
      invariant k <= q <= |t| && q < fmt.Length && fmt[q] == At(t, q)
      invariant Literal(t, q) == Literal(t, k)
      decreases |t| - q
    {
      q := q + 1;
      TemplateAt(fmt, t, q);
    }
  }

  /** What the engine still owes the writer: `ws`, delivered after `done`. */
  ghost predicate Owes(w: Writer, goal: Fed, acc0: seq<u8>, room0: nat, done: seq<u8>, ws: seq<seq<u8>>)
    reads w
  {
    Took(w, acc0, room0, done) && goal == JoinFed(done, Feed(ws, w.room))
  }

  /** A run of calls the writer did not take whole ends the engine with `C42_FMT_WRITE_ERROR`. */
  ghost predicate Stopped(w: Writer, goal: Fed, acc0: seq<u8>, room0: nat)
    reads w
  {
    !goal.ok && Took(w, acc0, room0, goal.bytes)
  }

  /** The literal text before `q`, written when there is any. */
  method EmitLiteral(w: Writer, fmt: array<u8>, ghost t: seq<u8>, k: nat, q: nat, ghost rest: seq<seq<u8>>,
                     ghost goal: Fed, ghost acc0: seq<u8>, ghost room0: nat, ghost done: seq<u8>)
    returns (ok: bool, ghost done2: seq<u8>)
    requires Template(fmt, t) && k <= q <= |t|
    requires Owes(w, goal, acc0, room0, done, (if q > k then [t[k..q]] else []) + rest)
    modifies w
    ensures ok ==> Owes(w, goal, acc0, room0, done2, rest)
    ensures !ok ==> Stopped(w, goal, acc0, room0)
  {
    done2 := done;
    ok := true;
    if q > k {
      TemplateSlice(fmt, t, k, q);
      ok, done2 := PutNext(w, fmt[k..q], rest, goal, acc0, room0, done);
    } else {
      assert [] + rest == rest;
    }
  }

  /** The template from `k` on writes `ws` and returns `st`. The quantifier over the
      single position `j == k` keeps the recursive `Run` from being unfolded where the
      fact is only passed along. */
  ghost predicate RunIs(t: seq<u8>, k: nat, args: seq<Arg>, a: nat, wf: WidthFn, ws: seq<seq<u8>>, st: nat)
  {
    k <= |t| && forall j :: j == k ==> Run(t, j, args, a, wf) == Out(ws, st)
  }

  /** The same from the `$` at `q` on. */
  ghost predicate RunAtIs(t: seq<u8>, q: nat, args: seq<Arg>, a: nat, wf: WidthFn, ws: seq<seq<u8>>, st: nat)
  {
    q < |t| && t[q] == DOLLAR && forall j :: j == q ==> RunAt(t, j, args, a, wf) == Out(ws, st)
  }

  /** The template from `k` on: the literal text up to the next `$` or the end, then
      the NUL at the end or what the directive at the `$` starts. */
  lemma LiteralStep(t: seq<u8>, k: nat, args: seq<Arg>, a: nat, wf: WidthFn, ws: seq<seq<u8>>, st: nat, q: nat)
    returns (rest: seq<seq<u8>>)
    requires RunIs(t, k, args, a, wf, ws, st) && q == Literal(t, k)
    ensures ws == (if q > k then [t[k..q]] else []) + rest
    ensures q == |t| ==> rest == [[0]] && st == FMT_OK
    ensures q < |t| ==> RunAtIs(t, q, args, a, wf, rest, st)
  {
    assert Run(t, k, args, a, wf) == Out(ws, st);
    rest := RunAt(t, q, args, a, wf).writes;
    assert RunAt(t, q, args, a, wf) == Out(rest, st);
  }

  /** A directive with modifiers `m` and command `c` makes the calls `ws`; hidden behind
      a quantifier like `RunIs`. */
  ghost predicate EmitsIs(m: Mods, c: Content, ws: seq<seq<u8>>)
  {
    forall m2 :: m2 == m ==> Emits(m2, c) == ws
  }

  /** At a `$`: the directive's writes, then the template after it; or the code the
      directive stops with and no writes. */
  lemma DirectiveStep(t: seq<u8>, q: nat, args: seq<Arg>, a: nat, wf: WidthFn, ws: seq<seq<u8>>, st: nat, r: Step)
    returns (ews: seq<seq<u8>>, after: seq<seq<u8>>)
    requires RunAtIs(t, q, args, a, wf, ws, st) && r == Directive(t, q + 1, args, a, DEFAULT_MODS, wf)
    ensures r.Stop? || r.Done?
    ensures r.Stop? ==> ws == [] && st == r.code
    ensures r.Done? ==> EmitsIs(r.m, r.c, ews) && ws == ews + after && RunIs(t, r.k, args, r.a, wf, after, st)
  {
    assert RunAt(t, q, args, a, wf) == Out(ws, st);
    ews, after := [], [];
    if r.Done? {
      ews := Emits(r.m, r.c);
      after := Run(t, r.k, args, r.a, wf).writes;
      assert Run(t, r.k, args, r.a, wf) == Out(after, st);
    }
  }

  /** The directive at the `$` at `q` read, as `DirectiveStep` describes it. */
  method ReadStep(fmt: array<u8>, ghost t: seq<u8>, q: nat, args: seq<Arg>, a: nat, wf: WidthFn, buffer: array<u8>,
                  ghost ws: seq<seq<u8>>, ghost st: nat)
    returns (r: Step, ghost ews: seq<seq<u8>>, ghost after: seq<seq<u8>>)
    requires Template(fmt, t) && buffer.Length == BUFFER_SIZE && buffer != fmt
    requires RunAtIs(t, q, args, a, wf, ws, st)
    modifies buffer
    ensures r.Stop? || r.Done?
    ensures r.Stop? ==> ws == [] && st == r.code
    ensures r.Done? ==> q < r.k && EmitsIs(r.m, r.c, ews) && ws == ews + after && RunIs(t, r.k, args, r.a, wf, after, st)
    ensures r.Done? && r.c.Buf? ==> |r.c.bytes| <= BUFFER_SIZE && buffer[..|r.c.bytes|] == r.c.bytes
  {
    assert RunAt(t, q, args, a, wf) == Out(ws, st);
    r := ReadDirective(fmt, t, q + 1, args, a, wf, buffer);
    ews, after := DirectiveStep(t, q, args, a, wf, ws, st, r);
  }

  /** A directive's writes made as the first of those the engine still owes. */
  method EmitRound(w: Writer, m: Mods, c: Content, buffer: array<u8>, ghost ews: seq<seq<u8>>, ghost rest: seq<seq<u8>>,
                   ghost goal: Fed, ghost acc0: seq<u8>, ghost room0: nat, ghost done: seq<u8>)
    returns (ok: bool, ghost done2: seq<u8>)
    requires buffer.Length == BUFFER_SIZE
    requires c.Buf? ==> |c.bytes| <= BUFFER_SIZE && buffer[..|c.bytes|] == c.bytes
    requires EmitsIs(m, c, ews) && Owes(w, goal, acc0, room0, done, ews + rest)
    modifies w, buffer
    ensures ok ==> Owes(w, goal, acc0, room0, done2, rest)
    ensures !ok ==> Stopped(w, goal, acc0, room0)
  {
    ghost var room := w.room;
    Advance(goal, done, room, ews, rest);
    assert Emits(m, c) == ews;
    ok := EmitDirective(w, m, c, buffer);
    ghost var f := Feed(ews, room);
    done2 := done + f.bytes;
    assert acc0 + done + f.bytes == acc0 + done2;
  }

  /** `c42_write_vfmt`: the literal text and the directives of the template written
      through `w`, then the terminating NUL. The writer takes what `FmtSpec.Format`
      lists until a call is not taken whole; the code returned is the engine's own
      code, or `C42_FMT_WRITE_ERROR` after a short write. */
  method WriteVFmt(w: Writer, wf: WidthFn, fmt: array<u8>, args: seq<Arg>) returns (status: nat)
    requires 0 in fmt[..] && Format(ZStr(fmt[..]), args, wf).Out?
    modifies w
    ensures var e := Deliver(Format(ZStr(fmt[..]), args, wf), old(w.room));
            status == e.status && w.accepted == old(w.accepted) + e.bytes
  {
    ghost var o := Format(ZStr(fmt[..]), args, wf);
    assert RunIs(ZStr(fmt[..]), 0, args, 0, wf, o.writes, o.status);
    status := WriteTemplate(w, wf, fmt, ZStr(fmt[..]), args, o.writes, o.status);
  }

  /** The literal text from `k` on scanned and written. */
  method LiteralRound(w: Writer, fmt: array<u8>, ghost t: seq<u8>, k: nat, args: seq<Arg>, a: nat, wf: WidthFn,
                      ghost left: seq<seq<u8>>, ghost st: nat,
                      ghost goal: Fed, ghost acc0: seq<u8>, ghost room0: nat, ghost done: seq<u8>)
    returns (q: nat, ok: bool, ghost rest: seq<seq<u8>>, ghost done2: seq<u8>)
    requires Template(fmt, t) && RunIs(t, k, args, a, wf, left, st) && Owes(w, goal, acc0, room0, done, left)
    modifies w
    ensures k <= q <= |t| && q < fmt.Length
    ensures ok && fmt[q] == 0 ==> rest == [[0]] && st == FMT_OK
    ensures ok && fmt[q] != 0 ==> RunAtIs(t, q, args, a, wf, rest, st)
    ensures ok ==> Owes(w, goal, acc0, room0, done2, rest)
    ensures !ok ==> Stopped(w, goal, acc0, room0)
  {
    q := ScanLiteral(fmt, t, k);
    rest := LiteralStep(t, k, args, a, wf, left, st, q);
    ok, done2 := EmitLiteral(w, fmt, t, k, q, rest, goal, acc0, room0, done);
  }

  /** The directive at the `$` at `q` read and written: the code it stops with, or
      where the template goes on. */
  method DirectiveRound(w: Writer, fmt: array<u8>, ghost t: seq<u8>, q: nat, args: seq<Arg>, a: nat, wf: WidthFn,
                        buffer: array<u8>, ghost ws: seq<seq<u8>>, ghost st: nat,
                        ghost goal: Fed, ghost acc0: seq<u8>, ghost room0: nat, ghost done: seq<u8>)
    returns (r: Step, ok: bool, ghost after: seq<seq<u8>>, ghost done2: seq<u8>)
    requires Template(fmt, t) && buffer.Length == BUFFER_SIZE && buffer != fmt
    requires RunAtIs(t, q, args, a, wf, ws, st) && Owes(w, goal, acc0, room0, done, ws)
    modifies w, buffer
    ensures r.Stop? || r.Done?
    ensures r.Stop? ==> ok && goal == Fed(done, true) && Took(w, acc0, room0, done) && st == r.code
    ensures r.Done? && ok ==> q < r.k && RunIs(t, r.k, args, r.a, wf, after, st) && Owes(w, goal, acc0, room0, done2, after)
    ensures r.Done? && !ok ==> Stopped(w, goal, acc0, room0)
  {
    ghost var ews;
    r, ews, after := ReadStep(fmt, t, q, args, a, wf, buffer, ws, st);
    if r.Stop? {
      assert Feed([], w.room) == Fed([], true) && done + [] == done;
      return r, true, after, done;
    }
    ok, done2 := EmitRound(w, r.m, r.c, buffer, ews, after, goal, acc0, room0, done);
  }

  /** The template loop, for a template that makes the calls `ws` and returns `st`. */
  method WriteTemplate(w: Writer, wf: WidthFn, fmt: array<u8>, ghost t: seq<u8>, args: seq<Arg>,
                       ghost ws: seq<seq<u8>>, ghost st: nat)
    returns (status: nat)
    requires Template(fmt, t) && RunIs(t, 0, args, 0, wf, ws, st)
    modifies w
    ensures var f := Feed(ws, old(w.room));
            status == (if f.ok then st else FMT_WRITE_ERROR) && w.accepted == old(w.accepted) + f.bytes
  {
    ghost var acc0, room0 := w.accepted, w.room;
    ghost var goal := Feed(ws, room0);
    ghost var done: seq<u8> := [];
    ghost var left := ws;
    assert goal == JoinFed(done, goal);
    var buffer := new u8[BUFFER_SIZE];
    var k, a := 0, 0;
    while true
      invariant fresh(buffer) && buffer.Length == BUFFER_SIZE
      invariant RunIs(t, k, args, a, wf, left, st) && Owes(w, goal, acc0, room0, done, left)
      decreases |t| - k
    {
      var q, ok;
      ghost var rest;
      q, ok, rest, done := LiteralRound(w, fmt, t, k, args, a, wf, left, st, goal, acc0, room0, done);
      if !ok {
        return FMT_WRITE_ERROR;
      }
      if fmt[q] == 0 {
        ok := PutLast(w, [0], goal, acc0, room0, done);
        return if ok then FMT_OK else FMT_WRITE_ERROR;
      }
      var r;
      r, ok, left, done := DirectiveRound(w, fmt, t, q, args, a, wf, buffer, rest, st, goal, acc0, room0, done);
      if r.Stop? {
        return r.code;
      }
      if !ok {
        return FMT_WRITE_ERROR;
      }
      k, a := r.k, r.a;
    }
  }
}
