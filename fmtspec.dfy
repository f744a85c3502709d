/** What `c42_write_vfmt` does, as functions of the template, the argument values and
    the width function: the list of writer calls it makes and the code it returns, and
    what a writer that may accept fewer bytes than offered ends up holding. */
module FmtSpec {
  import opened Bytes
  import opened Prim
  import opened Numerals
  import opened Utf8
  import opened CEscape
  import opened Clconv
  import opened EscStream

  /** The return codes `C42_FMT_*`; 0 is success. */
  const FMT_OK: nat := 0
  const FMT_MALFORMED: nat := 1
  const FMT_WIDTH_ERROR: nat := 2
  const FMT_WRITE_ERROR: nat := 3
  const FMT_CONV_ERROR: nat := 4

  const ALIGN_DEFAULT: nat := 0
  const ALIGN_LEFT: nat := 1
  const ALIGN_RIGHT: nat := 2

  const ESC_NONE: nat := 0
  const ESC_C: nat := 1
  const ESC_HEX: nat := 2

  /** The size of the engine's scratch buffer, the size of the `empty_spaces` run (not
      counting its NUL) and `SIZE_MAX`, which as a precision means "none". */
  const BUFFER_SIZE: nat := 0x400
  const SPACES: nat := 64
  const SIZE_MAX: nat := U64_LIMIT - 1

  const DOLLAR: u8 := 36
  const UNDERSCORE: u8 := 95

  /** One argument taken from the `va_list`: a number of the C type the directive letter
      reads, or the memory a string pointer points at. */
  datatype Arg = Num(v: int) | Text(mem: seq<u8>)

  /** `c42_utf8_width_f` with its context: the width of a run of bytes, or a negative
      value for an error. */
  type WidthFn = seq<u8> -> i32

  /** The per-directive variables of the engine: `zero_fill`, `req_width`, `sign_mode`,
      `align_mode`, `esc_mode`, `radix`, `prec`, `num_pfx` (as its bytes), `sep` and
      `group_len`. */
  datatype Mods = Mods(zeroFill: bool, reqWidth: u64, signMode: nat, align: nat, esc: nat,
                       radix: nat, prec: u64, prefix: seq<u8>, sep: u8, group: nat)

  /** What the modifier rounds keep true of these variables: a radix `c42_i64_to_str`
      accepts, a group length and a sign mode that fit its byte-wide parameters, and a
      prefix that is one of the radix letters' strings. */
  predicate ModsOk(m: Mods)
  {
    (m.radix == 0 || 2 <= m.radix <= 36) && m.group < 256 && m.signMode < 256 &&
    m.prefix in {[], [48, 98], [48, 111], [48, 100], [48, 120]}
  }

  /** Their values at the start of each directive. */
  const DEFAULT_MODS: Mods :=
    Mods(false, 0, SIGN_NEG, ALIGN_DEFAULT, ESC_NONE, 0, SIZE_MAX, [], UNDERSCORE, 64)

  /** What a directive emits, with `arg_width`: the bytes it formatted in the scratch
      buffer (`CMD_BUF`), the string it writes as is (`CMD_STR`) or the string it writes
      through a converter (`CMD_CONV`). */
  datatype Content =
    | Buf(bytes: seq<u8>, width: i32)
    | Str(bytes: seq<u8>, width: i32)
    | Conv(input: seq<u8>, esc: nat, width: i32)

  /** One round of the modifier loop: go on at `k`, or the command is set and the
      template goes on at `k`, or the engine returns `code`, or the C behaviour is
      undefined (a missing or mistyped argument, an overrun of memory). */
  datatype Step =
    | Next(k: nat, a: nat, m: Mods)
    | Done(k: nat, a: nat, m: Mods, c: Content)
    | Stop(code: nat)
    | Undef

  // ---------------------------------------------------------------------------
  // Reading the template.

  /** The template byte at `k`; `t` holds the bytes before the NUL, which sits at `|t|`. */
  function At(t: seq<u8>, k: nat): u8
    requires k <= |t|
  {
    if k == |t| then 0 else t[k]
  }

  predicate IsDecDigit(b: u8)
  {
    '0' as int <= b <= '9' as int
  }

  /** The decimal number loop of the width and precision modifiers: `acc * 10 + digit`
      in `size_t` arithmetic while the byte at `k` is a digit; the value and the position
      of the first other byte. */
  function Number(t: seq<u8>, k: nat, acc: u64): (r: (u64, nat))
    requires k <= |t|
    decreases |t| - k
    ensures k <= r.1 <= |t| && !IsDecDigit(At(t, r.1))
    ensures forall j :: k <= j < r.1 ==> IsDecDigit(t[j])
  {
    if IsDecDigit(At(t, k)) then Number(t, k + 1, ToU64(acc * 10 + t[k] - '0' as int)) else (acc, k)
  }

  /** The first `$` at or after `k`, or the end of the template. */
  function Literal(t: seq<u8>, k: nat): (q: nat)
    requires k <= |t|
    decreases |t| - k
    ensures k <= q <= |t| && (q == |t| || t[q] == DOLLAR)
    ensures forall j :: k <= j < q ==> t[j] != DOLLAR
  {
    if k == |t| || t[k] == DOLLAR then k else Literal(t, k + 1)
  }

  // ---------------------------------------------------------------------------
  // The argument letters.

  predicate IsIntLetter(c: u8)
  {
    c in {98, 66, 119, 87, 100, 68, 113, 81, 105, 73, 108, 76, 104, 72, 122, 90, 112, 80}
  }

  /** The range of the C type `va_arg` reads for an integer letter (int 32 bits, long,
      size_t and pointers 64 bits). */
  predicate InVaRange(c: u8, v: int)
  {
    if c in {100, 105} then 0 <= v < U32_LIMIT                    // d i
    else if c in {113, 108, 122, 112} then 0 <= v < U64_LIMIT     // q l z p
    else if c in {81, 76, 90, 80} then I64_MIN <= v <= I64_MAX    // Q L Z P
    else -0x8000_0000 <= v <= I32_MAX                              // b B w W D I h H
  }

  /** The value the integer letters leave in `i64`: the casts of `b`, `B`, `w`, `W`, `h`,
      `H` cut the value to 8 or 16 bits, and the 64-bit unsigned types wrap into int64_t. */
  function Cast(c: u8, v: int): (x: i64)
    requires IsIntLetter(c) && InVaRange(c, v)
  {
    if c == 98 then v % 0x100                                                  // b
    else if c == 66 then (if v % 0x100 < 0x80 then v % 0x100 else v % 0x100 - 0x100)   // B
    else if c in {119, 104} then v % 0x1_0000                                  // w h
    else if c in {87, 72} then
      (if v % 0x1_0000 < 0x8000 then v % 0x1_0000 else v % 0x1_0000 - 0x1_0000)      // W H
    else if c in {113, 108, 122, 112} then ToI64(v)                            // q l z p
    else v
  }

  /** The radix letters set the radix, and the lower-case ones the prefix; `x` and `X`
      also select hex escaping for strings. */
  function RadixMods(c: u8, m: Mods): Mods
  {
    if c == 121 then m.(prefix := [48, 98], radix := 2)                        // y
    else if c == 89 then m.(radix := 2)                                        // Y
    else if c == 111 then m.(prefix := [48, 111], radix := 8)                  // o
    else if c == 79 then m.(radix := 8)                                        // O
    else if c == 110 then m.(prefix := [48, 100], radix := 10)                 // n
    else if c == 78 then m.(radix := 10)                                       // N
    else if c == 120 then m.(prefix := [48, 120], esc := ESC_HEX, radix := 16) // x
    else m.(esc := ESC_HEX, radix := 16)                                       // X
  }

  predicate IsRadixLetter(c: u8)
  {
    c in {121, 89, 111, 79, 110, 78, 120, 88}
  }

  // ---------------------------------------------------------------------------
  // The converters as the engine drives them: whole input, scratch buffer output.

  /** The writes of `c42_clconv_bin_to_hex_line` chunks over `s`, then of the final call. */
  function HexWrites(s: seq<u8>): (ws: seq<seq<u8>>)
    decreases |s|
    ensures |ws| >= 1
  {
    if s == [] then [[]]
    else
      var r := BinToHex(s, BUFFER_SIZE);
      [r.bytes] + HexWrites(s[r.used..])
  }

  /** The writes of `c42_clconv_c_escape` chunks over `s` with `p` in `crt_byte`, then of
      the final call, which flushes the byte held back. */
  function EscWrites(p: Pending, s: seq<u8>): (ws: seq<seq<u8>>)
    decreases |s|
    ensures |ws| >= 1
  {
    if s == [] then [if p == NO_BYTE then [] else HexEscape(p)]
    else
      var r := EscapeChunk(p, s, BUFFER_SIZE);
      ChunkProgress(p, s, BUFFER_SIZE);
      [r.bytes] + EscWrites(r.pending, s[r.used..])
  }

  function ConvWrites(esc: nat, s: seq<u8>): seq<seq<u8>>
  {
    if esc == ESC_HEX then HexWrites(s) else EscWrites(NO_BYTE, s)
  }

  /** With room for four bytes a call with input consumes at least one byte. */
  lemma ChunkProgress(p: Pending, s: seq<u8>, room: nat)
    requires s != [] && room >= 4
    ensures EscapeChunk(p, s, room).used >= 1
  {
    if p >= 0 {
      EscLoopStep(p, s, 0, room);
    }
  }

  /** The width pass: the sum of the widths of `ws` added to `acc` in int32_t arithmetic,
      or None when the width function reports an error. */
  function Measure(ws: seq<seq<u8>>, wf: WidthFn, acc: i32): Option<i32>
  {
    if ws == [] then Some(acc)
    else if wf(ws[0]) < 0 then None
    else Measure(ws[1..], wf, ToI32(acc + wf(ws[0])))
  }

  // ---------------------------------------------------------------------------
  // The modifier loop.

  /** `c`: the code point is encoded in the scratch buffer and measured; left-aligned
      unless an alignment was given. */
  function CharStep(k: nat, args: seq<Arg>, a: nat, m: Mods, wf: WidthFn): (r: Step)
    ensures r.Stop? ==> r.code == FMT_WIDTH_ERROR
    ensures !r.Next? && (r.Done? ==> r.k == k + 1)
  {
    if a >= |args| || !args[a].Num? || !(0 <= args[a].v < U32_LIMIT) then Undef
    else
      var bytes := Encode(args[a].v);
      if wf(bytes) < 0 then Stop(FMT_WIDTH_ERROR)
      else
        var m2 := if m.align == ALIGN_DEFAULT then m.(align := ALIGN_LEFT) else m;
        Done(k + 1, a + 1, m2, Buf(bytes, wf(bytes)))
  }

  /** The sign mode, radix and `c42_i64_to_str` width an integer letter uses. */
  function IntSign(c: u8, m: Mods): nat
  {
    if c == 98 then SIGN_NONE else m.signMode
  }

  function IntRadix(c: u8, m: Mods): Radix
    requires m.radix == 0 || 2 <= m.radix <= 36
  {
    if m.radix != 0 then m.radix else if c == 80 then 16 else 10
  }

  function IntWidth(m: Mods): nat
  {
    if m.zeroFill then m.reqWidth % U32_LIMIT else 1
  }

  /** The integer letters: the value is cast, formatted by `c42_i64_to_str` in the
      scratch buffer and measured; right-aligned unless an alignment was given. A
      rendering `c42_i64_to_str` leaves undefined or that overruns the buffer is
      undefined. */
  function IntStep(c: u8, k: nat, args: seq<Arg>, a: nat, m: Mods, wf: WidthFn): (r: Step)
    requires IsIntLetter(c) && (m.radix == 0 || 2 <= m.radix <= 36)
    ensures r.Stop? ==> r.code == FMT_WIDTH_ERROR
    ensures !r.Next? && (r.Done? ==> r.k == k + 1)
  {
    if a >= |args| || !args[a].Num? || !InVaRange(c, args[a].v) then Undef
    else
      var x := Cast(c, args[a].v);
      var sm := IntSign(c, m);
      if !I64Defined(x, sm, |m.prefix|, IntWidth(m)) then Undef
      else
        var bytes := I64Text(x, sm, IntRadix(c, m), m.prefix, IntWidth(m), m.group, m.sep);
        if |bytes| >= BUFFER_SIZE then Undef
        else if wf(bytes) < 0 then Stop(FMT_WIDTH_ERROR)
        else
          var m2 := if m.align == ALIGN_DEFAULT then m.(align := ALIGN_RIGHT) else m;
          Done(k + 1, a + 1, m2.(signMode := sm), Buf(bytes, wf(bytes)))
  }

  /** `s`: the bytes are the C string, or exactly `prec` bytes when a precision was
      given; reading past the memory the pointer points at is undefined. Without an
      escape the string is measured; with one it is measured through the converter only
      when a width was requested. */
  function StrStep(k: nat, args: seq<Arg>, a: nat, m: Mods, wf: WidthFn): (r: Step)
    ensures r.Stop? ==> r.code == FMT_WIDTH_ERROR
    ensures !r.Next? && (r.Done? ==> r.k == k + 1)
  {
    if a >= |args| || !args[a].Text? then Undef
    else
      var mem := args[a].mem;
      if m.prec == SIZE_MAX && 0 !in mem then Undef
      else if m.prec != SIZE_MAX && m.prec > |mem| then Undef
      else
        var bytes := if m.prec == SIZE_MAX then ZStr(mem) else mem[..m.prec];
        if m.esc == ESC_NONE then
          if wf(bytes) < 0 then Stop(FMT_WIDTH_ERROR) else Done(k + 1, a + 1, m, Str(bytes, wf(bytes)))
        else if m.reqWidth == 0 then Done(k + 1, a + 1, m, Conv(bytes, m.esc, 0))
        else
          match Measure(ConvWrites(m.esc, bytes), wf, 0)
          case None => Stop(FMT_WIDTH_ERROR)
          case Some(w) => Done(k + 1, a + 1, m, Conv(bytes, m.esc, w))
  }

  /** `.`: `*` takes the precision from the arguments, otherwise the digits that follow
      give it (none gives 0). */
  function PrecStep(t: seq<u8>, k: nat, args: seq<Arg>, a: nat, m: Mods): (r: Step)
    requires k < |t|
    ensures r.Next? ==> k < r.k <= |t| && r.a >= a && r.m == m.(prec := r.m.prec)
    ensures !r.Done? && !r.Stop?
  {
    if At(t, k + 1) == 42 then
      if a >= |args| || !args[a].Num? || !(0 <= args[a].v < U64_LIMIT) then Undef
      else Next(k + 2, a + 1, m.(prec := args[a].v))
    else
      var n := Number(t, k + 1, 0);
      Next(n.1, a, m.(prec := n.0))
  }

  /** One round of the modifier loop on the template byte at `k`. */
  function ModStep(t: seq<u8>, k: nat, args: seq<Arg>, a: nat, m: Mods, wf: WidthFn): (r: Step)
    requires k <= |t| && ModsOk(m)
    ensures r.Next? ==> k < r.k <= |t| && ModsOk(r.m)
    ensures r.Done? ==> r.k == k + 1 <= |t|
    ensures r.Stop? ==> r.code in {FMT_MALFORMED, FMT_WIDTH_ERROR}
  {
    var c := At(t, k);
    if c == 48 then Next(k + 1, a, m.(zeroFill := true))                     // 0
    else if IsDecDigit(c) then
      var n := Number(t, k, 0);
      Next(n.1, a, m.(reqWidth := n.0))
    else if c == 99 then CharStep(k, args, a, m, wf)                         // c
    else if IsIntLetter(c) then IntStep(c, k, args, a, m, wf)
    else if IsRadixLetter(c) then Next(k + 1, a, RadixMods(c, m))
    else if c == 115 then StrStep(k, args, a, m, wf)                         // s
    else if c == 46 then PrecStep(t, k, args, a, m)                          // .
    else if c == 60 then Next(k + 1, a, m.(align := ALIGN_LEFT))             // <
    else if c == 62 then Next(k + 1, a, m.(align := ALIGN_RIGHT))            // >
    else if c == 47 then                                                     // /
      if !IsDecDigit(At(t, k + 1)) || At(t, k + 2) == 0 then Stop(FMT_MALFORMED)
      else Next(k + 3, a, m.(group := t[k + 1] - 48, sep := t[k + 2]))
    else if c == 101 then Next(k + 1, a, m.(esc := ESC_C))                   // e
    else Stop(FMT_MALFORMED)
  }

  /** The modifier loop from `k` until a command is set or the engine returns. */
  function Directive(t: seq<u8>, k: nat, args: seq<Arg>, a: nat, m: Mods, wf: WidthFn): (r: Step)
    requires k <= |t| && ModsOk(m)
    decreases |t| - k
    ensures !r.Next?
    ensures r.Done? ==> k < r.k <= |t|
    ensures r.Stop? ==> r.code in {FMT_MALFORMED, FMT_WIDTH_ERROR}
  {
    var s := ModStep(t, k, args, a, m, wf);
    if s.Next? then Directive(t, s.k, args, s.a, s.m, wf) else s
  }

  // ---------------------------------------------------------------------------
  // What a directive writes.

  /** `n` spaces written from `empty_spaces` in calls of at most 64 bytes. */
  function Pad(n: nat): seq<seq<u8>>
    decreases n
  {
    if n == 0 then [] else var c := Min(n, SPACES); [Repeat(SPACE, c)] + Pad(n - c)
  }

  /** The padding `req_width - arg_width`, where `arg_width` is read as `size_t`; none
      when that is not below `req_width`. */
  function PadWidth(req: u64, aw: i32): nat
  {
    var u := if aw < 0 then aw + U64_LIMIT else aw;
    if u < req then req - u else 0
  }

  function ContentWrites(c: Content): seq<seq<u8>>
  {
    match c
    case Buf(b, _) => [b]
    case Str(b, _) => [b]
    case Conv(s, esc, _) => ConvWrites(esc, s)
  }

  /** Padding before the content when right-aligned, the content, padding after it when
      left-aligned. */
  function Emits(m: Mods, c: Content): seq<seq<u8>>
  {
    var pad := Pad(PadWidth(m.reqWidth, c.width));
    (if m.align == ALIGN_RIGHT then pad else []) + ContentWrites(c) + (if m.align == ALIGN_LEFT then pad else [])
  }

  // ---------------------------------------------------------------------------
  // The whole template.

  /** The writer calls made and the code returned, or undefined behaviour. */
  datatype Outcome = Undefined | Out(writes: seq<seq<u8>>, status: nat)

  function Prefix(ws: seq<seq<u8>>, o: Outcome): Outcome
  {
    if o.Undefined? then Undefined else Out(ws + o.writes, o.status)
  }

  /** From template position `k`: the literal run up to the next `$`, written when not
      empty, then what follows it. */
  function Run(t: seq<u8>, k: nat, args: seq<Arg>, a: nat, wf: WidthFn): Outcome
    requires k <= |t|
    decreases |t| - k, 2
  {
    var q := Literal(t, k);
    Prefix(if q > k then [t[k..q]] else [], RunAt(t, q, args, a, wf))
  }

  /** At the end of the template the terminating NUL is written; at a `$` the
      directive is read and written, and the template goes on after it. */
  function RunAt(t: seq<u8>, q: nat, args: seq<Arg>, a: nat, wf: WidthFn): Outcome
    requires q <= |t| && (q == |t| || t[q] == DOLLAR)
    decreases |t| - q, 1
  {
    if q == |t| then Out([[0]], FMT_OK)
    else
      var d := Directive(t, q + 1, args, a, DEFAULT_MODS, wf);
      if d.Stop? then Out([], d.code)
      else if d.Undef? then Undefined
      else Prefix(Emits(d.m, d.c), Run(t, d.k, args, d.a, wf))
  }

  // ---------------------------------------------------------------------------
  // Delivery to a writer that accepts at most `room` more bytes.

  /** What the writer took, and whether every call was accepted in full. */
  datatype Fed = Fed(bytes: seq<u8>, ok: bool)

  /** Each call is made while the previous ones were accepted in full; the first one
      that does not fit is accepted in part and stops the engine. */
  function Feed(ws: seq<seq<u8>>, room: nat): (f: Fed)
    ensures |f.bytes| <= room
  {
    if ws == [] then Fed([], true)
    else if |ws[0]| <= room then
      var r := Feed(ws[1..], room - |ws[0]|);
      Fed(ws[0] + r.bytes, r.ok)
    else Fed(ws[0][..room], false)
  }

  /** The code the engine returns and the bytes the writer took. */
  datatype Effect = Effect(status: nat, bytes: seq<u8>)

  function Deliver(o: Outcome, room: nat): (e: Effect)
    requires o.Out?
    ensures |e.bytes| <= room
  {
    var f := Feed(o.writes, room);
    Effect(if f.ok then o.status else FMT_WRITE_ERROR, f.bytes)
  }

  /** The engine's result for a template `t` (its bytes before the NUL). */
  function Format(t: seq<u8>, args: seq<Arg>, wf: WidthFn): Outcome
  {
    Run(t, 0, args, 0, wf)
  }
}
