/** Machine integer ranges, the digit alphabet and small sequence helpers
    shared by every other module of the model. */
module Bytes {

  /** An optional value, used where the C code takes or returns NULL. */
  datatype Option<T> = None | Some(value: T)

  const U8_LIMIT: int := 0x100
  const U16_LIMIT: int := 0x1_0000
  const U32_LIMIT: int := 0x1_0000_0000
  const U64_LIMIT: int := 0x1_0000_0000_0000_0000
  const I32_MAX: int := 0x7FFF_FFFF
  const I64_MIN: int := -0x8000_0000_0000_0000
  const I64_MAX: int := 0x7FFF_FFFF_FFFF_FFFF

  type u8 = x: int | 0 <= x < 0x100
  type u16 = x: int | 0 <= x < 0x1_0000
  type u32 = x: int | 0 <= x < 0x1_0000_0000
  type u64 = x: int | 0 <= x < 0x1_0000_0000_0000_0000
  type i32 = x: int | -0x8000_0000 <= x < 0x8000_0000
  type i64 = x: int | -0x8000_0000_0000_0000 <= x < 0x8000_0000_0000_0000

  /** Two's-complement reading of the low 64 bits of `x` (a C cast to int64_t). */
  function ToI64(x: int): (r: i64)
    ensures (r - x) % U64_LIMIT == 0
  {
    var m := x % U64_LIMIT;
    if m <= I64_MAX then m else m - U64_LIMIT
  }

  /** The low 64 bits of `x` as an unsigned value (a C cast to uint64_t). */
  function ToU64(x: int): (r: u64)
    ensures (r - x) % U64_LIMIT == 0
  {
    x % U64_LIMIT
  }

  /** Two's-complement reading of the low 32 bits of `x` (int32_t wrap-around). */
  function ToI32(x: int): (r: i32)
    ensures (r - x) % U32_LIMIT == 0
  {
    var m := x % U32_LIMIT;
    if m <= I32_MAX then m else m - U32_LIMIT
  }

  /** `digit_char_table`: the digit alphabet 0-9 followed by A-Z. */
  function DigitChar(d: nat): (c: u8)
    requires d < 36
    ensures d < 10 ==> c == '0' as int + d
    ensures 10 <= d ==> c == 'A' as int + d - 10
  {
    if d < 10 then '0' as int + d else 'A' as int + d - 10
  }

  /** `n` copies of the byte `b`. */
  function Repeat(b: u8, n: nat): (r: seq<u8>)
    ensures |r| == n
    ensures forall i :: 0 <= i < n ==> r[i] == b
  {
    seq(n, _ => b)
  }

  /** The concatenation of a sequence of byte chunks. */
  function Flatten(chunks: seq<seq<u8>>): seq<u8>
  {
    if chunks == [] then [] else chunks[0] + Flatten(chunks[1..])
  }

  lemma {:induction false} FlattenAppend(a: seq<seq<u8>>, b: seq<seq<u8>>)
    ensures Flatten(a + b) == Flatten(a) + Flatten(b)
  {
    if a == [] {
      assert a + b == b;
    } else {
      assert (a + b)[1..] == a[1..] + b;
      FlattenAppend(a[1..], b);
    }
  }

  /** Regrouping a concatenation of three byte runs. */
  lemma {:induction false} ConcatAssoc(a: seq<u8>, b: seq<u8>, c: seq<u8>)
    ensures a + b + c == a + (b + c)
  {
  }

  /** Position of the first NUL byte in `s`, i.e. the length of the C string stored there. */
  function ZLen(s: seq<u8>): (n: nat)
    requires 0 in s
    ensures n < |s| && s[n] == 0
    ensures forall i :: 0 <= i < n ==> s[i] != 0
  {
    if s[0] == 0 then 0 else ZLen(s[1..]) + 1
  }

  /** The bytes of the C string stored at the start of `s`, without its terminator. */
  function ZStr(s: seq<u8>): (r: seq<u8>)
    requires 0 in s
    ensures 0 !in r && r == s[..ZLen(s)]
  {
    s[..ZLen(s)]
  }
}
