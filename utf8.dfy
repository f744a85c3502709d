/** Unicode codecs on UTF-8 (section 3 of RFC 3629): the single code point
    helpers of `c42.h` (`c42_ucp_is_valid`, `c42_ucp_utf8_len`,
    `c42_ucp_to_utf8`, `c42_ucp_from_valid_utf8`), the validator
    `c42_utf8_validate` and the width sum `c42_utf8_term_width`. */
module Utf8 {
  import opened Bytes

  /** `c42_ucp_is_valid`: a Unicode scalar value, i.e. below 0x110000 and not a surrogate. */
  predicate UcpIsValid(ucp: u32)
  {
    ucp < 0xD800 || (0xE000 <= ucp < 0x110000)
  }

  /** A UTF-16 surrogate code point. */
  predicate IsSurrogate(ucp: int)
  {
    0xD800 <= ucp < 0xE000
  }

  /** The code points `c42_utf8_validate` lets through: anything the four-byte form can
      carry (below 0x200000) except surrogates. */
  predicate Acceptable(ucp: u32)
  {
    ucp < 0x200000 && !IsSurrogate(ucp)
  }

  /** `c42_ucp_utf8_len`: the length of the encoding of `ucp`. */
  function Utf8Len(ucp: u32): (n: nat)
    ensures 1 <= n <= 4
  {
    if ucp < 0x80 then 1 else if ucp < 0x800 then 2 else if ucp < 0x10000 then 3 else 4
  }

  /** A continuation byte `10xxxxxx` carrying the low six bits of `x`. */
  function Cont(x: nat): u8
  {
    0x80 + x % 0x40
  }

  /** The bytes `c42_ucp_to_utf8` writes for `ucp`. Below 0x10000 the lead is the marker
      plus the high bits, which do not overlap it; in the four-byte case the lead is
      `0xF0 | (ucp >> 18)` stored in a byte, which keeps the low four bits of `ucp >> 18`. */
  function Encode(ucp: u32): (e: seq<u8>)
    ensures |e| == Utf8Len(ucp)
  {
    if ucp < 0x80 then [ucp]
    else if ucp < 0x800 then [0xC0 + ucp / 0x40, Cont(ucp)]
    else if ucp < 0x10000 then [0xE0 + ucp / 0x1000, Cont(ucp / 0x40), Cont(ucp)]
    else [0xF0 + (ucp / 0x40000) % 0x10, Cont(ucp / 0x1000), Cont(ucp / 0x40), Cont(ucp)]
  }

  /** A byte of the form `10xxxxxx`, i.e. `(b & 0xC0) == 0x80`. */
  predicate IsCont(b: u8)
  {
    0x80 <= b < 0xC0
  }

  /** The lead byte pattern of an `n`-byte sequence: `0xxxxxxx`, `110xxxxx`,
      `1110xxxx` or `11110xxx`. */
  predicate LeadOf(n: nat, b: u8)
  {
    (n == 1 && b < 0x80) || (n == 2 && 0xC0 <= b < 0xE0) ||
    (n == 3 && 0xE0 <= b < 0xF0) || (n == 4 && 0xF0 <= b < 0xF8)
  }

  /** The shape of an encoding: the lead announces the length, every other byte is a
      continuation byte. */
  lemma EncodeShape(ucp: u32)
    requires ucp < 0x200000
    ensures LeadOf(|Encode(ucp)|, Encode(ucp)[0])
    ensures forall k :: 1 <= k < |Encode(ucp)| ==> IsCont(Encode(ucp)[k])
  {
  }

  /** The payload of a continuation byte, `b & 0x3F`. */
  function Bits6(b: u8): (x: nat)
    ensures x < 0x40
  {
    b % 0x40
  }

  /** The number of bytes `c42_ucp_from_valid_utf8` consumes after the lead `b`. */
  function SeqLen(b: u8): (n: nat)
    ensures 1 <= n <= 4
  {
    if b < 0x80 then 1 else if b < 0xE0 then 2 else if b < 0xF0 then 3 else 4
  }

  /** The code point `c42_ucp_from_valid_utf8` assembles from the sequence at the start
      of `s`: the payload bits of the lead (5, 4 or 3 of them) followed by six bits from
      each continuation byte. */
  function Decode(s: seq<u8>): (ucp: u32)
    requires |s| > 0 && SeqLen(s[0]) <= |s|
    ensures ucp < 0x200000
  {
    var b: int := s[0];
    if b < 0x80 then b
    else if b < 0xE0 then (b % 0x20) * 0x40 + Bits6(s[1])
    else if b < 0xF0 then (b % 0x10) * 0x1000 + Bits6(s[1]) * 0x40 + Bits6(s[2])
    else (b % 8) * 0x40000 + Bits6(s[1]) * 0x1000 + Bits6(s[2]) * 0x40 + Bits6(s[3])
  }

  /** The two-byte form, from its payload: five high bits (at least 2, or the value
      would fit one byte) and six low bits. */
  lemma Encode2(hi: nat, lo: nat)
    requires 2 <= hi < 0x20 && lo < 0x40
    ensures Utf8Len(hi * 0x40 + lo) == 2
    ensures Encode(hi * 0x40 + lo) == [0xC0 + hi, 0x80 + lo]
  {
    var u := hi * 0x40 + lo;
    assert u / 0x40 == hi && u % 0x40 == lo;
  }

  /** The three-byte form, from four high bits and two six-bit groups. */
  lemma Encode3(hi: nat, mid: nat, lo: nat)
    requires hi < 0x10 && mid < 0x40 && lo < 0x40 && hi * 0x1000 + mid * 0x40 + lo >= 0x800
    ensures Utf8Len(hi * 0x1000 + mid * 0x40 + lo) == 3
    ensures Encode(hi * 0x1000 + mid * 0x40 + lo) == [0xE0 + hi, 0x80 + mid, 0x80 + lo]
  {
    var u := hi * 0x1000 + mid * 0x40 + lo;
    assert u / 0x1000 == hi;
    assert u / 0x40 == hi * 0x40 + mid && (u / 0x40) % 0x40 == mid;
    assert u % 0x40 == lo;
  }

  /** The four-byte form, from three high bits and three six-bit groups. */
  lemma Encode4(hi: nat, a: nat, b: nat, c: nat)
    requires hi < 8 && a < 0x40 && b < 0x40 && c < 0x40
    requires hi * 0x40000 + a * 0x1000 + b * 0x40 + c >= 0x10000
    ensures Utf8Len(hi * 0x40000 + a * 0x1000 + b * 0x40 + c) == 4
    ensures Encode(hi * 0x40000 + a * 0x1000 + b * 0x40 + c) == [0xF0 + hi, 0x80 + a, 0x80 + b, 0x80 + c]
  {
    var u := hi * 0x40000 + a * 0x1000 + b * 0x40 + c;
    assert u / 0x40000 == hi && (u / 0x40000) % 0x10 == hi;
    assert u / 0x1000 == hi * 0x40 + a && (u / 0x1000) % 0x40 == a;
    assert u / 0x40 == hi * 0x1000 + a * 0x40 + b && (u / 0x40) % 0x40 == b;
    assert u % 0x40 == c;
  }

  /** Decoding undoes encoding for every code point the four-byte form can carry, and
      consumes exactly the bytes the encoder wrote, whatever follows them. */
  lemma DecodeEncode(ucp: u32, rest: seq<u8>)
    requires ucp < 0x200000
    ensures SeqLen(Encode(ucp)[0]) == |Encode(ucp)|
    ensures Decode(Encode(ucp) + rest) == ucp
  {
    if ucp < 0x80 {
    } else if ucp < 0x800 {
      DecodeEncode2(ucp, rest);
    } else if ucp < 0x10000 {
      DecodeEncode3(ucp, rest);
    } else {
      DecodeEncode4(ucp, rest);
    }
  }

  lemma DecodeEncode2(ucp: u32, rest: seq<u8>)
    requires 0x80 <= ucp < 0x800
    ensures SeqLen(Encode(ucp)[0]) == 2
    ensures Decode(Encode(ucp) + rest) == ucp
  {
    var e := Encode(ucp) + rest;
    var hi, lo := ucp / 0x40, ucp % 0x40;
    Encode2(hi, lo);
    assert e[0] == 0xC0 + hi && e[1] == 0x80 + lo;
    assert e[0] % 0x20 == hi && Bits6(e[1]) == lo;
  }

  lemma DecodeEncode3(ucp: u32, rest: seq<u8>)
    requires 0x800 <= ucp < 0x10000
    ensures SeqLen(Encode(ucp)[0]) == 3
    ensures Decode(Encode(ucp) + rest) == ucp
  {
    var e := Encode(ucp) + rest;
    var hi, mid, lo := ucp / 0x1000, (ucp / 0x40) % 0x40, ucp % 0x40;
    assert ucp == hi * 0x1000 + mid * 0x40 + lo;
    Encode3(hi, mid, lo);
    assert e[0] == 0xE0 + hi && e[1] == 0x80 + mid && e[2] == 0x80 + lo;
    assert e[0] % 0x10 == hi && Bits6(e[1]) == mid && Bits6(e[2]) == lo;
  }

  /** The lead bits and the three six-bit groups of a four-byte code point. */
  lemma Groups4(ucp: u32) returns (hi: nat, a: nat, b: nat, c: nat)
    requires 0x10000 <= ucp < 0x200000
    ensures hi < 8 && a < 0x40 && b < 0x40 && c < 0x40
    ensures ucp == hi * 0x40000 + a * 0x1000 + b * 0x40 + c
  {
    var q1 := ucp / 0x40;
    c := ucp % 0x40;
    var q2 := q1 / 0x40;
    b := q1 % 0x40;
    hi, a := q2 / 0x40, q2 % 0x40;
    assert ucp == q1 * 0x40 + c && q1 == q2 * 0x40 + b && q2 == hi * 0x40 + a;
  }

  lemma DecodeEncode4(ucp: u32, rest: seq<u8>)
    requires 0x10000 <= ucp < 0x200000
    ensures SeqLen(Encode(ucp)[0]) == 4
    ensures Decode(Encode(ucp) + rest) == ucp
  {
    var e := Encode(ucp) + rest;
    var hi, a, b, c := Groups4(ucp);
    Encode4(hi, a, b, c);
    assert e[0] == 0xF0 + hi && e[1] == 0x80 + a && e[2] == 0x80 + b && e[3] == 0x80 + c;
    assert e[0] % 8 == hi && Bits6(e[1]) == a && Bits6(e[2]) == b && Bits6(e[3]) == c;
  }

  /** `c42_ucp_to_utf8`: writes the encoding of `ucp` at `out[at]` and returns its length. */
  method UcpToUtf8(out: array<u8>, at: nat, ucp: u32) returns (n: nat)
    requires at + Utf8Len(ucp) <= out.Length
    modifies out
    ensures n == Utf8Len(ucp) && out[at..at + n] == Encode(ucp)
    ensures out[..at] == old(out[..at]) && out[at + n..] == old(out[at + n..])
  {
    if ucp < 0x80 {
      out[at] := ucp;
      return 1;
    }
    if ucp < 0x800 {
      out[at] := 0xC0 + ucp / 0x40;
      out[at + 1] := 0x80 + ucp % 0x40;
      return 2;
    }
    if ucp < 0x10000 {
      out[at] := 0xE0 + ucp / 0x1000;
      out[at + 1] := 0x80 + (ucp / 0x40) % 0x40;
      out[at + 2] := 0x80 + ucp % 0x40;
      return 3;
    }
    out[at] := 0xF0 + (ucp / 0x40000) % 0x10;
    out[at + 1] := 0x80 + (ucp / 0x1000) % 0x40;
    out[at + 2] := 0x80 + (ucp / 0x40) % 0x40;
    out[at + 3] := 0x80 + ucp % 0x40;
    n := 4;
  }

  /** `c42_ucp_from_valid_utf8`: decodes the sequence at `data[at]`; `next` is the
      advanced read position. */
  method UcpFromValidUtf8(data: array<u8>, at: nat) returns (ucp: u32, next: nat)
    requires at < data.Length && at + SeqLen(data[at]) <= data.Length
    ensures next == at + SeqLen(data[at])
    ensures ucp == Decode(data[at..next])
  {
    var b := data[at];
    next := at + 1;
    var u: int := b;
    if b < 0x80 {
    } else if b < 0xE0 {
      u := (u % 0x20) * 0x40;
      u := u + data[next] % 0x40;
      next := next + 1;
    } else if b < 0xF0 {
      u := (u % 0x10) * 0x1000;
      u := u + (data[next] as int % 0x40) * 0x40;
      u := u + data[next + 1] % 0x40;
      next := next + 2;
    } else {
      u := (u % 8) * 0x40000;
      u := u + (data[next] as int % 0x40) * 0x1000;
      u := u + (data[next + 1] as int % 0x40) * 0x40;
      u := u + data[next + 2] % 0x40;
      next := next + 3;
    }
    ucp := u;
  }

  // ---------------------------------------------------------------------------
  // Sequences of code points.

  /** The encodings of `us`, one after the other. */
  function EncodeAll(us: seq<u32>): seq<u8>
  {
    if us == [] then [] else Encode(us[0]) + EncodeAll(us[1..])
  }

  /** The code points of `s`, decoded sequence after sequence from the start, as far as
      the sequences are complete. */
  function DecodeAll(s: seq<u8>): seq<u32>
    decreases |s|
  {
    if s == [] || SeqLen(s[0]) > |s| then [] else [Decode(s)] + DecodeAll(s[SeqLen(s[0])..])
  }

  /** `s` splits into complete sequences by their lead bytes, the condition under which
      the decoding loop of `c42_utf8_term_width` lands exactly on the end. */
  predicate Whole(s: seq<u8>)
    decreases |s|
  {
    s == [] || (SeqLen(s[0]) <= |s| && Whole(s[SeqLen(s[0])..]))
  }

  /** Decoding a concatenation of encodings gives back the code points. */
  lemma {:induction false} DecodeAllEncodeAll(us: seq<u32>)
    requires forall k :: 0 <= k < |us| ==> us[k] < 0x200000
    ensures Whole(EncodeAll(us)) && DecodeAll(EncodeAll(us)) == us
  {
    if us != [] {
      var e := Encode(us[0]);
      var rest := EncodeAll(us[1..]);
      DecodeEncode(us[0], rest);
      assert (e + rest)[0] == e[0];
      assert (e + rest)[|e|..] == rest;
      DecodeAllEncodeAll(us[1..]);
    }
  }

  // ---------------------------------------------------------------------------
  // Validation.

  const UTF8_VALID: nat := 0
  const UTF8_UNTERMINATED: nat := 1
  const UTF8_BAD_START: nat := 2
  const UTF8_BAD_CONT: nat := 3
  const UTF8_SURROGATE: nat := 4
  const UTF8_OVERLONG: nat := 5

  /** A validator's verdict: the status code and the length accepted before the
      offending sequence. */
  datatype Verdict = Verdict(status: nat, okLen: nat)

  /** One round of the loop of `c42_utf8_validate` on the sequence whose lead is
      `mem[i]`: `(0, size)` when the sequence is accepted, `(code, 0)` otherwise. The
      checks come in the order of the C: lead range, continuation bits, then the
      overlong and surrogate tests; a lead from 0xF8 up is a bad start. */
  function Step(mem: seq<u8>, i: nat): (r: (nat, nat))
    requires i + 4 <= |mem|
    ensures r.0 in {UTF8_VALID, UTF8_BAD_START, UTF8_BAD_CONT, UTF8_SURROGATE, UTF8_OVERLONG}
    ensures r.0 == UTF8_VALID <==> 1 <= r.1 <= 4
  {
    var b := mem[i];
    if b < 0x80 then (UTF8_VALID, 1)
    else if b < 0xC0 then (UTF8_BAD_START, 0)
    else if b < 0xE0 then
      if !IsCont(mem[i + 1]) then (UTF8_BAD_CONT, 0)
      else if b < 0xC2 then (UTF8_OVERLONG, 0)
      else (UTF8_VALID, 2)
    else if b < 0xF0 then
      if !IsCont(mem[i + 1]) || !IsCont(mem[i + 2]) then (UTF8_BAD_CONT, 0)
      else if b == 0xE0 && mem[i + 1] < 0xA0 then (UTF8_OVERLONG, 0)
      else if b == 0xED && mem[i + 1] >= 0xA0 then (UTF8_SURROGATE, 0)
      else (UTF8_VALID, 3)
    else if b < 0xF8 then
      if !IsCont(mem[i + 1]) || !IsCont(mem[i + 2]) || !IsCont(mem[i + 3]) then (UTF8_BAD_CONT, 0)
      else if b == 0xF0 && mem[i + 1] < 0x90 then (UTF8_OVERLONG, 0)
      else (UTF8_VALID, 4)
    else (UTF8_BAD_START, 0)
  }

  /** `c42_utf8_validate` on the first `len` bytes of `mem`, from the sequence at `i`.
      `mem` is the memory the C may read: it looks at up to three bytes past a lead
      without comparing them with the end, so it reads up to three bytes past `len`. */
  function ValidateFrom(mem: seq<u8>, len: nat, i: nat): (r: Verdict)
    requires len + 3 <= |mem| && i <= len + 3
    ensures i <= len ==> i <= r.okLen <= len
    decreases if i < len then len - i else 0
  {
    if i >= len then Verdict(UTF8_VALID, len)
    else
      var (status, size) := Step(mem, i);
      if status != UTF8_VALID then Verdict(status, i) else ValidateFrom(mem, len, i + size)
  }

  /** `c42_utf8_validate` as written. */
  function Validate(mem: seq<u8>, len: nat): Verdict
    requires len + 3 <= |mem|
  {
    ValidateFrom(mem, len, 0)
  }

  /** The codes and lengths the validator reports: never the documented code 1; status 0
      with the whole length, or an error code with the length of the accepted part. */
  lemma {:induction false} ValidateFromCodes(mem: seq<u8>, len: nat, i: nat)
    requires len + 3 <= |mem| && i <= len
    ensures ValidateFrom(mem, len, i).status in
              {UTF8_VALID, UTF8_BAD_START, UTF8_BAD_CONT, UTF8_SURROGATE, UTF8_OVERLONG}
    ensures ValidateFrom(mem, len, i).status == UTF8_VALID <==> ValidateFrom(mem, len, i).okLen == len
    ensures i <= ValidateFrom(mem, len, i).okLen <= len
    decreases len - i
  {
    if i < len {
      var (status, size) := Step(mem, i);
      if status == UTF8_VALID && i + size <= len {
        ValidateFromCodes(mem, len, i + size);
      }
    }
  }

  lemma ValidateCodes(mem: seq<u8>, len: nat)
    requires len + 3 <= |mem|
    ensures Validate(mem, len).status != UTF8_UNTERMINATED
    ensures Validate(mem, len).status == UTF8_VALID <==> Validate(mem, len).okLen == len
    ensures Validate(mem, len).okLen <= len
  {
    ValidateFromCodes(mem, len, 0);
  }

  /** The part accepted before an error validates on its own. */
  lemma {:induction false} ValidateFromPrefix(mem: seq<u8>, len: nat, i: nat)
    requires len + 3 <= |mem| && i <= len
    requires ValidateFrom(mem, len, i).status != UTF8_VALID
    ensures ValidateFrom(mem, ValidateFrom(mem, len, i).okLen, i) ==
            Verdict(UTF8_VALID, ValidateFrom(mem, len, i).okLen)
    decreases len - i
  {
    var (status, size) := Step(mem, i);
    if status == UTF8_VALID {
      ValidateFromCodes(mem, len, i + size);
      ValidateFromPrefix(mem, len, i + size);
    }
  }

  lemma ValidatePrefix(mem: seq<u8>, len: nat)
    requires len + 3 <= |mem|
    requires Validate(mem, len).status != UTF8_VALID
    ensures Validate(mem, Validate(mem, len).okLen) == Verdict(UTF8_VALID, Validate(mem, len).okLen)
  {
    ValidateFromPrefix(mem, len, 0);
  }

  /** The method form of `c42_utf8_validate`, over the array the caller passes (which
      holds the three bytes the C may read past `len`). */
  method Utf8Validate(data: array<u8>, len: nat) returns (status: nat, okLen: nat)
    requires len + 3 <= data.Length
    ensures Verdict(status, okLen) == Validate(data[..], len)
  {
    var i := 0;
    while i < len
      invariant i <= len + 3
      invariant ValidateFrom(data[..], len, i) == Validate(data[..], len)
      decreases len - i
    {
      var b := data[i];
      if b < 0x80 {
        i := i + 1;
        continue;
      }
      if b < 0xC0 {
        return UTF8_BAD_START, i;
      }
      if b < 0xE0 {
        if data[i + 1] / 0x40 != 2 {
          return UTF8_BAD_CONT, i;
        }
        if b < 0xC2 {
          return UTF8_OVERLONG, i;
        }
        i := i + 2;
        continue;
      }
      if b < 0xF0 {
        if data[i + 1] / 0x40 != 2 || data[i + 2] / 0x40 != 2 {
          return UTF8_BAD_CONT, i;
        }
        if b == 0xE0 && data[i + 1] < 0xA0 {
          return UTF8_OVERLONG, i;
        }
        if b == 0xED && data[i + 1] >= 0xA0 {
          return UTF8_SURROGATE, i;
        }
        i := i + 3;
        continue;
      }
      if b < 0xF8 {
        if data[i + 1] / 0x40 != 2 || data[i + 2] / 0x40 != 2 || data[i + 3] / 0x40 != 2 {
          return UTF8_BAD_CONT, i;
        }
        if b == 0xF0 && data[i + 1] < 0x90 {
          return UTF8_OVERLONG, i;
        }
        i := i + 4;
        continue;
      }
      return UTF8_BAD_START, i;
    }
    status, okLen := UTF8_VALID, len;
  }

  /** Leads 0xF5 to 0xF7 (and 0xF4 with a second byte from 0x90) pass, although they
      stand for values above 0x10FFFF, which are not Unicode code points. */
  lemma ValidateAcceptsBeyondUnicode()
    ensures Validate([0xF5, 0x80, 0x80, 0x80, 0, 0, 0], 4) == Verdict(UTF8_VALID, 4)
    ensures !UcpIsValid(Decode([0xF5, 0x80, 0x80, 0x80]))
  {
  }

  /** A surrogate code point, which the encoder turns into an 0xED sequence, is refused
      with code 4. */
  lemma ValidateRefusesSurrogates(ucp: u32, pad: seq<u8>)
    requires IsSurrogate(ucp) && |pad| == 3
    ensures Validate(Encode(ucp) + pad, 3) == Verdict(UTF8_SURROGATE, 0)
  {
    var m := Encode(ucp) + pad;
    assert m[0] == 0xED && m[1] >= 0xA0;
    assert Step(m, 0) == (UTF8_SURROGATE, 0);
  }

  /** As written, the validator accepts a sequence cut short by the end of the input
      when the memory after the end happens to hold continuation bytes: the single byte
      0xC3 is reported valid when 0xA9 follows it in memory. The corrected validator
      reports it unterminated (code 1) with nothing accepted. */
  lemma ValidateReadsPastEnd()
    ensures Validate([0xC3, 0xA9, 0, 0], 1) == Verdict(UTF8_VALID, 1)
    ensures ValidateFixed([0xC3]) == Verdict(UTF8_UNTERMINATED, 0)
  {
    assert Step([0xC3, 0xA9, 0, 0], 0) == (UTF8_VALID, 2);
  }

  // ---------------------------------------------------------------------------
  // The corrected validator: a sequence that does not fit before the end is
  // reported as unterminated (code 1) instead of being read past the end.

  /** The length a lead byte announces, as the validator reads it (leads that the
      validator refuses outright count as one byte). */
  function Announced(b: u8): nat
  {
    if 0xC0 <= b < 0xE0 then 2 else if 0xE0 <= b < 0xF0 then 3 else if 0xF0 <= b < 0xF8 then 4 else 1
  }

  /** One round of the corrected validator on the sequence at the start of `s`. */
  function StepFixed(s: seq<u8>): (r: (nat, nat))
    requires s != []
    ensures r.0 == UTF8_VALID ==> 1 <= r.1 <= |s|
  {
    if Announced(s[0]) > |s| then (UTF8_UNTERMINATED, 0)
    else Step(s + [0, 0, 0], 0)
  }

  /** The corrected validator on the whole of `s`, reading nothing past its end. */
  function ValidateFixed(s: seq<u8>): (r: Verdict)
    ensures r.okLen <= |s|
    decreases |s|
  {
    if s == [] then Verdict(UTF8_VALID, 0)
    else
      var (status, size) := StepFixed(s);
      if status != UTF8_VALID then Verdict(status, 0)
      else
        var v := ValidateFixed(s[size..]);
        Verdict(v.status, size + v.okLen)
  }

  /** One complete sequence accepted by the validator is the encoding of an acceptable
      code point: the validator's checks are exactly those that make re-encoding the
      decoded value give back the same bytes. */
  lemma AcceptedSequence(s: seq<u8>)
    requires s != [] && StepFixed(s).0 == UTF8_VALID
    ensures SeqLen(s[0]) == StepFixed(s).1
    ensures Acceptable(Decode(s)) && Encode(Decode(s)) == s[..StepFixed(s).1]
  {
    var m := s + [0, 0, 0];
    var b := s[0];
    assert m[0] == b;
    if b < 0x80 {
      assert s[..1] == [b];
    } else if b < 0xE0 {
      assert m[1] == s[1];
      AcceptedSequence2(b, s[1]);
      assert s[..2] == [b, s[1]];
    } else if b < 0xF0 {
      assert m[1] == s[1] && m[2] == s[2];
      AcceptedSequence3(b, s[1], s[2]);
      assert s[..3] == [b, s[1], s[2]];
    } else {
      assert m[1] == s[1] && m[2] == s[2] && m[3] == s[3];
      AcceptedSequence4(b, s[1], s[2], s[3]);
      assert s[..4] == [b, s[1], s[2], s[3]];
    }
  }

  lemma AcceptedSequence2(b: u8, c1: u8)
    requires 0xC2 <= b < 0xE0 && IsCont(c1)
    ensures Acceptable(Decode([b, c1])) && Encode(Decode([b, c1])) == [b, c1]
  {
    assert Decode([b, c1]) == (b - 0xC0) * 0x40 + (c1 - 0x80);
    Encode2(b - 0xC0, c1 - 0x80);
  }

  lemma AcceptedSequence3(b: u8, c1: u8, c2: u8)
    requires 0xE0 <= b < 0xF0 && IsCont(c1) && IsCont(c2)
    requires !(b == 0xE0 && c1 < 0xA0) && !(b == 0xED && c1 >= 0xA0)
    ensures Acceptable(Decode([b, c1, c2])) && Encode(Decode([b, c1, c2])) == [b, c1, c2]
  {
    var u := (b - 0xE0) * 0x1000 + (c1 - 0x80) * 0x40 + (c2 - 0x80);
    assert Decode([b, c1, c2]) == u;
    Encode3(b - 0xE0, c1 - 0x80, c2 - 0x80);
  }

  lemma AcceptedSequence4(b: u8, c1: u8, c2: u8, c3: u8)
    requires 0xF0 <= b < 0xF8 && IsCont(c1) && IsCont(c2) && IsCont(c3)
    requires !(b == 0xF0 && c1 < 0x90)
    ensures Acceptable(Decode([b, c1, c2, c3])) && Encode(Decode([b, c1, c2, c3])) == [b, c1, c2, c3]
  {
    var u := (b - 0xF0) * 0x40000 + (c1 - 0x80) * 0x1000 + (c2 - 0x80) * 0x40 + (c3 - 0x80);
    assert Decode([b, c1, c2, c3]) == u;
    Encode4(b - 0xF0, c1 - 0x80, c2 - 0x80, c3 - 0x80);
  }

  /** Everything the corrected validator accepts is a concatenation of encodings of
      acceptable code points, namely those `DecodeAll` reads. */
  lemma {:induction false} ValidateFixedSound(s: seq<u8>)
    requires ValidateFixed(s).status == UTF8_VALID
    ensures forall k :: 0 <= k < |DecodeAll(s)| ==> Acceptable(DecodeAll(s)[k])
    ensures EncodeAll(DecodeAll(s)) == s
    decreases |s|
  {
    if s != [] {
      var n := StepFixed(s).1;
      AcceptedSequence(s);
      var d := Decode(s);
      var ds := DecodeAll(s[n..]);
      assert DecodeAll(s) == [d] + ds;
      ValidateFixedSound(s[n..]);
      assert ([d] + ds)[1..] == ds;
      assert EncodeAll([d] + ds) == Encode(d) + EncodeAll(ds);
      assert s == s[..n] + s[n..];
    }
  }

  /** ... and accepts every such concatenation. */
  lemma {:induction false} ValidateFixedComplete(us: seq<u32>)
    requires forall k :: 0 <= k < |us| ==> Acceptable(us[k])
    ensures ValidateFixed(EncodeAll(us)) == Verdict(UTF8_VALID, |EncodeAll(us)|)
  {
    if us != [] {
      var e := Encode(us[0]);
      var rest := EncodeAll(us[1..]);
      EncodedStepAccepted(us[0], rest);
      assert (e + rest)[|e|..] == rest;
      ValidateFixedComplete(us[1..]);
    }
  }

  /** Prepending the encoding of an acceptable code point leaves the verdict on what
      follows unchanged, apart from the accepted length. */
  lemma ValidateFixedCons(ucp: u32, rest: seq<u8>)
    requires Acceptable(ucp)
    ensures ValidateFixed(Encode(ucp) + rest) ==
            Verdict(ValidateFixed(rest).status, |Encode(ucp)| + ValidateFixed(rest).okLen)
  {
    var e := Encode(ucp);
    EncodedStepAccepted(ucp, rest);
    assert (e + rest)[|e|..] == rest;
  }

  /** The corrected validator accepts the encoding of an acceptable code point in one
      round, whatever follows it. */
  lemma EncodedStepAccepted(ucp: u32, rest: seq<u8>)
    requires Acceptable(ucp)
    ensures StepFixed(Encode(ucp) + rest) == (UTF8_VALID, |Encode(ucp)|)
  {
    var e := Encode(ucp);
    var m := e + rest + [0, 0, 0];
    EncodeShape(ucp);
    assert m[0] == e[0];
    if |e| >= 2 {
      assert m[1] == e[1];
    }
    if |e| >= 3 {
      assert m[2] == e[2];
    }
    if |e| == 4 {
      assert m[3] == e[3];
    }
  }

  /** The corrected validator agrees with the one as written on every input that does
      not end inside a sequence. */
  lemma {:induction false} FixedAgrees(mem: seq<u8>, len: nat, i: nat)
    requires len + 3 <= |mem| && i <= len
    requires ValidateFixed(mem[i..len]).status != UTF8_UNTERMINATED
    ensures ValidateFrom(mem, len, i) ==
            Verdict(ValidateFixed(mem[i..len]).status, i + ValidateFixed(mem[i..len]).okLen)
    decreases len - i
  {
    if i < len {
      var status, size := RoundAgrees(mem, len, i);
      if status == UTF8_VALID {
        FixedAgrees(mem, len, i + size);
      }
    }
  }

  /** One round of both validators at `i`, where the corrected one does not find the
      input cut short: both report the same status, and on success both go on at the
      same position. */
  lemma RoundAgrees(mem: seq<u8>, len: nat, i: nat) returns (status: nat, size: nat)
    requires len + 3 <= |mem| && i < len
    requires ValidateFixed(mem[i..len]).status != UTF8_UNTERMINATED
    ensures status != UTF8_VALID ==>
              ValidateFrom(mem, len, i) == Verdict(status, i) && ValidateFixed(mem[i..len]) == Verdict(status, 0)
    ensures status == UTF8_VALID ==> 1 <= size && i + size <= len
    ensures status == UTF8_VALID ==> ValidateFrom(mem, len, i) == ValidateFrom(mem, len, i + size)
    ensures status == UTF8_VALID ==>
              ValidateFixed(mem[i..len]) ==
              Verdict(ValidateFixed(mem[i + size..len]).status, size + ValidateFixed(mem[i + size..len]).okLen)
  {
    var t := mem[i..len];
    status, size := StepFixed(t).0, StepFixed(t).1;
    StepAgrees(mem, len, i);
    if status == UTF8_VALID {
      assert t[size..] == mem[i + size..len];
    }
  }

  /** Where the sequence fits before the end, both validators read the same bytes. */
  lemma StepAgrees(mem: seq<u8>, len: nat, i: nat)
    requires len + 3 <= |mem| && i < len
    requires StepFixed(mem[i..len]).0 != UTF8_UNTERMINATED
    ensures StepFixed(mem[i..len]) == Step(mem, i)
  {
    var t := mem[i..len];
    var m := t + [0, 0, 0];
    assert i + Announced(t[0]) <= len;
    assert m[0] == mem[i];
    if 0xC0 <= mem[i] < 0xF8 {
      assert m[1] == mem[i + 1];
      if mem[i] >= 0xE0 {
        assert m[2] == mem[i + 2];
      }
      if mem[i] >= 0xF0 {
        assert m[3] == mem[i + 3];
      }
    }
  }

  // ---------------------------------------------------------------------------
  // Terminal width.

  /** A per-code-point terminal width as `c42_ucp_term_width` returns it: -1 for a
      control code point, else 0, 1 or 2 columns. */
  type Width = w: int | -1 <= w <= 2

  /** The sum of the widths of `us`, in exact arithmetic. */
  function SumWidth(us: seq<u32>, width: u32 -> Width): int
  {
    if us == [] then 0 else width(us[0]) + SumWidth(us[1..], width)
  }

  /** No code point of `us` has a negative width. */
  predicate AllPrintable(us: seq<u32>, width: u32 -> Width)
  {
    forall k :: 0 <= k < |us| ==> width(us[k]) >= 0
  }

  /** The loop of `c42_utf8_term_width` from running total `w`: -1 at the first code point
      of negative width, -2 when the int32 total wraps negative, else the total. */
  function WidthFrom(us: seq<u32>, width: u32 -> Width, w: i32): i32
  {
    if us == [] then w
    else
      var cw := width(us[0]);
      if cw < 0 then -1
      else
        var w2 := ToI32(w + cw);
        if w2 < 0 then -2 else WidthFrom(us[1..], width, w2)
  }

  /** What the width sum means: the exact sum when every width is non-negative and the
      sum fits in int32, -2 when it does not fit, and a negative code when some code
      point has no width. */
  lemma {:induction false} WidthFromMeaning(us: seq<u32>, width: u32 -> Width, w: i32)
    requires w >= 0
    ensures AllPrintable(us, width) && w + SumWidth(us, width) <= I32_MAX ==>
              WidthFrom(us, width, w) == w + SumWidth(us, width)
    ensures AllPrintable(us, width) && w + SumWidth(us, width) > I32_MAX ==> WidthFrom(us, width, w) == -2
    ensures !AllPrintable(us, width) ==> WidthFrom(us, width, w) < 0
    ensures WidthFrom(us, width, w) >= -2
  {
    if us != [] {
      var cw := width(us[0]);
      if cw >= 0 {
        var w2 := ToI32(w + cw);
        if w + cw <= I32_MAX {
          assert w2 == w + cw;
          WidthFromMeaning(us[1..], width, w2);
          if !AllPrintable(us, width) {
            var k :| 0 <= k < |us| && width(us[k]) < 0;
            assert width(us[1..][k - 1]) < 0;
          }
          if AllPrintable(us, width) {
            assert forall k :: 0 <= k < |us[1..]| ==> width(us[1..][k]) == width(us[k + 1]);
          }
        } else {
          assert w2 == w + cw - U32_LIMIT;
          if AllPrintable(us, width) {
            assert forall k :: 0 <= k < |us[1..]| ==> width(us[1..][k]) == width(us[k + 1]);
            SumWidthNonneg(us[1..], width);
          }
        }
      }
    }
  }

  lemma {:induction false} SumWidthNonneg(us: seq<u32>, width: u32 -> Width)
    requires AllPrintable(us, width)
    ensures SumWidth(us, width) >= 0
  {
    if us != [] {
      assert forall k :: 0 <= k < |us[1..]| ==> width(us[1..][k]) == width(us[k + 1]);
      SumWidthNonneg(us[1..], width);
    }
  }

  /** `c42_utf8_term_width` with the per-code-point width `width` in place of
      `c42_ucp_term_width`: decodes `data[..len]` and sums the widths. */
  method Utf8TermWidth(data: array<u8>, len: nat, width: u32 -> Width) returns (w: i32)
    requires len <= data.Length && Whole(data[..len])
    ensures w == WidthFrom(DecodeAll(data[..len]), width, 0)
  {
    w := 0;
    var i := 0;
    while i != len
      invariant i <= len && Whole(data[i..len]) && w >= 0
      invariant WidthFrom(DecodeAll(data[i..len]), width, w) == WidthFrom(DecodeAll(data[..len]), width, 0)
      decreases len - i
    {
      var ucp, next := UcpFromValidUtf8(data, i);
      TermWidthStep(data[..], len, i, next, ucp, width, w);
      var cw := width(ucp);
      if cw < 0 {
        return -1;
      }
      w := ToI32(w + cw);
      if w < 0 {
        return -2;
      }
      i := next;
    }
  }

  /** One round of the width loop over the whole sequences of `m[i..len]`, whose first
      decodes to `u`. */
  lemma TermWidthStep(m: seq<u8>, len: nat, i: nat, next: nat, u: u32, width: u32 -> Width, w: i32)
    requires i < len <= |m| && Whole(m[i..len])
    requires next == i + SeqLen(m[i]) && u == Decode(m[i..next])
    ensures next <= len && Whole(m[next..len])
    ensures width(u) < 0 ==> WidthFrom(DecodeAll(m[i..len]), width, w) == -1
    ensures width(u) >= 0 && ToI32(w + width(u)) < 0 ==> WidthFrom(DecodeAll(m[i..len]), width, w) == -2
    ensures width(u) >= 0 && ToI32(w + width(u)) >= 0 ==>
              WidthFrom(DecodeAll(m[i..len]), width, w) ==
              WidthFrom(DecodeAll(m[next..len]), width, ToI32(w + width(u)))
  {
    var t := m[i..len];
    var n := SeqLen(m[i]);
    assert t[0] == m[i] && t[..n] == m[i..i + n] && t[n..] == m[i + n..len];
    DecodeAllCons(t);
    WidthFromCons(u, DecodeAll(t[n..]), width, w);
  }

  /** One round of `WidthFrom`. */
  lemma WidthFromCons(u: u32, rest: seq<u32>, width: u32 -> Width, w: i32)
    ensures width(u) < 0 ==> WidthFrom([u] + rest, width, w) == -1
    ensures width(u) >= 0 && ToI32(w + width(u)) < 0 ==> WidthFrom([u] + rest, width, w) == -2
    ensures width(u) >= 0 && ToI32(w + width(u)) >= 0 ==>
              WidthFrom([u] + rest, width, w) == WidthFrom(rest, width, ToI32(w + width(u)))
  {
    assert ([u] + rest)[1..] == rest;
  }

  /** The first round of the decoding loop: `Decode` reads only the sequence it
      decodes, and what follows still splits into whole sequences. */
  lemma DecodeAllCons(t: seq<u8>)
    requires t != [] && Whole(t)
    ensures SeqLen(t[0]) <= |t| && Whole(t[SeqLen(t[0])..])
    ensures DecodeAll(t) == [Decode(t[..SeqLen(t[0])])] + DecodeAll(t[SeqLen(t[0])..])
  {
    var n := SeqLen(t[0]);
    var p := t[..n];
    assert p[0] == t[0];
    if n >= 2 {
      assert p[1] == t[1];
    }
    if n >= 3 {
      assert p[2] == t[2];
    }
    if n == 4 {
      assert p[3] == t[3];
    }
    assert Decode(p) == Decode(t);
  }
}
