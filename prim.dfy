/** Byte-array and C-string primitives (`c42_u8a_*`, `c42_u8z_*`, `c42_u16z_len`)
    and the digit decoder `c42_digit_from_char`. Pointers into caller memory
    become an array plus an index; NUL-terminated strings are arrays holding a 0. */
module Prim {
  import opened Bytes

  /** C's `ch | 0x20` on an unsigned value: sets bit 5. */
  function Or20(ch: nat): nat
  {
    if (ch / 32) % 2 == 1 then ch else ch + 32
  }

  /** `c42_digit_from_char`: the value of `ch` as a digit in `radix`, or -1. */
  function DigitFromChar(ch: u32, radix: nat): (r: int)
    ensures '0' as int <= ch <= '9' as int ==>
              r == (if ch - '0' as int < radix then ch - '0' as int else -1)
    ensures 'a' as int <= ch <= 'z' as int ==>
              r == (if ch - 'a' as int + 10 < radix then ch - 'a' as int + 10 else -1)
    ensures 'A' as int <= ch <= 'Z' as int ==>
              r == (if ch - 'A' as int + 10 < radix then ch - 'A' as int + 10 else -1)
    ensures (!('0' as int <= ch <= '9' as int || 'a' as int <= ch <= 'z' as int ||
               'A' as int <= ch <= 'Z' as int)) ==> r == -1
    ensures -1 <= r < 36 && r < radix
  {
    var digit :=
      if '0' as int <= ch <= '9' as int then ch - '0' as int
      else if 'a' as int <= Or20(ch) <= 'z' as int then Or20(ch) - 'a' as int + 10
      else -1;
    if digit < 0 || digit >= radix then -1 else digit
  }

  /** True when `b` is an ASCII hexadecimal digit in either case. */
  predicate IsHexDigit(b: u8)
  {
    '0' as int <= b <= '9' as int || 'a' as int <= b <= 'f' as int || 'A' as int <= b <= 'F' as int
  }

  lemma HexDigitDecodes(b: u8)
    ensures IsHexDigit(b) <==> DigitFromChar(b, 16) >= 0
  {
  }

  /** The two upper-case hex digits of one byte. */
  function HexPair(b: u8): seq<u8>
  {
    [DigitChar(b / 16), DigitChar(b % 16)]
  }

  /** The hex text of a byte run, two digits per byte, no separators. */
  function HexText(s: seq<u8>): (r: seq<u8>)
    ensures |r| == 2 * |s|
  {
    if s == [] then [] else HexText(s[..|s| - 1]) + HexPair(s[|s| - 1])
  }

  lemma {:induction false} HexTextAt(s: seq<u8>, k: nat)
    requires k < |s|
    ensures HexText(s)[2 * k] == DigitChar(s[k] / 16)
    ensures HexText(s)[2 * k + 1] == DigitChar(s[k] % 16)
  {
    if k < |s| - 1 {
      HexTextAt(s[..|s| - 1], k);
      assert s[..|s| - 1][k] == s[k];
    }
  }

  lemma {:induction false} HexTextAppend(s: seq<u8>, t: seq<u8>)
    ensures HexText(s + t) == HexText(s) + HexText(t)
  {
    if t == [] {
      assert s + t == s;
    } else {
      assert (s + t)[..|s + t| - 1] == s + t[..|t| - 1];
      HexTextAppend(s, t[..|t| - 1]);
    }
  }

  /** `c42_u8a_copy`: copies `src` into `dest` starting at `at`. */
  method U8aCopy(dest: array<u8>, at: nat, src: seq<u8>)
    requires at + |src| <= dest.Length
    modifies dest
    ensures dest[at..at + |src|] == src
    ensures dest[..at] == old(dest[..at])
    ensures dest[at + |src|..] == old(dest[at + |src|..])
  {
    var i := 0;
    while i < |src|
      invariant 0 <= i <= |src|
      invariant dest[at..at + i] == src[..i]
      invariant dest[..at] == old(dest[..at])
      invariant dest[at + i..] == old(dest[at + i..])
    {
      dest[at + i] := src[i];
      i := i + 1;
    }
  }

  /** `c42_u8a_set`: fills `len` bytes from `at` with `value`. */
  method U8aSet(dest: array<u8>, at: nat, value: u8, len: nat)
    requires at + len <= dest.Length
    modifies dest
    ensures dest[at..at + len] == Repeat(value, len)
    ensures dest[..at] == old(dest[..at])
    ensures dest[at + len..] == old(dest[at + len..])
  {
    var i := 0;
    while i < len
      invariant 0 <= i <= len
      invariant forall k :: at <= k < at + i ==> dest[k] == value
      invariant dest[..at] == old(dest[..at])
      invariant dest[at + i..] == old(dest[at + i..])
    {
      dest[at + i] := value;
      i := i + 1;
    }
  }

  /** `c42_u8a_cmp`: -1, 0 or +1 by the first differing byte, compared unsigned. */
  method U8aCmp(a: array<u8>, b: array<u8>, len: nat) returns (r: int)
    requires len <= a.Length && len <= b.Length
    ensures r in {-1, 0, 1}
    ensures r == 0 <==> a[..len] == b[..len]
    ensures r == -1 <==> exists k :: 0 <= k < len && a[..k] == b[..k] && a[k] < b[k]
    ensures r == 1 <==> exists k :: 0 <= k < len && a[..k] == b[..k] && a[k] > b[k]
  {
    var i := 0;
    while i < len
      invariant 0 <= i <= len
      invariant a[..i] == b[..i]
    {
      if a[i] != b[i] {
        r := if a[i] < b[i] then -1 else 1;
        FirstDifferenceUnique(a[..], b[..], i);
        return;
      }
      assert a[..i + 1] == a[..i] + [a[i]] && b[..i + 1] == b[..i] + [b[i]];
      i := i + 1;
    }
    r := 0;
    forall k | 0 <= k < len ensures a[k] == b[k] {
      assert a[..len][k] == b[..len][k];
    }
  }

  /** Two sequences agree up to their first difference, so that position is unique. */
  lemma FirstDifferenceUnique(a: seq<u8>, b: seq<u8>, i: nat)
    requires i < |a| && i < |b| && a[..i] == b[..i] && a[i] != b[i]
    ensures forall k :: 0 <= k < |a| && k < |b| && a[..k] == b[..k] && a[k] != b[k] ==> k == i
    ensures a[..i + 1] != b[..i + 1]
  {
    forall k | 0 <= k < |a| && k < |b| && a[..k] == b[..k] && a[k] != b[k] ensures k == i {
      if k > i {
        assert false;
      }
    }
    assert a[..i + 1][i] != b[..i + 1][i];
  }

  /** `c42_u8a_hex`: writes two upper-case hex digits per source byte. */
  method U8aHex(dest: array<u8>, src: array<u8>, len: nat)
    requires len <= src.Length && 2 * len <= dest.Length && dest != src
    modifies dest
    ensures dest[..2 * len] == HexText(src[..len])
    ensures dest[2 * len..] == old(dest[2 * len..])
  {
    var i := 0;
    while i < len
      invariant 0 <= i <= len
      invariant dest[..2 * i] == HexText(src[..i])
      invariant dest[2 * i..] == old(dest[2 * i..])
    {
      dest[2 * i] := DigitChar(src[i] / 16);
      dest[2 * i + 1] := DigitChar(src[i] % 16);
      assert src[..i + 1] == src[..i] + [src[i]];
      HexTextAppend(src[..i], [src[i]]);
      assert HexText([src[i]]) == HexPair(src[i]);
      i := i + 1;
    }
  }

  /** True when the array holds a C string, i.e. some NUL byte. */
  ghost predicate Terminated(a: array<u8>)
    reads a
  {
    0 in a[..]
  }

  /** `c42_u8z_copy`: copies the C string `src` to `dest` at `at` and returns the index of
      the terminating NUL written there. */
  method U8zCopy(dest: array<u8>, at: nat, src: array<u8>) returns (end: nat)
    requires Terminated(src) && dest != src
    requires at + ZLen(src[..]) < dest.Length
    modifies dest
    ensures end == at + ZLen(src[..])
    ensures dest[at..end] == ZStr(src[..]) && dest[end] == 0
    ensures dest[..at] == old(dest[..at])
    ensures dest[end + 1..] == old(dest[end + 1..])
  {
    var i := 0;
    ghost var n := ZLen(src[..]);
    while src[i] != 0
      invariant 0 <= i <= n
      decreases n - i
      invariant dest[at..at + i] == src[..i]
      invariant dest[..at] == old(dest[..at])
      invariant dest[at + i..] == old(dest[at + i..])
    {
      dest[at + i] := src[i];
      i := i + 1;
    }
    dest[at + i] := 0;
    end := at + i;
  }

  /** `c42_u8z_cmp`: compares two C strings byte by byte, unsigned, up to and
      including the first NUL. */
  method U8zCmp(a: array<u8>, b: array<u8>) returns (r: int)
    requires Terminated(a) && Terminated(b)
    ensures r in {-1, 0, 1}
    ensures r == 0 <==> ZStr(a[..]) == ZStr(b[..])
    ensures r == -1 <==> exists k :: 0 <= k <= ZLen(a[..]) && k <= ZLen(b[..]) &&
                           a[..k] == b[..k] && a[k] < b[k]
    ensures r == 1 <==> exists k :: 0 <= k <= ZLen(a[..]) && k <= ZLen(b[..]) &&
                          a[..k] == b[..k] && a[k] > b[k]
  {
    ghost var na, nb := ZLen(a[..]), ZLen(b[..]);
    var i := 0;
    while a[i] == b[i]
      invariant 0 <= i <= na && i <= nb
      decreases na - i
      invariant a[..i] == b[..i]
    {
      if a[i] == 0 {
        ZCmpSame(a[..], b[..], i);
        return 0;
      }
      assert a[..i + 1] == a[..i] + [a[i]] && b[..i + 1] == b[..i] + [b[i]];
      i := i + 1;
    }
    r := if a[i] < b[i] then -1 else 1;
    ZCmpDiffer(a[..], b[..], i);
  }

  /** Two C strings that agree up to a common NUL at `i` are equal and have no difference. */
  lemma ZCmpSame(a: seq<u8>, b: seq<u8>, i: nat)
    requires 0 in a && 0 in b && i <= ZLen(a) && i <= ZLen(b)
    requires a[..i] == b[..i] && a[i] == 0 && b[i] == 0
    ensures ZLen(a) == i && ZLen(b) == i && ZStr(a) == ZStr(b)
    ensures forall k :: 0 <= k <= i && a[..k] == b[..k] ==> a[k] == b[k]
  {
    forall k | 0 <= k <= i && a[..k] == b[..k]
      ensures a[k] == b[k]
    {
      if k < i {
        assert a[..i][k] == b[..i][k];
      }
    }
  }

  /** Two C strings whose first difference is at `i`, within both: they differ, and `i`
      is the only position that qualifies as a first difference. */
  lemma ZCmpDiffer(a: seq<u8>, b: seq<u8>, i: nat)
    requires 0 in a && 0 in b && i <= ZLen(a) && i <= ZLen(b)
    requires a[..i] == b[..i] && a[i] != b[i]
    ensures ZStr(a) != ZStr(b)
    ensures forall k :: 0 <= k <= ZLen(a) && k <= ZLen(b) && a[..k] == b[..k] && a[k] != b[k] ==> k == i
  {
    FirstDifferenceUnique(a, b, i);
    if i == ZLen(a) {
      assert b[i] != 0;
      assert ZLen(b) > i;
      assert ZStr(b)[i] == b[i];
    } else {
      assert ZStr(a)[i] == a[i];
    }
  }

  /** `c42_u8z_len`: the number of bytes before the first NUL. */
  method U8zLen(a: array<u8>) returns (n: nat)
    requires Terminated(a)
    ensures n < a.Length && a[n] == 0
    ensures forall i :: 0 <= i < n ==> a[i] != 0
  {
    ghost var z := ZLen(a[..]);
    n := 0;
    while a[n] != 0
      invariant n <= z
      decreases z - n
      invariant forall i :: 0 <= i < n ==> a[i] != 0
    {
      n := n + 1;
    }
  }

  /** `c42_u8z_scan`: the index of the first byte equal to `val` before the NUL, or None. */
  method U8zScan(str: array<u8>, val: u8) returns (r: Option<nat>)
    requires Terminated(str)
    ensures r.None? <==> val !in ZStr(str[..])
    ensures r.Some? ==> r.value < ZLen(str[..]) && str[r.value] == val &&
                        val !in str[..r.value]
  {
    ghost var z := ZLen(str[..]);
    var i := 0;
    while str[i] != 0
      invariant i <= z
      decreases z - i
      invariant val !in str[..i]
    {
      if str[i] == val {
        return Some(i);
      }
      assert str[..i + 1] == str[..i] + [str[i]];
      i := i + 1;
    }
    r := None;
    assert i == z;
    if val != 0 {
      assert ZStr(str[..]) == str[..i];
    }
  }

  /** `c42_u16z_len`: the number of 16-bit units before the first zero unit. */
  method U16zLen(a: array<u16>) returns (n: nat)
    requires 0 in a[..]
    ensures n < a.Length && a[n] == 0
    ensures forall i :: 0 <= i < n ==> a[i] != 0
  {
    n := 0;
    while a[n] != 0
      invariant n < a.Length
      invariant forall i :: 0 <= i < n ==> a[i] != 0
      invariant 0 in a[n..]
      decreases a.Length - n
    {
      assert a[n..] == [a[n]] + a[n + 1..];
      n := n + 1;
    }
  }
}
