# c42 core in Dafny

A model of the core of the c42 freestanding C utility library (`lib.c` and the inline helpers
of `c42.h`). Every piece works on caller-supplied byte buffers, allocates nothing and reports
failure with small integer status codes. Where the C code changes memory step by step, the
model is an imperative Dafny method over `array<u8>` with loop invariants. Where it computes
a value, the model is a function, and each method is proved against a function that
specifies it. The state the C code keeps in structs is modelled as classes:

- the single-buffer writer `c42_sbw_t`;
- the counting stream `c42_io8bc_t`;
- the context of the streaming C escaper;
- the writer the format engine writes to.
- the red/black tree `c42_rbtree_t`, whose root is a tree value.

| file | module | what it models |
|---|---|---|
| `bytes.dfy` | `Bytes` | machine integer ranges and their wrap-around, the digit alphabet, C strings in byte sequences |
| `prim.dfy` | `Prim` | `c42_u8a_copy/set/cmp/hex`, `c42_u8z_copy/cmp/len/scan`, `c42_u16z_len`, `c42_digit_from_char` |
| `numerals.dfy` | `Numerals` | `c42_u64_to_str` (least significant digit first, then an in-place reversal), `c42_i64_to_str`, `c42_u64_from_str` with radix detection and overflow checks |
| `utf8.dfy` | `Utf8` | the single code point UTF-8 helpers (section 3 of RFC 3629), `c42_utf8_validate`, `c42_utf8_term_width` |
| `utf16.dfy` | `Utf16` | `c42_utf16le_to_utf8_len` and `c42_utf16le_to_utf8`: surrogate pairs as in section 2.2 of RFC 2781, and the MUTF-8 flags |
| `sinks.dfy` | `Sinks` | `c42_sbw_init/write` and `c42_io8bc_init`/`io8bc_write` |
| `cescape.dfy` | `CEscape` | `byte_c_escape_len`, `c42_u8a_c_escape_len`, `c42_u8a_c_escape`, and a decoder of C escapes (section 6.4.4.4 of ISO/IEC 9899) used as their reference |
| `clconv.dfy` | `Clconv` | the chunked converters `c42_clconv_bin_to_hex_line`, `c42_clconv_hex_to_bin` and `c42_clconv_c_escape_force_hex` |
| `escstream.dfy` | `EscStream` | `c42_clconv_c_escape_init` and the streaming `c42_clconv_c_escape`, which holds one byte back in `crt_byte` |
| `fmtspec.dfy` | `FmtSpec` | `c42_write_vfmt` as functions |
| `fmtprops.dfy` | `FmtProps` | properties and worked templates of the format engine |
| `fmt.dfy` | `Fmt` | the engine as a method over a writer object, proved to agree with `FmtSpec` |
| `rbtree.dfy` | `RbTree` | the intrusive red/black tree `c42_rbtree_init/find/np/insert/delete`, as a class whose root is a tree value and whose search paths are zippers |

`FmtSpec` describes the engine as functions:

- the template is a byte sequence;
- the `va_list` is a sequence of tagged argument values (`Num`, `Text`);
- the width function is a function parameter;
- the result is the list of writer calls the engine makes and the code it returns, or
  `Undefined` where the C behaviour is undefined.

`Fmt.WriteVFmt` runs over a `Writer` that accepts at most its remaining room. It is proved to
leave in the writer exactly what `FmtSpec.Deliver` says, and to return the same code.
`FmtProps.DeliverFlat` states what that means: the engine's own code and all its output when
the output fits, otherwise `C42_FMT_WRITE_ERROR` with the output cut at the writer's room.

`RbTree` keeps the tree as a value and a search path (`c42_rbtree_path_t`) as a list of
frames: the node left, the side taken and the subtree on the other side. `Plug` rebuilds the
whole tree from a path and the subtree at its end. `Insert` and `Delete` walk a path upwards
as the C loops do, and are proved to keep the three red/black invariants and to add or remove
exactly one key in order. Each repaint or rotation is a lemma about one step of the walk.

Where the header's documentation and the code disagree, the model follows the code. It
states the difference as a finding below.

## Model

| member | source | states |
|---|---|---|
| Bytes.ToI64 | lib.c:304 | the result is the int64_t congruent to the input modulo 2^64 (two's-complement cast) |
| Bytes.ToU64 | lib.c:330 | the result is the uint64_t congruent to the input modulo 2^64 |
| Bytes.ToI32 | lib.c:815-820 | the result is the int32_t congruent to the input modulo 2^32 |
| Bytes.DigitChar | lib.c:3 | digit d below 10 maps to '0'+d, from 10 on to 'A'+d-10 |
| Bytes.ZLen | lib.c:205-213 | the index of the first NUL: every byte before it is non-zero |
| Bytes.ZStr | lib.c:205-213 | the C string is the bytes before the first NUL and contains no NUL |
| Bytes.FlattenAppend | lib.c:587-604 | concatenating chunk lists concatenates their bytes |
| Prim.DigitFromChar | c42.h:300-312 | '0'-'9' give 0-9, letters of either case give 10-35, the value is returned only below the radix, otherwise -1 |
| Prim.HexDigitDecodes | c42.h:300-312 | a byte is a hex digit exactly when `c42_digit_from_char(b, 16)` is not negative |
| Prim.HexText | lib.c:85-101 | two output bytes per input byte |
| Prim.HexTextAt | lib.c:96-97 | output bytes 2k and 2k+1 are the high and low nibble digits of input byte k |
| Prim.HexTextAppend | lib.c:94-98 | the hex text of a concatenation is the concatenation of the hex texts |
| Prim.U8aCopy | lib.c:49-57 | the destination range holds the source afterwards and every other byte is unchanged |
| Prim.U8aSet | lib.c:60-68 | the destination range holds `len` copies of the value and every other byte is unchanged |
| Prim.U8aCmp | lib.c:71-82 | 0 exactly when the ranges are equal; -1 / +1 exactly when the first difference is a smaller / larger byte |
| Prim.FirstDifferenceUnique | lib.c:79-80 | the first differing position is unique, so the -1 and +1 cases exclude each other |
| Prim.U8aHex | lib.c:85-101 | the destination holds the hex text of the source and nothing after it changes |
| Prim.U8zCopy | lib.c:181-190 | the C string and its NUL are copied, the returned index is that of the NUL, other bytes unchanged |
| Prim.U8zCmp | lib.c:193-202 | 0 exactly when the C strings are equal; -1 / +1 exactly when the first difference (the NUL included) is smaller / larger |
| Prim.ZCmpSame | lib.c:199-200 | two strings that agree up to a common NUL are equal |
| Prim.ZCmpDiffer | lib.c:199-201 | two strings with a difference before either NUL are different and the difference is the first |
| Prim.U8zLen | lib.c:205-213 | the result indexes a NUL with no NUL before it |
| Prim.U8zScan | lib.c:216-225 | none exactly when the value is not in the C string; otherwise the index of its first occurrence |
| Prim.U16zLen | lib.c:228-236 | the result indexes a zero unit with no zero unit before it |
| Numerals.Gen | lib.c:261-271 | definition of the digit loop's output, least significant first; its length bound in `Numerals.GenReachesWidth`, its value in `Numerals.GenPlain`, one round in `Numerals.GenStep` |
| Numerals.Render | lib.c:239-280 | definition of `c42_u64_to_str`'s text; at least `width` long in `Numerals.RenderAtLeastWidth`, empty only for 0 in width 0 in `Numerals.RenderNonEmpty`, read back in `Numerals.RoundTrip` |
| Numerals.Reverse | lib.c:273-278 | position k of the result is position n-1-k of the input |
| Numerals.GenStep | lib.c:261-271 | one loop round stores a digit (and a separator after each full group) and divides the value by the radix |
| Numerals.GenReachesWidth | lib.c:261 | the digit loop runs at least until `width` characters are stored |
| Numerals.RenderAtLeastWidth | lib.c:239-280 | the rendering is at least `width` bytes long (the minimum-size guarantee) |
| Numerals.RenderNonEmpty | lib.c:261-273 | the rendering is empty exactly for value 0 with width 0 (where the reversal underflows `b = i - 1`) |
| Numerals.RenderGroupedExample | lib.c:261-271 | padding zeros are grouped like digits: 0xAB, width 4, groups of 2 is "0_AB" |
| Numerals.RenderLeadingSeparatorExample | lib.c:266-270 | a full group at the last digit leaves a leading separator: "_AB" |
| Numerals.U64ToStr | lib.c:239-280 | the buffer holds the rendering followed by NUL, its length is returned, nothing else changes |
| Numerals.GenDigits | lib.c:261-271 | the digit loop stores the characters least significant first |
| Numerals.DigitRound | lib.c:263-270 | one round of the digit loop against the generated text |
| Numerals.ReverseRun | lib.c:273-278 | the swap loop reverses the run in place and changes nothing else |
| Numerals.MirrorStep | lib.c:275-277 | one swap moves the loop state one pair inward |
| Numerals.MirrorDone | lib.c:273 | when the ends meet, the run is reversed |
| Numerals.I64Text | lib.c:283-331 | definition of `c42_i64_to_str`'s text: sign, prefix, then the body in the remaining width; at least `width` long in `Numerals.I64TextAtLeastWidth`, the sign in `Numerals.LeadSign` |
| Numerals.LeadSign | lib.c:298-325 | the sign is '-' exactly for negative values in the signed modes; under SIGN_NEG the digits are of the magnitude |
| Numerals.I64TextAtLeastWidth | lib.c:327-330 | the whole signed text is at least `width` long |
| Numerals.I64NegExample | lib.c:302-306 | -52 under SIGN_NEG in width 5 renders "-0052" |
| Numerals.I64AlwaysLosesMagnitude | lib.c:307-313 | as written SIGN_ALWAYS renders -5 in width 2 as "-0"; the corrected text is "-5" |
| Numerals.I64ToStr | lib.c:283-331 | the buffer holds sign, prefix and body followed by NUL, the length is returned, and nothing after the NUL changes |
| Numerals.WriteLead | lib.c:298-327 | the sign and prefix are written and their total length returned; nothing after the byte following them changes |
| Numerals.WriteSign | lib.c:298-325 | the sign byte of the mode is written and the magnitude to render returned |
| Numerals.Detect | lib.c:347-364 | a given radix is kept; a "0b", "0o", "0d" or "0x" prefix is skipped exactly under radix 0 |
| Numerals.Parse | lib.c:334-386 | definition of `c42_u64_from_str`'s result with exact arithmetic; the scan's meaning in `Numerals.ScanMeaning`, the inverse of rendering in `Numerals.RoundTrip` |
| Numerals.Scan | lib.c:366-382 | the scan consumes bytes from `i` on and never past the end |
| Numerals.ValueOfSnoc | lib.c:378-380 | appending a digit multiplies the value by the radix and adds the digit |
| Numerals.ScanMeaning | lib.c:366-385 | a scan stops at the first non-digit (STOP), at the first digit where the exact value leaves 64 bits (OVERFLOW), or at the end (OK), with the exact value of the digits read |
| Numerals.ScanStep | lib.c:377-381 | one digit either settles an overflow or extends the exact value |
| Numerals.ScanStops | lib.c:377 | a digit not below the radix stops the scan with STOP |
| Numerals.ScanOverflows | lib.c:378-381 | a digit that takes the exact value past 2^64-1 gives OVERFLOW |
| Numerals.ParseHexExample | lib.c:349-363 | "0x1A" under radix 0 is 26 with all 4 bytes used |
| Numerals.ParseStopExample | lib.c:377 | "12z" in radix 10 stops at 'z' with 12 |
| Numerals.ParseEmptyKeepsOutputs | lib.c:347 | an empty input returns STOP without writing the outputs |
| Numerals.MulWrapDetect | lib.c:378-379 | the test `w / radix != v` on the wrapped product is exactly overflow of the product |
| Numerals.AddWrapDetect | lib.c:380-381 | the test `v < w` on the wrapped sum is exactly overflow of the sum |
| Numerals.ScanDigit | lib.c:370-381 | one C loop round with its two wrap-around tests is one step of the exact scan |
| Numerals.ScanStepCases | lib.c:378-381 | the exact scan at a digit, by the size of the product |
| Numerals.U64FromStr | lib.c:334-386 | the status, value and used length are those of the exact-arithmetic parse |
| Numerals.U64FitsDigits | lib.c:261 | every 64-bit value has at most 64 digits in any radix |
| Numerals.GenPlain | lib.c:261-271 | without separators, the reversed generated text is a digit run whose value is the input |
| Numerals.ParseDigits | lib.c:366-385 | a digit run whose value fits parses to that value using every byte |
| Numerals.ValueOfPrefix | lib.c:366-382 | a prefix of a digit run has no larger value |
| Numerals.RoundTrip | lib.c:239-386 | `c42_u64_from_str` inverts `c42_u64_to_str` for widths 1 to 64 with a group above 64; a group of exactly 64 still separates (`Numerals.Group64Separates`) |
| Numerals.GenZeroGroup64 | lib.c:261-271 | zero padded to 64 digits with groups of 64, the loop writes 64 zeros and then a separator |
| Numerals.Group64Separates | lib.c:266-270 | as written, 0 in radix 2, width 64, group 64 is 65 bytes starting with the separator, and parsing it back stops at byte 0 with value 0 |
| Numerals.GenFixed | lib.c:261-271 | the digit loop with grouping as documented at c42.h:437 (no separator for a group of 64 or more); equal to `Numerals.Gen` below 64 in `Numerals.GenFixedBelow64`, read back in `Numerals.RoundTripFixed` |
| Numerals.RenderFixed | lib.c:239-280 | the corrected text of `c42_u64_to_str`; read back in `Numerals.RoundTripFixed` |
| Numerals.GenFixedBelow64 | lib.c:261-271 | for a group below 64 the corrected loop writes exactly what the code writes |
| Numerals.GenFixedPlain | lib.c:261-271 | with a group of 64 or more the corrected loop writes only digits, whose value is the input |
| Numerals.RoundTripFixed | lib.c:239-386 | with the corrected grouping, `c42_u64_from_str` inverts `c42_u64_to_str` for widths 1 to 64 and every group of 64 or more |
| Numerals.I64FixedRoundTrip | lib.c:298-330 | with the corrected sign handling, a negative value renders as '-' followed by digits whose value is its magnitude |
| Utf8.UcpIsValid | c42.h:529-532 | definition: below 0xD800, or from 0xE000 to 0x10FFFF; used by `Utf16.PairFormula`, `Utf16.StepAcceptable` and `Utf8.ValidateAcceptsBeyondUnicode` |
| Utf8.Utf8Len | c42.h:540-546 | the encoded length is 1 to 4 |
| Utf8.Encode | c42.h:556-582 | the encoding has `c42_ucp_utf8_len` bytes |
| Utf8.EncodeShape | c42.h:556-582 | the lead byte announces the length and every other byte is a continuation byte, for every code point below 0x200000 |
| Utf8.Decode | c42.h:589-616 | the decoded value is below 0x200000 |
| Utf8.Encode2 | c42.h:563-568 | the two-byte form of a code point from its payload bits |
| Utf8.Encode3 | c42.h:569-575 | the three-byte form of a code point from its payload bits |
| Utf8.Encode4 | c42.h:576-581 | the four-byte form of a code point from its payload bits |
| Utf8.DecodeEncode | c42.h:556-616 | decoding the encoding gives the code point back and consumes exactly the encoding, for every code point below 0x200000 (as the header promises), whatever follows |
| Utf8.DecodeEncode2 | c42.h:563-568 | the same round trip for two-byte code points |
| Utf8.DecodeEncode3 | c42.h:569-575 | the same round trip for three-byte code points |
| Utf8.DecodeEncode4 | c42.h:576-581 | the same round trip for four-byte code points |
| Utf8.Groups4 | c42.h:577-580 | a four-byte code point splits into its lead bits and three six-bit groups |
| Utf8.UcpToUtf8 | c42.h:556-582 | the buffer holds the encoding at `at`, its length is returned, nothing else changes |
| Utf8.UcpFromValidUtf8 | c42.h:589-616 | the code point decoded at `at` and the position after its sequence |
| Utf8.DecodeAllEncodeAll | c42.h:556-616 | decoding a concatenation of encodings gives back the code points and splits into whole sequences |
| Utf8.Step | lib.c:408-467 | one validator round reports VALID exactly with a sequence length of 1 to 4, otherwise an error code |
| Utf8.Validate | lib.c:400-471 | definition of `c42_utf8_validate`'s status and accepted length; its codes in `Utf8.ValidateCodes`, the accepted prefix in `Utf8.ValidatePrefix`, the read past the end in `Utf8.ValidateReadsPastEnd` |
| Utf8.ValidateFrom | lib.c:400-471 | the accepted length lies between the start and the end of the input |
| Utf8.ValidateFromCodes | lib.c:400-471 | the status is never UNTERMINATED (code 1); VALID exactly when the accepted length is the whole input |
| Utf8.ValidateCodes | lib.c:400-471 | the same for the whole input |
| Utf8.ValidateFromPrefix | lib.c:400-471 | the part accepted before an error validates as VALID on its own |
| Utf8.ValidatePrefix | lib.c:400-471 | the same for the whole input |
| Utf8.Utf8Validate | lib.c:400-471 | the status and accepted length are those of the validator function |
| Utf8.ValidateAcceptsBeyondUnicode | lib.c:448-462 | a lead 0xF5 passes although it encodes a value above 0x10FFFF |
| Utf8.ValidateRefusesSurrogates | lib.c:441-445 | the encoding of a surrogate is refused with code 4 |
| Utf8.ValidateReadsPastEnd | lib.c:416-428 | as written, a 0xC3 lead at the last byte is accepted by reading the byte after the end; the corrected validator reports it unterminated |
| Utf8.StepFixed | lib.c:408-467 | one corrected round never accepts past the end of the input |
| Utf8.ValidateFixed | lib.c:400-471 | the corrected validator accepts no more than the input |
| Utf8.AcceptedSequence | lib.c:408-462 | one accepted sequence is the encoding of an acceptable code point of the length its lead announces |
| Utf8.AcceptedSequence2 | lib.c:416-428 | the same for two-byte sequences |
| Utf8.AcceptedSequence3 | lib.c:430-447 | the same for three-byte sequences |
| Utf8.AcceptedSequence4 | lib.c:448-463 | the same for four-byte sequences |
| Utf8.ValidateFixedSound | lib.c:400-471 | everything the corrected validator accepts is a concatenation of encodings of acceptable code points |
| Utf8.ValidateFixedComplete | lib.c:400-471 | the corrected validator accepts every concatenation of encodings of acceptable code points |
| Utf8.ValidateFixedCons | lib.c:408-467 | prepending one encoding leaves the verdict on the rest, shifted |
| Utf8.EncodedStepAccepted | lib.c:408-467 | the corrected validator accepts one encoding in one round |
| Utf8.FixedAgrees | lib.c:400-471 | the corrected validator agrees with the one as written on every input that does not end inside a sequence |
| Utf8.RoundAgrees | lib.c:408-467 | one round of both validators agrees where the sequence does not run past the end |
| Utf8.StepAgrees | lib.c:408-467 | where the sequence fits before the end both validators read the same bytes |
| Utf8.WidthFromMeaning | lib.c:474-493 | the result is the exact width sum when every width is non-negative and the sum fits in int32_t, -2 when it does not fit, negative when a code point has a negative width |
| Utf8.SumWidthNonneg | lib.c:485-488 | a sum of non-negative widths is non-negative |
| Utf8.Utf8TermWidth | lib.c:474-493 | the result is that of the width loop over the decoded code points |
| Utf8.TermWidthStep | lib.c:483-490 | one round of the width loop over a whole sequence |
| Utf8.WidthFromCons | lib.c:486-489 | one round of the width function: -1, -2 or the new total |
| Utf8.DecodeAllCons | lib.c:485 | the first decoding step reads only the first sequence |
| Utf16.PairFormula | lib.c:552-561 | a pair assembled by masks is the value section 2.2 of RFC 2781 defines, 0x10000 to 0x10FFFF, a valid scalar value |
| Utf16.StepSize | lib.c:544-561 | one round consumes 2 or 4 bytes and never past the end |
| Utf16.UnitCost | lib.c:527-530 | definition of the bytes counted for a non-surrogate unit, as written and corrected; compared with the converter in `Utf16.StepCost` and `Utf16.LenUndercounts` |
| Utf16.LenStep | lib.c:509-531 | one round of the length function adds -2 (error) or at least 1 |
| Utf16.StepCost | lib.c:509-531 | the corrected count of a round is the number of bytes the converter writes; the count as written fails exactly where the corrected one does and is never larger |
| Utf16.StepAcceptable | lib.c:544-567 | without the MUTF-8 flags, a round the length function accepts writes the UTF-8 encoding of a valid scalar value |
| Utf16.Utf16LeToUtf8Len | lib.c:496-534 | definition of `c42_utf16le_to_utf8_len`; its codes in `Utf16.LenCodes`, the corrected count equal to the output length in `Utf16.LenFixedIsOutputLength` |
| Utf16.LenFrom | lib.c:507-533 | the loop result is -2 or at least the running total |
| Utf16.Utf16LeToUtf8LenOf | lib.c:496-534 | the method returns the length function's value |
| Utf16.LenCodes | lib.c:496-534 | -1 exactly for an odd length; otherwise -2 or a count; -2 exactly where the corrected count is -2; never more than the corrected count |
| Utf16.LenFromFails | lib.c:507-533 | the loop as written fails exactly where the corrected loop fails and counts no more |
| Utf16.LenExamples | lib.c:496-534 | the odd length, the unpaired high surrogate (with and without ALLOW_UNPAIRED_SURROGATES), the pair (with and without NEVER_PAIR_SURROGATES) and the reversed pair |
| Utf16.Utf16LeToUtf8 | lib.c:537-571 | the output holds the converted bytes, their count is returned, nothing after them changes |
| Utf16.ConvertFrom | lib.c:537-571 | definition of the converter's output from a unit on; valid UTF-8 in `Utf16.ConvertValidFrom`, its length in `Utf16.LenFixedFrom` |
| Utf16.ConvertFromCons | lib.c:544-569 | the output from a unit is that round's bytes followed by the output from the next unit |
| Utf16.ConvertUnit | lib.c:546-568 | one round reads a unit or a pair and appends its bytes |
| Utf16.LenFixedFrom | lib.c:507-533 | the corrected count from a unit is the length of the converter's output from it |
| Utf16.LenFixedIsOutputLength | lib.c:496-571 | the corrected length function returns the length of the converter's output |
| Utf16.LenUndercounts | lib.c:528-530 | as written U+00E9 is sized 1 byte but converted to 2; the corrected length is 2 |
| Utf16.ConvertValidFrom | lib.c:544-569 | without the MUTF-8 flags, accepted input converts to UTF-8 that the corrected validator accepts |
| Utf16.ConvertValid | lib.c:496-571 | the same for the whole input, once the length function accepts it |
| Sinks.WrapTest | lib.c:593 | the test `size + len < len` on 64-bit values detects exactly a wrapped sum |
| Sinks.Kept | lib.c:594-599 | a buffer of `limit` bytes keeps min(written, limit) bytes |
| Sinks.KeptAppend | lib.c:594-600 | appending to the stream extends what is kept by the bytes of the new write that fit |
| Sinks.StoreKept | lib.c:594-599 | the buffer holds the kept part of the longer stream and nothing past `limit` changes |
| Sinks.Sbw.constructor | lib.c:573-584 | an empty writer over the caller's buffer |
| Sinks.Sbw.Write | lib.c:587-604 | returns 0 and changes nothing when the size would wrap; otherwise counts every byte, returns their number and keeps what fits |
| Sinks.Io8bc.constructor | lib.c:1188-1201 | an empty stream at offset 0 over the caller's buffer |
| Sinks.Io8bc.Write | lib.c:1150-1174 | NO_SPACE with nothing written when the offset would wrap; otherwise OK, every byte reported written, the position advanced and what fits kept |
| CEscape.NeedsEscape | lib.c:103-118 | definition of the `cet` bit test: the control bytes below 0x20, `"`, `'`, backslash and every byte from 0x80 (0x7F is kept as is); the length split in `CEscape.ByteCEscapeLenFixed` |
| CEscape.ByteCEscapeLen | lib.c:112-119 | definition of `byte_c_escape_len` as written; its undercount in `CEscape.EscapeLenUndercounts` |
| CEscape.OneShotItem | lib.c:146-174 | definition of one byte's escape as written, including the octal/hex choice on the next byte; its loss of a following digit in `CEscape.OneShotLosesNextDigit` |
| CEscape.OneShot | lib.c:136-178 | definition of `c42_u8a_c_escape`'s output as written; stored by `CEscape.U8aCEscape`, decomposed in `CEscape.OneShotCons` |
| CEscape.ByteCEscapeLenFixed | lib.c:112-119 | the intended per-byte length: 1 exactly for a byte kept as is, 2 exactly for a short escape, else 4 |
| CEscape.OneShotItemFixed | lib.c:146-174 | the corrected item of a byte has the intended length |
| CEscape.StreamItem | lib.c:1360-1395 | the streaming item of a byte has the intended length |
| CEscape.HexRun | lib.c:157-160 | the run of hex digits a `\x` escape absorbs lies within the text |
| CEscape.OctRun | lib.c:162-164 | the run of octal digits an octal escape takes lies within the text and is at most three long |
| CEscape.FirstUnit | lib.c:146-174 | reading one unit of a C literal body consumes 1 to all of the bytes |
| CEscape.DecodeRaw | lib.c:148 | a byte kept as is decodes to itself |
| CEscape.DecodeShort | lib.c:151-154 | a short escape decodes to its byte |
| CEscape.OctDigitValue | lib.c:162-164 | each digit the escaper writes is an octal digit of its value |
| CEscape.OctValue3 | lib.c:162-164 | three written octal digits read back as 64a+8b+c |
| CEscape.OctRun3 | lib.c:162-164 | an octal escape takes exactly the three digits written |
| CEscape.OctUnit | lib.c:162-164 | a backslash and three octal digits form one unit whatever follows |
| CEscape.FirstUnitOct | lib.c:162-164 | how a unit starting with an octal digit is read |
| CEscape.DecodeOct | lib.c:162-164 | an octal escape decodes to its byte whatever follows |
| CEscape.HexDigitValue | lib.c:169-170 | each digit the escaper writes is a hex digit of its value |
| CEscape.HexValue2 | lib.c:169-170 | two written hex digits read back as 16a+b |
| CEscape.HexRun2 | lib.c:157-170 | a `\x` escape takes exactly the two digits written when no hex digit follows |
| CEscape.FirstUnitHex | lib.c:168-170 | how a unit starting with `\x` is read |
| CEscape.HexUnit | lib.c:168-170 | a `\x` escape is one unit when no hex digit follows |
| CEscape.DecodeHex | lib.c:168-170 | a `\x` escape decodes to its byte when no hex digit follows |
| CEscape.DecodeStreamItem | lib.c:1360-1395 | a streaming item decodes to its byte when the next byte's item follows |
| CEscape.DecodeOneShotItemFixed | lib.c:146-174 | a corrected one-shot item decodes to its byte when the next byte's item follows |
| CEscape.StreamEscapeDecodes | lib.c:1329-1411 | the streaming escaper's whole output decodes back to its input |
| CEscape.OneShotFixedDecodes | lib.c:136-178 | the corrected one-shot escaper's output decodes back to its input |
| CEscape.OneShotLosesNextDigit | lib.c:157-160 | as written, byte 0x01 followed by '9' becomes `\x019`, which reads back as the single byte 0x19 |
| CEscape.OneShotFixedLength | lib.c:122-178 | the corrected per-byte lengths add up to the corrected output's length |
| CEscape.EscapeLenUndercounts | lib.c:112-119 | as written byte 0x80 is sized 2 but escaped to 4 bytes |
| CEscape.U8aCEscapeLen | lib.c:122-133 | the sum of `byte_c_escape_len`, between `len` and `4 len` |
| CEscape.PutOneShotItem | lib.c:148-172 | one byte's escape, as written, is stored at `o`; nothing before or after it changes |
| CEscape.PutTail | lib.c:162-170 | the three bytes after the backslash of a numeric escape are stored |
| CEscape.U8aCEscape | lib.c:136-178 | the output holds the one-shot escape as written followed by NUL, its length is returned, and nothing after the NUL changes |
| CEscape.OneShotCons | lib.c:146-174 | the escape of a suffix starts with the item of its first byte |
| CEscape.EscapeStep | lib.c:146-174 | one loop round appends the escape of the current byte and changes nothing after it |
| Clconv.BinToHex | lib.c:1204-1226 | whole pairs only: `min(len, out_len/2)` bytes are used, two digits each; OK exactly when all input is used, FULL exactly when some is left |
| Clconv.BinToHexLine | lib.c:1204-1226 | the used input, the status and the bytes written agree with `BinToHex`, nothing past the output is touched |
| Clconv.HexDecode | lib.c:1244-1275 | the used input lies between the start and the end; OK exactly when all of it is used; every status is one of OK, MALFORMED, INCOMPLETE, FULL; FULL only with the output full |
| Clconv.HexToBin | lib.c:1229-1276 | the status, used input and bytes written agree with `HexDecode` under the skip list given as context; nothing past the output is touched |
| Clconv.HexRound | lib.c:1245-1271 | one loop round either ends the call with the final result or moves the read and write positions forward keeping the rest of the result owed |
| Clconv.PairRound | lib.c:1253-1271 | the part of the round after a high digit: INCOMPLETE on a lone digit, MALFORMED on a bad low digit, FULL with no room, else one byte written |
| Clconv.HexDecodeSkip | lib.c:1249 | a byte in the skip list that is not a hex digit is passed over without effect |
| Clconv.HexDecodePair | lib.c:1259-1271 | a pair of digits with room is written as one byte and decoding continues two bytes on |
| Clconv.PairByteOfHexPair | lib.c:1220-1221 | the two digits written for a byte are hex digits and read back as that byte |
| Clconv.HexRoundTrip | lib.c:1204-1276 | decoding the hex text of `b` gives `b` back with OK when it fits, and exactly its first `room` bytes with FULL otherwise |
| Clconv.HexRoundTripFrom | lib.c:1204-1276 | the same from pair `k` on |
| Clconv.HexDecodeResume | lib.c:1265-1270 | after a FULL, calling again from the reported position continues the same decoding: splitting the output room does not change the bytes |
| Clconv.HexDecodeMalformed | lib.c:1247-1263 | MALFORMED reports the offending byte: it is not a hex digit and either not skipped or the low digit of a pair |
| Clconv.HexDecodeIncomplete | lib.c:1253-1258 | INCOMPLETE is reported at a lone high digit that is the last byte of the input |
| Clconv.SkipListExample | lib.c:1244-1272 | with the skip list " ", "41 42" decodes to 0x41 0x42 with OK and all five bytes used |
| Clconv.ForceHexItem | lib.c:1296-1311 | one byte's output has the length `byte_c_escape_len` gives it |
| Clconv.ForceHexItemFixed | lib.c:1296-1311 | the documented output of one byte has the corrected length |
| Clconv.ForceHex | lib.c:1293-1315 | the used input lies within the input; OK exactly when all is used, FULL exactly when not, and then the next byte's output did not fit |
| Clconv.ForceHexConv | lib.c:1279-1316 | the status, used input and bytes written agree with `ForceHex`; nothing past the output is touched |
| Clconv.ForceHexCons | lib.c:1297 | the item of the next byte is written when it fits and the call stops with FULL when it does not |
| Clconv.PutForceHexItem | lib.c:1298-1310 | one round writes exactly the byte's item after what was written before |
| Clconv.PyFirstUnit | c42.h:974-978 | reading one unit the way the documentation says Python does consumes 1 to all of the bytes |
| Clconv.ForceHexItemFixedDecodes | c42.h:974-978 | the documented item of a byte reads back as that byte whatever follows |
| Clconv.ForceHexFixedDecodes | c42.h:956-978 | the documented force-hex output reads back as its input |
| Clconv.ForceHexItemFixedDefined | c42.h:956-959 | the documented output is plain ASCII and every backslash starts an escape the C standard defines |
| Clconv.ForceHexHighByte | lib.c:1296-1310 | as written byte 0x80 becomes a backslash and the raw byte 0x80, which is no defined escape; the documented form is `\x80` |
| EscStream.HexEscape | lib.c:1404-1407 | the final call's `\xHH` is four bytes |
| EscStream.EscLoop | lib.c:1350-1390 | the loop ends with OK or FULL, OK only with all input used and a numeric byte held back whose escape still fits; nothing held back only after all input with FULL; a byte held back with FULL did not fit |
| EscStream.EscapeChunk | lib.c:1345-1394 | a call with input uses at most its input |
| EscStream.StreamSplit | lib.c:1350-1390 | the stream's escape is the items of every byte with its successor followed by the last byte's item |
| EscStream.StreamHeadSnoc | lib.c:1350 | one more byte appends the item of the previous last byte, now with its successor |
| EscStream.ItemWithoutLookahead | lib.c:1374-1389 | a byte written as is or with a short escape does not depend on the next byte |
| EscStream.EscLoopKeeps | lib.c:1350-1394 | the loop keeps the stream invariant: what was written is the escape of everything consumed but the byte held back |
| EscStream.KeepsStop | lib.c:1358-1388 | the stream invariant holds where the loop stops |
| EscStream.EscLoopStep | lib.c:1350-1389 | a fitting item with a next byte is written and the loop goes on with that byte in hand |
| EscStream.KeepsAdvance | lib.c:1350 | regrouping one round keeps the stream invariant |
| EscStream.Regroup | lib.c:1350 | the bytes fed one at a time form the consumed slice |
| EscStream.EscLoopStops | lib.c:1358-1388 | when the item does not fit or no byte follows, the loop stops with the status, position and byte held back the source gives |
| EscStream.EscapeChunkKeeps | lib.c:1345-1394 | every call with input keeps the stream invariant |
| EscStream.FreshByteKeeps | lib.c:1349 | with nothing held back the first input byte is taken in hand |
| EscStream.SettledHead | lib.c:1349 | with nothing held back, what was written is the head of the stream extended by one byte |
| EscStream.DecodeBefore | lib.c:1360-1372 | a numeric item reads back as its byte before the next byte's item |
| EscStream.FlushedSplit | lib.c:1396-1410 | a stream flushed by the final call is its head followed by `\xHH` of the last byte |
| EscStream.FlushedDecodes | lib.c:1329-1411 | a flushed stream reads back as its input |
| EscStream.FlushDecodes | lib.c:1396-1410 | the output of all calls plus the final `\xHH` reads back as all the input fed; for a numeric byte held back it is the stream's escape |
| EscStream.SettledDecodes | lib.c:1380-1388 | with nothing held back the output already reads back as all the input fed |
| EscStream.FullAfterLastByte | lib.c:1386-1388 | a plain last byte is written at once and the call reports FULL although all input was used |
| EscStream.EscapeChunkFixed | lib.c:1381-1388 | definition of the corrected call: OK instead of FULL once the last input byte's item is written; its status in `EscStream.EscapeChunkFixedStatus` |
| EscStream.EscapeChunkFixedStatus | c42.h:868-891 | with the corrected status a call reports FULL exactly when the output cannot hold the escape of the byte in hand, OK only with all input used; input used, bytes and byte in hand are those of the call as written |
| EscStream.LastByteFixedOk | lib.c:1386-1388 | the call of `FullAfterLastByte` reports OK with the corrected status |
| EscStream.OkWithByteHeld | lib.c:1358-1359 | a numeric last byte is held back with OK and nothing written |
| EscStream.PlainByteFlushedAsHex | lib.c:1386-1407 | a plain byte that found no room is held back and later flushed as `\x41` |
| EscStream.CEscapeCtx.Init | lib.c:1319-1326 | the context starts with no byte held back and nothing fed or written |
| EscStream.CEscapeCtx.Convert | lib.c:1345-1395 | empty input returns OK touching nothing; otherwise status, used lengths, written bytes and the byte held back agree with `EscapeChunk`, the fed and written streams grow by what was used and written, and the stream invariant is kept |
| EscStream.CEscapeCtx.Finish | lib.c:1396-1410 | nothing held back: OK and nothing written; less than 4 bytes of room: FULL; else `\xHH` of the held byte is written, after which the whole output reads back as the input |
| EscStream.EscapeRun | lib.c:1348-1394 | the loop over a non-empty input agrees with `EscapeChunk` and touches nothing past its output |
| EscStream.EscRound | lib.c:1352-1389 | one round either ends with the final result or writes the item and takes the next byte in hand, keeping the rest of the result owed |
| EscStream.NumericRound | lib.c:1355-1372 | FULL below 4 bytes of room, OK with the byte held back at the end of input, else the octal or hex form by the next byte |
| EscStream.HexDigitAhead | lib.c:1361 | true exactly when the next byte is a hex digit |
| EscStream.PutNumeric | lib.c:1360-1372 | the four bytes of the numeric item are written after what was written before |
| EscStream.ItemRound | lib.c:1374-1389 | FULL when the item does not fit, FULL with nothing held back after the last byte, else the item is written |
| EscStream.PutItem | lib.c:1377-1387 | the byte or its short escape is written after what was written before |
| EscStream.EscLoopAdvances | lib.c:1350-1389 | a fitting item with a next byte moves to the written prefix |
| FmtSpec.Number | lib.c:683-685 | the digits from `k` are all consumed and the byte after them is not a digit (the value itself: `FmtProps.NumberValue`) |
| FmtSpec.Literal | lib.c:654-657 | the scan stops at the first `$` or at the NUL, with no `$` before it |
| FmtSpec.HexWrites | lib.c:892-904 | the hex pass makes at least one writer call, the final one |
| FmtSpec.EscWrites | lib.c:885-904 | the C-escape pass makes at least one writer call, the final one |
| FmtSpec.ChunkProgress | lib.c:892-899 | with the scratch buffer's room a converter call with input uses at least one byte, so the chunk loops end |
| FmtSpec.CharStep | lib.c:687-694 | `c` ends the directive one byte on, or returns `C42_FMT_WIDTH_ERROR` |
| FmtSpec.IntStep | lib.c:695-758 | an integer letter ends the directive one byte on, or returns `C42_FMT_WIDTH_ERROR` |
| FmtSpec.StrStep | lib.c:780-823 | `s` ends the directive one byte on, or returns `C42_FMT_WIDTH_ERROR` |
| FmtSpec.PrecStep | lib.c:824-836 | `.` changes only the precision, consumes at least one byte and never ends the directive |
| FmtSpec.ModStep | lib.c:676-855 | a modifier moves forward and keeps the variables in range; a command ends the directive one byte on; the only codes are MALFORMED and WIDTH_ERROR |
| FmtSpec.Directive | lib.c:661-856 | the modifier loop ends with a command past the `$`, or with MALFORMED or WIDTH_ERROR |
| FmtSpec.Cast | lib.c:695-758 | definition of the value each integer letter leaves in `i64` (truncating and sign-extending casts); 2^63 under `q` in `FmtProps.UnsignedQuadWrapsNegative` |
| FmtSpec.RadixMods | lib.c:759-779 | definition of the radix letters' effect, with the fall-through from lower to upper case; `x` read in `FmtProps.HexStringReads` |
| FmtSpec.Measure | lib.c:804-822 | definition of the width pass over converter output in int32_t; computed by `Fmt.MeasureConv`, one step in `Fmt.MeasureCons` |
| FmtSpec.Pad | lib.c:858-870 | definition of the padding calls; `n` spaces in calls of 1 to 64 in `FmtProps.PadSpaces` |
| FmtSpec.PadWidth | lib.c:858-859 | definition of `req_width - arg_width` with `arg_width` read as `size_t`; its use in `FmtProps.EmitsText` |
| FmtSpec.Emits | lib.c:858-919 | definition of a directive's calls: padding, content, padding; the text in `FmtProps.EmitsText` |
| FmtSpec.Run | lib.c:652-922 | definition of the engine from a template position; its codes in `FmtProps.RunCodes` |
| FmtSpec.RunAt | lib.c:660-922 | definition of the engine at a `$` or the end; its codes in `FmtProps.RunAtCodes` |
| FmtSpec.Format | lib.c:617-925 | definition of `c42_write_vfmt`'s calls and code; delivered by `FmtProps.DeliverFlat`, computed by `Fmt.WriteVFmt`, corrected in `FmtProps.FormatFixedDeliversSame` |
| FmtSpec.Feed | lib.c:858-922 | the writer never takes more than its room |
| FmtSpec.Deliver | lib.c:858-924 | the bytes delivered fit the writer's room |
| FmtProps.FeedCons | lib.c:875-876 | a call is taken whole when it fits and the engine goes on; otherwise it is cut and the engine stops |
| FmtProps.FeedAppend | lib.c:652-922 | two runs of calls: the second is delivered with the room the first leaves, only when the first was taken whole |
| FmtProps.FeedFlatten | lib.c:617-925 | the writer ends up with the first `room` bytes of all the output, and every call was taken whole exactly when all of it fits |
| FmtProps.DeliverFlat | lib.c:617-925 | the caller sees the engine's code and all its output when that fits, else `C42_FMT_WRITE_ERROR` with the output cut at the room |
| FmtProps.PadSpaces | lib.c:858-870 | the padding is exactly `n` spaces in as few calls of 1 to 64 bytes as possible |
| FmtProps.EmitsText | lib.c:858-919 | spaces before the content when right-aligned, after it when left-aligned, none by default; the count is `req_width - arg_width` when that is positive |
| FmtProps.HexWritesText | lib.c:892-904 | the hex pass writes exactly the hex text of the string, and its final call writes nothing |
| FmtProps.EscWritesDecode | lib.c:885-904 | from any point of the stream, the rest of the C-escape pass completes an output that reads back as all the input |
| FmtProps.EscWritesRoundTrip | lib.c:882-904 | the C-escape pass of a whole string reads back as the string |
| FmtProps.NumberValue | lib.c:683-684 | the width or precision digits give their decimal value modulo 2^64 |
| FmtProps.NumberFrom | lib.c:683-684 | the same from any digit on |
| FmtProps.NumberStep | lib.c:684 | one more digit keeps the accumulated value equal to the digits read, modulo 2^64 |
| FmtProps.WrapStep | lib.c:684 | `size_t` wrap-around commutes with appending a decimal digit |
| FmtProps.DigitsSnoc | lib.c:683 | a decimal digit appended keeps a digit string |
| FmtProps.LiteralOnly | lib.c:652-660 | a template without `$` is written in one call, then the NUL, with code 0 |
| FmtProps.UnknownDirective | lib.c:853-854 | a `$` followed by a byte that begins no directive returns `C42_FMT_MALFORMED` after the text before it |
| FmtProps.RunCodes | lib.c:617-925 | the engine's own codes are only 0, MALFORMED and WIDTH_ERROR, and on 0 the last call writes the NUL |
| FmtProps.PrefixCodes | lib.c:652-660 | calls made before keep that property |
| FmtProps.RunAtCodes | lib.c:660-922 | the same from a `$` or the end of the template |
| FmtProps.SingleDirective | lib.c:652-922 | a template that is one directive writes that directive's calls, then the NUL |
| FmtProps.ZeroFillExample | lib.c:698-709 | `$05B` with -52 writes `-0052` |
| FmtProps.ZeroFillInt | lib.c:698-709 | the `B` command reads -52 as a signed byte and renders it zero-filled in width 5, right-aligned |
| FmtProps.StringUnpaddedExample | lib.c:780-919 | `$5s` on "ab" writes "ab" without padding: `s` keeps the default alignment |
| FmtProps.ThreeSpaces | lib.c:862-869 | a padding of 3 is one call of three spaces |
| FmtProps.StringAb | lib.c:780-790 | `s` on the C string "ab" writes the two bytes, width 2 |
| FmtProps.RightAlignedReads | lib.c:674-856 | the directive `>5s` reads as right-aligned, width 5, on "ab" |
| FmtProps.RightAlignedWidth | lib.c:681-686 | the digits after `>` set the requested width |
| FmtProps.StringRightAlignedExample | lib.c:858-881 | `$>5s` on "ab" writes three spaces, then "ab" |
| FmtProps.PrecisionReads | lib.c:824-836 | `.3s` sets the precision to 3 and takes exactly three bytes |
| FmtProps.PrecisionPastNulExample | lib.c:782-783 | with a precision the string is not cut at its NUL |
| FmtProps.HexStringReads | lib.c:774-795 | `xs` selects the hex converter, with no width pass when no width is requested |
| FmtProps.ZeroLengthWriteExample | lib.c:900-904 | as written, `$xs` on 0xAB calls the writer with a length of 0 for the converter's final call |
| FmtProps.HexOneByte | lib.c:892-904 | the hex pass over one byte writes its two digits, then an empty final call |
| FmtProps.ZeroWithPrefixUndefined | lib.c:699-701 | `$xd` with 0 leaves `c42_i64_to_str` no digit width, which is undefined |
| FmtProps.CharExample | lib.c:687-694 | `$4c` with U+20AC writes its UTF-8 bytes, then one space of left padding |
| FmtProps.UnsignedQuadWrapsNegative | lib.c:722-724 | `q` stores a `uint64_t` in an `int64_t`: 2^63 prints with a minus sign |
| FmtProps.NonEmpty | c42.h:720-735 | the writes kept are non-empty and no more than before |
| FmtProps.NonEmptyFeedsSame | c42.h:720-735 | leaving out empty writes changes neither the bytes a writer takes nor whether every call was taken whole |
| FmtProps.FormatFixed | c42.h:725 | the corrected engine never calls the writer with a length of 0 |
| FmtProps.FormatFixedDeliversSame | lib.c:617-925 | the corrected engine is defined exactly when the engine as written is, and every writer sees the same code and bytes |
| FmtProps.ZeroLengthWriteFixed | lib.c:900-904 | the corrected engine writes the digits of `$xs` on 0xAB and the NUL in two calls |
| Fmt.Writer.constructor | c42.h:720-735 | a writer with nothing taken and the given room |
| Fmt.Writer.Write | c42.h:720-735 | the writer takes as many bytes as fit its room and reports how many |
| Fmt.Put | lib.c:658-659 | one writer call succeeds exactly when every byte was taken, and the writer holds what it took |
| Fmt.PutNext | lib.c:867-868 | one call of a run delivers what the run owes, or ends it with the cut call |
| Fmt.PutLast | lib.c:903-904 | the last call of a run delivers what the run owes |
| Fmt.WritePad | lib.c:858-870 | the padding loop delivers `Pad(n)` as `Feed` describes and succeeds exactly when it was taken whole |
| Fmt.WriteHex | lib.c:892-904 | the hex write pass delivers `HexWrites` as `Feed` describes |
| Fmt.HexFinal | lib.c:900-904 | the final hex call delivers its empty write |
| Fmt.HexChunk | lib.c:892-899 | one round of the hex pass delivers its chunk and moves forward, or stops with the cut chunk |
| Fmt.HexRound | lib.c:892-895 | one converted chunk is the first of the hex writes left, and the input position moves forward |
| Fmt.WriteEsc | lib.c:885-904 | the C-escape write pass delivers `EscWrites` as `Feed` describes |
| Fmt.EscChunk | lib.c:892-899 | one round of the escape pass delivers its chunk and moves forward, or stops with the cut chunk |
| Fmt.EscFinal | lib.c:900-904 | the final escape call flushes the byte held back as owed |
| Fmt.EscRound | lib.c:892-895 | one converted chunk is the first of the escape writes left, with the byte held back carried on |
| Fmt.ReadNumber | lib.c:683-685 | the number loop on the template array computes `Number` |
| Fmt.PrefixArray | lib.c:700-701 | the prefix passed to `c42_i64_to_str` is a fresh C string holding the prefix bytes, or none |
| Fmt.CharRound | lib.c:687-694 | the `c` command computes `CharStep` and leaves its bytes in the scratch buffer |
| Fmt.IntRound | lib.c:695-758 | the integer commands compute `IntStep` and leave the bytes in the scratch buffer |
| Fmt.MeasureConv | lib.c:804-822 | the width pass of a converted string computes `Measure` of the converter's writes |
| Fmt.MeasureCons | lib.c:813-815 | one call's width is added in `int32_t` arithmetic, or the pass fails with a width error |
| Fmt.MeasureHex | lib.c:804-822 | the hex width pass computes `Measure` of `HexWrites` |
| Fmt.HexWidthChunk | lib.c:807-816 | one round of the hex width pass adds its chunk's width or fails |
| Fmt.HexMeasureStep | lib.c:813-815 | the sum over the writes left is kept by one round |
| Fmt.MeasureEsc | lib.c:804-822 | the escape width pass computes `Measure` of `EscWrites` |
| Fmt.EscWidthChunk | lib.c:807-816 | one round of the escape width pass adds its chunk's width or fails |
| Fmt.EscMeasureStep | lib.c:807-816 | the sum over the writes left is kept by one round |
| Fmt.EscWidthFinal | lib.c:817-821 | the final call's width completes the sum |
| Fmt.StrRound | lib.c:780-823 | the `s` command computes `StrStep` |
| Fmt.PrecRound | lib.c:824-836 | the `.` modifier computes `PrecStep` |
| Fmt.ModRound | lib.c:676-855 | the `switch` on the template byte computes `ModStep` |
| Fmt.ReadDirective | lib.c:661-856 | the modifier loop computes `Directive` and leaves a formatted command's bytes in the scratch buffer |
| Fmt.FeedOne | lib.c:875-876 | a single call is taken whole or cut at the room |
| Fmt.WriteContent | lib.c:872-905 | the command's writes are delivered as `Feed` describes |
| Fmt.TookThen | lib.c:858-919 | two runs of calls made one after the other deliver their concatenation |
| Fmt.EmitDirective | lib.c:858-919 | padding and content are delivered as `Emits` lists them |
| Fmt.EmitTail | lib.c:872-919 | the content and the padding after it are delivered |
| Fmt.Advance | lib.c:652-922 | after a run taken whole, the engine still owes the calls after it |
| Fmt.ScanLiteral | lib.c:654-657 | the literal scan on the template array computes `Literal` |
| Fmt.EmitLiteral | lib.c:657-659 | the literal text is written when not empty, or the engine stops on a short write |
| Fmt.LiteralStep | lib.c:652-660 | the template's writes are its literal text, then the NUL at the end or the writes from the `$` |
| Fmt.DirectiveStep | lib.c:660-920 | at a `$` the engine stops with a code and no write, or writes the directive and goes on after it |
| Fmt.ReadStep | lib.c:661-856 | the directive read from the template array is as `DirectiveStep` describes |
| Fmt.EmitRound | lib.c:858-919 | the directive's writes are delivered as the first the engine owes, or the engine stops |
| Fmt.WriteVFmt | lib.c:617-925 | the writer takes what `Format` lists until a call is cut; the code returned is the engine's own or `C42_FMT_WRITE_ERROR` after a short write |
| Fmt.LiteralRound | lib.c:652-660 | the literal text is scanned and written, and the engine ends at the NUL or goes on at the `$` |
| Fmt.DirectiveRound | lib.c:661-920 | the directive is read and written, or the engine stops with its code |
| Fmt.WriteTemplate | lib.c:652-924 | the template loop delivers all the template's writes and returns its code, or `C42_FMT_WRITE_ERROR` |
| RbTree.RbTree.Init | lib.c:1420-1430 | the new tree is empty, which meets the red/black invariants |
| RbTree.RbTree.Find | lib.c:1437-1474 | the path and the node reached rebuild the tree; each step went left of a larger key and right of a smaller one; FOUND ends at a node holding the key and NOT_FOUND at a null link; in an ordered tree the result is FOUND exactly when the key is in the tree |
| RbTree.SearchBounds | lib.c:1446-1468 | in an ordered tree, every key before the end of a search path is smaller than the key searched for and every key after it is larger |
| RbTree.InOrderPlug | c42.h:1869-1880 | the keys of a tree rebuilt from a path, in order, are those before the path's end, the subtree's, then those after |
| RbTree.Index | c42.h:1869-1880 | the position of a node in the in-order keys of the whole tree holds that node's key |
| RbTree.ValidPlug | c42.h:1883-1889 | a tree rebuilt from a path meets the red and black-height rules exactly when the subtree does and the path accepts its black height and colour |
| RbTree.Np | lib.c:1480-1505 | with no link on `side` nothing moves; otherwise the path is extended by the start node and a run of frames on the other side, the node reached has no link on that other side, and its key is next to the start node's among all the keys |
| RbTree.NpAdjacent | lib.c:1490-1504 | the node the walk reaches is one position after (MORE) or before (LESS) the start node in the in-order keys |
| RbTree.RbTree.Insert | lib.c:1513-1574 | after a NOT_FOUND path, the tree is red/black again and its keys are those before the path's end, the new key, then those after |
| RbTree.InsertOrdered | lib.c:1513-1529 | adding the searched-for key at the end of its search path keeps the keys ordered and adds exactly that key |
| RbTree.InsertStart | lib.c:1525-1529 | a red leaf at the null link where the search ended is a subtree the path accepts but for a red parent, under a black root |
| RbTree.InsertBlackParent | lib.c:1533-1534 | with a black parent the tree is already red/black |
| RbTree.InsertRedParent | lib.c:1535-1536 | a red parent is not the root, so there is a grandparent |
| RbTree.RepaintStep | lib.c:1538-1546 | parent and uncle turn black, the grandparent red: the grandparent's subtree is valid, red, of the height its path expects, with the same keys |
| RbTree.InsertRepaint | lib.c:1538-1546 | after the repaint the subtree to repair is the grandparent, two frames up, and the whole tree keeps its keys |
| RbTree.DoubleRotateStep | lib.c:1548-1569 | node and parent on opposite sides: the node rises black over both, red parent and grandparent below, valid and of the path's black height, with the same keys |
| RbTree.InsertDoubleRotate | lib.c:1548-1569 | the whole tree after the double rotation is red/black and keeps its keys |
| RbTree.RotateStep | lib.c:1559-1569 | node and parent on the same side: the parent rises black with the grandparent red below, valid and of the path's black height, with the same keys |
| RbTree.InsertRotate | lib.c:1559-1569 | the whole tree after the rotation is red/black and keeps its keys |
| RbTree.RbTree.Delete | lib.c:1580-1711 | the node at the end of a FOUND path is gone: the tree is red/black and its keys are those before the node, its two subtrees', then those after |
| RbTree.DeleteOrdered | lib.c:1580-1711 | in an ordered tree, the keys left after a delete are ordered and are exactly the old keys but the deleted one |
| RbTree.SwapStep | lib.c:1600-1613 | a node with two children takes its neighbour's key, on the side it hangs from its parent; the tree stays red/black, the neighbour has at most one child, and removing it leaves the keys that removing the node would |
| RbTree.SwapValid | lib.c:1606-1612 | changing a key on the path keeps the tree red/black: colours and links stay in place |
| RbTree.SwapOrderLess | lib.c:1602-1612 | the predecessor's key in the node's place, with the predecessor removed, gives the node's keys without the node's |
| RbTree.SwapOrderMore | lib.c:1602-1612 | the successor's key in the node's place, with the successor removed, gives the node's keys without the node's |
| RbTree.RbTree.Unlink | lib.c:1616-1643 | the node, which has at most one child, is gone: the tree is red/black and its keys are those before the node, its subtrees', then those after |
| RbTree.RemoveRed | lib.c:1623-1628 | a red node with at most one child has none, and a null link in its place keeps the tree red/black |
| RbTree.RemoveWithChild | lib.c:1633-1637 | a black node's only child is red, and that child in black in its place keeps the tree red/black and the child's keys |
| RbTree.RemoveBlackLeaf | lib.c:1640-1643 | a null link in a black leaf's place is one black node short of what its path needs |
| RbTree.RbTree.Rebalance | lib.c:1645-1708 | starting one black node short, the walk up the path leaves a red/black tree with the same keys |
| RbTree.ShortSibling | lib.c:1648-1651 | the sibling of the short subtree is a node, and a red sibling has a black parent |
| RbTree.FixRedSibling | lib.c:1651-1664 | the rotation at the parent keeps the keys and leaves the short subtree under a red parent with a black sibling |
| RbTree.RedSiblingStep | lib.c:1651-1664 | case 2 on the whole tree: the loop state holds again on the longer path, the parent is red, the sibling black, the keys the same |
| RbTree.FixRecolour | lib.c:1665-1673 | with parent, sibling and its children black, the sibling turns red and the parent's subtree is valid and one short, with the same keys |
| RbTree.RecolourStep | lib.c:1665-1673 | case 3 on the whole tree: the shortfall moves one frame up and the keys stay |
| RbTree.FixRedParent | lib.c:1678-1684 | red parent, black sibling with black children: swapping their colours gives a valid black subtree of the height the path needs, same keys |
| RbTree.RedParentStep | lib.c:1678-1684 | case 4 on the whole tree: the tree is red/black and keeps its keys |
| RbTree.FixNearNephew | lib.c:1685-1695 | the rotation at the sibling gives a black sibling of the same height and keys whose far child is red |
| RbTree.NearNephewStep | lib.c:1685-1695 | the whole tree keeps its keys and the loop state, now with a red far child |
| RbTree.FixFarNephew | lib.c:1696-1707 | the rotation at the parent gives a valid subtree of the parent's colour and of the height the path needs, with the same keys |
| RbTree.FarNephewStep | lib.c:1696-1707 | the final rotation on the whole tree: the tree is red/black and keeps its keys |
| RbTree.NpStopsShort | lib.c:1491-1493 | a red/black tree where the start node has no link on MORE, yet a larger key follows it in the tree |
| RbTree.NpClimb | c42.h:1946-1954 | the neighbour is found exactly when one exists among all the keys, and it sits one position after or before the start node |

## Left out

- The red/black tree is a value: `root` stands for the guard's left link and a path is a list of frames. The in-place rewiring of links, node identity and aliasing are not modelled. The node struct swap of a delete with two children (lib.c:1606-1612) becomes moving the neighbour's key into the node's place, which is its net effect on the tree.
- The comparison callback of `c42_rbtree_find` is replaced by the order on integer keys, with the key stored in the node. Its `C42_RBTREE_ERROR` result, and the ERROR status `c42_rbtree_find` returns for it, are not modelled.
- The `C42_RBTREE_MAX_DEPTH` bound of 64 entries on a path is not modelled: paths are unbounded sequences. Since a red/black tree of n nodes is at most 2·log2(n+1) deep, exceeding it takes at least 2^32 - 1 nodes.
- RbTree.RbTree.Insert: requires the path of a NOT_FOUND search. After a FOUND search `sides[last]` is EQUAL, and the C code would write `links[2]`, which is undefined.
- RbTree.RbTree.Delete: requires the path of a FOUND search, whose last node is the one removed, as the header documents.
- The I/O stream layer (`c42_io8_read/write/...`, `io8_utf8_writer`, `c42_io8_wvfmt`, lib.c:959-1146) is host stream dispatch through function pointers. It is left out; only the in-memory stream `io8bc_write` is modelled.
- `c42_write_fmt` and the `va_arg` calls are replaced by a sequence of tagged arguments. The per-letter C casts become `FmtSpec.Cast`, assuming a 32-bit `int` and a 64-bit `long`, `size_t` and pointer. A missing or mistyped argument is `Undefined`.
- The width tables of `c42_ucp_term_width` (lib.c:388-397) are external data. The per-code-point width is a function parameter with range -1..2, and only the summing and overflow logic of `c42_utf8_term_width` is modelled.
- Allocator, threading, file system and platform-detection interfaces are left out: they are host services and configuration.
- Utf16.Utf16LeToUtf8LenOf: the result -3, for a count that overflows `ptrdiff_t`, is not modelled, because counts are unbounded integers here.
- Utf16.Utf16LeToUtf8: requires an even length. The C converter reads past the end on an odd length, and the header asks callers to size the input with `c42_utf16le_to_utf8_len` first, which rejects odd lengths.
- Utf8.Utf8Validate: `ok_len_p` is always given. A NULL `ok_len_p` is not modelled; the C writes through it unguarded for code 2 (lib.c:413). The method requires three readable bytes after the input, which is what the C code reads.
- Utf8.Utf8TermWidth: requires the input to split into whole UTF-8 sequences, because `c42_ucp_from_valid_utf8` is only defined on valid input.
- Numerals.U64ToStr: requires `width >= 1 || value != 0`. With both 0 no digit is written and `i` stays 0, so the reversal's `b = i - 1` wraps to `UINT_MAX` (lib.c:273); then `a < b` holds and the first swap reads and writes `str[UINT_MAX]`, out of bounds of the buffer, which is undefined (lib.c:273-277). `FmtProps.ZeroWithPrefixUndefined` shows that `$xd` with 0 reaches it.
- Numerals.I64ToStr: requires the same of its body, whose width is what the sign and prefix leave. SIGN_NEG negates INT64_MIN (lib.c:304), which C leaves undefined; the model takes the two's-complement result, whose body renders 2^63.
- The output buffers of every method are required to be large enough. The C functions take their size on trust.
- EscStream.CEscapeCtx.Convert: the outputs the C leaves unwritten on an empty input (lib.c:1347) are modelled as the caller's previous values `inUsed0` and `outUsed0`, returned unchanged.
- EscStream.CEscapeCtx.Finish: a call with input after the final call is not modelled. The final call leaves `crt_byte` as it was (lib.c:1398-1409), and the model keeps that.
- Fmt.WriteVFmt: the template is given as an array holding a NUL. The C code's pointer walks become indices, and the converters read the rest of the string through a fresh copy. A template whose outcome is `Undefined` (a missing argument, an over-read, a rendering past the 0x400-byte scratch buffer) is excluded by the requires.
- Fmt.WriteVFmt: the sum of widths in the conversion width pass is `int32_t` arithmetic, modelled as wrap-around (`Bytes.ToI32`).
- Fmt.WriteVFmt: `C42_FMT_CONV_ERROR` and `C42_FMT_NO_CODE` are never returned, because the converters the engine uses never fail and `esc_mode` only takes its three values. `FmtProps.RunCodes` proves it.
- FmtSpec.HexWrites and FmtSpec.EscWrites state only that the final call is made. What the writes contain is stated by `FmtProps.HexWritesText` and `FmtProps.EscWritesRoundTrip`.

## Findings

| source | as written | input that shows it | evidently intended | confidence | as-written member | corrected member |
|---|---|---|---|---|---|---|
| lib.c:117-118 | `byte_c_escape_len` sizes every byte from 0x80 up as 2 | the byte 0x80: sized 2, but `c42_u8a_c_escape` writes `\200` or `\x80`, 4 bytes | 4 for every byte that needs a numeric escape, so that `c42_u8a_c_escape_len` sizes the output | not executed | CEscape.EscapeLenUndercounts | CEscape.ByteCEscapeLenFixed, CEscape.OneShotFixedLength |
| lib.c:157-160 | the hex-lookahead test uses `< '9'`, `< 'F'`, `< 'f'`, so it misses 9, F and f | the bytes 0x01 '9' are escaped as `\x019`, which C reads as the single byte 0x19 | the octal form whenever the next byte is a hex digit, making the output lossless | not executed | CEscape.OneShotLosesNextDigit | CEscape.OneShotFixed, CEscape.OneShotFixedDecodes |
| lib.c:311 | SIGN_ALWAYS and SIGN_ALIGN do `value -= value` for a negative value (also lib.c:320) | -5 under SIGN_ALWAYS in width 2 renders "-0" | `value = -value`, rendering "-5" | not executed | Numerals.I64AlwaysLosesMagnitude | Numerals.I64TextFixed, Numerals.I64FixedRoundTrip |
| lib.c:530 | the length function adds 1 below 0x800 and 2 at or above | the unit U+00E9 is sized 1, but the converter writes C3 A9 | 1 below 0x80, 2 below 0x800, 3 otherwise: the length of the converter's output | not executed | Utf16.LenUndercounts | Utf16.Utf16LeToUtf8LenFixed, Utf16.LenFixedIsOutputLength |
| lib.c:414-416 | the validator reads the continuation bytes without checking the end of the input (also lib.c:431, 451) | the one-byte input C3, with A9 in memory after it, is reported valid | report the sequence unterminated (code 1, which the header documents) | not executed | Utf8.ValidateReadsPastEnd | Utf8.ValidateFixed, Utf8.ValidateFixedSound, Utf8.FixedAgrees |
| lib.c:1309-1310 | `c_escape_force_hex` writes a backslash and the raw byte for bytes from 0x80 up, because `byte_c_escape_len` gives them 2 | the byte 0x80 becomes `\` followed by 0x80, which is no escape the C standard defines | `\x80`, as the header's description of the function promises | not executed | Clconv.ForceHexHighByte | Clconv.ForceHexItemFixed, Clconv.ForceHexFixedDecodes |
| lib.c:900-904 | the converter's final call is written even when it produced nothing; `$s` on an empty string also writes 0 bytes (lib.c:879) | `$xs` on the byte 0xAB calls the writer with a length of 0 | no call of length 0, as the writer's documentation requires (c42.h:725) | not executed | FmtProps.ZeroLengthWriteExample | FmtProps.FormatFixed, FmtProps.FormatFixedDeliversSame |
| lib.c:1491-1493 | `c42_rbtree_np` gives up when the node has no link on the requested side | in the tree with root 2 and left child 1, the path to 1 and MORE: NULL, though 2 is the next node | the next or previous node among all the keys, as the header's description (c42.h:1948) promises, found by climbing the path when there is no link below | not executed; the library's only caller, the delete, calls it on a node with both links | RbTree.Np, RbTree.NpStopsShort | RbTree.NpClimb |
| lib.c:266 | the separator test `++g == group` fires after the 64th digit when `group` is 64, although the header says "use 64 or above to disable grouping" (c42.h:437, c42.h:485); the formatter's default group is 64 (lib.c:670) | 0 in radix 2 with width 64 and group 64 renders as `_` followed by 64 zeros, which `c42_u64_from_str` stops on at once | no separator for any group of 64 or more, so that the rendered text parses back | not executed | Numerals.Group64Separates | Numerals.RenderFixed, Numerals.RoundTripFixed |
| lib.c:1380 | `c42_clconv_c_escape` returns FULL after writing the item of the last input byte when that byte is plain or has a short escape (also lib.c:1388), although all input was used and the output may have room | the input "A" with 8 bytes of room: A is written, all input used, status FULL | OK, which the header defines as "entire input used", keeping FULL for an output that cannot hold the next item (c42.h:868-891); the formatting engine accepts both alike (lib.c:896), so what it writes does not change | not executed | EscStream.FullAfterLastByte | EscStream.EscapeChunkFixedStatus |
