/** The streaming C escaper `c42_clconv_c_escape` and its context: a byte whose
    escape depends on the byte after it (a numeric escape is octal when a hex digit
    follows and `\xHH` otherwise) is held back in the context field `crt_byte` until
    the next chunk or the final call shows what follows. */
module EscStream {
  import opened Bytes
  import opened Prim
  import opened CEscape
  import opened Clconv

  /** The context field `crt_byte`: -1 when no byte is held back. */
  type Pending = x: int | -1 <= x < 0x100

  const NO_BYTE: Pending := -1

  /** A byte that needs a numeric escape: escaped, but with no short form. */
  predicate Numeric(v: u8)
  {
    NeedsEscape(v) && !ShortEscape(v)
  }

  /** `\xHH`, the form the final call writes for the byte held back. */
  function HexEscape(v: u8): (r: seq<u8>)
    ensures |r| == 4
  {
    [BACKSLASH, LETTER_X] + HexPair(v)
  }

  /** What one call with input reports: status, input used, bytes written and the
      new value of `crt_byte`. */
  datatype EscOut = EscOut(status: nat, used: nat, bytes: seq<u8>, pending: Pending)

  function PrependOut(b: seq<u8>, r: EscOut): EscOut
  {
    EscOut(r.status, r.used, b + r.bytes, r.pending)
  }

  /** The loop of `c42_clconv_c_escape` with `v` the byte in hand and `i` the next input
      position. A numeric escape is written only once the next byte is known: at the
      end of the input the byte stays in hand and the call returns OK. A short escape or
      a plain byte is written at once; if it was the last input byte the call returns
      FULL with nothing held back. A byte whose item does not fit stays in hand and the
      call returns FULL. */
  function EscLoop(v: u8, s: seq<u8>, i: nat, room: nat): (r: EscOut)
    requires i <= |s|
    decreases |s| - i
    ensures i <= r.used <= |s| && |r.bytes| <= room
    ensures r.status in {CLCONV_OK, CLCONV_FULL}
    ensures r.status == CLCONV_OK ==> r.used == |s| && r.pending >= 0 && Numeric(r.pending)
    ensures r.pending == NO_BYTE ==> r.used == |s| && r.status == CLCONV_FULL
    ensures r.pending >= 0 && r.status == CLCONV_FULL ==>
              |r.bytes| + ByteCEscapeLenFixed(r.pending) > room
    ensures r.status == CLCONV_OK ==> |r.bytes| + 4 <= room
  {
    if Numeric(v) then
      if room < 4 then EscOut(CLCONV_FULL, i, [], v)
      else if i == |s| then EscOut(CLCONV_OK, i, [], v)
      else PrependOut(StreamItem(v, Some(s[i])), EscLoop(s[i], s, i + 1, room - 4))
    else
      var item := StreamItem(v, None);
      if |item| > room then EscOut(CLCONV_FULL, i, [], v)
      else if i == |s| then EscOut(CLCONV_FULL, i, item, NO_BYTE)
      else PrependOut(item, EscLoop(s[i], s, i + 1, room - |item|))
  }

  /** A call of `c42_clconv_c_escape` with non-empty input `s`: the byte in hand from the
      previous call comes first, otherwise the first input byte. */
  function EscapeChunk(pending: Pending, s: seq<u8>, room: nat): (r: EscOut)
    requires s != []
    ensures r.used <= |s|
  {
    if pending < 0 then EscLoop(s[0], s, 1, room) else EscLoop(pending, s, 0, room)
  }

  // ---------------------------------------------------------------------------
  // The stream invariant.

  function Last(s: seq<u8>): u8
    requires s != []
  {
    s[|s| - 1]
  }

  /** The items of every byte of `s` but the last, each with its real successor. */
  function StreamHead(s: seq<u8>): seq<u8>
    requires s != []
  {
    if |s| == 1 then [] else StreamItem(s[0], Some(s[1])) + StreamHead(s[1..])
  }

  /** What the escaper has written so far, `emitted`, for the bytes it has consumed,
      `fed`: with a byte in hand, every item before it; with none, the whole escape of
      `fed`, whose last byte then is one that needs no lookahead. */
  ghost predicate StreamState(fed: seq<u8>, emitted: seq<u8>, pending: Pending)
  {
    if pending == NO_BYTE then emitted == StreamEscape(fed) && (fed == [] || !Numeric(Last(fed)))
    else fed != [] && Last(fed) == pending && emitted == StreamHead(fed)
  }

  lemma {:induction false} StreamSplit(s: seq<u8>)
    requires s != []
    ensures StreamEscape(s) == StreamHead(s) + StreamItem(Last(s), None)
  {
    if |s| > 1 {
      StreamSplit(s[1..]);
      assert Last(s[1..]) == Last(s);
    }
  }

  lemma {:induction false} StreamHeadSnoc(s: seq<u8>, b: u8)
    requires s != []
    ensures StreamHead(s + [b]) == StreamHead(s) + StreamItem(Last(s), Some(b))
  {
    var t := s + [b];
    assert t[0] == s[0];
    if |s| == 1 {
      assert t[1..] == [b];
    } else {
      assert t[1..] == s[1..] + [b];
      StreamHeadSnoc(s[1..], b);
      assert Last(s[1..]) == Last(s);
    }
  }

  /** A byte that needs no lookahead has the same item whatever follows it. */
  lemma {:induction false} ItemWithoutLookahead(v: u8, b: u8)
    requires !Numeric(v)
    ensures StreamItem(v, Some(b)) == StreamItem(v, None)
  {
  }

  /** The loop keeps the stream invariant: consuming input positions `i..r.used` and
      writing `r.bytes` moves from one state of the stream to the next. */
  lemma {:induction false} EscLoopKeeps(v: u8, s: seq<u8>, i: nat, room: nat, fed: seq<u8>, emitted: seq<u8>)
    requires i <= |s| && fed != [] && Last(fed) == v && emitted == StreamHead(fed)
    ensures var r := EscLoop(v, s, i, room);
            StreamState(fed + s[i..r.used], emitted + r.bytes, r.pending)
    decreases |s| - i
  {
    var r := EscLoop(v, s, i, room);
    if i < |s| && |StreamItem(v, Some(s[i]))| <= room {
      var item := StreamItem(v, Some(s[i]));
      var r2 := EscLoop(s[i], s, i + 1, room - |item|);
      EscLoopStep(v, s, i, room);
      assert r == PrependOut(item, r2);
      StreamHeadSnoc(fed, s[i]);
      EscLoopKeeps(s[i], s, i + 1, room - |item|, fed + [s[i]], emitted + item);
      KeepsAdvance(fed, emitted, item, s, i, r2);
    } else {
      KeepsStop(v, s, i, room, fed, emitted);
    }
  }

  /** The stream invariant when the loop stops at `i`. */
  lemma {:induction false} KeepsStop(v: u8, s: seq<u8>, i: nat, room: nat, fed: seq<u8>, emitted: seq<u8>)
    requires i <= |s| && fed != [] && Last(fed) == v && emitted == StreamHead(fed)
    requires !(i < |s| && |StreamItem(v, Some(s[i]))| <= room)
    ensures var r := EscLoop(v, s, i, room);
            StreamState(fed + s[i..r.used], emitted + r.bytes, r.pending)
  {
    var r := EscLoop(v, s, i, room);
    EscLoopStops(v, s, i, room);
    assert fed + s[i..r.used] == fed;
    if r.pending == NO_BYTE {
      StreamSplit(fed);
      assert emitted + r.bytes == StreamEscape(fed);
    } else {
      assert emitted + r.bytes == emitted;
    }
  }

  /** One step of the loop when the item of `v` fits and a next byte exists. */
  lemma {:induction false} EscLoopStep(v: u8, s: seq<u8>, i: nat, room: nat)
    requires i < |s| && |StreamItem(v, Some(s[i]))| <= room
    ensures EscLoop(v, s, i, room) ==
            PrependOut(StreamItem(v, Some(s[i])), EscLoop(s[i], s, i + 1, room - |StreamItem(v, Some(s[i]))|))
  {
    if !Numeric(v) {
      ItemWithoutLookahead(v, s[i]);
    }
  }

  /** Regrouping one step of the loop: the state after the byte at `i` and the rest of
      the call is the state after the call. */
  lemma {:induction false} KeepsAdvance(fed: seq<u8>, emitted: seq<u8>, item: seq<u8>, s: seq<u8>, i: nat, r2: EscOut)
    requires i < |s| && i + 1 <= r2.used <= |s|
    requires StreamState(fed + [s[i]] + s[i + 1..r2.used], emitted + item + r2.bytes, r2.pending)
    ensures var r := PrependOut(item, r2);
            StreamState(fed + s[i..r.used], emitted + r.bytes, r.pending)
  {
    Regroup(fed, s, i, r2.used);
    ConcatAssoc(emitted, item, r2.bytes);
  }

  lemma {:induction false} Regroup(fed: seq<u8>, s: seq<u8>, i: nat, j: nat)
    requires i < j <= |s|
    ensures fed + [s[i]] + s[i + 1..j] == fed + s[i..j]
  {
    assert s[i..j] == [s[i]] + s[i + 1..j];
  }

  /** When the item of `v` does not fit or no byte follows, the loop stops at `i`: it
      writes nothing and keeps `v` in hand, except that a byte that needs no lookahead
      and fits is written and nothing is kept. */
  lemma {:induction false} EscLoopStops(v: u8, s: seq<u8>, i: nat, room: nat)
    requires i <= |s| && !(i < |s| && |StreamItem(v, Some(s[i]))| <= room)
    ensures var r := EscLoop(v, s, i, room);
            r.used == i &&
            (if r.pending == NO_BYTE then !Numeric(v) && r.bytes == StreamItem(v, None)
             else r.pending == v && r.bytes == [])
  {
    if i < |s| && !Numeric(v) {
      ItemWithoutLookahead(v, s[i]);
    }
  }

  /** Every call with input keeps the stream invariant. */
  lemma {:induction false} EscapeChunkKeeps(fed: seq<u8>, emitted: seq<u8>, pending: Pending, s: seq<u8>, room: nat)
    requires StreamState(fed, emitted, pending) && s != []
    ensures var r := EscapeChunk(pending, s, room);
            StreamState(fed + s[..r.used], emitted + r.bytes, r.pending)
  {
    var r := EscapeChunk(pending, s, room);
    if pending < 0 {
      FreshByteKeeps(fed, emitted, s, room);
    } else {
      EscLoopKeeps(pending, s, 0, room, fed, emitted);
      assert s[0..r.used] == s[..r.used];
    }
  }

  /** With nothing held back, the first input byte becomes the byte in hand. */
  lemma {:induction false} FreshByteKeeps(fed: seq<u8>, emitted: seq<u8>, s: seq<u8>, room: nat)
    requires StreamState(fed, emitted, NO_BYTE) && s != []
    ensures var r := EscLoop(s[0], s, 1, room);
            StreamState(fed + s[..r.used], emitted + r.bytes, r.pending)
  {
    var r := EscLoop(s[0], s, 1, room);
    SettledHead(fed, emitted, s[0]);
    EscLoopKeeps(s[0], s, 1, room, fed + [s[0]], emitted);
    Regroup(fed, s, 0, r.used);
    assert s[0..r.used] == s[..r.used];
  }

  /** A settled stream followed by one more byte: what was written is the head. */
  lemma {:induction false} SettledHead(fed: seq<u8>, emitted: seq<u8>, b: u8)
    requires StreamState(fed, emitted, NO_BYTE)
    ensures Last(fed + [b]) == b && emitted == StreamHead(fed + [b])
  {
    if fed == [] {
      assert StreamHead(fed + [b]) == [];
    } else {
      StreamSplit(fed);
      ItemWithoutLookahead(Last(fed), b);
      StreamHeadSnoc(fed, b);
    }
  }

  /** A numeric or `\x` item decodes to its byte when the text after it begins with the
      next byte's item or with a backslash. */
  lemma {:induction false} DecodeBefore(v: u8, b: u8, rest: seq<u8>)
    requires rest != [] && (rest[0] == ItemHead(b) || rest[0] == BACKSLASH)
    ensures Unescape(StreamItem(v, Some(b)) + rest) == [v] + Unescape(rest)
  {
    if !NeedsEscape(v) {
      DecodeRaw(v, rest);
    } else if ShortEscape(v) {
      DecodeShort(v, rest);
    } else if IsHexDigit(b) {
      DecodeOct(v, rest);
    } else {
      DecodeHex(v, rest);
    }
  }

  /** The output of a stream whose last byte is written by the final call as `\xHH`. */
  function FlushedEscape(s: seq<u8>): seq<u8>
    requires s != []
  {
    if |s| == 1 then HexEscape(s[0]) else StreamItem(s[0], Some(s[1])) + FlushedEscape(s[1..])
  }

  lemma {:induction false} FlushedSplit(s: seq<u8>)
    requires s != []
    ensures FlushedEscape(s) == StreamHead(s) + HexEscape(Last(s))
  {
    if |s| > 1 {
      FlushedSplit(s[1..]);
      assert Last(s[1..]) == Last(s);
    }
  }

  lemma {:induction false} FlushedDecodes(s: seq<u8>)
    requires s != []
    ensures Unescape(FlushedEscape(s)) == s
  {
    if |s| == 1 {
      DecodeHex(s[0], []);
      assert HexEscape(s[0]) + [] == HexEscape(s[0]);
    } else {
      var rest := FlushedEscape(s[1..]);
      FlushedDecodes(s[1..]);
      if |s| > 2 {
        assert rest == StreamItem(s[1], Some(s[2])) + FlushedEscape(s[2..]);
        assert rest[0] == StreamItem(s[1], Some(s[2]))[0];
      }
      DecodeBefore(s[0], s[1], rest);
      assert s == [s[0]] + s[1..];
    }
  }

  /** The whole output of a stream whose last byte was held back and flushed by the
      final call decodes back to the stream: the escaper is lossless. When the byte
      held back needs a numeric escape, the output is exactly the reference escape. */
  lemma {:induction false} FlushDecodes(fed: seq<u8>, emitted: seq<u8>, pending: Pending)
    requires StreamState(fed, emitted, pending) && pending >= 0
    ensures Unescape(emitted + HexEscape(pending)) == fed
    ensures Numeric(pending) ==> emitted + HexEscape(pending) == StreamEscape(fed)
  {
    FlushedSplit(fed);
    FlushedDecodes(fed);
    StreamSplit(fed);
  }

  /** With nothing held back, what was written already decodes back to the stream. */
  lemma {:induction false} SettledDecodes(fed: seq<u8>, emitted: seq<u8>)
    requires StreamState(fed, emitted, NO_BYTE)
    ensures Unescape(emitted) == fed
  {
    StreamEscapeDecodes(fed);
  }

  // ---------------------------------------------------------------------------
  // Examples of the return codes.

  /** A plain last byte is written at once and the call returns FULL although all the
      input was used and the output has room left. */
  lemma FullAfterLastByte()
    ensures EscapeChunk(NO_BYTE, ['A' as int], 8) == EscOut(CLCONV_FULL, 1, ['A' as int], NO_BYTE)
  {
  }

  /** The status `c42_clconv_c_escape` evidently means to return: when the item of the
      last input byte has been written, all of the input is used and nothing is held
      back, so the call reports OK rather than FULL. Input used, bytes written and the
      byte in hand are those of the call as written. */
  function EscapeChunkFixed(pending: Pending, s: seq<u8>, room: nat): EscOut
    requires s != []
  {
    var r := EscapeChunk(pending, s, room);
    if r.pending == NO_BYTE then r.(status := CLCONV_OK) else r
  }

  /** With the corrected status a call reports FULL exactly when the output cannot hold
      the escape of the byte left in hand, and OK only once all of the input is used;
      nothing else differs from the call as written. */
  lemma EscapeChunkFixedStatus(pending: Pending, s: seq<u8>, room: nat)
    requires s != []
    ensures var r := EscapeChunkFixed(pending, s, room);
            var w := EscapeChunk(pending, s, room);
            r.used == w.used && r.bytes == w.bytes && r.pending == w.pending &&
            r.status in {CLCONV_OK, CLCONV_FULL} &&
            (r.status == CLCONV_OK ==> r.used == |s|) &&
            (r.status == CLCONV_FULL <==> r.pending >= 0 && |r.bytes| + ByteCEscapeLenFixed(r.pending) > room)
  {
  }

  /** The call of `FullAfterLastByte`, with the corrected status: OK. */
  lemma LastByteFixedOk()
    ensures EscapeChunkFixed(NO_BYTE, ['A' as int], 8) == EscOut(CLCONV_OK, 1, ['A' as int], NO_BYTE)
  {
  }

  /** A last byte that needs a numeric escape is held back and the call returns OK
      having written nothing. */
  lemma OkWithByteHeld()
    ensures EscapeChunk(NO_BYTE, [1], 8) == EscOut(CLCONV_OK, 1, [], 1)
  {
  }

  /** A plain byte that found no room is held back and later flushed as `\x41`. */
  lemma PlainByteFlushedAsHex()
    ensures EscapeChunk(NO_BYTE, ['A' as int, 'A' as int], 1) == EscOut(CLCONV_FULL, 2, ['A' as int], 'A' as int)
    ensures HexEscape('A' as int) == [BACKSLASH, LETTER_X, '4' as int, '1' as int]
  {
    var s: seq<u8> := ['A' as int, 'A' as int];
    assert EscLoop('A' as int, s, 2, 0) == EscOut(CLCONV_FULL, 2, [], 'A' as int);
  }

  // ---------------------------------------------------------------------------
  // The context object and the C function.

  /** `c42_clconv_c_escape_t` with the calls of `c42_clconv_c_escape` made on it; `fed`
      and `emitted` record the stream consumed and written so far. */
  class CEscapeCtx {
    var crtByte: Pending
    ghost var fed: seq<u8>
    ghost var emitted: seq<u8>

    ghost predicate Valid()
      reads this
    {
      StreamState(fed, emitted, crtByte)
    }

    /** `c42_clconv_c_escape_init`. */
    constructor Init()
      ensures crtByte == NO_BYTE && fed == [] && emitted == []
      ensures Valid()
    {
      crtByte := NO_BYTE;
      fed := [];
      emitted := [];
    }

    /** `c42_clconv_c_escape` with input. An empty input returns OK at once without
        writing the caller's counters, modelled by handing back `inUsed0` and
        `outUsed0`. */
    method Convert(inp: array<u8>, inLen: nat, out: array<u8>, outLen: nat, inUsed0: nat, outUsed0: nat)
      returns (status: nat, inUsed: nat, outUsed: nat)
      requires inLen <= inp.Length && outLen <= out.Length && out != inp
      modifies this, out
      ensures inLen == 0 ==> status == CLCONV_OK && inUsed == inUsed0 && outUsed == outUsed0
      ensures inLen == 0 ==> unchanged(this) && unchanged(out)
      ensures inLen > 0 ==> outUsed <= outLen
      ensures inLen > 0 ==>
                EscOut(status, inUsed, out[..outUsed], crtByte) == EscapeChunk(old(crtByte), inp[..inLen], outLen)
      ensures inLen > 0 ==> fed == old(fed) + inp[..inUsed] && emitted == old(emitted) + out[..outUsed]
      ensures inLen > 0 ==> forall k :: outUsed <= k < out.Length ==> out[k] == old(out[k])
      ensures old(Valid()) ==> Valid()
    {
      if inLen == 0 {
        return CLCONV_OK, inUsed0, outUsed0;
      }
      ghost var s := inp[..inLen];
      ghost var r := EscapeChunk(crtByte, s, outLen);
      if Valid() {
        EscapeChunkKeeps(fed, emitted, crtByte, s, outLen);
      }
      var next: Pending;
      status, next, inUsed, outUsed := EscapeRun(inp, inLen, out, outLen, crtByte);
      assert inp[..inLen] == s && inp[..inUsed] == s[..r.used];
      crtByte := next;
      fed := fed + inp[..inUsed];
      emitted := emitted + out[..outUsed];
    }

    /** `c42_clconv_c_escape` called with no input, as the final call: writes `\xHH` for
        the byte held back, if any; without room for it, returns FULL writing nothing
        and leaving the caller's output count, `outUsed0`, as it was. `crt_byte` is not
        cleared, so a second final call would write the same escape again. */
    method Finish(out: array<u8>, outLen: nat, outUsed0: nat) returns (status: nat, outUsed: nat)
      requires outLen <= out.Length
      modifies this, out
      ensures crtByte == old(crtByte) && fed == old(fed)
      ensures crtByte == NO_BYTE ==> status == CLCONV_OK && outUsed == 0 && unchanged(out) && emitted == old(emitted)
      ensures crtByte >= 0 && outLen < 4 ==>
                status == CLCONV_FULL && outUsed == outUsed0 && unchanged(out) && emitted == old(emitted)
      ensures crtByte >= 0 && outLen >= 4 ==>
                status == CLCONV_OK && outUsed == 4 && out[..4] == HexEscape(crtByte) &&
                emitted == old(emitted) + out[..4]
      ensures forall k :: 4 <= k < out.Length ==> out[k] == old(out[k])
      ensures old(Valid()) && outLen >= 4 ==> Unescape(emitted) == fed
      ensures old(Valid()) && outLen >= 4 && old(crtByte) >= 0 && Numeric(old(crtByte)) ==>
                emitted == StreamEscape(fed)
    {
      if crtByte == NO_BYTE {
        if Valid() {
          SettledDecodes(fed, emitted);
        }
        return CLCONV_OK, 0;
      }
      if outLen < 4 {
        return CLCONV_FULL, outUsed0;
      }
      var v: u8 := crtByte;
      if Valid() {
        FlushDecodes(fed, emitted, v);
      }
      out[0] := BACKSLASH;
      out[1] := LETTER_X;
      out[2] := DigitChar(v / 16);
      out[3] := DigitChar(v % 16);
      emitted := emitted + out[..4];
      status, outUsed := CLCONV_OK, 4;
    }
  }

  /** The body of `c42_clconv_c_escape` for a non-empty input, on the value
      `pending` of `crt_byte`: returns the status, the new value of `crt_byte`, the
      input used and the output written. */
  method EscapeRun(inp: array<u8>, inLen: nat, out: array<u8>, outLen: nat, pending: Pending)
    returns (status: nat, next: Pending, inUsed: nat, outUsed: nat)
    requires 0 < inLen <= inp.Length && outLen <= out.Length && out != inp
    modifies out
    ensures outUsed <= outLen
    ensures EscOut(status, inUsed, out[..outUsed], next) == EscapeChunk(pending, inp[..inLen], outLen)
    ensures forall k :: outUsed <= k < out.Length ==> out[k] == old(out[k])
  {
    ghost var s := inp[..inLen];
    ghost var total := EscapeChunk(pending, s, outLen);
    var v: u8;
    var i: nat, o: nat := 0, 0;
    if pending < 0 {
      v := inp[0];
      i := 1;
    } else {
      v := pending;
    }
    while true
      invariant i <= inLen && o <= outLen
      invariant Resume(total, out[..o], v, s, i, outLen - o)
      invariant forall k :: o <= k < out.Length ==> out[k] == old(out[k])
      decreases inLen - i
    {
      var stop: bool;
      stop, status, next, o := EscRound(inp, inLen, out, outLen, v, i, o, s, total);
      if stop {
        inUsed, outUsed := i, o;
        return;
      }
      v := inp[i];
      i := i + 1;
    }
  }

  /** The loop of `c42_clconv_c_escape` still owes, after `done`, what it writes from the
      byte in hand `v` and input position `i` with `room` bytes left. */
  ghost predicate Resume(total: EscOut, done: seq<u8>, v: u8, s: seq<u8>, i: nat, room: nat)
  {
    i <= |s| && total == PrependOut(done, EscLoop(v, s, i, room))
  }

  /** One round of the loop of `c42_clconv_c_escape` on the byte in hand `v`: either
      writes its item and goes on with the byte at `i`, or stops with a status and the
      new value of `crt_byte`. */
  method EscRound(inp: array<u8>, inLen: nat, out: array<u8>, outLen: nat, v: u8, i: nat, o: nat,
                  ghost s: seq<u8>, ghost total: EscOut)
    returns (stop: bool, status: nat, next: Pending, o2: nat)
    requires i <= inLen <= inp.Length && o <= outLen <= out.Length && out != inp
    requires s == inp[..inLen] && Resume(total, out[..o], v, s, i, outLen - o)
    modifies out
    ensures o <= o2 <= outLen
    ensures stop ==> total == EscOut(status, i, out[..o2], next)
    ensures !stop ==> i < inLen && Resume(total, out[..o2], s[i], s, i + 1, outLen - o2)
    ensures forall k :: o2 <= k < out.Length ==> out[k] == old(out[k])
  {
    if NeedsEscape(v) && (v < 7 || (14 <= v < 32) || v >= 0x7F) {
      stop, status, next, o2 := NumericRound(inp, inLen, out, outLen, v, i, o, s, total);
    } else {
      stop, status, next, o2 := ItemRound(inp, inLen, out, outLen, v, i, o, s, total);
    }
  }

  /** The round for a byte that needs a numeric escape: octal when the next byte is a
      hex digit, `\xHH` otherwise, and only once the next byte is known. */
  method NumericRound(inp: array<u8>, inLen: nat, out: array<u8>, outLen: nat, v: u8, i: nat, o: nat,
                      ghost s: seq<u8>, ghost total: EscOut)
    returns (stop: bool, status: nat, next: Pending, o2: nat)
    requires i <= inLen <= inp.Length && o <= outLen <= out.Length && out != inp
    requires Numeric(v)
    requires s == inp[..inLen] && Resume(total, out[..o], v, s, i, outLen - o)
    modifies out
    ensures o <= o2 <= outLen
    ensures stop ==> total == EscOut(status, i, out[..o2], next)
    ensures !stop ==> i < inLen && Resume(total, out[..o2], s[i], s, i + 1, outLen - o2)
    ensures forall k :: o2 <= k < out.Length ==> out[k] == old(out[k])
  {
    if o + 4 > outLen {
      return true, CLCONV_FULL, v, o;
    }
    if i == inLen {
      return true, CLCONV_OK, v, o;
    }
    ghost var done := out[..o];
    var octal := HexDigitAhead(inp[i]);
    PutNumeric(out, o, v, octal, s[i]);
    EscLoopAdvances(v, s, i, outLen - o, done);
    return false, CLCONV_OK, NO_BYTE, o + 4;
  }

  /** The test `c42_digit_from_char(b, 16) >= 0` on the byte after a numeric escape. */
  method HexDigitAhead(b: u8) returns (r: bool)
    ensures r == IsHexDigit(b)
  {
    r := DigitFromChar(b, 16) >= 0;
    HexDigitDecodes(b);
  }

  /** Writes the numeric escape of `v` at `o`: three octal digits or `x` and two hex
      digits after the backslash. */
  method PutNumeric(out: array<u8>, o: nat, v: u8, octal: bool, ghost next: u8)
    requires o + 4 <= out.Length && Numeric(v) && octal == IsHexDigit(next)
    modifies out
    ensures out[..o + 4] == old(out[..o]) + StreamItem(v, Some(next))
    ensures forall k :: o + 4 <= k < out.Length ==> out[k] == old(out[k])
  {
    var b1, b2, b3;
    if !octal {
      b1, b2, b3 := LETTER_X, DigitChar(v / 16), DigitChar(v % 16);
      assert StreamItem(v, Some(next)) == [BACKSLASH, LETTER_X] + HexPair(v) == [BACKSLASH, b1, b2, b3];
    } else {
      b1, b2, b3 := DigitChar(v / 64), DigitChar((v / 8) % 8), DigitChar(v % 8);
      assert StreamItem(v, Some(next)) == [BACKSLASH] + Oct3(v) == [BACKSLASH, b1, b2, b3];
    }
    ghost var done := out[..o];
    out[o] := BACKSLASH;
    assert out[..o] == done;
    PutTail(out, o, b1, b2, b3);
    assert out[..o + 4] == done + [BACKSLASH, b1, b2, b3];
  }

  /** The round for a byte written as is or with a short escape. */
  method ItemRound(inp: array<u8>, inLen: nat, out: array<u8>, outLen: nat, v: u8, i: nat, o: nat,
                   ghost s: seq<u8>, ghost total: EscOut)
    returns (stop: bool, status: nat, next: Pending, o2: nat)
    requires i <= inLen <= inp.Length && o <= outLen <= out.Length && out != inp
    requires !Numeric(v)
    requires s == inp[..inLen] && Resume(total, out[..o], v, s, i, outLen - o)
    modifies out
    ensures o <= o2 <= outLen
    ensures stop ==> total == EscOut(status, i, out[..o2], next)
    ensures !stop ==> i < inLen && Resume(total, out[..o2], s[i], s, i + 1, outLen - o2)
    ensures forall k :: o2 <= k < out.Length ==> out[k] == old(out[k])
  {
    ghost var done := out[..o];
    ghost var room := outLen - o;
    if NeedsEscape(v) {
      if o + 2 > outLen {
        assert EscLoop(v, s, i, room) == EscOut(CLCONV_FULL, i, [], v);
        assert done + [] == done;
        return true, CLCONV_FULL, v, o;
      }
    } else if o == outLen {
      assert EscLoop(v, s, i, room) == EscOut(CLCONV_FULL, i, [], v);
      assert done + [] == done;
      return true, CLCONV_FULL, v, o;
    }
    o2 := PutItem(out, o, v);
    if i == inLen {
      assert EscLoop(v, s, i, room) == EscOut(CLCONV_FULL, i, StreamItem(v, None), NO_BYTE);
      return true, CLCONV_FULL, NO_BYTE, o2;
    }
    ItemWithoutLookahead(v, s[i]);
    EscLoopAdvances(v, s, i, outLen - o, done);
    return false, CLCONV_OK, NO_BYTE, o2;
  }

  /** Writes the item of a byte that needs no lookahead at `o`: the byte itself or a
      backslash and its letter. */
  method PutItem(out: array<u8>, o: nat, v: u8) returns (o2: nat)
    requires !Numeric(v) && o + |StreamItem(v, None)| <= out.Length
    modifies out
    ensures o2 == o + |StreamItem(v, None)|
    ensures out[..o2] == old(out[..o]) + StreamItem(v, None)
    ensures forall k :: o2 <= k < out.Length ==> out[k] == old(out[k])
  {
    if NeedsEscape(v) {
      out[o] := BACKSLASH;
      out[o + 1] := if v < 32 then EscLetter(v) else v;
      o2 := o + 2;
    } else {
      out[o] := v;
      o2 := o + 1;
    }
  }

  /** When the item of `v` fits and a next byte exists, it moves to the written prefix. */
  lemma {:induction false} EscLoopAdvances(v: u8, s: seq<u8>, i: nat, room: nat, done: seq<u8>)
    requires i < |s| && |StreamItem(v, Some(s[i]))| <= room
    ensures PrependOut(done, EscLoop(v, s, i, room)) ==
            PrependOut(done + StreamItem(v, Some(s[i])), EscLoop(s[i], s, i + 1, room - |StreamItem(v, Some(s[i]))|))
  {
    if !Numeric(v) {
      ItemWithoutLookahead(v, s[i]);
    }
  }
}
