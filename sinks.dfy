/** The in-memory sinks: the single-buffer writer `c42_sbw_t` (`c42_sbw_init`,
    `c42_sbw_write`) and the buffer-with-counter stream `c42_io8bc_t`
    (`c42_io8bc_init`, `io8bc_write`). Both store what fits below their limit and
    count everything, so a caller can learn the size a complete output needs. */
module Sinks {
  import opened Bytes
  import opened Prim

  /** `C42_IO8_OK` and `C42_IO8_NO_SPACE`. */
  const IO8_OK: nat := 0
  const IO8_NO_SPACE: nat := 8

  function Min(a: int, b: int): int
  {
    if a < b then a else b
  }

  /** The C's overflow test `a + len < len` on 64-bit unsigned values detects exactly
      the sums that wrap. */
  lemma WrapTest(a: u64, len: nat)
    requires len < U64_LIMIT
    ensures (a + len) % U64_LIMIT < len <==> a + len >= U64_LIMIT
  {
    if a + len >= U64_LIMIT {
      assert (a + len) % U64_LIMIT == a + len - U64_LIMIT;
    }
  }

  /** The part of the byte stream `w` a buffer of `limit` bytes keeps: its first `limit`
      bytes. */
  function Kept(w: seq<u8>, limit: nat): (k: seq<u8>)
    ensures |k| == Min(|w|, limit)
  {
    w[..Min(|w|, limit)]
  }

  /** Appending `b` to the stream extends what is kept by the first bytes of `b` that
      still fit, and by nothing once the buffer is full. */
  lemma KeptAppend(w: seq<u8>, b: seq<u8>, limit: nat)
    ensures |w| >= limit ==> Kept(w + b, limit) == Kept(w, limit)
    ensures |w| < limit ==> Kept(w + b, limit) == w + b[..Min(limit - |w|, |b|)]
  {
    var k := Min(|w| + |b|, limit);
    if |w| < limit {
      assert (w + b)[..k] == w + b[..k - |w|];
    } else {
      assert (w + b)[..limit] == w[..limit];
    }
  }

  /** The copy both sinks make: the bytes written at stream position `at` that fall
      below `limit`, i.e. `min(limit - at, len)` bytes when `at < limit` and none
      otherwise, go to `data[at..]`. The buffer keeps holding the kept part of the
      stream. */
  method StoreKept(data: array<u8>, limit: u64, ghost w: seq<u8>, at: u64, bytes: seq<u8>)
    requires limit as int <= data.Length && at as int == |w| && data[..Min(at, limit)] == Kept(w, limit)
    modifies data
    ensures data[..Min(at as int + |bytes|, limit)] == Kept(w + bytes, limit)
    ensures at >= limit ==> unchanged(data)
    ensures data[limit..] == old(data[limit..])
  {
    KeptAppend(w, bytes, limit as nat);
    if at < limit {
      var c := limit - at;
      if c as int > |bytes| {
        c := |bytes|;
      }
      U8aCopy(data, at as nat, bytes[..c]);
      assert data[..at + c] == data[..at] + bytes[..c];
    }
  }

  /** `c42_sbw_t`: a caller buffer `data` of `limit` usable bytes and the count `size` of
      bytes written so far. `written` is the whole stream written, of which the buffer
      holds what fits. */
  class Sbw {
    var data: array<u8>
    var limit: u64
    var size: u64
    ghost var written: seq<u8>

    ghost predicate Valid()
      reads this, data
    {
      limit as int <= data.Length && size as int == |written| &&
      data[..Min(size, limit)] == Kept(written, limit)
    }

    /** `c42_sbw_init`. */
    constructor (data: array<u8>, limit: u64)
      requires limit as int <= data.Length
      ensures Valid() && this.data == data && this.limit == limit && size == 0 && written == []
    {
      this.data := data;
      this.limit := limit;
      size := 0;
      written := [];
    }

    /** `c42_sbw_write`: stores the bytes that fit below `limit`, counts them all and
        returns their number; returns 0 and changes nothing when the count would wrap. */
    method Write(bytes: seq<u8>) returns (r: u64)
      requires Valid() && |bytes| < U64_LIMIT
      modifies this, data
      ensures Valid() && data == old(data) && limit == old(limit)
      ensures old(size) as int + |bytes| >= U64_LIMIT ==>
                r == 0 && size == old(size) && written == old(written) && unchanged(data)
      ensures old(size) as int + |bytes| < U64_LIMIT ==>
                r as int == |bytes| && size as int == old(size) as int + |bytes| && written == old(written) + bytes
      ensures data[limit..] == old(data[limit..])
    {
      var len := |bytes|;
      WrapTest(size, len);
      if (size as int + len) % U64_LIMIT < len {
        return 0;
      }
      StoreKept(data, limit, written, size, bytes);
      written := written + bytes;
      size := size + len;
      r := len;
    }
  }

  /** `c42_io8bc_t`: a write-only stream over a caller buffer of `limit` bytes, with the
      current position `offset` and the stream size `size`. `image` is the stream's
      content, of which the buffer holds what fits. The stream offers no seek, so the
      position always equals the size. */
  class Io8bc {
    var data: array<u8>
    var limit: u64
    var size: u64
    var offset: u64
    ghost var image: seq<u8>

    ghost predicate Valid()
      reads this, data
    {
      limit as int <= data.Length && offset as int == |image| && size == offset &&
      data[..Min(offset, limit)] == Kept(image, limit)
    }

    /** `c42_io8bc_init`. */
    constructor (data: array<u8>, limit: u64)
      requires limit as int <= data.Length
      ensures Valid() && this.data == data && this.limit == limit && size == 0 && offset == 0 && image == []
    {
      this.data := data;
      this.limit := limit;
      offset := 0;
      size := 0;
      image := [];
    }

    /** `io8bc_write`: stores the bytes that fit below `limit`, advances the position
        past all of them and reports them all written; reports `C42_IO8_NO_SPACE` with
        nothing written when the position would wrap. */
    method Write(bytes: seq<u8>) returns (status: nat, wsize: u64)
      requires Valid() && |bytes| < U64_LIMIT
      modifies this, data
      ensures Valid() && data == old(data) && limit == old(limit)
      ensures old(offset) as int + |bytes| >= U64_LIMIT ==>
                status == IO8_NO_SPACE && wsize == 0 && offset == old(offset) && image == old(image) &&
                unchanged(data)
      ensures old(offset) as int + |bytes| < U64_LIMIT ==>
                status == IO8_OK && wsize as int == |bytes| && image == old(image) + bytes
      ensures data[limit..] == old(data[limit..])
    {
      var len := |bytes|;
      WrapTest(offset, len);
      if (offset as int + len) % U64_LIMIT < len {
        return IO8_NO_SPACE, 0;
      }
      StoreKept(data, limit, image, offset, bytes);
      image := image + bytes;
      offset := offset + len;
      if offset > size {
        size := offset;
      }
      status, wsize := IO8_OK, len;
    }
  }
}
