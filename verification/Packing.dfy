/** The bit-packing half of the codec.  Codes are packed in groups of n bytes,
    n being the width of a code in bits, so that a group holds eight codes.  When
    the width grows the rest of the group is padding, and the reader has to skip
    it.  The writer and the reader each follow the number of the first unused
    dictionary entry to tell when that happens. */
module Packing {
  import opened Bits

  const INIT_BITS := 9
  const MAX_BITS := 14
  const BUFFER_BITS := 224   // 14 words

  /** The largest code of a given width. */
  function MaxCode(nBits: nat): nat { Pow2(nBits) - 1 }

  /** The dictionary entries there are codes for. */
  function Capacity(maxBits: nat): nat requires INIT_BITS <= maxBits {
    Widths(maxBits);
    MaxCode(maxBits) - 256
  }

  lemma {:induction false} Widths(n: nat)
    requires INIT_BITS <= n
    ensures Pow2(n) >= 512
  {
    if n == INIT_BITS {
      assert Pow2(4) == 16 && Pow2(8) == 16 * Pow2(4);
    } else {
      Widths(n - 1);
    }
  }

  datatype Writer = Writer(nBits: nat, maxCode: nat, offset: nat, bits: seq<bool>, out: seq<Byte>, count: int)

  predicate Fits(offset: nat, nBits: nat) {
    INIT_BITS <= nBits <= MAX_BITS && offset + nBits <= 8 * nBits
  }

  predicate WriterOk(w: Writer) {
    |w.bits| == BUFFER_BITS && Fits(w.offset, w.nBits)
  }

  function Insert(bits: seq<bool>, offset: nat, nBits: nat, code: nat): (r: seq<bool>)
    requires offset + nBits <= |bits|
    ensures |r| == |bits|
  {
    bits[..offset] + ToBits(code, nBits) + bits[offset + nBits..]
  }

  function WriteBuf(w: Writer, count: nat): Writer
    requires 8 * count <= |w.bits|
  {
    w.(out := w.out + BytesOf(w.bits, count), count := w.count + count, offset := 0)
  }

  /** Pack one code, freeEnt being the encoder's first unused entry. */
  function Output(w: Writer, code: nat, freeEnt: nat, maxBits: nat): (r: Writer)
    requires WriterOk(w)
    ensures |r.bits| == BUFFER_BITS
  {
    var inserted := w.(bits := Insert(w.bits, w.offset, w.nBits, code), offset := w.offset + w.nBits);
    var written := if inserted.offset == 8 * w.nBits then WriteBuf(inserted, w.nBits) else inserted;
    if freeEnt > w.maxCode then
      var padded := if written.offset > 0 then WriteBuf(written, w.nBits) else written;
      var nBits := w.nBits + 1;
      padded.(nBits := nBits, maxCode := if nBits == maxBits then MaxCode(maxBits) else MaxCode(nBits))
    else written
  }

  function Flush(w: Writer): Writer
    requires 8 * ((w.offset + 7) / 8) <= |w.bits|
  {
    if w.offset > 0 then WriteBuf(w, (w.offset + 7) / 8) else w
  }

  /** The reader.  size is the last bit of the group at which a code can start,
      plus one; left is the number of bytes of the member not read yet. */
  datatype Reader = Reader(nBits: nat, maxCode: nat, offset: nat, size: int, bits: seq<bool>, left: int, pos: nat)

  predicate BufferOk(r: Reader) {
    |r.bits| == BUFFER_BITS && r.size <= 8 * MAX_BITS
  }

  predicate ReaderOk(r: Reader) {
    BufferOk(r) && INIT_BITS <= r.nBits <= MAX_BITS
  }

  /** readbuf: whole words are filled, so an odd byte clears the one after it. */
  function Fill(bits: seq<bool>, bytes: seq<Byte>): (r: seq<bool>)
    requires |bits| == BUFFER_BITS && |bytes| <= MAX_BITS
    ensures |r| == BUFFER_BITS
    ensures r[..8 * |bytes|] == BitsOf(bytes)
  {
    var words := if |bytes| % 2 == 1 then bytes + [0] else bytes;
    assert |bytes| % 2 == 1 ==> BitsOf(words)[..8 * |bytes|] == BitsOf(bytes) by {
      BitsOfConcat(bytes, [0]);
    }
    var r := BitsOf(words) + bits[8 * |words|..];
    assert r[..8 * |bytes|] == BitsOf(words)[..8 * |bytes|] == BitsOf(bytes);
    r
  }

  /** The width change getcode makes before a code, freeEnt being the decoder's
      first unused entry. */
  function Widen(r: Reader, freeEnt: nat, maxBits: nat): Reader {
    if freeEnt > r.maxCode then
      var nBits := r.nBits + 1;
      r.(nBits := nBits, maxCode := if nBits == maxBits then MaxCode(maxBits) else MaxCode(nBits))
    else r
  }

  /** The next group, if the member and the file have one. */
  function Refill(r: Reader, file: seq<Byte>): (s: (Reader, bool))
    requires ReaderOk(r)
    ensures ReaderOk(s.0) && s.0.nBits == r.nBits && s.0.maxCode == r.maxCode
    ensures s.1 ==> s.0.offset == 0 && 0 <= s.0.left < r.left
    ensures s.0.left <= r.left
  {
    if r.left <= 0 then (r, false)
    else
      var size := if r.left > r.nBits then r.nBits else r.left;
      if r.pos + size > |file| then (r.(size := size, pos := if r.pos > |file| then r.pos else |file|), false)
      else
        (r.(bits := Fill(r.bits, file[r.pos..r.pos + size]), left := r.left - size, pos := r.pos + size,
            offset := 0, size := 8 * size - (r.nBits - 1)), true)
  }

  /** The next code, or -1 at the end of the member. */
  function GetCode(r: Reader, file: seq<Byte>, freeEnt: nat, maxBits: nat): (s: (Reader, int))
    requires ReaderOk(r) && (freeEnt > r.maxCode ==> r.nBits < MAX_BITS)
    ensures ReaderOk(s.0) && s.1 >= -1
  {
    var ready :=
      if r.offset >= r.size || freeEnt > r.maxCode then Refill(Widen(r, freeEnt, maxBits), file)
      else (r, true);
    var q := ready.0;
    var eof: int := -1;
    if !ready.1 then (q, eof)
    else (q.(offset := q.offset + q.nBits), FromBits(q.bits[q.offset..q.offset + q.nBits]))
  }
}
