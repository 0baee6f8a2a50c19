/** What the codec promises: decompression undoes compression. */
module LzwTheorems {
  import opened Bits
  import opened Packing
  import opened Layout
  import opened Lzw
  import opened Codec

  /** A reader that would read a group before it takes a code. */
  predicate Idle(r: Reader) { BufferOk(r) && r.offset >= r.size }

  /** A compressed string lies in the file at a position. */
  ghost predicate StoredAt(x: seq<Byte>, maxBits: nat, bits: seq<bool>, file: seq<Byte>, pos: nat)
    requires ValidMax(maxBits) && |bits| == BUFFER_BITS
  {
    var c := Compressed(x, maxBits, bits);
    pos + |c| <= |file| && file[pos..pos + |c|] == c
  }

  lemma {:induction false} CompressedPacked(x: seq<Byte>, maxBits: nat, bits: seq<bool>)
    requires ValidMax(maxBits) && |bits| == BUFFER_BITS
    ensures
      var c := Compressed(x, maxBits, bits);
      |c| >= 2 && c[..2] == TAG && Packed(c[2..], CodesOf(x, Capacity(maxBits)), maxBits)
  {
    hide OutputAll, Flush, Packed;
    MemberWriterStarts(bits, [], maxBits);
    var w := MemberWriter(bits, []);
    assert w.out == TAG;
    WriterPacks(w, CodesOf(x, Capacity(maxBits)), maxBits);
  }

  /** The count LZ_1 reports is the number of bytes it wrote, and it leaves its
      buffer empty for the next member. */
  lemma {:induction false} CountsWhatItWrites(x: seq<Byte>, maxBits: nat, bits: seq<bool>, out: seq<Byte>)
    requires ValidMax(maxBits) && |bits| == BUFFER_BITS
    ensures
      var w := Compress(x, maxBits, bits, out);
      out <= w.out && w.count == |w.out| - |out| && w.offset == 0
  {
    hide OutputAll, Flush, Packed;
    MemberWriterStarts(bits, out, maxBits);
    WriterPacks(MemberWriter(bits, out), CodesOf(x, Capacity(maxBits)), maxBits);
  }

  lemma {:induction false} StoredMember(x: seq<Byte>, maxBits: nat, bits: seq<bool>, file: seq<Byte>, pos: nat)
    requires ValidMax(maxBits) && |bits| == BUFFER_BITS && StoredAt(x, maxBits, bits, file, pos)
    ensures
      var c := Compressed(x, maxBits, bits);
      |c| >= 2 && HasTag(file, pos) && MemberAt(file, pos + 2, c[2..], CodesOf(x, Capacity(maxBits)), maxBits)
  {
    hide Compressed, Packed, InTime, CodesOf;
    CompressedPacked(x, maxBits, bits);
    CodesOfInTime(x, maxBits);
    var c := Compressed(x, maxBits, bits);
    SubSlice(file, pos, pos + |c|, 0, 2);
    SubSlice(file, pos, pos + |c|, 2, |c|);
  }

  /** Decoding from an idle reader receives the codes. */
  lemma {:induction false} DecodeReceives(r: Reader, file: seq<Byte>, bytes: seq<Byte>, codes: seq<nat>, maxBits: nat)
    requires ValidMax(maxBits) && Idle(r) && HasTag(file, r.pos)
    requires MemberAt(file, r.pos + 2, bytes, codes, maxBits)
    ensures
      var res := Decode(r, file, |bytes| + 2, maxBits);
      && (|codes| == 0 ==> res.outcome == Ended && res.out == [])
      && (|codes| > 0 ==> DecodesTo(res, ReceiveAll(First(codes[0]), codes[1..], Capacity(maxBits))))
      && (res.outcome == Ended ==> LeftAtEnd(res.reader, bytes, r.pos + 2, codes, maxBits))
  {
    hide GetCode, Packed, ReceiveAll, DecodeFrom, Pow2;
    Widths(INIT_BITS);
    var start := MemberReader(r, |bytes| + 2);
    SyncKept(start, file, 256, maxBits);
    assert Ready(start, bytes, r.pos + 2, 0, maxBits);
    if |codes| == 0 {
      GetCodeEnds(start, file, bytes, r.pos + 2, codes, maxBits);
    } else {
      assert codes[0] < FreeAt(0 + 0, maxBits);
      GetCodeTakes(start, file, bytes, r.pos + 2, codes, 0, maxBits);
      var (q, code) := GetCode(start, file, 256, maxBits);
      DecodeFromPacked(q, file, First(code), bytes, r.pos + 2, codes, 1, maxBits);
    }
  }

  /** Decompressing what was compressed gives the bytes back, and reads exactly
      the bytes that LZ_1 counted, exactly when no phrase was longer than the
      decoder's stack. */
  lemma {:induction false} RoundTrip(x: seq<Byte>, maxBits: nat, bits: seq<bool>, r: Reader, file: seq<Byte>)
    requires ValidMax(maxBits) && |bits| == BUFFER_BITS
    requires Idle(r) && StoredAt(x, maxBits, bits, file, r.pos)
    ensures
      var c := Compressed(x, maxBits, bits);
      var res := Decode(r, file, |c|, maxBits);
      if LongestOf(x, Capacity(maxBits)) <= MAXSTACK
      then res.outcome == Ended && res.out == x && res.reader.pos == r.pos + |c|
      else res.outcome == Fault
  {
    hide Compressed, Decode, MemberAt, CodesOf, Longest, ReceiveAll, Ready;
    var cap := Capacity(maxBits);
    var c := Compressed(x, maxBits, bits);
    StoredMember(x, maxBits, bits, file, r.pos);
    DecodeReceives(r, file, c[2..], CodesOf(x, cap), maxBits);
    if |x| > 0 {
      CodesRoundTrip(x, cap);
    }
    NoCodes(x, cap);
  }

  lemma {:induction false} NoCodes(x: seq<Byte>, cap: nat)
    ensures |CodesOf(x, cap)| == 0 <==> |x| == 0
  {
  }

  lemma {:induction false} Capacities()
    ensures Capacity(9) == 255 && Capacity(10) == 767 && Capacity(11) == 1791
    ensures Capacity(12) == 3839 && Capacity(13) == 7935 && Capacity(14) == 16127
  {
    assert Pow2(5) == 32 && Pow2(8) == 8 * Pow2(5) && Pow2(11) == 8 * Pow2(8) && Pow2(14) == 8 * Pow2(11);
  }

  /** Every string that is short enough comes back, and with few enough bits a
      code every string does. */
  lemma {:induction false} RoundTripBounded(x: seq<Byte>, maxBits: nat, bits: seq<bool>, r: Reader, file: seq<Byte>)
    requires ValidMax(maxBits) && |bits| == BUFFER_BITS
    requires Idle(r) && StoredAt(x, maxBits, bits, file, r.pos)
    requires |x| < 2003001 || maxBits <= 11
    ensures
      var c := Compressed(x, maxBits, bits);
      var res := Decode(r, file, |c|, maxBits);
      res.outcome == Ended && res.out == x && res.reader.pos == r.pos + |c|
  {
    hide Compressed, Decode, LongestOf, Capacity, Pow2;
    RoundTrip(x, maxBits, bits, r, file);
    Capacities();
    StackBound(|x|, Capacity(maxBits));
  }

  /** The member of one byte: the tag, and the byte's code of nine bits, highest first. */
  lemma {:induction false} OneByte(b: Byte, maxBits: nat, bits: seq<bool>)
    requires ValidMax(maxBits) && |bits| == BUFFER_BITS
    ensures
      var c := Compressed([b], maxBits, bits);
      |c| == 4 && c[0] == 11 && c[1] == 179 && c[2] == b / 2 && c[3] / 128 == b % 2
  {
    hide Pow2, Codes;
    var w := MemberWriter(bits, []);
    var codes := CodesOf([b], Capacity(maxBits));
    assert codes == [b as nat] by {
      LastCode([b], b, [], Capacity(maxBits));
    }
    MemberWriterStarts(bits, [], maxBits);
    Widths(INIT_BITS);
    var after := Output(w, b, FreeAt(0, maxBits), maxBits);
    assert OutputAll(w, codes, 0, maxBits) == after by {
      OutputShape(w, codes[0], 0, maxBits);
    }
    assert after.offset == 9 && after.out == TAG && after.bits[..9] == ToBits(b, 9);
    var bytes := BytesOf(after.bits, 2);
    assert BitsOf(bytes)[..9] == ToBits(b, 9);
    FirstByte(bytes, b);
  }

  lemma {:induction false} LastCode(x: seq<Byte>, ent: nat, d: Dict, cap: nat)
    ensures Codes(x, |x|, ent, d, cap) == [ent]
  {
  }

  lemma {:induction false} FirstByte(bytes: seq<Byte>, b: Byte)
    requires |bytes| == 2 && BitsOf(bytes)[..9] == ToBits(b, 9)
    ensures bytes[0] == b / 2 && bytes[1] / 128 == b % 2
  {
    var bits := BitsOf(bytes);
    assert ToBits(b, 9) == ToBits(b / 2, 8) + [b % 2 == 1];
    hide ToBits;
    assert ToBits(bytes[0], 8) == bits[..9][..8] == ToBits(b / 2, 8);
    EqualBits(bytes[0], b / 2);
    assert ToBits(bytes[1], 8)[0] == bits[..9][8] == (b % 2 == 1);
    TopBit(bytes[1]);
  }

  lemma {:induction false} EqualBits(a: nat, b: nat)
    requires a < 256 && b < 256 && ToBits(a, 8) == ToBits(b, 8)
    ensures a == b
  {
    hide ToBits, FromBits;
    assert Pow2(5) == 32 && Pow2(8) == 8 * Pow2(5);
    FromToBits(a, 8);
    FromToBits(b, 8);
  }

  lemma {:induction false} TopBit(b: Byte)
    ensures ToBits(b, 8)[0] == (b / 128 == 1)
  {
    hide ToBits, FromBits;
    assert Pow2(4) == 16 && Pow2(7) == 8 * Pow2(4) && Pow2(8) == 2 * Pow2(7);
    FromToBits(b, 8);
    var rest := ToBits(b, 8)[1..];
    assert FromBits(rest) < 128;
    if b < 128 {
      ToBitsHead(b, 7, 8);
    } else if !ToBits(b, 8)[0] {
      FromBitsTail(ToBits(b, 8), 1);
    }
  }

  /** LZ_1's own output, at the end of whatever the file had and before whatever
      comes after, is a member stored at where the file ended. */
  lemma {:induction false} StoredWhereWritten(
      x: seq<Byte>, maxBits: nat, bits: seq<bool>, out: seq<Byte>, rest: seq<Byte>)
    requires ValidMax(maxBits) && |bits| == BUFFER_BITS
    ensures StoredAt(x, maxBits, bits, Compress(x, maxBits, bits, out).out + rest, |out|)
    ensures |Compress(x, maxBits, bits, out).out| == |out| + |Compressed(x, maxBits, bits)|
  {
    hide Compress, Compressed;
    CompressAppends(x, maxBits, bits, out);
    var c := Compressed(x, maxBits, bits);
    assert ((out + c) + rest)[|out|..|out| + |c|] == c;
  }

  /** A member that LZ_1 adds to an archive comes back from an idle reader where the
      archive ended, whatever is added after it; the reader stops at its end. */
  lemma {:induction false} RoundTripAppended(
      x: seq<Byte>, maxBits: nat, bits: seq<bool>, out: seq<Byte>, rest: seq<Byte>, r: Reader)
    requires ValidMax(maxBits) && |bits| == BUFFER_BITS && Idle(r) && r.pos == |out|
    ensures
      var w := Compress(x, maxBits, bits, out);
      var res := Decode(r, w.out + rest, w.count, maxBits);
      if LongestOf(x, Capacity(maxBits)) <= MAXSTACK
      then res.outcome == Ended && res.out == x && res.reader.pos == |w.out|
      else res.outcome == Fault
    ensures (|x| < 2003001 || maxBits <= 11) ==> LongestOf(x, Capacity(maxBits)) <= MAXSTACK
  {
    hide Compress, Decode, LongestOf, Capacity, Pow2, StoredAt;
    StoredWhereWritten(x, maxBits, bits, out, rest);
    CountsWhatItWrites(x, maxBits, bits, out);
    RoundTrip(x, maxBits, bits, r, Compress(x, maxBits, bits, out).out + rest);
    Capacities();
    StackBound(|x|, Capacity(maxBits));
  }

  /* Whether the reader is idle again, ready for the next member. */

  /** Offsets at slot k of a group. */
  predicate SlotIs(k: nat, offset: nat, width: nat) {
    if k == 0 then offset == 0 else if k == 1 then offset == width else if k == 2 then offset == 2 * width
    else if k == 3 then offset == 3 * width else if k == 4 then offset == 4 * width
    else if k == 5 then offset == 5 * width else if k == 6 then offset == 6 * width else offset == 7 * width
  }

  lemma {:induction false} WidePow2(n: nat)
    requires n >= 10
    ensures Pow2(n) >= 1024 && Pow2(n) % 512 == 0
  {
    if n == 10 {
      assert Pow2(5) == 32 && Pow2(10) == 32 * Pow2(5);
    } else {
      WidePow2(n - 1);
    }
  }

  /** Widths change at whole groups, but for the first change: 257 codes have
      nine bits, and from there on the number of codes of a width is a multiple
      of eight. */
  lemma {:induction false} SlotOfCode(j: nat, maxBits: nat)
    requires ValidMax(maxBits)
    ensures
      var p := PlaceOf(j, maxBits);
      && (j <= 256 || maxBits == 9 ==> p.width == 9 && SlotIs(j % 8, p.offset, 9))
      && (j > 256 && maxBits > 9 ==> p.width > 9 && SlotIs((j - 257) % 8, p.offset, p.width))
  {
    hide Pow2, PlaceOf, FreeAt;
    NinePow2();
    if j == 0 {
      PlaceZero(maxBits);
    } else {
      var p := PlaceOf(j - 1, maxBits);
      SlotOfCode(j - 1, maxBits);
      NextPlace(j - 1, maxBits);
      WidthChange(j - 1, maxBits);
      NextSlot(if j <= 257 || maxBits == 9 then j - 1 else j - 258, p.offset, p.width);
    }
  }

  lemma {:induction false} PlaceZero(maxBits: nat)
    requires ValidMax(maxBits)
    ensures PlaceOf(0, maxBits) == Place(0, 0, 9)
  {
  }

  lemma {:induction false} NextSlot(k: nat, offset: nat, width: nat)
    requires SlotIs(k % 8, offset, width) && width > 0
    ensures offset == 7 * width <==> k % 8 == 7
    ensures SlotIs((k + 1) % 8, if offset == 7 * width then 0 else offset + width, width)
  {
  }

  lemma {:induction false} NinePow2()
    ensures Pow2(9) == 512
  {
    assert Pow2(4) == 16 && Pow2(9) == 32 * Pow2(4);
  }

  /** The width grows after code j when the dictionary has just filled it. */
  lemma {:induction false} WidthChange(j: nat, maxBits: nat)
    requires ValidMax(maxBits)
    ensures
      var p := PlaceOf(j, maxBits);
      && (FreeAt(j, maxBits) > MaxCode(p.width) <==> p.width < maxBits && 256 + j == Pow2(p.width))
      && (p.width < maxBits ==> Pow2(p.width) <= 256 + Capacity(maxBits))
      && (FreeAt(j, maxBits) > MaxCode(p.width) && p.width > 9 ==> j > 257 && (j - 257) % 8 == 7)
  {
    hide Pow2, PlaceOf, AtSlot;
    var p := PlaceOf(j, maxBits);
    PlaceValid(j, maxBits);
    if p.width < maxBits {
      Pow2Grows(p.width, maxBits);
    }
    if p.width > 9 {
      WideSlot(j, p.width);
    }
  }

  lemma {:induction false} WideSlot(j: nat, width: nat)
    requires width > 9
    ensures 256 + j == Pow2(width) ==> j > 257 && (j - 257) % 8 == 7
  {
    hide Pow2;
    WidePow2(width);
    assert 256 + j == Pow2(width) ==> j - 257 == Pow2(width) - 513;
  }

  lemma {:induction false} Pow2Grows(m: nat, n: nat)
    requires m < n
    ensures Pow2(m) < Pow2(n)
  {
    if m < n - 1 {
      Pow2Grows(m, n - 1);
    }
  }

  /** The reader ends in the middle of a group when the width grew right after
      the last code. */
  lemma {:induction false} IdleAtPlace(r: Reader, length: nat, base: nat, p: Place, q: Place, free: nat)
    requires Past(r, length, base, p) && q == After(p, free) && GroupRead(length, p, q, true)
    requires length == q.group + (q.offset + 7) / 8 && AtSlot(p.offset, p.width)
    ensures Idle(r) <==> free <= MaxCode(p.width) || p.offset == 7 * p.width
    ensures !Idle(r) ==> r.offset == p.offset + p.width && r.size == 7 * p.width + 1
  {
    hide MaxCode;
  }

  /** The only width change in the middle of a group comes after the first code
      of one, code 256. */
  lemma {:induction false} WidthChangeInGroup(j: nat, maxBits: nat)
    requires ValidMax(maxBits)
    ensures
      var p := PlaceOf(j, maxBits);
      && (FreeAt(j, maxBits) > MaxCode(p.width) && p.offset != 7 * p.width <==> j == 256 && maxBits > 9)
      && (j == 256 ==> p.offset == 0 && p.width == 9)
  {
    hide PlaceOf, MaxCode, Pow2, FreeAt, Capacity;
    var p := PlaceOf(j, maxBits);
    SlotOfCode(j, maxBits);
    WidthChange(j, maxBits);
    PlaceValid(j, maxBits);
    NinePow2();
    NextSlot(if p.width == 9 then j else j - 257, p.offset, p.width);
  }

  lemma {:induction false} PackedLength(bytes: seq<Byte>, codes: seq<nat>, maxBits: nat)
    requires ValidMax(maxBits) && Packed(bytes, codes, maxBits)
    ensures var q := PlaceOf(|codes|, maxBits); |bytes| == q.group + (q.offset + 7) / 8
  {
    hide PlaceOf, Holds, BitsOf;
  }

  lemma {:induction false} IdleAtEnd(r: Reader, bytes: seq<Byte>, base: nat, codes: seq<nat>, maxBits: nat)
    requires ValidMax(maxBits) && Packed(bytes, codes, maxBits) && Ready(r, bytes, base, |codes|, maxBits)
    ensures Idle(r) <==> |codes| != 257 || maxBits == 9
    ensures !Idle(r) ==> r.offset == 9 && r.size == 64
  {
    hide PlaceOf, MaxCode, Pow2, AtSlot, After, Past, GroupRead, FreeAt, BitsOf, Holds, Packed, HoldsAt, Buffered;
    if |codes| > 0 {
      hide Idle;
      var j := |codes| - 1;
      PackedLength(bytes, codes, maxBits);
      var p := PlaceOf(j, maxBits);
      PlaceValid(j, maxBits);
      NextPlace(j, maxBits);
      CodeInGroup(bytes, codes, j, maxBits);
      IdleAtPlace(r, |bytes|, base, p, PlaceOf(j + 1, maxBits), FreeAt(j, maxBits));
      WidthChangeInGroup(j, maxBits);
    }
  }

  /** With more than nine bits allowed, the packed codes take 297 bytes exactly
      when there are 257 of them. */
  lemma {:induction false} SizeOf257(bytes: seq<Byte>, codes: seq<nat>, maxBits: nat)
    requires ValidMax(maxBits) && Packed(bytes, codes, maxBits) && maxBits > 9
    ensures |bytes| == 297 <==> |codes| == 257
  {
    hide PlaceOf, FreeAt, AtSlot, Holds, BitsOf, Pow2;
    var p := PlaceOf(|codes|, maxBits);
    PlaceOf257(maxBits);
    PlaceValid(|codes|, maxBits);
    if |codes| < 257 {
      PlacesAscend(|codes|, 257, maxBits);
    } else if |codes| > 257 {
      PlacesAscend(257, |codes|, maxBits);
    }
  }

  lemma {:induction false} GroupOfNine(j: nat, maxBits: nat)
    requires ValidMax(maxBits) && j <= 256
    ensures PlaceOf(j, maxBits).group == 9 * (j / 8)
  {
    hide Pow2, FreeAt, MaxCode, PlaceOf;
    if j == 0 {
      PlaceZero(maxBits);
    } else {
      var p := PlaceOf(j - 1, maxBits);
      GroupOfNine(j - 1, maxBits);
      SlotOfCode(j - 1, maxBits);
      NextPlace(j - 1, maxBits);
      WidthChange(j - 1, maxBits);
      NinePow2();
      NextSlot(j - 1, p.offset, p.width);
    }
  }

  lemma {:induction false} PlaceOf257(maxBits: nat)
    requires ValidMax(maxBits) && maxBits > 9
    ensures PlaceOf(257, maxBits) == Place(297, 0, 10)
  {
    hide PlaceOf, FreeAt, Pow2, MaxCode;
    SlotOfCode(256, maxBits);
    GroupOfNine(256, maxBits);
    WidthChange(256, maxBits);
    NinePow2();
    NextPlace(256, maxBits);
  }

  /** After a member the reader is idle again, unless the member is one of 299
      bytes with more than nine bits allowed. */
  lemma {:induction false} IdleAfterMember(x: seq<Byte>, maxBits: nat, bits: seq<bool>, r: Reader, file: seq<Byte>)
    requires ValidMax(maxBits) && |bits| == BUFFER_BITS
    requires Idle(r) && StoredAt(x, maxBits, bits, file, r.pos)
    requires LongestOf(x, Capacity(maxBits)) <= MAXSTACK
    ensures
      var c := Compressed(x, maxBits, bits);
      var res := Decode(r, file, |c|, maxBits);
      BufferOk(res.reader) && (Idle(res.reader) <==> |c| != 299 || maxBits == 9)
      && (!Idle(res.reader) ==> res.reader.offset == 9 && res.reader.size == 64)
  {
    hide Compressed, Decode, MemberAt, CodesOf, Longest, ReceiveAll, Ready, Packed;
    var c := Compressed(x, maxBits, bits);
    var codes := CodesOf(x, Capacity(maxBits));
    StoredMember(x, maxBits, bits, file, r.pos);
    CompressedPacked(x, maxBits, bits);
    DecodeReceives(r, file, c[2..], codes, maxBits);
    RoundTrip(x, maxBits, bits, r, file);
    var end := Decode(r, file, |c|, maxBits).reader;
    var q :| Ready(q, c[2..], r.pos + 2, |codes|, maxBits) && q.offset == end.offset && q.size == end.size;
    ReadyOk(q, c[2..], r.pos + 2, |codes|, maxBits);
    IdleAtEnd(q, c[2..], r.pos + 2, codes, maxBits);
    if maxBits > 9 {
      SizeOf257(c[2..], codes, maxBits);
    }
  }

  lemma {:induction false} ReadyOk(r: Reader, bytes: seq<Byte>, base: nat, j: nat, maxBits: nat)
    requires ValidMax(maxBits) && Ready(r, bytes, base, j, maxBits)
    ensures ReaderOk(r)
  {
  }

  predicate Restorable(y: seq<Byte>, maxBits: nat) {
    ValidMax(maxBits) && (|y| < 2003001 || maxBits <= 11)
  }

  /** The reader, as it is, would get any member that comes next right, of whatever
      number of bits. */
  ghost predicate ReadsNext(r: Reader) requires BufferOk(r) {
    forall y: seq<Byte>, maxBits: nat, bits: seq<bool>, file: seq<Byte> ::
      Restorable(y, maxBits) && |bits| == BUFFER_BITS && StoredAt(y, maxBits, bits, file, r.pos) ==>
        DecodesMember(r, y, maxBits, bits, file)
  }

  ghost predicate DecodesMember(r: Reader, y: seq<Byte>, maxBits: nat, bits: seq<bool>, file: seq<Byte>)
    requires ValidMax(maxBits) && BufferOk(r) && |bits| == BUFFER_BITS
  {
    var res := Decode(r, file, |Compressed(y, maxBits, bits)|, maxBits);
    res.outcome == Ended && res.out == y
  }

  lemma {:induction false} OutputGrows(r: Reader, file: seq<Byte>, s: Decoder, maxBits: nat)
    requires ValidMax(maxBits) && ReaderSync(r, maxBits) && |s.d| <= Capacity(maxBits)
    ensures |DecodeFrom(r, file, s, maxBits).out| >= |s.out|
    decreases AtLeast0(r.left), AtLeast0(r.size - r.offset)
  {
    hide GetCode, Expand, Pow2;
    SyncKept(r, file, 256 + |s.d|, maxBits);
    var (q, code) := GetCode(r, file, 256 + |s.d|, maxBits);
    if code >= 0 {
      var t := Receive(s, code, Capacity(maxBits));
      if t.Some? {
        OutputGrows(q, file, t.value, maxBits);
      }
    }
  }

  /** A code left in the buffer is taken before anything is read. */
  lemma {:induction false} TakesStale(r: Reader, file: seq<Byte>, free: nat, maxBits: nat)
    requires ReaderOk(r) && !NeedsGroup(r, free)
    ensures var (q, code) := GetCode(r, file, free, maxBits);
      code >= 0 && q == r.(offset := r.offset + r.nBits)
  {
  }

  /** A reader with two codes left in its buffer puts out more than one byte. */
  lemma {:induction false} StaleOutput(r: Reader, file: seq<Byte>, bytes: int, maxBits: nat)
    requires ValidMax(maxBits) && BufferOk(r) && r.offset + INIT_BITS < r.size
    ensures Decode(r, file, bytes, maxBits).outcome == Ended ==> |Decode(r, file, bytes, maxBits).out| > 1
  {
    if HasTag(file, r.pos) {
      hide GetCode, Expand, Pow2;
      Widths(INIT_BITS);
      var start := MemberReader(r, bytes);
      SyncKept(start, file, 256, maxBits);
      TakesStale(start, file, 256, maxBits);
      var (q, code) := GetCode(start, file, 256, maxBits);
      SyncKept(q, file, 256, maxBits);
      TakesStale(q, file, 256, maxBits);
      var (q', code') := GetCode(q, file, 256, maxBits);
      var t := Receive(First(code), code', Capacity(maxBits));
      if t.Some? {
        OutputGrows(q', file, t.value, maxBits);
      }
    }
  }

  /** After a member, the reader gets every next member right unless the member
      it just read was of 299 bytes with more than nine bits allowed. */
  lemma {:induction false} NextMember(x: seq<Byte>, maxBits: nat, bits: seq<bool>, r: Reader, file: seq<Byte>)
    requires Restorable(x, maxBits) && |bits| == BUFFER_BITS
    requires Idle(r) && StoredAt(x, maxBits, bits, file, r.pos)
    ensures
      var c := Compressed(x, maxBits, bits);
      var end := Decode(r, file, |c|, maxBits).reader;
      BufferOk(end) && (ReadsNext(end) <==> |c| != 299 || maxBits == 9)
  {
    hide Decode, Compressed, LongestOf, Capacity, Pow2, StoredAt;
    Capacities();
    StackBound(|x|, Capacity(maxBits));
    IdleAfterMember(x, maxBits, bits, r, file);
    var end := Decode(r, file, |Compressed(x, maxBits, bits)|, maxBits).reader;
    if Idle(end) {
      forall y: seq<Byte>, max: nat, bits': seq<bool>, file': seq<Byte>
        | Restorable(y, max) && |bits'| == BUFFER_BITS && StoredAt(y, max, bits', file', end.pos)
        ensures DecodesMember(end, y, max, bits', file')
      {
        RoundTripBounded(y, max, bits', end, file');
      }
    } else {
      var y: seq<Byte> := [65];
      var file' := seq(end.pos, i => 0) + Compressed(y, maxBits, bits);
      StoredHere(y, maxBits, bits, end.pos);
      StaleOutput(end, file', |Compressed(y, maxBits, bits)|, maxBits);
      assert !DecodesMember(end, y, maxBits, bits, file');
    }
  }

  lemma {:induction false} StoredHere(y: seq<Byte>, maxBits: nat, bits: seq<bool>, pos: nat)
    requires ValidMax(maxBits) && |bits| == BUFFER_BITS
    ensures StoredAt(y, maxBits, bits, seq(pos, i => 0) + Compressed(y, maxBits, bits), pos)
  {
  }

  /** Such a member exists: bytes no two neighbours of which come again. */
  function Rising(): seq<Byte> { seq(257, i => i % 256) }

  lemma {:induction false} RisingCodes(i: nat, d: Dict, cap: nat)
    requires 0 < i <= 257 && cap >= 256 && |d| == i - 1
    requires forall k :: 0 <= k < |d| ==> d[k] == Entry(Rising()[k], Rising()[k + 1])
    ensures |Codes(Rising(), i, Rising()[i - 1], d, cap)| == 258 - i
    decreases 257 - i
  {
    if i < 257 {
      var x := Rising();
      forall k | 0 <= k < |d|
        ensures d[k].prefix == k
      {
        assert d[k] == Entry(x[k], x[k + 1]);
      }
      assert Find(d, x[i - 1], x[i]) == 0;
      RisingCodes(i + 1, Grow(d, x[i - 1], x[i], cap), cap);
    }
  }

  lemma {:induction false} RisingIs299(maxBits: nat, bits: seq<bool>)
    requires ValidMax(maxBits) && |bits| == BUFFER_BITS && maxBits > 9
    ensures |Compressed(Rising(), maxBits, bits)| == 299
  {
    hide Compressed, Packed, Codes;
    var cap := Capacity(maxBits);
    Capacities();
    if maxBits > 10 {
      Pow2Grows(10, maxBits);
    }
    RisingCodes(1, [], cap);
    CompressedPacked(Rising(), maxBits, bits);
    SizeOf257(Compressed(Rising(), maxBits, bits)[2..], CodesOf(Rising(), cap), maxBits);
  }
}
