/** A whole archive member: two tag bytes and the packed codes.  Compressed is
    what LZ_1 writes, Decode what de_LZ_1 does with it. */
module Codec {
  import opened Bits
  import opened Packing
  import opened Layout
  import opened Lzw

  const TAG: seq<Byte> := [11, 179]   // 2995, high byte first

  /** The writer when LZ_1 has written the tag. */
  function MemberWriter(bits: seq<bool>, out: seq<Byte>): Writer {
    Writer(INIT_BITS, MaxCode(INIT_BITS), 0, bits, out + TAG, 2)
  }

  lemma {:induction false} MemberWriterStarts(bits: seq<bool>, out: seq<Byte>, maxBits: nat)
    requires ValidMax(maxBits) && |bits| == BUFFER_BITS
    ensures WriterAt(MemberWriter(bits, out), 0, maxBits)
  {
  }

  /** The writer when LZ_1 is done.  bits is what its buffer held to begin with. */
  function Compress(x: seq<Byte>, maxBits: nat, bits: seq<bool>, out: seq<Byte>): Writer
    requires ValidMax(maxBits) && |bits| == BUFFER_BITS
  {
    MemberWriterStarts(bits, out, maxBits);
    Flush(OutputAll(MemberWriter(bits, out), CodesOf(x, Capacity(maxBits)), 0, maxBits))
  }

  function Compressed(x: seq<Byte>, maxBits: nat, bits: seq<bool>): seq<Byte>
    requires ValidMax(maxBits) && |bits| == BUFFER_BITS
  {
    Compress(x, maxBits, bits, []).out
  }

  /** A writer to the end of a file that already has some bytes. */
  function Behind(before: seq<Byte>, w: Writer): Writer { w.(out := before + w.out) }

  lemma {:induction false} OutputBehind(before: seq<Byte>, w: Writer, code: nat, freeEnt: nat, maxBits: nat)
    requires WriterOk(w)
    ensures Output(Behind(before, w), code, freeEnt, maxBits) == Behind(before, Output(w, code, freeEnt, maxBits))
  {
    hide Insert, BytesOf;
    forall a: seq<Byte>, b: seq<Byte>
      ensures (before + a) + b == before + (a + b)
    {
    }
  }

  lemma {:induction false} OutputAllBehind(before: seq<Byte>, w: Writer, codes: seq<nat>, j: nat, maxBits: nat)
    requires ValidMax(maxBits) && j <= |codes| && WriterAt(w, j, maxBits)
    ensures WriterAt(Behind(before, w), j, maxBits)
    ensures OutputAll(Behind(before, w), codes, j, maxBits) == Behind(before, OutputAll(w, codes, j, maxBits))
    decreases |codes| - j
  {
    hide Output, PlaceOf;
    if j < |codes| {
      OutputShape(w, codes[j], j, maxBits);
      OutputBehind(before, w, codes[j], FreeAt(j, maxBits), maxBits);
      OutputAllBehind(before, Output(w, codes[j], FreeAt(j, maxBits), maxBits), codes, j + 1, maxBits);
    }
  }

  /** What LZ_1 writes does not depend on what is in the file before it: it is
      added at the end. */
  lemma {:induction false} CompressAppends(x: seq<Byte>, maxBits: nat, bits: seq<bool>, out: seq<Byte>)
    requires ValidMax(maxBits) && |bits| == BUFFER_BITS
    ensures Compress(x, maxBits, bits, out) == Behind(out, Compress(x, maxBits, bits, []))
    ensures Compress(x, maxBits, bits, out).out == out + Compressed(x, maxBits, bits)
  {
    hide OutputAll, CodesOf, BytesOf;
    var start, codes := MemberWriter(bits, []), CodesOf(x, Capacity(maxBits));
    MemberWriterStarts(bits, [], maxBits);
    MemberWriterStarts(bits, out, maxBits);
    assert MemberWriter(bits, out) == Behind(out, start);
    OutputAllBehind(out, start, codes, 0, maxBits);
    var w := OutputAll(start, codes, 0, maxBits);
    forall b: seq<Byte>
      ensures (out + w.out) + b == out + (w.out + b)
    {
    }
  }

  /** How decoding can end.  Fault is where the original goes on from undefined
      values: a table entry not written yet, or a full stack. */
  datatype Outcome = NotArchive | Ended | Fault

  datatype Result = Result(outcome: Outcome, out: seq<Byte>, reader: Reader)

  /** The reader's width and largest code go together. */
  predicate ReaderSync(r: Reader, maxBits: nat) {
    ReaderOk(r) && r.nBits <= maxBits && r.maxCode == MaxCode(r.nBits)
  }

  lemma {:induction false} SyncKept(r: Reader, file: seq<Byte>, freeEnt: nat, maxBits: nat)
    requires ValidMax(maxBits) && ReaderSync(r, maxBits) && freeEnt <= 256 + Capacity(maxBits)
    ensures freeEnt > r.maxCode ==> r.nBits < maxBits
    ensures ReaderSync(GetCode(r, file, freeEnt, maxBits).0, maxBits)
    ensures GetCode(r, file, freeEnt, maxBits).1 >= 0 ==>
      var s := GetCode(r, file, freeEnt, maxBits).0;
      0 <= s.left < r.left || (s.left == r.left && s.size == r.size && r.offset < s.offset && r.offset < r.size)
  {
    hide FromBits, Pow2, BitsOf, Fill;
  }

  function AtLeast0(n: int): nat { if n < 0 then 0 else n }

  /** Decode codes until the member ends. */
  function DecodeFrom(r: Reader, file: seq<Byte>, s: Decoder, maxBits: nat): Result
    requires ValidMax(maxBits) && ReaderSync(r, maxBits) && |s.d| <= Capacity(maxBits)
    decreases AtLeast0(r.left), AtLeast0(r.size - r.offset)
  {
    SyncKept(r, file, 256 + |s.d|, maxBits);
    var (q, code) := GetCode(r, file, 256 + |s.d|, maxBits);
    if code < 0 then Result(Ended, s.out, q)
    else match Receive(s, code, Capacity(maxBits))
      case None => Result(Fault, s.out, q)
      case Some(t) => DecodeFrom(q, file, t, maxBits)
  }

  /** The reader when de_LZ_1 has read the tag: its offset, size and buffer are
      left over from before. */
  function MemberReader(r: Reader, bytes: int): Reader {
    r.(nBits := INIT_BITS, maxCode := MaxCode(INIT_BITS), left := bytes - 2, pos := r.pos + 2)
  }

  predicate HasTag(file: seq<Byte>, pos: nat) {
    pos + 2 <= |file| && file[pos..pos + 2] == TAG
  }

  /** Where reading the tag leaves off. */
  function AfterTag(file: seq<Byte>, pos: nat): nat {
    if pos + 2 <= |file| then pos + 2 else if pos <= |file| then |file| else pos
  }

  /** Decode a member of a given size at the reader's position. */
  function Decode(r: Reader, file: seq<Byte>, bytes: int, maxBits: nat): Result
    requires ValidMax(maxBits) && BufferOk(r)
  {
    if !HasTag(file, r.pos) then Result(NotArchive, [], r.(pos := AfterTag(file, r.pos)))
    else
      Widths(INIT_BITS);
      var start := MemberReader(r, bytes);
      SyncKept(start, file, 256, maxBits);
      var (q, code) := GetCode(start, file, 256, maxBits);
      if code < 0 then Result(Ended, [], q) else DecodeFrom(q, file, First(code), maxBits)
  }

  lemma {:induction false} EndedOrFault(r: Reader, file: seq<Byte>, s: Decoder, maxBits: nat)
    requires ValidMax(maxBits) && ReaderSync(r, maxBits) && |s.d| <= Capacity(maxBits)
    ensures DecodeFrom(r, file, s, maxBits).outcome != NotArchive
    decreases AtLeast0(r.left), AtLeast0(r.size - r.offset)
  {
    hide GetCode, Receive, Pow2;
    SyncKept(r, file, 256 + |s.d|, maxBits);
    var (q, code) := GetCode(r, file, 256 + |s.d|, maxBits);
    if code >= 0 {
      var got := Receive(s, code, Capacity(maxBits));
      if got.Some? {
        ReceiveGrows(s, code, Capacity(maxBits));
        EndedOrFault(q, file, got.value, maxBits);
      }
    }
  }

  /** A member is refused exactly when it does not begin with the number 2995,
      high byte first: nothing is put out, and at most two bytes are read. */
  lemma {:induction false} Refused(r: Reader, file: seq<Byte>, bytes: int, maxBits: nat)
    requires ValidMax(maxBits) && BufferOk(r)
    ensures Decode(r, file, bytes, maxBits).outcome == NotArchive <==>
      r.pos + 2 > |file| || 256 * (file[r.pos] as int) + file[r.pos + 1] != 2995
    ensures Decode(r, file, bytes, maxBits).outcome == NotArchive ==>
      var res := Decode(r, file, bytes, maxBits);
      && res.out == [] && res.reader == r.(pos := res.reader.pos)
      && res.reader.pos == if r.pos + 2 <= |file| then r.pos + 2 else if r.pos < |file| then |file| else r.pos
  {
    hide GetCode, DecodeFrom, Pow2;
    if r.pos + 2 <= |file| {
      assert file[r.pos..r.pos + 2] == [file[r.pos], file[r.pos + 1]];
    }
    if HasTag(file, r.pos) {
      Widths(INIT_BITS);
      var start := MemberReader(r, bytes);
      SyncKept(start, file, 256, maxBits);
      var (q, code) := GetCode(start, file, 256, maxBits);
      if code >= 0 {
        EndedOrFault(q, file, First(code), maxBits);
      }
    }
  }

  lemma {:induction false} DecodeFromGrows(r: Reader, file: seq<Byte>, s: Decoder, maxBits: nat)
    requires ValidMax(maxBits) && ReaderSync(r, maxBits) && |s.d| <= Capacity(maxBits)
    ensures s.out <= DecodeFrom(r, file, s, maxBits).out
    decreases AtLeast0(r.left), AtLeast0(r.size - r.offset)
  {
    hide GetCode, Expand, Pow2;
    SyncKept(r, file, 256 + |s.d|, maxBits);
    var (q, code) := GetCode(r, file, 256 + |s.d|, maxBits);
    if code >= 0 {
      var got := Receive(s, code, Capacity(maxBits));
      if got.Some? {
        ReceiveGrows(s, code, Capacity(maxBits));
        DecodeFromGrows(q, file, got.value, maxBits);
      }
    }
  }

  /** The first byte put out is the first code, cut to eight bits. */
  lemma {:induction false} FirstByteOut(r: Reader, file: seq<Byte>, bytes: int, maxBits: nat)
    requires ValidMax(maxBits) && BufferOk(r) && Decode(r, file, bytes, maxBits).outcome != NotArchive
    ensures
      var start := r.(nBits := 9, maxCode := 511, left := bytes - 2, pos := r.pos + 2);
      var code := GetCode(start, file, 256, maxBits).1;
      if code < 0 then Decode(r, file, bytes, maxBits).out == [] && Decode(r, file, bytes, maxBits).outcome == Ended
      else |Decode(r, file, bytes, maxBits).out| > 0 && Decode(r, file, bytes, maxBits).out[0] == code % 256
  {
    hide GetCode, DecodeFrom;
    assert Pow2(4) == 16 && Pow2(9) == 32 * Pow2(4);
    Widths(INIT_BITS);
    var start := MemberReader(r, bytes);
    SyncKept(start, file, 256, maxBits);
    var (q, code) := GetCode(start, file, 256, maxBits);
    if code >= 0 {
      DecodeFromGrows(q, file, First(code), maxBits);
    }
  }

  /** What is put out begins with that number. */
  lemma {:induction false} TagFirst(x: seq<Byte>, maxBits: nat, bits: seq<bool>, out: seq<Byte>)
    requires ValidMax(maxBits) && |bits| == BUFFER_BITS
    ensures
      var after := Compress(x, maxBits, bits, out).out;
      |after| >= |out| + 2 && after[..|out|] == out && 256 * (after[|out|] as int) + after[|out| + 1] == 2995
  {
    hide Compressed, OutputAll, CodesOf, BytesOf, Flush;
    var codes := CodesOf(x, Capacity(maxBits));
    MemberWriterStarts(bits, out, maxBits);
    OutputAllGrows(MemberWriter(bits, out), codes, 0, maxBits);
    FlushGrows(OutputAll(MemberWriter(bits, out), codes, 0, maxBits));
    var start, after := out + TAG, Compress(x, maxBits, bits, out).out;
    assert start <= after && start[..|out|] == out;
    assert after[|out|] == start[|out|] && after[|out| + 1] == start[|out| + 1];
  }

  lemma {:induction false} OutputAllGrows(w: Writer, codes: seq<nat>, j: nat, maxBits: nat)
    requires ValidMax(maxBits) && j <= |codes| && WriterAt(w, j, maxBits)
    ensures w.out <= OutputAll(w, codes, j, maxBits).out
    decreases |codes| - j
  {
    hide PlaceOf, Insert, BytesOf;
    if j < |codes| {
      OutputShape(w, codes[j], j, maxBits);
      OutputAllGrows(Output(w, codes[j], FreeAt(j, maxBits), maxBits), codes, j + 1, maxBits);
    }
  }

  lemma {:induction false} FlushGrows(w: Writer)
    requires WriterOk(w)
    ensures w.out <= Flush(w).out
  {
    hide BytesOf;
  }

  /* The codes of a string suit the layout. */

  /** Every code had an entry by then. */
  ghost predicate InTime(codes: seq<nat>, from: nat, maxBits: nat) requires ValidMax(maxBits) {
    forall j :: 0 <= j < |codes| ==> codes[j] < FreeAt(from + j, maxBits)
  }

  lemma {:induction false} CodesInTime(x: seq<Byte>, i: nat, ent: nat, d: Dict, from: nat, maxBits: nat)
    requires ValidMax(maxBits) && i <= |x| && 256 + |d| == FreeAt(from, maxBits) && ent < 256 + |d|
    ensures InTime(Codes(x, i, ent, d, Capacity(maxBits)), from, maxBits)
    decreases |x| - i
  {
    hide Find, Pow2;
    var cap := Capacity(maxBits);
    if i < |x| {
      var found := Find(d, ent, x[i]);
      if found != 0 {
        CodesInTime(x, i + 1, found, d, from, maxBits);
      } else {
        var rest := Codes(x, i + 1, x[i], Grow(d, ent, x[i], cap), cap);
        CodesInTime(x, i + 1, x[i], Grow(d, ent, x[i], cap), from + 1, maxBits);
        forall j | 0 <= j < |rest| + 1
          ensures ([ent] + rest)[j] < FreeAt(from + j, maxBits)
        {
          assert j > 0 ==> rest[j - 1] < FreeAt(from + 1 + (j - 1), maxBits);
        }
      }
    }
  }

  lemma {:induction false} CodesOfInTime(x: seq<Byte>, maxBits: nat)
    requires ValidMax(maxBits)
    ensures InTime(CodesOf(x, Capacity(maxBits)), 0, maxBits)
  {
    if |x| > 0 {
      CodesInTime(x, 1, x[0], [], 0, maxBits);
    }
  }

  /* Decoding what was packed. */

  /** The bytes of a member after its tag lie in the file at base. */
  ghost predicate MemberAt(file: seq<Byte>, base: nat, bytes: seq<Byte>, codes: seq<nat>, maxBits: nat)
    requires ValidMax(maxBits)
  {
    && base + |bytes| <= |file| && file[base..base + |bytes|] == bytes
    && Packed(bytes, codes, maxBits) && InTime(codes, 0, maxBits)
  }

  /** Where the reader is left when a member ends: at its last byte, with the
      offset and size that it had after the last code. */
  ghost predicate LeftAtEnd(r: Reader, bytes: seq<Byte>, base: nat, codes: seq<nat>, maxBits: nat)
    requires ValidMax(maxBits)
  {
    ReaderOk(r) && r.pos == base + |bytes| &&
    exists q :: Ready(q, bytes, base, |codes|, maxBits) && q.offset == r.offset && q.size == r.size
  }

  /** Reading codes out of the packed bytes is receiving the codes. */
  ghost predicate DecodesTo(res: Result, r: Option<Decoder>) {
    match r
    case None => res.outcome == Fault
    case Some(t) => res.outcome == Ended && res.out == t.out
  }

  lemma {:induction false} DecodeFromPacked(
      r: Reader, file: seq<Byte>, s: Decoder, bytes: seq<Byte>, base: nat, codes: seq<nat>, j: nat, maxBits: nat)
    requires ValidMax(maxBits) && MemberAt(file, base, bytes, codes, maxBits) && 0 < j <= |codes|
    requires ReaderSync(r, maxBits) && Ready(r, bytes, base, j, maxBits) && 256 + |s.d| == FreeBefore(j, maxBits)
    ensures DecodesTo(DecodeFrom(r, file, s, maxBits), ReceiveAll(s, codes[j..], Capacity(maxBits)))
    ensures DecodeFrom(r, file, s, maxBits).outcome == Ended ==>
      LeftAtEnd(DecodeFrom(r, file, s, maxBits).reader, bytes, base, codes, maxBits)
    decreases |codes| - j
  {
    hide Ready, GetCode, Packed, Receive, Pow2;
    var cap := Capacity(maxBits);
    SyncKept(r, file, FreeBefore(j, maxBits), maxBits);
    if j == |codes| {
      GetCodeEnds(r, file, bytes, base, codes, maxBits);
    } else {
      GetCodeTakes(r, file, bytes, base, codes, j, maxBits);
      ReceiveNext(s, codes[j], codes[j + 1..], cap);
      assert codes[j..] == [codes[j]] + codes[j + 1..];
      var got := Receive(s, codes[j], cap);
      if got.Some? {
        ReceiveGrows(s, codes[j], cap);
        var q := GetCode(r, file, FreeBefore(j, maxBits), maxBits).0;
        DecodeFromPacked(q, file, got.value, bytes, base, codes, j + 1, maxBits);
      }
    }
  }

  lemma {:induction false} ReceiveGrows(s: Decoder, code: nat, cap: nat)
    requires Receive(s, code, cap).Some?
    ensures |Receive(s, code, cap).value.d| == if |s.d| < cap then |s.d| + 1 else |s.d|
  {
  }
}
