/** Where in the packed bytes each code lies, and the proof that the writer puts
    it there and the reader finds it there.  Which dictionary entries exist, and
    so the layout, depends only on how many codes have gone before. */
module Layout {
  import opened Bits
  import opened Packing

  predicate ValidMax(maxBits: nat) { INIT_BITS <= maxBits <= MAX_BITS }

  /** The encoder's first unused entry when it packs code j. */
  function FreeAt(j: nat, maxBits: nat): nat requires ValidMax(maxBits) {
    256 + if j < Capacity(maxBits) then j else Capacity(maxBits)
  }

  /** The decoder's first unused entry when it asks for code j. */
  function FreeBefore(j: nat, maxBits: nat): nat requires ValidMax(maxBits) {
    if j == 0 then 256 else FreeAt(j - 1, maxBits)
  }

  /** The bit offset of a code in its group is a multiple of the width. */
  predicate AtSlot(offset: nat, width: nat) {
    || offset == 0 || offset == width || offset == 2 * width || offset == 3 * width
    || offset == 4 * width || offset == 5 * width || offset == 6 * width || offset == 7 * width
  }

  /** A code lies at a bit offset in the group that starts at a byte offset. */
  datatype Place = Place(group: nat, offset: nat, width: nat) {
    function Start(): nat { 8 * group + offset }
    function End(): nat { 8 * group + offset + width }
  }

  /** The place after a code, given the encoder's first unused entry. */
  function After(p: Place, freeEnt: nat): Place {
    if freeEnt > MaxCode(p.width) then Place(p.group + p.width, 0, p.width + 1)
    else if p.offset == 7 * p.width then Place(p.group + p.width, 0, p.width)
    else Place(p.group, p.offset + p.width, p.width)
  }

  function PlaceOf(j: nat, maxBits: nat): Place requires ValidMax(maxBits) {
    if j == 0 then Place(0, 0, INIT_BITS) else After(PlaceOf(j - 1, maxBits), FreeAt(j - 1, maxBits))
  }

  lemma {:induction false} PlaceValid(j: nat, maxBits: nat)
    requires ValidMax(maxBits)
    ensures var p := PlaceOf(j, maxBits);
      INIT_BITS <= p.width <= maxBits && AtSlot(p.offset, p.width) && FreeBefore(j, maxBits) <= MaxCode(p.width)
  {
    hide Pow2, MaxCode, Capacity, After;
    if j == 0 {
      Widths(INIT_BITS);
      CapacityIs(INIT_BITS);
    } else {
      PlaceValid(j - 1, maxBits);
      CapacityIs(maxBits);
      NextValid(PlaceOf(j - 1, maxBits), FreeBefore(j - 1, maxBits), FreeAt(j - 1, maxBits), maxBits);
    }
  }

  lemma {:induction false} CapacityIs(maxBits: nat)
    requires INIT_BITS <= maxBits
    ensures 256 + Capacity(maxBits) == MaxCode(maxBits) && MaxCode(maxBits) > 256
  {
    Widths(maxBits);
  }

  lemma {:induction false} NextValid(p: Place, before: nat, free: nat, maxBits: nat)
    requires INIT_BITS <= p.width <= maxBits && AtSlot(p.offset, p.width)
    requires before <= free <= before + 1 && before <= MaxCode(p.width) && free <= MaxCode(maxBits)
    ensures
      var q := After(p, free);
      INIT_BITS <= q.width <= maxBits && AtSlot(q.offset, q.width) && free <= MaxCode(q.width)
  {
    Widths(p.width);
  }

  /** A code that had an entry or is about to get one fits its width. */
  lemma {:induction false} CodeFits(j: nat, maxBits: nat)
    requires ValidMax(maxBits)
    ensures FreeAt(j, maxBits) <= Pow2(PlaceOf(j, maxBits).width)
  {
    PlaceValid(j, maxBits);
    Widths(INIT_BITS);
    assert j > 0 ==> FreeAt(j, maxBits) <= FreeAt(j - 1, maxBits) + 1;
  }

  /** The next code is in the same group, or begins the one after it. */
  lemma {:induction false} NextPlace(j: nat, maxBits: nat)
    requires ValidMax(maxBits)
    ensures
      var p, q := PlaceOf(j, maxBits), PlaceOf(j + 1, maxBits);
      && INIT_BITS <= p.width <= maxBits && INIT_BITS <= q.width <= maxBits
      && q == After(p, FreeAt(j, maxBits)) && p.offset <= 7 * p.width && q.offset <= 7 * q.width && p.End() <= q.Start()
      && (q.offset == 0 <==> q.group == p.group + p.width) && (q.group == p.group <==> q.offset != 0)
      && (q.offset != 0 ==> q.width == p.width)
  {
    hide FreeAt, FreeBefore, MaxCode;
    PlaceValid(j, maxBits);
    PlaceValid(j + 1, maxBits);
  }

  /** Codes do not overlap, and are in order. */
  lemma {:induction false} PlacesAscend(i: nat, j: nat, maxBits: nat)
    requires ValidMax(maxBits) && i < j
    ensures PlaceOf(i, maxBits).End() <= PlaceOf(j, maxBits).Start()
  {
    hide PlaceOf;
    NextPlace(j - 1, maxBits);
    if i < j - 1 {
      PlacesAscend(i, j - 1, maxBits);
    }
  }

  /** The first j codes are in their places. */
  ghost predicate Holds(bits: seq<bool>, codes: seq<nat>, j: nat, maxBits: nat)
    requires ValidMax(maxBits) && j <= |codes|
  {
    forall i :: 0 <= i < j ==> HoldsAt(bits, PlaceOf(i, maxBits), codes[i])
  }

  predicate HoldsAt(bits: seq<bool>, p: Place, code: nat) {
    && p.End() <= |bits|
    && bits[p.Start()..p.End()] == ToBits(code, p.width)
  }

  lemma {:induction false} HoldsKept(bits: seq<bool>, bits': seq<bool>, codes: seq<nat>, j: nat, maxBits: nat)
    requires ValidMax(maxBits) && j <= |codes| && Holds(bits, codes, j, maxBits)
    requires var n := PlaceOf(j, maxBits).Start(); n <= |bits| && n <= |bits'| && bits'[..n] == bits[..n]
    ensures Holds(bits', codes, j, maxBits)
  {
    hide PlaceOf, BitsOf, ToBits;
    var n := PlaceOf(j, maxBits).Start();
    forall i | 0 <= i < j
      ensures HoldsAt(bits', PlaceOf(i, maxBits), codes[i])
    {
      PlacesAscend(i, j, maxBits);
      var p := PlaceOf(i, maxBits);
      assert HoldsAt(bits, p, codes[i]);
      assert bits'[p.Start()..p.End()] == bits'[..n][p.Start()..p.End()];
      assert bits[p.Start()..p.End()] == bits[..n][p.Start()..p.End()];
    }
  }

  /* The writer. */

  /** The writer after packing j codes.  What it has written, followed by its
      buffer, holds them all; the rest of the buffer is left from before. */
  ghost predicate Wrote(w: Writer, w0: Writer, codes: seq<nat>, j: nat, maxBits: nat)
    requires ValidMax(maxBits) && j <= |codes|
  {
    var p := PlaceOf(j, maxBits);
    && WriterAt(w, j, maxBits)
    && |w.out| == |w0.out| + p.group && w0.out <= w.out && w.count == w0.count + p.group
    && Holds(BitsOf(w.out[|w0.out|..]) + w.bits, codes, j, maxBits)
  }

  lemma {:induction false} InsertSlices(body: seq<bool>, bits: seq<bool>, offset: nat, nBits: nat, code: nat)
    requires offset + nBits <= |bits|
    ensures
      var r := body + Insert(bits, offset, nBits, code);
      var n := |body| + offset;
      r[..n] == (body + bits)[..n] && r[n..n + nBits] == ToBits(code, nBits)
  {
  }

  lemma {:induction false} InsertHolds(body: seq<bool>, bits: seq<bool>, codes: seq<nat>, j: nat, maxBits: nat)
    requires ValidMax(maxBits) && j < |codes| && Holds(body + bits, codes, j, maxBits)
    requires var p := PlaceOf(j, maxBits); |body| == 8 * p.group && p.offset + p.width <= |bits|
    ensures var p := PlaceOf(j, maxBits);
      Holds(body + Insert(bits, p.offset, p.width, codes[j]), codes, j + 1, maxBits)
  {
    hide ToBits;
    var p := PlaceOf(j, maxBits);
    InsertSlices(body, bits, p.offset, p.width, codes[j]);
    HoldsKept(body + bits, body + Insert(bits, p.offset, p.width, codes[j]), codes, j, maxBits);
  }

  /** Writing out the buffer keeps what is in the bytes written. */
  lemma {:induction false} WriteHolds(w: Writer, w0: Writer, count: nat, codes: seq<nat>, j: nat, maxBits: nat)
    requires ValidMax(maxBits) && j <= |codes| && 8 * count <= |w.bits| && w0.out <= w.out
    requires Holds(BitsOf(w.out[|w0.out|..]) + w.bits, codes, j, maxBits)
    requires PlaceOf(j, maxBits).Start() <= 8 * (|w.out| - |w0.out| + count)
    ensures
      var r := WriteBuf(w, count);
      w0.out <= r.out && Holds(BitsOf(r.out[|w0.out|..]), codes, j, maxBits)
      && Holds(BitsOf(r.out[|w0.out|..]) + r.bits, codes, j, maxBits)
  {
    hide PlaceOf, Holds, BitsOf, BytesOf;
    var r := WriteBuf(w, count);
    var body := w.out[|w0.out|..];
    assert r.out[|w0.out|..] == body + BytesOf(w.bits, count);
    BitsOfConcat(body, BytesOf(w.bits, count));
    BitsOfBytes(w.bits, count);
    var written := BitsOf(r.out[|w0.out|..]);
    var n := PlaceOf(j, maxBits).Start();
    SamePrefix(BitsOf(body), w.bits, 8 * count, n);
    HoldsKept(BitsOf(body) + w.bits, written, codes, j, maxBits);
    SamePrefix(written, r.bits, 0, n);
    HoldsKept(written, written + r.bits, codes, j, maxBits);
  }

  lemma {:induction false} BitsOfBytes(bits: seq<bool>, count: nat)
    requires 8 * count <= |bits|
    ensures BitsOf(BytesOf(bits, count)) == bits[..8 * count]
  {
  }

  lemma {:induction false} SamePrefix<T>(a: seq<T>, b: seq<T>, m: nat, n: nat)
    requires m <= |b| && n <= |a| + m
    ensures (a + b[..m])[..n] == (a + b)[..n] && (m == 0 ==> a[..n] == (a + b)[..n])
  {
    assert m == 0 ==> a + b[..m] == a;
  }

  /** The writer's state before the code at p, but for what its buffer holds. */
  predicate AtPlace(w: Writer, p: Place) {
    WriterOk(w) && w.nBits == p.width && w.maxCode == MaxCode(p.width) && w.offset == p.offset
  }

  predicate WriterAt(w: Writer, j: nat, maxBits: nat) requires ValidMax(maxBits) {
    AtPlace(w, PlaceOf(j, maxBits))
  }

  /** What packing a code comes to, q being the place after it. */
  ghost predicate OutputEffect(w: Writer, r: Writer, code: nat, q: Place)
    requires WriterOk(w)
  {
    var inserted := w.(bits := Insert(w.bits, w.offset, w.nBits, code), offset := w.offset + w.nBits);
    && r.bits == inserted.bits
    && (if q.offset == 0 then r.out == WriteBuf(inserted, w.nBits).out && r.count == w.count + w.nBits
        else r.out == w.out && r.count == w.count)
  }

  lemma {:induction false} OutputAtPlace(w: Writer, code: nat, p: Place, q: Place, free: nat, maxBits: nat)
    requires ValidMax(maxBits) && AtPlace(w, p) && q == After(p, free) && p.offset <= 7 * p.width
    requires q.offset <= 7 * q.width && q.width <= maxBits
    ensures var r := Output(w, code, free, maxBits); AtPlace(r, q) && OutputEffect(w, r, code, q)
  {
    hide ToBits, BitsOf, MaxCode, Pow2;
  }

  lemma {:induction false} OutputShape(w: Writer, code: nat, j: nat, maxBits: nat)
    requires ValidMax(maxBits) && WriterAt(w, j, maxBits)
    ensures var r := Output(w, code, FreeAt(j, maxBits), maxBits);
      WriterAt(r, j + 1, maxBits) && OutputEffect(w, r, code, PlaceOf(j + 1, maxBits))
  {
    hide Output, OutputEffect, AtPlace, MaxCode, Pow2, FreeAt, After;
    NextPlace(j, maxBits);
    OutputAtPlace(w, code, PlaceOf(j, maxBits), PlaceOf(j + 1, maxBits), FreeAt(j, maxBits), maxBits);
  }

  lemma {:induction false} OutputWrites(w: Writer, w0: Writer, codes: seq<nat>, j: nat, maxBits: nat)
    requires ValidMax(maxBits) && j < |codes| && Wrote(w, w0, codes, j, maxBits)
    ensures Wrote(Output(w, codes[j], FreeAt(j, maxBits), maxBits), w0, codes, j + 1, maxBits)
  {
    hide Output, PlaceOf, Holds, BitsOf, ToBits, MaxCode, FreeAt, After, Pow2;
    var q := PlaceOf(j + 1, maxBits);
    NextPlace(j, maxBits);
    OutputShape(w, codes[j], j, maxBits);
    InsertHolds(BitsOf(w.out[|w0.out|..]), w.bits, codes, j, maxBits);
    if q.offset == 0 {
      var inserted := w.(bits := Insert(w.bits, w.offset, w.nBits, codes[j]), offset := w.offset + w.nBits);
      assert q.Start() == 8 * (|w.out| - |w0.out| + w.nBits);
      WriteHolds(inserted, w0, w.nBits, codes, j + 1, maxBits);
    }
  }

  /** Pack the codes from j on. */
  function OutputAll(w: Writer, codes: seq<nat>, j: nat, maxBits: nat): (r: Writer)
    requires ValidMax(maxBits) && j <= |codes| && WriterAt(w, j, maxBits)
    ensures WriterAt(r, |codes|, maxBits)
    decreases |codes| - j
  {
    if j == |codes| then w
    else
      OutputShape(w, codes[j], j, maxBits);
      OutputAll(Output(w, codes[j], FreeAt(j, maxBits), maxBits), codes, j + 1, maxBits)
  }

  lemma {:induction false} OutputAllWrites(w: Writer, w0: Writer, codes: seq<nat>, j: nat, maxBits: nat)
    requires ValidMax(maxBits) && j <= |codes| && Wrote(w, w0, codes, j, maxBits)
    ensures Wrote(OutputAll(w, codes, j, maxBits), w0, codes, |codes|, maxBits)
    decreases |codes| - j
  {
    if j < |codes| {
      OutputWrites(w, w0, codes, j, maxBits);
      OutputAllWrites(Output(w, codes[j], FreeAt(j, maxBits), maxBits), w0, codes, j + 1, maxBits);
    }
  }

  /** Bytes that hold some codes, and end with the byte the last one ends in, or
      with the last one's group if the width grows after it. */
  ghost predicate Packed(bytes: seq<Byte>, codes: seq<nat>, maxBits: nat)
    requires ValidMax(maxBits)
  {
    var p := PlaceOf(|codes|, maxBits);
    && |bytes| == p.group + (p.offset + 7) / 8
    && Holds(BitsOf(bytes), codes, |codes|, maxBits)
  }

  lemma {:induction false} FlushPacks(w: Writer, w0: Writer, codes: seq<nat>, maxBits: nat)
    requires ValidMax(maxBits) && Wrote(w, w0, codes, |codes|, maxBits)
    ensures var r := Flush(w);
      && w0.out <= r.out && Packed(r.out[|w0.out|..], codes, maxBits)
      && r.count == w0.count + |r.out| - |w0.out| && r.offset == 0
  {
    hide PlaceOf, Holds, BitsOf, ToBits, MaxCode, Pow2;
    var p := PlaceOf(|codes|, maxBits);
    if w.offset > 0 {
      WriteHolds(w, w0, (w.offset + 7) / 8, codes, |codes|, maxBits);
    } else {
      var body := BitsOf(w.out[|w0.out|..]);
      assert (body + w.bits)[..p.Start()] == body[..p.Start()];
      HoldsKept(body + w.bits, body, codes, |codes|, maxBits);
    }
  }

  lemma {:induction false} WroteNone(w: Writer, codes: seq<nat>, maxBits: nat)
    requires ValidMax(maxBits) && WriterAt(w, 0, maxBits)
    ensures Wrote(w, w, codes, 0, maxBits)
  {
    assert w.out[|w.out|..] == [];
  }

  /** Everything the writer writes, from an empty buffer to the flush. */
  lemma {:induction false} WriterPacks(w: Writer, codes: seq<nat>, maxBits: nat)
    requires ValidMax(maxBits) && WriterAt(w, 0, maxBits)
    ensures
      var r := Flush(OutputAll(w, codes, 0, maxBits));
      && w.out <= r.out && Packed(r.out[|w.out|..], codes, maxBits)
      && r.count == w.count + |r.out| - |w.out| && r.offset == 0
  {
    hide Flush, Packed, OutputAll, Wrote, PlaceOf;
    WroteNone(w, codes, maxBits);
    OutputAllWrites(w, w, codes, 0, maxBits);
    FlushPacks(OutputAll(w, codes, 0, maxBits), w, codes, maxBits);
  }

  /* The reader. */

  lemma {:induction false} SubSlice<T>(s: seq<T>, a: nat, b: nat, lo: nat, hi: nat)
    requires a <= b <= |s| && lo <= hi <= b - a
    ensures s[a..b][lo..hi] == s[a + lo..a + hi]
  {
    var t := s[a..b];
    forall k | 0 <= k < hi - lo
      ensures t[lo..hi][k] == s[a + lo..a + hi][k]
    {
      assert t[lo..hi][k] == t[lo + k] == s[a + (lo + k)];
    }
    assert t[lo..hi] == s[a + lo..a + hi];
  }

  /** The bytes of a group that are there to read. */
  function GroupSize(length: nat, p: Place): int {
    if length - p.group < p.width then length - p.group else p.width
  }

  /** The reader just after taking the code at p from a member of a given length
      packed at base, but for what its buffer holds. */
  predicate Past(r: Reader, length: nat, base: nat, p: Place) {
    var n := GroupSize(length, p);
    && ReaderOk(r) && r.nBits == p.width && r.maxCode == MaxCode(p.width)
    && r.offset == p.offset + p.width <= 8 * n
    && r.size == 8 * n - (p.width - 1)
    && r.pos == base + p.group + n && r.left == length - p.group - n
  }

  /** The group of p is in the reader's buffer. */
  ghost predicate Buffered(bits: seq<bool>, bytes: seq<Byte>, p: Place) {
    var n := GroupSize(|bytes|, p);
    && 0 <= n && 8 * n <= |bits|
    && bits[..8 * n] == BitsOf(bytes)[8 * p.group..8 * (p.group + n)]
  }

  /** The reader before the first code, with nothing of use in its buffer. */
  predicate Fresh(r: Reader) {
    ReaderOk(r) && r.nBits == INIT_BITS && r.maxCode == MaxCode(INIT_BITS) && r.offset >= r.size
  }

  /** The reader before code j. */
  ghost predicate Ready(r: Reader, bytes: seq<Byte>, base: nat, j: nat, maxBits: nat)
    requires ValidMax(maxBits)
  {
    if j == 0 then Fresh(r) && r.pos == base && r.left == |bytes|
    else
      var p := PlaceOf(j - 1, maxBits);
      Past(r, |bytes|, base, p) && Buffered(r.bits, bytes, p)
  }

  /** Whether getcode has to read a group. */
  predicate NeedsGroup(r: Reader, freeEnt: nat) {
    r.offset >= r.size || freeEnt > r.maxCode
  }

  /** How much of the group of p there is, q being the place after it. */
  predicate GroupRead(length: nat, p: Place, q: Place, last: bool) {
    var n := GroupSize(length, p);
    && 0 < n && p.End() <= 8 * (p.group + n)
    && (if last then p.group + n == length && (q.offset == 0 || 8 * n < q.offset + 8)
        else if q.offset == 0 then n == p.width
        else GroupSize(length, q) == n && q.End() <= 8 * (q.group + n))
  }

  /** The reader reads a group exactly when the next code is in one that it has
      not read, or there is no next code. */
  lemma {:induction false} GroupBoundary(
      r: Reader, length: nat, base: nat, p: Place, q: Place, free: nat, maxBits: nat, last: bool)
    requires ValidMax(maxBits) && INIT_BITS <= p.width <= maxBits && INIT_BITS <= q.width <= maxBits
    requires AtSlot(p.offset, p.width) && q == After(p, free)
    requires Past(r, length, base, p) && GroupRead(length, p, q, last)
    ensures free > r.maxCode ==> r.nBits < MAX_BITS
    ensures var w := Widen(r, free, maxBits); w.nBits == q.width && w.maxCode == MaxCode(q.width)
    ensures NeedsGroup(r, free) <==> last || q.offset == 0
    ensures !last && q.offset == 0 ==> r.pos == base + q.group && r.left == length - q.group
    ensures !last && q.offset != 0 ==> 
      && r.offset == q.offset && Past(r.(offset := r.offset + r.nBits), length, base, q)
      && q.group == p.group && GroupSize(length, q) == GroupSize(length, p)
    ensures last ==> r.pos == base + length && r.left == 0
  {
  }

  /** Where code j ends, its group being read as far as it goes. */
  lemma {:induction false} CodeInGroup(bytes: seq<Byte>, codes: seq<nat>, j: nat, maxBits: nat)
    requires ValidMax(maxBits) && Packed(bytes, codes, maxBits) && j < |codes|
    ensures HoldsAt(BitsOf(bytes), PlaceOf(j, maxBits), codes[j])
    ensures GroupRead(|bytes|, PlaceOf(j, maxBits), PlaceOf(j + 1, maxBits), j + 1 == |codes|)
  {
    hide PlaceOf, HoldsAt, BitsOf, GroupRead, FreeAt, After;
    var p, q := PlaceOf(j, maxBits), PlaceOf(j + 1, maxBits);
    NextPlace(j, maxBits);
    assert HoldsAt(BitsOf(bytes), p, codes[j]);
    HeldInside(bytes, p, codes[j]);
    if j + 1 < |codes| {
      assert HoldsAt(BitsOf(bytes), q, codes[j + 1]);
      HeldInside(bytes, q, codes[j + 1]);
      GroupGoesOn(|bytes|, p, q);
    } else {
      GroupIsLast(|bytes|, p, q);
    }
  }

  lemma {:induction false} HeldInside(bytes: seq<Byte>, p: Place, code: nat)
    requires HoldsAt(BitsOf(bytes), p, code)
    ensures p.End() <= 8 * |bytes|
  {
    hide BitsOf, ToBits;
  }

  /** A place and the one after it, in the same group or the next. */
  predicate Follows(p: Place, q: Place) {
    && 0 < p.width && 0 < q.width && p.offset <= 7 * p.width && q.offset <= 7 * q.width && p.End() <= q.Start()
    && (q.offset == 0 <==> q.group == p.group + p.width) && (q.group == p.group <==> q.offset != 0)
    && (q.offset != 0 ==> q.width == p.width)
  }

  lemma {:induction false} GroupGoesOn(length: nat, p: Place, q: Place)
    requires Follows(p, q) && p.End() <= 8 * length && q.End() <= 8 * length
    ensures GroupRead(length, p, q, false)
  {
  }

  lemma {:induction false} GroupIsLast(length: nat, p: Place, q: Place)
    requires Follows(p, q) && p.End() <= 8 * length && length == q.group + (q.offset + 7) / 8
    ensures GroupRead(length, p, q, true)
  {
  }

  /** Where a reader stands before code j, or at the end. */
  ghost predicate AtBoundary(r: Reader, bytes: seq<Byte>, base: nat, q: Place, free: nat, maxBits: nat, end: bool) {
    var w := Widen(r, free, maxBits);
    && (free > r.maxCode ==> r.nBits < MAX_BITS)
    && (NeedsGroup(r, free) <==> end || q.offset == 0)
    && (end ==> r.pos == base + |bytes| && r.left == 0)
    && (!end ==> w.nBits == q.width && w.maxCode == MaxCode(q.width))
    && (!end && q.offset == 0 ==> r.pos == base + q.group && r.left == |bytes| - q.group)
    && (!end && q.offset != 0 ==>
          && r.offset == q.offset
          && Past(r.(offset := r.offset + r.nBits), |bytes|, base, q)
          && Buffered(r.bits, bytes, q))
  }

  lemma {:induction false} StartBoundary(r: Reader, bytes: seq<Byte>, base: nat, codes: seq<nat>, maxBits: nat)
    requires ValidMax(maxBits) && Packed(bytes, codes, maxBits) && Ready(r, bytes, base, 0, maxBits)
    ensures AtBoundary(r, bytes, base, PlaceOf(0, maxBits), FreeBefore(0, maxBits), maxBits, |codes| == 0)
  {
    Widths(INIT_BITS);
  }

  lemma {:induction false} NextBoundary(r: Reader, bytes: seq<Byte>, base: nat, codes: seq<nat>, j: nat, maxBits: nat)
    requires ValidMax(maxBits) && Packed(bytes, codes, maxBits) && 0 < j <= |codes|
    requires Ready(r, bytes, base, j, maxBits)
    ensures AtBoundary(r, bytes, base, PlaceOf(j, maxBits), FreeBefore(j, maxBits), maxBits, j == |codes|)
  {
    hide BitsOf, MaxCode, FreeAt, Capacity, Past, Widen, NeedsGroup, AtSlot, After, Fresh, PlaceOf, GroupRead,
      GroupSize, Packed, Pow2;
    var p, q := PlaceOf(j - 1, maxBits), PlaceOf(j, maxBits);
    NextPlace(j - 1, maxBits);
    PlaceValid(j - 1, maxBits);
    CodeInGroup(bytes, codes, j - 1, maxBits);
    GroupBoundary(r, |bytes|, base, p, q, FreeBefore(j, maxBits), maxBits, j == |codes|);
  }

  lemma {:induction false} Boundary(r: Reader, bytes: seq<Byte>, base: nat, codes: seq<nat>, j: nat, maxBits: nat)
    requires ValidMax(maxBits) && Packed(bytes, codes, maxBits) && j <= |codes|
    requires Ready(r, bytes, base, j, maxBits)
    ensures AtBoundary(r, bytes, base, PlaceOf(j, maxBits), FreeBefore(j, maxBits), maxBits, j == |codes|)
  {
    hide *;
    if j == 0 {
      StartBoundary(r, bytes, base, codes, maxBits);
    } else {
      NextBoundary(r, bytes, base, codes, j, maxBits);
    }
  }

  /** The bits of a code in the reader's buffer. */
  lemma {:induction false} TakeCode(bits: seq<bool>, bytes: seq<Byte>, p: Place, code: nat)
    requires Buffered(bits, bytes, p) && p.group <= |bytes| && p.offset + p.width <= 8 * GroupSize(|bytes|, p)
    requires HoldsAt(BitsOf(bytes), p, code) && code < Pow2(p.width)
    ensures FromBits(bits[p.offset..p.offset + p.width]) == code
  {
    hide BitsOf, FromBits, ToBits, Pow2;
    var n := GroupSize(|bytes|, p);
    SubSlice(bits, 0, 8 * n, p.offset, p.offset + p.width);
    SubSlice(BitsOf(bytes), 8 * p.group, 8 * (p.group + n), p.offset, p.offset + p.width);
    FromToBits(code, p.width);
  }

  /** A reader where the group of p begins reads it. */
  lemma {:induction false} RefillTakes(r: Reader, file: seq<Byte>, bytes: seq<Byte>, base: nat, p: Place)
    requires ReaderOk(r) && r.nBits == p.width && r.maxCode == MaxCode(p.width) && p.offset == 0
    requires p.group < |bytes| && p.width <= 8 * GroupSize(|bytes|, p)
    requires r.pos == base + p.group && r.left == |bytes| - p.group
    requires base + |bytes| <= |file| && file[base..base + |bytes|] == bytes
    ensures
      var s := Refill(r, file);
      s.1 && s.0.offset == 0 && Past(s.0.(offset := s.0.nBits), |bytes|, base, p) && Buffered(s.0.bits, bytes, p)
  {
    hide BitsOf, FromBits, ToBits, Pow2, Fill;
    var n := GroupSize(|bytes|, p);
    SubSlice(file, base, base + |bytes|, p.group, p.group + n);
    BitsOfSlice(bytes, p.group, p.group + n);
  }

  /** What taking a code comes to, once its group is in the buffer. */
  lemma {:induction false} GetCodeIs(r: Reader, file: seq<Byte>, free: nat, maxBits: nat, ready: Reader)
    requires ReaderOk(r) && (free > r.maxCode ==> r.nBits < MAX_BITS)
    requires ReaderOk(ready) && ready.offset + ready.nBits <= BUFFER_BITS
    requires if NeedsGroup(r, free) then Refill(Widen(r, free, maxBits), file) == (ready, true) else ready == r
    ensures GetCode(r, file, free, maxBits) ==
      (ready.(offset := ready.offset + ready.nBits), FromBits(ready.bits[ready.offset..ready.offset + ready.nBits]))
  {
    hide Widen, Refill, FromBits, Pow2, MaxCode;
  }

  /** A reader at code j takes it. */
  lemma {:induction false} GetCodeTakes(
      r: Reader, file: seq<Byte>, bytes: seq<Byte>, base: nat, codes: seq<nat>, j: nat, maxBits: nat)
    requires ValidMax(maxBits) && Packed(bytes, codes, maxBits) && j < |codes|
    requires codes[j] < FreeAt(j, maxBits)
    requires base + |bytes| <= |file| && file[base..base + |bytes|] == bytes
    requires Ready(r, bytes, base, j, maxBits)
    ensures FreeBefore(j, maxBits) > r.maxCode ==> r.nBits < MAX_BITS
    ensures
      var s := GetCode(r, file, FreeBefore(j, maxBits), maxBits);
      s.1 == codes[j] && Ready(s.0, bytes, base, j + 1, maxBits)
  {
    hide PlaceOf, BitsOf, FromBits, ToBits, MaxCode, FreeAt, FreeBefore, Capacity, GetCode, Refill, Pow2, AtSlot,
      Fill, Packed;
    var p := PlaceOf(j, maxBits);
    var free := FreeBefore(j, maxBits);
    PlaceValid(j, maxBits);
    CodeInGroup(bytes, codes, j, maxBits);
    CodeFits(j, maxBits);
    Boundary(r, bytes, base, codes, j, maxBits);
    if p.offset == 0 {
      var w := Widen(r, free, maxBits);
      RefillTakes(w, file, bytes, base, p);
      var q := Refill(w, file).0;
      GetCodeIs(r, file, free, maxBits, q);
      TakeCode(q.bits, bytes, p, codes[j]);
    } else {
      GetCodeIs(r, file, free, maxBits, r);
      TakeCode(r.bits, bytes, p, codes[j]);
    }
  }

  /** A reader that has taken every code finds the end, with the member read to
      its last byte. */
  lemma {:induction false} GetCodeEnds(
      r: Reader, file: seq<Byte>, bytes: seq<Byte>, base: nat, codes: seq<nat>, maxBits: nat)
    requires ValidMax(maxBits) && Packed(bytes, codes, maxBits) && Ready(r, bytes, base, |codes|, maxBits)
    ensures var free := FreeBefore(|codes|, maxBits);
      && (free > r.maxCode ==> r.nBits < MAX_BITS)
      && var s := GetCode(r, file, free, maxBits);
      s.1 == -1 && s.0 == Widen(r, free, maxBits) && s.0.pos == base + |bytes|
  {
    Boundary(r, bytes, base, codes, |codes|, maxBits);
  }
}
