/** The allocation bitmap of a Dragon DOS disk and the search for sectors to give
    a file.  A set bit is a free sector; each half of the map covers 1440. */
module DragonBitmap {
  import opened Counting

  const HALF := 1440          // DD_BITMAP_SECTOR_LSNS
  const HALF_BYTES := 180     // DD_BITMAP_BYTES
  const MAX_LSN := 2880       // DD_MAX_LSN
  const TRACK := 18           // DRAGONDOS_TRACK_SECTORS
  const MAX_EXTENT := 255     // DD_MAX_EXTENT
  const NO_HINT := 0xFFFF     // DD_NO_HINT

  /** The map of a disk, with how much of it the disk has. */
  datatype Map = Map(bits: seq<bool>, total: nat, directory: nat) {
    ghost predicate Ok() {
      |bits| == MAX_LSN && total <= MAX_LSN && (directory == 360 || directory == 720)
    }

    /** Sectors past the end of the disk do not count. */
    predicate Free(lsn: nat) requires |bits| == MAX_LSN && total <= MAX_LSN {
      lsn < total && bits[lsn]
    }

    /** A byte of a half of the map; none is set past its end. */
    predicate Bit(base: nat, offset: nat, i: nat) requires |bits| == MAX_LSN && total <= MAX_LSN {
      offset < HALF_BYTES && Free(base + 8 * offset + i)
    }

    ghost predicate Zero(base: nat, offset: nat) requires |bits| == MAX_LSN && total <= MAX_LSN {
      forall i: nat :: i < 8 ==> !Bit(base, offset, i)
    }

    ghost predicate Full(base: nat, offset: nat) requires |bits| == MAX_LSN && total <= MAX_LSN {
      forall i: nat :: i < 8 ==> Bit(base, offset, i)
    }

    /** How many bytes from an offset on are $FF. */
    ghost function FullRun(base: nat, offset: nat): nat
      requires |bits| == MAX_LSN && total <= MAX_LSN
      decreases HALF_BYTES - offset
    {
      if offset < HALF_BYTES && Full(base, offset) then 1 + FullRun(base, offset + 1) else 0
    }

    /** The length in bytes of the run that begins with a byte that is not 0. */
    ghost function RunLength(base: nat, offset: nat): nat requires |bits| == MAX_LSN && total <= MAX_LSN {
      if Zero(base, offset) then 0 else 1 + FullRun(base, offset + 1)
    }

    /** The first of the longest runs of a half. */
    ghost predicate Longest(base: nat, offset: nat) requires |bits| == MAX_LSN && total <= MAX_LSN {
      forall o: nat :: o < HALF_BYTES ==>
        RunLength(base, o) <= RunLength(base, offset) && (o < offset ==> RunLength(base, o) < RunLength(base, offset))
    }

    /** The free sectors from lsn up to a limit, and no more before them in the
        byte at start. */
    ghost predicate Joins(lsn: nat, limit: nat, start: nat) requires |bits| == MAX_LSN && total <= MAX_LSN {
      && start <= lsn <= limit && (forall l: nat :: lsn <= l < limit ==> Free(l))
      && (lsn == start || !Free(lsn - 1))
    }

    /** Where a run allocates: the free sectors that join a long run's first byte
        to its second, or those that reach the highest set bit of a single byte. */
    ghost predicate RunStart(base: nat, offset: nat, lsn: nat) requires |bits| == MAX_LSN && total <= MAX_LSN {
      var start := base + 8 * offset;
      if RunLength(base, offset) > 1 then Joins(lsn, start + 8, start)
      else exists limit: nat :: lsn < limit <= start + 8 && Joins(lsn, limit, start) && NoneFrom(limit, start + 8)
    }

    ghost predicate NoneFrom(lo: nat, hi: nat) requires |bits| == MAX_LSN && total <= MAX_LSN {
      forall l: nat :: lo <= l < hi ==> !Free(l)
    }

    /** What scanning a half of the map for its longest run finds. */
    ghost predicate Scanned(base: nat, run: nat, lsn: nat) requires |bits| == MAX_LSN && total <= MAX_LSN {
      if run == 0 then lsn == base + HALF && forall o: nat :: o < HALF_BYTES ==> Zero(base, o)
      else exists o: nat :: o < HALF_BYTES && run == RunLength(base, o) && Longest(base, o) && RunStart(base, o, lsn)
    }

    /** Two tracks next to each other, the outer one at p, both with their first
        sector free and both before the directory. */
    predicate Pair(p: nat) requires |bits| == MAX_LSN && total <= MAX_LSN {
      p % TRACK == 0 && p + 2 * TRACK <= directory && Free(p) && Free(p + TRACK)
    }

    /** The lowest track before the directory whose first sector is free. */
    ghost predicate Lowest(p: nat) requires |bits| == MAX_LSN && total <= MAX_LSN {
      p < directory && p % TRACK == 0 && Free(p) && forall q: nat :: q < p && q % TRACK == 0 ==> !Free(q)
    }

    predicate LooksDown(hint: nat) { hint == NO_HINT || hint < HALF }

    /** The first track looked at towards the end of the disk. */
    function UpFrom(hint: nat): nat { if LooksDown(hint) then directory + TRACK else HALF }

    predicate IsUp(hint: nat, p: nat) requires |bits| == MAX_LSN && total <= MAX_LSN {
      p % TRACK == 0 && p >= UpFrom(hint) && Free(p)
    }

    /** The sector that a file with this hint is given. */
    ghost predicate Chosen(hint: nat, lsn: nat) requires |bits| == MAX_LSN && total <= MAX_LSN {
      if hint != NO_HINT && Free(hint) then lsn == hint
      else if LooksDown(hint) && exists p: nat :: Pair(p) then
        Pair(lsn) && forall p: nat :: Pair(p) ==> p <= lsn
      else if LooksDown(hint) && Free(0) then lsn == 0
      else if exists p: nat :: IsUp(hint, p) then
        IsUp(hint, lsn) && forall p: nat :: IsUp(hint, p) ==> lsn <= p
      else ByRun(true, lsn)
    }

    /** Whether there is a longest run, and where it allocates.  A run of the
        first half is for when the second half has none of two bytes or more. */
    ghost predicate ByRun(found: bool, lsn: nat) requires |bits| == MAX_LSN && total <= MAX_LSN {
      exists run1: nat, lsn1: nat :: Scanned(HALF, run1, lsn1) && BySecondHalf(run1, lsn1, found, lsn)
    }

    ghost predicate BySecondHalf(run1: nat, lsn1: nat, found: bool, lsn: nat)
      requires |bits| == MAX_LSN && total <= MAX_LSN
    {
      if run1 >= 2 then found && lsn == lsn1
      else exists run0: nat, lsn0: nat :: Scanned(0, run0, lsn0) && ByFirstHalf(run0, lsn0, run1, lsn1, found, lsn)
    }

    predicate ByFirstHalf(run0: nat, lsn0: nat, run1: nat, lsn1: nat, found: bool, lsn: nat) {
      if run0 < 2 && run0 <= run1 then lsn == lsn1 && found == (run1 > 0) else lsn == lsn0 && found
    }

    /** A run that begins at lsn: free sectors, as many as an extent can hold,
        to the end of the half or of the free ones. */
    ghost predicate TakenRun(lsn: nat, count: nat) requires |bits| == MAX_LSN && total <= MAX_LSN {
      && 1 <= count <= MAX_EXTENT && (forall l: nat :: lsn <= l < lsn + count ==> Free(l))
      && lsn / HALF == (lsn + count - 1) / HALF
      && (count == MAX_EXTENT || (lsn + count) % HALF == 0 || !Free(lsn + count))
    }

    /** In the half of the map from base, n bytes of free sectors from s, and before them
        a byte with one or more. */
    ghost predicate RunOf(base: nat, s: nat, n: nat) requires |bits| == MAX_LSN && total <= MAX_LSN {
      && s % 8 == 0 && base < s && s + 8 * n <= base + 1440
      && (forall l: nat :: s <= l < s + 8 * n ==> Free(l)) && exists l: nat :: s - 8 <= l < s && Free(l)
    }

    ghost predicate FirstLongest(base: nat, s: nat, n: nat) requires |bits| == MAX_LSN && total <= MAX_LSN {
      RunOf(base, s, n) && forall t: nat, k: nat :: RunOf(base, t, k) ==> k < n || (k == n && s <= t)
    }

    /** Where it allocates: the first of the free sectors of the byte before s that reach
        to s, or with no bytes after it to the last that is free. */
    ghost predicate Allocates(s: nat, n: nat, lsn: nat) requires |bits| == MAX_LSN && total <= MAX_LSN && s >= 8 {
      && s - 8 <= lsn <= s && (lsn == s - 8 || !Free(lsn - 1))
      && if n > 0 then forall l: nat :: lsn <= l < s ==> Free(l)
         else exists limit: nat ::
           lsn < limit <= s && NoneFrom(limit, s) && forall l: nat :: lsn <= l < limit ==> Free(l)
    }

    /** How many sectors are free. */
    function FreeCount(): nat requires total <= |bits| { Count(bits[..total]) }

    /** The map with a run set to free or used. */
    function With(lsn: nat, count: nat, isFree: bool): (m: Map)
      ensures |m.bits| == |bits|
    {
      this.(bits := seq(|bits|, l requires 0 <= l < |bits| => if lsn <= l < lsn + count then isFree else bits[l]))
    }
  }

  /** Taking or freeing a run that was not changes the free sectors by its length. */
  lemma {:induction false} RunCounts(m: Map, lsn: nat, count: nat, isFree: bool)
    requires m.Ok() && (count > 0 ==> lsn + count <= m.total)
    requires forall l: nat :: lsn <= l < lsn + count ==> m.bits[l] == !isFree
    ensures m.With(lsn, count, isFree).FreeCount() == if isFree then m.FreeCount() + count else m.FreeCount() - count
  {
    var n := m.total;
    CountRun(m.bits[..n], m.With(lsn, count, isFree).bits[..n], if count == 0 then 0 else lsn, count, isFree);
  }

  lemma {:induction false} RunTaken(m: Map, lsn: nat, count: nat)
    requires m.Ok() && count > 0 && forall l: nat :: lsn <= l < lsn + count ==> m.Free(l)
    ensures lsn + count <= m.total && m.With(lsn, count, false).FreeCount() + count == m.FreeCount()
  {
    assert m.Free(lsn + (count - 1));
    forall l: nat | lsn <= l < lsn + count
      ensures m.bits[l]
    {
      assert m.Free(l);
    }
    RunCounts(m, lsn, count, false);
  }

  lemma {:induction false} NoneFree(m: Map)
    requires m.Ok()
    ensures m.FreeCount() == 0 <==> forall l: nat :: !m.Free(l)
  {
    CountZero(m.bits[..m.total]);
    assert forall l: nat :: l < m.total ==> m.bits[..m.total][l] == m.Free(l);
  }

  lemma {:induction false} BytePlace(lsn: nat)
    requires lsn % 8 == 0
    ensures lsn - lsn % HALF + 8 * (lsn % HALF / 8) == lsn && lsn % HALF / 8 < HALF_BYTES
  {
    var half, rest := lsn / HALF, lsn % HALF;
    assert lsn == HALF * half + rest;
    WholeBytes(lsn, half, rest);
  }

  lemma {:induction false} WholeBytes(lsn: nat, half: nat, rest: nat)
    requires lsn == HALF * half + rest && lsn % 8 == 0 && rest < HALF
    ensures 8 * (rest / 8) == rest && rest / 8 < HALF_BYTES
  {
    assert (8 * (HALF_BYTES * half) + rest) % 8 == rest % 8;
  }

  lemma {:induction false} ShiftCounts(value: seq<bool>)
    requires |value| > 0
    ensures Count(value) == Count(value[1..] + [false]) + if value[0] then 1 else 0
  {
    assert value == value[..1] + value[1..];
    CountConcat(value[..1], value[1..]);
    CountConcat(value[1..], [false]);
    assert Count(value[..1][..0]) == 0 && Count([false][..0]) == 0;
  }

  /** The sectors free in a byte of the map. */
  lemma {:induction false} ByteCounts(m: Map, lsn: nat, value: seq<bool>)
    requires m.Ok() && lsn < m.total && lsn % 8 == 0 && |value| == 8
    requires
      var base := lsn - lsn % HALF;
      forall i: nat :: i < 8 ==> value[i] == m.Bit(base, lsn % HALF / 8, i)
    ensures
      var next := if lsn + 8 < m.total then lsn + 8 else m.total;
      Count(m.bits[..next]) == Count(m.bits[..lsn]) + Count(value)
  {
    BytePlace(lsn);
    forall i: nat | i < 8
      ensures value[i] == m.Free(lsn + i)
    {
      assert value[i] == m.Bit(lsn - lsn % HALF, lsn % HALF / 8, i);
    }
    PartCounts(m.bits, m.total, lsn, value);
  }

  lemma {:induction false} PartCounts(bits: seq<bool>, total: nat, lsn: nat, value: seq<bool>)
    requires lsn < total <= |bits| && |value| == 8
    requires forall i: nat :: i < 8 ==> value[i] == (lsn + i < total && bits[lsn + i])
    ensures
      var next := if lsn + 8 < total then lsn + 8 else total;
      Count(bits[..next]) == Count(bits[..lsn]) + Count(value)
  {
    hide Count;
    var next := if lsn + 8 < total then lsn + 8 else total;
    var part, rest := value[..next - lsn], value[next - lsn..];
    assert part == bits[lsn..next];
    assert bits[..next] == bits[..lsn] + part && value == part + rest;
    CountConcat(bits[..lsn], part);
    CountConcat(part, rest);
    CountZero(rest);
  }

  /** A byte that is not 0 begins a run, so a scan fails only where no sector is
      free, and what it finds is free. */
  lemma {:induction false} ScanFinds(m: Map, base: nat, run: nat, lsn: nat)
    requires m.Ok() && (base == 0 || base == HALF) && m.Scanned(base, run, lsn)
    ensures run > 0 ==> m.Free(lsn) && base <= lsn < base + HALF
    ensures run == 0 ==> forall l: nat :: base <= l < base + HALF ==> !m.Free(l)
  {
    if run > 0 {
      var o: nat :| o < HALF_BYTES && run == m.RunLength(base, o) && m.Longest(base, o) && m.RunStart(base, o, lsn);
      if run > 1 {
        assert m.Full(base, o + 1);
        assert m.Bit(base, o + 1, 0);
      }
    } else {
      forall l: nat | base <= l < base + HALF
        ensures !m.Free(l)
      {
        var o := (l - base) / 8;
        assert m.Zero(base, o);
        assert !m.Bit(base, o, (l - base) % 8);
      }
    }
  }

  /** A choice is a free sector. */
  lemma {:induction false} ChosenFree(m: Map, hint: nat, lsn: nat)
    requires m.Ok() && m.Chosen(hint, lsn)
    ensures m.Free(lsn)
  {
    if m.ByRun(true, lsn) {
      RunFound(m, true, lsn);
    }
  }

  lemma {:induction false} HintChosen(m: Map, hint: nat)
    requires m.Ok() && m.Free(hint)
    ensures m.Chosen(hint, hint)
  {
    hide Map.ByRun;
  }

  lemma {:induction false} SameHalf(lsn: nat)
    requires lsn > 0
    ensures lsn % HALF != 0 ==> lsn / HALF == (lsn - 1) / HALF
  {
  }

  lemma {:induction false} JoinsOne(m: Map, limit: nat, start: nat, a: nat, b: nat)
    requires m.Ok() && m.Joins(a, limit, start) && m.Joins(b, limit, start)
    ensures a == b
  {
  }

  lemma {:induction false} RunStartOne(m: Map, base: nat, offset: nat, a: nat, b: nat)
    requires m.Ok() && m.RunStart(base, offset, a) && m.RunStart(base, offset, b)
    ensures a == b
  {
    hide Map.RunLength;
    var start := base + 8 * offset;
    if m.RunLength(base, offset) > 1 {
      JoinsOne(m, start + 8, start, a, b);
    } else {
      var j: nat :| a < j <= start + 8 && m.Joins(a, j, start) && m.NoneFrom(j, start + 8);
      var k: nat :| b < k <= start + 8 && m.Joins(b, k, start) && m.NoneFrom(k, start + 8);
      assert m.Free(j - 1) && m.Free(k - 1);
      JoinsOne(m, j, start, a, b);
    }
  }

  lemma {:induction false} ScannedOne(m: Map, base: nat, run: nat, a: nat, run': nat, b: nat)
    requires m.Ok() && m.Scanned(base, run, a) && m.Scanned(base, run', b)
    ensures run == run' && a == b
  {
    hide Map.FullRun, Map.Zero, Map.RunStart;
    if run > 0 && run' > 0 {
      var o: nat :| o < HALF_BYTES && run == m.RunLength(base, o) && m.Longest(base, o) && m.RunStart(base, o, a);
      var p: nat :| p < HALF_BYTES && run' == m.RunLength(base, p) && m.Longest(base, p) && m.RunStart(base, p, b);
      assert o == p;
      RunStartOne(m, base, o, a, b);
    }
  }

  lemma {:induction false} ByRunOne(m: Map, a: nat, b: nat)
    requires m.Ok() && m.ByRun(true, a) && m.ByRun(true, b)
    ensures a == b
  {
    hide Map.Scanned;
    var r: nat, x: nat :| m.Scanned(HALF, r, x) && m.BySecondHalf(r, x, true, a);
    var q: nat, y: nat :| m.Scanned(HALF, q, y) && m.BySecondHalf(q, y, true, b);
    ScannedOne(m, HALF, r, x, q, y);
    if r < 2 {
      var r0: nat, x0: nat :| m.Scanned(0, r0, x0) && m.ByFirstHalf(r0, x0, r, x, true, a);
      var q0: nat, y0: nat :| m.Scanned(0, q0, y0) && m.ByFirstHalf(q0, y0, q, y, true, b);
      ScannedOne(m, 0, r0, x0, q0, y0);
    }
  }

  /** Where a file is put, in the numbers of the ROM.  A hint that is free is taken.
      With a hint in use below 1440, or none, it is the highest track that is next to
      another before the directory, then track 0, then the first track after the
      directory; with one from 1440 on, the first track from there. */
  lemma {:induction false} ChosenPlace(m: Map, hint: nat, lsn: nat)
    requires m.Ok() && m.Chosen(hint, lsn)
    ensures m.Free(hint) ==> lsn == hint
    ensures !m.Free(hint) && (hint < 1440 || hint == 65535) ==>
      if exists p: nat :: p % 18 == 0 && p + 36 <= m.directory && m.Free(p) && m.Free(p + 18) then
        lsn % 18 == 0 && lsn + 36 <= m.directory && m.Free(lsn) && m.Free(lsn + 18)
        && forall p: nat :: p % 18 == 0 && p + 36 <= m.directory && m.Free(p) && m.Free(p + 18) ==> p <= lsn
      else if m.Free(0) then lsn == 0
      else (exists p: nat :: p % 18 == 0 && p >= m.directory + 18 && m.Free(p)) ==>
        lsn % 18 == 0 && lsn >= m.directory + 18 && m.Free(lsn)
        && forall p: nat :: p % 18 == 0 && m.directory + 18 <= p < lsn ==> !m.Free(p)
    ensures !m.Free(hint) && 1440 <= hint != 65535 && (exists p: nat :: p % 18 == 0 && p >= 1440 && m.Free(p)) ==>
      lsn % 18 == 0 && lsn >= 1440 && m.Free(lsn) && forall p: nat :: p % 18 == 0 && 1440 <= p < lsn ==> !m.Free(p)
  {
    hide Map.ByRun;
    if exists p: nat :: p % 18 == 0 && p + 36 <= m.directory && m.Free(p) && m.Free(p + 18) {
      var p: nat :| p % 18 == 0 && p + 36 <= m.directory && m.Free(p) && m.Free(p + 18);
      assert m.Pair(p);
    }
    forall p: nat | p % 18 == 0 && p + 36 <= m.directory && m.Free(p) && m.Free(p + 18)
      ensures m.Pair(p)
    {
    }
    forall p: nat | p % 18 == 0 && p >= m.UpFrom(hint) && m.Free(p)
      ensures m.IsUp(hint, p)
    {
    }
  }

  /** With no such track a file goes in the second half of the map if that has a byte
      with a free sector before a byte that is all free; in the first if only that has;
      and otherwise in the second half if any of it is free.  In that half it begins
      with the first of the longest runs of bytes. */
  lemma {:induction false} RunPlace(m: Map, lsn: nat)
    requires m.Ok() && m.ByRun(true, lsn)
    ensures
      var first, second := exists s: nat :: m.RunOf(0, s, 1), exists s: nat :: m.RunOf(1440, s, 1);
      lsn >= 1440 <==> second || (!first && exists l: nat :: l >= 1440 && m.Free(l))
    ensures exists s: nat, n: nat :: m.FirstLongest(if lsn < 1440 then 0 else 1440, s, n) && m.Allocates(s, n, lsn)
  {
    hide Map.Longest, Map.RunStart, Map.RunLength, Map.RunOf, Map.FirstLongest, Map.Allocates;
    var run1: nat, lsn1: nat :| m.Scanned(HALF, run1, lsn1) && m.BySecondHalf(run1, lsn1, true, lsn);
    ScanFinds(m, HALF, run1, lsn1);
    ScanIs(m, HALF, run1, lsn1);
    if run1 < 2 {
      var run0: nat, lsn0: nat :| m.Scanned(0, run0, lsn0) && m.ByFirstHalf(run0, lsn0, run1, lsn1, true, lsn);
      ScanFinds(m, 0, run0, lsn0);
      ScanIs(m, 0, run0, lsn0);
    }
  }

  /** A scan finds the first of the longest runs, and with it whether there is one of
      two bytes. */
  lemma {:induction false} ScanIs(m: Map, base: nat, run: nat, lsn: nat)
    requires m.Ok() && (base == 0 || base == HALF) && m.Scanned(base, run, lsn)
    ensures run >= 2 <==> exists s: nat :: m.RunOf(base, s, 1)
    ensures run > 0 ==> exists s: nat, n: nat :: m.FirstLongest(base, s, n) && m.Allocates(s, n, lsn)
  {
    hide Map.RunStart, Map.Allocates, Map.FullRun, Map.RunOf, Map.Zero;
    if run > 0 {
      var o: nat :| o < HALF_BYTES && run == m.RunLength(base, o) && m.Longest(base, o) && m.RunStart(base, o, lsn);
      var s, n := base + 8 * (o + 1), run - 1;
      RunIs(m, base, o);
      forall t: nat, k: nat | m.RunOf(base, t, k)
        ensures k < n || (k == n && s <= t)
      {
        RunAtLeast(m, base, t, k);
      }
      StartIs(m, base, o, lsn);
      assert m.FirstLongest(base, s, n);
      if n > 0 {
        ShorterRun(m, base, s, n);
      }
    }
    if exists s: nat :: m.RunOf(base, s, 1) {
      var s: nat :| m.RunOf(base, s, 1);
      RunAtLeast(m, base, s, 1);
    }
  }

  lemma {:induction false} ShorterRun(m: Map, base: nat, s: nat, n: nat)
    requires m.Ok() && m.RunOf(base, s, n) && n > 0
    ensures m.RunOf(base, s, 1)
  {
  }

  lemma {:induction false} BitIs(m: Map, base: nat, o: nat)
    requires m.Ok() && (base == 0 || base == HALF) && o < HALF_BYTES
    ensures m.Full(base, o) <==> forall l: nat :: base + 8 * o <= l < base + 8 * o + 8 ==> m.Free(l)
    ensures !m.Zero(base, o) <==> exists l: nat :: base + 8 * o <= l < base + 8 * o + 8 && m.Free(l)
  {
    var s := base + 8 * o;
    forall l: nat | s <= l < s + 8
      ensures m.Free(l) == m.Bit(base, o, l - s)
    {
    }
    assert forall i: nat :: i < 8 ==> m.Bit(base, o, i) == m.Free(s + i);
  }

  lemma {:induction false} FullIs(m: Map, base: nat, o: nat)
    requires m.Ok() && (base == 0 || base == HALF) && o <= HALF_BYTES
    ensures o + m.FullRun(base, o) <= HALF_BYTES
    ensures forall l: nat :: base + 8 * o <= l < base + 8 * (o + m.FullRun(base, o)) ==> m.Free(l)
    decreases HALF_BYTES - o
  {
    hide Map.Full;
    if m.FullRun(base, o) > 0 {
      BitIs(m, base, o);
      FullIs(m, base, o + 1);
    }
  }

  lemma {:induction false} RunIs(m: Map, base: nat, o: nat)
    requires m.Ok() && (base == 0 || base == HALF) && o < HALF_BYTES && m.RunLength(base, o) > 0
    ensures m.RunOf(base, base + 8 * (o + 1), m.RunLength(base, o) - 1)
  {
    hide Map.Zero, Map.FullRun;
    BitIs(m, base, o);
    FullIs(m, base, o + 1);
    assert (base + 8 * (o + 1)) % 8 == 0;
  }

  lemma {:induction false} FullAtLeast(m: Map, base: nat, o: nat, n: nat)
    requires m.Ok() && (base == 0 || base == HALF) && o + n <= HALF_BYTES
    requires forall l: nat :: base + 8 * o <= l < base + 8 * (o + n) ==> m.Free(l)
    ensures m.FullRun(base, o) >= n
    decreases n
  {
    hide Map.Full;
    if n > 0 {
      BitIs(m, base, o);
      FullAtLeast(m, base, o + 1, n - 1);
    }
  }

  lemma {:induction false} RunAtLeast(m: Map, base: nat, t: nat, k: nat)
    requires m.Ok() && (base == 0 || base == HALF) && m.RunOf(base, t, k)
    ensures
      var o := (t - base) / 8 - 1;
      0 <= o < HALF_BYTES && t == base + 8 * (o + 1) && m.RunLength(base, o) > k
  {
    hide Map.Zero, Map.FullRun;
    var o := (t - base) / 8 - 1;
    assert t == base + 8 * (o + 1);
    BitIs(m, base, o);
    FullAtLeast(m, base, o + 1, k);
  }

  lemma {:induction false} StartIs(m: Map, base: nat, o: nat, lsn: nat)
    requires m.Ok() && o < HALF_BYTES && m.RunLength(base, o) > 0 && m.RunStart(base, o, lsn)
    ensures m.Allocates(base + 8 * (o + 1), m.RunLength(base, o) - 1, lsn)
  {
    hide Map.RunLength;
    var start := base + 8 * o;
    if m.RunLength(base, o) > 1 {
      assert m.Joins(lsn, start + 8, start);
    } else {
      var limit: nat :| lsn < limit <= start + 8 && m.Joins(lsn, limit, start) && m.NoneFrom(limit, start + 8);
    }
  }

  /** Only one run is the one chosen. */
  lemma {:induction false} ChosenOne(m: Map, hint: nat, a: nat, n: nat, b: nat, k: nat)
    requires m.Ok() && m.Chosen(hint, a) && m.Chosen(hint, b) && m.TakenRun(a, n) && m.TakenRun(b, k)
    ensures a == b && n == k
  {
    hide Map.ByRun, Map.TakenRun;
    if m.ByRun(true, a) && m.ByRun(true, b) {
      ByRunOne(m, a, b);
    }
    TakenAll(m, a, n, k);
    TakenAll(m, a, k, n);
  }

  lemma {:induction false} TakenPlace(m: Map, lsn: nat, count: nat)
    requires m.Ok() && m.TakenRun(lsn, count)
    ensures 1 <= count <= 255 && forall l: nat :: lsn <= l < lsn + count ==> m.Free(l)
    ensures lsn < 1440 ==> lsn + count <= 1440
    ensures count == 255 || lsn + count == 1440 || !m.Free(lsn + count)
  {
    assert m.Free(lsn + count) ==> lsn + count < m.total;
  }

  lemma {:induction false} TakenAll(m: Map, lsn: nat, n: nat, k: nat)
    requires m.Ok() && m.TakenRun(lsn, n) && m.TakenRun(lsn, k)
    ensures n >= k
  {
    assert m.Free(lsn + n) || !m.Free(lsn + n);
  }

  /** With no pair of tracks the lowest track is taken if it is track 0; otherwise only
      if no track after the directory has its first sector free and the longest run
      happens to begin there. */
  lemma {:induction false} LowestTaken(m: Map, hint: nat, p: nat)
    requires m.Ok() && m.LooksDown(hint) && (hint == NO_HINT || !m.Free(hint)) && m.Lowest(p)
    requires forall q: nat :: !m.Pair(q)
    ensures m.Chosen(hint, p) <==> m.Free(0) || ((forall q: nat :: !m.IsUp(hint, q)) && m.ByRun(true, p))
  {
    hide Map.ByRun;
    assert m.Free(0) ==> p == 0;
  }

  /** A disk where it is not: only sectors 90 and 378 are free. */
  lemma {:induction false} LowestForgotten(m: Map)
    requires m == Map(seq(MAX_LSN, l => l == 90 || l == 378), 720, 360)
    ensures m.Ok() && m.Lowest(90) && m.Chosen(NO_HINT, 378) && !m.Chosen(NO_HINT, 90)
  {
    assert m.Free(378) && m.IsUp(NO_HINT, 378);
  }

  /** Scanning a long run byte by byte: a later byte of it begins a shorter one. */
  lemma {:induction false} InsideRun(m: Map, base: nat, start: nat, o: nat)
    requires m.Ok() && start < o < start + m.RunLength(base, start)
    ensures m.Full(base, o) && m.RunLength(base, o) == m.RunLength(base, start) - (o - start)
    decreases o
  {
    if o > start + 1 {
      InsideRun(m, base, start, o - 1);
    }
    FullRunStep(m, base, o);
  }

  lemma {:induction false} FullRunStep(m: Map, base: nat, o: nat)
    requires m.Ok()
    ensures m.FullRun(base, o) > 0 ==> m.Full(base, o) && m.RunLength(base, o) == m.FullRun(base, o)
    ensures m.FullRun(base, o) <= if o < HALF_BYTES then HALF_BYTES - o else 0
    decreases HALF_BYTES - o
  {
    if m.FullRun(base, o) > 0 {
      FullRunStep(m, base, o + 1);
      assert m.Bit(base, o, 0);
    }
  }

  /** There is a run exactly when there is a free sector. */
  lemma {:induction false} RunFound(m: Map, found: bool, lsn: nat)
    requires m.Ok() && m.ByRun(found, lsn)
    ensures found == exists l: nat :: m.Free(l)
    ensures found ==> m.Free(lsn)
  {
    var run1: nat, lsn1: nat :| m.Scanned(HALF, run1, lsn1) && m.BySecondHalf(run1, lsn1, found, lsn);
    ScanFinds(m, HALF, run1, lsn1);
    if run1 < 2 {
      var run0: nat, lsn0: nat :| m.Scanned(0, run0, lsn0) && m.ByFirstHalf(run0, lsn0, run1, lsn1, found, lsn);
      ScanFinds(m, 0, run0, lsn0);
    }
  }

  /** What the bits of a byte say of its sectors. */
  lemma {:induction false} ByteJoins(m: Map, start: nat, value: seq<bool>, lsn: nat, limit: nat)
    requires m.Ok() && |value| == 8 && (forall i: nat :: i < 8 ==> value[i] == m.Free(start + i))
    requires start <= lsn <= limit <= start + 8 && (lsn > start ==> !value[lsn - start - 1])
    requires forall i: nat :: i < 8 ==> if lsn <= start + i < limit then value[i] else start + i >= limit ==> !value[i]
    ensures m.Joins(lsn, limit, start) && m.NoneFrom(limit, start + 8)
  {
    forall l: nat | start <= l < start + 8
      ensures lsn <= l < limit ==> m.Free(l)
      ensures limit <= l ==> !m.Free(l)
    {
      assert value[l - start] == m.Free(start + (l - start));
    }
    assert lsn > start ==> value[lsn - start - 1] == m.Free(start + (lsn - start - 1));
  }

  lemma {:induction false} StartsRun(m: Map, base: nat, offset: nat, lsn: nat, limit: nat)
    requires m.Ok() && m.Joins(lsn, limit, base + 8 * offset) && m.NoneFrom(limit, base + 8 * offset + 8)
    requires limit <= base + 8 * offset + 8
    requires if m.RunLength(base, offset) > 1 then limit == base + 8 * offset + 8 else lsn < limit
    ensures m.RunStart(base, offset, lsn)
  {
  }

  class Bitmap {
    const sectors: array<bool>
    const total: nat
    const directory: nat

    ghost predicate Valid() {
      sectors.Length == MAX_LSN && total <= MAX_LSN && (directory == 360 || directory == 720)
    }

    ghost function State(): (m: Map)
      requires Valid()
      reads sectors
      ensures m.Ok()
    {
      Map(sectors[..], total, directory)
    }

    constructor (total: nat, directory: nat)
      requires total <= MAX_LSN && (directory == 360 || directory == 720)
      ensures Valid() && this.total == total && this.directory == directory && fresh(sectors)
      ensures forall l :: 0 <= l < MAX_LSN ==> !sectors[l]
    {
      sectors := new bool[MAX_LSN](i => false);
      this.total := total;
      this.directory := directory;
    }

    /** bitmap_byte: the bits of a byte, lowest first. */
    method ByteAt(base: nat, offset: nat) returns (value: seq<bool>)
      requires Valid() && (base == 0 || base == HALF)
      ensures |value| == 8 && forall i: nat :: i < 8 ==> value[i] == State().Bit(base, offset, i)
    {
      var first := base + offset * 8;
      if first >= total || offset >= HALF_BYTES {
        return seq(8, i => false);
      }
      var bits := sectors[..];
      value := seq(8, i requires 0 <= i < 8 => first + i < total && bits[first + i]);
    }

    /** _dd_sector_free */
    method SectorFree(lsn: nat) returns (isFree: bool)
      requires Valid()
      ensures isFree == State().Free(lsn)
      ensures isFree <==> lsn < total && sectors[lsn]
    {
      var base := lsn - lsn % HALF;
      if base >= MAX_LSN {
        return false;
      }
      var value := ByteAt(base, (lsn - base) / 8);
      isFree := value[lsn % 8];
    }

    /** take_run: allocate the free sectors from lsn up. */
    method TakeRun(lsn: nat) returns (count: nat)
      requires Valid() && State().Free(lsn)
      modifies sectors
      ensures old(State()).TakenRun(lsn, count)
      ensures State() == old(State()).With(lsn, count, false)
    {
      ghost var m := State();
      count := 0;
      var isFree := true;
      while isFree && count < MAX_EXTENT
        invariant count <= MAX_EXTENT && (forall l: nat :: lsn <= l < lsn + count ==> m.Free(l))
        invariant lsn + count <= MAX_LSN && sectors[..] == m.With(lsn, count, false).bits
        invariant count == 0 ==> isFree
        invariant isFree ==> m.Free(lsn + count) && lsn / HALF == (lsn + count) / HALF
        invariant count > 0 ==> lsn / HALF == (lsn + count - 1) / HALF
        invariant !isFree ==> (lsn + count) % HALF == 0 || !m.Free(lsn + count)
      {
        sectors[lsn + count] := false;
        count := count + 1;
        isFree := false;
        SameHalf(lsn + count);
        if (lsn + count) % HALF != 0 {
          isFree := SectorFree(lsn + count);
        }
      }
    }

    /** _dd_release, of sectors on the disk. */
    method Release(lsn: nat, count: nat)
      requires Valid() && (count > 0 ==> lsn + count <= MAX_LSN)
      modifies sectors
      ensures State() == old(State()).With(lsn, count, true)
    {
      var i := 0;
      while i < count
        invariant i <= count && sectors[..] == old(State()).With(lsn, i, true).bits
      {
        sectors[lsn + i] := true;
        i := i + 1;
      }
    }

    /** The part of scan_bitmap that carries on through $FF bytes. */
    method FullFrom(base: nat, from: nat) returns (length: nat)
      requires Valid() && (base == 0 || base == HALF) && from <= HALF_BYTES
      ensures length == State().FullRun(base, from) && from + length <= HALF_BYTES
    {
      ghost var m := State();
      length := 0;
      var value := ByteAt(base, from);
      while value == seq(8, i => true)
        invariant |value| == 8 && from + length <= HALF_BYTES
        invariant forall i: nat :: i < 8 ==> value[i] == m.Bit(base, from + length, i)
        invariant m.FullRun(base, from) == length + m.FullRun(base, from + length)
        decreases HALF_BYTES - length
      {
        assert value[0] && m.Bit(base, from + length, 0);
        ghost var at := from + length;
        forall i: nat | i < 8
          ensures m.Bit(base, at, i)
        {
          assert value[i];
        }
        length := length + 1;
        value := ByteAt(base, from + length);
      }
      assert !m.Full(base, from + length);
    }

    /** The part of dskinit that marks a track used. */
    method Reserve(lsn: nat)
      requires Valid() && lsn + TRACK <= MAX_LSN
      modifies sectors
      ensures State() == old(State()).With(lsn, TRACK, false)
    {
      var i := 0;
      while i < TRACK
        invariant i <= TRACK && sectors[..] == old(State()).With(lsn, i, false).bits
      {
        sectors[lsn + i] := false;
        i := i + 1;
      }
    }

    /** scan_bitmap */
    method Scan(base: nat) returns (run: nat, lsn: nat)
      requires Valid() && (base == 0 || base == HALF)
      ensures State().Scanned(base, run, lsn)
    {
      ghost var m := State();
      var best: nat, bestOffset: nat, offset: nat := 0, 0, 0;
      while offset < HALF_BYTES
        invariant offset <= HALF_BYTES
        invariant best > 0 ==> bestOffset < offset && best == m.RunLength(base, bestOffset)
        invariant forall o: nat :: o < offset ==>
          m.RunLength(base, o) <= best && (o < bestOffset ==> m.RunLength(base, o) < best)
        invariant best == 0 ==> bestOffset == 0
      {
        var start := offset;
        var value := ByteAt(base, offset);
        offset := offset + 1;
        if value != seq(8, i => false) {
          assert !m.Zero(base, start);
          var length := FullFrom(base, offset);
          length := length + 1;
          offset := start + length;
          forall o: nat | start < o < offset
            ensures m.RunLength(base, o) < length
          {
            InsideRun(m, base, start, o);
          }
          if length > best {
            best, bestOffset := length, start;
          }
        } else {
          forall i: nat | i < 8
            ensures !m.Bit(base, start, i)
          {
            assert !value[i];
          }
        }
      }
      if best == 0 {
        forall o: nat | o < HALF_BYTES
          ensures m.Zero(base, o)
        {
          assert m.RunLength(base, o) <= best;
        }
        return 0, base + HALF;
      }
      run := best;
      lsn := RunStartOf(base, bestOffset, best);
    }

    /** The end of scan_bitmap: where the run in hand allocates. */
    method RunStartOf(base: nat, offset: nat, best: nat) returns (position: nat)
      requires Valid() && (base == 0 || base == HALF) && offset < HALF_BYTES
      requires best == State().RunLength(base, offset) > 0
      ensures State().RunStart(base, offset, position)
    {
      ghost var m := State();
      var start := base + 8 * offset;
      var value := ByteAt(base, offset);
      assert forall i: nat :: i < 8 ==> value[i] == m.Free(start + i);
      var bit: int := 7;
      position := start + 8;
      if best == 1 {
        ghost var high: nat :| high < 8 && m.Bit(base, offset, high);
        assert value[high];
        while !value[bit]
          invariant 0 <= bit <= 7 && position == start + bit + 1
          invariant forall i: nat :: bit < i < 8 ==> !value[i]
          invariant exists i: nat :: i < 8 && value[i]
          decreases bit
        {
          bit := bit - 1;
          position := position - 1;
        }
      }
      ghost var limit := position;
      while bit >= 0 && value[bit]
        invariant -1 <= bit <= 7 && position == start + bit + 1 <= limit
        invariant forall i: nat :: bit < i < limit - start ==> value[i]
        invariant forall i: nat :: limit - start <= i < 8 ==> !value[i]
        invariant best == 1 ==> position < limit || (bit >= 0 && value[bit])
        decreases bit
      {
        bit := bit - 1;
        position := position - 1;
      }
      ByteJoins(m, start, value, position, limit);
      StartsRun(m, base, offset, position, limit);
    }

    /** The tracks before the directory, outwards: the first with its first sector
        free next to another such, or else track 0. */
    method LookDown() returns (found: bool, position: nat)
      requires Valid()
      ensures
        var m := State();
        if exists p: nat :: m.Pair(p) then found && m.Pair(position) && forall p: nat :: m.Pair(p) ==> p <= position
        else found == m.Free(0) && (found ==> position == 0)
      ensures
        var m := State();
        (forall p: nat :: !m.Pair(p)) ==> forall p: nat :: m.Lowest(p) ==> (found && position == p <==> m.Free(0))
    {
      ghost var m := State();
      found := false;
      var candidate := 0;
      position := directory;
      while position >= TRACK
        invariant position % TRACK == 0 && position <= directory
        invariant forall p: nat :: m.Pair(p) ==> p < position
        invariant found ==> position < directory && m.Free(position) && candidate == position
        invariant !found && position < directory ==> !m.Free(position)
      {
        position := position - TRACK;
        var isFree := SectorFree(position);
        if !isFree {
          found := false;
        } else {
          if found {
            assert m.Pair(position);
            return;
          }
          found := true;
          candidate := position;
        }
      }
      if found {
        position := candidate;
      }
    }

    /** The tracks from a position to the end of the disk. */
    method LookUp(start: nat) returns (found: bool, position: nat)
      requires Valid() && start % TRACK == 0
      ensures
        var m := State();
        if found then position >= start && position % TRACK == 0 && m.Free(position)
          && forall p: nat :: start <= p < position && p % TRACK == 0 ==> !m.Free(p)
        else forall p: nat :: p >= start && p % TRACK == 0 ==> !m.Free(p)
    {
      position := start;
      while position <= MAX_LSN
        invariant position % TRACK == 0 && position >= start
        invariant forall p: nat :: start <= p < position && p % TRACK == 0 ==> !State().Free(p)
      {
        found := SectorFree(position);
        if found {
          return;
        }
        position := position + TRACK;
      }
      found := false;
    }

    /** The longest runs, the second half of the map before the first. */
    method LookForRun() returns (found: bool, position: nat)
      requires Valid()
      ensures State().ByRun(found, position)
    {
      ghost var m := State();
      var secondRun, secondLsn := Scan(HALF);
      position := secondLsn;
      found := true;
      if secondRun < 2 {
        var run, first := Scan(0);
        position := first;
        if run < 2 && run <= secondRun {
          position := secondLsn;
          found := SectorFree(position);
          ScanFinds(m, HALF, secondRun, secondLsn);
        }
        assert m.ByFirstHalf(run, first, secondRun, secondLsn, found, position);
      }
      assert m.BySecondHalf(secondRun, secondLsn, found, position);
    }

    /** _dd_allocate: take a run for a file, if the disk has a free sector. */
    method Allocate(hint: nat) returns (ok: bool, lsn: nat, count: nat)
      requires Valid()
      modifies sectors
      ensures ok == exists l: nat :: old(State()).Free(l)
      ensures ok ==> old(State()).Chosen(hint, lsn) && old(State()).TakenRun(lsn, count)
      ensures ok && old(State()).Free(hint) ==> lsn == hint
      ensures
        var m := old(State());
        ok && !m.Free(hint) && (hint < 1440 || hint == 65535) ==>
          if exists p: nat :: p % 18 == 0 && p + 36 <= m.directory && m.Free(p) && m.Free(p + 18) then
            lsn % 18 == 0 && lsn + 36 <= m.directory && m.Free(lsn) && m.Free(lsn + 18)
            && forall p: nat :: p % 18 == 0 && p + 36 <= m.directory && m.Free(p) && m.Free(p + 18) ==> p <= lsn
          else if m.Free(0) then lsn == 0
          else (exists p: nat :: p % 18 == 0 && p >= m.directory + 18 && m.Free(p)) ==>
            lsn % 18 == 0 && lsn >= m.directory + 18 && m.Free(lsn)
            && forall p: nat :: p % 18 == 0 && m.directory + 18 <= p < lsn ==> !m.Free(p)
      ensures
        var m := old(State());
        ok && !m.Free(hint) && 1440 <= hint != 65535 && (exists p: nat :: p % 18 == 0 && p >= 1440 && m.Free(p)) ==>
          lsn % 18 == 0 && lsn >= 1440 && m.Free(lsn) && forall p: nat :: p % 18 == 0 && 1440 <= p < lsn ==> !m.Free(p)
      ensures
        var m := old(State());
        ok ==>
          && 1 <= count <= 255 && (forall l: nat :: lsn <= l < lsn + count ==> m.Free(l))
          && (lsn < 1440 ==> lsn + count <= 1440)
          && (count == 255 || lsn + count == 1440 || !m.Free(lsn + count))
      ensures ok ==> State() == old(State()).With(lsn, count, false)
      ensures !ok ==> State() == old(State())
    {
      hide Map.Chosen, Map.TakenRun;
      ghost var m := State();
      ok, lsn := Choose(hint);
      assert State() == m;
      count := 0;
      if ok {
        ChosenFree(m, hint, lsn);
        ChosenPlace(m, hint, lsn);
        count := TakeRun(lsn);
        TakenPlace(m, lsn, count);
      }
    }

    /** The search of _dd_allocate. */
    method Choose(hint: nat) returns (ok: bool, lsn: nat)
      requires Valid()
      ensures ok == exists l: nat :: State().Free(l)
      ensures ok ==> State().Chosen(hint, lsn)
      ensures ok && State().Free(hint) ==> lsn == hint
      ensures
        var m := State();
        ok && !m.Free(hint) && (hint < 1440 || hint == 65535) ==>
          if exists p: nat :: p % 18 == 0 && p + 36 <= m.directory && m.Free(p) && m.Free(p + 18) then
            lsn % 18 == 0 && lsn + 36 <= m.directory && m.Free(lsn) && m.Free(lsn + 18)
            && forall p: nat :: p % 18 == 0 && p + 36 <= m.directory && m.Free(p) && m.Free(p + 18) ==> p <= lsn
          else if m.Free(0) then lsn == 0
          else (exists p: nat :: p % 18 == 0 && p >= m.directory + 18 && m.Free(p)) ==>
            lsn % 18 == 0 && lsn >= m.directory + 18 && m.Free(lsn)
            && forall p: nat :: p % 18 == 0 && m.directory + 18 <= p < lsn ==> !m.Free(p)
      ensures
        var m := State();
        ok && !m.Free(hint) && 1440 <= hint != 65535 && (exists p: nat :: p % 18 == 0 && p >= 1440 && m.Free(p)) ==>
          lsn % 18 == 0 && lsn >= 1440 && m.Free(lsn) && forall p: nat :: p % 18 == 0 && 1440 <= p < lsn ==> !m.Free(p)
    {
      hide Map.Chosen;
      ghost var m := State();
      ok := false;
      if hint != NO_HINT {
        ok := SectorFree(hint);
        lsn := hint;
      }
      if ok {
        HintChosen(m, hint);
      } else {
        ok, lsn := SearchTracks(hint);
        assert State() == m;
      }
      if ok {
        ChosenPlace(m, hint, lsn);
      }
    }

    /** The part of the search for a hint that is in use. */
    method SearchTracks(hint: nat) returns (ok: bool, lsn: nat)
      requires Valid() && (hint == NO_HINT || !State().Free(hint))
      ensures ok == exists l: nat :: State().Free(l)
      ensures ok ==> State().Chosen(hint, lsn)
    {
      hide Map.ByRun, Map.Pair, Map.RunStart, Map.Longest;
      ghost var m := State();
      var lookDown := hint == NO_HINT || hint < HALF;
      if lookDown {
        ok, lsn := LookDown();
        if ok {
          assert m.Free(lsn);
          return;
        }
      }
      ok, lsn := LookUp(if lookDown then directory + TRACK else HALF);
      if ok {
        assert m.IsUp(hint, lsn);
        return;
      }
      ok, lsn := LookForRun();
      assert State() == m;
      RunFound(m, ok, lsn);
    }

    /** _dragondos_gs_free */
    method GsFree() returns (count: nat)
      requires Valid()
      ensures count == State().FreeCount()
    {
      hide Count;
      ghost var m := State();
      var lsn := 0;
      count := 0;
      CountZero(m.bits[..0]);
      while lsn < total
        invariant lsn % 8 == 0 && lsn <= total + 7
        invariant count == Count(m.bits[..if lsn < total then lsn else total])
      {
        ghost var next := if lsn + 8 < total then lsn + 8 else total;
        var base := lsn - lsn % HALF;
        var value := ByteAt(base, lsn % HALF / 8);
        ByteCounts(m, lsn, value);
        ghost var left: nat := 8;
        while value != seq(8, i => false)
          invariant |value| == 8 && count + Count(value) == Count(m.bits[..next])
          invariant left <= 8 && forall i: nat :: left <= i < 8 ==> !value[i]
          decreases left
        {
          assert left > 0;
          left := left - 1;
          ShiftCounts(value);
          count := count + if value[0] then 1 else 0;
          value := value[1..] + [false];
        }
        CountZero(value);
        lsn := lsn + 8;
      }
    }
  }
}
