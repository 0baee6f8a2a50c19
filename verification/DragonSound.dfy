/** What it is for the directory, the map and the files of a Dragon DOS disk to
    agree, and what the steps of growing and cutting a file do to that. */
module DragonSound {
  import opened Counting
  import opened DragonBitmap
  import opened DragonOwner
  import opened DragonDir
  import opened DragonChange
  import opened DragonCut

  /** The directory describes the files, and every sector has one owner. */
  ghost predicate Sound(
      m: Map, dir: seq<Entry>, ix: Index, owner: seq<Owner>, files: Files, spareLsn: nat, spareCount: nat)
  {
    && DirOk(dir, ix) && files.Keys == ix.chains.Keys
    && (forall h: nat :: h in files ==> files[h] == ChainSectors(dir, ix.chains[h]))
    && Partition(m, owner, files, spareLsn, spareCount)
  }

  /** After a change that leaves other files' entries alone, theirs are the same
      sectors. */
  lemma {:induction false} SoundAfter(
      dir: seq<Entry>, ix: Index, files: Files, dir': seq<Entry>, ix': Index, files': Files, h: nat)
    requires DirOk(dir, ix) && files.Keys == ix.chains.Keys
    requires forall k: nat :: k in files ==> files[k] == ChainSectors(dir, ix.chains[k])
    requires DirOk(dir', ix') && OthersSame(dir, ix, dir', ix', h) && files'.Keys == ix'.chains.Keys
    requires forall k: nat :: k in files && k != h ==> k in files' && files'[k] == files[k]
    requires h in files' ==> files'[h] == ChainSectors(dir', ix'.chains[h])
    ensures forall k: nat :: k in files' ==> files'[k] == ChainSectors(dir', ix'.chains[k])
  {
    hide ChainSectors, Link;
    forall k: nat | k in files'
      ensures files'[k] == ChainSectors(dir', ix'.chains[k])
    {
      if k != h {
        SameChain(dir, ix, dir', ix', k);
      }
    }
  }

  /** Nothing about other files has changed, nor the name or protection of this. */
  ghost predicate Untouched(
      dir: seq<Entry>, ix: Index, files: Files, dir': seq<Entry>, ix': Index, files': Files, h: nat)
  {
    && OthersSame(dir, ix, dir', ix', h)
    && (forall k: nat :: k in files && k != h ==> k in files' && files'[k] == files[k])
    && (h in files && h in files' && h < |dir| == |dir'| ==> SameHead(dir[h], dir'[h]))
  }

  predicate SameHead(e: Entry, e': Entry) {
    e'.name == e.name && e'.protected == e.protected
  }

  lemma {:induction false} UntouchedTwice(
      dir: seq<Entry>, ix: Index, files: Files, dir': seq<Entry>, ix': Index, files': Files,
      dir'': seq<Entry>, ix'': Index, files'': Files, h: nat)
    requires Untouched(dir, ix, files, dir', ix', files', h) && Untouched(dir', ix', files', dir'', ix'', files'', h)
    requires h in files'
    ensures Untouched(dir, ix, files, dir'', ix'', files'', h)
  {
    forall k: nat | k in ix.chains && k != h
      ensures SameFile(dir, ix, dir'', ix'', k)
    {
      assert SameFile(dir, ix, dir', ix', k) && SameFile(dir', ix', dir'', ix'', k);
    }
  }

  lemma {:induction false} UntouchedSelf(dir: seq<Entry>, ix: Index, files: Files, h: nat)
    ensures Untouched(dir, ix, files, dir, ix, files, h)
  {
  }

  /** Every continuation that a chain ends with has an extent in use. */
  ghost predicate Tails(dir: seq<Entry>, ix: Index) {
    forall h: nat {:trigger TailOk(dir, ix.chains[h])} :: h in ix.chains ==> TailOk(dir, ix.chains[h])
  }

  lemma {:induction false} TailsAfter(dir: seq<Entry>, ix: Index, dir': seq<Entry>, ix': Index, h: nat)
    requires Tails(dir, ix) && OthersSame(dir, ix, dir', ix', h)
    requires h in ix'.chains ==> TailOk(dir', ix'.chains[h])
    ensures Tails(dir', ix')
  {
    forall k: nat | k in ix'.chains && k != h
      ensures TailOk(dir', ix'.chains[k])
    {
      assert SameFile(dir, ix, dir', ix', k) && TailOk(dir, ix.chains[k]);
    }
  }

  /** The size of a file. */
  function SizeOf(dir: seq<Entry>, ix: Index, h: nat): nat {
    if h in ix.chains && |ix.chains[h]| > 0 && (forall p :: 0 <= p < |ix.chains[h]| ==> ix.chains[h][p] < |dir|) then
      FileSize(dir, ix.chains[h])
    else 0
  }

  /** A file has the sectors that its size takes. */
  lemma {:induction false} SizeSectors(
      m: Map, dir: seq<Entry>, ix: Index, owner: seq<Owner>, files: Files, spareLsn: nat, spareCount: nat, h: nat)
    requires Sound(m, dir, ix, owner, files, spareLsn, spareCount) && h in files
    ensures |files[h]| == SectorsFor(SizeOf(dir, ix, h)) && SizeOf(dir, ix, h) <= |files[h]| * SECTOR_SIZE
    ensures |files[h]| > 0 ==> SizeOf(dir, ix, h) > 0
  {
    hide ChainSectors, Partition;
    assert Link(dir, ix.chains[h], |ix.chains[h]| - 1);
  }

  lemma {:induction false} SoundPlaces(
      m: Map, dir: seq<Entry>, ix: Index, owner: seq<Owner>, files: Files, spareLsn: nat, spareCount: nat)
    requires Sound(m, dir, ix, owner, files, spareLsn, spareCount)
    ensures |ix.place| == MAX_ENTRIES
  {
  }

  lemma {:induction false} SizeBelow(
      m: Map, dir: seq<Entry>, ix: Index, owner: seq<Owner>, files: Files, spareLsn: nat, spareCount: nat, h: nat)
    requires Sound(m, dir, ix, owner, files, spareLsn, spareCount) && h in files
    ensures h in ix.chains && |ix.chains[h]| > 0 && Last(ix.chains[h]) < |dir|
    ensures dir[Last(ix.chains[h])].lastOrNext < SECTOR_SIZE
  {
    hide ChainSectors, Partition;
    assert Link(dir, ix.chains[h], |ix.chains[h]| - 1);
  }

  lemma {:induction false} EntryRange(
      m: Map, dir: seq<Entry>, ix: Index, owner: seq<Owner>, files: Files, spareLsn: nat, spareCount: nat, h: nat)
    requires Sound(m, dir, ix, owner, files, spareLsn, spareCount) && h in files
    ensures h in ix.chains && |ix.chains[h]| > 0 && Last(ix.chains[h]) < MAX_ENTRIES && !dir[Last(ix.chains[h])].deleted
    ensures |ix.place| == MAX_ENTRIES
  {
    LastLive(dir, ix, h);
  }

  lemma {:induction false} SoundInDir(
      m: Map, dir: seq<Entry>, ix: Index, owner: seq<Owner>, files: Files, spareLsn: nat, spareCount: nat, h: nat)
    requires Sound(m, dir, ix, owner, files, spareLsn, spareCount) && h in files
    ensures h in ix.chains && |ix.chains[h]| > 0 && InDir(dir, ix.chains[h])
    ensures files[h] == ChainSectors(dir, ix.chains[h])
  {
  }

  lemma {:induction false} SoundBounds(
      m: Map, dir: seq<Entry>, ix: Index, owner: seq<Owner>, files: Files, spareLsn: nat, spareCount: nat, h: nat)
    requires Sound(m, dir, ix, owner, files, spareLsn, spareCount) && h in files
    ensures h in ix.chains && Indexed(dir, ix) && |owner| == |m.bits| == MAX_LSN && m.Ok()
    ensures 0 < |ix.chains[h]| <= MAX_ENTRIES && ix.chains[h][0] == h
  {
    ChainLength(dir, ix, h);
  }

  lemma {:induction false} SoundEntry(
      m: Map, dir: seq<Entry>, ix: Index, owner: seq<Owner>, files: Files, spareLsn: nat, spareCount: nat,
      h: nat, p: nat)
    requires Sound(m, dir, ix, owner, files, spareLsn, spareCount) && h in files
    requires h in ix.chains && p < |ix.chains[h]|
    ensures ix.chains[h][p] < |dir| == MAX_ENTRIES
    ensures
      var e := dir[ix.chains[h][p]];
      && EntryOk(e) && (e.continued <==> p + 1 < |ix.chains[h]|)
      && (p + 1 < |ix.chains[h]| ==> e.lastOrNext == ix.chains[h][p + 1])
  {
    hide Partition, EntryOk, ChainSectors, EndFlags, NamesDiffer;
    assert Link(dir, ix.chains[h], p);
  }

  lemma {:induction false} BeforeNext(dir: seq<Entry>, chain: Chain, p: nat)
    requires InDir(dir, chain) && p < |chain|
    ensures Before(dir, chain, p + 1) == Before(dir, chain, p) + |ExtentSectors(dir[chain[p]].extents)|
  {
    ChainPrefix(dir, chain, p);
  }

  lemma {:induction false} CutExtentIs(x: seq<Extent>, before: nat, keep: nat, i: nat)
    requires i < |x|
    ensures CutExtents(x, before, keep)[i] == CutExtent(x[i], before + |ExtentSectors(x[..i])|, keep)
  {
  }

  /** The number of sectors of a file before an extent. */
  function SectorsTo(dir: seq<Entry>, chain: Chain, p: nat, i: nat): nat
    requires InDir(dir, chain) && p < |chain| && i <= |dir[chain[p]].extents|
  {
    Before(dir, chain, p) + |ExtentSectors(dir[chain[p]].extents[..i])|
  }

  /** The sectors of an extent, counted from the start of its file. */
  lemma {:induction false} WalkStep(dir: seq<Entry>, chain: Chain, p: nat, i: nat)
    requires InDir(dir, chain) && p < |chain| && i < |dir[chain[p]].extents|
    ensures
      var x := dir[chain[p]].extents[i];
      var at := SectorsTo(dir, chain, p, i);
      var sectors := ChainSectors(dir, chain);
      && SectorsTo(dir, chain, p, i + 1) == at + x.count <= |sectors|
      && forall n: nat :: at <= n < at + x.count ==> sectors[n] == x.lsn + (n - at)
  {
    hide ChainSectors, ExtentSectors, Before;
    ExtentInFile(dir, chain, p, i);
    var x := dir[chain[p]].extents[i];
    var at := SectorsTo(dir, chain, p, i);
    var part := ChainSectors(dir, chain)[at..at + x.count];
    forall n: nat | at <= n < at + x.count
      ensures ChainSectors(dir, chain)[n] == x.lsn + (n - at)
    {
      assert part[n - at] == ChainSectors(dir, chain)[n];
    }
  }

  lemma {:induction false} WalkEnds(dir: seq<Entry>, chain: Chain, p: nat)
    requires InDir(dir, chain) && p < |chain|
    ensures SectorsTo(dir, chain, p, 0) == Before(dir, chain, p)
    ensures SectorsTo(dir, chain, p, |dir[chain[p]].extents|) == Before(dir, chain, p + 1)
  {
    CutStart(dir, chain, p, 0);
    CutEnd(dir, chain, p, 0);
  }

  /** The link from an entry of a chain to the next. */
  lemma {:induction false} NextLink(dir: seq<Entry>, ix: Index, h: nat, p: nat)
    requires Indexed(dir, ix) && h in ix.chains && p < |ix.chains[h]|
    ensures InDir(dir, ix.chains[h]) && ix.chains[h][p] < MAX_ENTRIES
    ensures dir[ix.chains[h][p]].continued <==> p + 1 < |ix.chains[h]|
    ensures p + 1 < |ix.chains[h]| ==> dir[ix.chains[h][p]].lastOrNext == ix.chains[h][p + 1]
  {
    assert Link(dir, ix.chains[h], p);
  }

  /** The map with what is cut off an extent free. */
  function WithFreed(m: Map, x: Extent, kept: nat): (r: Map)
    requires kept < x.count ==> x.lsn + x.count <= |m.bits|
    ensures |r.bits| == |m.bits|
  {
    if kept < x.count then m.With(x.lsn + kept, x.count - kept, true) else m
  }

  /** The entry at a place in a chain with its first extents cut. */
  function CutTo(dir: seq<Entry>, chain: Chain, p: nat, keep: nat, i: nat): (r: Entry)
    requires InDir(dir, chain) && p < |chain| && i <= |dir[chain[p]].extents|
    ensures |r.extents| == |dir[chain[p]].extents|
  {
    var e := dir[chain[p]];
    e.(extents := CutExtents(e.extents, Before(dir, chain, p), keep)[..i] + e.extents[i..])
  }

  lemma {:induction false} CutStart(dir: seq<Entry>, chain: Chain, p: nat, keep: nat)
    requires InDir(dir, chain) && p < |chain|
    ensures SectorsTo(dir, chain, p, 0) == Before(dir, chain, p) && CutTo(dir, chain, p, keep, 0) == dir[chain[p]]
  {
    var x := dir[chain[p]].extents;
    NoSectors(x[..0]);
    assert CutExtents(x, Before(dir, chain, p), keep)[..0] + x[0..] == x;
  }

  lemma {:induction false} CutEnd(dir: seq<Entry>, chain: Chain, p: nat, keep: nat)
    requires InDir(dir, chain) && p < |chain|
    ensures
      var e := dir[chain[p]];
      var n := |e.extents|;
      && SectorsTo(dir, chain, p, n) == Before(dir, chain, p + 1)
      && CutTo(dir, chain, p, keep, n) == e.(extents := CutExtents(e.extents, Before(dir, chain, p), keep))
  {
    var x := dir[chain[p]].extents;
    var cut := CutExtents(x, Before(dir, chain, p), keep);
    BeforeNext(dir, chain, p);
    assert x[..|x|] == x && cut[..|x|] + x[|x|..] == cut;
  }

  /** One more extent is cut, and what is cut off it freed. */
  lemma {:induction false} CutStep(
      m: Map, m': Map, dir: seq<Entry>, ix: Index, owner: seq<Owner>, files: Files, spareLsn: nat, spareCount: nat,
      h: nat, p: nat, i: nat, keep: nat)
    requires Sound(m, dir, ix, owner, files, spareLsn, spareCount) && h in files && InDir(dir, ix.chains[h])
    requires p < |ix.chains[h]| && i < |dir[ix.chains[h][p]].extents|
    requires |owner| == |m.bits| == MAX_LSN
    requires FreedTo(m, m', owner, h, keep, SectorsTo(dir, ix.chains[h], p, i))
    ensures
      var chain := ix.chains[h];
      var x := dir[chain[p]].extents;
      var part := CutTo(dir, chain, p, keep, i);
      var running := Min(keep, SectorsTo(dir, chain, p, i));
      var kept := Kept(x[i].count, running, keep);
      && (kept < x[i].count ==> x[i].lsn + x[i].count <= MAX_LSN)
      && |part.extents| == |x| && part.extents[i] == x[i]
      && SetExtent(part, i, CutExtent(x[i], running, keep)) == CutTo(dir, chain, p, keep, i + 1)
      && FreedTo(m, WithFreed(m', x[i], kept), owner, h, keep, SectorsTo(dir, chain, p, i + 1))
      && running + kept == Min(keep, SectorsTo(dir, chain, p, i + 1))
  {
    hide Partition, ChainSectors, ExtentSectors, FreedTo, Before, DirOk, Range;
    var chain := ix.chains[h];
    var x := dir[chain[p]].extents;
    ExtentInFile(dir, chain, p, i);
    FreeStep(m, m', owner, files, spareLsn, spareCount, h, keep, SectorsTo(dir, chain, p, i), x[i].lsn, x[i].count);
    CutExtentIs(x, Before(dir, chain, p), keep, i);
  }

  /** The entry before the next to be cut is as it was. */
  lemma {:induction false} CutNext(dir: seq<Entry>, dir': seq<Entry>, ix: Index, h: nat, p: nat, keep: nat, size: nat)
    requires Indexed(dir, ix) && h in ix.chains && p < |ix.chains[h]|
    requires CutSoFar(dir, dir', ix, h, p, keep, size)
    ensures |dir| == |dir'| == MAX_ENTRIES
    ensures ix.chains[h][p] < MAX_ENTRIES && dir'[ix.chains[h][p]] == dir[ix.chains[h][p]]
    ensures dir[ix.chains[h][p]].continued <==> p + 1 < |ix.chains[h]|
    ensures p + 1 < |ix.chains[h]| ==> dir[ix.chains[h][p]].lastOrNext == ix.chains[h][p + 1]
  {
    hide CutEntry;
    var chain := ix.chains[h];
    assert Link(dir, chain, p) && ix.place[chain[p]] == Place(h, p);
  }

  /** Whether the file ends at an entry, from the sectors kept up to its end. */
  lemma {:induction false} CutEnds(dir: seq<Entry>, chain: Chain, p: nat, keep: nat, size: nat, running: nat)
    requires InDir(dir, chain) && p < |chain| && running == Min(keep, Before(dir, chain, p + 1))
    ensures
      var e := dir[chain[p]];
      var cut := e.(extents := CutExtents(e.extents, Before(dir, chain, p), keep));
      var ended := EndedBefore(dir, chain, p, keep);
      && CutEntry(dir, chain, p, keep, size) ==
           (if ended then Killed(cut).(lastOrNext := 0)
            else if running >= keep || p + 1 == |chain| then cut.(continued := false, lastOrNext := size % SECTOR_SIZE)
            else cut)
      && (EndedBefore(dir, chain, p + 1, keep) <==> ended || running >= keep)
  {
    hide CutExtents;
    BeforeAscends(dir, chain, p, p + 1);
  }

  lemma {:induction false} CutPlaced(
      dir: seq<Entry>, dir1: seq<Entry>, dir2: seq<Entry>, ix: Index, h: nat, p: nat, keep: nat, size: nat)
    requires Indexed(dir, ix) && h in ix.chains && p < |ix.chains[h]| && ix.chains[h][p] < MAX_ENTRIES
    requires CutSoFar(dir, dir1, ix, h, p, keep, size) && |dir2| == MAX_ENTRIES
    requires dir2[ix.chains[h][p]] == CutEntry(dir, ix.chains[h], p, keep, size)
    requires forall e: nat :: e < MAX_ENTRIES && e != ix.chains[h][p] ==> dir2[e] == dir1[e]
    ensures CutSoFar(dir, dir2, ix, h, p + 1, keep, size)
  {
    hide CutEntry;
    var index := ix.chains[h][p];
    assert ix.place[index] == Place(h, p);
    forall e: nat | e < MAX_ENTRIES && InChain(ix, h, e) && ix.place[e].pos == p
      ensures e == index
    {
    }
  }

  /** A file is cut up to a place in its chain, and what is cut off freed. */
  ghost predicate Cutting(
      m: Map, m': Map, dir: seq<Entry>, dir': seq<Entry>, ix: Index, owner: seq<Owner>, h: nat, size: nat,
      p: nat, running: nat, ended: bool)
  {
    && Indexed(dir, ix) && h in ix.chains && p <= |ix.chains[h]| && |owner| == |m.bits| == MAX_LSN
    && CutSoFar(dir, dir', ix, h, p, KeepFor(size), size)
    && FreedTo(m, m', owner, h, KeepFor(size), Before(dir, ix.chains[h], p))
    && running == Min(KeepFor(size), Before(dir, ix.chains[h], p))
    && (p < |ix.chains[h]| ==> ended == EndedBefore(dir, ix.chains[h], p, KeepFor(size)))
    && FreeEntries(dir') + Min(p, EndPos(dir, ix.chains[h], KeepFor(size)) + 1) == FreeEntries(dir) + p
  }

  /** An entry cut is free if the file ends before it. */
  lemma {:induction false} CutCounts(
      dir: seq<Entry>, dir1: seq<Entry>, ix: Index, h: nat, p: nat, keep: nat, size: nat)
    requires Indexed(dir, ix) && h in ix.chains && InDir(dir, ix.chains[h]) && p < |ix.chains[h]|
    requires |dir1| == |dir| && dir1[ix.chains[h][p]] == dir[ix.chains[h][p]]
    ensures
      var chain := ix.chains[h];
      var q := EndPos(dir, chain, keep);
      FreeEntries(dir1[chain[p] := CutEntry(dir, chain, p, keep, size)]) + Min(p + 1, q + 1)
        == FreeEntries(dir1) + 1 + Min(p, q + 1)
  {
    hide FreeEntries, EndPos, EndsAt, EndedBefore, Before, CutExtents;
    var chain := ix.chains[h];
    var dir2 := dir1[chain[p] := CutEntry(dir, chain, p, keep, size)];
    EndPlace(dir, chain, keep);
    assert Link(dir, chain, p);
    if p > EndPos(dir, chain, keep) {
      EntryTaken(dir2, dir1, chain[p]);
    } else {
      EntriesSame(dir1, dir2);
    }
  }

  lemma {:induction false} CutBegun(m: Map, dir: seq<Entry>, ix: Index, owner: seq<Owner>, h: nat, size: nat)
    requires Indexed(dir, ix) && h in ix.chains && |owner| == |m.bits| == MAX_LSN && m.Ok()
    ensures Cutting(m, m, dir, dir, ix, owner, h, size, 0, 0, false)
  {
    hide CutEntry, FreeEntries, EndPos;
    BeforeAll(dir, ix.chains[h]);
  }

  lemma {:induction false} FreedWhole(
      m: Map, m': Map, owner: seq<Owner>, h: nat, keep: nat, upto: nat)
    requires |owner| == |m.bits| == MAX_LSN && FreedTo(m, m', owner, h, keep, upto)
    ensures FreedTo(m, m', owner, h, Min(keep, upto), upto)
  {
    hide Map.FreeCount;
  }

  /** Cutting a file to a size frees the sectors that it does not need, and the
      entries after the one that the last it keeps is in. */
  lemma {:induction false} CutDone(
      m: Map, m': Map, dir: seq<Entry>, dir': seq<Entry>, ix: Index, owner: seq<Owner>, files: Files,
      spareLsn: nat, spareCount: nat, h: nat, size: nat, running: nat, ended: bool)
    requires Sound(m, dir, ix, owner, files, spareLsn, spareCount) && h in files
    requires h in ix.chains && Cutting(m, m', dir, dir', ix, owner, h, size, |ix.chains[h]|, running, ended)
    ensures InDir(dir, ix.chains[h]) && |ix.chains[h]| > 0
    ensures
      var ix', files' := CutIndex(dir, ix, h, KeepFor(size)), FilesCut(files, h, KeepFor(size));
      var keep := |files'[h]|;
      && SizeOf(dir', ix', h) == BytesIn(keep, size % SECTOR_SIZE)
      && m'.total <= |m'.bits| && m.total <= |m.bits|
      && m'.FreeCount() + keep == m.FreeCount() + |files[h]|
      && Untouched(dir, ix, files, dir', ix', files', h) && Shortened(dir, dir', ix, ix', h, size)
      && Sound(m', dir', ix', TakeBack(owner, h, keep), files', spareLsn, spareCount)
      && FreeEntries(dir') + |ix'.chains[h]| == FreeEntries(dir) + |ix.chains[h]|
  {
    hide Partition, ChainSectors, CutSoFar, OthersSame, KeepFor, FileSize, TakeBack, EndFlags, NamesDiffer, Link,
      EndPos, FreeEntries, Map.FreeCount;
    var keep := Min(KeepFor(size), |files[h]|);
    assert ChainOk(dir, ix.chains[h]);
    BeforeAll(dir, ix.chains[h]);
    FileCut(dir, dir', ix, h, size);
    var ix' := CutIndex(dir, ix, h, KeepFor(size));
    FreedWhole(m, m', owner, h, KeepFor(size), |files[h]|);
    FreedAll(m, m', owner, files, spareLsn, spareCount, h, keep);
    Cut(m, m', owner, files, spareLsn, spareCount, h, keep);
    SoundAfter(dir, ix, files, dir', ix', files[h := files[h][..keep]], h);
    CutHead(dir, dir', ix, h, size);
  }

  lemma {:induction false} CutTailOk(dir: seq<Entry>, dir': seq<Entry>, ix: Index, h: nat, size: nat)
    requires h in ix.chains && InDir(dir, ix.chains[h]) && |ix.chains[h]| > 0
    requires Shortened(dir, dir', ix, CutIndex(dir, ix, h, KeepFor(size)), h, size)
    ensures TailOk(dir, ix.chains[h]) ==> TailOk(dir', CutIndex(dir, ix, h, KeepFor(size)).chains[h])
  {
    hide TailOk, EndPos, CutSoFar, Indexed;
    if TailOk(dir, ix.chains[h]) {
      CutTail(dir, dir', ix, h, KeepFor(size), size);
    }
  }

  lemma {:induction false} CutHead(dir: seq<Entry>, dir': seq<Entry>, ix: Index, h: nat, size: nat)
    requires Indexed(dir, ix) && h in ix.chains && CutSoFar(dir, dir', ix, h, |ix.chains[h]|, KeepFor(size), size)
    ensures h < |dir| == |dir'| ==> SameHead(dir[h], dir'[h])
  {
    hide CutExtents, Before;
    assert Link(dir, ix.chains[h], 0) && ix.place[h] == Place(h, 0);
  }

  lemma {:induction false} BeforeAll(dir: seq<Entry>, chain: Chain)
    requires InDir(dir, chain)
    ensures Before(dir, chain, 0) == 0 && Before(dir, chain, |chain|) == |ChainSectors(dir, chain)|
  {
    assert chain[..|chain|] == chain && chain[..0] == [];
  }

  /* A file is killed. */

  /** A file is killed up to a place in its chain, and its sectors freed. */
  ghost predicate Killing(
      m: Map, m': Map, dir: seq<Entry>, dir': seq<Entry>, ix: Index, owner: seq<Owner>, h: nat, p: nat)
  {
    && Indexed(dir, ix) && h in ix.chains && p <= |ix.chains[h]| && |owner| == |m.bits| == MAX_LSN
    && KilledSoFar(dir, dir', ix, h, p)
    && FreedTo(m, m', owner, h, 0, Before(dir, ix.chains[h], p))
    && FreeEntries(dir') + (if p > 0 && h == 0 then 1 else 0) == FreeEntries(dir) + p
  }

  /** Every entry of a file is killed, and no other. */
  ghost predicate Gone(dir: seq<Entry>, dir': seq<Entry>, ix: Index, h: nat) {
    |ix.place| == |dir| == MAX_ENTRIES && h in ix.chains && KilledSoFar(dir, dir', ix, h, |ix.chains[h]|)
  }

  /** So its entries have the flags of one that is free, and no others, and stay as they
      were in all else; and the other entries in everything. */
  ghost predicate ChainFree(dir: seq<Entry>, dir': seq<Entry>, ix: Index, h: nat) {
    && h in ix.chains && |dir'| == |dir|
    && (forall p: nat :: p < |ix.chains[h]| ==>
          var e := ix.chains[h][p];
          && e < |dir|
          && dir'[e] == dir[e].(deleted := true, continuation := true, continued := false, end := false,
               protected := false))
    && forall e: nat :: e < |dir| && e !in ix.chains[h] ==> dir'[e] == dir[e]
  }

  lemma {:induction false} GoneFree(dir: seq<Entry>, dir': seq<Entry>, ix: Index, h: nat)
    requires Gone(dir, dir', ix, h) && Indexed(dir, ix)
    ensures ChainFree(dir, dir', ix, h)
  {
  }

  /** An entry killed is free, for a continuation too unless it is the first. */
  lemma {:induction false} KillCounts(dir: seq<Entry>, dir1: seq<Entry>, ix: Index, h: nat, p: nat)
    requires Indexed(dir, ix) && h in ix.chains && InDir(dir, ix.chains[h]) && p < |ix.chains[h]|
    requires |dir1| == |dir| && dir1[ix.chains[h][p]] == dir[ix.chains[h][p]]
    ensures
      var index := ix.chains[h][p];
      FreeEntries(dir1[index := Killed(dir1[index])]) + (if p == 0 && h == 0 then 1 else 0) == FreeEntries(dir1) + 1
  {
    hide FreeEntries;
    var index := ix.chains[h][p];
    var dir2 := dir1[index := Killed(dir1[index])];
    assert Link(dir, ix.chains[h], p);
    if index == 0 {
      EntriesSame(dir1, dir2);
    } else {
      EntryTaken(dir2, dir1, index);
    }
  }

  lemma {:induction false} KillBegun(m: Map, dir: seq<Entry>, ix: Index, owner: seq<Owner>, h: nat)
    requires Indexed(dir, ix) && h in ix.chains && |owner| == |m.bits| == MAX_LSN && m.Ok()
    ensures Killing(m, m, dir, dir, ix, owner, h, 0)
  {
    hide FreeEntries;
    BeforeAll(dir, ix.chains[h]);
  }

  /** One more extent is freed. */
  lemma {:induction false} KillStep(
      m: Map, m': Map, dir: seq<Entry>, ix: Index, owner: seq<Owner>, files: Files, spareLsn: nat, spareCount: nat,
      h: nat, p: nat, i: nat)
    requires Sound(m, dir, ix, owner, files, spareLsn, spareCount) && h in files
    requires h in ix.chains && InDir(dir, ix.chains[h])
    requires p < |ix.chains[h]| && i < |dir[ix.chains[h][p]].extents|
    requires |owner| == |m.bits| == MAX_LSN
    requires FreedTo(m, m', owner, h, 0, SectorsTo(dir, ix.chains[h], p, i))
    ensures
      var x := dir[ix.chains[h][p]].extents[i];
      && (x.count > 0 ==> x.lsn + x.count <= MAX_LSN)
      && FreedTo(m, m'.With(x.lsn, x.count, true), owner, h, 0, SectorsTo(dir, ix.chains[h], p, i + 1))
  {
    hide Sound, SectorsTo, FreedBits, Map.FreeCount, ChainSectors;
    var x := dir[ix.chains[h][p]].extents[i];
    CutStep(m, m', dir, ix, owner, files, spareLsn, spareCount, h, p, i, 0);
    assert x.count == 0 ==> m'.With(x.lsn, x.count, true).bits == m'.bits;
  }

  lemma {:induction false} KillPlaced(
      dir: seq<Entry>, dir1: seq<Entry>, dir2: seq<Entry>, ix: Index, h: nat, p: nat)
    requires Indexed(dir, ix) && h in ix.chains && p < |ix.chains[h]| && ix.chains[h][p] < MAX_ENTRIES
    requires KilledSoFar(dir, dir1, ix, h, p) && |dir2| == MAX_ENTRIES
    requires dir2[ix.chains[h][p]] == Killed(dir1[ix.chains[h][p]])
    requires forall e: nat :: e < MAX_ENTRIES && e != ix.chains[h][p] ==> dir2[e] == dir1[e]
    ensures KilledSoFar(dir, dir2, ix, h, p + 1)
  {
    hide Killed;
    var index := ix.chains[h][p];
    assert ix.place[index] == Place(h, p);
    forall e: nat | e < MAX_ENTRIES && InChain(ix, h, e) && ix.place[e].pos == p
      ensures e == index
    {
    }
  }

  /** The entry before the next to be killed is as it was. */
  lemma {:induction false} KillNext(dir: seq<Entry>, dir': seq<Entry>, ix: Index, h: nat, p: nat)
    requires Indexed(dir, ix) && h in ix.chains && p < |ix.chains[h]| && KilledSoFar(dir, dir', ix, h, p)
    ensures |dir| == |dir'| == MAX_ENTRIES
    ensures ix.chains[h][p] < MAX_ENTRIES && dir'[ix.chains[h][p]] == dir[ix.chains[h][p]]
  {
    assert Link(dir, ix.chains[h], p) && ix.place[ix.chains[h][p]] == Place(h, p);
  }

  lemma {:induction false} KillDone(
      m: Map, m': Map, dir: seq<Entry>, dir': seq<Entry>, ix: Index, owner: seq<Owner>, files: Files,
      spareLsn: nat, spareCount: nat, h: nat)
    requires Sound(m, dir, ix, owner, files, spareLsn, spareCount) && h in files
    requires h in ix.chains && Killing(m, m', dir, dir', ix, owner, h, |ix.chains[h]|)
    ensures
      var ix' := Index(ix.chains - {h}, ix.place);
      && Sound(m', dir', ix', TakeBack(owner, h, 0), files - {h}, spareLsn, spareCount)
      && Untouched(dir, ix, files, dir', ix', files - {h}, h)
      && m'.total <= |m'.bits| && m.total <= |m.bits| && m'.FreeCount() == m.FreeCount() + |files[h]|
    ensures h < |dir'| && dir'[h].deleted && Gone(dir, dir', ix, h)
    ensures FreeEntries(dir') + (if h == 0 then 1 else 0) == FreeEntries(dir) + |ix.chains[h]|
  {
    hide Partition, ChainSectors, OthersSame, TakeBack, EndFlags, NamesDiffer, Link, Map.FreeCount, FreeEntries;
    var ix' := Index(ix.chains - {h}, ix.place);
    assert ChainOk(dir, ix.chains[h]);
    BeforeAll(dir, ix.chains[h]);
    HeadLive(dir, ix, h);
    FileKilled(dir, dir', ix, h);
    FreedAll(m, m', owner, files, spareLsn, spareCount, h, 0);
    Cut(m, m', owner, files, spareLsn, spareCount, h, 0);
    var files1 := files[h := files[h][..0]];
    RemoveEmpty(m', TakeBack(owner, h, 0), files1, spareLsn, spareCount, h);
    assert files1 - {h} == files - {h};
    SoundAfter(dir, ix, files, dir', ix', files - {h}, h);
  }

  /** An empty file is made in the first entry that is free. */
  lemma {:induction false} MakeDone(
      m: Map, dir: seq<Entry>, ix: Index, owner: seq<Owner>, files: Files, spareLsn: nat, spareCount: nat,
      index: nat, name: Name)
    requires Sound(m, dir, ix, owner, files, spareLsn, spareCount) && index < MAX_ENTRIES && dir[index].deleted
    requires forall i: nat :: i < index ==> !dir[i].deleted
    requires forall k: nat :: k in files ==> k < |dir| && dir[k].name != name
    ensures
      var dir' := dir[index := NewHeader(name)];
      var ix' := Index(ix.chains[index := [index]], ix.place[index := Place(index, 0)]);
      var files' := files[index := []];
      && index !in files && Sound(m, dir', ix', owner, files', spareLsn, spareCount)
      && Untouched(dir, ix, files, dir', ix', files', index) && SizeOf(dir', ix', index) == 0
      && FreeEntries(dir') + (if index == 0 then 0 else 1) == FreeEntries(dir)
  {
    hide Partition, ChainSectors, OthersSame, EndFlags, NamesDiffer, Link, FreeEntries;
    MakeCounts(dir, index, name);
    var dir' := dir[index := NewHeader(name)];
    var ix' := Index(ix.chains[index := [index]], ix.place[index := Place(index, 0)]);
    FileMade(dir, ix, index, name);
    AddEmpty(m, owner, files, spareLsn, spareCount, index);
    SoundAfter(dir, ix, files, dir', ix', files[index := []], index);
  }

  lemma {:induction false} MakeCounts(dir: seq<Entry>, index: nat, name: Name)
    requires index < |dir| && dir[index].deleted
    ensures FreeEntries(dir[index := NewHeader(name)]) + (if index == 0 then 0 else 1) == FreeEntries(dir)
  {
    hide FreeEntries;
    if index == 0 {
      EntriesSame(dir, dir[index := NewHeader(name)]);
    } else {
      EntryTaken(dir, dir[index := NewHeader(name)], index);
    }
  }

  lemma {:induction false} HeadDone(
      m: Map, dir: seq<Entry>, ix: Index, owner: seq<Owner>, files: Files, spareLsn: nat, spareCount: nat,
      h: nat, name: Name, protected: bool)
    requires Sound(m, dir, ix, owner, files, spareLsn, spareCount) && h in files && h < MAX_ENTRIES
    requires forall k: nat :: k in files && k != h ==> k < |dir| && dir[k].name != name
    ensures
      var dir' := dir[h := dir[h].(name := name, protected := protected)];
      && Sound(m, dir', ix, owner, files, spareLsn, spareCount) && OthersSame(dir, ix, dir', ix, h)
      && SizeOf(dir', ix, h) == SizeOf(dir, ix, h)
  {
    hide Partition, ChainSectors, OthersSame, EndFlags, NamesDiffer, Link, FileSize;
    var dir' := dir[h := dir[h].(name := name, protected := protected)];
    HeadSet(dir, ix, h, name, protected);
    SoundAfter(dir, ix, files, dir', ix, files, h);
  }

  /** An entry with the first extents in use, up to one, and the others not. */
  ghost predicate UsedTo(e: Entry, extent: int) {
    && -1 <= extent < |e.extents|
    && (forall i: nat :: i <= extent ==> e.extents[i].count > 0)
    && forall i: nat :: extent < i < |e.extents| ==> e.extents[i].count == 0
  }

  lemma {:induction false} UsedRange(e: Entry, extent: int)
    requires UsedTo(e, extent)
    ensures -1 <= extent < |e.extents|
  {
  }

  function End(x: Extent): nat { x.lsn + x.count }

  lemma {:induction false} NextUsed(e: Entry, k: nat, lsn: nat, used: nat)
    requires UsedTo(e, k - 1) && k < |e.extents| && used > 0
    ensures UsedTo(SetExtent(SetExtent(e, k, Extent(lsn, 0)), k, Extent(lsn, used)), k)
  {
  }

  /** The last entry of a file with its k-th extent changed. */
  function SetExtent(e: Entry, k: nat, x: Extent): Entry requires k < |e.extents| {
    e.(extents := e.extents[k := x])
  }

  /** An extent of the last entry of a file grows: the file has the sectors that
      follow it. */
  lemma {:induction false} LastGrown(dir: seq<Entry>, ix: Index, h: nat, k: nat, lsn: nat, used: nat)
    requires DirOk(dir, ix) && h in ix.chains
    requires
      var e := dir[Last(ix.chains[h])];
      && k < |e.extents| && (forall i: nat :: k < i < |e.extents| ==> e.extents[i].count == 0)
      && (forall i: nat :: i < k ==> e.extents[i].count > 0)
      && (e.extents[k].count == 0 || lsn == e.extents[k].lsn) && e.extents[k].count + used <= MAX_EXTENT
    ensures
      var last := Last(ix.chains[h]);
      var x := dir[last].extents[k];
      var dir' := dir[last := SetExtent(dir[last], k, Extent(lsn, x.count + used))];
      && DirOk(dir', ix) && OthersSame(dir, ix, dir', ix, h)
      && ChainSectors(dir', ix.chains[h]) == ChainSectors(dir, ix.chains[h]) + Range(lsn + x.count, used)
  {
    hide ExtentSectors, ChainSectors, EntryOk, Range, OthersSame, EndFlags, NamesDiffer;
    var chain := ix.chains[h];
    var last := Last(chain);
    LastLive(dir, ix, h);
    assert Link(dir, chain, |chain| - 1) && ix.place[last] == Place(h, |chain| - 1);
    var x := dir[last].extents;
    var next := SetExtent(dir[last], k, Extent(lsn, x[k].count + used));
    GrownOk(dir[last], k, lsn, used);
    EntrySet(dir, ix, h, last, next);
    ExtentGrown(x, k, lsn, used);
    ShorterSame(dir, dir[last := next], ix, h);
    ChainLast(dir, chain);
    ChainLast(dir[last := next], chain);
  }

  lemma {:induction false} ChainLast(dir: seq<Entry>, chain: Chain)
    requires InDir(dir, chain) && |chain| > 0
    ensures InDir(dir, chain[..|chain| - 1])
    ensures ChainSectors(dir, chain) ==
      ChainSectors(dir, chain[..|chain| - 1]) + ExtentSectors(dir[Last(chain)].extents)
  {
  }

  lemma {:induction false} GrownOk(e: Entry, k: nat, lsn: nat, used: nat)
    requires EntryOk(e) && k < |e.extents| && e.extents[k].count + used <= MAX_EXTENT
    requires forall i: nat :: k < i < |e.extents| ==> e.extents[i].count == 0
    requires forall i: nat :: i < k ==> e.extents[i].count > 0
    ensures EntryOk(SetExtent(e, k, Extent(lsn, e.extents[k].count + used)))
  {
  }

  /** A change to the last entry of a chain leaves the sectors before it. */
  lemma {:induction false} ShorterSame(dir: seq<Entry>, dir': seq<Entry>, ix: Index, h: nat)
    requires Indexed(dir, ix) && h in ix.chains && |dir'| == |dir|
    requires forall e: nat :: e < MAX_ENTRIES && e != Last(ix.chains[h]) ==> dir'[e] == dir[e]
    ensures
      var shorter := ix.chains[h][..|ix.chains[h]| - 1];
      InDir(dir, shorter) && InDir(dir', shorter) && ChainSectors(dir', shorter) == ChainSectors(dir, shorter)
  {
    var chain := ix.chains[h];
    var shorter := chain[..|chain| - 1];
    forall p: nat | p < |shorter|
      ensures shorter[p] < MAX_ENTRIES && dir'[shorter[p]] == dir[shorter[p]]
    {
      assert shorter[p] == chain[p] && ix.place[chain[p]] == Place(h, p);
      assert ix.place[Last(chain)] == Place(h, |chain| - 1);
    }
    ChainFrame(dir, dir', shorter);
  }

  /** An extent of the last entry in a chain grows, or an empty one is begun. */
  lemma {:induction false} LastLengthened(dir: seq<Entry>, ix: Index, h: nat, k: nat, lsn: nat, used: nat)
    requires Indexed(dir, ix) && h in ix.chains && |ix.chains[h]| > 0 && Last(ix.chains[h]) < |dir|
    requires
      var x := dir[Last(ix.chains[h])].extents;
      k < |x| && (forall i: nat :: k < i < |x| ==> x[i].count == 0) && (x[k].count == 0 || lsn == x[k].lsn)
    ensures
      var chain := ix.chains[h];
      var e := dir[Last(chain)];
      Lengthened(dir, chain, dir[Last(chain) := SetExtent(e, k, Extent(lsn, e.extents[k].count + used))], chain)
  {
    hide ExtentSectors, Link;
    var chain := ix.chains[h];
    var e := dir[Last(chain)];
    var dir' := dir[Last(chain) := SetExtent(e, k, Extent(lsn, e.extents[k].count + used))];
    assert ChainOk(dir, chain) && ix.place[Last(chain)] == Place(h, |chain| - 1);
    ExtentGrown(e.extents, k, lsn, used);
    forall p: nat | p < |chain| - 1
      ensures dir'[chain[p]] == dir[chain[p]]
    {
      assert ix.place[chain[p]] == Place(h, p);
    }
    LengthenedAtEnd(dir, chain, dir', chain);
  }

  lemma {:induction false} ContinuationLengthened(dir: seq<Entry>, ix: Index, h: nat, index: nat)
    requires Indexed(dir, ix) && h in ix.chains && |ix.chains[h]| > 0 && Last(ix.chains[h]) < |dir|
    requires index < MAX_ENTRIES && dir[index].deleted
    ensures Lengthened(dir, ix.chains[h], WithContinuation(dir, Last(ix.chains[h]), index), ix.chains[h] + [index])
  {
    hide Link, ExtentSectors;
    var chain := ix.chains[h];
    assert ChainOk(dir, chain);
    forall p: nat | p < |chain|
      ensures WithContinuation(dir, Last(chain), index)[chain[p]].extents == dir[chain[p]].extents
    {
      FreeEntry(dir, ix, index, h, p);
    }
    LengthenedAtEnd(dir, chain, WithContinuation(dir, Last(chain), index), chain + [index]);
  }

  /** An extent of the last entry of a file that the sectors set aside go on from:
      they follow it, or it is empty and begins with them. */
  ghost predicate GoesOn(dir: seq<Entry>, ix: Index, h: nat, extent: nat, spareLsn: nat)
    requires h in ix.chains && |ix.chains[h]| > 0 && Last(ix.chains[h]) < |dir|
  {
    var e := dir[Last(ix.chains[h])];
    && extent < |e.extents|
    && (forall i: nat :: extent < i < |e.extents| ==> e.extents[i].count == 0)
    && (forall i: nat :: i < extent ==> e.extents[i].count > 0)
    && End(e.extents[extent]) == spareLsn
  }

  lemma {:induction false} SpareUsed(
      m: Map, dir: seq<Entry>, ix: Index, owner: seq<Owner>, files: Files, spareLsn: nat, spareCount: nat,
      h: nat, extent: nat, used: nat)
    requires Sound(m, dir, ix, owner, files, spareLsn, spareCount) && h in files && used <= spareCount
    requires GoesOn(dir, ix, h, extent, spareLsn)
    requires dir[Last(ix.chains[h])].extents[extent].count + used <= MAX_EXTENT
    ensures
      var last := Last(ix.chains[h]);
      var x := dir[last].extents[extent];
      var dir' := dir[last := SetExtent(dir[last], extent, Extent(x.lsn, x.count + used))];
      var files' := files[h := files[h] + Range(spareLsn, used)];
      && Sound(m, dir', ix, GiveFile(owner, spareLsn, used, h, |files[h]|), files', spareLsn + used, spareCount - used)
      && Untouched(dir, ix, files, dir', ix, files', h) && Lengthened(dir, ix.chains[h], dir', ix.chains[h])
  {
    hide Partition, EndFlags, NamesDiffer, ChainSectors, Range, Link, OthersSame, GiveFile, Lengthened;
    LastLengthened(dir, ix, h, extent, dir[Last(ix.chains[h])].extents[extent].lsn, used);
    var last := Last(ix.chains[h]);
    var x := dir[last].extents[extent];
    var dir' := dir[last := SetExtent(dir[last], extent, Extent(x.lsn, x.count + used))];
    var files' := files[h := files[h] + Range(spareLsn, used)];
    LastGrown(dir, ix, h, extent, x.lsn, used);
    Append(m, owner, files, spareLsn, spareCount, h, used);
    SoundAfter(dir, ix, files, dir', ix, files', h);
  }

  /** An empty extent can be given any first sector. */
  lemma {:induction false} SlotStarted(
      m: Map, dir: seq<Entry>, ix: Index, owner: seq<Owner>, files: Files, spareLsn: nat, spareCount: nat,
      h: nat, extent: nat, lsn: nat)
    requires Sound(m, dir, ix, owner, files, spareLsn, spareCount) && h in files
    requires
      var e := dir[Last(ix.chains[h])];
      && extent < |e.extents| && (forall i: nat :: extent <= i < |e.extents| ==> e.extents[i].count == 0)
      && (forall i: nat :: i < extent ==> e.extents[i].count > 0)
    ensures
      var last := Last(ix.chains[h]);
      var dir' := dir[last := SetExtent(dir[last], extent, Extent(lsn, 0))];
      && Sound(m, dir', ix, owner, files, spareLsn, spareCount) && Untouched(dir, ix, files, dir', ix, files, h)
      && Lengthened(dir, ix.chains[h], dir', ix.chains[h])
  {
    hide Partition, EndFlags, NamesDiffer, ChainSectors, Link, OthersSame, Lengthened;
    LastLengthened(dir, ix, h, extent, lsn, 0);
    var last := Last(ix.chains[h]);
    var dir' := dir[last := SetExtent(dir[last], extent, Extent(lsn, 0))];
    LastGrown(dir, ix, h, extent, lsn, 0);
    assert Range(lsn, 0) == [];
    SoundAfter(dir, ix, files, dir', ix, files, h);
  }

  lemma {:induction false} Continued(
      m: Map, dir: seq<Entry>, ix: Index, owner: seq<Owner>, files: Files, spareLsn: nat, spareCount: nat,
      h: nat, index: nat)
    requires Sound(m, dir, ix, owner, files, spareLsn, spareCount) && h in files
    requires 1 <= index < MAX_ENTRIES && dir[index].deleted && forall i: nat :: 1 <= i < index ==> !dir[i].deleted
    ensures
      var dir' := WithContinuation(dir, Last(ix.chains[h]), index);
      var ix' := IndexMore(ix, h, index);
      && Sound(m, dir', ix', owner, files, spareLsn, spareCount) && Untouched(dir, ix, files, dir', ix', files, h)
      && Lengthened(dir, ix.chains[h], dir', ix'.chains[h])
  {
    hide Partition, EndFlags, NamesDiffer, ChainSectors, Link, OthersSame, Lengthened;
    ContinuationLengthened(dir, ix, h, index);
    var dir' := WithContinuation(dir, Last(ix.chains[h]), index);
    var ix' := IndexMore(ix, h, index);
    ContinuationAdded(dir, ix, h, index);
    HeadLive(dir, ix, h);
    SoundAfter(dir, ix, files, dir', ix', files, h);
  }

  /** The size of a file, as its sectors and the size of the last. */
  lemma {:induction false} SizeSet(
      m: Map, dir: seq<Entry>, ix: Index, owner: seq<Owner>, files: Files, spareLsn: nat, spareCount: nat,
      h: nat, size: nat)
    requires Sound(m, dir, ix, owner, files, spareLsn, spareCount) && h in files
    ensures
      var chain := ix.chains[h];
      var last := Last(chain);
      var dir' := dir[last := dir[last].(lastOrNext := size % SECTOR_SIZE)];
      && Sound(m, dir', ix, owner, files, spareLsn, spareCount) && Untouched(dir, ix, files, dir', ix, files, h)
      && SizeOf(dir', ix, h) == BytesIn(|files[h]|, size % SECTOR_SIZE) && FreeEntries(dir') == FreeEntries(dir)
      && (TailOk(dir, chain) ==> TailOk(dir', chain))
  {
    hide Partition, EndFlags, NamesDiffer, ChainSectors, OthersSame, FreeEntries;
    EntriesSame(dir, dir[Last(ix.chains[h])
      := dir[Last(ix.chains[h])].(lastOrNext := size % SECTOR_SIZE)]);
    var chain := ix.chains[h];
    var last := Last(chain);
    LastLive(dir, ix, h);
    assert Link(dir, chain, |chain| - 1) && ix.place[last] == Place(h, |chain| - 1);
    var dir' := dir[last := dir[last].(lastOrNext := size % SECTOR_SIZE)];
    EntrySet(dir, ix, h, last, dir'[last]);
    ChainFrame(dir, dir', chain);
    SoundAfter(dir, ix, files, dir', ix, files, h);
  }

  /** The sectors grow counts a file as needing, in the arithmetic of u_int. */
  function Needed(filesize: nat, size: nat): nat requires filesize <= size {
    SectorsIn(SpanOf(filesize, size) % WORD)
  }

  function SectorsIn(span: nat): nat { (span + WORD - 1) % WORD / SECTOR_SIZE }

  /** The bytes from the start of the last sector to the new size, before u_int. */
  function SpanOf(filesize: nat, size: nat): nat requires filesize <= size {
    (if filesize % SECTOR_SIZE != 0 then filesize % SECTOR_SIZE else SECTOR_SIZE) + (size - filesize)
  }

  /** It is the number that its size needs, unless the file is empty and the size
      in the last sector that u_int can count. */
  lemma {:induction false} NeededExact(filesize: nat, size: nat)
    requires filesize < size < 0x1_0000_0000
    ensures Needed(filesize, size) == SectorsFor(size) - SectorsFor(filesize) <==> filesize > 0 || size <= 0xFFFF_FF00
    ensures filesize == 0 && size > 0xFFFF_FF00 ==> Needed(filesize, size) == 0
  {
    hide SectorsFor, SpanOf, SectorsIn;
    var k, span := SectorsFor(filesize), SpanOf(filesize, size);
    SpanIs(filesize, size);
    SpanSectors(size, k);
    SpanWraps(span);
  }

  lemma {:induction false} SpanWraps(span: nat)
    requires 0 < span < WORD + SECTOR_SIZE
    ensures SectorsIn(span % WORD) == if span <= WORD then (span - 1) / SECTOR_SIZE else 0
  {
  }

  lemma {:induction false} SpanIs(filesize: nat, size: nat)
    requires filesize < size
    ensures 0 < SpanOf(filesize, size) == size + SECTOR_SIZE - SECTOR_SIZE * SectorsFor(filesize)
    ensures SectorsFor(filesize) == 0 <==> filesize == 0
  {
  }

  lemma {:induction false} SpanSectors(size: nat, k: nat)
    requires size > 0 && size + SECTOR_SIZE > SECTOR_SIZE * k
    ensures (size + SECTOR_SIZE - SECTOR_SIZE * k - 1) / SECTOR_SIZE == SectorsFor(size) - k
  {
  }

  /** Why a file cannot grow: fewer sectors are free or set aside than it needs, or
      seven times the free entries is fewer. */
  predicate TooFew(room: nat, entries: nat, filesize: nat, size: nat) {
    filesize < size && var needed := Needed(filesize, size); room < needed || 7 * entries < needed
  }

  /* The entries that a file growing takes. */

  function DeletedFlags(dir: seq<Entry>): (r: seq<bool>)
    ensures |r| == |dir| && forall i: nat :: i < |dir| ==> r[i] == (i >= 1 && dir[i].deleted)
  {
    seq(|dir|, i requires 0 <= i < |dir| => i >= 1 && dir[i].deleted)
  }

  /** The entries free for continuations. */
  function FreeEntries(dir: seq<Entry>): nat { Count(DeletedFlags(dir)) }

  lemma {:induction false} EntriesSame(dir: seq<Entry>, dir': seq<Entry>)
    requires |dir'| == |dir| && forall e: nat :: 1 <= e < |dir| ==> dir'[e].deleted == dir[e].deleted
    ensures FreeEntries(dir') == FreeEntries(dir)
  {
    assert DeletedFlags(dir') == DeletedFlags(dir);
  }

  lemma {:induction false} EntryTaken(dir: seq<Entry>, dir': seq<Entry>, index: nat)
    requires |dir'| == |dir| && 1 <= index < |dir| && dir[index].deleted && !dir'[index].deleted
    requires forall e: nat :: e < |dir| && e != index ==> dir'[e].deleted == dir[e].deleted
    ensures FreeEntries(dir') + 1 == FreeEntries(dir)
  {
    CountRun(DeletedFlags(dir), DeletedFlags(dir'), index, 1, false);
  }

  lemma {:induction false} NoEntries(dir: seq<Entry>)
    requires forall i: nat :: 1 <= i < |dir| ==> !dir[i].deleted
    ensures FreeEntries(dir) == 0
  {
    CountZero(DeletedFlags(dir));
  }

  /** A new extent is the next of the last entry, or the first of a continuation
      after an entry that is full. */
  ghost predicate NextSlot(dir: seq<Entry>, chain: Chain, extent: int, dir': seq<Entry>, chain': Chain, extent': int)
  {
    && |chain| > 0 && |chain'| > 0 && Last(chain) < |dir| && Last(chain') < |dir'|
    && if |chain'| == |chain| then
         FreeEntries(dir') == FreeEntries(dir) && extent <= extent' <= extent + 1
         && |dir'[Last(chain')].extents| == |dir[Last(chain)].extents|
       else
         |chain'| == |chain| + 1 && FreeEntries(dir') + 1 == FreeEntries(dir) && extent' == 0
         && extent + 1 >= |dir[Last(chain)].extents| && |dir'[Last(chain')].extents| == 7
  }

  /** Every continuation but the last that a file has taken holds seven extents
      or more of the sectors it has. */
  ghost predicate EntriesUsed(
      dir0: seq<Entry>, chain0: Chain, dir: seq<Entry>, chain: Chain, taken: int, extent: int)
  {
    && |chain0| <= |chain| && FreeEntries(dir) + |chain| == FreeEntries(dir0) + |chain0| && taken >= 0
    && (|chain| > 1 ==> extent >= 0)
    && (|chain| > |chain0| ==>
          && taken >= 7 * (|chain| - |chain0| - 1) + extent + 1
          && Last(chain) < |dir| && |dir[Last(chain)].extents| == 7)
  }

  /** The state in which a file starts to grow, by a number of sectors. */
  datatype Start = Start(dir: seq<Entry>, ix: Index, files: Files, room: nat, needed: nat)

  lemma {:induction false} NoneUsed(dir: seq<Entry>, chain: Chain, extent: int)
    requires |chain| > 1 ==> extent >= 0
    ensures EntriesUsed(dir, chain, dir, chain, 0, extent)
  {
  }

  lemma {:induction false} SameSlot(dir: seq<Entry>, chain: Chain, extent: int, dir': seq<Entry>)
    requires |chain| > 0 && Last(chain) < |dir| == |dir'| && FreeEntries(dir') == FreeEntries(dir)
    requires |dir'[Last(chain)].extents| == |dir[Last(chain)].extents|
    ensures NextSlot(dir, chain, extent, dir', chain, extent)
  {
  }

  lemma {:induction false} SlotUsed(
      dir0: seq<Entry>, chain0: Chain, dir: seq<Entry>, chain: Chain, taken: int, extent: int,
      dir': seq<Entry>, chain': Chain, extent': int, used: nat)
    requires EntriesUsed(dir0, chain0, dir, chain, taken, extent) && used > 0
    requires NextSlot(dir, chain, extent, dir', chain', extent')
    ensures EntriesUsed(dir0, chain0, dir', chain', taken + used, extent')
  {
  }

  /** What a growing file has of its chain: the entries it had, with the sectors
      they had, but that the last may have more. */
  ghost predicate Lengthened(dir: seq<Entry>, chain: Chain, dir': seq<Entry>, chain': Chain) {
    && InDir(dir, chain) && InDir(dir', chain') && 0 < |chain| && chain <= chain'
    && (forall p: nat :: p < |chain| ==> Before(dir', chain', p) == Before(dir, chain, p))
    && Before(dir', chain', |chain|) >= Before(dir, chain, |chain|)
  }

  lemma {:induction false} LengthenedSelf(dir: seq<Entry>, chain: Chain)
    requires InDir(dir, chain) && |chain| > 0
    ensures Lengthened(dir, chain, dir, chain)
  {
  }

  lemma {:induction false} LengthenedTwice(
      dir: seq<Entry>, chain: Chain, dir': seq<Entry>, chain': Chain, dir'': seq<Entry>, chain'': Chain)
    requires Lengthened(dir, chain, dir', chain') && Lengthened(dir', chain', dir'', chain'')
    ensures Lengthened(dir, chain, dir'', chain'')
  {
    hide Before;
  }

  lemma {:induction false} LengthenedAtEnd(dir: seq<Entry>, chain: Chain, dir': seq<Entry>, chain': Chain)
    requires InDir(dir, chain) && InDir(dir', chain') && |dir'| == |dir| && 0 < |chain| && chain <= chain'
    requires forall p: nat :: p < |chain| - 1 ==> dir'[chain[p]].extents == dir[chain[p]].extents
    requires |ExtentSectors(dir'[Last(chain)].extents)| >= |ExtentSectors(dir[Last(chain)].extents)|
    ensures Lengthened(dir, chain, dir', chain')
  {
    hide ChainSectors, ExtentSectors;
    forall p: nat | p < |chain|
      ensures Before(dir', chain', p) == Before(dir, chain, p)
    {
      assert chain'[..p] == chain[..p];
      ChainFrame(dir, dir', chain[..p]);
    }
    BeforeNext(dir, chain, |chain| - 1);
    BeforeNext(dir', chain', |chain| - 1);
  }

  /** The last extent in use of a chain that ends right. */
  lemma {:induction false} TailUsed(dir: seq<Entry>, chain: Chain, extent: int)
    requires |chain| > 0 && Last(chain) < |dir| && UsedTo(dir[Last(chain)], extent)
    ensures TailOk(dir, chain) ==> |chain| > 1 ==> extent >= 0
    ensures extent >= 0 ==> TailOk(dir, chain)
  {
  }

  /** A file that has grown and is cut to the sectors it had has the chain it had. */
  lemma {:induction false} ChainBack(dir: seq<Entry>, chain: Chain, dir': seq<Entry>, chain': Chain)
    requires Lengthened(dir, chain, dir', chain') && TailOk(dir, chain)
    ensures chain'[..EndPos(dir', chain', |ChainSectors(dir, chain)|) + 1] == chain
  {
    hide ChainSectors, Before, ExtentSectors;
    var keep, n := |ChainSectors(dir, chain)|, |chain|;
    BeforeAll(dir, chain);
    BeforeNext(dir, chain, n - 1);
    if n > 1 {
      FirstCounts(dir[Last(chain)].extents);
    }
    var q := EndPos(dir', chain', keep);
    if q + 1 < n {
      BeforeAscends(dir, chain, q + 1, n - 1);
    }
  }

  lemma {:induction false} FirstCounts(x: seq<Extent>)
    requires |x| > 0 && x[0].count > 0
    ensures |ExtentSectors(x)| > 0
  {
    ExtentSectorsAt(x, 0);
  }

  /** What growing by sectors takes from the directory: continuations after those
      that the file has, each but the last of them for seven sectors or more. */
  ghost predicate Chained(dir: seq<Entry>, chain: Chain, dir': seq<Entry>, chain': Chain, gained: int) {
    && chain <= chain' && FreeEntries(dir') + |chain'| == FreeEntries(dir) + |chain|
    && 7 * (|chain'| - |chain|) <= gained + 6
  }

  lemma {:induction false} ChainedBy(
      dir0: seq<Entry>, chain0: Chain, dir: seq<Entry>, chain: Chain, taken: int, extent: int)
    requires EntriesUsed(dir0, chain0, dir, chain, taken, extent) && Lengthened(dir0, chain0, dir, chain)
    requires |chain| > 0 && Last(chain) < |dir| && UsedTo(dir[Last(chain)], extent)
    ensures Chained(dir0, chain0, dir, chain, taken) && TailOk(dir, chain)
  {
    TailUsed(dir, chain, extent);
  }

  /** A file that could not grow has its chain again. */
  lemma {:induction false} ChainsBack(
      dir: seq<Entry>, ix: Index, files: Files, dir': seq<Entry>, ix': Index, files': Files, h: nat, keep: nat)
    requires Untouched(dir, ix, files, dir', ix', files', h) && h in ix.chains && h in ix'.chains
    requires Lengthened(dir, ix.chains[h], dir', ix'.chains[h]) && TailOk(dir, ix.chains[h])
    requires keep == |ChainSectors(dir, ix.chains[h])|
    ensures |ix'.chains[h]| > 0 && CutIndex(dir', ix', h, keep).chains == ix.chains
  {
    hide ChainSectors, Before, EndPos;
    ChainBack(dir, ix.chains[h], dir', ix'.chains[h]);
    forall k: nat | k in ix.chains && k != h
      ensures k in ix'.chains && ix'.chains[k] == ix.chains[k]
    {
      assert SameFile(dir, ix, dir', ix', k);
    }
  }

  /** So a file that finds no entry for a continuation has had seven sectors or
      more for each that there was. */
  lemma {:induction false} EntriesRanOut(
      dir0: seq<Entry>, chain0: Chain, dir: seq<Entry>, chain: Chain, taken: int, extent: int)
    requires EntriesUsed(dir0, chain0, dir, chain, taken, extent) && FreeEntries(dir) == 0
    requires |chain| > 0 && Last(chain) < |dir| && extent + 1 >= |dir[Last(chain)].extents|
    ensures taken >= 7 * FreeEntries(dir0)
  {
  }

  lemma {:induction false} TailsKept(
      dir: seq<Entry>, ix: Index, files: Files, dir': seq<Entry>, ix': Index, files': Files, h: nat)
    requires Tails(dir, ix) && Untouched(dir, ix, files, dir', ix', files', h)
    requires h in ix'.chains ==> TailOk(dir', ix'.chains[h])
    ensures Tails(dir', ix')
  {
    TailsAfter(dir, ix, dir', ix', h);
  }

  lemma {:induction false} TailsSame(dir: seq<Entry>, dir': seq<Entry>, ix: Index)
    requires Tails(dir, ix) && |dir'| == |dir| && forall e: nat :: e < |dir| ==> dir'[e].extents == dir[e].extents
    ensures Tails(dir', ix)
  {
    forall h: nat | h in ix.chains
      ensures TailOk(dir', ix.chains[h])
    {
      assert TailOk(dir, ix.chains[h]);
    }
  }

  lemma {:induction false} HasTail(
      m: Map, dir: seq<Entry>, ix: Index, owner: seq<Owner>, files: Files, spareLsn: nat, spareCount: nat, h: nat)
    requires Sound(m, dir, ix, owner, files, spareLsn, spareCount) && h in files && Tails(dir, ix)
    ensures h in ix.chains && TailOk(dir, ix.chains[h])
  {
    hide DirOk, Partition, TailOk;
  }

  lemma {:induction false} AllDeleted(dir: seq<Entry>)
    requires |dir| > 0 && forall e: nat :: e < |dir| ==> dir[e].deleted
    ensures FreeEntries(dir) == |dir| - 1
  {
    var none := seq(|dir|, i => false);
    CountZero(none);
    CountRun(none, DeletedFlags(dir), 1, |dir| - 1, true);
  }

  /** The last sector of a file with a last extent in use. */
  lemma {:induction false} LastSector(dir: seq<Entry>, ix: Index, h: nat, extent: nat)
    requires DirOk(dir, ix) && h in ix.chains && |ix.chains[h]| > 0 && Last(ix.chains[h]) < |dir|
    requires UsedTo(dir[Last(ix.chains[h])], extent)
    ensures
      var sectors := ChainSectors(dir, ix.chains[h]);
      |sectors| > 0 && sectors[|sectors| - 1] == End(dir[Last(ix.chains[h])].extents[extent]) - 1
  {
    hide ChainSectors, ExtentSectors, EntryOk;
    var x := dir[Last(ix.chains[h])].extents;
    ChainLast(dir, ix.chains[h]);
    ExtentSectorsAt(x, extent);
    NoSectors(x[extent + 1..]);
  }

  /** Sectors set aside that do not begin where the file ends do not hold the
      sector there. */
  lemma {:induction false} HintNotSpare(
      m: Map, dir: seq<Entry>, ix: Index, owner: seq<Owner>, files: Files, spareLsn: nat, spareCount: nat,
      h: nat, extent: nat)
    requires Sound(m, dir, ix, owner, files, spareLsn, spareCount) && h in files
    requires |ix.chains[h]| > 0 && Last(ix.chains[h]) < |dir| && UsedTo(dir[Last(ix.chains[h])], extent)
    ensures
      var hint := End(dir[Last(ix.chains[h])].extents[extent]);
      hint <= MAX_LSN && (spareLsn == hint || !(spareLsn <= hint < spareLsn + spareCount))
  {
    hide ChainSectors, DirOk;
    LastSector(dir, ix, h, extent);
    var n := |files[h]| - 1;
    assert owner[files[h][n]] == Of(h, n);
    assert Fits(m, owner, spareLsn, spareCount, files[h][n]);
  }

  lemma {:induction false} SpareNotFree(
      m: Map, dir: seq<Entry>, ix: Index, owner: seq<Owner>, files: Files, spareLsn: nat, spareCount: nat, l: nat)
    requires Sound(m, dir, ix, owner, files, spareLsn, spareCount) && spareLsn <= l < spareLsn + spareCount
    ensures m.Ok() && !m.Free(l)
  {
    assert Fits(m, owner, spareLsn, spareCount, l);
  }

  lemma {:induction false} SpareWithin(
      m: Map, dir: seq<Entry>, ix: Index, owner: seq<Owner>, files: Files, spareLsn: nat, spareCount: nat)
    requires Sound(m, dir, ix, owner, files, spareLsn, spareCount)
    ensures m.Ok() && (spareCount > 0 ==> spareLsn + spareCount <= m.total)
  {
    hide DirOk;
    if spareCount > 0 {
      assert Fits(m, owner, spareLsn, spareCount, spareLsn + (spareCount - 1));
    }
  }

  /** A formatted disk. */
  lemma {:induction false} Blank(m: Map, dir: seq<Entry>, ix: Index) returns (owner: seq<Owner>)
    requires m.Ok() && m.directory + TRACK <= m.total
    requires forall l: nat :: l < MAX_LSN ==> (m.bits[l] <==> l < m.total && !IsReserved(m, l))
    requires |dir| == |ix.place| == MAX_ENTRIES && ix.chains == map[]
    requires forall e: nat :: e < MAX_ENTRIES ==> dir[e].deleted
    ensures Sound(m, dir, ix, owner, map[], 0, 0) && Tails(dir, ix)
  {
    owner := seq(MAX_LSN, l requires 0 <= l =>
      if l >= m.total then Absent else if IsReserved(m, l) then Reserved else Free);
    forall l: nat | l < MAX_LSN
      ensures Fits(m, owner, 0, 0, l)
    {
    }
  }
}
