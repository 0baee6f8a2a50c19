/** The bytes of files: what a disk holds is a map from names to byte strings. */
module DragonContent {
  import opened Bits
  import opened Blocks
  import opened DragonBitmap
  import opened DragonOwner
  import opened DragonDir
  import opened DragonChange
  import opened DragonCut
  import opened DragonSound
  import opened DragonGrow

  ghost predicate Sectored(data: Data) {
    |data| == MAX_LSN && Blocked(data, SECTOR_SIZE)
  }

  function FileBytes(dir: seq<Entry>, ix: Index, files: Files, data: Data, h: nat): seq<Byte>
    requires h in files
  {
    Content(data, SECTOR_SIZE, files[h], SizeOf(dir, ix, h))
  }

  ghost predicate Described(dir: seq<Entry>, ix: Index, files: Files) {
    && DirOk(dir, ix) && files.Keys == ix.chains.Keys
    && forall h: nat :: h in files ==> h < |dir|
  }

  /** The files of a disk by name. */
  ghost function Store(dir: seq<Entry>, ix: Index, files: Files, data: Data): map<Name, seq<Byte>>
    requires Described(dir, ix, files)
  {
    map h | h in files :: dir[h].name := FileBytes(dir, ix, files, data, h)
  }

  /** A file that a change leaves alone keeps its name, its size and its bytes. */
  lemma {:induction false} FileSame(
      dir: seq<Entry>, ix: Index, files: Files, data: Data,
      dir': seq<Entry>, ix': Index, files': Files, data': Data, h: nat, k: nat)
    requires Described(dir, ix, files) && Described(dir', ix', files')
    requires OthersSame(dir, ix, dir', ix', h) && k in files && k != h && k in files' && files'[k] == files[k]
    requires SameBytes(data, data', files[k])
    ensures k < |dir| && dir'[k].name == dir[k].name
    ensures FileBytes(dir', ix', files', data', k) == FileBytes(dir, ix, files, data, k)
  {
    hide ChainSectors, FileSize;
    SameChain(dir, ix, dir', ix', k);
    ContentSame(data, data', SECTOR_SIZE, files[k], SizeOf(dir, ix, k));
  }

  lemma {:induction false} StoreHas(dir: seq<Entry>, ix: Index, files: Files, data: Data, k: nat)
    requires Described(dir, ix, files) && k in files
    ensures k < |dir| && dir[k].name in Store(dir, ix, files, data)
    ensures Store(dir, ix, files, data)[dir[k].name] == FileBytes(dir, ix, files, data, k)
  {
    hide FileBytes, Indexed, EndFlags;
  }

  lemma {:induction false} StoreFile(dir: seq<Entry>, ix: Index, files: Files, data: Data, name: Name) returns (k: nat)
    requires Described(dir, ix, files) && name in Store(dir, ix, files, data)
    ensures k in files && k < |dir| && dir[k].name == name
  {
    hide FileBytes, Indexed, EndFlags;
    k :| k in files && dir[k].name == name;
  }

  lemma {:induction false} OneName(dir: seq<Entry>, ix: Index, files: Files, h: nat, k: nat)
    requires Described(dir, ix, files) && h in files && k in files && h != k
    ensures dir[h].name != dir[k].name
  {
  }

  /** A change to one file changes nothing else in the store. */
  lemma {:induction false} StoreAfter(
      dir: seq<Entry>, ix: Index, files: Files, data: Data,
      dir': seq<Entry>, ix': Index, files': Files, data': Data, h: nat)
    requires Described(dir, ix, files) && Described(dir', ix', files')
    requires OthersSame(dir, ix, dir', ix', h)
    requires forall k: nat :: k in files && k != h ==> k in files' && files'[k] == files[k]
    requires forall k: nat :: k in files && k != h ==> SameBytes(data, data', files[k])
    ensures
      var rest := Store(dir, ix, files, data) - if h in files then {dir[h].name} else {};
      Store(dir', ix', files', data') ==
        if h in files' then rest[dir'[h].name := FileBytes(dir', ix', files', data', h)] else rest
  {
    hide FileBytes, Store, DirOk, SameFile, SameBytes;
    var store, store' := Store(dir, ix, files, data), Store(dir', ix', files', data');
    var rest := store - if h in files then {dir[h].name} else {};
    var expected := if h in files' then rest[dir'[h].name := FileBytes(dir', ix', files', data', h)] else rest;
    if h in files' {
      StoreHas(dir', ix', files', data', h);
    }
    forall name | name in store'
      ensures name in expected && store'[name] == expected[name]
    {
      var k := StoreFile(dir', ix', files', data', name);
      if k != h {
        assert k in ix'.chains && k in ix.chains && k in files;
        FileSame(dir, ix, files, data, dir', ix', files', data', h, k);
        StoreHas(dir, ix, files, data, k);
        StoreHas(dir', ix', files', data', k);
        if h in files {
          OneName(dir, ix, files, h, k);
        }
        if h in files' {
          OneName(dir', ix', files', h, k);
        }
      }
    }
    forall name | name in expected
      ensures name in store'
    {
      if name in rest {
        var k := StoreFile(dir, ix, files, data, name);
        if k != h {
          FileSame(dir, ix, files, data, dir', ix', files', data', h, k);
          StoreHas(dir', ix', files', data', k);
        }
      }
    }
  }

  /** A file has no sector twice. */
  lemma {:induction false} FileDistinct(
      m: Map, dir: seq<Entry>, ix: Index, owner: seq<Owner>, files: Files, spareLsn: nat, spareCount: nat, h: nat)
    requires Sound(m, dir, ix, owner, files, spareLsn, spareCount) && h in files
    ensures Distinct(files[h], MAX_LSN)
  {
    hide Fits, DirOk, ChainSectors;
    forall i: nat, j: nat | i < j < |files[h]|
      ensures files[h][i] != files[h][j]
    {
      assert owner[files[h][i]] == Of(h, i) && owner[files[h][j]] == Of(h, j);
    }
  }

  lemma {:induction false} FileBounded(
      m: Map, dir: seq<Entry>, ix: Index, owner: seq<Owner>, files: Files, spareLsn: nat, spareCount: nat, h: nat)
    requires Sound(m, dir, ix, owner, files, spareLsn, spareCount) && h in files
    ensures |files[h]| <= MAX_LSN
  {
    hide Sound;
    FileDistinct(m, dir, ix, owner, files, spareLsn, spareCount, h);
    Pigeonhole(files[h], MAX_LSN);
  }

  /** Sectors of one file are in no other. */
  lemma {:induction false} OthersKeep(
      m: Map, owner: seq<Owner>, files: Files, spareLsn: nat, spareCount: nat, data: Data, data': Data, h: nat, k: nat)
    requires Partition(m, owner, files, spareLsn, spareCount) && h in files && OnlyBlocks(data, data', files[h])
    requires k in files && k != h
    ensures SameBytes(data, data', files[k])
  {
    hide Fits;
    forall i: nat | i < |files[k]| && files[k][i] < |data|
      ensures data'[files[k][i]] == data[files[k][i]]
    {
      assert owner[files[k][i]] == Of(k, i);
    }
  }

  /* Calls, from the disk before one to the disk after it. */

  datatype Disk = Disk(
    m: Map, dir: seq<Entry>, ix: Index, owner: seq<Owner>, files: Files, spareLsn: nat, spareCount: nat, data: Data)
  {
    ghost predicate Ok() {
      Sound(m, dir, ix, owner, files, spareLsn, spareCount) && Sectored(data)
    }

    ghost function Stored(): map<Name, seq<Byte>> requires Described(dir, ix, files) {
      Store(dir, ix, files, data)
    }

    function Bytes(h: nat): seq<Byte> requires h in files { FileBytes(dir, ix, files, data, h) }

    /** Whether a path of some size can get another. */
    ghost predicate CanReach(h: nat, filesize: nat, size: nat) {
      size <= filesize || CanGrow(m, Run(spareLsn, spareCount), dir, ix, h, Needed(filesize, size))
    }

    /** The names of the files that are protected. */
    ghost function Locked(): set<Name> {
      set h | h in files && h < |dir| && dir[h].protected :: dir[h].name
    }

    /** The header of the file with a name. */
    ghost function Head(name: Name): (h: nat)
      requires Described(dir, ix, files) && name in Stored()
      ensures h in files && dir[h].name == name
    {
      var h: nat :| h in files && h < |dir| && dir[h].name == name;
      h
    }

    /** The entries of its chain that can be continuations. */
    ghost function Entries(name: Name): nat requires Described(dir, ix, files) && name in Stored() {
      |ix.chains[Head(name)]| - if Head(name) == 0 && |ix.chains[Head(name)]| > 0 then 1 else 0
    }
  }

  lemma {:induction false} DiskDescribed(d: Disk)
    requires d.Ok()
    ensures Described(d.dir, d.ix, d.files) && |d.dir| == |d.ix.place| == MAX_ENTRIES
  {
    forall h: nat | h in d.files
      ensures h < |d.dir|
    {
      HeadLive(d.dir, d.ix, h);
    }
  }

  lemma {:induction false} NoFiles(d: Disk)
    requires d.Ok() && d.files == map[]
    ensures Described(d.dir, d.ix, d.files) && d.Stored() == map[]
  {
    hide Sound, FileBytes;
    DiskDescribed(d);
  }

  /** The store has the file. */
  lemma {:induction false} DiskHas(d: Disk, h: nat)
    requires d.Ok() && h in d.files
    ensures Described(d.dir, d.ix, d.files) && h < |d.dir| && d.dir[h].name in d.Stored()
    ensures d.Stored()[d.dir[h].name] == d.Bytes(h) && d.Stored()[d.dir[h].name := d.Bytes(h)] == d.Stored()
  {
    hide Sound, Store, FileBytes, Described;
    DiskDescribed(d);
    StoreHas(d.dir, d.ix, d.files, d.data, h);
  }

  /** The bytes of the other files are as they were. */
  ghost predicate OtherBytesKept(d: Disk, d': Disk, h: nat) {
    forall k: nat :: k in d.files && k != h ==> SameBytes(d.data, d'.data, d.files[k])
  }

  lemma {:induction false} NothingKept(d: Disk, d': Disk, h: nat)
    requires d'.data == d.data
    ensures OtherBytesKept(d, d', h)
  {
  }

  /** Only sectors of one file are written, from a disk with the other files as they
      were. */
  lemma {:induction false} OthersKeepAll(d: Disk, d1: Disk, d': Disk, h: nat)
    requires Sound(d1.m, d1.dir, d1.ix, d1.owner, d1.files, d1.spareLsn, d1.spareCount) && h in d1.files
    requires Untouched(d.dir, d.ix, d.files, d1.dir, d1.ix, d1.files, h) && OnlyBlocks(d.data, d'.data, d1.files[h])
    ensures OtherBytesKept(d, d', h)
  {
    hide OnlyBlocks, SameBytes, Partition, DirOk, OthersSame;
    forall k: nat | k in d.files && k != h
      ensures SameBytes(d.data, d'.data, d.files[k])
    {
      OthersKeep(d1.m, d1.owner, d1.files, d1.spareLsn, d1.spareCount, d.data, d'.data, h, k);
    }
  }

  /** A call that changes one file and leaves the bytes of the others. */
  lemma {:induction false} FileChanged(d: Disk, d': Disk, h: nat)
    requires d.Ok() && d'.Ok() && h in d.files && h in d'.files
    requires Untouched(d.dir, d.ix, d.files, d'.dir, d'.ix, d'.files, h)
    requires OtherBytesKept(d, d', h)
    ensures Described(d.dir, d.ix, d.files) && Described(d'.dir, d'.ix, d'.files) && h < |d.dir| == |d'.dir|
    ensures SameHead(d.dir[h], d'.dir[h]) && d'.Stored() == d.Stored()[d.dir[h].name := d'.Bytes(h)]
  {
    hide Partition, Store, DirOk, SameFile, SameBytes, FileBytes;
    DiskDescribed(d);
    DiskDescribed(d');
    StoreAfter(d.dir, d.ix, d.files, d.data, d'.dir, d'.ix, d'.files, d'.data, h);
    var name := d.dir[h].name;
    PutBackAt(d.Stored(), name, d'.Bytes(h));
  }

  lemma {:induction false} PutBackAt<K, V>(m: map<K, V>, k: K, v: V)
    ensures (m - {k})[k := v] == m[k := v]
  {
  }

  lemma {:induction false} WriteDone(d: Disk, d': Disk, h: nat, start: nat, input: seq<Byte>)
    requires d.Ok() && d'.Ok() && h in d.files && h in d'.files && d.files[h] <= d'.files[h] && input != []
    requires Untouched(d.dir, d.ix, d.files, d'.dir, d'.ix, d'.files, h)
    requires OnlyBlocks(d.data, d'.data, d'.files[h])
    requires Written(d.data, d'.data, SECTOR_SIZE, d'.files[h], start, input)
    requires
      var size := SizeOf(d.dir, d.ix, h);
      SizeOf(d'.dir, d'.ix, h) == if start + |input| > size then start + |input| else size
    ensures Described(d.dir, d.ix, d.files) && Described(d'.dir, d'.ix, d'.files) && h < |d.dir| == |d'.dir|
    ensures SameHead(d.dir[h], d'.dir[h]) && d'.Stored() == d.Stored()[d.dir[h].name := d'.Bytes(h)]
    ensures Wrote(d.Bytes(h), start, input, d'.Bytes(h))
  {
    hide Sound, Store, SizeOf, Written, OnlyBlocks, Untouched, Content, Wrote, SectorsFor;
    OthersKeepAll(d, d', d', h);
    FileChanged(d, d', h);
    SizeSectors(d.m, d.dir, d.ix, d.owner, d.files, d.spareLsn, d.spareCount, h);
    SizeSectors(d'.m, d'.dir, d'.ix, d'.owner, d'.files, d'.spareLsn, d'.spareCount, h);
    WholeWritten(d.data, d'.data, SECTOR_SIZE, d.files[h], d'.files[h], SizeOf(d.dir, d.ix, h), start, input);
  }

  /** Where a write ends, in u_int. */
  function EndOfWrite(start: nat, count: nat): (end: nat)
    ensures end < WORD
  {
    (start + count) % WORD
  }

  /** A file is at least of some size, having grown if it was smaller. */
  ghost predicate Reached(d: Disk, d': Disk, was: nat, now: nat, h: nat, size: nat) {
    if size > was then
      GrownTo(d.m, Run(d.spareLsn, d.spareCount), d.dir, d.ix, d.files, was,
        d'.m, Run(d'.spareLsn, d'.spareCount), d'.dir, d'.ix, d'.files, now, h, size)
    else
      d' == d.(data := d'.data) && now == was
  }

  /** What decides where the sectors that a file gains begin. */
  ghost predicate Gaining(d: Disk, d': Disk, h: nat) {
    && h in d.files && h in d'.files
    && FileGains(d.m, Run(d.spareLsn, d.spareCount), d.dir, d.ix, h, d.files[h],
         d'.m, d'.files[h], Run(d'.spareLsn, d'.spareCount))
  }

  lemma {:induction false} NoGain(d: Disk, d': Disk, h: nat)
    requires d.Ok() && h in d.files && d' == d.(data := d'.data)
    ensures Gaining(d, d', h)
  {
    hide Sound, GainsAfter, Sectored;
    SoundInDir(d.m, d.dir, d.ix, d.owner, d.files, d.spareLsn, d.spareCount, h);
    SpareWithin(d.m, d.dir, d.ix, d.owner, d.files, d.spareLsn, d.spareCount);
    NothingGained(d.m, Run(d.spareLsn, d.spareCount), d.dir[Last(d.ix.chains[h])], d.files[h]);
  }

  lemma {:induction false} ReachedGains(d: Disk, d': Disk, was: nat, now: nat, h: nat, size: nat)
    requires d.Ok() && d'.Ok() && h in d.files && Reached(d, d', was, now, h, size)
    ensures Gaining(d, d', h)
  {
    hide Sound, Grew, FileGains, Sectored;
    if size > was {
      SoundInDir(d.m, d.dir, d.ix, d.owner, d.files, d.spareLsn, d.spareCount, h);
      SpareWithin(d.m, d.dir, d.ix, d.owner, d.files, d.spareLsn, d.spareCount);
      SpareWithin(d'.m, d'.dir, d'.ix, d'.owner, d'.files, d'.spareLsn, d'.spareCount);
      GrewGains(d.m, Run(d.spareLsn, d.spareCount), d.dir, d.ix, h, d.files[h], d'.m, d'.files[h],
        Run(d'.spareLsn, d'.spareCount));
    } else {
      NoGain(d, d', h);
    }
  }

  /** A write that found a sector missing: the sectors that there are have the
      bytes, and a file that had grown is cut again. */
  ghost predicate Stopped(d: Disk, d': Disk, was: nat, now: nat, h: nat, end: nat, start: nat, written: seq<Byte>) {
    && h in d.files && h in d'.files
    && if end <= was then
         d' == d.(data := d'.data) && now == was && InSectors(d, d', d.files[h], start, written)
         && EndsAtLast(d.files[h], start, written)
       else
         && now == (if start + |written| > was then start + |written| else was)
         && exists grown: seq<nat> ::
              && d.files[h] <= grown && |grown| == |d.files[h]| + Needed(was, end)
              && InSectors(d, d', grown, start, written) && EndsAtLast(grown, start, written)
              && d'.files[h] == grown[..Min(KeepFor(now), |grown|)]
              && SizeOf(d'.dir, d'.ix, h) == BytesIn(|d'.files[h]|, now % SECTOR_SIZE)
  }

  /** Bytes are written in sectors and nowhere else. */
  ghost predicate InSectors(d: Disk, d': Disk, sectors: seq<nat>, start: nat, written: seq<Byte>) {
    OnlyBlocks(d.data, d'.data, sectors) && Written(d.data, d'.data, SECTOR_SIZE, sectors, start, written)
  }

  /** What is written goes to the end of the sectors. */
  predicate EndsAtLast(sectors: seq<nat>, start: nat, written: seq<Byte>) {
    && start + |written| >= |sectors| * SECTOR_SIZE
    && (written != [] ==> start + |written| == |sectors| * SECTOR_SIZE)
  }

  /** All of a write is in the sectors of the file. */
  ghost predicate Finished(d: Disk, d': Disk, was: nat, now: nat, h: nat, end: nat, start: nat, input: seq<Byte>) {
    && Reached(d, d', was, now, h, end) && h in d'.files && InSectors(d, d', d'.files[h], start, input)
    && start + |input| <= |d'.files[h]| * SECTOR_SIZE
  }

  /** What is written after a file has grown, from the disk before to the disk after. */
  lemma {:induction false} WroteOut(
      d: Disk, d1: Disk, d': Disk, was: nat, grown: nat, now: nat, h: nat, end: nat, start: nat, written: seq<Byte>,
      whole: bool)
    requires h in d.files && Reached(d, d1, was, grown, h, end) && h in d1.files && h in d'.files && d1.data == d.data
    requires grown == if end > was then end else was
    requires OnlyBlocks(d.data, d'.data, d1.files[h])
    requires Written(d.data, d'.data, SECTOR_SIZE, d1.files[h], start, written)
    requires
      var room := |d1.files[h]| * SECTOR_SIZE;
      if whole then start + |written| <= room else EndsAtLast(d1.files[h], start, written)
    requires
      if whole || grown <= was then d' == d1.(data := d'.data) && now == grown
      else
        && now == (if start + |written| > was then start + |written| else was)
        && d'.files == FilesCut(d1.files, h, KeepFor(now))
        && SizeOf(d'.dir, d'.ix, h) == BytesIn(|d'.files[h]|, now % SECTOR_SIZE)
    ensures
      if whole then Finished(d, d', was, now, h, end, start, written)
      else Stopped(d, d', was, now, h, end, start, written)
  {
    hide SizeOf, Grew, Chained, Needed, Written, OnlyBlocks, KeepFor, BytesIn;
  }

  /** A write for which every sector was there is a write into the file's bytes,
      and its end is counted right. */
  lemma {:induction false} WriteExact(
      d: Disk, d': Disk, h: nat, start: nat, input: seq<Byte>, now: nat)
    requires d.Ok() && d'.Ok() && h in d.files && h in d'.files && input != []
    requires Untouched(d.dir, d.ix, d.files, d'.dir, d'.ix, d'.files, h)
    requires Finished(d, d', SizeOf(d.dir, d.ix, h), now, h, EndOfWrite(start, |input|), start, input)
    ensures now == SizeOf(d'.dir, d'.ix, h) && Wrote(d.Bytes(h), start, input, d'.Bytes(h))
    ensures start + |input| < WORD && (SizeOf(d.dir, d.ix, h) > 0 || start + |input| <= WORD - SECTOR_SIZE)
  {
    hide Sound, Store, SizeOf, Written, OnlyBlocks, Untouched, Content, Wrote, SectorsFor, FileBytes, GrownTo;
    var was, end := SizeOf(d.dir, d.ix, h), EndOfWrite(start, |input|);
    FileBounded(d'.m, d'.dir, d'.ix, d'.owner, d'.files, d'.spareLsn, d'.spareCount, h);
    SizeSectors(d.m, d.dir, d.ix, d.owner, d.files, d.spareLsn, d.spareCount, h);
    if end > was {
      GrownSize(d, d', was, now, h, end);
    }
    WriteDone(d, d', h, start, input);
  }

  /** Unless the size of a file that has grown is not counted right. */
  lemma {:induction false} GrownSize(d: Disk, d': Disk, was: nat, now: nat, h: nat, size: nat)
    requires d.Ok() && was < size < WORD && Reached(d, d', was, now, h, size)
    requires h in d.files && was == SizeOf(d.dir, d.ix, h)
    ensures now == size && h in d'.files && d.files[h] <= d'.files[h]
    ensures
      if was > 0 || size <= WORD - SECTOR_SIZE then
        |d'.files[h]| == SectorsFor(size) && SizeOf(d'.dir, d'.ix, h) == size
      else d'.files == d.files && d.files[h] == [] && SizeOf(d'.dir, d'.ix, h) == 0
  {
    hide Sound, SizeOf, Grew, Chained, Needed;
    SizeSectors(d.m, d.dir, d.ix, d.owner, d.files, d.spareLsn, d.spareCount, h);
    GrownExact(d.m, Run(d.spareLsn, d.spareCount), d.dir, d.ix, d.files, was,
      d'.m, Run(d'.spareLsn, d'.spareCount), d'.dir, d'.ix, d'.files, now, h, size);
  }

  /** A file is cut to a size. */
  ghost predicate Shrunk(d: Disk, d': Disk, h: nat, size: nat) {
    && Shortened(d.dir, d'.dir, d.ix, d'.ix, h, size)
    && h in d.files && d'.files == FilesCut(d.files, h, KeepFor(size))
    && SizeOf(d'.dir, d'.ix, h) == BytesIn(|d'.files[h]|, size % SECTOR_SIZE)
  }

  /** Bytes cut to a size, or with others after them up to it. */
  ghost predicate Resized(was: seq<Byte>, now: seq<Byte>, size: nat) {
    |now| == size && if size <= |was| then now == was[..size] else now[..|was|] == was
  }

  /** A change of size for which the sectors are counted right. */
  lemma {:induction false} SizeLaw(d: Disk, d': Disk, h: nat, size: nat, now: nat)
    requires d.Ok() && d'.Ok() && h in d.files && h in d'.files && d'.data == d.data && size < WORD && now == size
    requires Untouched(d.dir, d.ix, d.files, d'.dir, d'.ix, d'.files, h)
    requires
      var was := SizeOf(d.dir, d.ix, h);
      if size < was then Shrunk(d, d', h, size) else Reached(d, d', was, now, h, size)
    ensures
      var was, exact := SizeOf(d.dir, d.ix, h), SizeOf(d'.dir, d'.ix, h) == size;
      && (exact <==> was > 0 || size <= WORD - SECTOR_SIZE)
      && if exact then Resized(d.Bytes(h), d'.Bytes(h), size) else d'.Bytes(h) == d.Bytes(h) == []
  {
    hide Sound, SizeOf, Untouched, GrownTo, Store, DirOk, SectorsFor, KeepFor, Content, Shortened;
    var was := SizeOf(d.dir, d.ix, h);
    SizeSectors(d.m, d.dir, d.ix, d.owner, d.files, d.spareLsn, d.spareCount, h);
    if size < was {
      FileBounded(d.m, d.dir, d.ix, d.owner, d.files, d.spareLsn, d.spareCount, h);
      KeepExact(size);
      SectorsAscend(size, was);
      SizeBack(size);
    } else if size > was {
      GrownSize(d, d', was, now, h, size);
    }
    SizeDone(d, d', h);
  }

  lemma {:induction false} SectorsAscend(m: nat, n: nat)
    requires m <= n
    ensures SectorsFor(m) <= SectorsFor(n)
  {
  }

  /** A write only finds a sector missing if its end is not counted right. */
  lemma {:induction false} StoppedWrong(
      d: Disk, d': Disk, now: nat, h: nat, start: nat, input: seq<Byte>, written: seq<Byte>)
    requires d.Ok() && h in d.files && |written| < |input|
    requires Stopped(d, d', SizeOf(d.dir, d.ix, h), now, h, EndOfWrite(start, |input|), start, written)
    ensures start + |input| >= WORD || (SizeOf(d.dir, d.ix, h) == 0 && start + |input| > WORD - SECTOR_SIZE)
  {
    hide Sound, SizeOf, Written, OnlyBlocks, Needed, KeepFor;
    var was, end := SizeOf(d.dir, d.ix, h), start + |input|;
    SizeSectors(d.m, d.dir, d.ix, d.owner, d.files, d.spareLsn, d.spareCount, h);
    if was < end < WORD {
      NeededExact(was, end);
    }
  }

  /** A call that changes the size of a file and writes nothing. */
  lemma {:induction false} SizeDone(d: Disk, d': Disk, h: nat)
    requires d.Ok() && d'.Ok() && h in d.files && h in d'.files && d'.data == d.data
    requires d.files[h] <= d'.files[h] || d'.files[h] <= d.files[h]
    requires Untouched(d.dir, d.ix, d.files, d'.dir, d'.ix, d'.files, h)
    ensures Described(d.dir, d.ix, d.files) && Described(d'.dir, d'.ix, d'.files) && h < |d.dir| == |d'.dir|
    ensures SameHead(d.dir[h], d'.dir[h]) && d'.Stored() == d.Stored()[d.dir[h].name := d'.Bytes(h)]
    ensures
      var was, now := d.Bytes(h), d'.Bytes(h);
      if |now| <= |was| then now == was[..|now|] else now[..|was|] == was
  {
    hide Sound, Store, SizeOf, Untouched, Content;
    NothingKept(d, d', h);
    FileChanged(d, d', h);
    SizeSectors(d.m, d.dir, d.ix, d.owner, d.files, d.spareLsn, d.spareCount, h);
    SizeSectors(d'.m, d'.dir, d'.ix, d'.owner, d'.files, d'.spareLsn, d'.spareCount, h);
    var m, n := SizeOf(d.dir, d.ix, h), SizeOf(d'.dir, d'.ix, h);
    if m <= n {
      ContentPrefix(d.data, SECTOR_SIZE, d.files[h], d'.files[h], m, n);
    } else {
      ContentPrefix(d.data, SECTOR_SIZE, d'.files[h], d.files[h], n, m);
    }
  }

  /** Bytes that have the same sectors, size and data. */
  lemma {:induction false} BytesSame(d: Disk, d': Disk, h: nat)
    requires h in d.files && d'.files == d.files && d'.data == d.data
    requires SizeOf(d'.dir, d'.ix, h) == SizeOf(d.dir, d.ix, h)
    ensures d'.Bytes(h) == d.Bytes(h)
  {
    hide Content, SizeOf;
  }

  /** A write into an empty file that stops has written nothing. */
  lemma {:induction false} EmptyStopped(d: Disk, d': Disk, now: nat, h: nat, input: seq<Byte>, written: seq<Byte>)
    requires h in d.files && d.files[h] == [] && WORD - SECTOR_SIZE < |input| < WORD
    requires Stopped(d, d', 0, now, h, EndOfWrite(0, |input|), 0, written)
    ensures written == [] && now == 0 && h in d'.files && d'.files[h] == []
  {
    hide SizeOf, InSectors, Needed, KeepFor;
    NeededExact(0, |input|);
    var grown: seq<nat> :| d.files[h] <= grown && |grown| == Needed(0, |input|) && EndsAtLast(grown, 0, written)
      && d'.files[h] == grown[..Min(KeepFor(now), |grown|)];
  }

  lemma {:induction false} EmptyBytes(d: Disk, h: nat)
    requires d.Ok() && h in d.files && d.files[h] == []
    ensures SizeOf(d.dir, d.ix, h) == 0 && d.Bytes(h) == []
  {
    hide Sound, SizeOf;
    SizeSectors(d.m, d.dir, d.ix, d.owner, d.files, d.spareLsn, d.spareCount, h);
  }

  /** A call that takes a file away. */
  lemma {:induction false} FileGone(d: Disk, d': Disk, h: nat)
    requires d.Ok() && d'.Ok() && h in d.files && h !in d'.files && d'.data == d.data
    requires Untouched(d.dir, d.ix, d.files, d'.dir, d'.ix, d'.files, h)
    ensures Described(d.dir, d.ix, d.files) && Described(d'.dir, d'.ix, d'.files) && h < |d.dir|
    ensures d'.Stored() == d.Stored() - {d.dir[h].name}
  {
    hide Sound, Store, DirOk, SameFile, FileBytes;
    DiskDescribed(d);
    DiskDescribed(d');
    StoreAfter(d.dir, d.ix, d.files, d.data, d'.dir, d'.ix, d'.files, d'.data, h);
  }

  /** A call that makes an empty file. */
  lemma {:induction false} FileNew(d: Disk, d': Disk, h: nat)
    requires d.Ok() && d'.Ok() && h !in d.files && h in d'.files && d'.data == d.data
    requires Untouched(d.dir, d.ix, d.files, d'.dir, d'.ix, d'.files, h) && SizeOf(d'.dir, d'.ix, h) == 0
    ensures Described(d.dir, d.ix, d.files) && Described(d'.dir, d'.ix, d'.files) && h < |d'.dir|
    ensures d'.Stored() == d.Stored()[d'.dir[h].name := []] && d'.Bytes(h) == []
  {
    hide Sound, Store, DirOk, SameFile, SizeOf;
    DiskDescribed(d);
    DiskDescribed(d');
    StoreAfter(d.dir, d.ix, d.files, d.data, d'.dir, d'.ix, d'.files, d'.data, h);
    assert d.Stored() - {} == d.Stored();
  }

  /** A call that gives a file another name or protection. */
  lemma {:induction false} FileHeaded(d: Disk, d': Disk, h: nat)
    requires d.Ok() && d'.Ok() && h in d.files && d'.files == d.files && d'.data == d.data
    requires OthersSame(d.dir, d.ix, d'.dir, d'.ix, h) && SizeOf(d'.dir, d'.ix, h) == SizeOf(d.dir, d.ix, h)
    ensures Headed(d, d', h)
  {
    hide Sound, Store, DirOk, SameFile, SizeOf, OthersSame, Disk.Locked;
    DiskDescribed(d);
    DiskDescribed(d');
    BytesSame(d, d', h);
    StoreOf(d, d', h);
    LockedAfter(d, d', h);
  }

  lemma {:induction false} StoreOf(d: Disk, d': Disk, h: nat)
    requires d.Ok() && d'.Ok() && h in d.files && d'.files == d.files && d'.data == d.data
    requires OthersSame(d.dir, d.ix, d'.dir, d'.ix, h)
    ensures Described(d.dir, d.ix, d.files) && Described(d'.dir, d'.ix, d'.files) && h < |d.dir| == |d'.dir|
    ensures d'.Stored() == (d.Stored() - {d.dir[h].name})[d'.dir[h].name := d'.Bytes(h)]
  {
    hide Sound, Store, DirOk, SameFile, FileBytes;
    DiskDescribed(d);
    DiskDescribed(d');
    StoreAfter(d.dir, d.ix, d.files, d.data, d'.dir, d'.ix, d'.files, d'.data, h);
  }

  /** A file keeps its bytes, which are under the name it has now, and it is as
      protected as its header says; nothing else changes. */
  ghost predicate Headed(d: Disk, d': Disk, h: nat) {
    && Described(d.dir, d.ix, d.files) && Described(d'.dir, d'.ix, d'.files) && h in d.files && h in d'.files
    && h < |d.dir| == |d'.dir| && d'.Bytes(h) == d.Bytes(h)
    && d'.Stored() == (d.Stored() - {d.dir[h].name})[d'.dir[h].name := d.Bytes(h)]
    && d'.Locked() == d.Locked() - {d.dir[h].name} + if d'.dir[h].protected then {d'.dir[h].name} else {}
  }

  lemma {:induction false} LockedIs(d: Disk, h: nat)
    requires d.Ok() && h in d.files
    ensures h < |d.dir| && (d.dir[h].name in d.Locked() <==> d.dir[h].protected)
  {
    hide Sound;
    DiskDescribed(d);
    if d.dir[h].name in d.Locked() {
      var k: nat :| k in d.files && k < |d.dir| && d.dir[k].protected && d.dir[k].name == d.dir[h].name;
      if k != h {
        OneHeader(d, h, k);
      }
    }
  }

  lemma {:induction false} HeadSame(d: Disk, d': Disk, h: nat, k: nat)
    requires d.Ok() && d'.Ok() && OthersSame(d.dir, d.ix, d'.dir, d'.ix, h) && k in d.files && k != h
    ensures k in d'.files && k < |d.dir| == |d'.dir| && d'.dir[k] == d.dir[k]
  {
    hide ChainSectors, Partition, Link;
    HeadLive(d.dir, d.ix, k);
    SameChain(d.dir, d.ix, d'.dir, d'.ix, k);
  }

  /** A change to one file leaves the others as protected as they are. */
  lemma {:induction false} LockedAfter(d: Disk, d': Disk, h: nat)
    requires d.Ok() && d'.Ok() && OthersSame(d.dir, d.ix, d'.dir, d'.ix, h)
    ensures h in d.files ==> h < |d.dir|
    ensures h in d'.files ==> h < |d'.dir|
    ensures
      var rest := d.Locked() - if h in d.files then {d.dir[h].name} else {};
      d'.Locked() == rest + if h in d'.files && d'.dir[h].protected then {d'.dir[h].name} else {}
  {
    hide Sound, DirOk, SameFile;
    DiskDescribed(d);
    DiskDescribed(d');
    forall k: nat | k in d'.files && k != h
      ensures k in d.files && d'.dir[k] == d.dir[k]
    {
      assert k in d'.ix.chains && k in d.ix.chains;
      HeadSame(d, d', h, k);
    }
    forall k: nat | k in d.files && k != h
      ensures k in d'.files && d'.dir[k] == d.dir[k]
    {
      HeadSame(d, d', h, k);
    }
    if h in d.files {
      forall k: nat | k in d.files && k != h
        ensures d.dir[k].name != d.dir[h].name
      {
        OneHeader(d, h, k);
      }
    }
  }

  lemma {:induction false} LockedKept(d: Disk, d': Disk, h: nat)
    requires d.Ok() && d'.Ok() && Untouched(d.dir, d.ix, d.files, d'.dir, d'.ix, d'.files, h)
    requires h in d.files && h in d'.files
    ensures d'.Locked() == d.Locked()
  {
    hide Sound, OthersSame, Disk.Locked;
    DiskDescribed(d);
    DiskDescribed(d');
    LockedAfter(d, d', h);
    LockedIs(d, h);
    assert SameHead(d.dir[h], d'.dir[h]);
  }

  lemma {:induction false} LockedSame(d: Disk, h: nat)
    requires d.Ok() && h in d.files
    ensures h < |d.dir|
    ensures d.Locked() == d.Locked() - {d.dir[h].name} + if d.dir[h].protected then {d.dir[h].name} else {}
  {
    hide Sound, Disk.Locked;
    LockedIs(d, h);
  }

  /** A file that goes or is made is not protected. */
  lemma {:induction false} LockedGone(d: Disk, d': Disk, h: nat)
    requires d.Ok() && d'.Ok() && Untouched(d.dir, d.ix, d.files, d'.dir, d'.ix, d'.files, h)
    requires h in d.files && h !in d'.files && h < |d.dir| && !d.dir[h].protected
    ensures d'.Locked() == d.Locked()
  {
    hide Sound, OthersSame, Disk.Locked;
    LockedAfter(d, d', h);
    LockedIs(d, h);
  }

  lemma {:induction false} LockedNew(d: Disk, d': Disk, h: nat)
    requires d.Ok() && d'.Ok() && Untouched(d.dir, d.ix, d.files, d'.dir, d'.ix, d'.files, h)
    requires h !in d.files && h in d'.files && h < |d'.dir| && !d'.dir[h].protected
    ensures d'.Locked() == d.Locked()
  {
    hide Sound, OthersSame, Disk.Locked;
    LockedAfter(d, d', h);
  }

  /** Which header has a name. */
  lemma {:induction false} NameFound(d: Disk, name: Name)
    requires d.Ok()
    ensures Described(d.dir, d.ix, d.files) && |d.dir| == |d.ix.place| == MAX_ENTRIES
    ensures forall h: nat :: h in d.files ==> h < |d.dir| && d.dir[h].name in d.Stored()
    ensures name in d.Stored() <==> exists h: nat :: h in d.files && d.dir[h].name == name
    ensures forall h: nat :: h < MAX_ENTRIES ==> (h in d.files <==> !d.dir[h].deleted && !d.dir[h].continuation)
  {
    hide Partition, Store, EndFlags, NamesDiffer, FileBytes;
    DiskDescribed(d);
    forall h: nat | h in d.files
      ensures h < |d.dir| && d.dir[h].name in d.Stored()
    {
      StoreHas(d.dir, d.ix, d.files, d.data, h);
    }
    if name in d.Stored() {
      var h := StoreFile(d.dir, d.ix, d.files, d.data, name);
    }
    forall h: nat | h < MAX_ENTRIES
      ensures h in d.files <==> !d.dir[h].deleted && !d.dir[h].continuation
    {
      Headers(d.dir, d.ix, h);
    }
  }

  lemma {:induction false} OneHeader(d: Disk, h: nat, k: nat)
    requires d.Ok() && h in d.files && k in d.files && h != k
    ensures Described(d.dir, d.ix, d.files) && h < |d.dir| && k < |d.dir| && d.dir[h].name != d.dir[k].name
  {
    hide Partition;
    DiskDescribed(d);
  }

  lemma {:induction false} NoMoreFiles(d: Disk, i: nat, e: nat)
    requires d.Ok() && i <= e < |d.dir| && d.dir[i].end
    ensures d.dir[e].deleted
  {
    hide Partition;
  }

  /** In every state that calls leave: a sector of the disk is marked used exactly
      when it is on the directory track or its copy, or set aside for the open
      file, or a sector of a file; and it is only one of these, of one file,
      once.  The files are those that the directory has headers for, and their
      sectors those of its extents. */
  lemma {:induction false} EverySector(d: Disk, l: nat)
    requires d.Ok() && l < d.m.total
    ensures |d.m.bits| == MAX_LSN && l < MAX_LSN && |d.dir| == MAX_ENTRIES
    ensures !d.m.bits[l] <==>
      || IsReserved(d.m, l) || d.spareLsn <= l < d.spareLsn + d.spareCount
      || exists h: nat, i: nat :: HasSector(d.files, h, i, l)
    ensures !(IsReserved(d.m, l) && d.spareLsn <= l < d.spareLsn + d.spareCount)
    ensures forall h: nat, i: nat :: HasSector(d.files, h, i, l) ==>
      !IsReserved(d.m, l) && !(d.spareLsn <= l < d.spareLsn + d.spareCount)
    ensures forall h: nat, i: nat, h': nat, i': nat :: HasSector(d.files, h, i, l) && HasSector(d.files, h', i', l) ==>
      h == h' && i == i'
    ensures d.m.directory == 360 || d.m.directory == 720
    ensures
      var sides := d.m.directory / 360;
      IsReserved(d.m, l) <==> 360 * sides <= l < 360 * sides + 18 || 288 * sides <= l < 288 * sides + 18
    ensures forall h: nat :: h < MAX_ENTRIES ==> (h in d.files <==> !d.dir[h].deleted && !d.dir[h].continuation)
    ensures forall h: nat :: h in d.files ==>
      h in d.ix.chains && InDir(d.dir, d.ix.chains[h]) && d.files[h] == ChainSectors(d.dir, d.ix.chains[h])
  {
    hide ChainSectors, Fits, Sectored, Store;
    UsedExactly(d.m, d.owner, d.files, d.spareLsn, d.spareCount, l);
    NameFound(d, "");
    forall h: nat | h in d.files
      ensures h in d.ix.chains && InDir(d.dir, d.ix.chains[h]) && d.files[h] == ChainSectors(d.dir, d.ix.chains[h])
    {
      SoundInDir(d.m, d.dir, d.ix, d.owner, d.files, d.spareLsn, d.spareCount, h);
    }
  }
}
