/** A Dragon DOS disk with a path open on it, as the library's functions change
    them.  A writer is alone on a disk, so there is one path. */
module DragonVolume {
  import opened Bits
  import opened Blocks
  import opened DragonBitmap
  import opened DragonOwner
  import opened DragonDir
  import opened DragonChange
  import opened DragonCut
  import opened DragonSound
  import opened DragonGrow
  import opened DragonContent

  datatype Whence = FromStart | FromPosition | FromEnd

  /** What a call returns: 0, EOS_PNNF, EOS_FAE, EOS_FNA, EOS_DF, EOS_BMODE,
      EOS_EOF, EOS_SE. */
  datatype Status = Done | NotFound | Exists | Protected | Full | BadMode | EndOfFile | BadSeek

  /** What a write does with the disk and the size of the path, by the status it
      returns. */
  ghost predicate WriteOutcome(
      d: Disk, d': Disk, was: nat, now: nat, h: nat, start: nat, input: seq<Byte>, status: Status, count: nat)
  {
    match status
    case Done =>
      && count == |input|
      && if input == [] then d' == d && now == was
         else Finished(d, d', was, now, h, EndOfWrite(start, |input|), start, input)
    case EndOfFile =>
      count < |input| && Stopped(d, d', was, now, h, EndOfWrite(start, |input|), start, input[..count])
    case Full => count == 0 && d'.data == d.data && now == was
    case _ => count == 0 && d' == d && now == was
  }

  lemma {:induction false} WriteGains(
      d: Disk, d': Disk, was: nat, now: nat, h: nat, start: nat, input: seq<Byte>, count: nat)
    requires d.Ok() && d'.Ok() && h in d.files && WriteOutcome(d, d', was, now, h, start, input, Done, count)
    ensures Gaining(d, d', h)
  {
    hide Disk.Ok, Reached, InSectors, Gaining;
    if input == [] {
      NoGain(d, d', h);
    } else {
      ReachedGains(d, d', was, now, h, EndOfWrite(start, |input|));
    }
  }

  class Volume {
    const bitmap: Bitmap
    const dir: array<Entry>
    const data: array<seq<Byte>>
    // The open path.
    var isOpen: bool
    var canRead: bool
    var canWrite: bool
    var entryIndex: nat
    var filesize: nat
    var filepos: nat
    var spareLsn: nat
    var spareCount: nat
    // What the directory and the map mean.
    ghost var ix: Index
    ghost var owner: seq<Owner>
    ghost var files: Files

    ghost predicate Shape()
      reads this
    {
      && bitmap.Valid() && dir.Length == MAX_ENTRIES && data.Length == MAX_LSN
    }

    ghost predicate SoundNow()
      reads this, dir, bitmap.sectors
    {
      Shape() && Sound(bitmap.State(), dir[..], ix, owner, files, spareLsn, spareCount) && spareCount <= MAX_EXTENT
    }

    ghost predicate Steady()
      reads this, dir, data, bitmap.sectors
    {
      SoundNow() && Sectored(data[..]) && Tails(dir[..], ix)
    }

    /** What holds between calls. */
    ghost predicate Valid()
      reads this, dir, data, bitmap.sectors
    {
      Steady() && if isOpen then entryIndex in files && filepos <= MAX_LSN * SECTOR_SIZE else spareCount == 0
    }

    /** The path has the size that the directory describes. */
    ghost predicate Exact()
      reads this, dir
    {
      isOpen ==> filesize == SizeOf(dir[..], ix, entryIndex)
    }

    ghost function State(): (d: Disk)
      requires Valid()
      reads this, dir, data, bitmap.sectors
      ensures d.Ok()
    {
      Disk(bitmap.State(), dir[..], ix, owner, files, spareLsn, spareCount, data[..])
    }

    /** The files on the disk, by name. */
    ghost function Stored(): map<Name, seq<Byte>>
      requires Valid()
      reads this, dir, data, bitmap.sectors
    {
      DiskDescribed(State());
      State().Stored()
    }

    /** The names of the files that are protected. */
    ghost function Locked(): set<Name>
      requires Valid()
      reads this, dir, data, bitmap.sectors
    {
      State().Locked()
    }

    /** The header and the bytes of the open file. */
    ghost function Header(): Entry
      requires Valid() && isOpen
      reads this, dir, data, bitmap.sectors
    {
      DiskDescribed(State());
      dir[entryIndex]
    }

    ghost function Bytes(): seq<Byte>
      requires Valid() && isOpen
      reads this, dir, data, bitmap.sectors
    {
      State().Bytes(entryIndex)
    }

    /** The sectors free or set aside for the open file. */
    ghost function Room(): nat
      requires Shape()
      reads this, bitmap.sectors
    {
      bitmap.State().FreeCount() + spareCount
    }

    /** The sectors free, set aside for the open file or in it. */
    ghost function SectorsHeld(): nat
      requires Shape()
      reads this, bitmap.sectors
    {
      Room() + if entryIndex in files then |files[entryIndex]| else 0
    }

    /** The entries free or in the open file's chain. */
    ghost function EntriesHeld(): nat
      reads this, dir
    {
      FreeEntries(dir[..]) + if entryIndex in ix.chains then |ix.chains[entryIndex]| else 0
    }

    /** The part of _dragondos_dskinit that fills in the bitmap. */
    method Format()
      requires bitmap.Valid() && bitmap.directory + TRACK <= bitmap.total
      requires forall l :: 0 <= l < MAX_LSN ==> !bitmap.sectors[l]
      modifies bitmap.sectors
      ensures
        var m := bitmap.State();
        && (forall l: nat :: l < MAX_LSN ==> (m.bits[l] <==> l < m.total && !IsReserved(m, l)))
        && m.FreeCount() + 2 * TRACK == m.total
    {
      hide Map.FreeCount;
      ghost var m0 := bitmap.State();
      NoneFree(m0);
      RunCounts(m0, 0, m0.total, true);
      bitmap.Release(0, bitmap.total);
      ghost var m1 := bitmap.State();
      RunCounts(m1, bitmap.directory, TRACK, false);
      bitmap.Reserve(bitmap.directory);
      ghost var m2 := bitmap.State();
      RunCounts(m2, bitmap.directory - bitmap.directory / 5, TRACK, false);
      bitmap.Reserve(bitmap.directory - bitmap.directory / 5);
    }

    /** _dragondos_dskinit: a blank disk.  Another geometry is an error. */
    constructor (tracks: nat, sides: nat)
      requires 20 < tracks && (sides == 1 || sides == 2) && tracks * TRACK * sides <= MAX_LSN
      ensures Valid() && !isOpen && files == map[] && Stored() == map[]
      ensures FreeEntries(dir[..]) == MAX_ENTRIES - 1 && forall e: nat :: e < MAX_ENTRIES ==> dir[e].deleted
      ensures Room() + 2 * TRACK == tracks * TRACK * sides
      ensures fresh(bitmap) && fresh(bitmap.sectors) && fresh(dir) && fresh(data)
      ensures forall e: nat :: e < MAX_ENTRIES ==> dir[e].end && dir[e].continuation && !dir[e].protected
      ensures forall l: nat :: l < MAX_LSN ==> data[l] == seq(256, j => 0xE5)
      ensures bitmap.total == tracks * 18 * sides && bitmap.directory == 360 * sides && spareCount == 0
      ensures forall l: nat :: l < tracks * 18 * sides ==>
        (bitmap.sectors[l] <==>
          !(360 * sides <= l < 360 * sides + 18) && !(288 * sides <= l < 288 * sides + 18))
    {
      hide Sound, Map.FreeCount, FreeEntries, Tails, Store, Disk.Stored, Described;
      var total := tracks * TRACK * sides;
      var b := new Bitmap(total, 20 * TRACK * sides);
      bitmap := b;
      dir := new Entry[MAX_ENTRIES](i => Entry(true, false, true, false, true, "", NoExtents(7), 0));
      data := new seq<Byte>[MAX_LSN](i => seq(SECTOR_SIZE, j => 0xE5));
      isOpen, canRead, canWrite := false, false, false;
      entryIndex, filesize, filepos, spareLsn, spareCount := 0, 0, 0, 0, 0;
      files := map[];
      ix := Index(map[], seq(MAX_ENTRIES, i => Place(0, 0)));
      new;
      Format();
      owner := Blank(bitmap.State(), dir[..], ix);
      AllDeleted(dir[..]);
      NoFiles(State());
    }

    /** The open file grows by the first of the sectors set aside for it, in an
        extent of its last entry that is empty or that they follow. */
    method UseSpare(entry: nat, extent: nat, used: nat)
      requires SoundNow() && entryIndex in files && entry == Last(ix.chains[entryIndex]) && used <= spareCount
      requires entry < MAX_ENTRIES && GoesOn(dir[..], ix, entryIndex, extent, spareLsn)
      requires dir[entry].extents[extent].count + used <= MAX_EXTENT
      modifies this`spareLsn, this`spareCount, this`owner, this`files, dir
      ensures SoundNow() && Untouched(old(dir[..]), ix, old(files), dir[..], ix, files, entryIndex)
      ensures files == old(files)[entryIndex := old(files[entryIndex]) + Range(old(spareLsn), used)]
      ensures spareLsn == old(spareLsn) + used && spareCount == old(spareCount) - used
      ensures FreeEntries(dir[..]) == FreeEntries(old(dir[..]))
      ensures Lengthened(old(dir[..]), ix.chains[entryIndex], dir[..], ix.chains[entryIndex])
      ensures
        var x := old(dir[entry].extents[extent]);
        dir[..] == old(dir[..])[entry := SetExtent(old(dir[entry]), extent, Extent(x.lsn, x.count + used))]
    {
      hide Sound, Untouched, GiveFile, Range, FreeEntries, Lengthened;
      var x := dir[entry].extents[extent];
      SpareUsed(bitmap.State(), dir[..], ix, owner, files, spareLsn, spareCount, entryIndex, extent, used);
      dir[entry] := SetExtent(dir[entry], extent, Extent(x.lsn, x.count + used));
      EntriesSame(old(dir[..]), dir[..]);
      owner := GiveFile(owner, spareLsn, used, entryIndex, |files[entryIndex]|);
      files := files[entryIndex := files[entryIndex] + Range(spareLsn, used)];
      spareCount := spareCount - used;
      spareLsn := spareLsn + used;
    }

    /** _dd_find_free_entry: the first deleted entry from one on. */
    method FindFreeEntry(first: nat) returns (ok: bool, index: nat)
      requires Shape()
      ensures ok ==> first <= index < MAX_ENTRIES && dir[index].deleted
      ensures ok ==> forall i: nat :: first <= i < index ==> !dir[i].deleted
      ensures !ok ==> forall i: nat :: first <= i < MAX_ENTRIES ==> !dir[i].deleted
    {
      index := first;
      while index < MAX_ENTRIES
        invariant first <= index
        invariant forall i: nat :: first <= i < index && i < MAX_ENTRIES ==> !dir[i].deleted
        decreases MAX_ENTRIES - index
      {
        if dir[index].deleted {
          return true, index;
        }
        index := index + 1;
      }
      ok := false;
    }

    /** add_continuation: chain a new entry onto the open file's last. */
    method AddContinuation(entry: nat) returns (ok: bool, added: nat)
      requires SoundNow() && entryIndex in files && entry == Last(ix.chains[entryIndex])
      modifies this`ix, dir
      ensures SoundNow() && Untouched(old(dir[..]), old(ix), files, dir[..], ix, files, entryIndex)
      ensures !ok ==> dir[..] == old(dir[..]) && ix == old(ix)
      ensures !ok ==> FreeEntries(dir[..]) == 0
      ensures ok ==> added < MAX_ENTRIES && dir[added] == NewContinuation()
      ensures ok ==> old(dir[added].deleted) && forall i: nat :: 1 <= i < added ==> !old(dir[i].deleted)
      ensures ok ==> dir[entry].continued && dir[entry].lastOrNext == added
      ensures ok ==> FreeEntries(dir[..]) + 1 == FreeEntries(old(dir[..]))
      ensures ok ==>
        ix.chains.Keys == old(ix.chains.Keys) && ix.chains[entryIndex] == old(ix.chains[entryIndex]) + [added]
      ensures ok ==> Lengthened(old(dir[..]), old(ix.chains[entryIndex]), dir[..], ix.chains[entryIndex])
    {
      hide Sound, Untouched, FreeEntries, Lengthened;
      ok, added := FindFreeEntry(1);
      if !ok {
        NoEntries(dir[..]);
        UntouchedSelf(dir[..], ix, files, entryIndex);
        return;
      }
      EntryRange(bitmap.State(), dir[..], ix, owner, files, spareLsn, spareCount, entryIndex);
      Continued(bitmap.State(), dir[..], ix, owner, files, spareLsn, spareCount, entryIndex, added);
      dir[entry] := dir[entry].(continued := true, lastOrNext := added);
      dir[added] := NewContinuation();
      EntryTaken(old(dir[..]), dir[..], added);
      ix := IndexMore(ix, entryIndex, added);
    }

    /** The part of find_last_extent for the last entry. */
    method LastExtentOf(entry: nat) returns (extent: int)
      requires Shape() && entry < MAX_ENTRIES && Compact(dir[entry].extents)
      ensures UsedTo(dir[entry], extent)
    {
      extent := -1;
      while extent + 1 < |dir[entry].extents| && dir[entry].extents[extent + 1].count != 0
        invariant -1 <= extent < |dir[entry].extents|
        invariant forall k: nat :: k <= extent ==> dir[entry].extents[k].count > 0
      {
        extent := extent + 1;
      }
    }

    /** find_last_extent: the open file's last entry, and the last extent in use
        in it, or -1.  It would fail on a chain with a loop. */
    method FindLastExtent() returns (ok: bool, entry: nat, extent: int)
      requires SoundNow() && entryIndex in files
      ensures ok && entryIndex in ix.chains && |ix.chains[entryIndex]| > 0
      ensures entry == Last(ix.chains[entryIndex]) < MAX_ENTRIES
      ensures !dir[entry].deleted && UsedTo(dir[entry], extent)
    {
      hide Sound, Compact, UsedTo;
      SoundBounds(bitmap.State(), dir[..], ix, owner, files, spareLsn, spareCount, entryIndex);
      ghost var chain := ix.chains[entryIndex];
      var guard := 0;
      entry := entryIndex;
      SoundEntry(bitmap.State(), dir[..], ix, owner, files, spareLsn, spareCount, entryIndex, 0);
      while guard + 1 < MAX_ENTRIES && dir[entry].continued
        invariant guard < |chain| && entry == chain[guard] < MAX_ENTRIES && EntryOk(dir[entry])
        invariant dir[entry].continued <==> guard + 1 < |chain|
        invariant guard + 1 < |chain| ==> dir[entry].lastOrNext == chain[guard + 1]
      {
        guard := guard + 1;
        entry := dir[entry].lastOrNext;
        SoundEntry(bitmap.State(), dir[..], ix, owner, files, spareLsn, spareCount, entryIndex, guard);
      }
      ok := !dir[entry].continued;
      extent := LastExtentOf(entry);
    }

    /** Set a run aside for the open file, none being set aside. */
    method AllocateSpare(hint: nat) returns (ok: bool)
      requires SoundNow() && spareCount == 0
      modifies this`spareLsn, this`spareCount, this`owner, bitmap.sectors
      ensures SoundNow() && ok == exists l: nat :: old(bitmap.State()).Free(l)
      ensures ok ==> old(bitmap.State()).Free(spareLsn) && spareCount > 0
      ensures ok ==> (old(bitmap.State()).Free(hint) && hint != NO_HINT ==> spareLsn == hint)
      ensures ok ==> RunChosen(old(bitmap.State()), hint, Run(spareLsn, spareCount))
      ensures bitmap.State() ==
        if ok then old(bitmap.State()).With(spareLsn, spareCount, false) else old(bitmap.State())
      ensures !ok ==> spareLsn == old(spareLsn) && spareCount == 0
      ensures Room() == old(Room()) && (!ok ==> Room() == 0)
    {
      hide DirOk, ChainSectors, Fits, Map.FreeCount;
      ghost var m := bitmap.State();
      var lsn, count;
      ok, lsn, count := bitmap.Allocate(hint);
      if ok {
        ChosenFree(m, hint, lsn);
        SetAside(m, owner, files, spareLsn, lsn, count);
        owner := Give(owner, lsn, count, Spare);
        spareLsn, spareCount := lsn, count;
      } else {
        NoneFree(m);
      }
    }

    /** Set a run aside for the open file in place of the one that is, if the disk
        has a free sector. */
    method ExchangeSpare(hint: nat) returns (ok: bool)
      requires SoundNow()
      modifies this`spareLsn, this`spareCount, this`owner, bitmap.sectors
      ensures SoundNow() && ok == exists l: nat :: old(bitmap.State()).Free(l)
      ensures ok ==> old(bitmap.State()).Free(spareLsn) && spareCount > 0
      ensures ok ==> (old(bitmap.State()).Free(hint) && hint != NO_HINT ==> spareLsn == hint)
      ensures ok ==> RunChosen(old(bitmap.State()), hint, Run(spareLsn, spareCount))
      ensures
        var m := old(bitmap.State()).With(spareLsn, spareCount, false);
        ok ==> bitmap.State() == m.With(old(spareLsn), old(spareCount), true)
      ensures !ok ==>
        bitmap.State() == old(bitmap.State()) && spareLsn == old(spareLsn) && spareCount == old(spareCount)
      ensures ok && hint < MAX_LSN && !(old(spareLsn) <= hint < old(spareLsn) + old(spareCount)) ==>
        !bitmap.State().Free(hint)
      ensures Room() == old(Room())
    {
      hide DirOk, ChainSectors, Fits, Map.FreeCount;
      ghost var m := bitmap.State();
      var lsn, count;
      ok, lsn, count := bitmap.Allocate(hint);
      if ok {
        ChosenFree(m, hint, lsn);
        Exchange(m, owner, files, spareLsn, spareCount, lsn, count);
        bitmap.Release(spareLsn, spareCount);
        owner := Give(Give(owner, spareLsn, spareCount, Free), lsn, count, Spare);
        spareLsn, spareCount := lsn, count;
      }
    }

    /** The last entry in hand while the open file grows. */
    ghost predicate AtLast(entry: nat, extent: int)
      reads this, dir, bitmap.sectors
    {
      && SoundNow() && entryIndex in files && entryIndex in ix.chains && |ix.chains[entryIndex]| > 0
      && entry == Last(ix.chains[entryIndex]) && entry < MAX_ENTRIES && UsedTo(dir[entry], extent)
    }

    /** How many extents the open file can begin after one. */
    ghost function SlotsLeft(extent: int): int
      reads this, dir
    {
      if entryIndex in ix.chains && |ix.chains[entryIndex]| > 0 && Last(ix.chains[entryIndex]) < dir.Length then
        SlotsFrom(dir[..], ix.chains[entryIndex], extent)
      else 0
    }

    /** The extent in hand, some having been begun. */
    ghost predicate InHand(entry: nat, extent: int, f: Fill)
      requires AtLast(entry, extent)
      reads this, dir, bitmap.sectors
    {
      f.inUse == (extent >= 0) && f.count == if extent >= 0 then dir[entry].extents[extent].count else 0
    }

    /** The sectors set aside go in the extent in hand if they follow it. */
    ghost predicate Follows(entry: nat, extent: int)
      requires AtLast(entry, extent)
      reads this, dir, bitmap.sectors
    {
      extent >= 0 && End(dir[entry].extents[extent]) == spareLsn
    }

    /** The extent after the one in hand: the next of the entry, or the first of a
        continuation. */
    method NextExtent(entry: nat, extent: int) returns (ok: bool, entry': nat, extent': nat)
      requires AtLast(entry, extent)
      modifies this`ix, dir
      ensures SoundNow() && Untouched(old(dir[..]), old(ix), files, dir[..], ix, files, entryIndex)
      ensures !ok ==> dir[..] == old(dir[..]) && ix == old(ix)
      ensures !ok ==> FreeEntries(dir[..]) == 0 && extent + 1 >= |dir[entry].extents|
      ensures ok ==> AtLast(entry', extent' - 1) && extent' < |dir[entry'].extents|
      ensures ok ==> SlotsLeft(extent') + 1 == old(SlotsLeft(extent))
      ensures !ok ==> SlotsLeft(extent) == 0
      ensures ok ==> NextSlot(old(dir[..]), old(ix.chains[entryIndex]), extent, dir[..], ix.chains[entryIndex], extent')
      ensures ok ==> Lengthened(old(dir[..]), old(ix.chains[entryIndex]), dir[..], ix.chains[entryIndex])
    {
      hide Sound, Untouched, FreeEntries, Lengthened;
      SoundBounds(bitmap.State(), dir[..], ix, owner, files, spareLsn, spareCount, entryIndex);
      SoundInDir(bitmap.State(), dir[..], ix, owner, files, spareLsn, spareCount, entryIndex);
      ok, entry' := true, entry;
      if extent + 1 >= |dir[entry].extents| {
        ok, entry' := AddContinuation(entry);
        extent' := 0;
      } else {
        UntouchedSelf(dir[..], ix, files, entryIndex);
        LengthenedSelf(dir[..], ix.chains[entryIndex]);
        extent' := extent + 1;
      }
    }

    /** Begin an extent with the sectors set aside, and give it some of them. */
    method StartExtent(entry: nat, extent: nat, used: nat)
      requires AtLast(entry, extent - 1) && extent < |dir[entry].extents| && 0 < used <= spareCount
      requires used <= MAX_EXTENT
      modifies this`spareLsn, this`spareCount, this`owner, this`files, dir
      ensures AtLast(entry, extent) && Untouched(old(dir[..]), ix, old(files), dir[..], ix, files, entryIndex)
      ensures FreeEntries(dir[..]) == FreeEntries(old(dir[..])) && |dir[entry].extents| == old(|dir[entry].extents|)
      ensures dir[entry].extents[extent].count == used
      ensures files == old(files)[entryIndex := old(files[entryIndex]) + Range(old(spareLsn), used)]
      ensures spareLsn == old(spareLsn) + used && spareCount == old(spareCount) - used
      ensures Lengthened(old(dir[..]), ix.chains[entryIndex], dir[..], ix.chains[entryIndex])
    {
      hide Sound, Untouched, Range, FreeEntries, Lengthened;
      ghost var dir0, files0, chain := dir[..], files, ix.chains[entryIndex];
      SlotStarted(bitmap.State(), dir0, ix, owner, files, spareLsn, spareCount, entryIndex, extent, spareLsn);
      NextUsed(dir[entry], extent, spareLsn, used);
      dir[entry] := SetExtent(dir[entry], extent, Extent(spareLsn, 0));
      EntriesSame(dir0, dir[..]);
      ghost var dir1 := dir[..];
      UseSpare(entry, extent, used);
      LengthenedTwice(dir0, chain, dir1, chain, dir[..], chain);
      UntouchedTwice(dir0, ix, files0, dir1, ix, files0, dir[..], ix, files, entryIndex);
    }

    /** What grow does for a new extent. */
    method NewExtent(entry: nat, extent: int, used: nat) returns (ok: bool, entry': nat, extent': int)
      requires AtLast(entry, extent) && 0 < used <= spareCount && used <= MAX_EXTENT
      modifies this`ix, this`spareLsn, this`spareCount, this`owner, this`files, dir
      ensures SoundNow() && Untouched(old(dir[..]), old(ix), old(files), dir[..], ix, files, entryIndex)
      ensures !ok ==> dir[..] == old(dir[..]) && ix == old(ix) && files == old(files)
      ensures !ok ==> spareLsn == old(spareLsn) && spareCount == old(spareCount)
      ensures !ok ==> FreeEntries(dir[..]) == 0 && extent + 1 >= |dir[entry].extents|
      ensures ok ==> AtLast(entry', extent') && extent' >= 0 && dir[entry'].extents[extent'].count == used
      ensures if ok then SlotsLeft(extent') + 1 == old(SlotsLeft(extent)) else SlotsLeft(extent) == 0
      ensures ok ==> NextSlot(old(dir[..]), old(ix.chains[entryIndex]), extent, dir[..], ix.chains[entryIndex], extent')
      ensures ok ==> files == old(files)[entryIndex := old(files[entryIndex]) + Range(old(spareLsn), used)]
      ensures ok ==> spareLsn == old(spareLsn) + used && spareCount == old(spareCount) - used
      ensures ok ==> Lengthened(old(dir[..]), old(ix.chains[entryIndex]), dir[..], ix.chains[entryIndex])
    {
      hide Sound, Untouched, Range, FreeEntries, UsedTo, Lengthened;
      ghost var dir0, ix0, files0 := dir[..], ix, files;
      ok, entry', extent' := NextExtent(entry, extent);
      if ok {
        ghost var dir1, ix1 := dir[..], ix;
        StartExtent(entry', extent', used);
        LengthenedTwice(dir0, ix0.chains[entryIndex], dir1, ix1.chains[entryIndex], dir[..], ix.chains[entryIndex]);
        UntouchedTwice(dir0, ix0, files0, dir1, ix1, files0, dir[..], ix, files, entryIndex);
      }
    }

    /** How far the open file has grown from where it started. */
    ghost predicate Growing(s: Start, entry: nat, extent: int)
      reads this, dir, bitmap.sectors
    {
      var h := entryIndex;
      && AtLast(entry, extent) && h in s.files && h in s.ix.chains
      && Untouched(s.dir, s.ix, s.files, dir[..], ix, files, h)
      && s.files[h] <= files[h] && files == s.files[h := files[h]] && |files[h]| <= |s.files[h]| + s.needed
      && Room() + |files[h]| == s.room + |s.files[h]|
      && EntriesUsed(s.dir, s.ix.chains[h], dir[..], ix.chains[h], |files[h]| - |s.files[h]|, extent)
      && Lengthened(s.dir, s.ix.chains[h], dir[..], ix.chains[h])
    }

    /** The end of grow: the size goes in the last entry. */
    method SetLast(entry: nat, size: nat)
      requires SoundNow() && entryIndex in files && entryIndex in ix.chains && |ix.chains[entryIndex]| > 0
      requires entry == Last(ix.chains[entryIndex]) < MAX_ENTRIES && TailOk(dir[..], ix.chains[entryIndex])
      modifies this`filesize, dir
      ensures SoundNow() && Untouched(old(dir[..]), ix, files, dir[..], ix, files, entryIndex)
      ensures filesize == size && SizeOf(dir[..], ix, entryIndex) == BytesIn(|files[entryIndex]|, size % SECTOR_SIZE)
      ensures FreeEntries(dir[..]) == old(FreeEntries(dir[..])) && TailOk(dir[..], ix.chains[entryIndex])
    {
      hide Sound, Untouched, SizeOf, FreeEntries, TailOk;
      SizeSet(bitmap.State(), dir[..], ix, owner, files, spareLsn, spareCount, entryIndex, size);
      dir[entry] := dir[entry].(lastOrNext := size % SECTOR_SIZE);
      filesize := size;
    }

    /** The part of grow that gets the open file the sectors it needs, if it needs
        any.  What it had got when it fails, the file keeps. */
    method GrowBy(needed: nat) returns (ok: bool, entry: nat)
      requires SoundNow() && entryIndex in files
      requires entryIndex in ix.chains && TailOk(dir[..], ix.chains[entryIndex])
      modifies this`ix, this`spareLsn, this`spareCount, this`owner, this`files, dir, bitmap.sectors
      ensures SoundNow() && Untouched(old(dir[..]), old(ix), old(files), dir[..], ix, files, entryIndex)
      ensures entryIndex in files && old(files[entryIndex]) <= files[entryIndex]
      ensures files == old(files)[entryIndex := files[entryIndex]] && SectorsHeld() == old(SectorsHeld())
      ensures entryIndex in ix.chains && |ix.chains[entryIndex]| > 0 && TailOk(dir[..], ix.chains[entryIndex])
      ensures entry == Last(ix.chains[entryIndex]) < MAX_ENTRIES
      ensures Chained(old(dir[..]), old(ix.chains[entryIndex]), dir[..], ix.chains[entryIndex],
        |files[entryIndex]| - old(|files[entryIndex]|))
      ensures Lengthened(old(dir[..]), old(ix.chains[entryIndex]), dir[..], ix.chains[entryIndex])
      ensures ok ==> |files[entryIndex]| == old(|files[entryIndex]|) + needed
      ensures ok ==> Grew(old(bitmap.State()), Run(old(spareLsn), old(spareCount)), old(dir[..]), old(ix), entryIndex,
        old(files[entryIndex]), bitmap.State(), files[entryIndex], Run(spareLsn, spareCount))
      ensures ok ==> FileGains(old(bitmap.State()), Run(old(spareLsn), old(spareCount)), old(dir[..]), old(ix),
        entryIndex, old(files[entryIndex]), bitmap.State(), files[entryIndex], Run(spareLsn, spareCount))
      ensures ok <==>
        CanGrow(old(bitmap.State()), Run(old(spareLsn), old(spareCount)), old(dir[..]), old(ix), entryIndex, needed)
      ensures !ok ==> old(Room()) < needed || 7 * FreeEntries(old(dir[..])) < needed
    {
      hide Sound, Untouched, Range, SizeOf, Map.FreeCount, Grown, Tail, Hint, Lengthened, TailOk, EntriesUsed, RunsFit,
        CanGrow, SlotsFrom, FreeEntries, Gains, FileGains;
      ghost var h := entryIndex;
      SoundInDir(bitmap.State(), dir[..], ix, owner, files, spareLsn, spareCount, h);
      ghost var s := Start(dir[..], ix, files, Room(), needed);
      ghost var m, run := bitmap.State(), Run(spareLsn, spareCount);
      SpareWithin(m, dir[..], ix, owner, files, spareLsn, spareCount);
      var extent;
      ok, entry, extent := FindLastExtent();
      UntouchedSelf(s.dir, s.ix, s.files, h);
      LengthenedSelf(s.dir, s.ix.chains[h]);
      TailUsed(s.dir, s.ix.chains[h], extent);
      NoneUsed(s.dir, s.ix.chains[h], extent);
      HintIs(s.dir, s.ix, h, extent);
      if needed != 0 {
        CanGrowIs(bitmap.State(), Run(spareLsn, spareCount), s.dir, s.ix, h, extent,
          Fill(extent >= 0, if extent < 0 then 0 else dir[entry].extents[extent].count, 0), Hint(s.dir, s.ix, h),
          needed);
        ok, entry, extent := GrowSectors(needed, entry, extent, s);
      } else {
        NothingNeeded(bitmap.State(), Run(spareLsn, spareCount), s.dir, s.ix, h);
      }
      ChainedBy(s.dir, s.ix.chains[h], dir[..], ix.chains[h], |files[h]| - |s.files[h]|, extent);
      if ok {
        SpareWithin(bitmap.State(), dir[..], ix, owner, files, spareLsn, spareCount);
        GrewGains(m, run, s.dir, s.ix, h, s.files[h], bitmap.State(), files[h], Run(spareLsn, spareCount));
      }
    }

    /** grow: it gets the open file sectors and then sets its size. */
    method Grow(size: nat) returns (ok: bool)
      requires SoundNow() && entryIndex in files && filesize < size < WORD
      requires entryIndex in ix.chains && TailOk(dir[..], ix.chains[entryIndex])
      modifies this`filesize, this`ix, this`spareLsn, this`spareCount, this`owner, this`files, dir, bitmap.sectors
      ensures SoundNow() && Untouched(old(dir[..]), old(ix), old(files), dir[..], ix, files, entryIndex)
      ensures entryIndex in files && old(files[entryIndex]) <= files[entryIndex]
      ensures files == old(files)[entryIndex := files[entryIndex]] && SectorsHeld() == old(SectorsHeld())
      ensures entryIndex in ix.chains && TailOk(dir[..], ix.chains[entryIndex])
      ensures Chained(old(dir[..]), old(ix.chains[entryIndex]), dir[..], ix.chains[entryIndex],
        |files[entryIndex]| - old(|files[entryIndex]|))
      ensures ok ==> filesize == size && |files[entryIndex]| == old(|files[entryIndex]|) + Needed(old(filesize), size)
      ensures ok ==> SizeOf(dir[..], ix, entryIndex) == BytesIn(|files[entryIndex]|, size % SECTOR_SIZE)
      ensures ok ==> Grew(old(bitmap.State()), Run(old(spareLsn), old(spareCount)), old(dir[..]), old(ix), entryIndex,
        old(files[entryIndex]), bitmap.State(), files[entryIndex], Run(spareLsn, spareCount))
      ensures ok ==> FileGains(old(bitmap.State()), Run(old(spareLsn), old(spareCount)), old(dir[..]), old(ix),
        entryIndex, old(files[entryIndex]), bitmap.State(), files[entryIndex], Run(spareLsn, spareCount))
      ensures !ok ==> filesize == old(filesize)
      ensures !ok ==> Lengthened(old(dir[..]), old(ix.chains[entryIndex]), dir[..], ix.chains[entryIndex])
      ensures !ok ==> TooFew(old(Room()), FreeEntries(old(dir[..])), old(filesize), size)
      ensures ok <==> CanGrow(old(bitmap.State()), Run(old(spareLsn), old(spareCount)), old(dir[..]), old(ix),
        entryIndex, Needed(old(filesize), size))
    {
      hide Sound, Untouched, SizeOf, Needed, Map.FreeCount, Grew, Lengthened, TailOk, CanGrow, FreeEntries,
        FileGains;
      ghost var dir0, ix0, files0 := dir[..], ix, files;
      var entry;
      ok, entry := GrowBy(Needed(filesize, size));
      if ok {
        ghost var dir1 := dir[..];
        SetLast(entry, size);
        UntouchedTwice(dir0, ix0, files0, dir1, ix, files, dir[..], ix, files, entryIndex);
      }
    }

    /** The hint is a sector in use, or the one after the extent in hand. */
    ghost predicate HintHolds(entry: nat, extent: int, hint: nat, atAllocate: bool)
      requires AtLast(entry, extent)
      reads this, dir, bitmap.sectors
    {
      || hint == NO_HINT || !bitmap.State().Free(hint)
      || (atAllocate && extent >= 0 && End(dir[entry].extents[extent]) == hint)
    }

    /** The beginning of grow: a run set aside that would not go on from the file is
        exchanged for the one chosen, or begins an extent if there is none to choose. */
    method SettleSpare(entry: nat, extent: int, hint: nat, ghost s: Start) returns (newExtent: bool, atAllocate: bool)
      requires Growing(s, entry, extent)
      requires hint == if extent < 0 then NO_HINT else End(dir[entry].extents[extent])
      modifies this`spareLsn, this`spareCount, this`owner, bitmap.sectors
      ensures AtLast(entry, extent) && Growing(s, entry, extent) && HintHolds(entry, extent, hint, atAllocate)
      ensures if atAllocate then spareCount == 0 else spareCount > 0
      ensures !atAllocate && !newExtent ==> Follows(entry, extent)
      ensures !atAllocate ==> (newExtent <==> extent < 0 || spareLsn != hint)
      ensures files == old(files)
      ensures Settled(old(bitmap.State()), Run(old(spareLsn), old(spareCount)), extent >= 0, hint,
        bitmap.State(), Run(spareLsn, spareCount))
      ensures
        var m, lsn, count := old(bitmap.State()), old(spareLsn), old(spareCount);
        if extent >= 0 && count > 0 && lsn != hint && exists l: nat :: m.Free(l) then
          && m.Chosen(hint, spareLsn) && m.TakenRun(spareLsn, spareCount)
          && bitmap.State() == m.With(spareLsn, spareCount, false).With(lsn, count, true)
        else bitmap.State() == m && spareLsn == lsn && spareCount == count
    {
      hide Sound, Map.FreeCount, Untouched, EntriesUsed, Lengthened, Map.Chosen, Map.TakenRun;
      newExtent, atAllocate := extent < 0 && spareCount != 0, false;
      if extent >= 0 {
        HintNotSpare(bitmap.State(), dir[..], ix, owner, files, spareLsn, spareCount, entryIndex, extent);
      }
      if extent >= 0 && spareCount != 0 && spareLsn != hint {
        var ok := ExchangeSpare(hint);
        newExtent := if ok then spareLsn != hint else true;
      } else if spareCount == 0 {
        atAllocate := true;
      } else {
        SpareNotFree(bitmap.State(), dir[..], ix, owner, files, spareLsn, spareCount, spareLsn);
      }
    }

    /** The middle of grow: some of the sectors set aside go to the file, in the
        extent in hand or a new one. */
    method TakeSpare(entry: nat, extent: int, used: nat, newExtent: bool, ghost s: Start)
      returns (ok: bool, entry': nat, extent': int)
      requires AtLast(entry, extent) && Growing(s, entry, extent) && 0 < used <= spareCount
      requires entryIndex in s.files && |files[entryIndex]| + used <= |s.files[entryIndex]| + s.needed
      requires !newExtent ==> Follows(entry, extent) && dir[entry].extents[extent].count + used <= MAX_EXTENT
      modifies this`ix, this`spareLsn, this`spareCount, this`owner, this`files, dir
      ensures ok ==> AtLast(entry', extent') && Growing(s, entry', extent')
      ensures !ok ==> AtLast(entry, extent) && Growing(s, entry, extent) && 7 * FreeEntries(s.dir) < s.needed
      ensures !ok ==> newExtent && old(SlotsLeft(extent)) == 0
      ensures ok ==> SlotsLeft(extent') + (if newExtent then 1 else 0) == old(SlotsLeft(extent)) && extent' >= 0
      ensures ok ==>
        dir[entry'].extents[extent'].count == used + if newExtent then 0 else old(dir[entry].extents[extent].count)
      ensures ok ==> files[entryIndex] == old(files[entryIndex]) + Range(old(spareLsn), used)
      ensures ok ==> spareLsn == old(spareLsn) + used && spareCount == old(spareCount) - used
    {
      hide Sound, Untouched, Range, FreeEntries, EntriesUsed, NextSlot, Map.FreeCount, Lengthened;
      ghost var h, dir1, ix1, files1 := entryIndex, dir[..], ix, files;
      if newExtent {
        ok, entry', extent' := NewExtent(entry, extent, used);
        if !ok {
          EntriesRanOut(s.dir, s.ix.chains[h], dir[..], ix.chains[h], |files[h]| - |s.files[h]|, extent);
          return;
        }
      } else {
        ok, entry', extent' := true, entry, extent;
        UseSpare(entry, extent, used);
        SameSlot(dir1, ix.chains[h], extent, dir[..]);
      }
      UntouchedTwice(s.dir, s.ix, s.files, dir1, ix1, files1, dir[..], ix, files, h);
      LengthenedTwice(s.dir, s.ix.chains[h], dir1, ix1.chains[h], dir[..], ix.chains[h]);
      SlotUsed(s.dir, s.ix.chains[h], dir1, ix1.chains[h], |files1[h]| - |s.files[h]|, extent,
        dir[..], ix.chains[h], extent', used);
    }

    /** The end of grow: more sectors are set aside. */
    method MoreSpare(entry: nat, extent: int, hint: nat, ghost s: Start) returns (ok: bool)
      requires AtLast(entry, extent) && Growing(s, entry, extent) && spareCount == 0
      requires HintHolds(entry, extent, hint, true)
      requires entryIndex in s.files && |files[entryIndex]| < |s.files[entryIndex]| + s.needed
      modifies this`spareLsn, this`spareCount, this`owner, bitmap.sectors
      ensures AtLast(entry, extent) && Growing(s, entry, extent)
      ensures ok ==> spareCount > 0 && HintHolds(entry, extent, hint, false)
      ensures ok && extent >= 0 && spareLsn == hint ==> Follows(entry, extent)
      ensures ok ==> RunChosen(old(bitmap.State()), hint, Run(spareLsn, spareCount))
      ensures ok ==> bitmap.State() == old(bitmap.State()).With(spareLsn, spareCount, false)
      ensures files == old(files)
      ensures !ok ==> s.room < s.needed && bitmap.State() == old(bitmap.State())
      ensures !ok ==> forall l: nat :: !bitmap.State().Free(l)
    {
      hide Sound, Untouched, EntriesUsed, Map.FreeCount, RunChosen, Lengthened;
      ok := AllocateSpare(hint);
    }

    /** Where the search for sectors is, with a run in hand or without. */
    ghost predicate SearchAt(entry: nat, extent: int, needed: nat, s: Start, q: Search, pending: bool)
      reads this, dir, bitmap.sectors
    {
      && AtLast(entry, extent) && Growing(s, entry, extent) && InHand(entry, extent, q.f)
      && entryIndex in s.files && q.was == s.files[entryIndex] && q.needed == s.needed
      && needed > 0 && |files[entryIndex]| + needed == |q.was| + q.needed
      && (if pending then spareCount > 0 else spareCount == 0) && HintHolds(entry, extent, q.hint, !pending)
      && Pursued(q, bitmap.State(), files[entryIndex], Run(spareLsn, spareCount), SlotsLeft(extent), pending)
    }

    /** It is over: the file has the sectors that it needs, or there is no way to. */
    ghost predicate SearchEnds(ok: bool, entry: nat, extent: int, s: Start, q: Search)
      reads this, dir, bitmap.sectors
    {
      && AtLast(entry, extent) && Growing(s, entry, extent) && entryIndex in s.files && (ok <==> Pursuable(q))
      && if ok then
           && |files[entryIndex]| == |s.files[entryIndex]| + s.needed
           && Grown(q.m, q.run, q.f0.inUse, q.hint, q.was, bitmap.State(), files[entryIndex], Run(spareLsn, spareCount))
         else s.room < s.needed || 7 * FreeEntries(s.dir) < s.needed
    }

    /** A round of grow: the run in hand is used, or what is needed of it. */
    method UseRun(entry: nat, extent: int, needed: nat, newExtent: bool, ghost s: Start, ghost q: Search)
      returns (ok: bool, entry': nat, extent': int, needed': nat, ghost f: Fill)
      requires SearchAt(entry, extent, needed, s, q, true)
      requires
        var used := Min(needed, spareCount);
        if newExtent then !q.f.inUse || spareLsn != q.hint || q.f.count + used > MAX_EXTENT
        else Follows(entry, extent) && spareLsn == q.hint && q.f.count + used <= MAX_EXTENT
      modifies this`ix, this`spareLsn, this`spareCount, this`owner, this`files, dir
      ensures needed' < needed
      ensures f.begun == q.f.begun <==>
        q.f.inUse && old(spareLsn) == q.hint && q.f.count + Min(needed, old(spareCount)) <= 255
      ensures !ok ==> SearchEnds(false, entry, extent, s, q)
      ensures ok && needed' == 0 ==> SearchEnds(true, entry', extent', s, q)
      ensures ok && needed' > 0 ==> SearchAt(entry', extent', needed', s, q.(f := f), false)
    {
      hide Sound, Growing, UsedTo, FreeEntries, Map.FreeCount, RunChosen, Range, SlotsFrom, Pursued, Grown, Pursuable;
      var used := if needed < spareCount then needed else spareCount;
      f := FillRun(q.f, spareLsn, used, q.hint);
      PursuitUses(q, bitmap.State(), files[entryIndex], Run(spareLsn, spareCount), SlotsLeft(extent), used);
      RangeLength(spareLsn, used);
      needed' := needed - used;
      ok, entry', extent' := TakeSpare(entry, extent, used, newExtent, s);
      if ok {
        SlotsThere(entry', extent');
      }
    }

    /** Another run is set aside. */
    method MoreRun(entry: nat, extent: int, needed: nat, hint: nat, ghost s: Start, ghost q: Search)
      returns (ok: bool, ghost runs: seq<Run>)
      requires SearchAt(entry, extent, needed, s, q, false) && hint == q.hint
      modifies this`spareLsn, this`spareCount, this`owner, bitmap.sectors
      ensures !ok ==> SearchEnds(false, entry, extent, s, q)
      ensures ok ==> SearchAt(entry, extent, needed, s, q.(runs := runs), true)
      ensures ok && extent >= 0 && spareLsn == hint ==> Follows(entry, extent)
    {
      hide Sound, Growing, UsedTo, FreeEntries, Map.FreeCount, RunChosen, SlotsFrom, Pursued, Grown, Pursuable;
      ghost var m, run := bitmap.State(), Run(spareLsn, spareCount);
      ok := MoreSpare(entry, extent, hint, s);
      runs := q.runs;
      if !ok {
        PursuitFails(q, m, files[entryIndex], run, SlotsLeft(extent));
      } else {
        PursuitGoesOn(q, m, files[entryIndex], run, SlotsLeft(extent), Run(spareLsn, spareCount));
        runs := q.runs + [Run(spareLsn, spareCount)];
      }
    }

    /** The beginning of the search. */
    method BeginSearch(needed: nat, entry: nat, extent: int, hint: nat, ghost s: Start)
      returns (newExtent: bool, atAllocate: bool, ghost q: Search)
      requires AtLast(entry, extent) && Growing(s, entry, extent) && needed > 0 && s.needed == needed
      requires entryIndex in s.files && files[entryIndex] == s.files[entryIndex] && SlotsLeft(extent) >= 0
      requires hint == if extent < 0 then NO_HINT else End(dir[entry].extents[extent])
      modifies this`spareLsn, this`spareCount, this`owner, bitmap.sectors
      ensures SearchAt(entry, extent, needed, s, q, !atAllocate)
      ensures q == old(SearchFrom(entry, extent, needed)).(m1 := q.m1, run1 := q.run1)
      ensures !atAllocate && !newExtent ==> Follows(entry, extent) && spareLsn == hint
      ensures !atAllocate && newExtent ==> !q.f.inUse || spareLsn != hint
    {
      hide Sound, Growing, UsedTo, FreeEntries, Map.FreeCount, Settled, RunChosen, SlotsFrom, Pursued;
      q := SearchFrom(entry, extent, needed);
      newExtent, atAllocate := SettleSpare(entry, extent, hint, s);
      PursuitBegins(q.m, q.run, hint, q.f0, q.slots, q.was, needed, bitmap.State(), Run(spareLsn, spareCount));
      q := q.(m1 := bitmap.State(), run1 := Run(spareLsn, spareCount));
    }

    /** The part of grow that gets sectors for the open file.  The hint stays the
        sector after the file as it was. */
    method GrowSectors(needed0: nat, entry0: nat, extent0: int, ghost s: Start)
      returns (ok: bool, entry: nat, extent: int)
      requires AtLast(entry0, extent0) && Growing(s, entry0, extent0) && needed0 > 0 && s.needed == needed0
      requires entryIndex in s.files && files[entryIndex] == s.files[entryIndex]
      modifies this`ix, this`spareLsn, this`spareCount, this`owner, this`files, dir, bitmap.sectors
      ensures old(SlotsLeft(extent0)) >= 0
      ensures SearchEnds(ok, entry, extent, s, old(SearchFrom(entry0, extent0, needed0)))
      ensures ok ==> Gains(old(bitmap.State()), Run(old(spareLsn), old(spareCount)), extent0 >= 0,
        if extent0 < 0 then 0xFFFF else old(dir[entry0].extents[extent0].lsn + dir[entry0].extents[extent0].count),
        old(files[entryIndex]), bitmap.State(), files[entryIndex], Run(spareLsn, spareCount))
    {
      hide Sound, Growing, UsedTo, FreeEntries, Map.FreeCount, Settled, RunChosen, Range, SlotsFrom, Pursued, Grown,
        RunsFit, HintHolds, FillRun, Gains;
      entry := entry0;
      var needed: nat := needed0;
      extent := extent0;
      UsedRange(dir[entry], extent);
      SlotsThere(entry, extent);
      var hint := if extent < 0 then NO_HINT else End(dir[entry].extents[extent]);
      ghost var q0 := SearchFrom(entry, extent, needed);
      SpareWithin(q0.m, dir[..], ix, owner, files, spareLsn, spareCount);
      var newExtent, atAllocate;
      ghost var q;
      newExtent, atAllocate, q := BeginSearch(needed, entry, extent, hint, s);
      while true
        invariant SearchAt(entry, extent, needed, s, q, !atAllocate)
        invariant q == q0.(m1 := q.m1, run1 := q.run1, runs := q.runs, f := q.f)
        invariant !atAllocate && !newExtent ==> Follows(entry, extent) && spareLsn == hint
        invariant !atAllocate && newExtent ==>
          !q.f.inUse || spareLsn != hint || q.f.count + Min(needed, spareCount) > MAX_EXTENT
        decreases needed, if atAllocate then 1 else 0, if newExtent then 0 else 1
      {
        UsedRange(dir[entry], extent);
        if !atAllocate {
          var used := if needed < spareCount then needed else spareCount;
          if !newExtent && dir[entry].extents[extent].count + used > MAX_EXTENT {
            newExtent := true;
            continue;
          }
          var entry', extent';
          ghost var f;
          ok, entry', extent', needed, f := UseRun(entry, extent, needed, newExtent, s, q);
          if !ok {
            return;
          }
          entry, extent := entry', extent';
          if needed == 0 {
            SpareWithin(bitmap.State(), dir[..], ix, owner, files, spareLsn, spareCount);
            GrownGains(q0.m, q0.run, q0.f0.inUse, hint, q0.was, bitmap.State(), files[entryIndex],
              Run(spareLsn, spareCount));
            return;
          }
          q := q.(f := f);
        }
        atAllocate := false;
        ghost var runs;
        ok, runs := MoreRun(entry, extent, needed, hint, s, q);
        if !ok {
          return;
        }
        q := q.(runs := runs);
        newExtent := extent < 0 || spareLsn != hint;
      }
    }

    /** The search for sectors when it begins. */
    ghost function SearchFrom(entry: nat, extent: int, needed: nat): (q: Search)
      requires AtLast(entry, extent) && SlotsLeft(extent) >= 0
      reads this, dir, bitmap.sectors
    {
      hide Sound;
      var m, run := bitmap.State(), Run(spareLsn, spareCount);
      var f := Fill(extent >= 0, if extent < 0 then 0 else dir[entry].extents[extent].count, 0);
      Search(m, run, if extent < 0 then NO_HINT else End(dir[entry].extents[extent]), f, SlotsLeft(extent),
        files[entryIndex], needed, m, run, [], f)
    }

    lemma {:induction false} SlotsThere(entry: nat, extent: int)
      requires AtLast(entry, extent)
      ensures SlotsLeft(extent) >= 0
    {
      hide Sound, FreeEntries;
    }

    /** The part of _dd_truncate for one extent. */
    method CutOneExtent(index: nat, i: nat, running0: nat, keep: nat) returns (running: nat)
      requires Shape() && index < MAX_ENTRIES && i < |dir[index].extents|
      requires
        var x := dir[index].extents[i];
        Kept(x.count, running0, keep) < x.count ==> x.lsn + x.count <= MAX_LSN
      modifies dir, bitmap.sectors
      ensures
        var x := old(dir[index].extents[i]);
        var kept := Kept(x.count, running0, keep);
        && running == running0 + kept && dir[index] == SetExtent(old(dir[index]), i, CutExtent(x, running0, keep))
        && bitmap.State() == WithFreed(old(bitmap.State()), x, kept)
      ensures forall e: nat :: e < MAX_ENTRIES && e != index ==> dir[e] == old(dir[e])
    {
      var extent := dir[index].extents[i];
      var kept := 0;
      if running0 < keep {
        kept := keep - running0;
        if kept > extent.count {
          kept := extent.count;
        }
      }
      if kept < extent.count {
        bitmap.Release(extent.lsn + kept, extent.count - kept);
        dir[index] := SetExtent(dir[index], i, Extent(if kept == 0 then 0 else extent.lsn, kept));
      } else {
        assert dir[index].extents[i := extent] == dir[index].extents;
      }
      running := running0 + kept;
    }

    /** The part of _dd_truncate for the extents of an entry, running being the
        sectors kept before it. */
    method CutExtentsOf(index: nat, running0: nat, keep: nat, ghost m: Map, ghost dir0: seq<Entry>, ghost p: nat)
      returns (running: nat)
      requires Shape() && Sound(m, dir0, ix, owner, files, spareLsn, spareCount) && entryIndex in files
      requires p < |ix.chains[entryIndex]| && index == ix.chains[entryIndex][p] < MAX_ENTRIES
      requires dir[index] == dir0[index]
      requires InDir(dir0, ix.chains[entryIndex])
      requires
        var before := Before(dir0, ix.chains[entryIndex], p);
        running0 == Min(keep, before) && FreedTo(m, bitmap.State(), owner, entryIndex, keep, before)
      modifies dir, bitmap.sectors
      ensures
        var chain := ix.chains[entryIndex];
        var x := dir0[index].extents;
        && dir[index] == dir0[index].(extents := CutExtents(x, Before(dir0, chain, p), keep))
        && FreedTo(m, bitmap.State(), owner, entryIndex, keep, Before(dir0, chain, p + 1))
        && running == Min(keep, Before(dir0, chain, p + 1))
      ensures forall e: nat :: e < MAX_ENTRIES && e != index ==> dir[e] == old(dir[e])
    {
      hide FreedTo, Before, SectorsTo, Min, Kept, CutTo, CutExtents, CutExtent, SetExtent, WithFreed, Sound, Indexed;
      SoundBounds(m, dir0, ix, owner, files, spareLsn, spareCount, entryIndex);
      ghost var h, chain, x := entryIndex, ix.chains[entryIndex], dir0[index].extents;
      CutStart(dir0, chain, p, keep);
      running := running0;
      var i := 0;
      while i < |dir[index].extents|
        invariant i <= |x|
        invariant dir[index] == CutTo(dir0, chain, p, keep, i)
        invariant forall e: nat :: e < MAX_ENTRIES && e != index ==> dir[e] == old(dir[e])
        invariant FreedTo(m, bitmap.State(), owner, h, keep, SectorsTo(dir0, chain, p, i))
        invariant running == Min(keep, SectorsTo(dir0, chain, p, i))
      {
        CutStep(m, bitmap.State(), dir0, ix, owner, files, spareLsn, spareCount, h, p, i, keep);
        running := CutOneExtent(index, i, running, keep);
        i := i + 1;
      }
      CutEnd(dir0, chain, p, keep);
    }

    /** The part of _dd_truncate for one entry. */
    method CutOneEntry(
        index: nat, running0: nat, ended0: bool, size: nat, ghost m: Map, ghost dir0: seq<Entry>, ghost p: nat)
      returns (running: nat, ended: bool, more: bool, next: nat)
      requires Shape() && Sound(m, dir0, ix, owner, files, spareLsn, spareCount) && entryIndex in files
      requires entryIndex in ix.chains && p < |ix.chains[entryIndex]| && index == ix.chains[entryIndex][p]
      requires Cutting(m, bitmap.State(), dir0, dir[..], ix, owner, entryIndex, size, p, running0, ended0)
      modifies dir, bitmap.sectors
      ensures Cutting(m, bitmap.State(), dir0, dir[..], ix, owner, entryIndex, size, p + 1, running, ended)
      ensures more <==> p + 1 < |ix.chains[entryIndex]|
      ensures more ==> next == ix.chains[entryIndex][p + 1]
    {
      hide Sound, Indexed, CutSoFar, FreedTo, Before, EndedBefore, CutExtents, CutEntry, FreeEntries, EndPos;
      ghost var chain, dir1 := ix.chains[entryIndex], dir[..];
      SoundInDir(m, dir0, ix, owner, files, spareLsn, spareCount, entryIndex);
      var keep := KeepFor(size);
      CutNext(dir0, dir[..], ix, entryIndex, p, keep, size);
      more, next := dir[index].continued, dir[index].lastOrNext;
      ended := ended0;
      running := CutExtentsOf(index, running0, keep, m, dir0, p);
      CutEnds(dir0, chain, p, keep, size, running);
      if ended0 {
        dir[index] := Killed(dir[index]).(lastOrNext := 0);
      } else if running >= keep || !more {
        dir[index] := dir[index].(continued := false, lastOrNext := size % SECTOR_SIZE);
        ended := true;
      }
      CutPlaced(dir0, dir1, dir[..], ix, entryIndex, p, keep, size);
      CutCounts(dir0, dir1, ix, entryIndex, p, keep, size);
      assert dir[..] == dir1[index := CutEntry(dir0, chain, p, keep, size)];
    }

    /** _dd_truncate: cut the open file to a size. */
    method Truncate(size: nat) returns (ok: bool)
      requires SoundNow() && entryIndex in files
      modifies this`filesize, this`ix, this`owner, this`files, dir, bitmap.sectors
      ensures ok && filesize == size
      ensures SoundNow() && Untouched(old(dir[..]), old(ix), old(files), dir[..], ix, files, entryIndex)
      ensures Shortened(old(dir[..]), dir[..], old(ix), ix, entryIndex, size)
      ensures files == FilesCut(old(files), entryIndex, KeepFor(size))
      ensures SectorsHeld() == old(SectorsHeld()) && EntriesHeld() == old(EntriesHeld())
      ensures SizeOf(dir[..], ix, entryIndex) == BytesIn(|files[entryIndex]|, size % SECTOR_SIZE)
      ensures old(entryIndex in ix.chains) && entryIndex in ix.chains
      ensures old(TailOk(dir[..], ix.chains[entryIndex])) ==> TailOk(dir[..], ix.chains[entryIndex])
    {
      hide Sound, Cutting, Untouched, KeepFor, SizeOf, TakeBack, Map.FreeCount, FreeEntries, TailOk, EndPos,
        Shortened;
      ghost var m, dir0, h := bitmap.State(), dir[..], entryIndex;
      SoundBounds(m, dir0, ix, owner, files, spareLsn, spareCount, h);
      ghost var chain := ix.chains[h];
      CutBegun(m, dir0, ix, owner, h, size);
      var index, running, ended, guard, more := entryIndex, 0, false, 0, true;
      while guard < MAX_ENTRIES && more
        invariant guard <= |chain| && (more <==> guard < |chain|) && (more ==> index == chain[guard])
        invariant Cutting(m, bitmap.State(), dir0, dir[..], ix, owner, h, size, guard, running, ended)
        modifies dir, bitmap.sectors
      {
        var next;
        running, ended, more, next := CutOneEntry(index, running, ended, size, m, dir0, guard);
        if more {
          index := next;
        }
        guard := guard + 1;
      }
      ok := !more;
      CutDone(m, bitmap.State(), dir0, dir[..], ix, owner, files, spareLsn, spareCount, h, size, running, ended);
      CutTailOk(dir0, dir[..], ix, h, size);
      ghost var keep := Min(KeepFor(size), |files[h]|);
      ix := CutIndex(dir0, ix, h, KeepFor(size));
      owner := TakeBack(owner, h, keep);
      files := files[h := files[h][..keep]];
      filesize := size;
    }

    /** The part of walk_file for one entry. */
    method WalkEntry(index: nat, sectors0: nat, stopAt: bool, fileSector: nat, ghost chain: Chain, ghost p: nat)
      returns (found: bool, lsn: nat, sectors: nat)
      requires Shape() && InDir(dir[..], chain) && p < |chain| && index == chain[p]
      requires sectors0 == Before(dir[..], chain, p) && (stopAt ==> fileSector >= sectors0)
      ensures found ==>
        stopAt && fileSector < |ChainSectors(dir[..], chain)| && lsn == ChainSectors(dir[..], chain)[fileSector]
      ensures !found ==> sectors == Before(dir[..], chain, p + 1) && (stopAt ==> fileSector >= sectors)
    {
      hide ChainSectors, Before, SectorsTo;
      found, lsn, sectors := false, 0, sectors0;
      WalkEnds(dir[..], chain, p);
      var i := 0;
      while i < |dir[index].extents|
        invariant i <= |dir[index].extents| && sectors == SectorsTo(dir[..], chain, p, i)
        invariant stopAt ==> fileSector >= sectors
      {
        WalkStep(dir[..], chain, p, i);
        var extent := dir[index].extents[i];
        if stopAt && fileSector < sectors + extent.count {
          return true, extent.lsn + (fileSector - sectors), sectors;
        }
        sectors := sectors + extent.count;
        i := i + 1;
      }
    }

    /** walk_file: with stopAt, the sector of the disk that is a sector of the file
        with this header, if there is one; otherwise how many it has, and its last
        entry. */
    method WalkFile(header: nat, stopAt: bool, fileSector: nat)
      returns (found: bool, lsn: nat, total: nat, lastEntry: nat)
      requires SoundNow() && header in files
      ensures found <==> stopAt && fileSector < |files[header]|
      ensures found ==> lsn == files[header][fileSector]
      ensures !found ==> header in ix.chains && |ix.chains[header]| > 0
      ensures !found ==> total == |files[header]| && lastEntry == Last(ix.chains[header]) < MAX_ENTRIES
    {
      hide Sound, ChainSectors, Before, Indexed, InDir;
      SoundBounds(bitmap.State(), dir[..], ix, owner, files, spareLsn, spareCount, header);
      SoundInDir(bitmap.State(), dir[..], ix, owner, files, spareLsn, spareCount, header);
      ghost var chain := ix.chains[header];
      BeforeAll(dir[..], chain);
      found, lsn, total, lastEntry := false, 0, 0, header;
      var guard, more := 0, true;
      while guard < MAX_ENTRIES && more
        invariant guard <= |chain| && (more <==> guard < |chain|)
        invariant lastEntry == chain[if more then guard else guard - 1]
        invariant total == Before(dir[..], chain, guard) && (stopAt ==> fileSector >= total)
      {
        NextLink(dir[..], ix, header, guard);
        found, lsn, total := WalkEntry(lastEntry, total, stopAt, fileSector, chain, guard);
        if found {
          return;
        }
        more := dir[lastEntry].continued;
        if more {
          lastEntry := dir[lastEntry].lastOrNext;
        }
        guard := guard + 1;
      }
      NextLink(dir[..], ix, header, |chain| - 1);
    }

    /** _dd_extend: grow the open file, or leave it as it was. */
    method Extend(size: nat) returns (ok: bool)
      requires SoundNow() && entryIndex in files && filesize < size < WORD
      requires entryIndex in ix.chains && TailOk(dir[..], ix.chains[entryIndex])
      modifies this`filesize, this`ix, this`spareLsn, this`spareCount, this`owner, this`files, dir, bitmap.sectors
      ensures SoundNow() && Untouched(old(dir[..]), old(ix), old(files), dir[..], ix, files, entryIndex)
      ensures entryIndex in files && entryIndex in ix.chains && TailOk(dir[..], ix.chains[entryIndex])
      ensures SectorsHeld() == old(SectorsHeld()) && EntriesHeld() == old(EntriesHeld())
      ensures ok ==> GrownTo(old(bitmap.State()), Run(old(spareLsn), old(spareCount)), old(dir[..]), old(ix),
        old(files), old(filesize), bitmap.State(), Run(spareLsn, spareCount), dir[..], ix, files, filesize,
        entryIndex, size)
      ensures !ok ==> filesize == old(filesize)
      ensures !ok && old(filesize == SizeOf(dir[..], ix, entryIndex)) ==>
        && files == old(files) && ix.chains == old(ix.chains) && FreeEntries(dir[..]) == old(FreeEntries(dir[..]))
        && SizeOf(dir[..], ix, entryIndex) == filesize
      ensures !ok ==> TooFew(old(Room()), FreeEntries(old(dir[..])), old(filesize), size)
      ensures ok <==> CanGrow(old(bitmap.State()), Run(old(spareLsn), old(spareCount)), old(dir[..]), old(ix),
        entryIndex, Needed(old(filesize), size))
    {
      hide CanGrow;
      hide Sound, Untouched, SizeOf, Map.FreeCount, FreeEntries, Grown, Tail, Hint, Lengthened, TailOk, Needed, EndPos,
        Grew, CutIndex, ChainSectors, FileGains;
      ghost var h, dir0, ix0, files0 := entryIndex, dir[..], ix, files;
      SoundInDir(bitmap.State(), dir0, ix0, owner, files0, spareLsn, spareCount, h);
      SizeSectors(bitmap.State(), dir0, ix0, owner, files0, spareLsn, spareCount, h);
      FileBounded(bitmap.State(), dir0, ix0, owner, files0, spareLsn, spareCount, h);
      ok := Grow(size);
      if !ok {
        ghost var dir1, ix1, files1 := dir[..], ix, files;
        ghost var keep := SectorsFor(filesize);
        var _ := Truncate(filesize);
        UntouchedTwice(dir0, ix0, files0, dir1, ix1, files1, dir[..], ix, files, h);
        if |files0[h]| == keep {
          KeepExact(filesize);
          ChainsBack(dir0, ix0, files0, dir1, ix1, files1, h, keep);
          assert files1[h][..keep] == files0[h];
          assert files == files0[h := files0[h]] == files0;
          SizeBack(filesize);
        }
      }
    }

    /** _dd_writable_file */
    method WritableFile() returns (status: Status)
      requires Shape() && entryIndex < MAX_ENTRIES
      ensures status == if !canWrite then BadMode else if dir[entryIndex].protected then Protected else Done
    {
      if !canWrite {
        return BadMode;
      }
      status := if dir[entryIndex].protected then Protected else Done;
    }

    /** Part of a sector, or all of it, is written over. */
    method WriteSector(lsn: nat, offset: nat, more: seq<Byte>)
      requires lsn < data.Length && |data[lsn]| == SECTOR_SIZE && offset + |more| <= SECTOR_SIZE
      modifies data
      ensures data[..] == old(data[..])[lsn := old(data[lsn])[..offset] + more + old(data[lsn])[offset + |more|..]]
    {
      var sector := more;
      if |more| != SECTOR_SIZE {
        sector := data[lsn];
        sector := sector[..offset] + more + sector[offset + |more|..];
      }
      assert sector == data[lsn][..offset] + more + data[lsn][offset + |more|..];
      data[lsn] := sector;
    }

    /** The part of _dragondos_write that writes sectors, up to one that the file
        does not have. */
    method WriteSectors(start: nat, input: seq<Byte>) returns (done: nat)
      requires SoundNow() && entryIndex in files && Sectored(data[..])
      modifies data
      ensures Sectored(data[..]) && OnlyBlocks(old(data[..]), data[..], files[entryIndex])
      ensures done <= |input| && (done > 0 ==> start + done <= |files[entryIndex]| * SECTOR_SIZE)
      ensures done < |input| ==> start + done >= |files[entryIndex]| * SECTOR_SIZE
      ensures Written(old(data[..]), data[..], SECTOR_SIZE, files[entryIndex], start, input[..done])
    {
      hide Sound, OnlyBlocks, Written, Distinct;
      ghost var data0, sectors := data[..], files[entryIndex];
      FileDistinct(bitmap.State(), dir[..], ix, owner, files, spareLsn, spareCount, entryIndex);
      NothingWritten(data0, SECTOR_SIZE, sectors, start);
      done := 0;
      while done < |input|
        invariant done <= |input| && (done > 0 ==> start + done <= |sectors| * SECTOR_SIZE)
        invariant Sectored(data[..]) && OnlyBlocks(data0, data[..], sectors)
        invariant Written(data0, data[..], SECTOR_SIZE, sectors, start, input[..done])
      {
        var position := start + done;
        var offset := position % SECTOR_SIZE;
        var chunk := SECTOR_SIZE - offset;
        if chunk > |input| - done {
          chunk := |input| - done;
        }
        var more := input[done..done + chunk];
        var found, lsn, _, _ := WalkFile(entryIndex, true, position / SECTOR_SIZE);
        if !found {
          return;
        }
        BlockWritten(data0, data[..], SECTOR_SIZE, sectors, start, input[..done], more);
        TakeMore(input, done, chunk);
        WriteSector(lsn, offset, more);
        done := done + chunk;
      }
    }

    /** Whether the size of the open file can change to another: grow counts in
        u_int. */
    predicate Sizeable(size: nat)
      reads this
    {
      size < WORD && (filesize > 0 || size <= WORD - SECTOR_SIZE)
    }

    /** The part of _dragondos_write after the file has grown.  If a sector is
        missing all the same, the file is cut again. */
    method WriteOut(start: nat, oldSize: nat, input: seq<Byte>) returns (status: Status, done: nat)
      requires Steady() && entryIndex in files
      modifies this`filesize, this`filepos, this`ix, this`owner, this`files, dir, data, bitmap.sectors
      ensures done <= |input| && filepos == start + done && status == if done == |input| then Done else EndOfFile
      ensures Steady() && entryIndex in files
      ensures SectorsHeld() == old(SectorsHeld()) && EntriesHeld() == old(EntriesHeld())
      ensures Untouched(old(dir[..]), old(ix), old(files), dir[..], ix, files, entryIndex)
      ensures done > 0 ==> filepos <= old(|files[entryIndex]|) * SECTOR_SIZE
      ensures status == EndOfFile ==> filepos >= old(|files[entryIndex]|) * SECTOR_SIZE
      ensures OnlyBlocks(old(data[..]), data[..], old(files[entryIndex]))
      ensures Written(old(data[..]), data[..], SECTOR_SIZE, old(files[entryIndex]), start, input[..done])
      ensures
        if status == Done || old(filesize) <= oldSize then
          && filesize == old(filesize) && dir[..] == old(dir[..]) && ix == old(ix) && owner == old(owner)
          && files == old(files) && bitmap.State() == old(bitmap.State())
        else
          && filesize == (if filepos > oldSize then filepos else oldSize)
          && files == FilesCut(old(files), entryIndex, KeepFor(filesize))
          && SizeOf(dir[..], ix, entryIndex) == BytesIn(|files[entryIndex]|, filesize % SECTOR_SIZE)
    {
      hide Sound, Untouched, SizeOf, Map.FreeCount, FreeEntries, OnlyBlocks, Written, Shortened, Tails, Sectored,
        TailOk, KeepFor;
      ghost var dir0, ix0, files0 := dir[..], ix, files;
      HasTail(bitmap.State(), dir0, ix0, owner, files0, spareLsn, spareCount, entryIndex);
      UntouchedSelf(dir0, ix0, files0, entryIndex);
      done := WriteSectors(start, input);
      filepos := start + done;
      status := if done < |input| then EndOfFile else Done;
      if done < |input| && filesize > oldSize {
        var _ := Truncate(if filepos > oldSize then filepos else oldSize);
        TailsKept(dir0, ix0, files0, dir[..], ix, files, entryIndex);
      }
    }

    /** Grow the open file to a size, if it is smaller. */
    method GrowFile(size: nat) returns (ok: bool)
      requires Valid() && isOpen && size < WORD
      modifies this`filesize, this`ix, this`spareLsn, this`spareCount, this`owner, this`files, dir, bitmap.sectors
      ensures Valid() && Untouched(old(dir[..]), old(ix), old(files), dir[..], ix, files, entryIndex)
      ensures SectorsHeld() == old(SectorsHeld()) && EntriesHeld() == old(EntriesHeld())
      ensures ok ==> Reached(old(State()), State(), old(filesize), filesize, entryIndex, size)
      ensures ok ==> filesize == if size > old(filesize) then size else old(filesize)
      ensures !ok ==> filesize == old(filesize)
      ensures !ok && old(Exact()) ==> Exact() && files == old(files) && ix.chains == old(ix.chains)
      ensures !ok ==> TooFew(old(Room()), FreeEntries(old(dir[..])), old(filesize), size)
      ensures ok <==> old(State()).CanReach(entryIndex, old(filesize), size)
    {
      hide CanGrow;
      hide Sound, Untouched, SizeOf, Map.FreeCount, FreeEntries, Tails, Sectored, TailOk, TooFew, Grew, Content,
        Chained, Needed;
      HasTail(bitmap.State(), dir[..], ix, owner, files, spareLsn, spareCount, entryIndex);
      UntouchedSelf(dir[..], ix, files, entryIndex);
      ok := true;
      if size > filesize {
        ok := Extend(size);
        TailsKept(old(dir[..]), old(ix), old(files), dir[..], ix, files, entryIndex);
      }
    }

    /** The part of _dragondos_write for a file that may be written. */
    method WriteFile(input: seq<Byte>) returns (status: Status, count: nat)
      requires Valid() && isOpen && 0 < |input| < WORD
      modifies this`filesize, this`filepos, this`ix, this`spareLsn, this`spareCount, this`owner, this`files,
        dir, data, bitmap.sectors
      ensures Valid() && Untouched(old(dir[..]), old(ix), old(files), dir[..], ix, files, entryIndex)
      ensures OtherBytesKept(old(State()), State(), entryIndex)
      ensures SectorsHeld() == old(SectorsHeld()) && EntriesHeld() == old(EntriesHeld())
      ensures status in {Done, Full, EndOfFile} && count <= |input| && filepos == old(filepos) + count
      ensures WriteOutcome(old(State()), State(), old(filesize), filesize, entryIndex, old(filepos), input, status,
        count)
      ensures status == Full ==>
        TooFew(old(Room()), FreeEntries(old(dir[..])), old(filesize), EndOfWrite(old(filepos), |input|))
      ensures status != Full <==> old(State()).CanReach(entryIndex, old(filesize), EndOfWrite(old(filepos), |input|))
      ensures status == Full && old(Exact()) ==> Exact() && files == old(files) && ix.chains == old(ix.chains)
    {
      hide Sound, Untouched, SizeOf, Map.FreeCount, FreeEntries, OnlyBlocks, Written, Tails, Sectored, Disk.Stored,
        Disk.Bytes, SectorsFor, TooFew, Disk.CanReach, Reached, Stopped, Finished, KeepFor, FilesCut, BytesIn,
        OtherBytesKept, Described, InSectors, Content, TailOk, SectorsHeld, EntriesHeld;
      count := 0;
      ghost var d := State();
      var start, oldSize := filepos, filesize;
      var ok := GrowFile(EndOfWrite(start, |input|));
      if !ok {
        status := Full;
        NothingKept(d, State(), entryIndex);
        return;
      }
      ghost var d1, now := State(), filesize;
      FileBounded(d1.m, d1.dir, d1.ix, d1.owner, d1.files, d1.spareLsn, d1.spareCount, entryIndex);
      status, count := WriteOut(start, oldSize, input);
      assert status == Done ==> input[..count] == input;
      OthersKeepAll(d, d1, State(), entryIndex);
      UntouchedTwice(d.dir, d.ix, d.files, d1.dir, d1.ix, d1.files, dir[..], ix, files, entryIndex);
      WroteOut(d, d1, State(), oldSize, now, filesize, entryIndex, EndOfWrite(start, |input|), start, input[..count],
        status == Done);
    }

    /** _dragondos_write.  It fails in the middle only if its end is not counted
        right. */
    method Write(input: seq<Byte>) returns (status: Status, count: nat)
      requires Valid() && isOpen && |input| < WORD
      modifies this`filesize, this`filepos, this`ix, this`spareLsn, this`spareCount, this`owner, this`files,
        dir, data, bitmap.sectors
      ensures Valid() && SameHead(old(Header()), Header()) && Stored() == old(Stored())[Header().name := Bytes()]
      ensures Locked() == old(Locked())
      ensures SectorsHeld() == old(SectorsHeld()) && EntriesHeld() == old(EntriesHeld())
      ensures status == BadMode <==> !canWrite
      ensures status == Protected <==> canWrite && old(Header().protected)
      ensures status in {Done, BadMode, Protected} || (status in {Full, EndOfFile} && input != [])
      ensures filepos == old(filepos) + count
      ensures WriteOutcome(old(State()), State(), old(filesize), filesize, entryIndex, old(filepos), input, status,
        count)
      ensures status == Full <==>
        && canWrite && !old(Header().protected) && input != []
        && !old(State()).CanReach(entryIndex, old(filesize), EndOfWrite(old(filepos), |input|))
      ensures status == Full ==>
        TooFew(old(Room()), FreeEntries(old(dir[..])), old(filesize), EndOfWrite(old(filepos), |input|))
      ensures old(Exact()) && status == Done ==> Exact() && Wrote(old(Bytes()), old(filepos), input, Bytes())
      ensures old(Exact()) && status in {BadMode, Protected, Full} ==>
        Exact() && Bytes() == old(Bytes()) && files == old(files) && ix.chains == old(ix.chains)
      ensures old(Exact()) && input != [] ==>
        if old(Sizeable(filepos + |input|)) then status != EndOfFile else status != Done
      ensures status == Done ==> Gaining(old(State()), State(), entryIndex)
    {
      hide Sound, Untouched, SizeOf, Map.FreeCount, FreeEntries, OnlyBlocks, Written, Tails, Sectored, TailOk,
        Wrote, Disk.Stored, Disk.Bytes, Described, SectorsFor, TooFew, Disk.CanReach, Reached, Stopped, Finished,
        Disk.Locked, SectorsHeld, EntriesHeld, Gaining;
      ghost var d, h := State(), entryIndex;
      DiskHas(d, h);
      SoundBounds(d.m, d.dir, d.ix, d.owner, d.files, d.spareLsn, d.spareCount, h);
      count := 0;
      status := WritableFile();
      if status != Done || input == [] {
        WroteNothing(Bytes(), filepos);
        NoGain(d, State(), h);
        return;
      }
      status, count := WriteFile(input);
      FileChanged(d, State(), h);
      LockedKept(d, State(), h);
      if status == Done {
        WriteGains(d, State(), old(filesize), filesize, h, old(filepos), input, count);
      }
      if old(Exact()) && status == Done {
        WriteExact(d, State(), h, old(filepos), input, filesize);
      } else if old(Exact()) && status == EndOfFile {
        StoppedWrong(d, State(), filesize, h, old(filepos), input, input[..count]);
      } else if old(Exact()) {
        BytesSame(d, State(), h);
      }
    }

    /** _dragondos_ss_size.  The bytes a file grows by are what is in its new
        sectors. */
    method SetSize(size: nat) returns (status: Status)
      requires Valid() && isOpen && size < WORD
      modifies this`filesize, this`ix, this`spareLsn, this`spareCount, this`owner, this`files, dir, bitmap.sectors
      ensures Valid() && SameHead(old(Header()), Header()) && Stored() == old(Stored())[Header().name := Bytes()]
      ensures Locked() == old(Locked())
      ensures SectorsHeld() == old(SectorsHeld()) && EntriesHeld() == old(EntriesHeld())
      ensures status == BadMode <==> !canWrite
      ensures status == Protected <==> canWrite && old(Header().protected)
      ensures status in {Done, BadMode, Protected, Full}
      ensures status in {BadMode, Protected} ==> State() == old(State()) && filesize == old(filesize)
      ensures status == Full <==>
        canWrite && !old(Header().protected) && !old(State()).CanReach(entryIndex, old(filesize), size)
      ensures status == Full ==> TooFew(old(Room()), FreeEntries(old(dir[..])), old(filesize), size)
      ensures status == Done ==>
        && filesize == size
        && if size < old(filesize) then Shrunk(old(State()), State(), entryIndex, size)
           else Reached(old(State()), State(), old(filesize), filesize, entryIndex, size)
      ensures old(Exact()) && status != Done ==>
        Exact() && Bytes() == old(Bytes()) && files == old(files) && ix.chains == old(ix.chains)
      ensures old(Exact()) && status == Done ==>
        && (Exact() <==> old(Sizeable(size)))
        && if Exact() then Resized(old(Bytes()), Bytes(), size) else Bytes() == old(Bytes()) == []
      ensures status == Done && size >= old(filesize) ==> Gaining(old(State()), State(), entryIndex)
    {
      hide Sound, Untouched, SizeOf, Map.FreeCount, FreeEntries, Disk.Stored, Described, Tails, TailOk, Sectored,
        TooFew, CanGrow, Reached, Shortened, Disk.Bytes, Resized, SectorsFor, Gaining;
      ghost var d, h := State(), entryIndex;
      DiskHas(d, h);
      HasTail(d.m, d.dir, d.ix, d.owner, d.files, d.spareLsn, d.spareCount, h);
      status := WritableFile();
      if status != Done {
        return;
      }
      if size < filesize {
        var _ := Truncate(size);
        TailsKept(d.dir, d.ix, d.files, dir[..], ix, files, h);
      } else {
        var ok := GrowFile(size);
        if !ok {
          status := Full;
        } else {
          ReachedGains(d, State(), old(filesize), filesize, h, size);
        }
      }
      NothingKept(d, State(), h);
      FileChanged(d, State(), h);
      LockedKept(d, State(), h);
      if old(Exact()) && status == Done {
        SizeLaw(d, State(), h, size, filesize);
      } else if old(Exact()) {
        BytesSame(d, State(), h);
      }
    }

    /** The part of _dragondos_read that reads sectors, up to one that the file does
        not have. */
    method ReadSectors(total: nat) returns (out: seq<Byte>)
      requires SoundNow() && entryIndex in files && Sectored(data[..])
      modifies this`filepos
      ensures |out| <= total && filepos == old(filepos) + |out|
      ensures out != [] ==> filepos <= |files[entryIndex]| * SECTOR_SIZE
      ensures |out| < total ==> filepos >= |files[entryIndex]| * SECTOR_SIZE
      ensures out == Part(data[..], SECTOR_SIZE, files[entryIndex], old(filepos), |out|)
      ensures SoundNow()
    {
      hide Sound, Part, Distinct;
      out := [];
      ghost var start, sectors := filepos, files[entryIndex];
      FileDistinct(bitmap.State(), dir[..], ix, owner, files, spareLsn, spareCount, entryIndex);
      assert Part(data[..], SECTOR_SIZE, sectors, start, 0) == [];
      while |out| < total
        invariant |out| <= total && filepos == start + |out| && SoundNow()
        invariant out != [] ==> filepos <= |sectors| * SECTOR_SIZE
        invariant out == Part(data[..], SECTOR_SIZE, sectors, start, |out|)
        decreases total - |out|
      {
        var offset := filepos % SECTOR_SIZE;
        var chunk := SECTOR_SIZE - offset;
        var found, lsn, _, _ := WalkFile(entryIndex, true, filepos / SECTOR_SIZE);
        if !found {
          return;
        }
        if chunk > total - |out| {
          chunk := total - |out|;
        }
        BlockRead(data[..], SECTOR_SIZE, sectors, filepos, chunk);
        PartMore(data[..], SECTOR_SIZE, sectors, start, |out|, chunk);
        out := out + data[lsn][offset..offset + chunk];
        filepos := filepos + chunk;
      }
    }

    /** _dragondos_read: bytes of the open file from its position on. */
    method Read(wanted: nat) returns (status: Status, out: seq<Byte>)
      requires Valid() && isOpen
      modifies this`filepos
      ensures Valid() && State() == old(State()) && filepos == old(filepos) + |out| && Exact() == old(Exact())
      ensures !canRead ==> status == BadMode && out == []
      ensures canRead && wanted == 0 ==> status == Done && out == []
      ensures canRead && wanted > 0 && old(filepos) >= filesize ==> status == EndOfFile && out == []
      ensures canRead && wanted > 0 && old(filepos) < filesize ==>
        var total := Min(wanted, filesize - old(filepos));
        var sectors := files[entryIndex];
        && out == Part(data[..], SECTOR_SIZE, sectors, old(filepos), |out|)
        && if old(filepos) + total <= |sectors| * SECTOR_SIZE then status == Done && |out| == total
           else
             && status == EndOfFile && |out| < total
             && filepos == if old(filepos) < |sectors| * SECTOR_SIZE then |sectors| * SECTOR_SIZE else old(filepos)
      ensures Exact() ==>
        status == if !canRead then BadMode else if wanted > 0 && old(filepos) >= |Bytes()| then EndOfFile else Done
      ensures Exact() ==>
        out ==
        if status == Done && wanted > 0 then Bytes()[old(filepos)..Min(old(filepos) + wanted, |Bytes()|)] else []
    {
      hide Sound, SizeOf, SectorsFor, Content, Part, Disk.Stored, Sectored, Tails;
      ghost var d := State();
      if !canRead {
        return BadMode, [];
      }
      if wanted == 0 {
        return Done, [];
      }
      if filepos >= filesize {
        return EndOfFile, [];
      }
      var total := wanted;
      if total > filesize - filepos {
        total := filesize - filepos;
      }
      SizeSectors(d.m, d.dir, d.ix, d.owner, d.files, d.spareLsn, d.spareCount, entryIndex);
      FileBounded(d.m, d.dir, d.ix, d.owner, d.files, d.spareLsn, d.spareCount, entryIndex);
      PartOf(d.data, SECTOR_SIZE, d.files[entryIndex], filepos, total, filesize);
      out := ReadSectors(total);
      status := if |out| < total then EndOfFile else Done;
      assert State() == d;
    }

    /** _dd_find_file: the header with a name. */
    method FindFile(name: Name) returns (found: bool, index: nat)
      requires Valid()
      ensures found <==> name in Stored()
      ensures found ==> index in files && index < MAX_ENTRIES && dir[index].name == name
    {
      hide Sound, Disk.Stored, Described;
      NameFound(State(), name);
      index := 0;
      while index < MAX_ENTRIES
        invariant index <= MAX_ENTRIES
        invariant forall k: nat :: k < index ==> !(k in files && dir[k].name == name)
        decreases MAX_ENTRIES - index
      {
        if !dir[index].deleted && !dir[index].continuation && dir[index].name == name {
          return true, index;
        }
        if dir[index].end {
          forall k: nat | index <= k < MAX_ENTRIES
            ensures k !in files
          {
            NoMoreFiles(State(), index, k);
          }
          break;
        }
        index := index + 1;
      }
      found := false;
    }

    /** _dd_file_size, of the file with this header. */
    method ComputeSize(header: nat) returns (size: nat)
      requires SoundNow() && header in files
      ensures size == SizeOf(dir[..], ix, header)
    {
      hide Sound, ChainSectors;
      var _, _, sectors, lastEntry := WalkFile(header, false, 0);
      SoundInDir(bitmap.State(), dir[..], ix, owner, files, spareLsn, spareCount, header);
      size := sectors * SECTOR_SIZE;
      if sectors != 0 && dir[lastEntry].lastOrNext != 0 {
        SizeBelow(bitmap.State(), dir[..], ix, owner, files, spareLsn, spareCount, header);
        size := size - (SECTOR_SIZE - dir[lastEntry].lastOrNext);
      }
    }

    /** _dragondos_open */
    method Open(name: Name, forRead: bool, forWrite: bool) returns (status: Status)
      requires Valid() && !isOpen
      modifies this`isOpen, this`canRead, this`canWrite, this`entryIndex, this`filesize, this`filepos
      ensures Valid() && Stored() == old(Stored())
      ensures status == if name in Stored() then Done else NotFound
      ensures isOpen <==> status == Done
      ensures isOpen ==>
        && entryIndex == State().Head(name) && Header().name == name && Bytes() == Stored()[name]
        && Exact() && filesize == |Bytes()| && filepos == 0 && canRead == forRead && canWrite == forWrite
    {
      hide Sound, Disk.Stored, SizeOf, Tails, Described;
      ghost var d := State();
      var found, index := FindFile(name);
      if !found {
        return NotFound;
      }
      entryIndex := index;
      filesize := ComputeSize(index);
      filepos := 0;
      canRead, canWrite, isOpen := forRead, forWrite, true;
      DiskHas(State(), index);
      if State().Head(name) != index {
        OneHeader(d, State().Head(name), index);
      }
      status := Done;
    }

    /** _dragondos_close: what was set aside is free again. */
    method Close()
      requires Steady() && isOpen
      modifies this`isOpen, this`spareCount, this`owner, bitmap.sectors
      ensures Valid() && !isOpen && bitmap.State().FreeCount() == Room() == old(Room())
      ensures old(Valid()) ==> Stored() == old(Stored())
      ensures old(spareCount) == 0 ==> spareCount == 0 && owner == old(owner) && bitmap.State() == old(bitmap.State())
    {
      hide DirOk, ChainSectors, Fits, Map.FreeCount, SizeOf, Tails;
      if spareCount != 0 {
        PutBack(bitmap.State(), owner, files, spareLsn, spareCount, spareLsn);
        bitmap.Release(spareLsn, spareCount);
        owner := Give(owner, spareLsn, spareCount, Free);
        spareCount := 0;
      }
      isOpen := false;
    }

    /** The part of _dragondos_kill for one entry. */
    method KillEntry(index: nat, ghost m: Map, ghost dir0: seq<Entry>, ghost p: nat) returns (more: bool, next: nat)
      requires Shape() && Sound(m, dir0, ix, owner, files, spareLsn, spareCount) && entryIndex in files
      requires entryIndex in ix.chains && p < |ix.chains[entryIndex]| && index == ix.chains[entryIndex][p]
      requires Killing(m, bitmap.State(), dir0, dir[..], ix, owner, entryIndex, p)
      modifies dir, bitmap.sectors
      ensures Killing(m, bitmap.State(), dir0, dir[..], ix, owner, entryIndex, p + 1)
      ensures more <==> p + 1 < |ix.chains[entryIndex]|
      ensures more ==> next == ix.chains[entryIndex][p + 1]
    {
      hide Sound, Indexed, InDir, KilledSoFar, FreedTo, Before, SectorsTo, Killed, FreeEntries;
      ghost var h, chain, dir1 := entryIndex, ix.chains[entryIndex], dir[..];
      NextLink(dir0, ix, h, p);
      KillNext(dir0, dir[..], ix, h, p);
      WalkEnds(dir0, chain, p);
      more, next := dir[index].continued, dir[index].lastOrNext;
      var i := 0;
      while i < |dir[index].extents|
        invariant i <= |dir[index].extents| && dir[..] == dir1
        invariant FreedTo(m, bitmap.State(), owner, h, 0, SectorsTo(dir0, chain, p, i))
      {
        KillStep(m, bitmap.State(), dir0, ix, owner, files, spareLsn, spareCount, h, p, i);
        bitmap.Release(dir[index].extents[i].lsn, dir[index].extents[i].count);
        i := i + 1;
      }
      dir[index] := Killed(dir[index]);
      KillPlaced(dir0, dir1, dir[..], ix, h, p);
      SoundInDir(m, dir0, ix, owner, files, spareLsn, spareCount, h);
      SoundBounds(m, dir0, ix, owner, files, spareLsn, spareCount, h);
      KillCounts(dir0, dir1, ix, h, p);
      assert dir[..] == dir1[index := Killed(dir1[index])];
    }

    /** The part of _dragondos_kill that frees the sectors and the entries of the
        file that it has opened. */
    method KillEntries() returns (ok: bool)
      requires Steady() && entryIndex in files
      modifies this`ix, this`owner, this`files, dir, bitmap.sectors
      ensures ok && Steady() && files == old(files) - {entryIndex} && Room() == old(Room() + |files[entryIndex]|)
      ensures entryIndex < MAX_ENTRIES && dir[entryIndex].deleted
      ensures Untouched(old(dir[..]), old(ix), old(files), dir[..], ix, files, entryIndex)
      ensures Gone(old(dir[..]), dir[..], old(ix), entryIndex) && old(entryIndex in ix.chains)
      ensures FreeEntries(dir[..]) + (if entryIndex == 0 then 1 else 0)
        == old(FreeEntries(dir[..]) + |ix.chains[entryIndex]|)
    {
      hide Sound, Killing, Untouched, TakeBack, Map.FreeCount, FreeEntries, Gone, Tails, Sectored;
      ghost var m, dir0, h := bitmap.State(), dir[..], entryIndex;
      SoundBounds(m, dir0, ix, owner, files, spareLsn, spareCount, h);
      ghost var chain := ix.chains[h];
      KillBegun(m, dir0, ix, owner, h);
      var index, guard, more := entryIndex, 0, true;
      while guard < MAX_ENTRIES && more
        invariant guard <= |chain| && (more <==> guard < |chain|) && (more ==> index == chain[guard])
        invariant Killing(m, bitmap.State(), dir0, dir[..], ix, owner, h, guard)
        modifies dir, bitmap.sectors
      {
        var next;
        more, next := KillEntry(index, m, dir0, guard);
        if more {
          index := next;
        }
        guard := guard + 1;
      }
      ok := !more;
      KillDone(m, bitmap.State(), dir0, dir[..], ix, owner, files, spareLsn, spareCount, h);
      ghost var ix0, files0 := ix, files;
      ix := Index(ix.chains - {h}, ix.place);
      owner := TakeBack(owner, h, 0);
      files := files - {h};
      TailsKept(dir0, ix0, files0, dir[..], ix, files, h);
    }

    /** _dragondos_kill */
    method Kill(name: Name) returns (status: Status)
      requires Valid() && !isOpen
      modifies this, dir, bitmap.sectors
      ensures Valid() && !isOpen
      ensures status ==
        if name !in old(Stored()) then NotFound else if name in old(Locked()) then Protected else Done
      ensures status == Done ==>
        Stored() == old(Stored()) - {name} && Room() == old(Room()) + SectorsFor(|old(Stored())[name]|)
      ensures status == Done ==>
        var h := old(State().Head(name));
        && Gone(old(dir[..]), dir[..], old(ix), h) && h < MAX_ENTRIES && dir[h].deleted
        && ChainFree(old(dir[..]), dir[..], old(ix), h)
        && FreeEntries(dir[..]) == old(FreeEntries(dir[..]) + State().Entries(name))
      ensures Locked() == old(Locked())
      ensures status != Done ==> State() == old(State())
    {
      hide Sound, Disk.Stored, Disk.Bytes, Described, SectorsFor, Map.FreeCount, Untouched, SizeOf, Gone, FreeEntries,
        Tails, Sectored, Disk.Locked, ChainFree;
      ghost var d := State();
      status := Open(name, true, true);
      if status != Done {
        return;
      }
      ghost var h := entryIndex;
      LockedIs(State(), entryIndex);
      DiskHas(State(), h);
      SizeSectors(d.m, d.dir, d.ix, d.owner, d.files, d.spareLsn, d.spareCount, h);
      SoundBounds(d.m, d.dir, d.ix, d.owner, d.files, d.spareLsn, d.spareCount, h);
      status := WritableFile();
      if status == Done {
        var _ := KillEntries();
        GoneFree(d.dir, dir[..], d.ix, h);
      }
      Close();
      if status == Done {
        FileGone(d, State(), h);
        LockedGone(d, State(), h);
      }
    }

    /** _dragondos_create: a file of that name is replaced, unless noCreate is
        set. */
    method Create(name: Name, forRead: bool, noCreate: bool) returns (status: Status)
      requires Valid() && !isOpen
      modifies this, dir, bitmap.sectors
      ensures Valid() && (isOpen <==> status == Done)
      ensures status ==
        if name in old(Stored()) then (if noCreate then Exists else if name in old(Locked()) then Protected else Done)
        else if exists e: nat :: e < MAX_ENTRIES && old(dir[..])[e].deleted then Done
        else Full
      ensures status == Done ==> Stored() == old(Stored())[name := []]
      ensures Locked() == old(Locked())
      ensures status == Done ==>
        && Header() == NewHeader(name) && Bytes() == [] && Exact() && filesize == 0 && filepos == 0
        && canRead == forRead && canWrite && files[entryIndex] == []
        && entryIndex in ix.chains && ix.chains[entryIndex] == [entryIndex]
      ensures status == Done ==> forall e: nat :: e < entryIndex && e < MAX_ENTRIES ==> !dir[e].deleted
      ensures status != Done ==> State() == old(State())
      ensures FreeEntries(dir[..]) + (if status == Done && entryIndex > 0 then 1 else 0)
        == old(FreeEntries(dir[..])) + if status == Done && name in old(Stored()) then old(State().Entries(name)) else 0
      ensures Room() ==
        old(Room()) + if status == Done && name in old(Stored()) then SectorsFor(|old(Stored())[name]|) else 0
      decreases name in Stored()
    {
      hide Sound, Disk.Stored, SectorsFor, Map.FreeCount, Untouched, SizeOf, Described, FreeEntries, Tails, Gone;
      var found, index := FindFile(name);
      if found {
        if noCreate {
          return Exists;
        }
        status := Kill(name);
        if status == Done {
          status := Create(name, forRead, noCreate);
        }
        return;
      }
      status := MakeFile(name, forRead);
    }

    method NewFile(name: Name, index: nat)
      requires SoundNow() && index < MAX_ENTRIES && dir[index].deleted && forall i: nat :: i < index ==> !dir[i].deleted
      requires forall k: nat :: k in files ==> k < MAX_ENTRIES && dir[k].name != name
      modifies this`ix, this`files, dir
      ensures SoundNow() && Untouched(old(dir[..]), old(ix), old(files), dir[..], ix, files, index)
      ensures index !in old(files) && files == old(files)[index := []] && SizeOf(dir[..], ix, index) == 0
      ensures dir[index] == NewHeader(name) && ix.chains == old(ix.chains)[index := [index]]
      ensures FreeEntries(dir[..]) + (if index > 0 then 1 else 0) == old(FreeEntries(dir[..]))
      ensures forall e: nat :: e < index ==> !dir[e].deleted
    {
      hide Sound, Untouched, SizeOf, NewHeader, FreeEntries;
      ghost var m, dir0, next := bitmap.State(), dir[..], NewHeader(name);
      SoundPlaces(m, dir0, ix, owner, files, spareLsn, spareCount);
      MakeDone(m, dir0, ix, owner, files, spareLsn, spareCount, index, name);
      dir[index] := NewHeader(name);
      assert dir[..] == dir0[index := next];
      ix := Index(ix.chains[index := [index]], ix.place[index := Place(index, 0)]);
      files := files[index := []];
    }

    /** The end of _dragondos_create: the path to the file that it has made. */
    method OpenNew(name: Name, index: nat, forRead: bool)
      requires Valid() && !isOpen && name !in Stored()
      requires index < MAX_ENTRIES && dir[index].deleted && forall i: nat :: i < index ==> !dir[i].deleted
      modifies this, dir
      ensures Valid() && isOpen && Room() == old(Room()) && Stored() == old(Stored())[name := []]
      ensures Locked() == old(Locked())
      ensures Header() == NewHeader(name) && Bytes() == [] && Exact() && filesize == 0 && filepos == 0
      ensures canRead == forRead && canWrite && files[entryIndex] == []
      ensures entryIndex in ix.chains && ix.chains[entryIndex] == [entryIndex]
      ensures entryIndex == index && forall e: nat :: e < index ==> !dir[e].deleted
      ensures FreeEntries(dir[..]) + (if entryIndex > 0 then 1 else 0) == old(FreeEntries(dir[..]))
    {
      hide Sound, Disk.Stored, SectorsFor, Map.FreeCount, Untouched, SizeOf, Described, NewHeader, FreeEntries, Tails,
        Sectored, Disk.Bytes, Disk.Locked;
      ghost var d := State();
      NameFound(d, name);
      NewFile(name, index);
      TailsKept(d.dir, d.ix, d.files, dir[..], ix, files, index);
      isOpen, canRead, canWrite, entryIndex, filesize, filepos := true, forRead, true, index, 0, 0;
      FileNew(d, State(), index);
      LockedNew(d, State(), index);
    }

    /** The part of _dragondos_create after the name is found to be free. */
    method MakeFile(name: Name, forRead: bool) returns (status: Status)
      requires Valid() && !isOpen && name !in Stored()
      modifies this, dir
      ensures Valid() && (isOpen <==> status == Done) && Room() == old(Room())
      ensures status == if exists e: nat :: e < MAX_ENTRIES && old(dir[..])[e].deleted then Done else Full
      ensures status == Done ==> Stored() == old(Stored())[name := []]
      ensures Locked() == old(Locked())
      ensures status == Done ==>
        && Header() == NewHeader(name) && Bytes() == [] && Exact() && filesize == 0 && filepos == 0
        && canRead == forRead && canWrite && files[entryIndex] == []
        && entryIndex in ix.chains && ix.chains[entryIndex] == [entryIndex]
      ensures status == Done ==> forall e: nat :: e < entryIndex && e < MAX_ENTRIES ==> !dir[e].deleted
      ensures status != Done ==> State() == old(State())
      ensures FreeEntries(dir[..]) + (if status == Done && entryIndex > 0 then 1 else 0) == old(FreeEntries(dir[..]))
    {
      hide Sound, Disk.Stored, Disk.Bytes, Map.FreeCount, SizeOf, Described, NewHeader, FreeEntries, Tails;
      var found, index := FindFreeEntry(0);
      if !found {
        return Full;
      }
      OpenNew(name, index, forRead);
      status := Done;
    }

    /** _dragondos_seek */
    method Seek(offset: int, whence: Whence) returns (status: Status)
      requires Valid() && isOpen
      modifies this`filepos
      ensures Valid() && State() == old(State()) && Exact() == old(Exact())
      ensures
        var position := offset +
          match whence case FromStart => 0 case FromPosition => old(filepos) case FromEnd => filesize;
        if 0 <= position <= 737280 then status == Done && filepos == position
        else status == BadSeek && filepos == old(filepos)
    {
      hide Sound, Disk.Stored, SizeOf, Tails;
      var position := offset;
      match whence {
        case FromStart =>
        case FromPosition => position := filepos + offset;
        case FromEnd => position := filesize + offset;
      }
      if position < 0 || position > MAX_LSN * SECTOR_SIZE {
        return BadSeek;
      }
      filepos := position;
      status := Done;
    }

    /** The open file's header is given another name or protection. */
    method SetHead(name: Name, protected: bool)
      requires Valid() && isOpen && (name == Header().name || name !in Stored())
      modifies dir
      ensures FreeEntries(dir[..]) == old(FreeEntries(dir[..])) && Exact() == old(Exact())
      ensures HeadChanged(old(dir[..]), dir[..], entryIndex, name, protected)
      ensures Valid() && Headed(old(State()), State(), entryIndex)
    {
      hide Sound, Disk.Stored, Map.FreeCount, SizeOf, Described, Tails, FreeEntries;
      ghost var d, h := State(), entryIndex;
      NameFound(d, name);
      DiskHas(d, h);
      forall k: nat | k in files && k != h
        ensures k < MAX_ENTRIES && dir[k].name != name
      {
        OneHeader(d, h, k);
      }
      HeadDone(d.m, d.dir, d.ix, d.owner, d.files, d.spareLsn, d.spareCount, h, name, protected);
      dir[entryIndex] := dir[entryIndex].(name := name, protected := protected);
      TailsSame(d.dir, dir[..], ix);
      EntriesSame(d.dir, dir[..]);
      FileHeaded(d, State(), h);
    }

    /** _dragondos_ss_fd */
    method SetProtected(protected: bool) returns (status: Status)
      requires Valid() && isOpen
      modifies dir
      ensures status == if canWrite then Done else BadMode
      ensures FreeEntries(dir[..]) == old(FreeEntries(dir[..])) && Exact() == old(Exact())
      ensures Valid() && Header() == if canWrite then old(Header()).(protected := protected) else old(Header())
      ensures HeadChanged(old(dir[..]), dir[..], entryIndex, old(Header()).name, Header().protected)
      ensures Bytes() == old(Bytes()) && Stored() == old(Stored())
      ensures Locked() == old(Locked()) - {Header().name} + if Header().protected then {Header().name} else {}
    {
      hide Sound, Disk.Stored, Disk.Bytes, Described, SizeOf, Tails, FreeEntries, Sectored, Disk.Locked;
      if !canWrite {
        LockedSame(State(), entryIndex);
        assert dir[..] == dir[..][entryIndex := dir[..][entryIndex]];
        return BadMode;
      }
      DiskHas(State(), entryIndex);
      ghost var stored, name := Stored(), Header().name;
      SetHead(dir[entryIndex].name, protected);
      PutBackAt(stored, name, Bytes());
      status := Done;
    }

    /** _dragondos_rename */
    method Rename(name: Name, newName: Name) returns (status: Status)
      requires Valid() && !isOpen
      modifies this, dir, bitmap.sectors
      ensures Valid() && !isOpen && Room() == old(Room()) && ix == old(ix) && Locked() == old(Locked())
      ensures FreeEntries(dir[..]) == old(FreeEntries(dir[..]))
      ensures status ==
        if name !in old(Stored()) then NotFound
        else if name in old(Locked()) then Protected
        else if newName in old(Stored()) then Exists
        else Done
      ensures Stored() ==
        if status == Done then (old(Stored()) - {name})[newName := old(Stored())[name]] else old(Stored())
      ensures status == Done ==>
        HeadChanged(old(dir[..]), dir[..], old(State().Head(name)), newName, false)
      ensures status != Done ==> State() == old(State())
    {
      hide Sound, Disk.Stored, Disk.Bytes, Described, SizeOf, Map.FreeCount, Tails, FreeEntries, Sectored, Disk.Locked;
      status := Open(name, true, true);
      if status != Done {
        return;
      }
      LockedIs(State(), entryIndex);
      DiskHas(State(), entryIndex);
      status := WritableFile();
      if status == Done {
        var found, _ := FindFile(newName);
        if found {
          status := Exists;
        } else {
          SetHead(newName, dir[entryIndex].protected);
        }
      }
      Close();
    }

    /** _dragondos_dskinit, which makes no disk of another geometry: EOS_IA. */
    static method Dskinit(tracks: nat, sides: nat) returns (v: Volume?)
      ensures v != null <==> tracks > 20 && (sides == 1 || sides == 2) && tracks * 18 * sides <= 2880
      ensures v != null ==>
        && fresh(v) && v.Valid() && !v.isOpen && v.Stored() == map[]
        && v.Room() + 2 * TRACK == tracks * TRACK * sides
        && FreeEntries(v.dir[..]) == MAX_ENTRIES - 1 && (forall e: nat :: e < MAX_ENTRIES ==> v.dir[e].deleted)
        && fresh(v.bitmap) && fresh(v.bitmap.sectors) && fresh(v.dir) && fresh(v.data)
      ensures v != null ==>
        && (forall e: nat :: e < 160 ==> v.dir[e].end && v.dir[e].continuation && !v.dir[e].protected)
        && (forall l: nat :: l < 2880 ==> v.data[l] == seq(256, j => 0xE5))
        && v.bitmap.total == tracks * 18 * sides && v.bitmap.directory == 360 * sides && v.spareCount == 0
      ensures v != null ==> forall l: nat :: l < tracks * 18 * sides ==>
        (v.bitmap.sectors[l] <==>
          !(360 * sides <= l < 360 * sides + 18) && !(288 * sides <= l < 288 * sides + 18))
    {
      v := null;
      if tracks <= 20 || (sides != 1 && sides != 2) || tracks * TRACK * sides > MAX_LSN {
        return;
      }
      v := new Volume(tracks, sides);
    }
  }

  /** A disk with an empty file that has just been made. */
  method EmptyFile() returns (v: Volume)
    ensures fresh(v) && fresh(v.bitmap) && fresh(v.bitmap.sectors) && fresh(v.dir) && fresh(v.data)
    ensures v.isOpen && v.canWrite && v.filesize == 0 && v.filepos == 0
    ensures v.Valid() && v.Exact() && !v.Header().protected && v.files[v.entryIndex] == []
    ensures v.Room() == 40 * TRACK - 2 * TRACK
  {
    hide Sound, SizeOf, Map.FreeCount, Tails, FreeEntries, Sectored, Disk.Stored, Disk.Bytes, Described, NewHeader,
      Gone, Disk.Locked;
    var disk := Volume.Dskinit(40, 1);
    v := disk;
    assert v.dir[..][0].deleted;
    var _ := v.Create("EMPTY", true, false);
    assert v.Header() == NewHeader("EMPTY");
  }

  /** It cannot fail to get a size for which no sectors are counted. */
  lemma {:induction false} NoneTooFew(room: nat, entries: nat, size: nat)
    requires WORD - SECTOR_SIZE < size < WORD
    ensures !TooFew(room, entries, 0, size)
  {
    hide Needed;
    NeededExact(0, size);
  }

  /** A new file given a size that grow does not count right: the call succeeds, the
      path has the size, and the file has no sector and no bytes. */
  method EmptyFileGrown(size: nat) returns (v: Volume, status: Status)
    requires WORD - SECTOR_SIZE < size < WORD
    ensures status == Done && fresh(v) && v.Valid() && v.isOpen && !v.Exact()
    ensures v.filesize == size && v.Bytes() == [] && v.files[v.entryIndex] == [] && v.Room() == 40 * TRACK - 2 * TRACK
  {
    hide Sound, SizeOf, Map.FreeCount, Tails, FreeEntries, Sectored, Disk.Stored, Disk.Bytes, Described, Reached,
      Shrunk, Resized, Disk.CanReach, TooFew, SectorsFor, Disk.Locked;
    v := EmptyFile();
    ghost var d, h := v.State(), v.entryIndex;
    NoneTooFew(v.Room(), FreeEntries(v.dir[..]), size);
    status := v.SetSize(size);
    GrownSize(d, v.State(), 0, size, h, size);
  }

  /** What a write into an empty file comes to when its end is not counted right. */
  lemma {:induction false} EmptyWrite(
      d: Disk, d': Disk, now: nat, h: nat, input: seq<Byte>, status: Status, count: nat)
    requires h in d.files && d.files[h] == [] && WORD - SECTOR_SIZE < |input| < WORD
    requires WriteOutcome(d, d', 0, now, h, 0, input, status, count) && status == EndOfFile
    ensures count == 0 && now == 0 && h in d'.files && d'.files[h] == []
  {
    hide Stopped;
    EmptyStopped(d, d', now, h, input, input[..count]);
  }

  /** A write into a new file that ends where grow does not count right: the sectors
      it needs are not there, and nothing is written. */
  method EmptyFileWritten(input: seq<Byte>) returns (v: Volume, status: Status, count: nat)
    requires WORD - SECTOR_SIZE < |input| < WORD
    ensures status == EndOfFile && count == 0 && fresh(v) && v.Valid() && v.isOpen
    ensures v.Exact() && v.filesize == 0 && v.Bytes() == [] && v.files[v.entryIndex] == []
  {
    hide Sound, SizeOf, Map.FreeCount, Tails, FreeEntries, Sectored, Disk.Stored, Disk.Bytes, Described, WriteOutcome,
      Disk.CanReach, TooFew, SectorsFor, Wrote, Disk.Locked;
    v := EmptyFile();
    ghost var d, h := v.State(), v.entryIndex;
    NoneTooFew(v.Room(), FreeEntries(v.dir[..]), |input|);
    status, count := v.Write(input);
    EmptyWrite(d, v.State(), v.filesize, h, input, status, count);
    EmptyBytes(v.State(), v.entryIndex);
  }
}
