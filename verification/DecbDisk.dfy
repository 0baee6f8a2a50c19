/** A Disk BASIC disk with the path that may be open on it: the sectors, the granule
    table, the last sector sizes that the directory has, and the path's fields. */
module DecbDisk {
  import opened Bits
  import opened Blocks
  import opened Counting
  import opened DecbSearch
  import opened DecbFat
  import opened DecbDir

  datatype Whence = FromStart | FromPosition | FromEnd

  /** What a call returns: 0, EOS_BMODE, EOS_FNA, EOS_EOF, EOS_DF, EOS_PNNF, EOS_FAE;
      or it never returns. */
  datatype Status = Done | BadMode | NotAllowed | EndOfFile | Full | NotFound | Exists | Endless

  class Disk {
    const granuleCount: nat
    const fat: array<nat>
    const slots: array<seq<Byte>>    // the sectors, 18 a track
    const directory: array<DirEntry>
    // The open path, with its entry.
    var isOpen: bool
    var dirIndex: nat
    var name: EntryName
    var firstGranule: nat
    var lastSize: nat
    var canRead: bool
    var canWrite: bool
    var filepos: nat
    // What the table and the directory mean.
    ghost const reserved: nat        // granules of another system
    ghost var owner: seq<Owner>
    ghost var files: Files
    ghost var lastSizes: map<nat, nat>

    ghost predicate Shape() {
      fat.Length == 256 && granuleCount <= LAST && granuleCount % 2 == 0 && Slot(granuleCount) <= slots.Length
    }

    ghost predicate SoundNow()
      reads this, fat
    {
      Shape() && |owner| == granuleCount && Sound(fat[..], owner, files) && Reserved(owner, reserved)
    }

    /** The granules. */
    ghost function Granules(): (r: Data)
      requires Shape()
      reads slots
    {
      Granulated(slots[..], granuleCount)
    }

    /** What holds between calls. */
    ghost predicate Valid()
      reads this, fat, slots, directory
    {
      && SoundNow() && granuleCount > 34 && Formatted(slots[..]) && SizesOk(fat[..], files, lastSizes)
      && Listed(directory[..], lastSizes)
      && (isOpen ==> firstGranule in files && SizeOk(fat[..], files[firstGranule], lastSize) && Entered())
    }

    /** The directory has the path's entry. */
    predicate Entered()
      reads this, directory
    {
      dirIndex < directory.Length && directory[dirIndex] == Entry(name, firstGranule, lastSize)
    }

    /** What the calls that read and write need of the open file. */
    ghost predicate Ready()
      reads this, fat, slots
    {
      SoundNow() && Formatted(slots[..]) && firstGranule in files && SizeOk(fat[..], files[firstGranule], lastSize)
    }

    /** The files on the disk, by first granule. */
    ghost function ByGranule(): map<nat, seq<Byte>>
      requires Shape() && SizesOk(fat[..], files, lastSizes)
      reads this, fat, slots
    {
      Store(fat[..], files, lastSizes, Granules())
    }

    /** The files on the disk, by name. */
    ghost function Stored(): map<EntryName, seq<Byte>>
      requires Valid()
      reads this, fat, slots, directory
    {
      Named(directory[..], ByGranule())
    }

    /** The bytes of the open file. */
    ghost function Bytes(): seq<Byte>
      requires Ready()
      reads this, fat, slots
    {
      Content(Granules(), GRANULE, Mine(), Size(fat[..], Mine(), lastSize))
    }

    /** The part of _decb_dskini that formats the table.  Tracks are 35, 40 or 80. */
    constructor (tracks: nat, skitzo: bool)
      requires tracks >= 35
      ensures Valid() && !isOpen && files == map[] && Stored() == map[]
      ensures fresh(fat) && fresh(slots) && fresh(directory)
      ensures reserved == if skitzo then 34 else 0
      ensures directory.Length == ENTRIES && forall i: nat :: i < ENTRIES ==> directory[i].Empty?
      ensures granuleCount == if tracks == 40 then 78 else if tracks == 80 then 156 else 68
      ensures FreeGranules(fat[..], granuleCount) == granuleCount - if skitzo then 34 else 0
      ensures fat.Length == 256 && slots.Length == 18 * tracks
      ensures forall g: nat :: g < 256 ==> fat[g] == if g < granuleCount && (g >= 34 || !skitzo) then 0xFF else 0
      ensures forall t: nat :: t < 18 * tracks && t / 18 != 17 ==> slots[t] == seq(256, j => 0xFF)
    {
      hide FreeGranules, Listed, SizesOk, Store, Named, Granulated;
      var max, min := if tracks == 40 then 78 else if tracks == 80 then 156 else 68, if skitzo then 34 else 0;
      granuleCount := max;
      fat := new nat[256](i => if min <= i < max then UNUSED else 0);
      slots := new seq<Byte>[18 * tracks](i => seq(SECTOR, j => 0xFF));
      directory := new DirEntry[ENTRIES](i => Empty);
      isOpen, dirIndex, name, firstGranule, lastSize := false, 0, EntryName("", ""), 0, 0;
      filepos, canRead, canWrite := 0, false, false;
      reserved, lastSizes := min, map[];
      owner, files := seq(max, g => if g < min then Other else Free), map[];
      new;
      TableFormatted(fat[..], max, min);
      NothingListed(directory[..]);
      NothingStored(fat[..], Granules());
    }

    /** _decb_gs_granule */
    method GsGranule(granule: nat) returns (buffer: seq<Byte>)
      requires Shape() && granule < granuleCount
      ensures buffer == Granules()[granule]
    {
      SlotsApart(granule, granuleCount, 0, 0);
      var slot := Slot(granule);
      buffer := [];
      for count := 0 to SECTORS
        invariant buffer == Joined(slots[..], slot, count)
      {
        buffer := buffer + slots[slot + count];
      }
    }

    /** _decb_ss_granule */
    method SsGranule(granule: nat, buffer: seq<Byte>)
      requires Shape() && granule < granuleCount && |buffer| == GRANULE && Formatted(slots[..])
      modifies slots
      ensures Granules() == old(Granules())[granule := buffer] && Formatted(slots[..])
      ensures DirectoryKept(old(slots[..]), slots[..])
    {
      hide Joined, SectorIs, Granulated;
      SlotsApart(granule, granuleCount, 0, 0);
      ghost var slots0 := slots[..];
      var slot := Slot(granule);
      for count := 0 to SECTORS
        invariant forall t: nat :: t < slots.Length && !(slot <= t < slot + count) ==> slots[t] == slots0[t]
        invariant forall c: nat :: c < count ==> SectorIs(slots[..], slot, buffer, c)
      {
        SectorSet(slots[..], slot, buffer, count);
        slots[slot + count] := buffer[SECTOR * count..SECTOR * (count + 1)];
      }
      GranuleSet(slots0, slots[..], granuleCount, granule, buffer);
      forall t: nat | t < slots.Length
        ensures |slots[t]| == SECTOR && (t / 18 == 17 ==> slots[t] == slots0[t])
      {
        if slot <= t < slot + SECTORS {
          SectorLength(slots[..], slot, buffer, t - slot);
          SlotsApart(granule, granule, t - slot, t - slot);
        }
      }
    }

    /** The part of find_free_granule that goes on from the end of a track. */
    method Turn(position0: int, counter: nat, down0: bool, ghost lo: nat, ghost hi: nat, ghost s: nat)
      returns (position: int, down: bool)
      requires Shape() && lo <= s < hi <= granuleCount / 2 && counter == 2 * (hi - lo)
      requires position0 == if down0 then 2 * lo + 2 else 2 * hi
      requires !down0 && lo > 0 ==> NextTrack(true, lo, hi, granuleCount / 2, s, lo - 1)
      requires !down0 && lo == 0 ==> NextTrack(false, lo, hi, granuleCount / 2, s, hi)
      requires down0 && hi < granuleCount / 2 ==> NextTrack(false, lo, hi, granuleCount / 2, s, hi)
      requires down0 && hi == granuleCount / 2 ==> NextTrack(true, lo, hi, granuleCount / 2, s, lo - 1)
      ensures position == if down then 2 * (lo - 1) else 2 * hi
      ensures NextTrack(down, lo, hi, granuleCount / 2, s, if down then lo - 1 else hi)
      ensures counter < granuleCount ==> 0 <= position < granuleCount
    {
      hide NextTrack;
      position, down := position0, down0;
      var save := position;
      position := position - 2;
      down := !down;
      if down {
        position := position - counter;
        if position < 0 {
          position := save;
          down := !down;
        }
      } else {
        position := position + counter;
        if position >= granuleCount {
          position := save - 4;
          down := !down;
        }
      }
    }

    /** find_free_granule: the first free granule in the order of Before, if there
        is one.  It looks at each granule once at most, and at all of them before
        it fails. */
    method FindFreeGranule(nextTo: nat) returns (ok: bool, granule: nat, ghost seen: seq<nat>)
      requires Shape() && nextTo < granuleCount
      ensures ok <==> exists g: nat :: g < granuleCount && fat[g] == UNUSED
      ensures ok ==> granule < granuleCount && fat[granule] == UNUSED
      ensures ok ==>
        forall g: nat :: g < granuleCount && fat[g] == UNUSED && g != granule ==> Before(granule, g, nextTo)
      ensures ok ==> fat[granule] == 0xFF && forall g: nat :: g < granuleCount && fat[g] == 0xFF && g != granule ==>
        var t, u, from := granule / 2, g / 2, nextTo / 2;
        || (t == u && granule < g)
        || (t != u && Apart(t, from) < Apart(u, from))
        || (t < from < u && from - t == u - from)
      ensures InOrder(seen, nextTo) && forall i: nat :: i < |seen| ==> seen[i] < granuleCount
      ensures if ok then |seen| > 0 && seen[|seen| - 1] == granule else |seen| == granuleCount
    {
      hide Before, Looked, NextTrack, InOrder, Searching, Seen;
      var counter, down := 0, false;
      var position: int := nextTo - nextTo % 2;
      ghost var lo: nat, hi: nat, looked: seq<nat> := nextTo / 2, nextTo / 2, [];
      seen := [];
      SearchBegins(fat[..], granuleCount, nextTo);
      while counter < granuleCount
        invariant counter == |seen| <= granuleCount
        invariant Searching(fat[..], granuleCount, seen, looked, lo, hi, nextTo, down, position)
        decreases granuleCount - counter
      {
        SearchFinds(fat[..], granuleCount, seen, looked, lo, hi, nextTo, down, position);
        if fat[position] == UNUSED {
          NearestIs(fat[..], granuleCount, position, nextTo);
          return true, position, seen + [position];
        }
        counter := counter + 1;
        if (position + 1) % 2 == 1 {
          SearchOn(fat[..], granuleCount, seen, looked, lo, hi, nextTo, down, position);
          seen := seen + [position];
          position := position + 1;
          continue;
        }
        lo, hi := SearchEnd(fat[..], granuleCount, seen, looked, lo, hi, nextTo, down, position);
        ghost var last := position;
        position, down := Turn(position + 1, counter, down, lo, hi, nextTo / 2);
        SearchTurns(fat[..], granuleCount, seen, last, lo, hi, nextTo, down, position);
        seen := seen + [last];
        looked := seen;
      }
      SearchFails(fat[..], granuleCount, seen, looked, lo, hi, nextTo, down, position);
      ok, granule := false, 0;
    }

    /** The granules of the open file. */
    ghost function Mine(): Chain
      requires firstGranule in files
      reads this
    {
      files[firstGranule]
    }

    /** _decb_gs_size */
    method GsSize() returns (size: nat)
      requires SoundNow() && firstGranule in files
      ensures Linked(fat[..], Mine()) && size == Size(fat[..], Mine(), lastSize)
      ensures
        var last := fat[Mine()[|Mine()| - 1]];
        0xC0 <= last <= 0xC9
        && size == 2304 * (|Mine()| - 1) + (if last == 0xC0 then 0 else 256 * (last - 0xC1)) + lastSize
    {
      ghost var chain := Mine();
      size := 0;
      var granule := firstGranule;
      ghost var i := 0;
      assert Next(fat[..], chain, 0);
      while fat[granule] < LAST
        invariant i < |chain| && granule == chain[i] && Next(fat[..], chain, i) && size == i * GRANULE
        decreases |chain| - i
      {
        granule := fat[granule];
        size := size + GRANULE;
        i := i + 1;
        assert Next(fat[..], chain, i);
        assert granule < granuleCount;
      }
      assert i == |chain| - 1;
      var sectors: int := fat[granule] - LAST - 1;
      sectors := if sectors < 0 then 0 else sectors;
      size := size + SECTOR * sectors + lastSize;
    }

    /** The walk of extend_fat_chain to the end of the file. */
    method WalkToEnd() returns (granule: nat, room: nat)
      requires SoundNow() && firstGranule in files
      ensures |Mine()| > 0 && granule == Last(Mine()) < granuleCount && room == |Mine()| * GRANULE
    {
      ghost var chain := Mine();
      granule, room := firstGranule, 0;
      ghost var i := 0;
      assert Next(fat[..], chain, 0);
      while fat[granule] < LAST
        invariant i < |chain| && granule == chain[i] && Next(fat[..], chain, i) && room == i * GRANULE
        decreases |chain| - i
      {
        granule := fat[granule];
        room := room + GRANULE;
        i := i + 1;
        assert Next(fat[..], chain, i);
      }
      assert granule == chain[i] < granuleCount;
      room := room + GRANULE;
    }

    /** The part of extend_fat_chain that links one more granule. */
    method AddGranule(granule: nat) returns (ok: bool, added: nat)
      requires SoundNow() && firstGranule in files && |Mine()| > 0 && granule == Last(Mine()) < granuleCount
      modifies this`owner, this`files, fat
      ensures SoundNow() && OthersKeep(old(fat[..]), old(files), fat[..], files, firstGranule)
      ensures ok ==> firstGranule in files && Mine() == old(Mine()) + [added] && added < granuleCount
      ensures ok ==> FreeGranules(fat[..], granuleCount) + 1 == FreeGranules(old(fat[..]), granuleCount)
      ensures ok ==> old(fat[..])[added] == UNUSED && fat[..] == old(fat[..])[granule := added][added := LAST]
      ensures ok ==>
        forall g: nat :: g < granuleCount && old(fat[..])[g] == UNUSED && g != added ==> Before(added, g, granule)
      ensures !ok ==> files == old(files) && owner == old(owner) && fat[..] == old(fat[..])
      ensures !ok ==> FreeGranules(fat[..], granuleCount) == 0
    {
      hide Sound, FreeGranules, Before;
      ghost var seen;
      ok, added, seen := FindFreeGranule(granule);
      if !ok {
        NoneFree(fat[..], granuleCount);
        return;
      }
      GranuleAdded(fat[..], owner, files, firstGranule, added);
      StillReserved(fat[..], owner, files, reserved, added, Of(firstGranule, |Mine()|));
      fat[granule] := added;
      fat[added] := LAST;
      owner := owner[added := Of(firstGranule, |Mine()|)];
      files := files[firstGranule := Mine() + [added]];
    }

    /** extend_fat_chain: the open file gets a larger size, or the table is as it
        was and there were too few free granules. */
    method ExtendFatChain(newSize: nat) returns (ok: bool)
      requires SoundNow() && firstGranule in files && newSize > (|Mine()| - 1) * GRANULE
      modifies this`lastSize, this`owner, this`files, fat
      ensures SoundNow() && firstGranule in files && OthersKeep(old(fat[..]), old(files), fat[..], files, firstGranule)
      ensures ok ==> old(Mine()) <= Mine() && Linked(fat[..], Mine())
      ensures ok ==> Size(fat[..], Mine(), lastSize) == newSize && 0 < lastSize <= SECTOR
      ensures ok ==> SizeOk(fat[..], Mine(), lastSize) && |Mine()| == GranulesFor(newSize)
      ensures ok ==> Nearest(old(fat[..]), granuleCount, Mine(), |old(Mine())|)
      ensures TableKept(old(fat[..]), fat[..], Mine())
      ensures ok ==>
        FreeGranules(fat[..], granuleCount) + |Mine()| == FreeGranules(old(fat[..]), granuleCount) + |old(Mine())|
      ensures !ok ==> fat[..] == old(fat[..]) && files == old(files) && lastSize == old(lastSize)
      ensures !ok ==> FreeGranules(fat[..], granuleCount) + |Mine()| < GranulesFor(newSize)
    {
      hide Sound, FreeGranules, Linked, OthersKeep, Nearest, NearestTo, FreeBut, Before, SizeOk, Size, TableKept;
      var saved := fat[..];
      ghost var owner0, files0 := owner, files;
      NothingChanged(saved, files);
      FreeButChain(saved, owner, files, firstGranule);
      NearestNone(saved, granuleCount, Mine());
      TableSame(saved, Mine());
      var granule, room := WalkToEnd();
      while newSize > room
        invariant SoundNow() && firstGranule in files && |Mine()| > 0 && granule == Last(Mine()) < granuleCount
        invariant OthersKeep(saved, files0, fat[..], files, firstGranule) && files0[firstGranule] <= Mine()
        invariant room == |Mine()| * GRANULE && newSize > room - GRANULE
        invariant FreeBut(saved, fat[..], granuleCount, Mine()) && TableKept(saved, fat[..], Mine())
        invariant Nearest(saved, granuleCount, Mine(), |files0[firstGranule]|)
        invariant FreeGranules(fat[..], granuleCount) + |Mine()|
          == FreeGranules(saved, granuleCount) + |files0[firstGranule]|
        decreases newSize - room
        modifies this`owner, this`files, fat
      {
        ghost var fat1, files1 := fat[..], files;
        OnePlace(fat1, owner, files, firstGranule, |Mine()| - 1, firstGranule, |Mine()| - 1);
        var found, added := AddGranule(granule);
        OthersKeepTwice(saved, files0, fat1, files1, fat[..], files, firstGranule);
        if !found {
          forall i | 0 <= i < 256 {
            fat[i] := saved[i];
          }
          owner, files := owner0, files0;
          assert fat[..] == saved;
          TableSame(saved, Mine());
          return false;
        }
        TableMore(saved, fat1, files1[firstGranule], added);
        GranuleChosen(saved, fat1, granuleCount, files1[firstGranule], added, fat[..]);
        NearestMore(saved, granuleCount, files1[firstGranule], |files0[firstGranule]|, added);
        granule := added;
        room := room + GRANULE;
      }
      ghost var fat1 := fat[..];
      SetLast(granule, newSize - (room - GRANULE));
      TableEnd(saved, fat1, Mine(), fat[granule]);
      OthersKeepTwice(saved, files0, fat1, files, fat[..], files, firstGranule);
      ok := true;
    }

    /** The end of extend_fat_chain: the last link and the last sector size for the
        bytes that are in the last granule. */
    method SetLast(granule: nat, expand: nat)
      requires SoundNow() && firstGranule in files && |Mine()| > 0 && granule == Last(Mine()) < granuleCount
      requires 0 < expand <= GRANULE
      modifies this`lastSize, fat
      ensures SoundNow() && OthersKeep(old(fat[..]), files, fat[..], files, firstGranule)
      ensures SizeOk(fat[..], Mine(), lastSize) && 0 < lastSize <= SECTOR && Linked(fat[..], Mine())
      ensures Size(fat[..], Mine(), lastSize) == (|Mine()| - 1) * GRANULE + expand
      ensures FreeGranules(fat[..], granuleCount) == FreeGranules(old(fat[..]), granuleCount)
      ensures fat[..] == old(fat[..])[granule := fat[granule]]
    {
      hide Sound, FreeGranules, Linked, OthersKeep, LastLink, LastBytes;
      LastParts(expand);
      LastSet(fat[..], owner, files, firstGranule, LastLink(expand) - LAST);
      fat[granule] := LastLink(expand);
      lastSize := LastBytes(expand);
      ChainLinked(fat[..], owner, files, firstGranule);
      SizeSet(fat[..], Mine(), (|Mine()| - 1) * GRANULE + expand);
    }

    /** The part of _decb_read that finds the granule of the position. */
    method GranuleToRead() returns (granule: nat)
      requires SoundNow() && firstGranule in files
      ensures filepos / GRANULE < |Mine()| ==> granule == Mine()[filepos / GRANULE]
    {
      hide Sound;
      ghost var chain, i := Mine(), 0;
      ChainLinked(fat[..], owner, files, firstGranule);
      LinkEnds(fat[..], owner, files, firstGranule, 0);
      var accum := 0;
      granule := firstGranule;
      while fat[granule] < LAST
        invariant i < |chain| && granule == chain[i] < 256 && accum == i * GRANULE
        invariant fat[granule] < LAST <==> i + 1 < |chain|
        invariant i > 0 ==> accum <= filepos
        decreases |chain| - i
      {
        assert Next(fat[..], chain, i);
        var last := granule;
        granule := fat[granule];
        accum := accum + GRANULE;
        if accum > filepos {
          granule := last;
          break;
        }
        i := i + 1;
        LinkEnds(fat[..], owner, files, firstGranule, i);
      }
    }

    /** The part of _decb_write that finds the granule of the position. */
    method GranuleToWrite() returns (granule: nat)
      requires SoundNow() && firstGranule in files
      ensures filepos / GRANULE < |Mine()| ==> granule == Mine()[filepos / GRANULE]
    {
      hide Sound;
      ghost var chain, i := Mine(), 0;
      ChainLinked(fat[..], owner, files, firstGranule);
      LinkEnds(fat[..], owner, files, firstGranule, 0);
      var accum := 0;
      granule := firstGranule;
      while fat[granule] < LAST
        invariant i < |chain| && granule == chain[i] < 256 && accum == i * GRANULE
        invariant fat[granule] < LAST <==> i + 1 < |chain|
        invariant accum <= filepos
        decreases |chain| - i
      {
        assert Next(fat[..], chain, i);
        accum := accum + GRANULE;
        if accum > filepos {
          break;
        }
        granule := fat[granule];
        i := i + 1;
        LinkEnds(fat[..], owner, files, firstGranule, i);
      }
    }

    /** How much of a granule is copied: to the end of what the file has of it, or
        of what is wanted. */
    method Chunk(granule: nat, left: nat) returns (chunk: nat)
      requires Ready() && left > 0 && filepos + left <= Size(fat[..], Mine(), lastSize)
      requires filepos / GRANULE < |Mine()| && granule == Mine()[filepos / GRANULE] && granule < 256
      ensures 0 < chunk <= left && filepos % GRANULE + chunk <= GRANULE
      ensures chunk < left ==> fat[granule] < LAST && (filepos + chunk) / GRANULE == filepos / GRANULE + 1
    {
      hide Sound, SizeOk, Size, Linked;
      SizeParts(fat[..], Mine(), lastSize, filepos, left);
      LinkEnds(fat[..], owner, files, firstGranule, filepos / GRANULE);
      var bytes := GRANULE;
      if fat[granule] >= LAST {
        bytes := (fat[granule] - LAST - 1) * SECTOR + lastSize;
      }
      var offset := filepos % GRANULE;
      chunk := bytes - offset;
      if chunk > left {
        chunk := left;
      }
    }

    /** The part of _decb_read that copies. */
    method ReadGranules(total: nat) returns (out: seq<Byte>)
      requires Ready() && filepos + total <= Size(fat[..], Mine(), lastSize)
      modifies this`filepos
      ensures Ready() && filepos == old(filepos) + total
      ensures out == Part(Granules(), GRANULE, Mine(), old(filepos), total)
    {
      hide Sound, Part, Distinct, SizeOk, Size, Linked, Granulated, Slot, Formatted;
      ghost var chain, start := Mine(), filepos;
      GranulesBlocked(slots[..], granuleCount);
      ChainDistinct(fat[..], owner, files, firstGranule);
      ChainLinked(fat[..], owner, files, firstGranule);
      out := [];
      assert Part(Granules(), GRANULE, chain, start, 0) == [];
      var granule := GranuleToRead();
      while |out| < total
        invariant |out| <= total && filepos == start + |out| && Ready()
        invariant |out| < total && filepos / GRANULE < |chain| ==> granule == chain[filepos / GRANULE]
        invariant out == Part(Granules(), GRANULE, chain, start, |out|)
        decreases total - |out|
      {
        var left := total - |out|;
        SizeParts(fat[..], chain, lastSize, filepos, left);
        ghost var n := filepos / GRANULE;
        LinkEnds(fat[..], owner, files, firstGranule, n);
        var buffer := GsGranule(granule);
        var chunk := Chunk(granule, left);
        if fat[granule] < LAST {
          assert Next(fat[..], chain, n) by { NextInChain(fat[..], chain, n); }
          granule := fat[granule];
        }
        var offset := filepos % GRANULE;
        BlockRead(Granules(), GRANULE, chain, filepos, chunk);
        PartMore(Granules(), GRANULE, chain, start, |out|, chunk);
        out := out + buffer[offset..offset + chunk];
        filepos := filepos + chunk;
      }
    }

    /** _decb_read */
    method Read(wanted: nat) returns (status: Status, out: seq<Byte>)
      requires Valid() && isOpen
      modifies this`filepos
      ensures Valid() && Ready() && Stored() == old(Stored()) && name in Stored() && Stored()[name] == Bytes()
      ensures filepos == old(filepos) + |out|
      ensures status == if !canRead then NotAllowed else if old(filepos) >= |Bytes()| then EndOfFile else Done
      ensures
        var end := if wanted < |Bytes()| - old(filepos) then old(filepos) + wanted else |Bytes()|;
        out == if status == Done then Bytes()[old(filepos)..end] else []
    {
      hide Sound, Content, Part, SizeOk, Size, Linked, Listed, Named;
      out := [];
      OpenReady();
      if !canRead {
        return NotAllowed, [];
      }
      var size := GsSize();
      if filepos >= size {
        return EndOfFile, [];
      }
      var total := wanted;
      if total > size - filepos {
        total := size - filepos;
      }
      PartOf(Granules(), GRANULE, Mine(), filepos, total, size);
      status := Done;
      out := ReadGranules(total);
    }

    /** The open file's bytes are what the disk stores of its name. */
    lemma {:induction false} OpenReady()
      requires Valid() && isOpen
      ensures Ready() && lastSizes[firstGranule] == lastSize && firstGranule in ByGranule()
      ensures ByGranule()[firstGranule] == Bytes() && name in Stored() && Stored()[name] == Bytes()
    {
      hide Sound, Content, SizeOk, Size, Linked, Named, Covered;
      NamedHas(directory[..], ByGranule(), dirIndex);
    }

    /** Part of a granule is written over. */
    method WriteChunk(granule: nat, offset: nat, more: seq<Byte>)
      requires Shape() && Formatted(slots[..]) && granule < granuleCount && offset + |more| <= GRANULE
      modifies slots
      ensures |old(Granules())[granule]| == GRANULE && Formatted(slots[..])
      ensures
        var buffer := old(Granules())[granule];
        Granules() == old(Granules())[granule := buffer[..offset] + more + buffer[offset + |more|..]]
      ensures DirectoryKept(old(slots[..]), slots[..])
    {
      hide Granulated, Slot, Formatted, Blocked, DirectoryKept;
      GranuleLength(slots[..], granuleCount, granule);
      var buffer := GsGranule(granule);
      SsGranule(granule, buffer[..offset] + more + buffer[offset + |more|..]);
    }

    /** One round of the copying: the next of the input goes in a granule, and the
        link gives the next granule. */
    method WriteRound(granule: nat, input: seq<Byte>, done: nat, ghost start: nat, ghost data0: Data)
      returns (granule': nat, done': nat)
      requires Ready() && done < |input| && filepos == start + done
      requires filepos + (|input| - done) <= Size(fat[..], Mine(), lastSize)
      requires filepos / GRANULE < |Mine()| ==> granule == Mine()[filepos / GRANULE]
      requires OnlyBlocks(data0, Granules(), Mine())
      requires Written(data0, Granules(), GRANULE, Mine(), start, input[..done])
      modifies this`filepos, slots
      ensures Formatted(slots[..]) && done < done' <= |input| && filepos == start + done'
      ensures done' < |input| && filepos / GRANULE < |Mine()| ==> granule' == Mine()[filepos / GRANULE]
      ensures DirectoryKept(old(slots[..]), slots[..])
      ensures OnlyBlocks(data0, Granules(), Mine())
      ensures Written(data0, Granules(), GRANULE, Mine(), start, input[..done'])
    {
      hide Sound, Distinct, SizeOk, Size, Linked, OnlyBlocks, Written, Granulated, Slot, Formatted, Blocked,
        DirectoryKept, Reserved;
      ghost var chain, n := Mine(), filepos / GRANULE;
      GranulesBlocked(slots[..], granuleCount);
      ChainDistinct(fat[..], owner, files, firstGranule);
      ChainLinked(fat[..], owner, files, firstGranule);
      var left := |input| - done;
      SizeParts(fat[..], chain, lastSize, filepos, left);
      LinkEnds(fat[..], owner, files, firstGranule, n);
      NextInChain(fat[..], chain, n);
      var chunk := Chunk(granule, left);
      var more := input[done..done + chunk];
      BlockWritten(data0, Granules(), GRANULE, chain, start, input[..done], more);
      WriteChunk(granule, filepos % GRANULE, more);
      TakeMore(input, done, chunk);
      done' := done + chunk;
      filepos := filepos + chunk;
      granule' := fat[granule];
    }

    /** The part of _decb_write that copies. */
    method WriteGranules(input: seq<Byte>)
      requires Ready() && filepos + |input| <= Size(fat[..], Mine(), lastSize)
      modifies this`filepos, slots
      ensures Ready() && filepos == old(filepos) + |input|
      ensures input == [] ==> Granules() == old(Granules())
      ensures DirectoryKept(old(slots[..]), slots[..])
      ensures OnlyBlocks(old(Granules()), Granules(), Mine())
      ensures Written(old(Granules()), Granules(), GRANULE, Mine(), old(filepos), input)
    {
      hide Sound, SizeOk, Size, Linked, OnlyBlocks, Written, Granulated, Slot, Formatted, DirectoryKept, Reserved;
      DirectoryKeptSelf(slots[..]);
      ghost var start, data0, slots0 := filepos, Granules(), slots[..];
      NothingWritten(data0, GRANULE, Mine(), start);
      var granule := GranuleToWrite();
      var done := 0;
      while done < |input|
        invariant done <= |input| && filepos == start + done && Formatted(slots[..])
        invariant done < |input| && filepos / GRANULE < |Mine()| ==> granule == Mine()[filepos / GRANULE]
        invariant done == 0 ==> Granules() == data0
        invariant DirectoryKept(slots0, slots[..]) && OnlyBlocks(data0, Granules(), Mine())
        invariant Written(data0, Granules(), GRANULE, Mine(), start, input[..done])
        decreases |input| - done
      {
        ghost var slots1 := slots[..];
        granule, done := WriteRound(granule, input, done, start, data0);
        DirectoryKeptTwice(slots0, slots1, slots[..]);
      }
      assert input[..done] == input;
    }

    /** The part of _decb_write that writes, the mode and the position being right:
        the directory still has the old last sector size. */
    method WriteHere(input: seq<Byte>) returns (ok: bool)
      requires Ready() && filepos <= |Bytes()|
      modifies this`lastSize, this`filepos, this`owner, this`files, fat, slots
      ensures Ready() && OthersKeep(old(fat[..]), old(files), fat[..], files, firstGranule)
      ensures OthersHold(old(Granules()), old(files), Granules(), files, firstGranule)
      ensures ok ==> filepos == old(filepos) + |input| && Wrote(old(Bytes()), old(filepos), input, Bytes())
      ensures ok ==> Gained(old(fat[..]), granuleCount, old(Mine()), fat[..], Mine(), |old(Bytes())|, filepos)
      ensures DirectoryKept(old(slots[..]), slots[..])
      ensures !ok ==> filepos == old(filepos) && lastSize == old(lastSize) && files == old(files)
      ensures !ok ==> fat[..] == old(fat[..]) && slots[..] == old(slots[..])
      ensures !ok ==> FreeGranules(fat[..], granuleCount) + |Mine()| < GranulesFor(filepos + |input|)
    {
      hide Sound, SizeOk, Size, Linked, OthersKeep, OnlyBlocks, Written, Wrote, Content, FreeGranules, GranulesFor,
        Nearest, OthersHold, TableKept, DirectoryKept, Reserved;
      DirectoryKeptSelf(slots[..]);
      ghost var fat0, files0, data0, h, start := fat[..], files, Granules(), firstGranule, filepos;
      NothingChanged(fat0, files0);
      NothingHeld(data0, files0, h);
      WroteNothing(Bytes(), start);
      var size := GsSize();
      SizeFits(fat0, Mine(), lastSize);
      if size < filepos + |input| {
        ok := ExtendFatChain(filepos + |input|);
        if !ok {
          return;
        }
      } else {
        GainedNone(fat0, granuleCount, Mine(), size, filepos + |input|);
      }
      ok := true;
      WriteGranules(input);
      SizeFits(fat[..], Mine(), lastSize);
      if input != [] {
        WholeWritten(data0, Granules(), GRANULE, files0[h], Mine(), size, start, input);
      }
      OtherBytes(fat0, files0, fat[..], owner, files, data0, Granules(), h);
    }

    /** _decb_write */
    method Write(input: seq<Byte>) returns (status: Status, count: nat)
      requires Valid() && isOpen && (filepos <= |Bytes()| ==> filepos + |input| < 0x8000_0000)
      modifies this`lastSize, this`lastSizes, this`filepos, this`owner, this`files, fat, slots, directory
      ensures Valid() && Ready() && OthersKeep(old(fat[..]), old(files), fat[..], files, firstGranule)
      ensures Stored() == old(Stored())[name := Bytes()]
      ensures EntrySet(old(directory[..]), directory[..], dirIndex, Entry(name, firstGranule, lastSize))
      ensures DirectoryKept(old(slots[..]), slots[..])
      ensures status == BadMode <==> !canWrite
      ensures status == EndOfFile <==> canWrite && old(filepos) > |old(Bytes())|
      ensures status in {BadMode, EndOfFile, Full, Done}
      ensures status == Done ==>
        && filepos == old(filepos) + |input| && Wrote(old(Bytes()), old(filepos), input, Bytes())
        && Gained(old(fat[..]), granuleCount, old(Mine()), fat[..], Mine(), |old(Bytes())|, filepos)
      ensures status != Done ==>
        && filepos == old(filepos) && Bytes() == old(Bytes()) && fat[..] == old(fat[..]) && files == old(files)
        && slots[..] == old(slots[..])
      ensures status == Full ==>
        FreeGranules(fat[..], granuleCount) + |Mine()| < GranulesFor(filepos + |input|)
      ensures count == if status == Full then 0 else |input|
      ensures count == filepos - old(filepos) <==> (canWrite && old(filepos) <= |old(Bytes())|) || input == []
    {
      hide Sound, SizeOk, Size, Linked, OthersKeep, Wrote, Content, FreeGranules, GranulesFor, OthersHold, Named,
        Listed, Gained, Store, DirectoryKept, Reserved, Formatted, Granulated, Slot;
      DirectoryKeptSelf(slots[..]);
      ghost var fat0, files0, data0, dir0 := fat[..], files, Granules(), directory[..];
      count := |input|;
      NothingChanged(fat0, files0);
      OpenReady();
      SizedFiles();
      SameAgain(Stored(), name, Bytes());
      assert dir0 == dir0[dirIndex := Entry(name, firstGranule, lastSize)];
      if !canWrite {
        return BadMode, count;
      }
      var size := GsSize();
      if filepos > size {
        return EndOfFile, count;
      }
      var ok := WriteHere(input);
      if !ok {
        return Full, 0;
      }
      WriteEntry(fat0, files0, data0);
      status := Done;
    }

    /** The end of _decb_write: the file's entry goes back to the directory. */
    method WriteEntry(ghost fat0: seq<nat>, ghost files0: Files, ghost data0: Data)
      requires Ready() && isOpen && granuleCount > 34 && dirIndex < directory.Length
      requires SizesOk(fat0, files0, lastSizes) && Listed(directory[..], lastSizes) && firstGranule in lastSizes
      requires directory[dirIndex] == Entry(name, firstGranule, lastSizes[firstGranule])
      requires OthersKeep(fat0, files0, fat[..], files, firstGranule)
      requires OthersHold(data0, files0, Granules(), files, firstGranule)
      modifies this`lastSizes, directory
      ensures EntrySet(old(directory[..]), directory[..], dirIndex, Entry(name, firstGranule, lastSize))
      ensures Valid()
      ensures Stored() == Named(old(directory[..]), old(Store(fat0, files0, lastSizes, data0)))[name := Bytes()]
    {
      hide Sound, SizeOk, Size, Linked, OthersKeep, Content, OthersHold, Named, Listed, Store, Reserved, Formatted,
        Granulated, Slot;
      ghost var dir0, sizes0, h := directory[..], lastSizes, firstGranule;
      ghost var store0 := Store(fat0, files0, lastSizes, data0);
      StoreKeys(fat0, files0, sizes0, data0);
      SameKeys(fat0, files0, fat[..], files, h);
      lastSizes := lastSizes[firstGranule := lastSize];
      directory[dirIndex] := Entry(name, firstGranule, lastSize);
      assert directory[..] == dir0[dirIndex := Entry(name, firstGranule, lastSize)];
      StoreAfter(fat0, files0, sizes0, data0, fat[..], files, lastSizes, Granules(), h);
      SameAfter(store0, h, Bytes());
      SizeListed(dir0, sizes0, store0, dirIndex, lastSize, Bytes());
    }

    /** The part of _decb_kill after the file is open: its entry goes from the
        directory and its granules from the table. */
    method KillOpen()
      requires Valid() && isOpen
      modifies this`isOpen, this`lastSizes, this`owner, this`files, fat, directory
      ensures Valid() && !isOpen && Stored() == old(Stored()) - {name}
      ensures files == old(files) - {firstGranule} && EntrySet(old(directory[..]), directory[..], dirIndex, Empty)
      ensures OthersKeep(old(fat[..]), old(files), fat[..], files, firstGranule)
      ensures ChainFreed(old(fat[..]), fat[..], old(Mine()))
      ensures FreeGranules(fat[..], granuleCount) == FreeGranules(old(fat[..]), granuleCount) + |old(Mine())|
    {
      hide Sound, Freed, OthersKeep, OthersHold, FreeGranules, SizeOk, Size, Named, Listed, Store, ChainFreed;
      ghost var fat0, h, files0, sizes0 := fat[..], firstGranule, files, lastSizes;
      ghost var dir0, store0 := directory[..], ByGranule();
      OpenReady();
      SizedFiles();
      directory[dirIndex] := Empty;
      lastSizes := lastSizes - {firstGranule};
      ClearChain();
      isOpen := false;
      GoneHeld(Granules(), files0, h);
      StoreAfter(fat0, files0, sizes0, Granules(), fat[..], files, lastSizes, Granules(), h);
      GoneListed(dir0, sizes0, store0, dirIndex);
      assert directory[..] == dir0[dirIndex := Empty];
    }

    method ClearChain()
      requires SoundNow() && firstGranule in files
      modifies this`owner, this`files, fat
      ensures SoundNow() && files == old(files) - {firstGranule}
      ensures OthersKeep(old(fat[..]), old(files), fat[..], files, firstGranule)
      ensures ChainFreed(old(fat[..]), fat[..], old(Mine()))
      ensures FreeGranules(fat[..], granuleCount) == FreeGranules(old(fat[..]), granuleCount) + |old(Mine())|
    {
      hide Sound, Freed, OthersKeep, FreeGranules, ChainFreed;
      ghost var fat0, h, chain := fat[..], firstGranule, Mine();
      NoneFreed(fat0, owner, h);
      ChainLinked(fat0, owner, files, h);
      var granule := firstGranule;
      ghost var i := 0;
      FreedMore(fat0, fat[..], owner, files, h, 0);
      while fat[granule] < LAST
        invariant i < |chain| && granule == chain[i] < 256 && Freed(fat0, fat[..], owner, h, i)
        invariant fat[granule] == fat0[granule] && Next(fat0, chain, i)
        decreases |chain| - i
        modifies fat
      {
        FreedMore(fat0, fat[..], owner, files, h, i);
        var next := fat[granule];
        fat[granule] := UNUSED;
        granule := next;
        i := i + 1;
        FreedMore(fat0, fat[..], owner, files, h, i);
      }
      FreedMore(fat0, fat[..], owner, files, h, i);
      LinkEnds(fat0, owner, files, h, i);
      fat[granule] := UNUSED;
      FileKilled(fat0, fat[..], owner, files, h);
      FreedExactly(fat0, fat[..], owner, files, h);
      FreedCount(fat0, fat[..], owner, h, |chain|);
      owner := Released(owner, h);
      files := files - {h};
    }

    /** The search of _decb_open for the entry that a path's name finds. */
    method FindEntry(filename: string) returns (i: nat)
      requires directory.Length == ENTRIES
      ensures i == FirstMatch(directory[..], filename)
    {
      hide Matches;
      i := 0;
      while i < ENTRIES && !Matches(directory[i], filename)
        invariant i <= ENTRIES && forall k: nat :: k < i ==> !Matches(directory[..][k], filename)
      {
        i := i + 1;
      }
      FirstMatchIs(directory[..], filename, i);
    }

    /** The end of _decb_open: the entry found is the path's. */
    method Enter(i: nat, forRead: bool, forWrite: bool)
      requires Valid() && !isOpen && i < directory.Length && directory[i].Entry?
      modifies this`isOpen, this`canRead, this`canWrite, this`dirIndex, this`name, this`firstGranule, this`lastSize,
        this`filepos
      ensures dirIndex == i && name == directory[i].name && firstGranule == directory[i].first && isOpen && filepos == 0
      ensures canRead == forRead && canWrite == forWrite
      ensures Valid() && Stored() == old(Stored()) && Ready() && name in Stored() && Bytes() == Stored()[name]
    {
      hide Sound, SizeOk, Size, Content, Named, Store, Listed, SizesOk, Formatted, Granulated, Reserved;
      var entry := directory[i];
      assert entry == directory[..][i];
      EntryFile(i);
      dirIndex, name, firstGranule, lastSize, filepos := i, entry.name, entry.first, entry.lastSize, 0;
      isOpen, canRead, canWrite := true, forRead, forWrite;
      OpenReady();
    }

    /** _decb_open */
    method Open(filename: string, forRead: bool, forWrite: bool) returns (status: Status)
      requires Valid() && !isOpen && Legal(filename)
      modifies this`isOpen, this`canRead, this`canWrite, this`dirIndex, this`name, this`firstGranule, this`lastSize,
        this`filepos
      ensures status == if FirstMatch(directory[..], filename) < ENTRIES then Done else NotFound
      ensures isOpen <==> status == Done
      ensures isOpen ==>
        && dirIndex == FirstMatch(directory[..], filename) && name == directory[dirIndex].name && filepos == 0
        && canRead == forRead && canWrite == forWrite
      ensures Valid() && Stored() == old(Stored())
      ensures isOpen ==> Ready() && name in Stored() && Bytes() == Stored()[name]
      ensures status == Done <==> exists i: nat ::
        i < 72 && directory[i].Entry? && CaseOnly(Shown(directory[i].name), filename)
      ensures status == Done ==> CaseOnly(Shown(name), filename) && forall i: nat :: i < dirIndex ==>
        !(directory[i].Entry? && CaseOnly(Shown(directory[i].name), filename))
    {
      hide Sound, SizeOk, Size, Content, Named, Store, Listed, SizesOk, SameName, Shown, Formatted, Granulated,
        Reserved, FirstMatch, CaseOnly;
      SizedFiles();
      var i := FindEntry(filename);
      FirstInCase(directory[..], filename);
      if i == ENTRIES {
        return NotFound;
      }
      assert directory[i] == directory[..][i];
      Enter(i, forRead, forWrite);
      status := Done;
    }

    /** _decb_kill */
    method Kill(filename: string) returns (status: Status)
      requires Valid() && !isOpen && Legal(filename)
      modifies this, fat, directory
      ensures Valid() && !isOpen
      ensures status == if FirstMatch(old(directory[..]), filename) < ENTRIES then Done else NotFound
      ensures status == Done ==>
        var i := FirstMatch(old(directory[..]), filename);
        var e := old(directory[..])[i];
        && e.Entry? && e.first in old(files) && EntrySet(old(directory[..]), directory[..], i, Empty)
        && Stored() == old(Stored()) - {e.name} && files == old(files) - {e.first}
        && OthersKeep(old(fat[..]), old(files), fat[..], files, e.first)
        && ChainFreed(old(fat[..]), fat[..], old(files)[e.first])
        && FreeGranules(fat[..], granuleCount)
             == FreeGranules(old(fat[..]), granuleCount) + |old(files)[e.first]|
      ensures status != Done ==>
        && directory[..] == old(directory[..]) && fat[..] == old(fat[..]) && files == old(files)
        && Stored() == old(Stored())
    {
      hide Sound, SizesOk, Listed, Named, Store, Content, FreeGranules, OthersKeep, ChainFreed, Matches, SizeOk, Size;
      status := Open(filename, true, true);
      if status == Done {
        KillOpen();
      }
    }

    /** The search of _decb_create for an entry of the same name, and for the first
        that is not in use. */
    method FindSame(e: EntryName) returns (same: nat, empty: nat)
      requires directory.Length == ENTRIES
      ensures same == IndexOf(directory[..], e)
      ensures same == ENTRIES ==> empty == FirstEmpty(directory[..])
    {
      same, empty := 0, ENTRIES;
      while same < ENTRIES
        invariant same <= ENTRIES && same <= IndexOf(directory[..], e)
        invariant if FirstEmpty(directory[..]) < same then empty == FirstEmpty(directory[..]) else empty == ENTRIES
      {
        var entry := directory[same];
        assert entry == directory[..][same];
        if entry.Empty? {
          if empty == ENTRIES {
            empty := same;
          }
        } else if entry.name == e {
          return;
        }
        same := same + 1;
      }
    }

    /** The part of _decb_create that determines whether there is enough space. */
    method AnyFree() returns (any: bool)
      requires Shape()
      ensures any <==> FreeGranules(fat[..], granuleCount) > 0
    {
      NoneFree(fat[..], granuleCount);
      var i := 0;
      while i < granuleCount
        invariant i <= granuleCount && forall g: nat :: g < i ==> fat[..][g] != UNUSED
      {
        if fat[i] == UNUSED {
          assert fat[..][i] == UNUSED;
          return true;
        }
        i := i + 1;
      }
      any := false;
    }

    /** _decb_create: a file of that name is replaced, unless noCreate is set.  The
        name of the entry that is in the way may not be one that the path's name
        finds: nothing is killed then, and it tries for ever. */
    method Create(filename: string, forRead: bool, forWrite: bool, noCreate: bool) returns (status: Status)
      requires Valid() && !isOpen && Legal(filename)
      modifies this, fat, directory
      ensures Valid() && (isOpen <==> status == Done)
      ensures status ==
        if FreeGranules(old(fat[..]), granuleCount) == 0 then Full
        else if HasName(old(directory[..]), NameFor(filename)) then
          (if noCreate then Exists else if Fits(filename) then Done else Endless)
        else if FirstEmpty(old(directory[..])) < ENTRIES then Done
        else Full
      ensures status == Done ==>
        && Made(old(directory[..]), old(Stored()), old(files), directory[..], Stored(), files, filename, dirIndex,
             firstGranule)
        && name == NameFor(filename) && Ready() && Bytes() == [] && filepos == 0
        && canRead == forRead && canWrite == forWrite
      ensures status == Done ==>
        var free := Without(old(fat[..]), old(files), GoneFirsts(old(directory[..]), filename));
        && NearestTo(free, granuleCount, [], firstGranule, 34) && firstGranule < 256
        && fat[..] == free[firstGranule := 0xC1]
        && FreeGranules(fat[..], granuleCount) + 1 == FreeGranules(free, granuleCount)
      ensures status in {Full, Exists} ==>
        && directory[..] == old(directory[..]) && fat[..] == old(fat[..]) && files == old(files)
        && Stored() == old(Stored())
      decreases files.Keys
    {
      hide Sound, SizesOk, Listed, Named, Store, Content, FreeGranules, OthersKeep, ChainFreed, Matches, SizeOk, Size,
        Fits, NameFor, Made, Legal, Linked, NearestTo, Reserved, Formatted, Granulated, HasName,
        GoneNames, GoneFirsts, Replaced, Without;
      ghost var dir0, e, store0, files0, fat0 := directory[..], NameFor(filename), Stored(), files, fat[..];
      NameAt(dir0, e);
      SizedFiles();
      var any := AnyFree();
      if !any {
        return Full;
      }
      var same, empty := FindSame(NameFor(filename));
      if same < ENTRIES {
        if noCreate {
          return Exists;
        }
        Replacing(filename);
        ghost var i := FirstMatch(dir0, filename);
        status := Kill(filename);
        if status != Done {
          return Endless;
        }
        ghost var fat1 := fat[..];
        status := Create(filename, forRead, forWrite, noCreate);
        if status == Done {
          MadeAfter(dir0, store0, files0, directory[..], Stored(), files, filename, dirIndex, firstGranule);
          WithoutMore(fat0, fat1, files0, dir0[i].first, GoneFirsts(dir0[i := Empty], filename));
        }
        return;
      }
      if empty == ENTRIES {
        return Full;
      }
      NewFile(NameFor(filename), empty, forRead, forWrite);
      MadeNew(dir0, store0, files0, filename, firstGranule);
      NothingGone(dir0, filename);
      WithoutNone(fat0, files0);
      status := Done;
    }

    /** What killing the first file that a name finds is for creating one. */
    lemma {:induction false} Replacing(filename: string)
      requires Valid() && IndexOf(directory[..], NameFor(filename)) < ENTRIES
      ensures Fits(filename) ==>
        FirstMatch(directory[..], filename) < ENTRIES && ReplacedBy(directory[..], filename)
      ensures
        var i := FirstMatch(directory[..], filename);
        i < ENTRIES ==> FirstEmpty(directory[..][i := Empty]) < ENTRIES
      ensures !Fits(filename) && FirstMatch(directory[..], filename) < ENTRIES ==>
        HasName(directory[..][FirstMatch(directory[..], filename) := Empty], NameFor(filename))
    {
      hide Sound, SizesOk, Covered, Sized, Matches, Fits, NameFor, Replaced, GoneNames, GoneFirsts;
      NameAt(directory[..], NameFor(filename));
      var i := FirstMatch(directory[..], filename);
      assert i < ENTRIES ==> directory[..][i := Empty][i].Empty?;
      if Fits(filename) {
        ReplacedMore(directory[..], filename);
      } else if FirstMatch(directory[..], filename) < ENTRIES {
        NotReplaced(directory[..], filename);
      }
    }

    /** The part of _decb_create that gives a new file its first granule and its
        directory entry. */
    method AddFile(e: EntryName, empty: nat) returns (granule: nat)
      requires Valid() && !isOpen && FreeGranules(fat[..], granuleCount) > 0
      requires empty < ENTRIES && directory[empty].Empty? && !HasName(directory[..], e)
      modifies this`lastSizes, this`owner, this`files, fat, directory
      ensures EntrySet(old(directory[..]), directory[..], empty, Entry(e, granule, 0))
      ensures granule !in old(files) && files == old(files)[granule := [granule]]
      ensures NearestTo(old(fat[..]), granuleCount, [], granule, 34)
      ensures granule < 256 && fat[..] == old(fat[..])[granule := LAST + 1]
      ensures FreeGranules(fat[..], granuleCount) + 1 == FreeGranules(old(fat[..]), granuleCount)
      ensures Valid() && Stored() == old(Stored())[e := []]
    {
      hide Sound, FreeGranules, Linked, OthersKeep, OthersHold, Before, Size, SizeOk, SizesOk, Store, Content,
        NearestTo, Named, Listed, HasName, Reserved, Formatted, Granulated, Slot;
      ghost var fat0, files0, sizes0, dir0, store0 := fat[..], files, lastSizes, directory[..], ByGranule();
      SizedFiles();
      var ok;
      ok, granule := NewChain();
      lastSizes := lastSizes[granule := 0];
      directory[empty] := Entry(e, granule, 0);
      assert directory[..] == dir0[empty := Entry(e, granule, 0)];
      StoreCreated(fat0, files0, sizes0, Granules(), fat[..], granule);
      NewListed(dir0, sizes0, store0, empty, e, granule);
    }

    /** The end of _decb_create: the path is on the file that it has made. */
    method NewFile(e: EntryName, empty: nat, forRead: bool, forWrite: bool)
      requires Valid() && !isOpen && FreeGranules(fat[..], granuleCount) > 0
      requires empty < ENTRIES && directory[empty].Empty? && !HasName(directory[..], e)
      modifies this, fat, directory
      ensures isOpen && dirIndex == empty && name == e && filepos == 0 && canRead == forRead && canWrite == forWrite
      ensures EntrySet(old(directory[..]), directory[..], empty, Entry(e, firstGranule, 0))
      ensures firstGranule !in old(files) && files == old(files)[firstGranule := [firstGranule]]
      ensures NearestTo(old(fat[..]), granuleCount, [], firstGranule, 34)
      ensures firstGranule < 256 && fat[..] == old(fat[..])[firstGranule := LAST + 1]
      ensures FreeGranules(fat[..], granuleCount) + 1 == FreeGranules(old(fat[..]), granuleCount)
      ensures Valid() && Stored() == old(Stored())[e := []] && Ready() && Bytes() == []
    {
      hide Sound, FreeGranules, Linked, OthersKeep, Size, SizeOk, SizesOk, Store, Content, NearestTo, Named, Listed,
        HasName, Reserved, Formatted, Granulated, Slot;
      var granule := AddFile(e, empty);
      assert directory[empty] == directory[..][empty] == Entry(e, granule, 0);
      Enter(empty, forRead, forWrite);
    }

    lemma {:induction false} EntryFile(i: nat)
      requires Valid() && i < |directory[..]| && directory[..][i].Entry?
      ensures
        var e := directory[..][i];
        e.first in files && SizeOk(fat[..], files[e.first], e.lastSize)
    {
      hide Sound, SizeOk, EntriesApart, Covered;
    }

    lemma {:induction false} SizedFiles()
      requires Valid()
      ensures lastSizes.Keys == files.Keys && ByGranule().Keys == files.Keys && |directory[..]| == ENTRIES
    {
      hide Sound, SizeOk, Content, Size;
    }

    method NewChain() returns (ok: bool, granule: nat)
      requires SoundNow() && granuleCount > 34
      modifies this`owner, this`files, fat
      ensures SoundNow() && (ok <==> FreeGranules(old(fat[..]), granuleCount) > 0)
      ensures ok ==> granule !in old(files) && files == old(files)[granule := [granule]]
      ensures ok ==> NearestTo(old(fat[..]), granuleCount, [], granule, 34)
      ensures ok ==> OthersKeep(old(fat[..]), old(files), fat[..], files, granule)
      ensures ok ==> SizeOk(fat[..], [granule], 0) && Size(fat[..], [granule], 0) == 0
      ensures ok ==> FreeGranules(fat[..], granuleCount) + 1 == FreeGranules(old(fat[..]), granuleCount)
      ensures ok ==> granule < 256 && fat[..] == old(fat[..])[granule := LAST + 1]
      ensures !ok ==> fat[..] == old(fat[..]) && files == old(files)
    {
      hide Sound, FreeGranules, Linked, OthersKeep, Before, Size, SizeOk;
      ghost var seen;
      ok, granule, seen := FindFreeGranule(34);
      NoneFree(fat[..], granuleCount);
      if !ok {
        return;
      }
      FileMade(fat[..], owner, files, granule);
      StillReserved(fat[..], owner, files, reserved, granule, Of(granule, 0));
      fat[granule] := LAST + 1;
      owner, files := owner[granule := Of(granule, 0)], files[granule := [granule]];
      MadeOk(fat[..], granule);
    }

    /** _decb_seek, in u_int; from the end it does nothing. */
    method Seek(pos: int, whence: Whence)
      requires Valid() && isOpen
      modifies this`filepos
      ensures Valid() && Stored() == old(Stored())
      ensures filepos ==
        match whence
        case FromStart => pos % 0x1_0000_0000
        case FromPosition => (old(filepos) + pos) % 0x1_0000_0000
        case FromEnd => old(filepos)
    {
      hide Sound, SizesOk, Store, Named, Listed;
      match whence {
        case FromStart => filepos := pos % 0x1_0000_0000;
        case FromPosition => filepos := (filepos + pos) % 0x1_0000_0000;
        case FromEnd =>
      }
    }

    /** _decb_close */
    method Close()
      requires Valid() && isOpen
      modifies this`isOpen
      ensures Valid() && !isOpen && Stored() == old(Stored())
    {
      hide Sound, SizesOk, Store, Named, Listed;
      isOpen := false;
    }
  }

  /** A write past the end of a new file: nothing is written, and the count says
      that a byte was. */
  method CountPastEnd() returns (disk: Disk, status: Status, count: nat)
    ensures fresh(disk) && disk.Valid() && disk.Ready() && disk.canWrite && disk.Bytes() == []
    ensures status == EndOfFile && count == 1 && disk.filepos == 1
  {
    hide Sound, SizesOk, SizeOk, Store, Content, FreeGranules, OthersKeep, NearestTo, Wrote, Granulated, Named, Listed,
      Gained, Reserved, Formatted, Linked, NameFor;
    assert Legal("A");
    disk := OneFile("A");
    disk.Seek(1, FromStart);
    status, count := disk.Write([0]);
  }

  /** A disk with an empty file that has just been made. */
  method OneFile(filename: string) returns (disk: Disk)
    requires Legal(filename)
    ensures fresh(disk) && fresh(disk.fat) && fresh(disk.slots) && fresh(disk.directory)
    ensures disk.isOpen && disk.canWrite && disk.granuleCount == 68
    ensures disk.fat.Length == 256 && FreeGranules(disk.fat[..], 68) == 67
    ensures |disk.directory[..]| == ENTRIES && disk.directory[..][0] == Entry(NameFor(filename), disk.firstGranule, 0)
    ensures forall i: nat :: 1 <= i < ENTRIES ==> disk.directory[..][i].Empty?
    ensures disk.Valid() && disk.Ready() && disk.Stored() == map[NameFor(filename) := []] && disk.Bytes() == []
  {
    hide Sound, SizesOk, SizeOk, Store, Content, FreeGranules, OthersKeep, NearestTo, Granulated, Named, Listed, Made,
      NameFor, Fits, Reserved, Without, GoneFirsts;
    disk := new Disk(35, false);
    ghost var dir, store, files, fat := disk.directory[..], disk.Stored(), disk.files, disk.fat[..];
    assert dir[0].Empty?;
    var _ := disk.Create(filename, true, true, false);
    MadeFirst(dir, store, files, disk.directory[..], disk.Stored(), disk.files, filename, disk.dirIndex,
      disk.firstGranule);
    WithoutNone(fat, files);
  }

  /** A file made with a name that is no longer than an entry's is found by every change
      of the name's case; and it is the one found, unless another's name differs from it
      in case alone. */
  method MadeAndFound(disk: Disk, made: string, asked: string) returns (created: Status, found: Status)
    requires disk.Valid() && !disk.isOpen && Legal(made) && ' ' !in made
    requires
      var k := Dot(made);
      k <= 8 && (k < |made| ==> 0 < |made| - k - 1 <= 3)
    requires |asked| == |made|
    requires forall i: nat :: i < |made| ==>
      || asked[i] == made[i]
      || ('A' <= made[i] <= 'Z' && asked[i] as int == made[i] as int + 32)
      || ('A' <= asked[i] <= 'Z' && made[i] as int == asked[i] as int + 32)
    modifies disk, disk.fat, disk.directory
    ensures created == Done ==> found == Done && disk.isOpen && disk.Valid()
    ensures created == Done && (forall i: nat :: i < 72 && disk.directory[i].Entry? ==>
        disk.directory[i].name == NameFor(made) || !CaseOnly(Shown(disk.directory[i].name), asked)) ==>
      disk.name == NameFor(made) && disk.Bytes() == []
  {
    hide Sound, SizesOk, SizeOk, Store, Content, FreeGranules, OthersKeep, NearestTo, Granulated, Named, NameFor,
      Shown, Fits, Reserved, Without, GoneFirsts, Linked, Dot, EntriesApart, Sized, Covered;
    found := NotFound;
    created := disk.Create(made, true, true, false);
    if created == Done {
      assert CaseOnly(made, asked);
      ghost var i := disk.dirIndex;
      AnyCase(disk.directory[i], made, asked);
      disk.Close();
      assert i < 72 && disk.directory[i].Entry? && CaseOnly(Shown(disk.directory[i].name), asked);
      found := disk.Open(asked, true, false);
    }
  }

  /** A disk with two empty files whose names differ in case. */
  method TwoCases() returns (disk: Disk)
    ensures fresh(disk) && fresh(disk.fat) && fresh(disk.slots) && fresh(disk.directory) && !disk.isOpen
    ensures disk.Valid() && disk.granuleCount == 68 && FreeGranules(disk.fat[..], 68) == 66
    ensures disk.Stored() == map[NameFor("FOO") := [], NameFor("foo") := []]
    ensures HasName(disk.directory[..], NameFor("foo"))
    ensures GoneNames(disk.directory[..], "foo") == {NameFor("FOO"), NameFor("foo")}
  {
    hide Sound, SizesOk, SizeOk, Store, Content, FreeGranules, NearestTo, Granulated, Named, Listed, Made, NameFor,
      Fits, Reserved, Without, GoneFirsts, GoneNames, Shown, SameName, OthersKeep;
    CaseDiffers();
    disk := OneFile("FOO");
    disk.Close();
    ghost var dir, store, files, fat := disk.directory[..], disk.Stored(), disk.files, disk.fat[..];
    OneEntry(dir, NameFor("foo"));
    var _ := disk.Create("foo", false, true, false);
    MadeFirst(dir, store, files, disk.directory[..], disk.Stored(), disk.files, "foo", disk.dirIndex,
      disk.firstGranule);
    WithoutNone(fat, files);
    CaseCleared(disk.directory[..], dir[0].first, disk.firstGranule);
    disk.Close();
  }

  /** Making a file again that is there takes a file with it whose name differs in
      case, if its entry is before. */
  method CaseReplaced() returns (disk: Disk, status: Status)
    ensures fresh(disk) && disk.Valid() && status == Done
    ensures disk.Stored() == map[NameFor("foo") := []]
  {
    hide Sound, SizesOk, SizeOk, Store, Content, FreeGranules, NearestTo, Granulated, Named, Listed, Made, NameFor,
      Fits, Reserved, Without, GoneFirsts, GoneNames, Shown, SameName, OthersKeep, HasName;
    CaseDiffers();
    disk := TwoCases();
    ghost var dir, store, files := disk.directory[..], disk.Stored(), disk.files;
    status := disk.Create("foo", false, true, false);
    MadeNames(dir, store, files, disk.directory[..], disk.Stored(), disk.files, "foo", disk.dirIndex,
      disk.firstGranule);
  }

  /** Making a file again whose name is too long never ends. */
  method LongNameEndless() returns (disk: Disk, status: Status)
    ensures fresh(disk) && status == Endless
  {
    hide Sound, SizesOk, SizeOk, Store, Content, FreeGranules, NearestTo, Granulated, Named, Listed, Made, NameFor,
      Fits, Reserved, Without, GoneFirsts, Shown, SameName, OthersKeep;
    LongName();
    disk := OneFile("LONGNAMES");
    disk.Close();
    assert disk.directory[..][0].name == NameFor("LONGNAMES");
    status := disk.Create("LONGNAMES", false, true, false);
  }
}
