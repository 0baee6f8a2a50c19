/** The granules of a Disk BASIC disk: the table that links those of a file, and
    the size that the last link of a file gives. */
module DecbFat {
  import opened Bits
  import opened Blocks
  import opened Counting
  import opened DecbSearch

  const GRANULE := 2304
  const SECTOR := 256
  const LAST := 0xC0      // a last granule's, with the sectors in use added

  type Chain = seq<nat>
  type Files = map<nat, Chain>   // by first granule

  /** Others are the granules that a "skitzo" disk leaves to another system. */
  datatype Owner = Free | Other | Of(file: nat, index: nat)

  function Last(chain: Chain): nat requires |chain| > 0 { chain[|chain| - 1] }

  predicate Next(fat: seq<nat>, chain: Chain, i: nat) requires i < |chain| && chain[i] < |fat| {
    if i + 1 < |chain| then fat[chain[i]] == chain[i + 1] else LAST <= fat[chain[i]] <= LAST + 9
  }

  ghost predicate Linked(fat: seq<nat>, chain: Chain) {
    && |chain| > 0 && (forall i: nat :: i < |chain| ==> chain[i] < |fat|)
    && forall i: nat :: i < |chain| ==> Next(fat, chain, i)
  }

  predicate Has(files: Files, h: nat, i: nat, g: nat) {
    h in files && i < |files[h]| && files[h][i] == g
  }

  ghost predicate Placed(owner: seq<Owner>, files: Files) {
    && (forall g: nat :: g < |owner| && owner[g].Of? ==> Has(files, owner[g].file, owner[g].index, g))
    && (forall h: nat, i: nat :: h in files && i < |files[h]| ==>
          files[h][i] < |owner| && owner[files[h][i]] == Of(h, i))
  }

  /** Each granule is free, or is another system's, or has one place in one file, and the table links those
      of each file in order. */
  ghost predicate Sound(fat: seq<nat>, owner: seq<Owner>, files: Files) {
    && |fat| == 256 && |owner| <= LAST
    && (forall g: nat :: g < |owner| ==> (owner[g].Free? <==> fat[g] == UNUSED))
    && Placed(owner, files)
    && (forall h: nat :: h in files ==> |files[h]| > 0 && files[h][0] == h && Linked(fat, files[h]))
  }

  /** The granules of another system are the first. */
  ghost predicate Reserved(owner: seq<Owner>, reserved: nat) {
    forall g: nat :: g < |owner| ==> (owner[g].Other? <==> g < reserved)
  }

  lemma {:induction false} StillReserved(
      fat: seq<nat>, owner: seq<Owner>, files: Files, reserved: nat, g: nat, place: Owner)
    requires Sound(fat, owner, files) && Reserved(owner, reserved) && g < |owner| && g < |fat| && fat[g] == UNUSED
    requires place.Of?
    ensures Reserved(owner[g := place], reserved)
  {
    hide Linked, Placed;
  }

  /** So every granule is free, or another system's, or in one file, once; and the
      table says which are free. */
  lemma {:induction false} EveryGranule(fat: seq<nat>, owner: seq<Owner>, files: Files, reserved: nat, g: nat)
    requires Sound(fat, owner, files) && Reserved(owner, reserved) && g < |owner|
    ensures g < |fat| && (fat[g] == UNUSED <==> g >= reserved && forall h: nat, i: nat :: !Has(files, h, i, g))
    ensures forall h: nat, i: nat :: Has(files, h, i, g) ==> g >= reserved
    ensures forall h: nat, i: nat, k: nat, j: nat :: Has(files, h, i, g) && Has(files, k, j, g) ==> h == k && i == j
  {
    hide Linked;
    if owner[g].Of? {
      assert Has(files, owner[g].file, owner[g].index, g);
    }
  }

  function FreeFlags(fat: seq<nat>, count: nat): (r: seq<bool>) requires count <= |fat|
    ensures |r| == count && forall g: nat :: g < count ==> r[g] == (fat[g] == UNUSED)
  {
    seq(count, g requires 0 <= g < count => fat[g] == UNUSED)
  }

  function FreeGranules(fat: seq<nat>, count: nat): nat requires count <= |fat| { Count(FreeFlags(fat, count)) }

  /** _decb_gs_size: the sectors in use of the last granule but one, and the bytes
      of the last. */
  function Size(fat: seq<nat>, chain: Chain, lastSize: nat): nat requires Linked(fat, chain) {
    assert Next(fat, chain, |chain| - 1);
    var sectors := fat[Last(chain)] - LAST;
    (|chain| - 1) * GRANULE + SECTOR * (if sectors == 0 then 0 else sectors - 1) + lastSize
  }

  /** Every file but h is as it was, and there is none but h that was not. */
  ghost predicate OthersKeep(fat: seq<nat>, files: Files, fat': seq<nat>, files': Files, h: nat) {
    && |fat'| == |fat| && (forall k: nat :: k in files' && k != h ==> k in files)
    && (forall k: nat :: k in files && k != h ==> k in files' && files'[k] == files[k])
    && forall k: nat, i: nat :: k in files && k != h && i < |files[k]| && files[k][i] < |fat| ==>
      fat'[files[k][i]] == fat[files[k][i]]
  }

  lemma {:induction false} OthersKeepTwice(
      fat: seq<nat>, files: Files, fat': seq<nat>, files': Files, fat'': seq<nat>, files'': Files, h: nat)
    requires OthersKeep(fat, files, fat', files', h) && OthersKeep(fat', files', fat'', files'', h)
    ensures OthersKeep(fat, files, fat'', files'', h)
  {
    forall k: nat, i: nat | k in files && k != h && i < |files[k]| && files[k][i] < |fat|
      ensures fat''[files[k][i]] == fat[files[k][i]]
    {
      assert fat'[files'[k][i]] == fat[files[k][i]];
    }
  }

  /** What OthersKeep says of another file: its chain and its size are the same. */
  lemma {:induction false} OtherSize(
      fat: seq<nat>, files: Files, fat': seq<nat>, files': Files, h: nat, k: nat, lastSize: nat)
    requires OthersKeep(fat, files, fat', files', h) && k in files && k != h && Linked(fat, files[k])
    ensures k in files' && Linked(fat', files'[k]) && Size(fat', files'[k], lastSize) == Size(fat, files[k], lastSize)
  {
    var chain := files[k];
    forall i: nat | i < |chain|
      ensures Next(fat', chain, i)
    {
      assert Next(fat, chain, i) && fat'[chain[i]] == fat[chain[i]];
    }
    assert fat'[chain[|chain| - 1]] == fat[chain[|chain| - 1]];
  }

  /** A chain has no granule twice, so a granule has one link. */
  lemma {:induction false} OnePlace(fat: seq<nat>, owner: seq<Owner>, files: Files, h: nat, i: nat, k: nat, j: nat)
    requires Sound(fat, owner, files) && h in files && k in files && i < |files[h]| && j < |files[k]|
    ensures files[h][i] == files[k][j] ==> h == k && i == j
    ensures files[h][i] < |owner| && fat[files[h][i]] != UNUSED
  {
    assert owner[files[h][i]] == Of(h, i) && owner[files[k][j]] == Of(k, j);
  }

  lemma {:induction false} PlaceAdded(owner: seq<Owner>, files: Files, h: nat, chain: Chain, g: nat)
    requires Placed(owner, files) && g < |owner| && owner[g].Free?
    requires chain == if h in files then files[h] else []
    ensures Placed(owner[g := Of(h, |chain|)], files[h := chain + [g]])
  {
    var owner', files' := owner[g := Of(h, |chain|)], files[h := chain + [g]];
    forall e: nat | e < |owner| && owner'[e].Of?
      ensures Has(files', owner'[e].file, owner'[e].index, e)
    {
      if e != g {
        assert Has(files, owner[e].file, owner[e].index, e);
      }
    }
    forall k: nat, i: nat | k in files' && i < |files'[k]|
      ensures files'[k][i] < |owner| && owner'[files'[k][i]] == Of(k, i)
    {
      if k != h || i < |chain| {
        assert files'[k][i] == files[k][i] && owner[files[k][i]] == Of(k, i);
      }
    }
  }

  lemma {:induction false} GranuleTaken(fat: seq<nat>, fat': seq<nat>, count: nat, g: nat)
    requires |fat'| == |fat| && g < count <= |fat| && fat[g] == UNUSED && fat'[g] != UNUSED
    requires forall e: nat :: e < count && e != g ==> (fat'[e] == UNUSED <==> fat[e] == UNUSED)
    ensures FreeGranules(fat', count) + 1 == FreeGranules(fat, count)
  {
    CountRun(FreeFlags(fat, count), FreeFlags(fat', count), g, 1, false);
  }

  /** A free granule is linked to the end of a file. */
  lemma {:induction false} GranuleAdded(fat: seq<nat>, owner: seq<Owner>, files: Files, h: nat, g: nat)
    requires Sound(fat, owner, files) && h in files && g < |owner| && fat[g] == UNUSED
    ensures
      var chain := files[h];
      var files' := files[h := chain + [g]];
      && |chain| > 0 && Last(chain) < |fat|
      && var fat' := fat[Last(chain) := g][g := LAST];
         && Sound(fat', owner[g := Of(h, |chain|)], files') && OthersKeep(fat, files, fat', files', h)
         && FreeGranules(fat', |owner|) + 1 == FreeGranules(fat, |owner|)
  {
    hide Linked, Placed, FreeGranules;
    var chain := files[h];
    ChainGrows(fat, owner, files, h, g);
    var last := Last(chain);
    var fat', files' := fat[last := g][g := LAST], files[h := chain + [g]];
    OnePlace(fat, owner, files, h, |chain| - 1, h, |chain| - 1);
    forall k: nat, i: nat | k in files && i < |files[k]|
      ensures files[k][i] != g && (k != h ==> files[k][i] != last)
    {
      OnePlace(fat, owner, files, k, i, h, |chain| - 1);
    }
    GranuleTaken(fat, fat', |owner|, g);
    PlaceAdded(owner, files, h, chain, g);
    forall k: nat | k in files'
      ensures |files'[k]| > 0 && files'[k][0] == k && Linked(fat', files'[k])
    {
      if k != h {
        OtherSize(fat, files, fat', files', h, k, 0);
      }
    }
  }

  lemma {:induction false} ChainGrows(fat: seq<nat>, owner: seq<Owner>, files: Files, h: nat, g: nat)
    requires Sound(fat, owner, files) && h in files && g < |owner| && fat[g] == UNUSED
    ensures |files[h]| > 0 && Last(files[h]) < |fat|
    ensures Linked(fat[Last(files[h]) := g][g := LAST], files[h] + [g])
  {
    var chain := files[h];
    var fat', chain' := fat[Last(chain) := g][g := LAST], chain + [g];
    forall i: nat | i < |chain'|
      ensures chain'[i] < |fat'| && Next(fat', chain', i)
    {
      if i < |chain| {
        assert Next(fat, chain, i);
        OnePlace(fat, owner, files, h, i, h, |chain| - 1);
      }
    }
  }

  /** The last link of a file is given another number of sectors. */
  lemma {:induction false} LastSet(fat: seq<nat>, owner: seq<Owner>, files: Files, h: nat, sectors: nat)
    requires Sound(fat, owner, files) && h in files && sectors <= 9
    ensures |files[h]| > 0 && Last(files[h]) < |fat|
    ensures
      var fat' := fat[Last(files[h]) := LAST + sectors];
      && Sound(fat', owner, files) && OthersKeep(fat, files, fat', files, h)
      && FreeGranules(fat', |owner|) == FreeGranules(fat, |owner|)
  {
    var chain := files[h];
    assert Next(fat, chain, |chain| - 1);
    var fat' := fat[Last(chain) := LAST + sectors];
    forall k: nat, i: nat | k in files && i < |files[k]|
      ensures Next(fat', files[k], i)
    {
      assert Next(fat, files[k], i);
      OnePlace(fat, owner, files, k, i, h, |chain| - 1);
    }
    OnePlace(fat, owner, files, h, |chain| - 1, h, |chain| - 1);
    assert FreeFlags(fat', |owner|) == FreeFlags(fat, |owner|);
    forall k: nat, i: nat | k in files && k != h && i < |files[k]|
      ensures files[k][i] != Last(chain)
    {
      OnePlace(fat, owner, files, k, i, h, |chain| - 1);
    }
  }

  lemma {:induction false} OneGranule(fat: seq<nat>, g: nat)
    requires g < |fat| && fat[g] == LAST + 1
    ensures Linked(fat, [g]) && Size(fat, [g], 0) == 0
  {
    assert Next(fat, [g], 0);
  }

  /** A file of one granule and no bytes. */
  lemma {:induction false} FileMade(fat: seq<nat>, owner: seq<Owner>, files: Files, g: nat)
    requires Sound(fat, owner, files) && g < |owner| && fat[g] == UNUSED
    ensures
      var fat', files' := fat[g := LAST + 1], files[g := [g]];
      && g !in files && Sound(fat', owner[g := Of(g, 0)], files') && OthersKeep(fat, files, fat', files', g)
      && FreeGranules(fat', |owner|) + 1 == FreeGranules(fat, |owner|) && Size(fat', [g], 0) == 0
  {
    hide Linked, Size, Placed, FreeGranules;
    var fat', files' := fat[g := LAST + 1], files[g := [g]];
    forall k: nat, i: nat | k in files && i < |files[k]|
      ensures files[k][i] != g
    {
      OnePlace(fat, owner, files, k, i, k, i);
    }
    assert g in files ==> files[g][0] == g;
    OneGranule(fat', g);
    GranuleTaken(fat, fat', |owner|, g);
    PlaceAdded(owner, files, g, [], g);
    assert [] + [g] == [g];
    forall k: nat | k in files
      ensures Linked(fat', files[k])
    {
      OtherSize(fat, files, fat', files', g, k, 0);
    }
  }

  /** The first granules of a file are free again. */
  ghost predicate Freed(fat: seq<nat>, fat': seq<nat>, owner: seq<Owner>, h: nat, upto: nat) {
    && |fat'| == |fat| && |owner| <= |fat|
    && (forall g: nat :: g < |fat| && !(g < |owner| && owner[g].Of? && owner[g].file == h && owner[g].index < upto) ==>
          fat'[g] == fat[g])
    && (forall g: nat :: g < |owner| && owner[g].Of? && owner[g].file == h && owner[g].index < upto ==>
          fat'[g] == UNUSED)
    && FreeGranules(fat', |owner|) == FreeGranules(fat, |owner|) + upto
  }

  /** When all of them are, the table is the same but for the file's granules. */
  ghost predicate ChainFreed(fat: seq<nat>, fat': seq<nat>, chain: Chain) {
    && |fat'| == |fat|
    && forall g: nat :: g < |fat| ==> fat'[g] == if g in chain then UNUSED else fat[g]
  }

  ghost predicate InFiles(files: Files, gone: set<nat>, g: nat) {
    exists h: nat :: h in gone && h in files && g in files[h]
  }

  /** The table with the granules of some files free. */
  ghost function Without(fat: seq<nat>, files: Files, gone: set<nat>): (r: seq<nat>)
    ensures |r| == |fat|
  {
    seq(|fat|, g requires 0 <= g < |fat| => if InFiles(files, gone, g) then UNUSED else fat[g])
  }

  lemma {:induction false} WithoutNone(fat: seq<nat>, files: Files)
    ensures Without(fat, files, {}) == fat
  {
  }

  /** Killing one file and then the others. */
  lemma {:induction false} WithoutMore(fat: seq<nat>, fat1: seq<nat>, files: Files, h: nat, gone: set<nat>)
    requires h in files && ChainFreed(fat, fat1, files[h])
    ensures Without(fat1, files - {h}, gone) == Without(fat, files, {h} + gone)
  {
    var files1 := files - {h};
    forall g: nat | g < |fat|
      ensures Without(fat1, files1, gone)[g] == Without(fat, files, {h} + gone)[g]
    {
      if g in files[h] {
        assert InFiles(files, {h} + gone, g);
      } else {
        if InFiles(files1, gone, g) {
          var k: nat :| k in gone && k in files1 && g in files1[k];
          assert k in {h} + gone;
        }
        if InFiles(files, {h} + gone, g) {
          var k: nat :| k in {h} + gone && k in files && g in files[k];
          assert k in files1;
        }
      }
    }
  }

  lemma {:induction false} FreedExactly(fat: seq<nat>, fat': seq<nat>, owner: seq<Owner>, files: Files, h: nat)
    requires Sound(fat, owner, files) && h in files && Freed(fat, fat', owner, h, |files[h]|)
    ensures ChainFreed(fat, fat', files[h])
  {
    hide Linked, FreeGranules;
    forall g: nat | g < |fat|
      ensures fat'[g] == if g in files[h] then UNUSED else fat[g]
    {
      assert g < |owner| && owner[g].Of? && owner[g].file == h ==> Has(files, h, owner[g].index, g);
      if g in files[h] {
        var i: nat :| i < |files[h]| && files[h][i] == g;
        assert owner[files[h][i]] == Of(h, i);
      }
    }
  }

  lemma {:induction false} GranuleFreed(fat: seq<nat>, count: nat, g: nat)
    requires g < count <= |fat| && fat[g] != UNUSED
    ensures FreeGranules(fat[g := UNUSED], count) == FreeGranules(fat, count) + 1
  {
    CountRun(FreeFlags(fat, count), FreeFlags(fat[g := UNUSED], count), g, 1, true);
  }

  lemma {:induction false} FreedMore(fat: seq<nat>, fat': seq<nat>, owner: seq<Owner>, files: Files, h: nat, upto: nat)
    requires Sound(fat, owner, files) && h in files && upto < |files[h]| && Freed(fat, fat', owner, h, upto)
    ensures files[h][upto] < |fat| && fat'[files[h][upto]] == fat[files[h][upto]] && Next(fat, files[h], upto)
    ensures Freed(fat, fat'[files[h][upto] := UNUSED], owner, h, upto + 1)
  {
    hide FreeGranules;
    var g := files[h][upto];
    assert owner[g] == Of(h, upto);
    OnePlace(fat, owner, files, h, upto, h, upto);
    var next := fat'[g := UNUSED];
    forall e: nat | e < |owner| && owner[e].Of? && owner[e].file == h && owner[e].index < upto + 1
      ensures next[e] == UNUSED
    {
      assert Has(files, h, owner[e].index, e);
    }
    GranuleFreed(fat', |owner|, g);
  }

  function Released(owner: seq<Owner>, h: nat): (r: seq<Owner>)
    ensures |r| == |owner|
  {
    seq(|owner|, g requires 0 <= g < |owner| => if owner[g].Of? && owner[g].file == h then Free else owner[g])
  }

  lemma {:induction false} FileKilled(fat: seq<nat>, fat': seq<nat>, owner: seq<Owner>, files: Files, h: nat)
    requires Sound(fat, owner, files) && h in files && Freed(fat, fat', owner, h, |files[h]|)
    ensures Sound(fat', Released(owner, h), files - {h}) && OthersKeep(fat, files, fat', files - {h}, h)
  {
    var owner', files' := Released(owner, h), files - {h};
    forall k: nat, i: nat | k in files && k != h && i < |files[k]|
      ensures files[k][i] < |owner| && owner'[files[k][i]] == Of(k, i) && fat'[files[k][i]] == fat[files[k][i]]
    {
      assert owner[files[k][i]] == Of(k, i);
    }
    forall k: nat | k in files'
      ensures Linked(fat', files'[k])
    {
      OtherSize(fat, files, fat', files', h, k, 0);
    }
    forall g: nat | g < |owner|
      ensures owner'[g].Free? <==> fat'[g] == UNUSED
      ensures owner'[g].Of? ==> Has(files', owner'[g].file, owner'[g].index, g)
    {
      if owner[g].Of? {
        assert Has(files, owner[g].file, owner[g].index, g);
      }
    }
  }

  /** The granules that a size takes. */
  function GranulesFor(size: nat): nat { (size + GRANULE - 1) / GRANULE }

  /** The quotient and the remainder of int. */
  function Quotient(a: int, b: nat): int requires b > 0 { if a >= 0 then a / b else -(-a / b) }
  function Remainder(a: int, b: nat): int requires b > 0 { a - b * Quotient(a, b) }

  /** The last link, a u_char, and the last sector size, 16 bits, that
      extend_fat_chain sets for the bytes in the last granule, an int. */
  function LastLink(expand: int): nat {
    ((if Remainder(expand, SECTOR) == 0 then LAST else LAST + 1) + Quotient(expand, SECTOR)) % 256
  }

  function LastBytes(expand: int): nat {
    (if Remainder(expand, SECTOR) == 0 then SECTOR else Remainder(expand, SECTOR)) % 0x1_0000
  }

  lemma {:induction false} LastParts(expand: int)
    requires 0 <= expand <= GRANULE
    ensures LastLink(expand) == (if expand % SECTOR == 0 then LAST else LAST + 1) + expand / SECTOR <= LAST + 9
    ensures LastBytes(expand) == if expand % SECTOR == 0 then SECTOR else expand % SECTOR
  {
  }

  /** A size that is negative as an int leaves a link and a last sector size that a
      file may have if and only if the bytes it gives the last granule are, modulo
      65536, whole sectors of one granule. */
  lemma {:induction false} NegativeSize(expand: int)
    requires expand < 0
    ensures
      var link, bytes := LastLink(expand), LastBytes(expand);
      LAST <= link <= LAST + 9 && bytes <= SECTOR && (link == LAST ==> bytes == 0) <==>
        expand % 0x1_0000 % SECTOR == 0 && 0 < expand % 0x1_0000 <= GRANULE
  {
    hide Quotient, Remainder;
    var q, r := Quotient(expand, SECTOR), Remainder(expand, SECTOR);
    QuotientParts(expand);
    if r < 0 {
      WrapPart(expand, q - 1, SECTOR + r);
      WrapNegative(r);
    } else {
      WrapPart(expand, q, 0);
      WrapLink(q);
    }
  }

  lemma {:induction false} QuotientParts(a: int)
    requires a < 0
    ensures -SECTOR < Remainder(a, SECTOR) <= 0 && a == SECTOR * Quotient(a, SECTOR) + Remainder(a, SECTOR)
  {
  }

  lemma {:induction false} WrapNegative(r: int)
    requires -SECTOR < r < 0
    ensures r % 0x1_0000 > SECTOR
  {
  }

  lemma {:induction false} WrapLink(q: int)
    ensures LAST < (LAST + q) % 256 <= LAST + 9 <==> 1 <= q % 256 <= 9
  {
  }

  lemma {:induction false} WrapPart(a: int, q: int, r: nat)
    requires a == SECTOR * q + r && r < SECTOR
    ensures a % 0x1_0000 == SECTOR * (q % 256) + r && a % 0x1_0000 % SECTOR == r
  {
    var k := q / 256;
    assert q == 256 * k + q % 256;
    assert a == 0x1_0000 * k + (SECTOR * (q % 256) + r);
  }

  /** The last link and the size of the last sector that extend_fat_chain sets
      give the size. */
  lemma {:induction false} SizeSet(fat: seq<nat>, chain: Chain, size: nat)
    requires Linked(fat, chain) && (|chain| - 1) * GRANULE < size <= |chain| * GRANULE
    requires
      var expand := size - (|chain| - 1) * GRANULE;
      fat[Last(chain)] == (if expand % SECTOR == 0 then LAST else LAST + 1) + expand / SECTOR
    ensures
      var expand := size - (|chain| - 1) * GRANULE;
      Size(fat, chain, if expand % SECTOR == 0 then SECTOR else expand % SECTOR) == size
  {
    hide Linked;
    var expand := size - (|chain| - 1) * GRANULE;
    assert expand == SECTOR * (expand / SECTOR) + expand % SECTOR;
  }

  lemma {:induction false} NoneFree(fat: seq<nat>, count: nat)
    requires count <= |fat|
    ensures FreeGranules(fat, count) == 0 <==> forall g: nat :: g < count ==> fat[g] != UNUSED
  {
    CountZero(FreeFlags(fat, count));
    assert forall g: nat :: g < count ==> FreeFlags(fat, count)[g] == (fat[g] == UNUSED);
  }

  /** Each granule of a chain from a place on was the first free, from the one
      before it, of those that were not yet in the chain. */
  ghost predicate Nearest(fat: seq<nat>, count: nat, chain: Chain, from: nat) {
    forall i: nat, j: nat :: 0 < from <= i == j + 1 < |chain| ==> NearestTo(fat, count, chain[..i], chain[i], chain[j])
  }

  ghost predicate NearestTo(fat: seq<nat>, count: nat, before: Chain, g: nat, start: nat) {
    && g < count <= |fat| && fat[g] == UNUSED && g !in before
    && forall k: nat :: k < count && fat[k] == UNUSED && k !in before && k != g ==> Before(g, k, start)
  }

  lemma {:induction false} NearestMore(fat: seq<nat>, count: nat, chain: Chain, from: nat, g: nat)
    requires Nearest(fat, count, chain, from) && |chain| > 0 && NearestTo(fat, count, chain, g, Last(chain))
    ensures Nearest(fat, count, chain + [g], from)
  {
    hide NearestTo;
    var more := chain + [g];
    forall i: nat, j: nat | 0 < from <= i == j + 1 < |more|
      ensures NearestTo(fat, count, more[..i], more[i], more[j])
    {
      if i < |chain| {
        assert more[..i] == chain[..i];
      } else {
        assert more[..i] == chain;
      }
    }
  }

  /** The table is the same but for a chain's granules. */
  ghost predicate TableKept(fat: seq<nat>, fat': seq<nat>, chain: Chain) {
    |fat'| == |fat| && forall g: nat :: g < |fat| && g !in chain ==> fat'[g] == fat[g]
  }

  lemma {:induction false} TableSame(fat: seq<nat>, chain: Chain)
    ensures TableKept(fat, fat, chain)
  {
  }

  lemma {:induction false} TableMore(fat: seq<nat>, fat': seq<nat>, chain: Chain, added: nat)
    requires TableKept(fat, fat', chain) && |chain| > 0 && Last(chain) < |fat| && added < |fat|
    ensures TableKept(fat, fat'[Last(chain) := added][added := LAST], chain + [added])
  {
  }

  lemma {:induction false} TableEnd(fat: seq<nat>, fat': seq<nat>, chain: Chain, link: nat)
    requires TableKept(fat, fat', chain) && |chain| > 0 && Last(chain) < |fat|
    ensures TableKept(fat, fat'[Last(chain) := link], chain)
  {
  }

  /** What a write does to the table: nothing, unless the file grows; then each
      granule that it gets is the first free one in order from the one before it, no
      other link changes, and no granule is lost. */
  ghost predicate Gained(
      fat: seq<nat>, count: nat, was: Chain, fat': seq<nat>, now: Chain, size: nat, end: nat)
  {
    && count <= |fat| == |fat'| && was <= now && TableKept(fat, fat', now) && Nearest(fat, count, now, |was|)
    && FreeGranules(fat', count) + |now| == FreeGranules(fat, count) + |was|
    && if end <= size then fat' == fat && now == was else |now| == GranulesFor(end)
  }

  /** In full: the granule of the nearest track, or of the track before if two are as
      near, or the first of a track, of those whose byte is $FF and that are not taken. */
  lemma {:induction false} NearestToIs(fat: seq<nat>, count: nat, before: Chain, g: nat, start: nat)
    requires NearestTo(fat, count, before, g, start)
    ensures g < count <= |fat| && fat[g] == 0xFF && g !in before
    ensures forall k: nat :: k < count && fat[k] == 0xFF && k !in before && k != g ==>
      var t, u, from := g / 2, k / 2, start / 2;
      || (t == u && g < k)
      || (t != u && Apart(t, from) < Apart(u, from))
      || (t < from < u && from - t == u - from)
  {
    forall k: nat | k < count && fat[k] == 0xFF && k !in before && k != g
      ensures Before(g, k, start)
    {
    }
  }

  /** So each granule that a file gains is the nearest to the one before it, and there
      are as many as 2304 bytes in each need. */
  lemma {:induction false} GainedIs(
      fat: seq<nat>, count: nat, was: Chain, fat': seq<nat>, now: Chain, size: nat, end: nat, i: nat)
    requires Gained(fat, count, was, fat', now, size, end) && 0 < |was| <= i < |now|
    ensures now[..|was|] == was && end > size && 2304 * (|now| - 1) < end <= 2304 * |now|
    ensures now[i] < count <= |fat| && fat[now[i]] == 0xFF && now[i] !in now[..i]
    ensures forall k: nat :: k < count && fat[k] == 0xFF && k !in now[..i] && k != now[i] ==>
      var t, u, from := now[i] / 2, k / 2, now[i - 1] / 2;
      || (t == u && now[i] < k)
      || (t != u && Apart(t, from) < Apart(u, from))
      || (t < from < u && from - t == u - from)
  {
    hide NearestTo, FreeGranules, TableKept;
    assert NearestTo(fat, count, now[..i], now[i], now[i - 1]);
    NearestToIs(fat, count, now[..i], now[i], now[i - 1]);
  }

  lemma {:induction false} GainedNone(fat: seq<nat>, count: nat, chain: Chain, size: nat, end: nat)
    requires count <= |fat| && end <= size
    ensures Gained(fat, count, chain, fat, chain, size, end)
  {
    hide FreeGranules, NearestTo;
    NearestNone(fat, count, chain);
  }

  /** The granules free now are those that were but for a chain's. */
  ghost predicate FreeBut(fat: seq<nat>, fat': seq<nat>, count: nat, chain: Chain) {
    && count <= |fat| == |fat'|
    && forall g: nat :: g < count ==> (fat'[g] == UNUSED <==> fat[g] == UNUSED && g !in chain)
  }

  lemma {:induction false} FreeButChain(fat: seq<nat>, owner: seq<Owner>, files: Files, h: nat)
    requires Sound(fat, owner, files) && h in files
    ensures FreeBut(fat, fat, |owner|, files[h])
  {
    forall g: nat | g < |owner| && g in files[h]
      ensures fat[g] != UNUSED
    {
      var i: nat :| i < |files[h]| && files[h][i] == g;
      OnePlace(fat, owner, files, h, i, h, i);
    }
  }

  lemma {:induction false} NearestNone(fat: seq<nat>, count: nat, chain: Chain)
    ensures Nearest(fat, count, chain, |chain|)
  {
  }

  lemma {:induction false} GranuleChosen(
      fat0: seq<nat>, fat: seq<nat>, count: nat, chain: Chain, g: nat, fat': seq<nat>)
    requires FreeBut(fat0, fat, count, chain) && |chain| > 0 && Last(chain) < count <= LAST && g < count
    requires fat[g] == UNUSED
    requires forall k: nat :: k < count && fat[k] == UNUSED && k != g ==> Before(g, k, Last(chain))
    requires fat[Last(chain)] != UNUSED && fat' == fat[Last(chain) := g][g := LAST]
    ensures NearestTo(fat0, count, chain, g, Last(chain)) && FreeBut(fat0, fat', count, chain + [g])
  {
    hide Before;
  }

  lemma {:induction false} NothingChanged(fat: seq<nat>, files: Files)
    ensures forall h: nat :: OthersKeep(fat, files, fat, files, h)
  {
  }

  lemma {:induction false} NextInChain(fat: seq<nat>, chain: Chain, i: nat)
    requires Linked(fat, chain) && i < |chain|
    ensures chain[i] < |fat| && Next(fat, chain, i)
  {
  }

  /** A link is below $C0 unless it is the last. */
  lemma {:induction false} LinkEnds(fat: seq<nat>, owner: seq<Owner>, files: Files, h: nat, i: nat)
    requires Sound(fat, owner, files) && h in files && i < |files[h]|
    ensures files[h][i] < |fat| && (fat[files[h][i]] < LAST <==> i + 1 < |files[h]|)
  {
    assert Next(fat, files[h], i);
    if i + 1 < |files[h]| {
      OnePlace(fat, owner, files, h, i + 1, h, i + 1);
    }
  }

  lemma {:induction false} NoneFreed(fat: seq<nat>, owner: seq<Owner>, h: nat)
    requires |owner| <= |fat|
    ensures Freed(fat, fat, owner, h, 0)
  {
  }

  lemma {:induction false} FreedCount(fat: seq<nat>, fat': seq<nat>, owner: seq<Owner>, h: nat, upto: nat)
    requires Freed(fat, fat', owner, h, upto)
    ensures |owner| <= |fat| == |fat'| && FreeGranules(fat', |owner|) == FreeGranules(fat, |owner|) + upto
  {
  }

  lemma {:induction false} ChainLinked(fat: seq<nat>, owner: seq<Owner>, files: Files, h: nat)
    requires Sound(fat, owner, files) && h in files
    ensures |files[h]| > 0 && files[h][0] == h && Linked(fat, files[h])
  {
  }

  /* The bytes of a file. */

  /** A file with no sector in use in its last granule has no byte there. */
  ghost predicate SizeOk(fat: seq<nat>, chain: Chain, lastSize: nat) {
    Linked(fat, chain) && lastSize <= SECTOR && (fat[Last(chain)] == LAST ==> lastSize == 0)
  }

  /** The bytes of the last granule, and that a position below the size is in a
      granule before it or in those. */
  lemma {:induction false} SizeParts(fat: seq<nat>, chain: Chain, lastSize: nat, position: nat, count: nat)
    requires SizeOk(fat, chain, lastSize) && count > 0 && position + count <= Size(fat, chain, lastSize)
    ensures Size(fat, chain, lastSize) <= |chain| * GRANULE && position / GRANULE < |chain|
    ensures position / GRANULE == |chain| - 1 ==>
      LAST < fat[Last(chain)] && position % GRANULE + count <= (fat[Last(chain)] - LAST - 1) * SECTOR + lastSize
  {
    assert Next(fat, chain, |chain| - 1);
    assert position == position / GRANULE * GRANULE + position % GRANULE;
  }

  lemma {:induction false} SizeFits(fat: seq<nat>, chain: Chain, lastSize: nat)
    requires SizeOk(fat, chain, lastSize)
    ensures (|chain| - 1) * GRANULE <= Size(fat, chain, lastSize) <= |chain| * GRANULE
  {
    assert Next(fat, chain, |chain| - 1);
  }

  lemma {:induction false} ChainDistinct(fat: seq<nat>, owner: seq<Owner>, files: Files, h: nat)
    requires Sound(fat, owner, files) && h in files
    ensures Distinct(files[h], |owner|)
  {
    forall i: nat, j: nat | i < j < |files[h]|
      ensures files[h][i] != files[h][j]
    {
      OnePlace(fat, owner, files, h, i, h, j);
    }
    forall i: nat | i < |files[h]|
      ensures files[h][i] < |owner|
    {
      OnePlace(fat, owner, files, h, i, h, i);
    }
  }

  /** Every file but h has the bytes that it had, whatever its size is. */
  ghost predicate OthersHold(data: Data, files: Files, data': Data, files': Files, h: nat) {
    forall k: nat, size: nat :: k in files && k != h ==>
      k in files' && Content(data', GRANULE, files'[k], size) == Content(data, GRANULE, files[k], size)
  }

  lemma {:induction false} OtherBytes(
      fat: seq<nat>, files: Files, fat': seq<nat>, owner: seq<Owner>, files': Files, data: Data, data': Data, h: nat)
    requires OthersKeep(fat, files, fat', files', h) && Sound(fat', owner, files')
    requires h in files' && OnlyBlocks(data, data', files'[h])
    ensures OthersHold(data, files, data', files', h)
  {
    hide Content;
    forall k: nat, size: nat | k in files && k != h
      ensures k in files' && Content(data', GRANULE, files'[k], size) == Content(data, GRANULE, files[k], size)
    {
      forall i: nat | i < |files[k]|
        ensures files'[k][i] !in files'[h]
      {
        NotInOther(fat', owner, files', h, k, i);
      }
      ContentSame(data, data', GRANULE, files[k], size);
    }
  }

  lemma {:induction false} NothingHeld(data: Data, files: Files, h: nat)
    ensures OthersHold(data, files, data, files, h)
  {
  }

  lemma {:induction false} NotInOther(fat: seq<nat>, owner: seq<Owner>, files: Files, h: nat, k: nat, i: nat)
    requires Sound(fat, owner, files) && h in files && k in files && k != h && i < |files[k]|
    ensures files[k][i] !in files[h]
  {
    forall j: nat | j < |files[h]|
      ensures files[h][j] != files[k][i]
    {
      OnePlace(fat, owner, files, h, j, k, i);
    }
  }

  /* Where granules are on the disk. */

  const SECTORS := 9

  /** The first of the nine slots of a granule, the two granules of track 17 being
      skipped. */
  function Slot(granule: nat): nat { granule * SECTORS + if granule > 33 then 18 else 0 }

  /** Granules have no slot in common, and none has one of track 17. */
  lemma {:induction false} SlotsApart(a: nat, b: nat, i: nat, j: nat)
    requires i < SECTORS && j < SECTORS
    ensures Slot(a) + i == Slot(b) + j ==> a == b && i == j
    ensures (Slot(a) + i) / 18 != 17
    ensures a < b ==> Slot(a) + SECTORS <= Slot(b)
    ensures Slot(0) == 0 && Slot(34) == 18 * 18 && (a != 33 ==> Slot(a + 1) == Slot(a) + 9)
  {
  }

  /** The sectors of track 17 are as they were. */
  ghost predicate DirectoryKept(slots: Data, slots': Data) {
    |slots'| == |slots| && forall t: nat :: t < |slots| && t / 18 == 17 ==> slots'[t] == slots[t]
  }

  lemma {:induction false} DirectoryKeptSelf(slots: Data)
    ensures DirectoryKept(slots, slots)
  {
  }

  lemma {:induction false} DirectoryKeptTwice(slots: Data, slots': Data, slots'': Data)
    requires DirectoryKept(slots, slots') && DirectoryKept(slots', slots'')
    ensures DirectoryKept(slots, slots'')
  {
  }

  /** Slots hold a sector each. */
  ghost predicate Formatted(slots: Data) { Blocked(slots, SECTOR) }

  /** The bytes of some slots, one after the other. */
  function Joined(slots: Data, first: nat, n: nat): seq<Byte> requires first + n <= |slots| {
    if n == 0 then [] else Joined(slots, first, n - 1) + slots[first + n - 1]
  }

  /** The granules of a disk. */
  function Granulated(slots: Data, count: nat): (r: Data)
    requires Slot(count) <= |slots|
    ensures |r| == count
  {
    seq(count, g requires 0 <= g < count => SlotsApart(g, count, 0, 0); Joined(slots, Slot(g), SECTORS))
  }

  lemma {:induction false} JoinedLength(slots: Data, first: nat, n: nat)
    requires first + n <= |slots| && Formatted(slots)
    ensures |Joined(slots, first, n)| == n * SECTOR
  {
    if n > 0 {
      JoinedLength(slots, first, n - 1);
    }
  }

  lemma {:induction false} GranulesBlocked(slots: Data, count: nat)
    requires Slot(count) <= |slots| && Formatted(slots)
    ensures Blocked(Granulated(slots, count), GRANULE)
  {
    forall g: nat | g < count
      ensures |Granulated(slots, count)[g]| == GRANULE
    {
      SlotsApart(g, count, 0, 0);
      JoinedLength(slots, Slot(g), SECTORS);
    }
  }

  lemma {:induction false} GranuleLength(slots: Data, count: nat, g: nat)
    requires Slot(count) <= |slots| && Formatted(slots) && g < count
    ensures |Granulated(slots, count)[g]| == GRANULE
  {
    GranulesBlocked(slots, count);
  }

  lemma {:induction false} JoinedSame(slots: Data, slots': Data, first: nat, n: nat)
    requires first + n <= |slots| == |slots'| && forall s: nat :: first <= s < first + n ==> slots'[s] == slots[s]
    ensures Joined(slots', first, n) == Joined(slots, first, n)
  {
    if n > 0 {
      JoinedSame(slots, slots', first, n - 1);
    }
  }

  /** Slot c from a first one on holds sector c of a buffer. */
  predicate SectorIs(slots: Data, first: nat, buffer: seq<Byte>, c: nat) {
    SECTOR * (c + 1) <= |buffer| && first + c < |slots| && slots[first + c] == buffer[SECTOR * c..SECTOR * (c + 1)]
  }

  lemma {:induction false} JoinedIs(slots: Data, first: nat, n: nat, buffer: seq<Byte>)
    requires first + n <= |slots| && SECTOR * n <= |buffer|
    requires forall c: nat :: c < n ==> SectorIs(slots, first, buffer, c)
    ensures Joined(slots, first, n) == buffer[..SECTOR * n]
  {
    if n > 0 {
      JoinedIs(slots, first, n - 1, buffer);
      assert SectorIs(slots, first, buffer, n - 1);
      assert buffer[..SECTOR * n] == buffer[..SECTOR * (n - 1)] + buffer[SECTOR * (n - 1)..SECTOR * n];
    }
  }

  lemma {:induction false} SectorLength(slots: Data, first: nat, buffer: seq<Byte>, c: nat)
    requires SectorIs(slots, first, buffer, c)
    ensures |slots[first + c]| == SECTOR
  {
  }

  lemma {:induction false} SectorSet(slots: Data, first: nat, buffer: seq<Byte>, count: nat)
    requires first + count < |slots| && SECTOR * (count + 1) <= |buffer|
    requires forall c: nat :: c < count ==> SectorIs(slots, first, buffer, c)
    ensures
      var slots' := slots[first + count := buffer[SECTOR * count..SECTOR * (count + 1)]];
      forall c: nat :: c < count + 1 ==> SectorIs(slots', first, buffer, c)
  {
    var slots' := slots[first + count := buffer[SECTOR * count..SECTOR * (count + 1)]];
    forall c: nat | c < count + 1
      ensures SectorIs(slots', first, buffer, c)
    {
      assert c < count ==> SectorIs(slots, first, buffer, c);
    }
  }

  /** Writing the nine sectors of a granule sets that granule and no other. */
  lemma {:induction false} GranuleSet(slots: Data, slots': Data, count: nat, g: nat, buffer: seq<Byte>)
    requires Slot(count) <= |slots| == |slots'| && g < count && |buffer| == GRANULE && Slot(g) + SECTORS <= |slots|
    requires forall c: nat :: c < SECTORS ==> SectorIs(slots', Slot(g), buffer, c)
    requires forall s: nat :: s < |slots| && !(Slot(g) <= s < Slot(g) + SECTORS) ==> slots'[s] == slots[s]
    ensures Granulated(slots', count) == Granulated(slots, count)[g := buffer]
  {
    hide Joined, SectorIs;
    forall k: nat | k < count
      ensures Granulated(slots', count)[k] == if k == g then buffer else Granulated(slots, count)[k]
    {
      SlotsApart(k, count, 0, 0);
      if k == g {
        JoinedIs(slots', Slot(g), SECTORS, buffer);
      } else {
        SlotsApart(k, g, 0, 0);
        SlotsApart(g, k, 0, 0);
        JoinedSame(slots, slots', Slot(k), SECTORS);
      }
    }
  }

  /* The files of a disk, by first granule, with the last sector sizes that the
     directory has. */

  ghost predicate SizesOk(fat: seq<nat>, files: Files, lastSizes: map<nat, nat>) {
    && lastSizes.Keys == files.Keys
    && forall h: nat :: h in files ==> SizeOk(fat, files[h], lastSizes[h])
  }

  ghost function FileBytes(fat: seq<nat>, files: Files, lastSizes: map<nat, nat>, data: Data, h: nat): seq<Byte>
    requires SizesOk(fat, files, lastSizes) && h in files
  {
    Content(data, GRANULE, files[h], Size(fat, files[h], lastSizes[h]))
  }

  ghost function Store(fat: seq<nat>, files: Files, lastSizes: map<nat, nat>, data: Data): map<nat, seq<Byte>>
    requires SizesOk(fat, files, lastSizes)
  {
    map h | h in files :: FileBytes(fat, files, lastSizes, data, h)
  }

  /** A change to one file changes nothing else in the store. */
  lemma {:induction false} StoreAfter(
      fat: seq<nat>, files: Files, lastSizes: map<nat, nat>, data: Data,
      fat': seq<nat>, files': Files, lastSizes': map<nat, nat>, data': Data, h: nat)
    requires SizesOk(fat, files, lastSizes) && OthersKeep(fat, files, fat', files', h)
    requires OthersHold(data, files, data', files', h)
    requires lastSizes'.Keys == files'.Keys
    requires forall k: nat :: k in files && k != h ==> k in lastSizes' && lastSizes'[k] == lastSizes[k]
    requires h in files' ==> SizeOk(fat', files'[h], lastSizes'[h])
    ensures SizesOk(fat', files', lastSizes')
    ensures
      var rest := Store(fat, files, lastSizes, data) - {h};
      Store(fat', files', lastSizes', data') ==
        if h in files' then rest[h := FileBytes(fat', files', lastSizes', data', h)] else rest
  {
    hide Content, Size, Linked, OthersKeep, OthersHold, SizeOk;
    forall k: nat | k in files && k != h
      ensures k in files' && SizeOk(fat', files'[k], lastSizes'[k])
    {
      FileKept(fat, files, lastSizes, data, fat', files', lastSizes', data', h, k);
    }
    assert forall k: nat :: k in files' && k != h ==> k in files by { NoNewFile(fat, files, fat', files', h); }
    forall k: nat | k in files && k != h
      ensures k in files' && FileBytes(fat', files', lastSizes', data', k) == FileBytes(fat, files, lastSizes, data, k)
    {
      FileKept(fat, files, lastSizes, data, fat', files', lastSizes', data', h, k);
    }
  }

  lemma {:induction false} StoreKeys(fat: seq<nat>, files: Files, lastSizes: map<nat, nat>, data: Data)
    requires SizesOk(fat, files, lastSizes)
    ensures Store(fat, files, lastSizes, data).Keys == files.Keys == lastSizes.Keys
  {
  }

  lemma {:induction false} SameKeys(fat: seq<nat>, files: Files, fat': seq<nat>, files': Files, h: nat)
    requires OthersKeep(fat, files, fat', files', h) && h in files && h in files'
    ensures files'.Keys == files.Keys
  {
  }

  lemma {:induction false} NoNewFile(fat: seq<nat>, files: Files, fat': seq<nat>, files': Files, h: nat)
    requires OthersKeep(fat, files, fat', files', h)
    ensures forall k: nat :: k in files' && k != h ==> k in files
  {
  }

  lemma {:induction false} FileKept(
      fat: seq<nat>, files: Files, lastSizes: map<nat, nat>, data: Data,
      fat': seq<nat>, files': Files, lastSizes': map<nat, nat>, data': Data, h: nat, k: nat)
    requires SizesOk(fat, files, lastSizes) && OthersKeep(fat, files, fat', files', h)
    requires OthersHold(data, files, data', files', h) && k in files && k != h
    requires k in lastSizes' && lastSizes'[k] == lastSizes[k]
    ensures k in files' && SizeOk(fat', files'[k], lastSizes'[k])
    ensures Content(data', GRANULE, files'[k], Size(fat', files'[k], lastSizes'[k]))
      == Content(data, GRANULE, files[k], Size(fat, files[k], lastSizes[k]))
  {
    hide Content, Size, Linked;
    OtherSize(fat, files, fat', files', h, k, lastSizes[k]);
    LastKept(fat, files, fat', files', h, k);
  }

  lemma {:induction false} SameAgain<K, V>(m: map<K, V>, k: K, v: V)
    requires k in m && m[k] == v
    ensures m[k := v] == m
  {
  }

  lemma {:induction false} SameAfter<K, V>(m: map<K, V>, k: K, v: V)
    ensures (m - {k})[k := v] == m[k := v]
  {
  }

  lemma {:induction false} TableFormatted(fat: seq<nat>, max: nat, min: nat)
    requires min <= max <= |fat| && forall g: nat :: g < max ==> (fat[g] == UNUSED <==> min <= g)
    ensures FreeGranules(fat, max) == max - min
  {
    var none := seq(max, g => false);
    CountZero(none);
    CountRun(none, FreeFlags(fat, max), min, max - min, true);
  }

  lemma {:induction false} NothingStored(fat: seq<nat>, data: Data)
    ensures SizesOk(fat, map[], map[]) && Store(fat, map[], map[], data) == map[]
  {
  }

  lemma {:induction false} MadeOk(fat: seq<nat>, g: nat)
    requires g < |fat| && fat[g] == LAST + 1
    ensures SizeOk(fat, [g], 0) && Size(fat, [g], 0) == 0
  {
    OneGranule(fat, g);
  }

  lemma {:induction false} NoContent(data: Data, chain: Chain)
    ensures Content(data, GRANULE, chain, 0) == []
  {
  }

  lemma {:induction false} GoneHeld(data: Data, files: Files, h: nat)
    ensures OthersHold(data, files, data, files - {h}, h)
  {
  }

  lemma {:induction false} NewHeld(data: Data, files: Files, h: nat)
    ensures OthersHold(data, files, data, files[h := [h]], h)
  {
  }

  lemma {:induction false} StoreCreated(
      fat: seq<nat>, files: Files, lastSizes: map<nat, nat>, data: Data, fat': seq<nat>, g: nat)
    requires SizesOk(fat, files, lastSizes) && g !in files && OthersKeep(fat, files, fat', files[g := [g]], g)
    requires SizeOk(fat', [g], 0) && Size(fat', [g], 0) == 0
    ensures SizesOk(fat', files[g := [g]], lastSizes[g := 0])
    ensures Store(fat', files[g := [g]], lastSizes[g := 0], data) == Store(fat, files, lastSizes, data)[g := []]
  {
    hide OthersKeep, OthersHold, SizeOk, Size, Content;
    NewHeld(data, files, g);
    StoreAfter(fat, files, lastSizes, data, fat', files[g := [g]], lastSizes[g := 0], data, g);
    NoContent(data, [g]);
  }

  lemma {:induction false} LastKept(fat: seq<nat>, files: Files, fat': seq<nat>, files': Files, h: nat, k: nat)
    requires OthersKeep(fat, files, fat', files', h) && k in files && k != h && Linked(fat, files[k])
    ensures fat'[Last(files[k])] == fat[Last(files[k])]
  {
    assert fat'[files[k][|files[k]| - 1]] == fat[files[k][|files[k]| - 1]];
  }
}
