/** Cutting a file short: what _dd_truncate leaves of its extents, of its chain
    and of its size. */
module DragonCut {
  import opened DragonBitmap
  import opened DragonOwner
  import opened DragonDir
  import opened DragonChange

  function Min(a: nat, b: nat): nat { if a < b then a else b }

  /** How many sectors of an extent are kept, the file having some before it. */
  function Kept(count: nat, before: nat, keep: nat): (kept: nat)
    ensures kept <= count
  {
    if before < keep then Min(keep - before, count) else 0
  }

  function CutExtent(x: Extent, before: nat, keep: nat): Extent {
    var kept := Kept(x.count, before, keep);
    if kept < x.count then Extent(if kept == 0 then 0 else x.lsn, kept) else x
  }

  function CutExtents(x: seq<Extent>, before: nat, keep: nat): (r: seq<Extent>)
    ensures |r| == |x|
  {
    seq(|x|, i requires 0 <= i < |x| => CutExtent(x[i], before + |ExtentSectors(x[..i])|, keep))
  }

  lemma {:induction false} KeptPrefix<T>(a: seq<T>, b: seq<T>, before: nat, keep: nat)
    ensures a[..Kept(|a|, before, keep)] + b[..Kept(|b|, before + |a|, keep)] == (a + b)[..Kept(|a + b|, before, keep)]
  {
    if before + |a| <= keep {
      assert a[..|a|] == a;
    }
  }

  lemma {:induction false} KeptJoin<T>(
      cut: seq<T>, cutA: seq<T>, whole: seq<T>, a: seq<T>, b: seq<T>, before: nat, keep: nat)
    requires whole == a + b && cutA == a[..Kept(|a|, before, keep)]
    requires cut == cutA + b[..Kept(|b|, before + |a|, keep)]
    ensures cut == whole[..Kept(|whole|, before, keep)]
  {
    KeptPrefix(a, b, before, keep);
  }

  lemma {:induction false} MinPrefix<T>(a: seq<T>, b: seq<T>, keep: nat)
    ensures a[..Min(keep, |a|)] + b[..Kept(|b|, |a|, keep)] == (a + b)[..Min(keep, |a + b|)]
  {
    KeptPrefix(a, b, 0, keep);
  }

  lemma {:induction false} CutLast(x: seq<Extent>, before: nat, keep: nat)
    requires |x| > 0
    ensures
      var n, r := |x| - 1, CutExtents(x, before, keep);
      && r[..n] == CutExtents(x[..n], before, keep)
      && r[n] == CutExtent(x[n], before + |ExtentSectors(x[..n])|, keep)
  {
    hide ExtentSectors, CutExtent;
    var n, r := |x| - 1, CutExtents(x, before, keep);
    forall i: nat | i < n
      ensures r[i] == CutExtents(x[..n], before, keep)[i]
    {
      assert x[..n][..i] == x[..i];
    }
  }

  lemma {:induction false} CutRange(x: Extent, before: nat, keep: nat)
    ensures
      var r := CutExtent(x, before, keep);
      Range(r.lsn, r.count) == Range(x.lsn, x.count)[..Kept(x.count, before, keep)]
  {
  }

  lemma {:induction false} CutExtentsSectors(x: seq<Extent>, before: nat, keep: nat)
    ensures ExtentSectors(CutExtents(x, before, keep)) ==
      ExtentSectors(x)[..Kept(|ExtentSectors(x)|, before, keep)]
    decreases |x|
  {
    if |x| > 0 {
      hide Range, CutExtents, CutExtent, ExtentSectors, Kept;
      var n := |x| - 1;
      var y, last := x[..n], x[n];
      CutExtentsSectors(y, before, keep);
      CutLast(x, before, keep);
      LastExtent(x);
      LastExtent(CutExtents(x, before, keep));
      CutRange(last, before + |ExtentSectors(y)|, keep);
      KeptJoin(ExtentSectors(CutExtents(x, before, keep)), ExtentSectors(CutExtents(y, before, keep)),
        ExtentSectors(x), ExtentSectors(y), Range(last.lsn, last.count), before, keep);
    }
  }

  lemma {:induction false} CutExtentsOk(e: Entry, before: nat, keep: nat)
    requires EntryOk(e)
    ensures EntryOk(e.(extents := CutExtents(e.extents, before, keep)))
  {
    hide ExtentSectors;
    var x, r := e.extents, CutExtents(e.extents, before, keep);
    forall i: nat, j: nat | i < j < |r| && r[j].count > 0
      ensures r[i].count > 0
    {
      ExtentsAscend(x, i, j);
      assert x[j].count > 0 && x[i].count > 0;
    }
    forall i: nat | i < |r|
      ensures r[i].count <= MAX_EXTENT
    {
      assert x[i].count <= MAX_EXTENT;
    }
  }

  lemma {:induction false} ExtentsAscend(x: seq<Extent>, i: nat, j: nat)
    requires i <= j <= |x|
    ensures |ExtentSectors(x[..i])| <= |ExtentSectors(x[..j])|
  {
    hide ExtentSectors;
    assert x[..j] == x[..i] + x[i..j];
    ExtentSectorsConcat(x[..i], x[i..j]);
  }

  /** The number of sectors up to a place in a chain. */
  function Before(dir: seq<Entry>, chain: Chain, p: nat): nat
    requires InDir(dir, chain) && p <= |chain|
  {
    |ChainSectors(dir, chain[..p])|
  }

  /** The file ended before a place, or ends at it. */
  predicate EndedBefore(dir: seq<Entry>, chain: Chain, p: nat, keep: nat)
    requires InDir(dir, chain) && p <= |chain|
  {
    p > 0 && Before(dir, chain, p) >= keep
  }

  predicate EndsAt(dir: seq<Entry>, chain: Chain, p: nat, keep: nat)
    requires InDir(dir, chain) && p < |chain|
  {
    !EndedBefore(dir, chain, p, keep) && (Before(dir, chain, p + 1) >= keep || p + 1 == |chain|)
  }

  /** What becomes of the entry at a place. */
  function CutEntry(dir: seq<Entry>, chain: Chain, p: nat, keep: nat, size: nat): Entry
    requires InDir(dir, chain) && p < |chain|
  {
    var e := dir[chain[p]];
    var cut := e.(extents := CutExtents(e.extents, Before(dir, chain, p), keep));
    if EndedBefore(dir, chain, p, keep) then Killed(cut).(lastOrNext := 0)
    else if EndsAt(dir, chain, p, keep) then cut.(continued := false, lastOrNext := size % SECTOR_SIZE)
    else cut
  }

  /** The entries of a file up to a place are cut. */
  ghost predicate CutSoFar(
      dir: seq<Entry>, dir': seq<Entry>, ix: Index, h: nat, p: nat, keep: nat, size: nat)
    requires Indexed(dir, ix) && h in ix.chains
  {
    && |dir'| == |dir|
    && forall e: nat :: e < MAX_ENTRIES ==>
      dir'[e] == if InChain(ix, h, e) && ix.place[e].pos < p
                 then CutEntry(dir, ix.chains[h], ix.place[e].pos, keep, size) else dir[e]
  }

  lemma {:induction false} BeforeAscends(dir: seq<Entry>, chain: Chain, p: nat, q: nat)
    requires InDir(dir, chain) && p <= q <= |chain|
    ensures Before(dir, chain, p) <= Before(dir, chain, q)
    decreases q - p
  {
    if p < q {
      ChainPrefix(dir, chain, p);
      BeforeAscends(dir, chain, p + 1, q);
    }
  }

  /** The place where the file ends. */
  function EndPos(dir: seq<Entry>, chain: Chain, keep: nat): (q: nat)
    requires InDir(dir, chain) && |chain| > 0
    ensures q < |chain|
  {
    EndFrom(dir, chain, keep, 0)
  }

  function EndFrom(dir: seq<Entry>, chain: Chain, keep: nat, p: nat): (q: nat)
    requires InDir(dir, chain) && p < |chain|
    ensures p <= q < |chain| && (q + 1 < |chain| ==> Before(dir, chain, q + 1) >= keep)
    ensures forall i: nat :: p < i <= q ==> Before(dir, chain, i) < keep
    decreases |chain| - p
  {
    if p + 1 < |chain| && Before(dir, chain, p + 1) < keep then EndFrom(dir, chain, keep, p + 1) else p
  }

  lemma {:induction false} EndPlace(dir: seq<Entry>, chain: Chain, keep: nat)
    requires InDir(dir, chain) && |chain| > 0
    ensures EndsAt(dir, chain, EndPos(dir, chain, keep), keep)
    ensures forall p: nat :: p < |chain| ==> (EndedBefore(dir, chain, p, keep) <==> p > EndPos(dir, chain, keep))
  {
    hide ChainSectors;
    var q := EndPos(dir, chain, keep);
    forall p: nat | p < |chain|
      ensures EndedBefore(dir, chain, p, keep) <==> p > q
    {
      if p <= q {
        BeforeAscends(dir, chain, p, q);
      } else {
        BeforeAscends(dir, chain, q + 1, p);
      }
    }
  }

  /** The sectors of the entries up to a place are cut at keep. */
  lemma {:induction false} CutChainSectors(
      dir: seq<Entry>, dir': seq<Entry>, chain: Chain, p: nat, keep: nat)
    requires InDir(dir, chain) && |dir'| == |dir| && p <= |chain|
    requires forall q: nat :: q < p ==>
      dir'[chain[q]].extents == CutExtents(dir[chain[q]].extents, Before(dir, chain, q), keep)
    ensures InDir(dir', chain[..p])
    ensures ChainSectors(dir', chain[..p]) == ChainSectors(dir, chain[..p])[..Min(keep, Before(dir, chain, p))]
    decreases p
  {
    if p == 0 {
      assert chain[..0] == [];
    } else {
      hide ChainSectors, ExtentSectors, CutExtents;
      var e := dir[chain[p - 1]];
      CutChainSectors(dir, dir', chain, p - 1, keep);
      ChainPrefix(dir, chain, p - 1);
      assert InDir(dir', chain[..p]);
      ChainPrefix(dir', chain[..p], p - 1);
      assert chain[..p][..p - 1] == chain[..p - 1] && chain[..p][..p] == chain[..p];
      CutExtentsSectors(e.extents, Before(dir, chain, p - 1), keep);
      MinPrefix(ChainSectors(dir, chain[..p - 1]), ExtentSectors(e.extents), keep);
    }
  }

  /** The chain up to where the file ends, in the directory it is cut in. */
  lemma {:induction false} CutLinks(dir: seq<Entry>, dir': seq<Entry>, ix: Index, h: nat, q: nat, keep: nat, size: nat)
    requires Indexed(dir, ix) && h in ix.chains && q < |ix.chains[h]| && EndsAt(dir, ix.chains[h], q, keep)
    requires forall p: nat :: p < |ix.chains[h]| ==> (EndedBefore(dir, ix.chains[h], p, keep) <==> p > q)
    requires CutSoFar(dir, dir', ix, h, |ix.chains[h]|, keep, size)
    ensures ChainOk(dir', ix.chains[h][..q + 1])
  {
    var chain := ix.chains[h];
    var chain' := chain[..q + 1];
    forall p: nat | p < |chain'|
      ensures chain'[p] < MAX_ENTRIES && Link(dir', chain', p)
    {
      CutLink(dir, dir', ix, h, q, keep, size, p);
    }
  }

  lemma {:induction false} CutLink(
      dir: seq<Entry>, dir': seq<Entry>, ix: Index, h: nat, q: nat, keep: nat, size: nat, p: nat)
    requires Indexed(dir, ix) && h in ix.chains && q < |ix.chains[h]| && EndsAt(dir, ix.chains[h], q, keep)
    requires forall p: nat :: p < |ix.chains[h]| ==> (EndedBefore(dir, ix.chains[h], p, keep) <==> p > q)
    requires CutSoFar(dir, dir', ix, h, |ix.chains[h]|, keep, size) && p <= q
    ensures ix.chains[h][p] < MAX_ENTRIES && Link(dir', ix.chains[h][..q + 1], p)
  {
    hide EntryOk, CutExtents, Before;
    var chain := ix.chains[h];
    assert Link(dir, chain, p) && ix.place[chain[p]] == Place(h, p);
    assert dir'[chain[p]] == CutEntry(dir, chain, p, keep, size);
    CutExtentsOk(dir[chain[p]], Before(dir, chain, p), keep);
    assert p < q ==> !EndedBefore(dir, chain, p + 1, keep);
    SizeKept(dir[chain[p]].(extents := CutExtents(dir[chain[p]].extents, Before(dir, chain, p), keep)), size);
  }

  lemma {:induction false} SizeKept(e: Entry, size: nat)
    requires EntryOk(e)
    ensures EntryOk(e.(continued := false, lastOrNext := size % SECTOR_SIZE))
  {
  }

  lemma {:induction false} CutIndexed(
      dir: seq<Entry>, dir': seq<Entry>, ix: Index, h: nat, q: nat, keep: nat, size: nat)
    requires Indexed(dir, ix) && h in ix.chains && q < |ix.chains[h]| && EndsAt(dir, ix.chains[h], q, keep)
    requires forall p: nat :: p < |ix.chains[h]| ==> (EndedBefore(dir, ix.chains[h], p, keep) <==> p > q)
    requires CutSoFar(dir, dir', ix, h, |ix.chains[h]|, keep, size)
    ensures Indexed(dir', Index(ix.chains[h := ix.chains[h][..q + 1]], ix.place))
  {
    hide ChainSectors, CutExtents, EntryOk, EndedBefore, Before, EndsAt, Link;
    var ix' := Index(ix.chains[h := ix.chains[h][..q + 1]], ix.place);
    CutLinks(dir, dir', ix, h, q, keep, size);
    CutOthers(dir, dir', ix, h, keep, size);
    forall e: nat | e < MAX_ENTRIES && !dir'[e].deleted
      ensures HasEntry(ix', ix'.place[e].head, ix'.place[e].pos, e)
    {
      assert HasEntry(ix, ix.place[e].head, ix.place[e].pos, e);
    }
  }

  /** Cutting sets no end flag, brings no entry into use and changes no name. */
  lemma {:induction false} CutFlags(
      dir: seq<Entry>, dir': seq<Entry>, ix: Index, ix': Index, h: nat, keep: nat, size: nat)
    requires DirOk(dir, ix) && h in ix.chains && Indexed(dir', ix') && ix'.chains.Keys == ix.chains.Keys
    requires CutSoFar(dir, dir', ix, h, |ix.chains[h]|, keep, size)
    ensures DirOk(dir', ix')
  {
    hide CutExtents, Before, EndedBefore, EndsAt, ChainOk;
    forall e: nat | e < MAX_ENTRIES
      ensures (dir'[e].end ==> dir[e].end) && (dir[e].deleted ==> dir'[e].deleted) && dir'[e].name == dir[e].name
    {
      if InChain(ix, h, e) {
        InChainLive(dir, ix, h, e);
      }
    }
    forall k: nat | k in ix.chains
      ensures k < MAX_ENTRIES
    {
      HeadLive(dir, ix, k);
    }
  }

  lemma {:induction false} InChainLive(dir: seq<Entry>, ix: Index, h: nat, e: nat)
    requires Indexed(dir, ix) && h in ix.chains && e < MAX_ENTRIES && InChain(ix, h, e)
    ensures !dir[e].deleted
  {
    assert Link(dir, ix.chains[h], ix.place[e].pos);
  }

  lemma {:induction false} CutOthers(dir: seq<Entry>, dir': seq<Entry>, ix: Index, h: nat, keep: nat, size: nat)
    requires Indexed(dir, ix) && h in ix.chains
    requires CutSoFar(dir, dir', ix, h, |ix.chains[h]|, keep, size)
    ensures forall k: nat :: k in ix.chains && k != h ==> SameFile(dir, ix, dir', ix, k) && ChainOk(dir', ix.chains[k])
  {
    hide ChainSectors, CutEntry, SameFile;
    forall k: nat | k in ix.chains && k != h
      ensures SameFile(dir, ix, dir', ix, k) && ChainOk(dir', ix.chains[k])
    {
      ChangedElsewhere(dir, ix, dir', h, k);
      SameChain(dir, ix, dir', ix, k);
    }
  }

  lemma {:induction false} CutSame(dir: seq<Entry>, dir': seq<Entry>, ix: Index, ix': Index, h: nat)
    requires |dir| == |dir'| && h in ix.chains
    requires forall k: nat :: k in ix.chains && k != h ==> SameFile(dir, ix, dir', ix, k)
    requires ix'.chains.Keys == ix.chains.Keys
    requires forall k: nat :: k in ix.chains && k != h ==> ix'.chains[k] == ix.chains[k]
    ensures OthersSame(dir, ix, dir', ix', h)
  {
    forall k: nat | k in ix.chains && k != h
      ensures SameFile(dir, ix, dir', ix', k)
    {
      assert SameFile(dir, ix, dir', ix, k);
    }
  }

  /** The number of sectors a size takes. */
  function SectorsFor(size: nat): nat { (size + SECTOR_SIZE - 1) / SECTOR_SIZE }

  /** Which give back the size. */
  lemma {:induction false} SizeBack(size: nat)
    ensures BytesIn(SectorsFor(size), size % SECTOR_SIZE) == size
  {
  }

  /** The entry a cut file ends with has an extent in use, unless it is the header. */
  lemma {:induction false} CutTail(
      dir: seq<Entry>, dir': seq<Entry>, ix: Index, h: nat, keep: nat, size: nat)
    requires Indexed(dir, ix) && h in ix.chains && InDir(dir, ix.chains[h]) && |ix.chains[h]| > 0
    requires CutSoFar(dir, dir', ix, h, |ix.chains[h]|, keep, size)
    requires TailOk(dir, ix.chains[h])
    ensures TailOk(dir', ix.chains[h][..EndPos(dir, ix.chains[h], keep) + 1])
  {
    hide ChainSectors, ExtentSectors, EndPos;
    var chain := ix.chains[h];
    EndPlace(dir, chain, keep);
    var q := EndPos(dir, chain, keep);
    if q > 0 {
      var e := dir[chain[q]];
      assert Link(dir, chain, q) && ix.place[chain[q]] == Place(h, q);
      assert dir'[chain[q]] == CutEntry(dir, chain, q, keep, size);
      ChainPrefix(dir, chain, q);
      if e.extents[0].count == 0 {
        assert q + 1 < |chain|;
        NoSectorsAtAll(e);
        assert false;
      }
      CutFirst(e.extents, Before(dir, chain, q), keep);
    }
  }

  lemma {:induction false} NoSectorsAtAll(e: Entry)
    requires EntryOk(e) && |e.extents| > 0 && e.extents[0].count == 0
    ensures ExtentSectors(e.extents) == []
  {
    NoSectors(e.extents);
  }

  lemma {:induction false} CutFirst(x: seq<Extent>, before: nat, keep: nat)
    requires |x| > 0 && x[0].count > 0 && before < keep
    ensures CutExtents(x, before, keep)[0].count > 0
  {
    assert x[..0] == [];
  }

  const WORD := 0x1_0000_0000   // u_int

  /** The sectors that _dd_truncate counts a size as taking, in u_int. */
  function KeepFor(size: nat): nat { (size + SECTOR_SIZE - 1) % WORD / SECTOR_SIZE }

  lemma {:induction false} KeepExact(size: nat)
    requires size < 0x1_0000_0000
    ensures KeepFor(size) == SectorsFor(size) <==> size <= 0xFFFF_FF00
  {
  }

  /** The files when one is cut to a number of sectors. */
  function FilesCut(files: Files, h: nat, keep: nat): Files requires h in files {
    files[h := files[h][..Min(keep, |files[h]|)]]
  }

  /** The chains when a file is cut to a number of sectors. */
  function CutIndex(dir: seq<Entry>, ix: Index, h: nat, keep: nat): Index
    requires h in ix.chains && InDir(dir, ix.chains[h]) && |ix.chains[h]| > 0
  {
    Index(ix.chains[h := ix.chains[h][..EndPos(dir, ix.chains[h], keep) + 1]], ix.place)
  }

  /** A file is cut to a size: what becomes of every entry, and of its chain. */
  ghost predicate Shortened(dir: seq<Entry>, dir': seq<Entry>, ix: Index, ix': Index, h: nat, size: nat) {
    && Indexed(dir, ix) && h in ix.chains
    && CutSoFar(dir, dir', ix, h, |ix.chains[h]|, KeepFor(size), size)
    && ix' == CutIndex(dir, ix, h, KeepFor(size))
  }

  /** A file cut to a size is the file with its first sectors and that size, its
      chain ended where they end, and no other file has changed. */
  lemma {:induction false} FileCut(dir: seq<Entry>, dir': seq<Entry>, ix: Index, h: nat, size: nat)
    requires DirOk(dir, ix) && h in ix.chains && InDir(dir, ix.chains[h]) && |ix.chains[h]| > 0
    requires CutSoFar(dir, dir', ix, h, |ix.chains[h]|, KeepFor(size), size)
    ensures
      var chain, keep := ix.chains[h], KeepFor(size);
      var ix' := CutIndex(dir, ix, h, keep);
      var sectors := ChainSectors(dir, chain);
      && DirOk(dir', ix') && OthersSame(dir, ix, dir', ix', h)
      && ChainSectors(dir', ix'.chains[h]) == sectors[..Min(keep, |sectors|)]
      && FileSize(dir', ix'.chains[h]) == BytesIn(Min(keep, |sectors|), size % SECTOR_SIZE)
  {
    hide ChainSectors, CutExtents, EntryOk, EndsAt, EndedBefore, CutSoFar, SameFile, FileSize, Link, EndPos, EndFlags,
      NamesDiffer, ChainOk, KeepFor, BytesIn;
    var chain, keep := ix.chains[h], KeepFor(size);
    LastLive(dir, ix, h);
    EndPlace(dir, chain, keep);
    var q := EndPos(dir, chain, keep);
    var ix' := Index(ix.chains[h := chain[..q + 1]], ix.place);
    CutIndexed(dir, dir', ix, h, q, keep, size);
    CutFlags(dir, dir', ix, ix', h, keep, size);
    CutOthers(dir, dir', ix, h, keep, size);
    CutSame(dir, dir', ix, ix', h);
    CutFileSectors(dir, dir', ix, h, q, keep, size);
    CutSize(dir, dir', ix, h, q, keep, size);
  }

  /** The entry at a place of the chain when all of it is cut. */
  lemma {:induction false} CutAt(
      dir: seq<Entry>, dir': seq<Entry>, ix: Index, h: nat, p: nat, keep: nat, size: nat)
    requires Indexed(dir, ix) && h in ix.chains && p < |ix.chains[h]|
    requires CutSoFar(dir, dir', ix, h, |ix.chains[h]|, keep, size)
    ensures |dir'| == |dir| && InDir(dir, ix.chains[h])
    ensures dir'[ix.chains[h][p]] == CutEntry(dir, ix.chains[h], p, keep, size)
  {
    hide CutEntry, Link;
    assert ix.place[ix.chains[h][p]] == Place(h, p);
  }

  /** An entry that is left of a cut file is as it was but for its extents, and the last
      that it does not go on and has the size; those after it are free.  An extent
      is cut short, or cleared if none of it is left. */
  lemma {:induction false} EntriesCut(
      dir: seq<Entry>, dir': seq<Entry>, ix: Index, ix': Index, h: nat, size: nat, p: nat)
    requires Shortened(dir, dir', ix, ix', h, size) && p < |ix.chains[h]|
    ensures h in ix'.chains && |dir'| == |dir| && ix.chains[h][p] < |dir|
    ensures
      var e, e', last := dir[ix.chains[h][p]], dir'[ix.chains[h][p]], |ix'.chains[h]| - 1;
      && e'.name == e.name && |e'.extents| == |e.extents|
      && (p <= last ==> e'.protected == e.protected && e'.continuation == e.continuation && !e'.deleted && !e'.end)
      && (p < last ==> e'.continued && e'.lastOrNext == e.lastOrNext)
      && (p == last ==> !e'.continued && e'.lastOrNext == size % 256)
      && (p > last ==>
            e'.deleted && e'.continuation && !e'.continued && !e'.end && !e'.protected && e'.lastOrNext == 0)
      && forall i: nat :: i < |e.extents| ==>
        var x, x' := e.extents[i], e'.extents[i];
        x' == x || (0 < x'.count < x.count && x'.lsn == x.lsn) || (x' == Extent(0, 0) && x.count > 0)
  {
    hide Before, ChainSectors, CutExtents, CutSoFar;
    var chain, keep := ix.chains[h], KeepFor(size);
    var e := dir[chain[p]];
    assert Link(dir, chain, p);
    EndPlace(dir, chain, keep);
    CutAt(dir, dir', ix, h, p, keep, size);
    var q := EndPos(dir, chain, keep);
    assert p < q ==> !EndedBefore(dir, chain, p + 1, keep);
    forall i: nat | i < |e.extents|
      ensures
        var x, x' := e.extents[i], CutExtents(e.extents, Before(dir, chain, p), keep)[i];
        x' == x || (0 < x'.count < x.count && x'.lsn == x.lsn) || (x' == Extent(0, 0) && x.count > 0)
    {
      ExtentCut(e.extents, Before(dir, chain, p), keep, i);
    }
  }

  lemma {:induction false} ExtentCut(x: seq<Extent>, before: nat, keep: nat, i: nat)
    requires i < |x|
    ensures
      var r := CutExtents(x, before, keep)[i];
      r == x[i] || (0 < r.count < x[i].count && r.lsn == x[i].lsn) || (r == Extent(0, 0) && x[i].count > 0)
  {
    hide ExtentSectors;
  }

  lemma {:induction false} CutExtentsAt(dir: seq<Entry>, chain: Chain, p: nat, keep: nat, size: nat)
    requires InDir(dir, chain) && p < |chain|
    ensures
      CutEntry(dir, chain, p, keep, size).extents == CutExtents(dir[chain[p]].extents, Before(dir, chain, p), keep)
  {
    hide CutExtents, Before;
  }

  lemma {:induction false} CutFileSectors(
      dir: seq<Entry>, dir': seq<Entry>, ix: Index, h: nat, q: nat, keep: nat, size: nat)
    requires Indexed(dir, ix) && h in ix.chains && q < |ix.chains[h]| && EndsAt(dir, ix.chains[h], q, keep)
    requires CutSoFar(dir, dir', ix, h, |ix.chains[h]|, keep, size)
    ensures InDir(dir', ix.chains[h][..q + 1])
    ensures
      var sectors := ChainSectors(dir, ix.chains[h]);
      ChainSectors(dir', ix.chains[h][..q + 1]) == sectors[..Min(keep, |sectors|)]
  {
    hide CutSoFar, CutEntry, Indexed, EndsAt;
    var chain := ix.chains[h];
    CutAt(dir, dir', ix, h, q, keep, size);
    forall p: nat | p < |chain|
      ensures chain[p] < |dir| == |dir'|
      ensures dir'[chain[p]].extents == CutExtents(dir[chain[p]].extents, Before(dir, chain, p), keep)
    {
      CutAt(dir, dir', ix, h, p, keep, size);
      CutExtentsAt(dir, chain, p, keep, size);
    }
    CutPrefix(dir, dir', chain, q, keep);
  }

  lemma {:induction false} CutPrefix(dir: seq<Entry>, dir': seq<Entry>, chain: Chain, q: nat, keep: nat)
    requires InDir(dir, chain) && |dir'| == |dir| && q < |chain| && EndsAt(dir, chain, q, keep)
    requires forall p: nat :: p < |chain| ==>
      dir'[chain[p]].extents == CutExtents(dir[chain[p]].extents, Before(dir, chain, p), keep)
    ensures InDir(dir', chain[..q + 1])
    ensures
      var sectors := ChainSectors(dir, chain);
      ChainSectors(dir', chain[..q + 1]) == sectors[..Min(keep, |sectors|)]
  {
    hide ChainSectors, CutExtents, EndedBefore;
    CutChainSectors(dir, dir', chain, q + 1, keep);
    ChainPrefixes(dir, chain, q + 1);
    assert chain[..|chain|] == chain;
  }

  lemma {:induction false} CutSize(
      dir: seq<Entry>, dir': seq<Entry>, ix: Index, h: nat, q: nat, keep: nat, size: nat)
    requires Indexed(dir, ix) && h in ix.chains && q < |ix.chains[h]| && EndsAt(dir, ix.chains[h], q, keep)
    requires CutSoFar(dir, dir', ix, h, |ix.chains[h]|, keep, size)
    requires InDir(dir', ix.chains[h][..q + 1])
    ensures FileSize(dir', ix.chains[h][..q + 1])
      == BytesIn(|ChainSectors(dir', ix.chains[h][..q + 1])|, size % SECTOR_SIZE)
  {
    hide ChainSectors, CutExtents, EntryOk, Before, CutSoFar, Indexed;
    CutAt(dir, dir', ix, h, q, keep, size);
  }

  /* The map while a file is cut. */

  ghost predicate FreedBits(b: seq<bool>, b': seq<bool>, owner: seq<Owner>, h: nat, keep: nat, upto: nat)
    requires |owner| == |b| == |b'| == MAX_LSN
  {
    forall l: nat :: l < MAX_LSN ==> (b'[l] <==> b[l] || (CutOff(owner[l], h, keep) && owner[l].index < upto))
  }

  /** The sectors of a file from keep on, as far as some number, are free again. */
  ghost predicate FreedTo(m: Map, m': Map, owner: seq<Owner>, h: nat, keep: nat, upto: nat)
    requires |owner| == |m.bits| == MAX_LSN
  {
    && m' == m.(bits := m'.bits) && |m'.bits| == MAX_LSN && m.total <= MAX_LSN
    && FreedBits(m.bits, m'.bits, owner, h, keep, upto)
    && m'.FreeCount() + Min(keep, upto) == m.FreeCount() + upto
  }

  lemma {:induction false} NotFreedYet(
      m: Map, m': Map, owner: seq<Owner>, spareLsn: nat, spareCount: nat, h: nat, keep: nat, upto: nat, l: nat)
    requires |owner| == |m.bits| == |m'.bits| == MAX_LSN && l < MAX_LSN && Fits(m, owner, spareLsn, spareCount, l)
    requires FreedBits(m.bits, m'.bits, owner, h, keep, upto)
    requires owner[l].Of? && owner[l].index >= upto
    ensures l < m.total && !m'.bits[l]
  {
  }

  lemma {:induction false} FreeStepCounts(
      m: Map, m': Map, owner: seq<Owner>, files: Files, spareLsn: nat, spareCount: nat,
      h: nat, keep: nat, upto: nat, lsn: nat, count: nat)
    requires Partition(m, owner, files, spareLsn, spareCount) && FreedTo(m, m', owner, h, keep, upto)
    requires count > 0 ==> lsn + count <= MAX_LSN
    requires forall l: nat :: lsn <= l < lsn + count ==> owner[l] == Of(h, upto + (l - lsn))
    ensures
      var kept := Kept(count, upto, keep);
      m'.With(lsn + kept, count - kept, true).FreeCount() == m'.FreeCount() + (count - kept)
  {
    hide FreedBits, Fits, Map.FreeCount, Kept, Map.With;
    var kept := Kept(count, upto, keep);
    forall l: nat | lsn <= l < lsn + count
      ensures l < m.total && !m'.bits[l]
    {
      NotFreedYet(m, m', owner, spareLsn, spareCount, h, keep, upto, l);
    }
    if count > 0 {
      NotFreedYet(m, m', owner, spareLsn, spareCount, h, keep, upto, lsn + count - 1);
    }
    RunCounts(m', lsn + kept, count - kept, true);
  }

  lemma {:induction false} FreeStepBits(
      m: Map, m': Map, owner: seq<Owner>, h: nat, keep: nat, upto: nat, lsn: nat, count: nat)
    requires |owner| == |m.bits| == |m'.bits| == MAX_LSN && (count > 0 ==> lsn + count <= MAX_LSN)
    requires FreedBits(m.bits, m'.bits, owner, h, keep, upto)
    requires forall l: nat :: lsn <= l < lsn + count ==> owner[l] == Of(h, upto + (l - lsn))
    requires forall l: nat ::
      l < MAX_LSN && owner[l].Of? && owner[l].file == h && upto <= owner[l].index < upto + count ==>
      l == lsn + (owner[l].index - upto)
    ensures
      var kept := Kept(count, upto, keep);
      FreedBits(m.bits, m'.With(lsn + kept, count - kept, true).bits, owner, h, keep, upto + count)
  {
    var kept := Kept(count, upto, keep);
    var b := m'.With(lsn + kept, count - kept, true).bits;
    forall l: nat | l < MAX_LSN
      ensures b[l] <==> m.bits[l] || (CutOff(owner[l], h, keep) && owner[l].index < upto + count)
    {
    }
  }

  /** Sectors that are a part of a file, one after the other. */
  lemma {:induction false} PartOwned(
      m: Map, owner: seq<Owner>, files: Files, spareLsn: nat, spareCount: nat,
      h: nat, upto: nat, lsn: nat, count: nat)
    requires Partition(m, owner, files, spareLsn, spareCount) && |owner| == MAX_LSN
    requires h in files && upto + count <= |files[h]| && files[h][upto..upto + count] == Range(lsn, count)
    ensures count > 0 ==> lsn + count <= MAX_LSN
    ensures forall l: nat :: lsn <= l < lsn + count ==> l < MAX_LSN && owner[l] == Of(h, upto + (l - lsn))
    ensures forall l: nat ::
      l < MAX_LSN && owner[l].Of? && owner[l].file == h && upto <= owner[l].index < upto + count ==>
      l == lsn + (owner[l].index - upto)
  {
    hide Fits;
    var part := files[h][upto..upto + count];
    forall l: nat | lsn <= l < lsn + count
      ensures l < MAX_LSN && owner[l] == Of(h, upto + (l - lsn))
    {
      assert part[l - lsn] == files[h][upto + (l - lsn)] == l;
    }
    forall l: nat | l < MAX_LSN && owner[l].Of? && owner[l].file == h && upto <= owner[l].index < upto + count
      ensures l == lsn + (owner[l].index - upto)
    {
      assert HasSector(files, h, owner[l].index, l);
      assert part[owner[l].index - upto] == l;
    }
    if count > 0 {
      assert part[count - 1] == files[h][upto + count - 1] < MAX_LSN;
    }
  }

  /** Freeing the end of the next extent frees what it has from keep on. */
  lemma {:induction false} FreeStep(
      m: Map, m': Map, owner: seq<Owner>, files: Files, spareLsn: nat, spareCount: nat,
      h: nat, keep: nat, upto: nat, lsn: nat, count: nat)
    requires Partition(m, owner, files, spareLsn, spareCount) && FreedTo(m, m', owner, h, keep, upto)
    requires h in files && upto + count <= |files[h]|
    requires files[h][upto..upto + count] == Range(lsn, count)
    ensures
      var kept := Kept(count, upto, keep);
      && kept <= count && (kept < count ==> lsn + count <= MAX_LSN)
      && FreedTo(m, if kept < count then m'.With(lsn + kept, count - kept, true) else m', owner, h, keep, upto + count)
  {
    hide Fits, Map.FreeCount, FreedBits;
    var kept := Kept(count, upto, keep);
    PartOwned(m, owner, files, spareLsn, spareCount, h, upto, lsn, count);
    FreeStepCounts(m, m', owner, files, spareLsn, spareCount, h, keep, upto, lsn, count);
    FreeStepBits(m, m', owner, h, keep, upto, lsn, count);
    assert kept == count ==> m'.With(lsn + kept, count - kept, true).bits == m'.bits;
  }

  lemma {:induction false} FreedAll(
      m: Map, m': Map, owner: seq<Owner>, files: Files, spareLsn: nat, spareCount: nat, h: nat, keep: nat)
    requires Partition(m, owner, files, spareLsn, spareCount) && h in files
    requires FreedTo(m, m', owner, h, keep, |files[h]|)
    ensures Freed(m, m', owner, h, keep)
  {
    forall l: nat | l < MAX_LSN && CutOff(owner[l], h, keep)
      ensures owner[l].index < |files[h]|
    {
      assert HasSector(files, h, owner[l].index, l);
    }
  }

  /** The sectors of an extent in the file, counted from the file's start. */
  lemma {:induction false} ExtentInFile(dir: seq<Entry>, chain: Chain, p: nat, i: nat)
    requires InDir(dir, chain) && p < |chain| && i < |dir[chain[p]].extents|
    ensures
      var x := dir[chain[p]].extents;
      var at := Before(dir, chain, p) + |ExtentSectors(x[..i])|;
      var sectors := ChainSectors(dir, chain);
      && at + x[i].count == Before(dir, chain, p) + |ExtentSectors(x[..i + 1])| <= |sectors|
      && sectors[at..at + x[i].count] == Range(x[i].lsn, x[i].count)
      && Before(dir, chain, p + 1) == Before(dir, chain, p) + |ExtentSectors(x)|
  {
    hide ChainSectors, ExtentSectors;
    var x := dir[chain[p]].extents;
    ChainPrefix(dir, chain, p);
    ChainPrefixes(dir, chain, p + 1);
    ExtentSectorsAt(x, i);
    LastExtent(x[..i + 1]);
    assert x[..i + 1][..i] == x[..i];
    PrefixAt(ChainSectors(dir, chain), ChainSectors(dir, chain[..p]), ExtentSectors(x[..i]),
      Range(x[i].lsn, x[i].count), ExtentSectors(x[i + 1..]));
  }

  lemma {:induction false} PrefixAt<T>(whole: seq<T>, a: seq<T>, b: seq<T>, c: seq<T>, d: seq<T>)
    requires a + (b + c + d) <= whole
    ensures |a| + |b| + |c| <= |whole| && whole[|a| + |b|..|a| + |b| + |c|] == c
  {
    var n := |a| + |b|;
    assert a + (b + c + d) == a + b + c + d;
    assert whole[..n + |c|] == a + b + c;
    assert whole[n..n + |c|] == whole[..n + |c|][n..];
  }
}
