/** The directory of a Dragon DOS disk.  A file is a chain of entries: a header
    with four extents, and continuations with seven each. */
module DragonDir {
  import opened DragonBitmap
  import opened DragonOwner

  const SECTOR_SIZE := 256    // DRAGONDOS_SECTOR_SIZE
  const MAX_ENTRIES := 160    // DRAGONDOS_MAX_DIR_ENTRIES

  type Name = string

  datatype Extent = Extent(lsn: nat, count: nat)

  const NO_EXTENT := Extent(0, 0)

  /** An entry: its flags, its name if it is a header, its extents, and its last
      byte, which is the next entry of the file or the size of the last sector. */
  datatype Entry = Entry(
    deleted: bool, continued: bool, end: bool, protected: bool, continuation: bool,
    name: Name, extents: seq<Extent>, lastOrNext: nat)

  function Slots(e: Entry): nat { if e.continuation then 7 else 4 }

  function NoExtents(n: nat): seq<Extent> { seq(n, i => NO_EXTENT) }

  function NewHeader(name: Name): (e: Entry)
    ensures e.name == name && !e.deleted && !e.continuation && !e.protected
  {
    Entry(false, false, false, false, false, name, NoExtents(4), 0)
  }

  function NewContinuation(): Entry {
    Entry(false, false, false, false, true, "", NoExtents(7), 0)
  }

  /** Flags as DD_KILLED_FLAGS. */
  function Killed(e: Entry): Entry {
    e.(deleted := true, continued := false, end := false, protected := false, continuation := true)
  }

  /** The sectors of a list of extents, in order. */
  function ExtentSectors(x: seq<Extent>): seq<nat> {
    if |x| == 0 then [] else ExtentSectors(x[..|x| - 1]) + Range(x[|x| - 1].lsn, x[|x| - 1].count)
  }

  /** Extents in use come before those that are not. */
  ghost predicate Compact(x: seq<Extent>) {
    forall i: nat, j: nat :: i < j < |x| && x[j].count > 0 ==> x[i].count > 0
  }

  ghost predicate EntryOk(e: Entry) {
    && !e.deleted && !e.end && e.lastOrNext < 256 && |e.extents| == Slots(e) && Compact(e.extents)
    && forall i: nat :: i < |e.extents| ==> e.extents[i].count <= MAX_EXTENT
  }

  type Chain = seq<nat>

  ghost predicate InDir(dir: seq<Entry>, chain: Chain) {
    forall p: nat :: p < |chain| ==> chain[p] < |dir|
  }

  function ChainSectors(dir: seq<Entry>, chain: Chain): seq<nat>
    requires InDir(dir, chain)
  {
    if |chain| == 0 then []
    else ChainSectors(dir, chain[..|chain| - 1]) + ExtentSectors(dir[chain[|chain| - 1]].extents)
  }

  /** The entry at a place in a chain has the flags and the link of that place. */
  ghost predicate Link(dir: seq<Entry>, chain: Chain, p: nat)
    requires p < |chain| && chain[p] < |dir|
  {
    var e := dir[chain[p]];
    && EntryOk(e) && (e.continuation <==> p > 0) && (e.continued <==> p + 1 < |chain|) && (p > 0 ==> chain[p] > 0)
    && (p + 1 < |chain| ==> e.lastOrNext == chain[p + 1])
  }

  ghost predicate ChainOk(dir: seq<Entry>, chain: Chain) {
    && |chain| > 0 && InDir(dir, chain)
    && forall p: nat {:trigger Link(dir, chain, p)} :: p < |chain| ==> Link(dir, chain, p)
  }

  function Last(chain: Chain): nat requires |chain| > 0 { chain[|chain| - 1] }

  /** _dd_file_size */
  function FileSize(dir: seq<Entry>, chain: Chain): nat
    requires |chain| > 0 && InDir(dir, chain)
  {
    BytesIn(|ChainSectors(dir, chain)|, dir[Last(chain)].lastOrNext)
  }

  /** The bytes in a number of sectors, with those used of the last. */
  function BytesIn(sectors: nat, last: nat): nat {
    sectors * SECTOR_SIZE - if sectors != 0 && last != 0 then SECTOR_SIZE - last else 0
  }

  /** A continuation that a chain ends with has an extent in use. */
  predicate TailOk(dir: seq<Entry>, chain: Chain) {
    |chain| > 1 ==>
      Last(chain) < |dir| && |dir[Last(chain)].extents| > 0 && dir[Last(chain)].extents[0].count > 0
  }

  datatype Place = Place(head: nat, pos: nat)

  /** The chains of the files by their headers, and the place of each entry. */
  datatype Index = Index(chains: map<nat, Chain>, place: seq<Place>)

  predicate HasEntry(ix: Index, h: nat, p: nat, e: nat) {
    h in ix.chains && p < |ix.chains[h]| && ix.chains[h][p] == e
  }

  /** The chains are those of the directory: each entry in use is in one place of
      one chain. */
  ghost predicate Indexed(dir: seq<Entry>, ix: Index) {
    && |dir| == |ix.place| == MAX_ENTRIES
    && (forall h: nat :: h in ix.chains ==> ChainOk(dir, ix.chains[h]) && ix.chains[h][0] == h)
    && (forall h: nat, p: nat :: h in ix.chains && p < |ix.chains[h]| ==> ix.place[ix.chains[h][p]] == Place(h, p))
    && (forall e: nat {:trigger HasEntry(ix, ix.place[e].head, ix.place[e].pos, e)} ::
          e < MAX_ENTRIES && !dir[e].deleted ==> HasEntry(ix, ix.place[e].head, ix.place[e].pos, e))
  }

  /** Entries after one with the end flag have never been used. */
  ghost predicate EndFlags(dir: seq<Entry>) {
    forall i: nat, j: nat :: i <= j < |dir| && dir[i].end ==> dir[j].deleted
  }

  ghost predicate NamesDiffer(dir: seq<Entry>, ix: Index) requires Indexed(dir, ix) {
    forall h: nat, k: nat :: h in ix.chains && k in ix.chains && h != k ==> dir[h].name != dir[k].name
  }

  ghost predicate DirOk(dir: seq<Entry>, ix: Index) {
    Indexed(dir, ix) && EndFlags(dir) && NamesDiffer(dir, ix)
  }

  /* Sectors of extents and chains. */

  lemma {:induction false} LastExtent(x: seq<Extent>)
    requires |x| > 0
    ensures ExtentSectors(x) == ExtentSectors(x[..|x| - 1]) + Range(x[|x| - 1].lsn, x[|x| - 1].count)
  {
  }

  lemma {:induction false} ExtentSectorsConcat(x: seq<Extent>, y: seq<Extent>)
    ensures ExtentSectors(x + y) == ExtentSectors(x) + ExtentSectors(y)
    decreases |y|
  {
    if |y| == 0 {
      assert x + y == x;
    } else {
      hide Range, ExtentSectors;
      var y' := y[..|y| - 1];
      assert (x + y)[..|x + y| - 1] == x + y';
      ExtentSectorsConcat(x, y');
      LastExtent(y);
      LastExtent(x + y);
    }
  }

  /** The sectors of one extent between those before and those after it. */
  lemma {:induction false} ExtentSectorsAt(x: seq<Extent>, k: nat)
    requires k < |x|
    ensures ExtentSectors(x) == ExtentSectors(x[..k]) + Range(x[k].lsn, x[k].count) + ExtentSectors(x[k + 1..])
  {
    hide Range;
    assert x == x[..k + 1] + x[k + 1..] && x[..k + 1][..k] == x[..k];
    ExtentSectorsConcat(x[..k + 1], x[k + 1..]);
  }

  lemma {:induction false} NoSectors(x: seq<Extent>)
    requires forall i: nat :: i < |x| ==> x[i].count == 0
    ensures ExtentSectors(x) == []
  {
    if |x| > 0 {
      NoSectors(x[..|x| - 1]);
    }
  }

  /** A longer last extent adds the sectors that follow it. */
  lemma {:induction false} ExtentGrown(x: seq<Extent>, k: nat, lsn: nat, used: nat)
    requires k < |x| && forall i: nat :: k < i < |x| ==> x[i].count == 0
    requires x[k].count == 0 || lsn == x[k].lsn
    ensures
      ExtentSectors(x[k := Extent(lsn, x[k].count + used)]) == ExtentSectors(x) + Range(lsn + x[k].count, used)
  {
    hide ExtentSectors;
    var x' := x[k := Extent(lsn, x[k].count + used)];
    NoSectors(x[k + 1..]);
    ExtentSectorsAt(x, k);
    ExtentSectorsAt(x', k);
    assert x'[..k] == x[..k] && x'[k + 1..] == x[k + 1..];
    RangeSplit(x[k].lsn, lsn, x[k].count, used);
  }

  lemma {:induction false} RangeSplit(before: nat, lsn: nat, count: nat, used: nat)
    requires count == 0 || lsn == before
    ensures Range(lsn, count + used) == Range(before, count) + Range(lsn + count, used)
  {
  }

  lemma {:induction false} ChainFrame(dir: seq<Entry>, dir': seq<Entry>, chain: Chain)
    requires InDir(dir, chain) && |dir'| == |dir|
    requires forall p: nat :: p < |chain| ==> dir'[chain[p]].extents == dir[chain[p]].extents
    ensures InDir(dir', chain) && ChainSectors(dir', chain) == ChainSectors(dir, chain)
  {
    if |chain| > 0 {
      var shorter := chain[..|chain| - 1];
      forall p: nat | p < |shorter|
        ensures dir'[shorter[p]].extents == dir[shorter[p]].extents
      {
        assert shorter[p] == chain[p];
      }
      ChainFrame(dir, dir', shorter);
    }
  }

  lemma {:induction false} ChainPrefix(dir: seq<Entry>, chain: Chain, p: nat)
    requires InDir(dir, chain) && p < |chain|
    ensures InDir(dir, chain[..p]) && InDir(dir, chain[..p + 1])
    ensures ChainSectors(dir, chain[..p + 1]) == ChainSectors(dir, chain[..p]) + ExtentSectors(dir[chain[p]].extents)
  {
    assert chain[..p + 1][..p] == chain[..p];
  }

  lemma {:induction false} ChainPrefixes(dir: seq<Entry>, chain: Chain, p: nat)
    requires InDir(dir, chain) && p <= |chain|
    ensures ChainSectors(dir, chain[..p]) <= ChainSectors(dir, chain)
    decreases |chain| - p
  {
    if p < |chain| {
      ChainPrefix(dir, chain, p);
      ChainPrefixes(dir, chain, p + 1);
    } else {
      assert chain[..p] == chain;
    }
  }

  /* Chains. */

  /** No entry is in two places. */
  lemma {:induction false} OnePlace(dir: seq<Entry>, ix: Index, e: nat, h: nat, p: nat, k: nat, q: nat)
    requires Indexed(dir, ix) && HasEntry(ix, h, p, e) && HasEntry(ix, k, q, e)
    ensures h == k && p == q
  {
    assert ix.place[ix.chains[h][p]] == Place(h, p);
    assert ix.place[ix.chains[k][q]] == Place(k, q);
  }

  /** So no chain has more entries than there are. */
  lemma {:induction false} ChainLength(dir: seq<Entry>, ix: Index, h: nat)
    requires Indexed(dir, ix) && h in ix.chains
    ensures |ix.chains[h]| <= MAX_ENTRIES
  {
    var chain := ix.chains[h];
    forall p: nat, q: nat | p < q < |chain|
      ensures chain[p] != chain[q]
    {
      if chain[p] == chain[q] {
        OnePlace(dir, ix, chain[p], h, p, h, q);
      }
    }
    Pigeonhole(chain, MAX_ENTRIES);
  }

  lemma {:induction false} Pigeonhole(s: seq<nat>, n: nat)
    requires forall p: nat :: p < |s| ==> s[p] < n
    requires forall p: nat, q: nat :: p < q < |s| ==> s[p] != s[q]
    ensures |s| <= n
    decreases n
  {
    if |s| > 0 {
      assert s[0] < n;
      if n - 1 in s {
        var k: nat :| k < |s| && s[k] == n - 1;
        var t := s[..k] + s[k + 1..];
        Pigeonhole(t, n - 1);
      } else {
        assert forall p: nat :: p < |s| ==> s[p] in s;
        Pigeonhole(s, n - 1);
      }
    }
  }

  /** The entry a file begins with is a header in use; every such entry begins a
      file. */
  lemma {:induction false} Headers(dir: seq<Entry>, ix: Index, e: nat)
    requires Indexed(dir, ix) && e < MAX_ENTRIES
    ensures e in ix.chains <==> !dir[e].deleted && !dir[e].continuation
  {
    if e in ix.chains {
      assert Link(dir, ix.chains[e], 0);
    }
    if !dir[e].deleted && !dir[e].continuation {
      var p := ix.place[e];
      assert HasEntry(ix, p.head, p.pos, e);
      assert Link(dir, ix.chains[p.head], p.pos);
    }
  }
}
