/** What changes to the directory do to the files it describes. */
module DragonChange {
  import opened DragonDir

  predicate InChain(ix: Index, h: nat, e: nat) requires e < |ix.place| {
    ix.place[e].head == h && HasEntry(ix, h, ix.place[e].pos, e)
  }

  /** A file keeps its chain and its entries. */
  ghost predicate SameFile(dir: seq<Entry>, ix: Index, dir': seq<Entry>, ix': Index, k: nat)
    requires k in ix.chains && |dir| == |dir'|
  {
    && k in ix'.chains && ix'.chains[k] == ix.chains[k]
    && forall p: nat :: p < |ix.chains[k]| && ix.chains[k][p] < |dir| ==> dir'[ix.chains[k][p]] == dir[ix.chains[k][p]]
  }

  /** Every file but h is as it was, and there is none but h that was not. */
  ghost predicate OthersSame(dir: seq<Entry>, ix: Index, dir': seq<Entry>, ix': Index, h: nat) {
    && |dir| == |dir'|
    && (forall k: nat :: k in ix.chains && k != h ==> SameFile(dir, ix, dir', ix', k))
    && (forall k: nat :: k in ix'.chains && k != h ==> k in ix.chains)
  }

  lemma {:induction false} SameChain(dir: seq<Entry>, ix: Index, dir': seq<Entry>, ix': Index, k: nat)
    requires |dir| == |dir'| && k in ix.chains && ChainOk(dir, ix.chains[k]) && SameFile(dir, ix, dir', ix', k)
    ensures ChainOk(dir', ix'.chains[k])
    ensures ChainSectors(dir', ix'.chains[k]) == ChainSectors(dir, ix.chains[k])
    ensures FileSize(dir', ix'.chains[k]) == FileSize(dir, ix.chains[k])
    ensures dir'[ix.chains[k][0]] == dir[ix.chains[k][0]]
  {
    var chain := ix.chains[k];
    ChainFrame(dir, dir', chain);
    forall p: nat | p < |chain|
      ensures Link(dir', chain, p)
    {
      assert Link(dir, chain, p);
    }
  }

  /** Entries outside a chain are in no place of it. */
  lemma {:induction false} ChangedElsewhere(dir: seq<Entry>, ix: Index, dir': seq<Entry>, h: nat, k: nat)
    requires Indexed(dir, ix) && |dir'| == |dir| && h in ix.chains && k in ix.chains && k != h
    requires forall e: nat :: e < MAX_ENTRIES && !dir[e].deleted && !InChain(ix, h, e) ==> dir'[e] == dir[e]
    ensures SameFile(dir, ix, dir', ix, k)
  {
    var chain := ix.chains[k];
    forall p: nat | p < |chain|
      ensures dir'[chain[p]] == dir[chain[p]]
    {
      assert ix.place[chain[p]] == Place(k, p) && Link(dir, chain, p);
    }
  }

  /** A change to an entry that keeps its flags, name and link. */
  predicate SameLinks(e: Entry, e': Entry) {
    && e' == e.(extents := e'.extents, lastOrNext := e'.lastOrNext)
    && (e.continued ==> e'.lastOrNext == e.lastOrNext)
  }

  lemma {:induction false} EntrySet(dir: seq<Entry>, ix: Index, h: nat, e: nat, next: Entry)
    requires DirOk(dir, ix) && e < MAX_ENTRIES && !dir[e].deleted && InChain(ix, h, e)
    requires SameLinks(dir[e], next) && EntryOk(next)
    ensures DirOk(dir[e := next], ix) && OthersSame(dir, ix, dir[e := next], ix, h)
  {
    var dir' := dir[e := next];
    forall k: nat | k in ix.chains
      ensures ChainOk(dir', ix.chains[k])
    {
      forall p: nat | p < |ix.chains[k]|
        ensures Link(dir', ix.chains[k], p)
      {
        assert Link(dir, ix.chains[k], p);
      }
    }
    forall k: nat | k in ix.chains && k != h
      ensures SameFile(dir, ix, dir', ix, k)
    {
      ChangedElsewhere(dir, ix, dir', h, k);
    }
  }

  /** Only a header's name and protection change. */
  predicate HeadChanged(dir: seq<Entry>, dir': seq<Entry>, h: nat, name: Name, protected: bool) {
    h < |dir| && dir' == dir[h := dir[h].(name := name, protected := protected)]
  }

  /** A file is given another name or protection. */
  lemma {:induction false} HeadSet(dir: seq<Entry>, ix: Index, h: nat, name: Name, protected: bool)
    requires DirOk(dir, ix) && h in ix.chains && h < MAX_ENTRIES
    requires forall k: nat :: k in ix.chains && k != h ==> dir[k].name != name
    ensures
      var dir' := dir[h := dir[h].(name := name, protected := protected)];
      && DirOk(dir', ix) && OthersSame(dir, ix, dir', ix, h)
      && ChainSectors(dir', ix.chains[h]) == ChainSectors(dir, ix.chains[h])
      && FileSize(dir', ix.chains[h]) == FileSize(dir, ix.chains[h])
  {
    hide ChainSectors, ChainOk, SameFile, Link, FileSize;
    var dir' := dir[h := dir[h].(name := name, protected := protected)];
    ChainIn(dir, ix, h);
    forall k: nat | k in ix.chains
      ensures k < MAX_ENTRIES
    {
      HeadLive(dir, ix, k);
    }
    HeadChains(dir, ix, h, name, protected);
    HeadOthers(dir, ix, h, name, protected);
    forall e: nat | e < MAX_ENTRIES && !dir'[e].deleted
      ensures HasEntry(ix, ix.place[e].head, ix.place[e].pos, e)
    {
      assert HasEntry(ix, ix.place[e].head, ix.place[e].pos, e);
    }
    HeadSectors(dir, ix.chains[h], h, name, protected);
  }

  lemma {:induction false} ChainIn(dir: seq<Entry>, ix: Index, h: nat)
    requires Indexed(dir, ix) && h in ix.chains
    ensures |ix.chains[h]| > 0 && InDir(dir, ix.chains[h])
  {
    hide Link;
  }

  lemma {:induction false} HeadChains(dir: seq<Entry>, ix: Index, h: nat, name: Name, protected: bool)
    requires Indexed(dir, ix) && h < MAX_ENTRIES
    ensures
      var dir' := dir[h := dir[h].(name := name, protected := protected)];
      forall k: nat :: k in ix.chains ==> ChainOk(dir', ix.chains[k]) && ix.chains[k][0] == k
  {
    var dir' := dir[h := dir[h].(name := name, protected := protected)];
    forall k: nat | k in ix.chains
      ensures ChainOk(dir', ix.chains[k])
    {
      forall p: nat | p < |ix.chains[k]|
        ensures Link(dir', ix.chains[k], p)
      {
        assert Link(dir, ix.chains[k], p);
      }
    }
  }

  lemma {:induction false} HeadOthers(dir: seq<Entry>, ix: Index, h: nat, name: Name, protected: bool)
    requires Indexed(dir, ix) && h in ix.chains && h < MAX_ENTRIES
    ensures OthersSame(dir, ix, dir[h := dir[h].(name := name, protected := protected)], ix, h)
  {
    hide Link, SameFile;
    var dir' := dir[h := dir[h].(name := name, protected := protected)];
    assert ix.place[h] == Place(h, 0) by { HeadPlace(dir, ix, h); }
    forall k: nat | k in ix.chains && k != h
      ensures SameFile(dir, ix, dir', ix, k)
    {
      assert InChain(ix, h, h);
      ChangedElsewhere(dir, ix, dir', h, k);
    }
  }

  lemma {:induction false} HeadPlace(dir: seq<Entry>, ix: Index, h: nat)
    requires Indexed(dir, ix) && h in ix.chains
    ensures h < MAX_ENTRIES && ix.place[h] == Place(h, 0) && HasEntry(ix, h, 0, h)
  {
    assert Link(dir, ix.chains[h], 0);
  }

  lemma {:induction false} HeadSectors(dir: seq<Entry>, chain: Chain, h: nat, name: Name, protected: bool)
    requires InDir(dir, chain) && |chain| > 0 && h < |dir|
    ensures
      var dir' := dir[h := dir[h].(name := name, protected := protected)];
      && InDir(dir', chain) && ChainSectors(dir', chain) == ChainSectors(dir, chain)
      && FileSize(dir', chain) == FileSize(dir, chain)
  {
    hide ChainSectors;
    ChainFrame(dir, dir[h := dir[h].(name := name, protected := protected)], chain);
  }

  /* A continuation is added to a file. */

  function WithContinuation(dir: seq<Entry>, last: nat, index: nat): seq<Entry>
    requires last < |dir| && index < |dir|
  {
    dir[last := dir[last].(continued := true, lastOrNext := index)][index := NewContinuation()]
  }

  function IndexMore(ix: Index, h: nat, index: nat): Index
    requires h in ix.chains && index < |ix.place|
  {
    Index(ix.chains[h := ix.chains[h] + [index]], ix.place[index := Place(h, |ix.chains[h]|)])
  }

  lemma {:induction false} FreeEntry(dir: seq<Entry>, ix: Index, index: nat, k: nat, p: nat)
    requires Indexed(dir, ix) && index < MAX_ENTRIES && dir[index].deleted && k in ix.chains && p < |ix.chains[k]|
    ensures ix.chains[k][p] < MAX_ENTRIES && ix.chains[k][p] != index
  {
    assert Link(dir, ix.chains[k], p);
  }

  lemma {:induction false} ContinuationChain(dir: seq<Entry>, ix: Index, h: nat, index: nat)
    requires Indexed(dir, ix) && h in ix.chains && 1 <= index < MAX_ENTRIES && dir[index].deleted
    ensures
      var chain := ix.chains[h];
      var dir' := WithContinuation(dir, Last(chain), index);
      ChainOk(dir', chain + [index]) && ChainSectors(dir', chain + [index]) == ChainSectors(dir, chain)
  {
    var chain := ix.chains[h];
    var last := Last(chain);
    var dir' := WithContinuation(dir, last, index);
    var chain' := chain + [index];
    forall p: nat | p < |chain'|
      ensures chain'[p] < MAX_ENTRIES && Link(dir', chain', p)
    {
      if p < |chain| {
        assert Link(dir, chain, p);
        FreeEntry(dir, ix, index, h, p);
        assert ix.place[chain[p]] == Place(h, p) && ix.place[last] == Place(h, |chain| - 1);
      }
    }
    forall p: nat | p < |chain|
      ensures dir'[chain[p]].extents == dir[chain[p]].extents
    {
      FreeEntry(dir, ix, index, h, p);
    }
    ChainFrame(dir, dir', chain);
    assert chain'[..|chain'| - 1] == chain;
    NoSectors(NoExtents(7));
  }

  lemma {:induction false} ContinuationOthers(dir: seq<Entry>, ix: Index, h: nat, index: nat)
    requires Indexed(dir, ix) && h in ix.chains && 1 <= index < MAX_ENTRIES && dir[index].deleted
    ensures OthersSame(dir, ix, WithContinuation(dir, Last(ix.chains[h]), index), IndexMore(ix, h, index), h)
  {
    var last := Last(ix.chains[h]);
    var dir' := WithContinuation(dir, last, index);
    assert ix.place[last] == Place(h, |ix.chains[h]| - 1);
    forall k: nat | k in ix.chains && k != h
      ensures SameFile(dir, ix, dir', IndexMore(ix, h, index), k)
    {
      forall p: nat | p < |ix.chains[k]|
        ensures dir'[ix.chains[k][p]] == dir[ix.chains[k][p]]
      {
        FreeEntry(dir, ix, index, k, p);
        assert ix.place[ix.chains[k][p]] == Place(k, p);
      }
    }
  }

  lemma {:induction false} ContinuationIndexed(dir: seq<Entry>, ix: Index, h: nat, index: nat)
    requires Indexed(dir, ix) && h in ix.chains && 1 <= index < MAX_ENTRIES && dir[index].deleted
    ensures Indexed(WithContinuation(dir, Last(ix.chains[h]), index), IndexMore(ix, h, index))
  {
    hide ChainOk, SameFile, NewContinuation;
    LastLive(dir, ix, h);
    ContinuationChains(dir, ix, h, index);
    ContinuationPlaces(dir, ix, h, index);
    ContinuationEntries(dir, ix, h, index);
  }

  lemma {:induction false} ContinuationChains(dir: seq<Entry>, ix: Index, h: nat, index: nat)
    requires Indexed(dir, ix) && h in ix.chains && 1 <= index < MAX_ENTRIES && dir[index].deleted
    ensures
      var dir', ix' := WithContinuation(dir, Last(ix.chains[h]), index), IndexMore(ix, h, index);
      forall k: nat :: k in ix'.chains ==> ChainOk(dir', ix'.chains[k]) && ix'.chains[k][0] == k
  {
    hide ChainSectors, Link, FileSize, SameFile, WithContinuation;
    var dir', ix' := WithContinuation(dir, Last(ix.chains[h]), index), IndexMore(ix, h, index);
    ContinuationChain(dir, ix, h, index);
    ContinuationOthers(dir, ix, h, index);
    forall k: nat | k in ix'.chains
      ensures ChainOk(dir', ix'.chains[k]) && ix'.chains[k][0] == k
    {
      if k != h {
        SameChain(dir, ix, dir', ix', k);
      }
    }
  }

  lemma {:induction false} ContinuationPlaces(dir: seq<Entry>, ix: Index, h: nat, index: nat)
    requires Indexed(dir, ix) && h in ix.chains && 1 <= index < MAX_ENTRIES && dir[index].deleted
    ensures
      var ix' := IndexMore(ix, h, index);
      forall k: nat, p: nat :: k in ix'.chains && p < |ix'.chains[k]| ==>
        ix'.chains[k][p] < MAX_ENTRIES && ix'.place[ix'.chains[k][p]] == Place(k, p)
  {
    hide Link;
    var ix' := IndexMore(ix, h, index);
    forall k: nat, p: nat | k in ix'.chains && p < |ix'.chains[k]|
      ensures ix'.chains[k][p] < MAX_ENTRIES && ix'.place[ix'.chains[k][p]] == Place(k, p)
    {
      if p < |ix.chains[k]| {
        FreeEntry(dir, ix, index, k, p);
      }
    }
  }

  lemma {:induction false} ContinuationEntries(dir: seq<Entry>, ix: Index, h: nat, index: nat)
    requires Indexed(dir, ix) && h in ix.chains && 1 <= index < MAX_ENTRIES && dir[index].deleted
    ensures
      var dir', ix' := WithContinuation(dir, Last(ix.chains[h]), index), IndexMore(ix, h, index);
      forall e: nat :: e < MAX_ENTRIES && !dir'[e].deleted ==> HasEntry(ix', ix'.place[e].head, ix'.place[e].pos, e)
  {
    hide Link, ChainOk;
    LastLive(dir, ix, h);
    var dir', ix' := WithContinuation(dir, Last(ix.chains[h]), index), IndexMore(ix, h, index);
    forall e: nat | e < MAX_ENTRIES && !dir'[e].deleted
      ensures HasEntry(ix', ix'.place[e].head, ix'.place[e].pos, e)
    {
      assert e != index ==> HasEntry(ix, ix.place[e].head, ix.place[e].pos, e);
    }
  }

  lemma {:induction false} ContinuationAdded(dir: seq<Entry>, ix: Index, h: nat, index: nat)
    requires DirOk(dir, ix) && h in ix.chains && 1 <= index < MAX_ENTRIES && dir[index].deleted
    requires forall i: nat :: 1 <= i < index ==> !dir[i].deleted
    ensures
      var dir' := WithContinuation(dir, Last(ix.chains[h]), index);
      var ix' := IndexMore(ix, h, index);
      && DirOk(dir', ix') && OthersSame(dir, ix, dir', ix', h)
      && ChainSectors(dir', ix'.chains[h]) == ChainSectors(dir, ix.chains[h])
  {
    hide ChainSectors, ChainOk, OthersSame;
    LastLive(dir, ix, h);
    var dir' := WithContinuation(dir, Last(ix.chains[h]), index);
    ContinuationChain(dir, ix, h, index);
    ContinuationOthers(dir, ix, h, index);
    ContinuationIndexed(dir, ix, h, index);
    forall k: nat | k in ix.chains
      ensures k < MAX_ENTRIES && dir'[k].name == dir[k].name
    {
      HeadLive(dir, ix, k);
    }
  }

  lemma {:induction false} LastLive(dir: seq<Entry>, ix: Index, h: nat)
    requires Indexed(dir, ix) && h in ix.chains
    ensures |ix.chains[h]| > 0 && Last(ix.chains[h]) < MAX_ENTRIES && !dir[Last(ix.chains[h])].deleted
  {
    assert Link(dir, ix.chains[h], |ix.chains[h]| - 1);
  }

  lemma {:induction false} HeadLive(dir: seq<Entry>, ix: Index, h: nat)
    requires Indexed(dir, ix) && h in ix.chains
    ensures h < MAX_ENTRIES && !dir[h].deleted
  {
    assert Link(dir, ix.chains[h], 0);
  }

  /* A file is made. */

  lemma {:induction false} EmptyChain(dir: seq<Entry>, index: nat, name: Name)
    requires index < |dir| && dir[index] == NewHeader(name)
    ensures ChainOk(dir, [index]) && ChainSectors(dir, [index]) == [] && FileSize(dir, [index]) == 0
  {
    NoSectors(NoExtents(4));
    assert Link(dir, [index], 0);
  }

  lemma {:induction false} FileMade(dir: seq<Entry>, ix: Index, index: nat, name: Name)
    requires DirOk(dir, ix) && index < MAX_ENTRIES && dir[index].deleted
    requires forall i: nat :: i < index ==> !dir[i].deleted
    requires forall k: nat :: k in ix.chains ==> dir[k].name != name
    ensures
      var dir' := dir[index := NewHeader(name)];
      var ix' := Index(ix.chains[index := [index]], ix.place[index := Place(index, 0)]);
      && index !in ix.chains && DirOk(dir', ix') && OthersSame(dir, ix, dir', ix', index)
      && ChainSectors(dir', [index]) == [] && FileSize(dir', [index]) == 0
  {
    hide ChainSectors, ChainOk, SameFile, FileSize;
    var dir' := dir[index := NewHeader(name)];
    Headers(dir, ix, index);
    EmptyChain(dir', index, name);
    MadeOthers(dir, ix, index, name);
    MadeIndexed(dir, ix, index, name);
    forall k: nat | k in ix.chains
      ensures k < MAX_ENTRIES && dir'[k].name == dir[k].name
    {
      HeadLive(dir, ix, k);
    }
  }

  lemma {:induction false} MadeOthers(dir: seq<Entry>, ix: Index, index: nat, name: Name)
    requires Indexed(dir, ix) && index < MAX_ENTRIES && dir[index].deleted && index !in ix.chains
    ensures
      var dir' := dir[index := NewHeader(name)];
      var ix' := Index(ix.chains[index := [index]], ix.place[index := Place(index, 0)]);
      && OthersSame(dir, ix, dir', ix', index)
      && forall k: nat :: k in ix.chains ==> ChainOk(dir', ix'.chains[k]) && ix'.chains[k][0] == k
  {
    hide ChainSectors, Link, FileSize, NewHeader;
    var dir' := dir[index := NewHeader(name)];
    var ix' := Index(ix.chains[index := [index]], ix.place[index := Place(index, 0)]);
    forall k: nat | k in ix.chains
      ensures SameFile(dir, ix, dir', ix', k) && ChainOk(dir', ix'.chains[k])
    {
      forall p: nat | p < |ix.chains[k]|
        ensures dir'[ix.chains[k][p]] == dir[ix.chains[k][p]]
      {
        FreeEntry(dir, ix, index, k, p);
      }
      SameChain(dir, ix, dir', ix', k);
    }
  }

  lemma {:induction false} MadeIndexed(dir: seq<Entry>, ix: Index, index: nat, name: Name)
    requires Indexed(dir, ix) && index < MAX_ENTRIES && dir[index].deleted && index !in ix.chains
    ensures
      Indexed(dir[index := NewHeader(name)], Index(ix.chains[index := [index]], ix.place[index := Place(index, 0)]))
  {
    hide ChainSectors, ChainOk, Link, FileSize, NewHeader, SameFile;
    var dir' := dir[index := NewHeader(name)];
    var ix' := Index(ix.chains[index := [index]], ix.place[index := Place(index, 0)]);
    EmptyChain(dir', index, name);
    MadeOthers(dir, ix, index, name);
    forall k: nat, p: nat | k in ix'.chains && p < |ix'.chains[k]|
      ensures ix'.chains[k][p] < MAX_ENTRIES && ix'.place[ix'.chains[k][p]] == Place(k, p)
    {
      if k in ix.chains {
        FreeEntry(dir, ix, index, k, p);
      }
    }
    forall e: nat | e < MAX_ENTRIES && !dir'[e].deleted
      ensures HasEntry(ix', ix'.place[e].head, ix'.place[e].pos, e)
    {
      if e != index {
        assert HasEntry(ix, ix.place[e].head, ix.place[e].pos, e);
      }
    }
  }

  /* A file is killed. */

  /** The entries of a file up to a place are marked deleted. */
  ghost predicate KilledSoFar(dir: seq<Entry>, dir': seq<Entry>, ix: Index, h: nat, p: nat)
    requires |ix.place| == |dir| == MAX_ENTRIES
  {
    && |dir'| == |dir|
    && forall e: nat :: e < MAX_ENTRIES ==>
      dir'[e] == if InChain(ix, h, e) && ix.place[e].pos < p then Killed(dir[e]) else dir[e]
  }

  lemma {:induction false} FileKilled(dir: seq<Entry>, dir': seq<Entry>, ix: Index, h: nat)
    requires DirOk(dir, ix) && h in ix.chains && KilledSoFar(dir, dir', ix, h, |ix.chains[h]|)
    ensures
      var ix' := Index(ix.chains - {h}, ix.place);
      DirOk(dir', ix') && OthersSame(dir, ix, dir', ix', h)
  {
    hide ChainOk, Link, SameFile;
    var ix' := Index(ix.chains - {h}, ix.place);
    KilledOthers(dir, dir', ix, h);
    KilledEntries(dir, dir', ix, h);
    forall k: nat | k in ix'.chains
      ensures k < MAX_ENTRIES && dir'[k].name == dir[k].name
    {
      HeadLive(dir, ix, k);
    }
  }

  lemma {:induction false} KilledOthers(dir: seq<Entry>, dir': seq<Entry>, ix: Index, h: nat)
    requires Indexed(dir, ix) && h in ix.chains && KilledSoFar(dir, dir', ix, h, |ix.chains[h]|)
    ensures
      var ix' := Index(ix.chains - {h}, ix.place);
      && OthersSame(dir, ix, dir', ix', h)
      && forall k: nat :: k in ix'.chains ==> ChainOk(dir', ix'.chains[k]) && ix'.chains[k][0] == k
  {
    hide Link, ChainSectors, FileSize;
    var ix' := Index(ix.chains - {h}, ix.place);
    forall k: nat | k in ix'.chains
      ensures SameFile(dir, ix, dir', ix', k) && ChainOk(dir', ix'.chains[k])
    {
      ChangedElsewhere(dir, ix, dir', h, k);
      SameChain(dir, ix, dir', ix', k);
    }
  }

  /** The entries still in use are in the other chains. */
  lemma {:induction false} KilledEntries(dir: seq<Entry>, dir': seq<Entry>, ix: Index, h: nat)
    requires Indexed(dir, ix) && h in ix.chains && KilledSoFar(dir, dir', ix, h, |ix.chains[h]|)
    ensures
      var ix' := Index(ix.chains - {h}, ix.place);
      forall e: nat :: e < MAX_ENTRIES && !dir'[e].deleted ==> HasEntry(ix', ix'.place[e].head, ix'.place[e].pos, e)
  {
    hide ChainOk, Link;
    var ix' := Index(ix.chains - {h}, ix.place);
    forall e: nat | e < MAX_ENTRIES && !dir'[e].deleted
      ensures HasEntry(ix', ix'.place[e].head, ix'.place[e].pos, e)
    {
      assert HasEntry(ix, ix.place[e].head, ix.place[e].pos, e);
    }
  }
}
