/** Who has each sector of a Dragon DOS disk: it is free, or past the end of the
    disk, or part of the directory track or its copy, or set aside for the open
    file to grow into, or a certain sector of a certain file. */
module DragonOwner {
  import opened DragonBitmap

  datatype Owner = Free | Absent | Reserved | Spare | Of(file: nat, index: nat)

  /** The sectors of each file, by the number of its first directory entry. */
  type Files = map<nat, seq<nat>>

  function Range(lsn: nat, count: nat): (r: seq<nat>)
    ensures |r| == count && forall i :: 0 <= i < count ==> r[i] == lsn + i
  {
    seq(count, i requires 0 <= i < count => lsn + i)
  }

  /** The directory track, and its copy four tracks before. */
  predicate IsReserved(m: Map, l: nat) {
    || m.directory <= l < m.directory + TRACK
    || m.directory - m.directory / 5 <= l < m.directory - m.directory / 5 + TRACK
  }

  /** What the owner of a sector says of it. */
  predicate Fits(m: Map, owner: seq<Owner>, spareLsn: nat, spareCount: nat, l: nat)
    requires |m.bits| == |owner| == MAX_LSN && l < MAX_LSN
  {
    && (owner[l].Free? <==> m.bits[l])
    && (owner[l].Absent? <==> l >= m.total)
    && (owner[l].Reserved? <==> IsReserved(m, l))
    && (owner[l].Spare? <==> spareLsn <= l < spareLsn + spareCount)
  }

  /** Every sector has one owner, and the map shows which are free. */
  ghost predicate Partition(m: Map, owner: seq<Owner>, files: Files, spareLsn: nat, spareCount: nat) {
    && m.Ok() && |owner| == MAX_LSN && spareLsn + spareCount <= MAX_LSN
    && (forall l: nat :: l < MAX_LSN ==> Fits(m, owner, spareLsn, spareCount, l))
    && (forall l: nat :: l < MAX_LSN && owner[l].Of? ==> HasSector(files, owner[l].file, owner[l].index, l))
    && (forall h: nat, i: nat :: h in files && i < |files[h]| ==>
          files[h][i] < MAX_LSN && owner[files[h][i]] == Of(h, i))
  }

  predicate HasSector(files: Files, h: nat, i: nat, l: nat) {
    h in files && i < |files[h]| && files[h][i] == l
  }

  function Give(owner: seq<Owner>, lsn: nat, count: nat, to: Owner): (r: seq<Owner>)
    ensures |r| == |owner|
  {
    seq(|owner|, l requires 0 <= l < |owner| => if lsn <= l < lsn + count then to else owner[l])
  }

  /** The sectors of a run, in order, become a file's from its n-th sector on. */
  function GiveFile(owner: seq<Owner>, lsn: nat, count: nat, h: nat, n: nat): (r: seq<Owner>)
    ensures |r| == |owner|
  {
    seq(|owner|, l requires 0 <= l < |owner| => if lsn <= l < lsn + count then Of(h, n + l - lsn) else owner[l])
  }

  predicate CutOff(owner: Owner, h: nat, keep: nat) {
    owner.Of? && owner.file == h && owner.index >= keep
  }

  /** A file gives up its sectors from keep on. */
  function TakeBack(owner: seq<Owner>, h: nat, keep: nat): (r: seq<Owner>)
    ensures |r| == |owner|
  {
    seq(|owner|, l requires 0 <= l < |owner| => if CutOff(owner[l], h, keep) then Free else owner[l])
  }

  /** What a partition says of the map: a sector on the disk is marked used
      exactly when it is reserved, or spare, or a sector of a file; of one file,
      once. */
  lemma {:induction false} UsedExactly(m: Map, owner: seq<Owner>, files: Files, spareLsn: nat, spareCount: nat, l: nat)
    requires Partition(m, owner, files, spareLsn, spareCount) && l < m.total
    ensures !m.bits[l] <==>
      IsReserved(m, l) || spareLsn <= l < spareLsn + spareCount || exists h: nat, i: nat :: HasSector(files, h, i, l)
    ensures !(IsReserved(m, l) && spareLsn <= l < spareLsn + spareCount)
    ensures forall h: nat, i: nat :: HasSector(files, h, i, l) ==>
      !IsReserved(m, l) && !(spareLsn <= l < spareLsn + spareCount)
    ensures forall h: nat, i: nat, h': nat, i': nat :: HasSector(files, h, i, l) && HasSector(files, h', i', l) ==>
      h == h' && i == i'
  {
    assert Fits(m, owner, spareLsn, spareCount, l);
    if owner[l].Of? {
      assert HasSector(files, owner[l].file, owner[l].index, l);
    }
  }

  /** An owner map in which the same sectors are those of files. */
  lemma {:induction false} OthersKept(owner: seq<Owner>, owner': seq<Owner>, files: Files)
    requires |owner| == |owner'| == MAX_LSN
    requires forall l: nat :: l < MAX_LSN ==> (owner'[l].Of? <==> owner[l].Of?)
    requires forall l: nat :: l < MAX_LSN && owner[l].Of? ==> owner'[l] == owner[l]
    requires forall l: nat :: l < MAX_LSN && owner[l].Of? ==> HasSector(files, owner[l].file, owner[l].index, l)
    requires forall h: nat, i: nat :: h in files && i < |files[h]| ==>
      files[h][i] < MAX_LSN && owner[files[h][i]] == Of(h, i)
    ensures forall l: nat :: l < MAX_LSN && owner'[l].Of? ==> HasSector(files, owner'[l].file, owner'[l].index, l)
    ensures forall h: nat, i: nat :: h in files && i < |files[h]| ==>
      files[h][i] < MAX_LSN && owner'[files[h][i]] == Of(h, i)
  {
    forall h: nat, i: nat | h in files && i < |files[h]|
      ensures owner'[files[h][i]] == Of(h, i)
    {
      assert owner[files[h][i]] == Of(h, i);
    }
    forall l: nat | l < MAX_LSN && owner'[l].Of?
      ensures HasSector(files, owner'[l].file, owner'[l].index, l)
    {
      assert HasSector(files, owner[l].file, owner[l].index, l);
    }
  }

  /** A run taken from the map is set aside. */
  lemma {:induction false} SetAside(m: Map, owner: seq<Owner>, files: Files, prev: nat, lsn: nat, count: nat)
    requires Partition(m, owner, files, prev, 0) && m.TakenRun(lsn, count)
    ensures lsn + count <= MAX_LSN
    ensures Partition(m.With(lsn, count, false), Give(owner, lsn, count, Spare), files, lsn, count)
    ensures m.With(lsn, count, false).FreeCount() + count == m.FreeCount()
  {
    assert m.Free(lsn + count - 1);
    SetFree(m, owner, files, prev, lsn, count);
    RunTaken(m, lsn, count);
  }

  lemma {:induction false} SetFree(m: Map, owner: seq<Owner>, files: Files, prev: nat, lsn: nat, count: nat)
    requires Partition(m, owner, files, prev, 0) && lsn + count <= MAX_LSN
    requires forall l: nat :: lsn <= l < lsn + count ==> m.Free(l)
    ensures Partition(m.With(lsn, count, false), Give(owner, lsn, count, Spare), files, lsn, count)
  {
    var m', owner' := m.With(lsn, count, false), Give(owner, lsn, count, Spare);
    forall l: nat | l < MAX_LSN
      ensures Fits(m', owner', lsn, count, l) && (owner'[l].Of? <==> owner[l].Of?)
    {
      assert Fits(m, owner, prev, 0, l) && (lsn <= l < lsn + count ==> m.Free(l));
    }
    OthersKept(owner, owner', files);
  }

  /** What was set aside goes back to the map. */
  lemma {:induction false} PutBack(m: Map, owner: seq<Owner>, files: Files, lsn: nat, count: nat, next: nat)
    requires Partition(m, owner, files, lsn, count) && next <= MAX_LSN
    ensures Partition(m.With(lsn, count, true), Give(owner, lsn, count, Free), files, next, 0)
    ensures m.With(lsn, count, true).FreeCount() == m.FreeCount() + count
  {
    var m', owner' := m.With(lsn, count, true), Give(owner, lsn, count, Free);
    forall l: nat | l < MAX_LSN
      ensures Fits(m', owner', next, 0, l) && (owner'[l].Of? <==> owner[l].Of?)
    {
      assert Fits(m, owner, lsn, count, l);
    }
    OthersKept(owner, owner', files);
    forall l: nat | lsn <= l < lsn + count
      ensures l < m.total && !m.bits[l]
    {
      assert Fits(m, owner, lsn, count, l);
    }
    if count > 0 {
      assert Fits(m, owner, lsn, count, lsn + count - 1);
    }
    RunCounts(m, lsn, count, true);
  }

  /** A new run is taken before the one set aside goes back. */
  lemma {:induction false} Exchange(
      m: Map, owner: seq<Owner>, files: Files, lsn: nat, count: nat, lsn': nat, count': nat)
    requires Partition(m, owner, files, lsn, count) && m.TakenRun(lsn', count')
    ensures lsn' + count' <= MAX_LSN
    ensures
      var owner' := Give(Give(owner, lsn, count, Free), lsn', count', Spare);
      Partition(m.With(lsn', count', false).With(lsn, count, true), owner', files, lsn', count')
    ensures m.With(lsn', count', false).With(lsn, count, true).FreeCount() + count' == m.FreeCount() + count
  {
    PutBack(m, owner, files, lsn, count, 0);
    var m1 := m.With(lsn, count, true);
    forall l: nat | lsn' <= l < lsn' + count'
      ensures m.Free(l) && m1.Free(l) && !(lsn <= l < lsn + count)
    {
      assert m.Free(l) && Fits(m, owner, lsn, count, l);
    }
    assert m.Free(lsn' + count' - 1);
    SetFree(m1, Give(owner, lsn, count, Free), files, 0, lsn', count');
    var m2, m3 := m.With(lsn', count', false).With(lsn, count, true), m1.With(lsn', count', false);
    forall l: nat | l < MAX_LSN
      ensures m2.bits[l] == m3.bits[l]
    {
      assert lsn' <= l < lsn' + count' ==> m1.Free(l) && !(lsn <= l < lsn + count);
    }
    assert m2.bits == m3.bits;
    RunTaken(m1, lsn', count');
  }

  /** The first sectors set aside are added to the end of a file. */
  lemma {:induction false} Append(m: Map, owner: seq<Owner>, files: Files, lsn: nat, count: nat, h: nat, used: nat)
    requires Partition(m, owner, files, lsn, count) && h in files && used <= count
    ensures
      var files' := files[h := files[h] + Range(lsn, used)];
      Partition(m, GiveFile(owner, lsn, used, h, |files[h]|), files', lsn + used, count - used)
  {
    var n := |files[h]|;
    var files' := files[h := files[h] + Range(lsn, used)];
    var owner' := GiveFile(owner, lsn, used, h, n);
    var lsn', count' := lsn + used, count - used;
    forall l: nat | l < MAX_LSN
      ensures Fits(m, owner', lsn', count', l)
    {
      assert Fits(m, owner, lsn, count, l);
    }
    forall k: nat, i: nat | k in files' && i < |files'[k]|
      ensures files'[k][i] < MAX_LSN && owner'[files'[k][i]] == Of(k, i)
    {
      if k != h || i < n {
        assert files'[k][i] == files[k][i] && owner[files[k][i]] == Of(k, i);
        assert Fits(m, owner, lsn, count, files[k][i]);
      } else {
        assert files'[k][i] == lsn + (i - n);
      }
    }
    forall l: nat | l < MAX_LSN && owner'[l].Of?
      ensures HasSector(files', owner'[l].file, owner'[l].index, l)
    {
      if lsn <= l < lsn + used {
        assert files'[h][n + (l - lsn)] == Range(lsn, used)[l - lsn];
      } else {
        assert HasSector(files, owner[l].file, owner[l].index, l);
      }
    }
  }

  /** The map with the end of a file freed. */
  ghost predicate Freed(m: Map, m': Map, owner: seq<Owner>, h: nat, keep: nat)
    requires |owner| == MAX_LSN && |m.bits| == MAX_LSN
  {
    && m' == m.(bits := m'.bits) && |m'.bits| == MAX_LSN
    && forall l: nat :: l < MAX_LSN ==> (m'.bits[l] <==> m.bits[l] || CutOff(owner[l], h, keep))
  }

  lemma {:induction false} Cut(
      m: Map, m': Map, owner: seq<Owner>, files: Files, lsn: nat, count: nat, h: nat, keep: nat)
    requires Partition(m, owner, files, lsn, count) && h in files && keep <= |files[h]|
    requires Freed(m, m', owner, h, keep)
    ensures Partition(m', TakeBack(owner, h, keep), files[h := files[h][..keep]], lsn, count)
  {
    var owner' := TakeBack(owner, h, keep);
    forall l: nat | l < MAX_LSN
      ensures Fits(m', owner', lsn, count, l)
    {
      assert Fits(m, owner, lsn, count, l);
    }
    var files' := files[h := files[h][..keep]];
    forall k: nat, i: nat | k in files' && i < |files'[k]|
      ensures files'[k][i] < MAX_LSN && owner'[files'[k][i]] == Of(k, i)
    {
      assert files'[k][i] == files[k][i] && owner[files[k][i]] == Of(k, i);
    }
    forall l: nat | l < MAX_LSN && owner'[l].Of?
      ensures HasSector(files', owner'[l].file, owner'[l].index, l)
    {
      assert HasSector(files, owner[l].file, owner[l].index, l);
    }
  }

  /** An empty file comes or goes. */
  lemma {:induction false} AddEmpty(m: Map, owner: seq<Owner>, files: Files, lsn: nat, count: nat, h: nat)
    requires Partition(m, owner, files, lsn, count) && h !in files
    ensures Partition(m, owner, files[h := []], lsn, count)
  {
    forall l: nat | l < MAX_LSN && owner[l].Of?
      ensures HasSector(files[h := []], owner[l].file, owner[l].index, l)
    {
      assert HasSector(files, owner[l].file, owner[l].index, l);
    }
  }

  lemma {:induction false} RemoveEmpty(m: Map, owner: seq<Owner>, files: Files, lsn: nat, count: nat, h: nat)
    requires Partition(m, owner, files, lsn, count) && h in files && files[h] == []
    ensures Partition(m, owner, files - {h}, lsn, count)
  {
    forall l: nat | l < MAX_LSN && owner[l].Of?
      ensures HasSector(files - {h}, owner[l].file, owner[l].index, l)
    {
      assert HasSector(files, owner[l].file, owner[l].index, l);
    }
  }
}
