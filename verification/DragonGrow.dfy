/** Growing a file: which sectors it is given, how many extents they take, and when
    there are enough of both. */
module DragonGrow {
  import opened DragonBitmap
  import opened DragonOwner
  import opened DragonDir
  import opened DragonCut
  import opened DragonSound

  /* Which sectors a file that grows is given. */

  datatype Run = Run(lsn: nat, count: nat)

  function RunSectors(runs: seq<Run>): seq<nat> {
    if |runs| == 0 then [] else RunSectors(runs[..|runs| - 1]) + Range(runs[|runs| - 1].lsn, runs[|runs| - 1].count)
  }

  /** The map with runs taken from it. */
  function MapAfter(m: Map, runs: seq<Run>): Map {
    if |runs| == 0 then m
    else MapAfter(m, runs[..|runs| - 1]).With(runs[|runs| - 1].lsn, runs[|runs| - 1].count, false)
  }

  /** Each run is the one chosen for the same hint when those before it are taken. */
  ghost predicate RunsChosen(m: Map, hint: nat, runs: seq<Run>) {
    forall k: nat :: k < |runs| ==> RunChosen(MapAfter(m, runs[..k]), hint, runs[k])
  }

  ghost predicate RunChosen(m: Map, hint: nat, run: Run) {
    m.Ok() && m.Chosen(hint, run.lsn) && m.TakenRun(run.lsn, run.count)
  }

  /** What is set aside when a file starts to grow: a run that does not follow the
      file is changed for the one chosen, if there is one. */
  ghost predicate Settled(m: Map, run: Run, inUse: bool, hint: nat, m': Map, run': Run) {
    if inUse && run.count > 0 && run.lsn != hint && m.Ok() && exists l: nat :: m.Free(l) then
      RunChosen(m, hint, run') && m' == m.With(run'.lsn, run'.count, false).With(run.lsn, run.count, true)
    else
      m' == m && run' == run
  }

  /** A file's sectors and what is set aside after them are those it had, what was
      set aside when it started to grow, and the runs chosen since. */
  ghost predicate Supplied(
      m: Map, run: Run, runs: seq<Run>, hint: nat, was: seq<nat>, m': Map, now: seq<nat>, run': Run)
  {
    && RunsChosen(m, hint, runs) && m' == MapAfter(m, runs) && was <= now
    && now + Range(run'.lsn, run'.count) == was + (Range(run.lsn, run.count) + RunSectors(runs))
  }

  /** What growing by sectors does, from a map, the run set aside and a file's
      sectors to those after it.  No run is chosen that is not needed, and what is set
      aside in the end follows the file. */
  ghost predicate Grown(
      m: Map, run: Run, inUse: bool, hint: nat, was: seq<nat>, m': Map, now: seq<nat>, run': Run)
  {
    && |now| > 0 && run'.lsn == now[|now| - 1] + 1
    && exists m1: Map, run1: Run, runs: seq<Run> ::
         && Settled(m, run, inUse, hint, m1, run1) && Supplied(m1, run1, runs, hint, was, m', now, run')
         && Total(([run1] + runs)[..|runs|]) < |now| - |was|
  }

  /** What a call that gives a file sectors does with the map and what is set
      aside: nothing, unless the file has got some. */
  ghost predicate Grew(
      m: Map, run: Run, dir: seq<Entry>, ix: Index, h: nat, was: seq<nat>, m': Map, now: seq<nat>, run': Run)
  {
    if |now| == |was| then m' == m && now == was && run' == run
    else Grown(m, run, Tail(dir, ix, h) != [], Hint(dir, ix, h), was, m', now, run')
  }

  /** What growing a file to a size does with the disk and the path. */
  ghost predicate GrownTo(
      m: Map, run: Run, dir: seq<Entry>, ix: Index, files: Files, was: nat,
      m': Map, run': Run, dir': seq<Entry>, ix': Index, files': Files, now: nat, h: nat, size: nat)
  {
    && h in files && h in files' && h in ix.chains && h in ix'.chains && was <= size == now
    && files[h] <= files'[h] && files' == files[h := files'[h]] && |files'[h]| == |files[h]| + Needed(was, size)
    && SizeOf(dir', ix', h) == BytesIn(|files'[h]|, size % SECTOR_SIZE)
    && Grew(m, run, dir, ix, h, files[h], m', files'[h], run')
    && Chained(dir, ix.chains[h], dir', ix'.chains[h], |files'[h]| - |files[h]|)
  }

  /** The size that a file grows to is the one its entries give if and only if its
      sectors are counted right. */
  lemma {:induction false} GrownExact(
      m: Map, run: Run, dir: seq<Entry>, ix: Index, files: Files, was: nat,
      m': Map, run': Run, dir': seq<Entry>, ix': Index, files': Files, now: nat, h: nat, size: nat)
    requires GrownTo(m, run, dir, ix, files, was, m', run', dir', ix', files', now, h, size)
    requires was < size < WORD && |files[h]| == SectorsFor(was)
    ensures
      if was > 0 || size <= WORD - SECTOR_SIZE then |files'[h]| == SectorsFor(size) && SizeOf(dir', ix', h) == size
      else files' == files && files[h] == [] && SizeOf(dir', ix', h) == 0
  {
    hide SizeOf, Grew, Chained, Needed;
    NeededExact(was, size);
    SizeBack(size);
    assert files'[h] == files[h] ==> files' == files[h := files[h]] == files;
  }

  lemma {:induction false} SupplyBegun(m: Map, run: Run, hint: nat, was: seq<nat>)
    ensures Supplied(m, run, [], hint, was, m, was, run)
  {
  }

  lemma {:induction false} SupplyUsed(
      m: Map, run: Run, runs: seq<Run>, hint: nat, was: seq<nat>, m': Map, now: seq<nat>, run': Run, used: nat)
    requires Supplied(m, run, runs, hint, was, m', now, run') && used <= run'.count
    ensures Supplied(m, run, runs, hint, was, m', now + Range(run'.lsn, used), Run(run'.lsn + used, run'.count - used))
  {
    hide RunsChosen, MapAfter, RunSectors;
    RangeSplit(run'.lsn, run'.lsn, used, run'.count - used);
    assert now + (Range(run'.lsn, used) + Range(run'.lsn + used, run'.count - used))
      == (now + Range(run'.lsn, used)) + Range(run'.lsn + used, run'.count - used);
  }

  lemma {:induction false} SupplyMore(
      m: Map, run: Run, runs: seq<Run>, hint: nat, was: seq<nat>, m': Map, now: seq<nat>, run': Run, next: Run)
    requires Supplied(m, run, runs, hint, was, m', now, run') && run'.count == 0 && RunChosen(m', hint, next)
    ensures Supplied(m, run, runs + [next], hint, was, m'.With(next.lsn, next.count, false), now, next)
  {
    hide RunsChosen, RunChosen, MapAfter, RunSectors, Range;
    ChosenMore(m, hint, runs, next);
    SectorsMore(runs, next);
    NoRange(run'.lsn);
    assert now + [] == now;
    JoinedMore(was, Range(run.lsn, run.count), RunSectors(runs), Range(next.lsn, next.count));
  }

  lemma {:induction false} ChosenMore(m: Map, hint: nat, runs: seq<Run>, next: Run)
    requires RunsChosen(m, hint, runs) && RunChosen(MapAfter(m, runs), hint, next)
    ensures RunsChosen(m, hint, runs + [next])
    ensures MapAfter(m, runs + [next]) == MapAfter(m, runs).With(next.lsn, next.count, false)
  {
    hide RunChosen, Map.With;
    var more := runs + [next];
    assert more[..|more| - 1] == runs;
    forall k: nat | k < |more|
      ensures RunChosen(MapAfter(m, more[..k]), hint, more[k])
    {
      assert k < |runs| ==> more[..k] == runs[..k];
    }
  }

  lemma {:induction false} SectorsMore(runs: seq<Run>, next: Run)
    ensures RunSectors(runs + [next]) == RunSectors(runs) + Range(next.lsn, next.count)
  {
    hide Range;
    var more := runs + [next];
    assert more[..|more| - 1] == runs;
  }

  lemma {:induction false} JoinedMore(a: seq<nat>, b: seq<nat>, c: seq<nat>, d: seq<nat>)
    ensures a + (b + (c + d)) == (a + (b + c)) + d
  {
  }

  lemma {:induction false} NoRange(lsn: nat)
    ensures Range(lsn, 0) == []
  {
  }

  /* Where the sectors that a file gains begin. */

  /** The first sector gained, and the one after the first run.  What is set aside is
      used if it follows the file, or the last entry has no extent in use, or no sector
      is free.  Otherwise, whether or not the sector at the hint is free, the hint
      chooses on the map as it was, and what was set aside is released.  In the end what
      is set aside follows the file. */
  ghost predicate Gains(
      m: Map, run: Run, inUse: bool, hint: nat, was: seq<nat>, m': Map, now: seq<nat>, run': Run)
  {
    && m.Ok() && m'.Ok() && was <= now
    && (|now| > |was| ==>
          var first := now[|was|];
          && run'.lsn == now[|now| - 1] + 1
          && if run.count > 0 && (!inUse || run.lsn == hint || forall l: nat :: !m.Free(l)) then
               && first == run.lsn
               && (|now| > |was| + run.count ==> m.Chosen(hint, now[|was| + run.count]))
             else
               && m.Chosen(hint, first) && ThenChosen(m, run, hint, |was|, now)
               && Released(m', now, run', run) && FreeAfterOne(m, m', |was|, now, run))
  }

  /** The hint chooses again when the first run is used up. */
  ghost predicate ThenChosen(m: Map, run: Run, hint: nat, n: nat, now: seq<nat>)
    requires m.Ok() && n < |now|
  {
    forall count: nat :: m.TakenRun(now[n], count) && |now| > n + count ==>
      m.With(now[n], count, false).With(run.lsn, run.count, true).Chosen(hint, now[n + count])
  }

  /** Each sector of a run is free, or in the file, or set aside again. */
  ghost predicate Released(m: Map, now: seq<nat>, spare: Run, run: Run) requires m.Ok() {
    forall l: nat :: run.lsn <= l < run.lsn + run.count ==>
      m.Free(l) || l in now || spare.lsn <= l < spare.lsn + spare.count
  }

  /** It is free if the first run chosen is enough. */
  ghost predicate FreeAfterOne(m: Map, m': Map, n: nat, now: seq<nat>, run: Run)
    requires m.Ok() && m'.Ok() && n < |now|
  {
    forall count: nat :: m.TakenRun(now[n], count) && |now| <= n + count ==>
      forall l: nat :: run.lsn <= l < run.lsn + run.count ==> m'.Free(l)
  }

  /** The same of a file: the hint is where the last extent in use of its last entry
      ends. */
  ghost predicate FileGains(
      m: Map, run: Run, dir: seq<Entry>, ix: Index, h: nat, was: seq<nat>, m': Map, now: seq<nat>, run': Run)
  {
    && h in ix.chains && |ix.chains[h]| > 0 && Last(ix.chains[h]) < |dir|
    && GainsAfter(m, run, dir[Last(ix.chains[h])], was, m', now, run')
  }

  function EndOf(e: Entry, extent: int): nat {
    if 0 <= extent < |e.extents| then e.extents[extent].lsn + e.extents[extent].count else 0xFFFF
  }

  ghost predicate GainsAfter(m: Map, run: Run, e: Entry, was: seq<nat>, m': Map, now: seq<nat>, run': Run) {
    forall extent: int :: UsedTo(e, extent) ==>
      Gains(m, run, extent >= 0, EndOf(e, extent), was, m', now, run')
  }

  lemma {:induction false} SectorsFront(runs: seq<Run>)
    requires |runs| > 0
    ensures RunSectors(runs) == Range(runs[0].lsn, runs[0].count) + RunSectors(runs[1..])
    decreases |runs|
  {
    hide Range;
    var before := runs[..|runs| - 1];
    if |runs| > 1 {
      SectorsFront(before);
      assert before[1..] == runs[1..][..|runs| - 2];
    } else {
      assert RunSectors(before) == [] && RunSectors(runs[1..]) == [];
    }
  }

  lemma {:induction false} MapFront(m: Map, runs: seq<Run>)
    requires |runs| > 0
    ensures MapAfter(m, runs) == MapAfter(m.With(runs[0].lsn, runs[0].count, false), runs[1..])
    decreases |runs|
  {
    hide Map.With;
    var before := runs[..|runs| - 1];
    if |runs| > 1 {
      MapFront(m, before);
      assert before[1..] == runs[1..][..|runs| - 2];
    } else {
      assert before == [] && runs[1..] == [];
    }
  }

  /** Only the sectors of the runs are taken from the map. */
  lemma {:induction false} OnlyRunsTaken(m: Map, runs: seq<Run>, l: nat)
    requires l < |m.bits| && m.bits[l]
    ensures |MapAfter(m, runs).bits| == |m.bits| && MapAfter(m, runs).total == m.total
    ensures MapAfter(m, runs).bits[l] || l in RunSectors(runs)
    decreases |runs|
  {
    if |runs| > 0 {
      var before, run := runs[..|runs| - 1], runs[|runs| - 1];
      OnlyRunsTaken(m, before, l);
      if run.lsn <= l < run.lsn + run.count {
        assert Range(run.lsn, run.count)[l - run.lsn] == l;
      }
    }
  }

  /** What is supplied begins with what was set aside, and then with the first run
      chosen. */
  lemma {:induction false} SupplyFirst(
      m: Map, run: Run, runs: seq<Run>, hint: nat, was: seq<nat>, m': Map, now: seq<nat>, run': Run)
    requires Supplied(m, run, runs, hint, was, m', now, run')
    ensures |now| > |was| && run.count > 0 ==> now[|was|] == run.lsn
    ensures |now| > |was| + run.count ==>
      |runs| > 0 && RunChosen(m, hint, runs[0]) && now[|was| + run.count] == runs[0].lsn
  {
    hide RunsChosen, RunChosen, MapAfter;
    var all, given := now + Range(run'.lsn, run'.count), Range(run.lsn, run.count) + RunSectors(runs);
    assert forall i :: 0 <= i < |now| ==> all[i] == now[i];
    assert forall i :: |was| <= i < |all| ==> all[i] == given[i - |was|];
    if |now| > |was| + run.count {
      assert given[run.count] == RunSectors(runs)[0];
      FirstChosen(m, hint, runs);
      SectorsFront(runs);
      assert runs[0].count > 0 && Range(runs[0].lsn, runs[0].count)[0] == runs[0].lsn;
    }
  }

  lemma {:induction false} FirstChosen(m: Map, hint: nat, runs: seq<Run>)
    requires RunsChosen(m, hint, runs) && |runs| > 0
    ensures RunChosen(m, hint, runs[0]) && runs[0].count > 0
  {
    assert runs[..0] == [];
    assert RunChosen(MapAfter(m, runs[..0]), hint, runs[0]);
  }

  lemma {:induction false} SupplyReleased(
      m: Map, run: Run, runs: seq<Run>, hint: nat, was: seq<nat>, m': Map, now: seq<nat>, run': Run, free: Run)
    requires Supplied(m, run, runs, hint, was, m', now, run') && m'.Ok()
    requires m.Ok() && free.lsn + free.count <= m.total
    requires forall l: nat :: free.lsn <= l < free.lsn + free.count ==> m.bits[l]
    ensures Released(m', now, run', free)
  {
    hide RunsChosen, MapAfter, RunSectors;
    forall l: nat | free.lsn <= l < free.lsn + free.count
      ensures m'.Free(l) || l in now || run'.lsn <= l < run'.lsn + run'.count
    {
      OnlyRunsTaken(m, runs, l);
      if !m'.Free(l) {
        assert l in was + (Range(run.lsn, run.count) + RunSectors(runs));
        assert l in now || l in Range(run'.lsn, run'.count);
      }
    }
  }

  /** With nothing set aside it is as if the first run chosen had been. */
  lemma {:induction false} Resupplied(
      m: Map, run: Run, runs: seq<Run>, hint: nat, was: seq<nat>, m': Map, now: seq<nat>, run': Run)
    requires Supplied(m, run, runs, hint, was, m', now, run') && run.count == 0 && |runs| > 0
    ensures Supplied(m.With(runs[0].lsn, runs[0].count, false), runs[0], runs[1..], hint, was, m', now, run')
  {
    hide RunChosen, MapAfter, RunSectors, Map.With, Range;
    var m1, rest := m.With(runs[0].lsn, runs[0].count, false), runs[1..];
    SectorsFront(runs);
    MapFront(m, runs);
    NoRange(run.lsn);
    assert [] + RunSectors(runs) == RunSectors(runs);
    forall k: nat | k < |rest|
      ensures RunChosen(MapAfter(m1, rest[..k]), hint, rest[k])
    {
      MapFront(m, runs[..k + 1]);
      assert runs[..k + 1][1..] == rest[..k];
      assert RunChosen(MapAfter(m, runs[..k + 1]), hint, runs[k + 1]);
    }
  }

  lemma {:induction false} RunParts(m: Map, hint: nat, run: Run)
    requires RunChosen(m, hint, run)
    ensures m.Ok() && m.Chosen(hint, run.lsn) && m.TakenRun(run.lsn, run.count) && run.count > 0
  {
  }

  /** A file begins with the run chosen, and goes on with another chosen for the same
      hint. */
  lemma {:induction false} ChosenFirst(
      m: Map, free: Run, hint: nat, run: Run, runs: seq<Run>, was: seq<nat>, m': Map, now: seq<nat>, run': Run)
    requires RunChosen(m, hint, run) && |now| > |was|
    requires
      Supplied(m.With(run.lsn, run.count, false).With(free.lsn, free.count, true), run, runs, hint, was, m', now, run')
    ensures m.Ok() && m.Chosen(hint, now[|was|]) && ThenChosen(m, free, hint, |was|, now)
  {
    hide Supplied, Map.Chosen, Map.TakenRun, RunChosen, RunsChosen;
    var m1 := m.With(run.lsn, run.count, false).With(free.lsn, free.count, true);
    RunParts(m, hint, run);
    SupplyFirst(m1, run, runs, hint, was, m', now, run');
    if |now| > |was| + run.count {
      RunParts(m1, hint, runs[0]);
    }
    forall count: nat | m.TakenRun(now[|was|], count)
      ensures count == run.count
    {
      TakenAll(m, run.lsn, count, run.count);
      TakenAll(m, run.lsn, run.count, count);
    }
  }

  lemma {:induction false} SupplyPrefix(
      m: Map, run: Run, runs: seq<Run>, hint: nat, was: seq<nat>, m': Map, now: seq<nat>, run': Run)
    requires Supplied(m, run, runs, hint, was, m', now, run')
    ensures was <= now
    ensures |now| > |was| ==> run.count > 0 || |runs| > 0
  {
    hide RunsChosen, MapAfter;
  }

  lemma {:induction false} GrownGains(
      m: Map, run: Run, inUse: bool, hint: nat, was: seq<nat>, m': Map, now: seq<nat>, run': Run)
    requires Grown(m, run, inUse, hint, was, m', now, run') && m.Ok() && m'.Ok()
    requires run.count > 0 ==> run.lsn + run.count <= m.total
    ensures Gains(m, run, inUse, hint, was, m', now, run')
  {
    hide Supplied, RunChosen, Map.Chosen, Map.TakenRun, Released, ThenChosen, FreeAfterOne, Total;
    var m1: Map, run1: Run, runs: seq<Run> :|
      && Settled(m, run, inUse, hint, m1, run1) && Supplied(m1, run1, runs, hint, was, m', now, run')
      && Total(([run1] + runs)[..|runs|]) < |now| - |was|;
    SupplyPrefix(m1, run1, runs, hint, was, m', now, run');
    if |now| > |was| {
      if run.count > 0 && (!inUse || run.lsn == hint || forall l: nat :: !m.Free(l)) {
        SupplyFirst(m1, run1, runs, hint, was, m', now, run');
        if |now| > |was| + run.count {
          RunParts(m, hint, runs[0]);
        }
      } else if run.count > 0 {
        ChosenFirst(m, run, hint, run1, runs, was, m', now, run');
        SupplyReleased(m1, run1, runs, hint, was, m', now, run', run);
        OneRunFrees(m, run, hint, run1, runs, was, m', now, run');
      } else {
        SupplyFirst(m1, run1, runs, hint, was, m', now, run');
        Resupplied(m, run, runs, hint, was, m', now, run');
        var m2 := m.With(runs[0].lsn, runs[0].count, false);
        assert m2.With(run.lsn, 0, true) == m2;
        ChosenFirst(m, run, hint, runs[0], runs[1..], was, m', now, run');
        NothingReleased(m, m', |was|, now, run', run);
      }
    }
  }

  /** If the first run is enough no other is chosen. */
  lemma {:induction false} OneRunFrees(
      m: Map, free: Run, hint: nat, run: Run, runs: seq<Run>, was: seq<nat>, m': Map, now: seq<nat>, run': Run)
    requires RunChosen(m, hint, run) && |now| > |was| && free.lsn + free.count <= m.total && m'.Ok()
    requires
      Supplied(m.With(run.lsn, run.count, false).With(free.lsn, free.count, true), run, runs, hint, was, m', now, run')
    requires Total(([run] + runs)[..|runs|]) < |now| - |was|
    ensures m.Ok() && FreeAfterOne(m, m', |was|, now, free)
  {
    hide Map.Chosen, Map.TakenRun, RunsChosen, RunChosen;
    var m1 := m.With(run.lsn, run.count, false).With(free.lsn, free.count, true);
    RunParts(m, hint, run);
    SupplyFirst(m1, run, runs, hint, was, m', now, run');
    forall count: nat | m.TakenRun(now[|was|], count)
      ensures count == run.count
    {
      TakenAll(m, run.lsn, count, run.count);
      TakenAll(m, run.lsn, run.count, count);
    }
    if |runs| > 0 {
      var used := ([run] + runs)[..|runs|];
      assert [run] <= used && [run][..0] == [];
      TotalPrefix([run], used);
      assert Total([run]) == run.count;
    }
  }

  lemma {:induction false} NothingReleased(m: Map, m': Map, n: nat, now: seq<nat>, spare: Run, run: Run)
    requires m.Ok() && m'.Ok() && run.count == 0 && n < |now|
    ensures Released(m', now, spare, run) && FreeAfterOne(m, m', n, now, run)
  {
    hide Map.TakenRun;
  }

  lemma {:induction false} GrownAfter(
      m: Map, run: Run, dir: seq<Entry>, ix: Index, h: nat, was: seq<nat>, m': Map, now: seq<nat>, run': Run,
      extent: int)
    requires Grown(m, run, Tail(dir, ix, h) != [], Hint(dir, ix, h), was, m', now, run') && m.Ok() && m'.Ok()
    requires run.count > 0 ==> run.lsn + run.count <= m.total
    requires h in ix.chains && |ix.chains[h]| > 0 && Last(ix.chains[h]) < |dir|
    requires UsedTo(dir[Last(ix.chains[h])], extent)
    ensures Gains(m, run, extent >= 0, EndOf(dir[Last(ix.chains[h])], extent), was, m', now, run')
  {
    hide Grown, Gains, Tail, Hint;
    HintIs(dir, ix, h, extent);
    GrownGains(m, run, extent >= 0, Hint(dir, ix, h), was, m', now, run');
  }

  lemma {:induction false} GrewGains(
      m: Map, run: Run, dir: seq<Entry>, ix: Index, h: nat, was: seq<nat>, m': Map, now: seq<nat>, run': Run)
    requires Grew(m, run, dir, ix, h, was, m', now, run') && m.Ok() && m'.Ok()
    requires run.count > 0 ==> run.lsn + run.count <= m.total
    requires h in ix.chains && |ix.chains[h]| > 0 && Last(ix.chains[h]) < |dir|
    ensures FileGains(m, run, dir, ix, h, was, m', now, run')
  {
    hide Grown, Gains, Tail, Hint, UsedTo, EndOf, Map.Ok;
    var e := dir[Last(ix.chains[h])];
    if |now| == |was| {
      NothingGained(m, run, e, was);
    } else {
      forall extent: int | UsedTo(e, extent)
        ensures Gains(m, run, extent >= 0, EndOf(e, extent), was, m', now, run')
      {
        GrownAfter(m, run, dir, ix, h, was, m', now, run', extent);
      }
    }
  }

  lemma {:induction false} NothingGained(m: Map, run: Run, e: Entry, was: seq<nat>)
    requires m.Ok()
    ensures GainsAfter(m, run, e, was, m, was, run)
  {
    hide Map.Chosen, ThenChosen, Released;
  }

  /* How many extents a growing file begins. */

  /** The extent in hand: whether there is one, its sectors, and how many have been
      begun. */
  datatype Fill = Fill(inUse: bool, count: nat, begun: nat)

  /** Sectors of a run go in the extent if they follow the file and fit in it, and in
      a new one if not. */
  function FillRun(f: Fill, lsn: nat, used: nat, hint: nat): Fill {
    if !f.inUse || lsn != hint || f.count + used > MAX_EXTENT then Fill(true, used, f.begun + 1)
    else Fill(true, f.count + used, f.begun)
  }

  function Total(runs: seq<Run>): nat {
    if |runs| == 0 then 0 else Total(runs[..|runs| - 1]) + runs[|runs| - 1].count
  }

  /** As many sectors as are needed go in, from one run after the other. */
  function Filled(f: Fill, runs: seq<Run>, hint: nat, needed: nat): Fill {
    if |runs| == 0 then f
    else
      var before, run := runs[..|runs| - 1], runs[|runs| - 1];
      var g := Filled(f, before, hint, needed);
      var used := Min(run.count, needed - Min(needed, Total(before)));
      if used == 0 then g else FillRun(g, run.lsn, used, hint)
  }

  /** There are runs enough for the sectors needed, and extents enough for the runs. */
  ghost predicate RunsFit(m: Map, run: Run, f: Fill, hint: nat, slots: nat, needed: nat) {
    exists m1: Map, run1: Run, runs: seq<Run> ::
      && Settled(m, run, f.inUse, hint, m1, run1) && RunsChosen(m1, hint, runs)
      && Suffice(f, [run1] + runs, hint, slots, needed)
  }

  predicate Suffice(f: Fill, runs: seq<Run>, hint: nat, slots: nat, needed: nat) {
    Total(runs) >= needed && Filled(f, runs, hint, needed).begun <= f.begun + slots
  }

  lemma {:induction false} TotalPrefix(a: seq<Run>, b: seq<Run>)
    requires a <= b
    ensures Total(a) <= Total(b)
    decreases |b|
  {
    if |a| < |b| {
      TotalPrefix(a, b[..|b| - 1]);
    } else {
      assert a == b;
    }
  }

  lemma {:induction false} FilledPrefix(f: Fill, a: seq<Run>, b: seq<Run>, hint: nat, needed: nat)
    requires a <= b
    ensures Filled(f, a, hint, needed).begun <= Filled(f, b, hint, needed).begun
    decreases |b|
  {
    if |a| < |b| {
      FilledPrefix(f, a, b[..|b| - 1], hint, needed);
    } else {
      assert a == b;
    }
  }

  lemma {:induction false} RunOne(m: Map, hint: nat, a: Run, b: Run)
    requires RunChosen(m, hint, a) && RunChosen(m, hint, b)
    ensures a == b
  {
    hide Map.Chosen, Map.TakenRun;
    ChosenOne(m, hint, a.lsn, a.count, b.lsn, b.count);
  }

  /** The runs chosen are determined, one after the other. */
  lemma {:induction false} RunsAgree(m: Map, hint: nat, a: seq<Run>, b: seq<Run>, k: nat)
    requires RunsChosen(m, hint, a) && RunsChosen(m, hint, b) && k <= |a| && k <= |b|
    ensures a[..k] == b[..k]
  {
    hide MapAfter, RunChosen;
    if k > 0 {
      RunsAgree(m, hint, a, b, k - 1);
      var m1 := MapAfter(m, a[..k - 1]);
      assert RunChosen(m1, hint, a[k - 1]) && RunChosen(MapAfter(m, b[..k - 1]), hint, b[k - 1]);
      RunOne(m1, hint, a[k - 1], b[k - 1]);
      assert a[..k] == a[..k - 1] + [a[k - 1]] && b[..k] == b[..k - 1] + [b[k - 1]];
    }
  }

  lemma {:induction false} SettledOne(
      m: Map, run: Run, inUse: bool, hint: nat, m1: Map, run1: Run, m2: Map, run2: Run)
    requires Settled(m, run, inUse, hint, m1, run1) && Settled(m, run, inUse, hint, m2, run2)
    ensures m1 == m2 && run1 == run2
  {
    hide RunChosen;
    if inUse && run.count > 0 && run.lsn != hint && m.Ok() && exists l: nat :: m.Free(l) {
      RunOne(m, hint, run1, run2);
    }
  }

  /** Runs that suffice go on from those that were chosen, if these did not. */
  lemma {:induction false} MoreRuns(
      m: Map, run: Run, f: Fill, hint: nat, m1: Map, run1: Run, runs: seq<Run>, slots: nat, needed: nat)
    returns (more: seq<Run>)
    requires Settled(m, run, f.inUse, hint, m1, run1) && RunsChosen(m1, hint, runs)
    requires RunsFit(m, run, f, hint, slots, needed)
    ensures RunsChosen(m1, hint, more) && Suffice(f, [run1] + more, hint, slots, needed)
    ensures if |runs| <= |more| then runs <= more else more <= runs[..|runs| - 1]
  {
    hide Settled, RunsChosen, Suffice;
    var m2: Map, run2: Run, other: seq<Run> :|
      && Settled(m, run, f.inUse, hint, m2, run2) && RunsChosen(m2, hint, other)
      && Suffice(f, [run2] + other, hint, slots, needed);
    SettledOne(m, run, f.inUse, hint, m1, run1, m2, run2);
    more := other;
    var k := if |runs| <= |more| then |runs| else |more|;
    RunsAgree(m1, hint, runs, more, k);
    assert runs[..|runs|] == runs && more[..|more|] == more;
  }

  lemma {:induction false} RunsOf(
      m: Map, run: Run, runs: seq<Run>, hint: nat, was: seq<nat>, m': Map, now: seq<nat>, run': Run)
    requires Supplied(m, run, runs, hint, was, m', now, run')
    ensures RunsChosen(m, hint, runs) && m' == MapAfter(m, runs)
  {
  }

  lemma {:induction false} RunsThatFit(
      m: Map, run: Run, f: Fill, hint: nat, m1: Map, run1: Run, runs: seq<Run>, slots: nat, needed: nat)
    requires Settled(m, run, f.inUse, hint, m1, run1) && RunsChosen(m1, hint, runs)
    requires Suffice(f, [run1] + runs, hint, slots, needed)
    ensures RunsFit(m, run, f, hint, slots, needed)
  {
  }

  /** A file that needs a new extent when none is left cannot grow. */
  lemma {:induction false} NoExtentFits(
      m: Map, run: Run, f: Fill, hint: nat, m1: Map, run1: Run, runs: seq<Run>, slots: nat, needed: nat)
    requires Settled(m, run, f.inUse, hint, m1, run1) && RunsChosen(m1, hint, runs)
    requires
      var all := [run1] + runs;
      Total(all[..|all| - 1]) < needed && Filled(f, all, hint, needed).begun > f.begun + slots
    ensures !RunsFit(m, run, f, hint, slots, needed)
  {
    hide Settled, RunsChosen, Filled, Total;
    if RunsFit(m, run, f, hint, slots, needed) {
      var more := MoreRuns(m, run, f, hint, m1, run1, runs, slots, needed);
      var all, others := [run1] + runs, [run1] + more;
      if |runs| <= |more| {
        FilledPrefix(f, all, others, hint, needed);
      } else {
        assert others <= all[..|all| - 1];
        TotalPrefix(others, all[..|all| - 1]);
      }
      assert false;
    }
  }

  /** Nor one that needs more sectors when none is free. */
  lemma {:induction false} NoSectorFits(
      m: Map, run: Run, f: Fill, hint: nat, m1: Map, run1: Run, runs: seq<Run>, slots: nat, needed: nat)
    requires Settled(m, run, f.inUse, hint, m1, run1) && RunsChosen(m1, hint, runs)
    requires Total([run1] + runs) < needed
    requires MapAfter(m1, runs).Ok() && forall l: nat :: !MapAfter(m1, runs).Free(l)
    ensures !RunsFit(m, run, f, hint, slots, needed)
  {
    hide Settled, Filled, Total, MapAfter;
    if RunsFit(m, run, f, hint, slots, needed) {
      var more := MoreRuns(m, run, f, hint, m1, run1, runs, slots, needed);
      if |runs| < |more| {
        assert RunChosen(MapAfter(m1, more[..|runs|]), hint, more[|runs|]) && more[..|runs|] == runs;
        ChosenFree(MapAfter(m1, runs), hint, more[|runs|].lsn);
      } else {
        TotalPrefix([run1] + more, [run1] + runs);
      }
      assert false;
    }
  }

  /** The sectors of the last entry of a file. */
  function Tail(dir: seq<Entry>, ix: Index, h: nat): seq<nat> {
    if h in ix.chains && |ix.chains[h]| > 0 && Last(ix.chains[h]) < |dir| then
      ExtentSectors(dir[Last(ix.chains[h])].extents)
    else []
  }

  /** The sector that would continue a file. */
  function Hint(dir: seq<Entry>, ix: Index, h: nat): nat {
    var tail := Tail(dir, ix, h);
    if tail == [] then NO_HINT else tail[|tail| - 1] + 1
  }

  lemma {:induction false} HintIs(dir: seq<Entry>, ix: Index, h: nat, extent: int)
    requires h in ix.chains && |ix.chains[h]| > 0 && Last(ix.chains[h]) < |dir|
    requires UsedTo(dir[Last(ix.chains[h])], extent)
    ensures Tail(dir, ix, h) != [] <==> extent >= 0
    ensures Hint(dir, ix, h) == if extent < 0 then NO_HINT else End(dir[Last(ix.chains[h])].extents[extent])
  {
    hide ExtentSectors;
    var x := dir[Last(ix.chains[h])].extents;
    if extent < 0 {
      NoSectors(x);
    } else {
      ExtentSectorsAt(x, extent);
      NoSectors(x[extent + 1..]);
    }
  }

  /* Whether a file can grow. */

  /** How many extents of an entry are in use. */
  function InUse(x: seq<Extent>): (n: nat)
    ensures n <= |x|
  {
    if |x| == 0 || x[0].count == 0 then 0 else 1 + InUse(x[1..])
  }

  lemma {:induction false} InUseIs(x: seq<Extent>, n: nat)
    requires n <= |x| && (forall i: nat :: i < n ==> x[i].count > 0) && (n < |x| ==> x[n].count == 0)
    ensures InUse(x) == n
  {
    if n > 0 {
      InUseIs(x[1..], n - 1);
    }
  }

  function HandOf(x: seq<Extent>): Fill {
    Fill(InUse(x) > 0, if InUse(x) > 0 then x[InUse(x) - 1].count else 0, 0)
  }

  /** The extents that a file can begin, in its last entry and in continuations. */
  function SlotsFrom(dir: seq<Entry>, chain: Chain, extent: int): int requires |chain| > 0 && Last(chain) < |dir| {
    |dir[Last(chain)].extents| - extent - 1 + 7 * FreeEntries(dir)
  }

  /** The runs that the search gives hold the sectors needed, and take no more
      extents than the file can begin. */
  ghost predicate CanGrow(m: Map, run: Run, dir: seq<Entry>, ix: Index, h: nat, needed: nat) {
    needed > 0 ==>
      && h in ix.chains && |ix.chains[h]| > 0 && Last(ix.chains[h]) < |dir|
      && var x := dir[Last(ix.chains[h])].extents;
         RunsFit(m, run, HandOf(x), Hint(dir, ix, h), |x| - InUse(x) + 7 * FreeEntries(dir), needed)
  }

  lemma {:induction false} NothingNeeded(m: Map, run: Run, dir: seq<Entry>, ix: Index, h: nat)
    ensures CanGrow(m, run, dir, ix, h, 0)
  {
  }

  lemma {:induction false} CanGrowIs(
      m: Map, run: Run, dir: seq<Entry>, ix: Index, h: nat, extent: int, f: Fill, hint: nat, needed: nat)
    requires h in ix.chains && |ix.chains[h]| > 0 && Last(ix.chains[h]) < |dir| && needed > 0
    requires UsedTo(dir[Last(ix.chains[h])], extent) && hint == Hint(dir, ix, h)
    requires
      f == Fill(extent >= 0, if extent < 0 then 0 else dir[Last(ix.chains[h])].extents[extent].count, 0)
    ensures SlotsFrom(dir, ix.chains[h], extent) >= 0
    ensures CanGrow(m, run, dir, ix, h, needed) <==>
      RunsFit(m, run, f, hint, SlotsFrom(dir, ix.chains[h], extent), needed)
  {
    hide RunsFit, FreeEntries, Hint;
    InUseIs(dir[Last(ix.chains[h])].extents, extent + 1);
  }

  /** The runs but the last are used, or all of them are. */
  predicate Pending(f0: Fill, runs: seq<Run>, hint: nat, needed: nat, f: Fill, taken: nat, run: Run) {
    |runs| > 0 && runs[|runs| - 1] == run && Spent(f0, runs[..|runs| - 1], hint, needed, f, taken)
  }

  predicate Spent(f0: Fill, runs: seq<Run>, hint: nat, needed: nat, f: Fill, taken: nat) {
    f == Filled(f0, runs, hint, needed) && Total(runs) == taken
  }

  lemma {:induction false} NoneSpent(f: Fill, run: Run, hint: nat, needed: nat)
    ensures Pending(f, [run], hint, needed, f, 0, run)
    ensures run.count == 0 ==> Spent(f, [run], hint, needed, f, 0)
  {
    assert [run][..0] == [];
  }

  lemma {:induction false} RunSpent(
      f0: Fill, runs: seq<Run>, hint: nat, needed: nat, f: Fill, taken: nat, run: Run, used: nat)
    requires Pending(f0, runs, hint, needed, f, taken, run) && taken < needed
    requires used == Min(run.count, needed - taken) > 0
    ensures Filled(f0, runs, hint, needed) == FillRun(f, run.lsn, used, hint)
    ensures taken + used <= Total(runs) && (used == run.count ==> Total(runs) == taken + used)
  {
  }

  lemma {:induction false} RunPending(f0: Fill, runs: seq<Run>, hint: nat, needed: nat, f: Fill, taken: nat, run: Run)
    requires Spent(f0, runs, hint, needed, f, taken)
    ensures Pending(f0, runs + [run], hint, needed, f, taken, run)
  {
    assert (runs + [run])[..|runs|] == runs;
  }

  /* The search for sectors, from its beginning to where it is. */

  datatype Search = Search(
    m: Map, run: Run, hint: nat, f0: Fill, slots: nat, was: seq<nat>, needed: nat,
    m1: Map, run1: Run, runs: seq<Run>, f: Fill)

  /** Where it is: the map, the file's sectors, the run in hand, which is used if it is
      not pending, and the extents left. */
  ghost predicate Pursued(q: Search, m: Map, now: seq<nat>, run: Run, slotsLeft: int, pending: bool) {
    && Settled(q.m, q.run, q.f0.inUse, q.hint, q.m1, q.run1) && q.f0.begun == 0
    && Supplied(q.m1, q.run1, q.runs, q.hint, q.was, m, now, run) && |q.was| <= |now| < |q.was| + q.needed
    && q.f.begun + slotsLeft == q.slots
    && if pending then Pending(q.f0, [q.run1] + q.runs, q.hint, q.needed, q.f, |now| - |q.was|, run)
       else Spent(q.f0, [q.run1] + q.runs, q.hint, q.needed, q.f, |now| - |q.was|)
  }

  ghost predicate Pursuable(q: Search) { RunsFit(q.m, q.run, q.f0, q.hint, q.slots, q.needed) }

  lemma {:induction false} PursuitBegins(
      m: Map, run: Run, hint: nat, f: Fill, slots: nat, was: seq<nat>, needed: nat, m1: Map, run1: Run)
    requires Settled(m, run, f.inUse, hint, m1, run1) && f.begun == 0 && needed > 0
    ensures
      var q := Search(m, run, hint, f, slots, was, needed, m1, run1, [], f);
      Pursued(q, m1, was, run1, slots, true) && (run1.count == 0 ==> Pursued(q, m1, was, run1, slots, false))
  {
    hide Settled, Supplied, Pending, Spent;
    SupplyBegun(m1, run1, hint, was);
    NoneSpent(f, run1, hint, needed);
    assert [run1] + [] == [run1];
  }

  /** The run in hand is used, or the first of it that are still needed. */
  lemma {:induction false} PursuitUses(q: Search, m: Map, now: seq<nat>, run: Run, slotsLeft: int, used: nat)
    requires Pursued(q, m, now, run, slotsLeft, true) && used == Min(run.count, q.needed - (|now| - |q.was|)) > 0
    ensures
      var f := FillRun(q.f, run.lsn, used, q.hint);
      var now', run' := now + Range(run.lsn, used), Run(run.lsn + used, run.count - used);
      var left := slotsLeft - (f.begun - q.f.begun);
      && (left < 0 ==> !Pursuable(q))
      && (left >= 0 && |now'| == |q.was| + q.needed ==>
            Pursuable(q) && Grown(q.m, q.run, q.f0.inUse, q.hint, q.was, m, now', run'))
      && (|now'| < |q.was| + q.needed ==> run'.count == 0 && Pursued(q.(f := f), m, now', run', left, false))
  {
    hide Settled, Supplied, Filled, Total, FillRun, RunsFit, RunsChosen;
    var f := FillRun(q.f, run.lsn, used, q.hint);
    RunsOf(q.m1, q.run1, q.runs, q.hint, q.was, m, now, run);
    RunSpent(q.f0, [q.run1] + q.runs, q.hint, q.needed, q.f, |now| - |q.was|, run, used);
    SupplyUsed(q.m1, q.run1, q.runs, q.hint, q.was, m, now, run, used);
    RangeLength(run.lsn, used);
    if f.begun > q.f.begun + slotsLeft {
      NoExtentFits(q.m, q.run, q.f0, q.hint, q.m1, q.run1, q.runs, q.slots, q.needed);
    } else if |now| + used == |q.was| + q.needed {
      RunsThatFit(q.m, q.run, q.f0, q.hint, q.m1, q.run1, q.runs, q.slots, q.needed);
    }
  }

  lemma {:induction false} RangeLength(lsn: nat, n: nat)
    ensures |Range(lsn, n)| == n
  {
  }

  /** Another run is chosen. */
  lemma {:induction false} PursuitGoesOn(q: Search, m: Map, now: seq<nat>, run: Run, slotsLeft: int, next: Run)
    requires Pursued(q, m, now, run, slotsLeft, false) && run.count == 0 && RunChosen(m, q.hint, next)
    ensures Pursued(q.(runs := q.runs + [next]), m.With(next.lsn, next.count, false), now, next, slotsLeft, true)
  {
    hide Settled, Supplied, Pending, Spent, RunChosen, Map.With;
    SupplyMore(q.m1, q.run1, q.runs, q.hint, q.was, m, now, run, next);
    RunPending(q.f0, [q.run1] + q.runs, q.hint, q.needed, q.f, |now| - |q.was|, next);
    assert [q.run1] + (q.runs + [next]) == ([q.run1] + q.runs) + [next];
  }

  /** Or there is none. */
  lemma {:induction false} PursuitFails(q: Search, m: Map, now: seq<nat>, run: Run, slotsLeft: int)
    requires Pursued(q, m, now, run, slotsLeft, false) && m.Ok() && forall l: nat :: !m.Free(l)
    ensures !Pursuable(q)
  {
    hide Settled, Supplied, Filled, Total, RunsFit, RunsChosen;
    RunsOf(q.m1, q.run1, q.runs, q.hint, q.was, m, now, run);
    NoSectorFits(q.m, q.run, q.f0, q.hint, q.m1, q.run1, q.runs, q.slots, q.needed);
  }
}
