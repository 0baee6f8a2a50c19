/** A byte string kept in blocks of one length, in the order of a list of them:
    the sectors of a file, or its granules. */
module Blocks {
  import opened Bits

  /** What is written in each block. */
  type Data = seq<seq<Byte>>

  ghost predicate Blocked(data: Data, unit: nat) {
    unit > 0 && forall l: nat :: l < |data| ==> |data[l]| == unit
  }

  /** Blocks that there are, none of them twice. */
  ghost predicate Distinct(blocks: seq<nat>, count: nat) {
    && (forall i: nat :: i < |blocks| ==> blocks[i] < count)
    && forall i: nat, j: nat :: i < j < |blocks| ==> blocks[i] != blocks[j]
  }

  function FileByte(data: Data, unit: nat, blocks: seq<nat>, i: nat): Byte requires unit > 0 {
    ByteAt(data, blocks, i / unit, i % unit)
  }

  function ByteAt(data: Data, blocks: seq<nat>, n: nat, offset: nat): Byte {
    if n < |blocks| && blocks[n] < |data| && offset < |data[blocks[n]]| then data[blocks[n]][offset] else 0
  }

  function Part(data: Data, unit: nat, blocks: seq<nat>, start: nat, n: nat): (r: seq<Byte>) requires unit > 0
    ensures |r| == n
  {
    seq<Byte>(n, i requires 0 <= i => FileByte(data, unit, blocks, start + i))
  }

  function Content(data: Data, unit: nat, blocks: seq<nat>, size: nat): (r: seq<Byte>) requires unit > 0
    ensures |r| == size
  {
    seq<Byte>(size, i requires 0 <= i => FileByte(data, unit, blocks, i))
  }

  /** Bytes after a write into them: what is written there, and the rest as it
      was.  There may be a gap between where they ended and where it starts. */
  ghost predicate Wrote(was: seq<Byte>, start: nat, input: seq<Byte>, now: seq<Byte>) {
    var end := start + |input|;
    && |now| == (if end > |was| && input != [] then end else |was|)
    && (input != [] ==> now[start..end] == input)
    && forall i: nat :: i < |was| && !(start <= i < end) ==> now[i] == was[i]
  }

  /** A write that leaves no gap is a splice. */
  lemma {:induction false} WroteSplices(was: seq<Byte>, start: nat, input: seq<Byte>, now: seq<Byte>)
    requires start <= |was|
    ensures
      var end := start + |input|;
      Wrote(was, start, input, now) <==> now == was[..start] + input + was[if end < |was| then end else |was|..]
  {
    var end := start + |input|;
    var spliced := was[..start] + input + was[if end < |was| then end else |was|..];
    if Wrote(was, start, input, now) {
      forall i: nat | i < |now|
        ensures now[i] == spliced[i]
      {
        if start <= i < end {
          assert now[start..end][i - start] == now[i];
        }
      }
    }
  }

  lemma {:induction false} WroteNothing(was: seq<Byte>, start: nat)
    ensures Wrote(was, start, [], was)
  {
  }

  /* Addresses. */

  lemma {:induction false} Parts(unit: nat, i: nat)
    requires unit > 0
    ensures 0 <= i / unit && 0 <= i % unit < unit && i == i / unit * unit + i % unit
  {
  }

  lemma {:induction false} Address(unit: nat, n: nat, offset: nat)
    requires unit > 0 && offset < unit
    ensures (n * unit + offset) / unit == n && (n * unit + offset) % unit == offset
  {
    var i := n * unit + offset;
    var p, q := i / unit, i % unit;
    assert p * unit + q == n * unit + offset;
    if p < n {
      Ascend(unit, p, n);
    } else if n < p {
      Ascend(unit, n, p);
    }
  }

  lemma {:induction false} Ascend(unit: nat, p: nat, n: nat)
    requires p < n
    ensures p * unit + unit <= n * unit
  {
    assert (p + 1) * unit <= n * unit;
  }

  lemma {:induction false} SamePlace(unit: nat, position: nat, i: nat)
    requires unit > 0 && position % unit + i < unit
    ensures (position + i) / unit == position / unit && (position + i) % unit == position % unit + i
  {
    var n := position / unit;
    assert position == n * unit + position % unit;
    Address(unit, n, position % unit + i);
  }

  lemma {:induction false} InBlocks(unit: nat, i: nat, n: nat)
    requires unit > 0
    ensures i < n * unit <==> i / unit < n
  {
    var p := i / unit;
    assert i == p * unit + i % unit;
    if p < n {
      Ascend(unit, p, n);
    } else if n < p {
      Ascend(unit, n, p);
    }
  }

  /** Which bytes a chunk within one block has. */
  lemma {:induction false} InChunk(unit: nat, position: nat, length: nat, i: nat)
    requires unit > 0 && position % unit + length <= unit
    ensures position <= i < position + length <==>
      i / unit == position / unit && position % unit <= i % unit < position % unit + length
    ensures i / unit == position / unit ==> i - position == i % unit - position % unit
  {
    var n, p := position / unit, i / unit;
    Parts(unit, i);
    Parts(unit, position);
    if p < n {
      Ascend(unit, p, n);
    } else if n < p {
      Ascend(unit, n, p);
    }
    ChunkPlaces(unit, n * unit, position % unit, length, p * unit, i % unit);
  }

  /** The same when the starts of the blocks are known. */
  lemma {:induction false} ChunkPlaces(unit: nat, a: nat, q: nat, length: nat, b: nat, r: nat)
    requires q + length <= unit && q < unit && r < unit && (a == b || a + unit <= b || b + unit <= a)
    ensures a + q <= b + r < a + q + length <==> a == b && q <= r < q + length
  {
  }

  /* Reading. */

  lemma {:induction false} PartMore(data: Data, unit: nat, blocks: seq<nat>, start: nat, m: nat, n: nat)
    requires unit > 0
    ensures Part(data, unit, blocks, start, m) + Part(data, unit, blocks, start + m, n)
      == Part(data, unit, blocks, start, m + n)
  {
  }

  lemma {:induction false} PartOf(data: Data, unit: nat, blocks: seq<nat>, start: nat, n: nat, size: nat)
    requires unit > 0 && start + n <= size
    ensures Part(data, unit, blocks, start, n) == Content(data, unit, blocks, size)[start..start + n]
  {
  }

  /** Bytes read from one block. */
  lemma {:induction false} BlockRead(data: Data, unit: nat, blocks: seq<nat>, position: nat, chunk: nat)
    requires Blocked(data, unit) && Distinct(blocks, |data|)
    requires position / unit < |blocks| && position % unit + chunk <= unit
    ensures
      var block := blocks[position / unit];
      var offset := position % unit;
      && block < |data| && |data[block]| == unit
      && data[block][offset..offset + chunk] == Part(data, unit, blocks, position, chunk)
  {
    var n, offset := position / unit, position % unit;
    var read, part := data[blocks[n]][offset..offset + chunk], Part(data, unit, blocks, position, chunk);
    forall i: nat | i < chunk
      ensures read[i] == part[i]
    {
      SamePlace(unit, position, i);
      assert part[i] == FileByte(data, unit, blocks, position + i) == data[blocks[n]][offset + i];
    }
  }

  lemma {:induction false} BytePrefix(data: Data, unit: nat, a: seq<nat>, b: seq<nat>, i: nat)
    requires unit > 0 && a <= b && i / unit < |a|
    ensures FileByte(data, unit, a, i) == FileByte(data, unit, b, i)
  {
  }

  lemma {:induction false} ContentPrefix(data: Data, unit: nat, a: seq<nat>, b: seq<nat>, m: nat, n: nat)
    requires unit > 0 && a <= b && m <= |a| * unit && m <= n
    ensures Content(data, unit, a, m) == Content(data, unit, b, n)[..m]
  {
    hide FileByte;
    forall i: nat | i < m
      ensures Content(data, unit, a, m)[i] == Content(data, unit, b, n)[i]
    {
      InBlocks(unit, i, |a|);
      BytePrefix(data, unit, a, b, i);
    }
  }

  ghost predicate SameBytes(data: Data, data': Data, blocks: seq<nat>) {
    |data'| == |data| && forall i: nat :: i < |blocks| && blocks[i] < |data| ==> data'[blocks[i]] == data[blocks[i]]
  }

  lemma {:induction false} ContentSame(data: Data, data': Data, unit: nat, blocks: seq<nat>, size: nat)
    requires unit > 0 && SameBytes(data, data', blocks)
    ensures Content(data', unit, blocks, size) == Content(data, unit, blocks, size)
  {
  }

  /* Writing. */

  lemma {:induction false} TakeMore<T>(s: seq<T>, done: nat, n: nat)
    requires done + n <= |s|
    ensures s[..done] + s[done..done + n] == s[..done + n]
  {
  }

  /** Some of the bytes of a write are in the blocks. */
  ghost predicate Written(data: Data, data': Data, unit: nat, blocks: seq<nat>, start: nat, part: seq<Byte>)
    requires unit > 0
  {
    forall i: nat :: i / unit < |blocks| ==>
      FileByte(data', unit, blocks, i) ==
        if start <= i < start + |part| then part[i - start] else FileByte(data, unit, blocks, i)
  }

  /** No other block has been written. */
  ghost predicate OnlyBlocks(data: Data, data': Data, blocks: seq<nat>) {
    |data'| == |data| && forall l: nat :: l < |data| && l !in blocks ==> data'[l] == data[l]
  }

  lemma {:induction false} NothingWritten(data: Data, unit: nat, blocks: seq<nat>, start: nat)
    requires unit > 0
    ensures Written(data, data, unit, blocks, start, []) && OnlyBlocks(data, data, blocks)
  {
  }

  /** Bytes written in one block. */
  lemma {:induction false} BlockWritten(
      data: Data, data1: Data, unit: nat, blocks: seq<nat>, start: nat, part: seq<Byte>, more: seq<Byte>)
    requires Blocked(data1, unit) && Distinct(blocks, |data1|) && Written(data, data1, unit, blocks, start, part)
    requires OnlyBlocks(data, data1, blocks)
    requires
      var position := start + |part|;
      position / unit < |blocks| && position % unit + |more| <= unit
    ensures
      var position := start + |part|;
      var offset := position % unit;
      var block := blocks[position / unit];
      && block < |data1| && |data1[block]| == unit
      && var data2 := data1[block := data1[block][..offset] + more + data1[block][offset + |more|..]];
         && Blocked(data2, unit) && OnlyBlocks(data, data2, blocks)
         && Written(data, data2, unit, blocks, start, part + more)
  {
    var position := start + |part|;
    var n, offset := position / unit, position % unit;
    var block := blocks[n];
    var data2 := data1[block := data1[block][..offset] + more + data1[block][offset + |more|..]];
    forall i: nat | i / unit < |blocks|
      ensures FileByte(data2, unit, blocks, i) ==
        if start <= i < start + |part + more| then (part + more)[i - start] else FileByte(data, unit, blocks, i)
    {
      ByteWritten(data1, data2, unit, blocks, position, more, i);
    }
  }

  lemma {:induction false} ByteWritten(
      data: Data, data': Data, unit: nat, blocks: seq<nat>, position: nat, more: seq<Byte>, i: nat)
    requires unit > 0 && Blocked(data, unit) && Distinct(blocks, |data|)
    requires position / unit < |blocks| && position % unit + |more| <= unit && i / unit < |blocks|
    requires
      var offset := position % unit;
      var block := blocks[position / unit];
      data' == data[block := data[block][..offset] + more + data[block][offset + |more|..]]
    ensures FileByte(data', unit, blocks, i) ==
      if position <= i < position + |more| then more[i - position] else FileByte(data, unit, blocks, i)
  {
    hide Blocked, Distinct, ByteAt;
    Parts(unit, position);
    Parts(unit, i);
    InChunk(unit, position, |more|, i);
    PlaceWritten(data, data', unit, blocks, position / unit, position % unit, more, i / unit, i % unit);
  }

  lemma {:induction false} PlaceWritten(
      data: Data, data': Data, unit: nat, blocks: seq<nat>, n: nat, offset: nat, more: seq<Byte>, p: nat, q: nat)
    requires Blocked(data, unit) && Distinct(blocks, |data|)
    requires n < |blocks| && p < |blocks| && offset + |more| <= unit && q < unit
    requires data' == data[blocks[n] := data[blocks[n]][..offset] + more + data[blocks[n]][offset + |more|..]]
    ensures ByteAt(data', blocks, p, q) ==
      if p == n && offset <= q < offset + |more| then more[q - offset] else ByteAt(data, blocks, p, q)
  {
    if p == n {
      ByteInBlock(data[blocks[n]], offset, more, q);
    } else {
      assert blocks[p] != blocks[n];
    }
  }

  lemma {:induction false} ByteInBlock(block: seq<Byte>, offset: nat, more: seq<Byte>, q: nat)
    requires offset + |more| <= |block| && q < |block|
    ensures (block[..offset] + more + block[offset + |more|..])[q] ==
      if offset <= q < offset + |more| then more[q - offset] else block[q]
  {
  }

  /** All of a write, into blocks that the string may have grown by. */
  lemma {:induction false} WholeWritten(
      data: Data, data': Data, unit: nat, blocks0: seq<nat>, blocks: seq<nat>, size0: nat, start: nat, input: seq<Byte>)
    requires unit > 0 && blocks0 <= blocks && size0 <= |blocks0| * unit
    requires Written(data, data', unit, blocks, start, input)
    requires input != [] && start + |input| <= |blocks| * unit
    ensures
      var size := if start + |input| > size0 then start + |input| else size0;
      Wrote(Content(data, unit, blocks0, size0), start, input, Content(data', unit, blocks, size))
  {
    hide FileByte;
    var size := if start + |input| > size0 then start + |input| else size0;
    var now := Content(data', unit, blocks, size);
    forall i: nat | i < |input|
      ensures now[start..start + |input|][i] == input[i]
    {
      InBlocks(unit, start + i, |blocks|);
      assert now[start + i] == FileByte(data', unit, blocks, start + i);
    }
    assert now[start..start + |input|] == input;
    forall i: nat | i < size0 && !(start <= i < start + |input|)
      ensures now[i] == Content(data, unit, blocks0, size0)[i]
    {
      InBlocks(unit, i, |blocks0|);
      PrefixByte(data, unit, blocks0, blocks, i);
      assert now[i] == FileByte(data', unit, blocks, i);
    }
  }

  lemma {:induction false} PrefixByte(data: Data, unit: nat, a: seq<nat>, b: seq<nat>, i: nat)
    requires unit > 0 && a <= b && i / unit < |a|
    ensures FileByte(data, unit, a, i) == FileByte(data, unit, b, i) && i / unit < |b|
  {
  }
}
