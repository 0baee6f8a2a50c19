/** An archive: compressed members one after the other, each behind a header,
    written by one compressor and read by one decompressor as ar does. */
module Archive {
  import opened Bits
  import opened Packing
  import opened Layout
  import opened Lzw
  import opened Codec
  import opened LzwTheorems
  import Compressor
  import Decompressor

  /** A member of an archive: the string, what the buffer held when it was written,
      where it starts and how long it is. */
  datatype Member = Member(x: seq<Byte>, bits: seq<bool>, start: nat, size: nat)

  ghost predicate Lies(file: seq<Byte>, m: Member, maxBits: nat) {
    && Restorable(m.x, maxBits) && |m.bits| == BUFFER_BITS
    && StoredAt(m.x, maxBits, m.bits, file, m.start) && m.size == |Compressed(m.x, maxBits, m.bits)|
  }

  /** What comes after a member leaves it where it is. */
  lemma {:induction false} StillLies(file: seq<Byte>, more: seq<Byte>, m: Member, maxBits: nat)
    requires Lies(file, m, maxBits)
    ensures Lies(file + more, m, maxBits)
  {
    hide Compressed;
    var c := Compressed(m.x, maxBits, m.bits);
    assert (file + more)[m.start..m.start + |c|] == file[m.start..m.start + |c|];
  }

  /** Members and the headers between them fill the file. */
  ghost predicate Filled(file: seq<Byte>, headers: seq<seq<Byte>>, members: seq<Member>, maxBits: nat) {
    && |members| <= |headers|
    && (forall k: nat :: k < |members| ==> Lies(file, members[k], maxBits))
    && (forall k: nat :: k < |members| ==> members[k].start == EndOf(members, k) + |headers[k]|)
    && |file| == EndOf(members, |members|)
  }

  /** Where the members up to one end. */
  function EndOf(members: seq<Member>, k: nat): nat requires k <= |members| {
    if k == 0 then 0 else members[k - 1].start + members[k - 1].size
  }

  lemma {:induction false} FilledMore(
      file: seq<Byte>, headers: seq<seq<Byte>>, members: seq<Member>, x: seq<Byte>, bits: seq<bool>, maxBits: nat)
    requires Filled(file, headers, members, maxBits) && |members| < |headers|
    requires Restorable(x, maxBits) && |bits| == BUFFER_BITS
    ensures
      var before := file + headers[|members|];
      var w := Compress(x, maxBits, bits, before);
      && w.count == |w.out| - |before| >= 0
      && Filled(w.out, headers, members + [Member(x, bits, |before|, w.count)], maxBits)
  {
    hide Compress, Compressed, StoredAt, Lies, Filled;
    var before := file + headers[|members|];
    var w := Compress(x, maxBits, bits, before);
    CompressAppends(x, maxBits, bits, before);
    CountsWhatItWrites(x, maxBits, bits, before);
    StoredWhereWritten(x, maxBits, bits, before, []);
    assert w.out + [] == w.out;
    var c := Compressed(x, maxBits, bits);
    assert w.out == file + (headers[|members|] + c);
    var m := Member(x, bits, |before|, w.count);
    NowLies(w.out, m, maxBits);
    FilledWith(file, headers, members, headers[|members|] + c, m, maxBits);
  }

  lemma {:induction false} EndOfMore(members: seq<Member>, m: Member, k: nat)
    requires k <= |members|
    ensures EndOf(members + [m], k) == EndOf(members, k)
    ensures EndOf(members + [m], |members| + 1) == m.start + m.size
  {
  }

  lemma {:induction false} FilledWith(
      file: seq<Byte>, headers: seq<seq<Byte>>, members: seq<Member>, more: seq<Byte>, m: Member, maxBits: nat)
    requires Filled(file, headers, members, maxBits) && |members| < |headers| && Lies(file + more, m, maxBits)
    requires m.start == |file| + |headers[|members|]| && m.size == |more| - |headers[|members|]|
    ensures Filled(file + more, headers, members + [m], maxBits)
  {
    hide Lies, EndOf;
    var all := members + [m];
    EndOfMore(members, m, |members|);
    forall k: nat | k < |all|
      ensures Lies(file + more, all[k], maxBits) && all[k].start == EndOf(all, k) + |headers[k]|
    {
      EndOfMore(members, m, k);
      if k < |members| {
        StillLies(file, more, members[k], maxBits);
      }
    }
  }

  lemma {:induction false} NowLies(file: seq<Byte>, m: Member, maxBits: nat)
    requires Restorable(m.x, maxBits) && |m.bits| == BUFFER_BITS
    requires StoredAt(m.x, maxBits, m.bits, file, m.start) && m.size == |Compressed(m.x, maxBits, m.bits)|
    ensures Lies(file, m, maxBits)
  {
  }

  /** Sizes after which the reader is ready for the next member. */
  predicate Good(size: nat, maxBits: nat) { size != 299 || maxBits == 9 }

  /** One member read by an idle reader at its start. */
  lemma {:induction false} MemberRead(r: Reader, file: seq<Byte>, m: Member, maxBits: nat)
    requires Lies(file, m, maxBits) && Idle(r) && r.pos == m.start
    ensures
      var res := Decode(r, file, m.size, maxBits);
      && res.outcome == Ended && res.out == m.x && res.reader.pos == m.start + m.size
      && BufferOk(res.reader) && (Good(m.size, maxBits) ==> Idle(res.reader))
  {
    hide Decode, Compressed, LongestOf, Capacity, Pow2, StoredAt;
    RoundTripBounded(m.x, maxBits, m.bits, r, file);
    Capacities();
    StackBound(|m.x|, Capacity(maxBits));
    IdleAfterMember(m.x, maxBits, m.bits, r, file);
  }

  /** Add files to a new archive, and take them out of it: they come back, and the
      archive is read to its end, unless a member before the last is of a size after
      which the reader is not ready. */
  method StoreAndRestore(inputs: seq<seq<Byte>>, headers: seq<seq<Byte>>, maxBits: nat)
    returns (archive: seq<Byte>, sizes: seq<nat>, outputs: seq<seq<Byte>>, end: nat, ghost members: seq<Member>)
    requires |headers| == |inputs| && ValidMax(maxBits)
    requires forall k: nat :: k < |inputs| ==> Restorable(inputs[k], maxBits)
    ensures |sizes| == |outputs| == |members| == |inputs| && Filled(archive, headers, members, maxBits)
    ensures forall k: nat :: k < |inputs| ==> members[k].x == inputs[k] && sizes[k] == members[k].size
    ensures (forall k: nat :: k < |inputs| - 1 ==> Good(sizes[k], maxBits)) ==> outputs == inputs && end == |archive|
  {
    hide Filled;
    archive, sizes, members := StoreAll(inputs, headers, maxBits);
    outputs, end := RestoreAll(archive, headers, sizes, maxBits, members);
    FilledEnds(archive, headers, members, maxBits);
    if forall k: nat :: k < |inputs| - 1 ==> Good(sizes[k], maxBits) {
      assert forall k: nat :: k < |inputs| ==> outputs[k] == members[k].x == inputs[k];
      assert outputs == inputs;
    }
  }

  /** add_files, of files that are compressed. */
  method StoreAll(inputs: seq<seq<Byte>>, headers: seq<seq<Byte>>, maxBits: nat)
    returns (archive: seq<Byte>, sizes: seq<nat>, ghost members: seq<Member>)
    requires |headers| == |inputs| && ValidMax(maxBits)
    requires forall k: nat :: k < |inputs| ==> Restorable(inputs[k], maxBits)
    ensures |sizes| == |members| == |inputs| && Filled(archive, headers, members, maxBits)
    ensures forall k: nat :: k < |inputs| ==> members[k].x == inputs[k] && sizes[k] == members[k].size
  {
    hide Filled, Compress;
    var c := new Compressor.Compressor(maxBits);
    sizes, members := [], [];
    NoneFilled(headers, maxBits);
    var i := 0;
    while i < |inputs|
      invariant i == |sizes| == |members| <= |inputs| && c.Valid() && c.maxBits == maxBits && c.offset == 0
      invariant fresh(c) && fresh(c.buf) && fresh(c.compTbl)
      invariant Filled(c.outfile, headers, members, maxBits)
      invariant forall k: nat :: k < i ==> members[k].x == inputs[k] && sizes[k] == members[k].size
    {
      FilledMore(c.outfile, headers, members, inputs[i], Flatten(c.buf[..]), maxBits);
      c.outfile := c.outfile + headers[i];
      ghost var bits, start := Flatten(c.buf[..]), |c.outfile|;
      var bytes := c.LZ1(inputs[i]);
      members := members + [Member(inputs[i], bits, start, bytes)];
      sizes := sizes + [bytes];
      i := i + 1;
    }
    archive := c.outfile;
  }

  lemma {:induction false} NoneFilled(headers: seq<seq<Byte>>, maxBits: nat)
    ensures Filled([], headers, [], maxBits)
  {
  }

  lemma {:induction false} FilledEnds(
      file: seq<Byte>, headers: seq<seq<Byte>>, members: seq<Member>, maxBits: nat)
    requires Filled(file, headers, members, maxBits)
    ensures |file| == EndOf(members, |members|)
  {
  }

  lemma {:induction false} FilledAt(
      file: seq<Byte>, headers: seq<seq<Byte>>, members: seq<Member>, maxBits: nat, k: nat)
    requires Filled(file, headers, members, maxBits) && k < |members|
    ensures Lies(file, members[k], maxBits) && k < |headers|
    ensures members[k].start == EndOf(members, k) + |headers[k]|
    ensures EndOf(members, k + 1) == members[k].start + members[k].size
  {
  }

  /** The extraction of every member of an archive: each goes to a file of its
      own. */
  method RestoreAll(
      archive: seq<Byte>, headers: seq<seq<Byte>>, sizes: seq<nat>, maxBits: nat, ghost members: seq<Member>)
    returns (outputs: seq<seq<Byte>>, end: nat)
    requires |headers| == |sizes| == |members| && ValidMax(maxBits) && Filled(archive, headers, members, maxBits)
    requires forall k: nat :: k < |sizes| ==> sizes[k] == members[k].size
    ensures |outputs| == |sizes|
    ensures forall k: nat :: k < |sizes| && GoodTo(sizes, k, maxBits) ==> outputs[k] == members[k].x
    ensures GoodTo(sizes, |sizes| - 1, maxBits) ==> end == EndOf(members, |members|)
  {
    hide Filled, Lies, Decode, EndOf;
    var d := new Decompressor.Decompressor(maxBits, archive, 0);
    outputs := [];
    assert EndOf(members, 0) == 0 by { EndOfNone(members); }
    var i := 0;
    while i < |sizes|
      invariant i == |outputs| <= |sizes| && d.Valid() && d.maxBits == maxBits && d.infile == archive
      invariant fresh(d) && fresh(d.buf) && fresh(d.crakTbl)
      invariant GoodTo(sizes, i, maxBits) ==> Idle(d.State())
      invariant GoodTo(sizes, i - 1, maxBits) ==> d.pos == EndOf(members, i)
      invariant forall k: nat :: k < i && GoodTo(sizes, k, maxBits) ==> outputs[k] == members[k].x
    {
      FilledAt(archive, headers, members, maxBits, i);
      d.pos := d.pos + |headers[i]|;
      d.outfile := [];
      if GoodTo(sizes, i, maxBits) {
        MemberRead(d.State(), archive, members[i], maxBits);
      }
      var _ := d.DeLZ1(sizes[i]);
      outputs := outputs + [d.outfile];
      i := i + 1;
    }
    end := d.pos;
  }

  predicate GoodTo(sizes: seq<nat>, i: int, maxBits: nat) {
    forall k: nat :: k < i && k < |sizes| ==> Good(sizes[k], maxBits)
  }

  lemma {:induction false} EndOfNone(members: seq<Member>)
    ensures EndOf(members, 0) == 0
  {
  }
}
