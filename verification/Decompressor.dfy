/** de_LZ_1 and the state it works on.  infile is the archive and pos how far it
    has been read; size is getcode's static variable. */
module Decompressor {
  import opened Bits
  import opened Packing
  import opened Layout
  import opened Lzw
  import opened Words
  import opened Codec

  /** An entry of the decoder's table: CrakTbl. */
  datatype Link = Link(prefix: nat, lastch: nat)

  function Reverse(s: seq<Byte>): (r: seq<Byte>)
    ensures |r| == |s|
  {
    if |s| == 0 then [] else [s[|s| - 1]] + Reverse(s[..|s| - 1])
  }

  class Decompressor {
    const maxBits: nat
    const infile: seq<Byte>
    const buf: array<Word>
    const crakTbl: array<Link>
    var nBits: nat
    var maxCode: nat
    var freeEnt: nat
    var offset: nat
    var size: int
    var lzBytes: int
    var pos: nat
    var outfile: seq<Byte>
    ghost var dict: Dict   // the entries of crakTbl

    ghost predicate Valid()
      reads this, buf
    {
      && ValidMax(maxBits) && buf.Length == BUFFER_WORDS && crakTbl.Length == Pow2(maxBits)
      && size <= 8 * MAX_BITS
    }

    /** The reader of the specification. */
    ghost function State(): Reader
      reads this, buf
    {
      Reader(nBits, maxCode, offset, size, Flatten(buf[..]), lzBytes, pos)
    }

    ghost predicate Table()
      reads this, crakTbl
    {
      && ValidMax(maxBits)
      && freeEnt == 256 + |dict| <= 256 + Capacity(maxBits) <= crakTbl.Length
      && (forall b :: 0 <= b < 256 ==> crakTbl[b].lastch == b)
      && (forall k :: 0 <= k < |dict| ==> crakTbl[256 + k] == Link(dict[k].prefix, dict[k].last))
    }

    constructor (maxBits: nat, infile: seq<Byte>, pos: nat)
      requires ValidMax(maxBits)
      ensures Valid() && this.maxBits == maxBits && this.infile == infile && this.pos == pos
      ensures offset == size == 0 && outfile == [] && fresh(buf) && fresh(crakTbl)
    {
      this.maxBits := maxBits;
      this.infile := infile;
      this.pos := pos;
      buf := new Word[BUFFER_WORDS](i => seq(WSIZE, j => false));
      crakTbl := new Link[Pow2(maxBits)](i => Link(0, 0));
      nBits, maxCode, freeEnt, offset, size, lzBytes := 0, 0, 0, 0, 0, 0;
      outfile := [];
      dict := [];
    }

    /** lz1_init for decompression: offset and size stay as they are. */
    method Init()
      requires Valid()
      modifies this`nBits, this`maxCode, this`freeEnt, this`dict, crakTbl
      ensures Table() && dict == [] && nBits == INIT_BITS && maxCode == MaxCode(INIT_BITS)
    {
      Widths(maxBits);
      nBits := INIT_BITS;
      maxCode := MaxCode(nBits);
      freeEnt := 0;
      while freeEnt < 256
        invariant freeEnt <= 256 && nBits == INIT_BITS && maxCode == MaxCode(INIT_BITS)
        invariant forall b :: 0 <= b < freeEnt ==> crakTbl[b].lastch == b
      {
        crakTbl[freeEnt] := Link(0, freeEnt);
        freeEnt := freeEnt + 1;
      }
      dict := [];
    }

    /** readbuf */
    method ReadBuffer(count: nat) returns (ok: bool)
      requires Valid() && count <= MAX_BITS
      modifies this`pos, buf
      ensures ok == (old(pos) + count <= |infile|)
      ensures ok ==> pos == old(pos) + count
      ensures ok ==> Flatten(buf[..]) == Fill(old(Flatten(buf[..])), infile[old(pos)..old(pos) + count])
      ensures !ok ==> buf[..] == old(buf[..]) && pos == if old(pos) > |infile| then old(pos) else |infile|
    {
      hide ToBits, Flatten, Fill;
      if pos + count > |infile| {
        pos := if pos > |infile| then pos else |infile|;
        return false;
      }
      var smallBuf := infile[pos..pos + count];
      ghost var words := buf[..];
      pos := pos + count;
      var i := 0;
      while i < count / 2
        invariant i <= count / 2 && pos == old(pos) + count
        invariant forall k :: 0 <= k < i ==> buf[k] == ToBits(smallBuf[2 * k], 8) + ToBits(smallBuf[2 * k + 1], 8)
        invariant buf[i..] == words[i..]
      {
        buf[i] := JoinBytes(smallBuf[2 * i], smallBuf[2 * i + 1]);
        i := i + 1;
      }
      if count % 2 == 1 {
        buf[i] := Shl(ToBits(smallBuf[count - 1], WSIZE), 8);
        ShiftedByte(smallBuf[count - 1]);
      }
      FilledWords(words, buf[..], smallBuf);
      ok := true;
    }

    /** fetch */
    method Fetch() returns (code: nat)
      requires Valid() && ReaderOk(State()) && offset + nBits <= BUFFER_BITS
      ensures code == FromBits(Flatten(buf[..])[offset..offset + nBits])
    {
      hide Flatten, FromBits, And, Or, Shl, Shr, LowMask, Pow2, MaxCode;
      var i, wOffset := offset / WSIZE, offset % WSIZE;
      var t1 := wOffset + nBits;
      var t2: Word;
      if t1 <= WSIZE {
        t2 := Shr(buf[i], WSIZE - t1);
      } else {
        t2 := Shl(buf[i], t1 - WSIZE);
        t2 := Or(t2, Shr(buf[i + 1], 2 * WSIZE - t1));
      }
      code := FromBits(And(t2, LowMask(nBits)));
      FetchBits(buf[..], offset, nBits);
    }

    /** The part of getcode that reads the next group. */
    method NextGroup() returns (ok: bool)
      requires Valid() && ReaderOk(State())
      modifies this`offset, this`size, this`lzBytes, this`pos, buf
      ensures Valid() && (State(), ok) == Refill(old(State()), infile)
    {
      hide Flatten, Fill, Pow2;
      if lzBytes <= 0 {
        return false;
      }
      size := if lzBytes > nBits then nBits else lzBytes;
      ok := ReadBuffer(size);
      if ok {
        lzBytes := lzBytes - size;
        offset := 0;
        size := 8 * size - (nBits - 1);
      }
    }

    /** getcode */
    method GetCode() returns (code: int)
      requires Valid() && ReaderOk(State()) && (freeEnt > maxCode ==> nBits < MAX_BITS)
      modifies this`nBits, this`maxCode, this`offset, this`size, this`lzBytes, this`pos, buf
      ensures Valid() && (State(), code) == Packing.GetCode(old(State()), infile, freeEnt, maxBits)
    {
      hide Flatten, Fill, FromBits, Pow2, MaxCode, Refill;
      if offset >= size || freeEnt > maxCode {
        if freeEnt > maxCode {
          nBits := nBits + 1;
          maxCode := if nBits == maxBits then MaxCode(maxBits) else MaxCode(nBits);
        }
        assert State() == Widen(old(State()), freeEnt, maxBits);
        var ok := NextGroup();
        if !ok {
          return -1;
        }
      }
      code := Fetch();
      offset := offset + nBits;
    }

    /** Follow the links of a code, pushing the last byte of each phrase, down to
        its first byte, which is left on top.  False where the original would go
        on past the end of the stack or from an entry not written yet. */
    method PushPhrase(stack: array<Byte>, start: nat, first: nat) returns (ok: bool, stackp: nat, finchar: Byte)
      requires Valid() && Table() && stack.Length == MAXSTACK && start <= 1
      modifies stack
      ensures
        var rest := Reverse(old(stack[..start]));
        match Walk(dict, first, MAXSTACK - start)
        case None => !ok
        case Some(t) => ok && 0 < stackp <= MAXSTACK && Reverse(stack[..stackp]) == t + rest && finchar == t[0]
    {
      hide Walk, Reverse, Pow2, Capacity;
      ghost var rest := Reverse(stack[..start]);
      ghost var goal := Walk(dict, first, MAXSTACK - start);
      var code: nat := first;
      stackp, finchar := start, 0;
      WalkSome(dict, first, MAXSTACK - start);
      while code >= 256
        invariant start <= stackp <= MAXSTACK
        invariant Unwound(goal, Walk(dict, code, MAXSTACK - stackp), rest, stack[..stackp])
        decreases MAXSTACK - stackp
      {
        WalkStops(dict, code, MAXSTACK - stackp);
        if stackp == MAXSTACK || code >= freeEnt {
          return false, stackp, finchar;
        }
        var link := crakTbl[code];
        assert link == Link(dict[code - 256].prefix, dict[code - 256].last);
        PushByte(goal, dict, code, MAXSTACK - stackp, rest, stack[..stackp]);
        stack[stackp] := link.lastch;
        stackp := stackp + 1;
        assert stack[..stackp] == stack[..stackp - 1] + [dict[code - 256].last];
        code := link.prefix;
      }
      WalkStops(dict, code, MAXSTACK - stackp);
      if stackp == MAXSTACK {
        return false, stackp, finchar;
      }
      finchar := crakTbl[code].lastch;
      stack[stackp] := finchar;
      stackp := stackp + 1;
      ok := true;
      assert stack[..stackp] == stack[..stackp - 1] + [code];
      PushFirst(goal, dict, code, MAXSTACK - (stackp - 1), rest, stack[..stackp - 1]);
    }

    /** Write out the stack, the byte on top first. */
    method PopPhrase(stack: array<Byte>, top: nat)
      requires 0 < top <= stack.Length
      modifies this`outfile
      ensures outfile == old(outfile) + Reverse(stack[..top])
    {
      var stackp := top;
      ghost var goal := outfile + Reverse(stack[..top]);
      while stackp > 0
        invariant stackp <= top && goal == outfile + Reverse(stack[..stackp])
      {
        assert stack[..stackp][..stackp - 1] == stack[..stackp - 1];
        stackp := stackp - 1;
        outfile := outfile + [stack[stackp]];
        assert outfile + Reverse(stack[..stackp]) == goal;
      }
    }

    /** What de_LZ_1 holds between codes. */
    ghost function Holding(from: nat, oldcode: nat, finchar: nat): Decoder
      requires from <= |outfile|
      reads this
    {
      Decoder(dict, oldcode, finchar % 256, outfile[from..])
    }

    /** The body of the loop of de_LZ_1 for one code: write its phrase, and make
        the entry that the phrase before it was waiting for. */
    method TakeCode(incode: nat, oldcode: nat, finchar: nat, ghost from: nat) returns (ok: bool, first: Byte)
      requires Valid() && Table() && from <= |outfile|
      modifies this`freeEnt, this`dict, this`outfile, crakTbl
      ensures Table() && old(outfile) <= outfile
      ensures
        match Receive(old(Holding(from, oldcode, finchar)), incode, Capacity(maxBits))
        case None => !ok && outfile == old(outfile) && dict == old(dict)
        case Some(t) => ok && t == Holding(from, incode, first)
    {
      hide Walk, Reverse, Pow2;
      ghost var before := Holding(from, oldcode, finchar);
      var stack := new Byte[MAXSTACK](i => 0);
      var stackp, code := 0, incode;
      if code >= freeEnt {
        stack[0] := finchar % 256;
        stackp, code := 1, oldcode;
      }
      ReverseFew(stack[..stackp]);
      ghost var rest := stack[..stackp];
      ghost var phrase := Walk(dict, code, MAXSTACK - stackp);
      assert rest == if incode >= freeEnt then [before.last] else [];
      ok, stackp, first := PushPhrase(stack, stackp, code);
      if !ok {
        return;
      }
      if incode >= 256 + |before.d| {
        assert Expand(before, incode) == Some(phrase.value + [before.last]);
      } else {
        assert phrase.value + [] == phrase.value;
      }
      assert Expand(before, incode) == Some(Reverse(stack[..stackp]));
      PopPhrase(stack, stackp);
      if freeEnt < MaxCode(maxBits) {
        crakTbl[freeEnt] := Link(oldcode, first);
        dict := dict + [Entry(oldcode, first)];
        freeEnt := freeEnt + 1;
      }
      assert outfile[from..] == before.out + Reverse(stack[..stackp]);
    }

    /** de_LZ_1: decompress a member of a given size onto the end of the output
        file. */
    method DeLZ1(bytes: int) returns (outcome: Outcome)
      requires Valid()
      modifies this`nBits, this`maxCode, this`freeEnt, this`offset, this`size, this`lzBytes, this`pos, this`outfile,
        this`dict, buf, crakTbl
      ensures Valid() && old(outfile) <= outfile
      ensures Result(outcome, outfile[|old(outfile)|..], State()) == Decode(old(State()), infile, bytes, maxBits)
      ensures outcome == NotArchive <==>
        old(pos) + 2 > |infile| || 256 * (infile[old(pos)] as int) + infile[old(pos) + 1] != 2995
      ensures outcome == NotArchive ==> outfile == old(outfile)
    {
      hide Packing.GetCode, Pow2, Receive;
      Refused(State(), infile, bytes, maxBits);
      if !HasTag(infile, pos) {
        pos := AfterTag(infile, pos);
        assert outfile[|outfile|..] == [];
        return NotArchive;
      }
      ghost var start, from := State(), |outfile|;
      pos := pos + 2;
      Init();
      lzBytes := bytes - 2;
      assert State() == MemberReader(start, bytes);
      SyncKept(State(), infile, freeEnt, maxBits);
      var code := GetCode();
      if code < 0 {
        assert outfile[from..] == [];
        return Ended;
      }
      var oldcode: nat, finchar: nat := code, code;
      outfile := outfile + [finchar % 256];
      assert Holding(from, oldcode, finchar) == First(code);
      outcome := DecodeRest(oldcode, finchar, from);
    }

    /** The loop of de_LZ_1. */
    method DecodeRest(oldcode0: nat, finchar0: nat, ghost from: nat) returns (outcome: Outcome)
      requires Valid() && Table() && ReaderSync(State(), maxBits) && from <= |outfile|
      modifies this`nBits, this`maxCode, this`freeEnt, this`offset, this`size, this`lzBytes, this`pos, this`outfile,
        this`dict, buf, crakTbl
      ensures Valid() && old(outfile) <= outfile
      ensures Result(outcome, outfile[from..], State())
        == DecodeFrom(old(State()), infile, old(Holding(from, oldcode0, finchar0)), maxBits)
    {
      hide Packing.GetCode, Pow2, Receive;
      var oldcode: nat, finchar: nat := oldcode0, finchar0;
      ghost var result := DecodeFrom(State(), infile, Holding(from, oldcode, finchar), maxBits);
      while true
        invariant Valid() && Table() && ReaderSync(State(), maxBits) && from <= |outfile| && old(outfile) <= outfile
        invariant DecodeFrom(State(), infile, Holding(from, oldcode, finchar), maxBits) == result
        decreases AtLeast0(lzBytes), AtLeast0(size - offset)
      {
        SyncKept(State(), infile, freeEnt, maxBits);
        var incode := GetCode();
        if incode < 0 {
          return Ended;
        }
        var ok, first := TakeCode(incode, oldcode, finchar, from);
        if !ok {
          return Fault;
        }
        oldcode, finchar := incode, first;
      }
    }
  }

  lemma {:induction false} ReverseFew(s: seq<Byte>)
    ensures |s| <= 1 ==> Reverse(s) == s
  {
  }

  /** The phrase in hand is what is still to be followed, and then the stack. */
  ghost predicate Unwound(goal: Option<seq<Byte>>, left: Option<seq<Byte>>, rest: seq<Byte>, stack: seq<Byte>) {
    match left
    case None => goal.None?
    case Some(t) => 
      && goal.Some? && |goal.value| > 0 && |t| > 0
      && goal.value + rest == t + Reverse(stack) && goal.value[0] == t[0]
  }

  lemma {:induction false} WalkSome(d: Dict, code: nat, room: nat)
    ensures Walk(d, code, room).Some? ==> |Walk(d, code, room).value| > 0
  {
  }

  lemma {:induction false} WalkStops(d: Dict, code: nat, room: nat)
    ensures code >= 256 + |d| || room == 0 ==> Walk(d, code, room).None?
  {
  }

  lemma {:induction false} PushByte(
      goal: Option<seq<Byte>>, d: Dict, code: nat, room: nat, rest: seq<Byte>, stack: seq<Byte>)
    requires 256 <= code < 256 + |d| && room > 0 && Unwound(goal, Walk(d, code, room), rest, stack)
    ensures Unwound(goal, Walk(d, d[code - 256].prefix, room - 1), rest, stack + [d[code - 256].last])
  {
    var b := d[code - 256].last;
    assert (stack + [b])[..|stack|] == stack;
    var w := Walk(d, d[code - 256].prefix, room - 1);
    if w.Some? {
      assert (w.value + [b]) + Reverse(stack) == w.value + ([b] + Reverse(stack));
    }
  }

  lemma {:induction false} PushFirst(
      goal: Option<seq<Byte>>, d: Dict, code: Byte, room: nat, rest: seq<Byte>, stack: seq<Byte>)
    requires room > 0 && Unwound(goal, Walk(d, code, room), rest, stack)
    ensures goal.Some? && |goal.value| > 0 && Reverse(stack + [code]) == goal.value + rest && goal.value[0] == code
  {
    assert (stack + [code])[..|stack|] == stack;
  }
}
