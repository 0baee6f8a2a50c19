/** LZ_1 and the state it works on: the fields are the globals it updates, and
    outfile is what has been written to the output file. */
module Compressor {
  import opened Bits
  import opened Packing
  import opened Layout
  import opened Lzw
  import opened Trie
  import opened Words
  import opened Codec
  import opened LzwTheorems

  class Compressor {
    const maxBits: nat
    const buf: array<Word>
    const compTbl: array<Node>
    var nBits: nat
    var maxCode: nat
    var freeEnt: nat
    var offset: nat
    var lzBytes: int
    var outfile: seq<Byte>
    ghost var dict: Dict   // the entries of compTbl, as the decoder will make them

    ghost predicate Valid()
      reads this
    {
      && ValidMax(maxBits) && buf.Length == BUFFER_WORDS && compTbl.Length == Pow2(maxBits)
    }

    /** The writer of the specification. */
    ghost function State(): Writer
      reads this, buf
    {
      Writer(nBits, maxCode, offset, Flatten(buf[..]), outfile, lzBytes)
    }

    ghost predicate Table()
      reads this, compTbl
    {
      && freeEnt == 256 + |dict| && IsTrie(compTbl[..], dict)
    }

    constructor (maxBits: nat)
      requires ValidMax(maxBits)
      ensures Valid() && this.maxBits == maxBits && offset == 0 && outfile == [] && fresh(buf) && fresh(compTbl)
    {
      this.maxBits := maxBits;
      buf := new Word[BUFFER_WORDS](i => seq(WSIZE, j => false));
      compTbl := new Node[Pow2(maxBits)](i => Node(0, 0, 0));
      nBits, maxCode, freeEnt, offset, lzBytes := 0, 0, 0, 0, 0;
      outfile := [];
      dict := [];
    }

    /** lz1_init for compression. */
    method Init()
      requires Valid()
      modifies this`nBits, this`maxCode, this`freeEnt, this`dict, compTbl
      ensures Valid() && Table() && dict == [] && nBits == INIT_BITS && maxCode == MaxCode(INIT_BITS)
    {
      Widths(maxBits);
      nBits := INIT_BITS;
      maxCode := MaxCode(nBits);
      freeEnt := 0;
      while freeEnt < 256
        invariant freeEnt <= 256 && nBits == INIT_BITS && maxCode == MaxCode(INIT_BITS)
        invariant forall e: nat :: e < freeEnt ==> compTbl[e].chain == 0
      {
        compTbl[freeEnt] := Node(0, 0, freeEnt);
        freeEnt := freeEnt + 1;
      }
      dict := [];
      Empty(compTbl[..]);
    }

    /** insert_bit */
    method InsertBit(code: nat)
      requires Valid() && WriterOk(State()) && code < Pow2(nBits)
      modifies buf
      ensures Flatten(buf[..]) == Insert(old(Flatten(buf[..])), offset, nBits, code)
    {
      ghost var words := buf[..];
      var c: Word := ToBits(code, WSIZE);
      var i, wOffset := offset / WSIZE, offset % WSIZE;
      var t1 := wOffset + nBits;
      var shift, size2;
      if t1 <= WSIZE {
        shift, size2 := WSIZE - t1, nBits;
      } else {
        size2, shift := t1 - WSIZE, 2 * WSIZE - t1;
        buf[i] := Or(And(buf[i], HighMask(wOffset)), Shr(c, size2));
        i := i + 1;
      }
      buf[i] := Or(And(buf[i], Not(Shl(LowMask(size2), shift))), Shl(c, shift));
      assert buf[..] == InsertWords(words, offset, nBits, c);
      InsertWordsBits(words, offset, nBits, code);
    }

    /** The part of writebuf that takes the words apart. */
    method SmallBuf(count: nat) returns (bytes: seq<Byte>)
      requires Valid() && count <= 2 * BUFFER_WORDS
      ensures bytes == BytesOf(Flatten(buf[..]), count)
    {
      hide ToBits, BytesOf, HighByte, LowByte, Flatten;
      var smallBuf := new Byte[2 * MAX_BITS](i => 0);
      var i := 0;
      while i < count / 2
        invariant i <= count / 2
        invariant forall k: nat :: k < 2 * i ==> ToBits(smallBuf[k], 8) == Flatten(buf[..])[8 * k..8 * k + 8]
        modifies smallBuf
      {
        smallBuf[2 * i] := HighByte(buf[i]);
        smallBuf[2 * i + 1] := LowByte(buf[i]);
        WordHalves(buf[..], i);
        i := i + 1;
      }
      if count % 2 == 1 {
        smallBuf[count - 1] := HighByte(buf[i]);
        WordHalves(buf[..], i);
      }
      bytes := smallBuf[..count];
      BytesAre(Flatten(buf[..]), bytes);
    }

    /** writebuf */
    method WriteBuffer(count: nat)
      requires Valid() && count <= 2 * BUFFER_WORDS
      modifies this`outfile, this`lzBytes, this`offset
      ensures State() == WriteBuf(old(State()), count)
    {
      hide BytesOf, Flatten;
      var smallBuf := SmallBuf(count);
      outfile := outfile + smallBuf;
      lzBytes := lzBytes + count;
      offset := 0;
    }

    /** output: a code, or the flush at the end for a negative one. */
    method Output(code: int)
      requires Valid() && WriterOk(State()) && code < Pow2(nBits)
      requires code >= 0 && freeEnt > maxCode ==> nBits < MAX_BITS
      modifies this`nBits, this`maxCode, this`offset, this`lzBytes, this`outfile, buf
      ensures State() == if code < 0 then Flush(old(State())) else Packing.Output(old(State()), code, freeEnt, maxBits)
    {
      if code < 0 {
        if offset > 0 {
          WriteBuffer((offset + 7) / 8);
        }
      } else {
        InsertBit(code);
        offset := offset + nBits;
        if offset == 8 * nBits {
          WriteBuffer(nBits);
        }
        if freeEnt > maxCode {
          if offset > 0 {
            WriteBuffer(nBits);
          }
          nBits := nBits + 1;
          maxCode := if nBits == maxBits then MaxCode(maxBits) else MaxCode(nBits);
        }
      }
    }

    /** addentry, for a pair that has no entry yet. */
    method AddEntry(c: Byte, ent: nat)
      requires Valid() && Table() && ent < freeEnt && Find(dict, ent, c) == 0
      modifies this`freeEnt, this`dict, compTbl
      ensures Table() && dict == Grow(old(dict), ent, c, Capacity(maxBits))
    {
      Widths(maxBits);
      if freeEnt < MaxCode(maxBits) {
        LinkIn(c, ent);
        dict := dict + [Entry(ent, c)];
        freeEnt := freeEnt + 1;
      }
    }

    /** Fill in the first unused entry and link it into the chain of ent. */
    method LinkIn(c: Byte, ent: nat)
      requires Valid() && Table() && ent < freeEnt < compTbl.Length && Find(dict, ent, c) == 0
      modifies compTbl
      ensures IsTrie(compTbl[..], dict + [Entry(ent, c)])
    {
      hide Pow2, FirstFrom, Find, WellFormed, Distinct, LinkedIn;
      ghost var t := compTbl[..];
      compTbl[freeEnt] := Node(0, 0, c);
      var p := compTbl[ent].chain;
      HeadOfChain(t, dict, ent);
      if p == 0 || c < compTbl[p].suffix {
        compTbl[freeEnt] := compTbl[freeEnt].(next := p);
        compTbl[ent] := compTbl[ent].(chain := freeEnt);
        LinkedFirst(t, compTbl[..], dict, ent, c);
      } else {
        NotAmong(dict, ent, c);
        NextInChain(t, dict, ent, p);
        while compTbl[p].next != 0 && c >= compTbl[compTbl[p].next].suffix
          invariant compTbl[..] == t[freeEnt := Node(0, 0, c)]
          invariant Child(dict, ent, p) && Key(dict, p) < c
          invariant
            var n := compTbl[p].next;
            n != 0 ==> Child(dict, ent, n) && compTbl[n].suffix == Key(dict, n) > Key(dict, p)
          decreases c - Key(dict, p)
        {
          p := compTbl[p].next;
          NextInChain(t, dict, ent, p);
        }
        compTbl[freeEnt] := compTbl[freeEnt].(next := compTbl[p].next);
        compTbl[p] := compTbl[p].(next := freeEnt);
        LinkedAfter(t, compTbl[..], dict, ent, c, p);
      }
      Grown(t, compTbl[..], dict, ent, c);
    }

    /** The search LZ_1 makes for the code of a phrase and a byte more: along the
        chain of ent, as far as the first suffix that is not before c. */
    method Search(ent: nat, c: Byte) returns (nEnt: nat)
      requires Valid() && Table() && ent < freeEnt
      ensures nEnt == Find(dict, ent, c)
    {
      hide Pow2, Find;
      nEnt := compTbl[ent].chain;
      HeadOfChain(compTbl[..], dict, ent);
      while !(nEnt == 0 || compTbl[nEnt].suffix > c) && compTbl[nEnt].suffix != c
        invariant nEnt != 0 ==> Child(dict, ent, nEnt) && compTbl[nEnt].suffix == Key(dict, nEnt)
        invariant forall k: nat :: Child(dict, ent, k) && Key(dict, k) >= c ==>
          nEnt != 0 && Key(dict, nEnt) <= Key(dict, k)
        decreases if nEnt == 0 then 0 else 256 - Key(dict, nEnt)
      {
        NextInChain(compTbl[..], dict, ent, nEnt);
        assert FirstFrom(dict, ent, Key(dict, nEnt) + 1, compTbl[nEnt].next);
        nEnt := compTbl[nEnt].next;
      }
      SearchEnds(dict, ent, c, nEnt);
      if nEnt == 0 || compTbl[nEnt].suffix > c {
        nEnt := 0;
      }
    }

    /** LZ_1: compress a file onto the end of the output file. */
    method LZ1(inbuf: seq<Byte>) returns (bytes: int)
      requires Valid() && offset == 0
      modifies this`nBits, this`maxCode, this`freeEnt, this`offset, this`lzBytes, this`outfile, this`dict, buf, compTbl
      ensures State() == Compress(inbuf, maxBits, old(Flatten(buf[..])), old(outfile))
      ensures offset == 0 && bytes == |outfile| - |old(outfile)|
      ensures bytes >= 2 && old(outfile) <= outfile
      ensures 256 * (outfile[|old(outfile)|] as int) + outfile[|old(outfile)| + 1] == 2995
    {
      hide Codes, Packing.Output, OutputAll, Flush, PlaceOf, IsTrie, FreeAt, Find, Pow2, MaxCode, WriterAt;
      ghost var codes := CodesOf(inbuf, Capacity(maxBits));
      Init();
      lzBytes := 2;
      outfile := outfile + TAG;
      ghost var w0 := State();
      MemberWriterStarts(w0.bits, old(outfile), maxBits);
      assert w0 == MemberWriter(w0.bits, old(outfile));
      if |inbuf| > 0 {
        var pos, ent: nat := 1, inbuf[0];
        ghost var j := 0;
        FreeAtStart(maxBits);
        while pos < |inbuf|
          invariant 1 <= pos <= |inbuf| && Table() && Emitting(State(), codes, j, inbuf, pos, ent, dict, maxBits)
          invariant OutputAll(State(), codes, j, maxBits) == OutputAll(w0, codes, 0, maxBits)
        {
          var c := inbuf[pos];
          pos := pos + 1;
          var nEnt := Search(ent, c);
          if nEnt == 0 {
            Emits(State(), codes, j, inbuf, pos - 1, ent, dict, maxBits);
            Output(ent);
            AddEntry(c, ent);
            ent := c;
            j := j + 1;
          } else {
            FoundCodes(inbuf, pos - 1, ent, dict, Capacity(maxBits));
            ent := nEnt;
          }
        }
        Emits(State(), codes, j, inbuf, pos, ent, dict, maxBits);
        Output(ent);
        AllEmitted(State(), codes, maxBits);
      } else {
        AllEmitted(State(), codes, maxBits);
      }
      Output(-1);
      bytes := lzBytes;
      CountsWhatItWrites(inbuf, maxBits, w0.bits, old(outfile));
      TagFirst(inbuf, maxBits, w0.bits, old(outfile));
    }
  }

  /** Where LZ_1 has got to: it has emitted the first j of the codes, and what is
      still to come follows from its position, its phrase and its table. */
  ghost predicate Emitting(
      w: Writer, codes: seq<nat>, j: nat, x: seq<Byte>, pos: nat, ent: nat, d: Dict, maxBits: nat)
    requires ValidMax(maxBits) && pos <= |x|
  {
    && j < |codes| && codes[j..] == Codes(x, pos, ent, d, Capacity(maxBits))
    && 256 + |d| == FreeAt(j, maxBits) && WriterAt(w, j, maxBits) && ent < 256 + |d|
  }

  lemma {:induction false} FreeAtStart(maxBits: nat)
    requires ValidMax(maxBits)
    ensures FreeAt(0, maxBits) == 256
  {
  }

  /** An emission: the code is the next one, it fits, and packing it goes on from
      the codes before it. */
  lemma {:induction false} Emits(
      w: Writer, codes: seq<nat>, j: nat, x: seq<Byte>, pos: nat, ent: nat, d: Dict, maxBits: nat)
    requires ValidMax(maxBits) && pos <= |x| && Emitting(w, codes, j, x, pos, ent, d, maxBits)
    requires pos < |x| ==> Find(d, ent, x[pos]) == 0
    ensures
      var free := FreeAt(j, maxBits);
      && WriterOk(w) && ent < Pow2(w.nBits) && (free > w.maxCode ==> w.nBits < MAX_BITS)
      && var r := Packing.Output(w, ent, free, maxBits);
      && WriterAt(r, j + 1, maxBits)
      && OutputAll(w, codes, j, maxBits) == OutputAll(r, codes, j + 1, maxBits)
      && (if pos == |x| then j + 1 == |codes|
          else Emitting(r, codes, j + 1, x, pos + 1, x[pos], Grow(d, ent, x[pos], Capacity(maxBits)), maxBits))
  {
    hide Codes, Packing.Output, PlaceOf, Pow2, Find;
    var cap := Capacity(maxBits);
    CodeFits(j, maxBits);
    NextPlace(j, maxBits);
    OutputShape(w, ent, j, maxBits);
    WidthRoom(j, maxBits);
    assert codes[j + 1..] == codes[j..][1..];
    if pos == |x| {
      LastCode(x, ent, d, cap);
    } else {
      NextCodes(x, pos, ent, d, cap);
      assert codes[j] == codes[j..][0] == ent;
    }
  }

  lemma {:induction false} FoundCodes(x: seq<Byte>, pos: nat, ent: nat, d: Dict, cap: nat)
    requires pos < |x| && Find(d, ent, x[pos]) != 0
    ensures Codes(x, pos, ent, d, cap) == Codes(x, pos + 1, Find(d, ent, x[pos]), d, cap)
    ensures Find(d, ent, x[pos]) < 256 + |d|
  {
  }

  lemma {:induction false} NextCodes(x: seq<Byte>, pos: nat, ent: nat, d: Dict, cap: nat)
    requires pos < |x| && Find(d, ent, x[pos]) == 0
    ensures Codes(x, pos, ent, d, cap)[0] == ent
    ensures Codes(x, pos, ent, d, cap)[1..] == Codes(x, pos + 1, x[pos], Grow(d, ent, x[pos], cap), cap)
  {
  }

  lemma {:induction false} WidthRoom(j: nat, maxBits: nat)
    requires ValidMax(maxBits)
    ensures var p := PlaceOf(j, maxBits); FreeAt(j, maxBits) > MaxCode(p.width) ==> p.width < MAX_BITS
  {
    hide Pow2;
    PlaceValid(j, maxBits);
  }

  lemma {:induction false} AllEmitted(w: Writer, codes: seq<nat>, maxBits: nat)
    requires ValidMax(maxBits) && WriterAt(w, |codes|, maxBits)
    ensures OutputAll(w, codes, |codes|, maxBits) == w && WriterOk(w)
  {
  }

  lemma {:induction false} WordHalves(words: seq<Word>, i: nat)
    requires i < |words|
    ensures Flatten(words)[16 * i..16 * i + 8] == words[i][..8]
    ensures Flatten(words)[16 * i + 8..16 * i + 16] == words[i][8..]
  {
  }

  /** Bytes that have the right bits are the bytes of a bit string. */
  lemma {:induction false} BytesAre(bits: seq<bool>, bytes: seq<Byte>)
    requires 8 * |bytes| <= |bits|
    requires forall k: nat :: k < |bytes| ==> ToBits(bytes[k], 8) == bits[8 * k..8 * k + 8]
    ensures bytes == BytesOf(bits, |bytes|)
  {
    BytePow2();
    forall k: nat | k < |bytes|
      ensures bytes[k] == BytesOf(bits, |bytes|)[k]
    {
      FromToBits(bytes[k], 8);
    }
  }
}
