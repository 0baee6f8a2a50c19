/** The dictionary half of the codec: the parse of a byte string into codes, and
    the way back.  A dictionary lists the phrases made so far; entry k has code
    256 + k, and codes below 256 are the bytes themselves. */
module Lzw {
  import opened Bits

  const MAXSTACK := 2000

  datatype Option<+T> = None | Some(value: T)

  /** A phrase is the phrase of an earlier code with one byte added. */
  datatype Entry = Entry(prefix: nat, last: Byte)

  type Dict = seq<Entry>

  ghost predicate WellFormed(d: Dict) {
    forall k :: 0 <= k < |d| ==> d[k].prefix < 256 + k
  }

  ghost predicate Distinct(d: Dict) {
    forall j, k :: 0 <= j < k < |d| ==> d[j] != d[k]
  }

  function Grow(d: Dict, prefix: nat, last: Byte, cap: nat): Dict {
    if |d| < cap then d + [Entry(prefix, last)] else d
  }

  ghost function Phrase(d: Dict, code: nat): (s: seq<Byte>)
    requires WellFormed(d) && code < 256 + |d|
    ensures |s| > 0
    decreases code
  {
    if code < 256 then [code] else Phrase(d, d[code - 256].prefix) + [d[code - 256].last]
  }

  lemma {:induction false} PhraseByte(d: Dict, b: Byte)
    requires WellFormed(d)
    ensures Phrase(d, b) == [b]
  {
  }

  /** Codes denote different phrases. */
  lemma {:induction false} PhrasesDiffer(d: Dict, j: nat, k: nat)
    requires WellFormed(d) && Distinct(d) && j < 256 + |d| && k < 256 + |d|
    ensures Phrase(d, j) == Phrase(d, k) ==> j == k
    decreases j
  {
    if Phrase(d, j) == Phrase(d, k) && j >= 256 && k >= 256 {
      var p, q := Phrase(d, d[j - 256].prefix), Phrase(d, d[k - 256].prefix);
      assert p == Phrase(d, j)[..|p|] && q == Phrase(d, k)[..|q|];
      assert d[j - 256].last == Phrase(d, j)[|p|] && d[k - 256].last == Phrase(d, k)[|q|];
      PhrasesDiffer(d, d[j - 256].prefix, d[k - 256].prefix);
    }
  }

  /** The code of each prefix of a phrase. */
  lemma {:induction false} PrefixCode(d: Dict, code: nat, n: nat) returns (p: nat)
    requires WellFormed(d) && code < 256 + |d| && 0 < n <= |Phrase(d, code)|
    ensures p <= code && Phrase(d, p) == Phrase(d, code)[..n]
    decreases code
  {
    if n == |Phrase(d, code)| {
      p := code;
      assert Phrase(d, code)[..n] == Phrase(d, code);
    } else {
      var before := d[code - 256].prefix;
      p := PrefixCode(d, before, n);
      assert Phrase(d, code)[..n] == Phrase(d, before)[..n];
    }
  }

  /** The code of a phrase extended by a byte, or 0 when there is none. */
  function Find(d: Dict, ent: nat, c: Byte): (code: nat)
    ensures code == 0 ==> forall k :: 0 <= k < |d| ==> d[k] != Entry(ent, c)
    ensures code != 0 ==> 256 <= code < 256 + |d| && d[code - 256] == Entry(ent, c)
  {
    if |d| == 0 then 0
    else if d[|d| - 1] == Entry(ent, c) then 255 + |d|
    else Find(d[..|d| - 1], ent, c)
  }

  /** The codes emitted from position i on, with ent the code of the phrase
      that ends there. */
  function Codes(x: seq<Byte>, i: nat, ent: nat, d: Dict, cap: nat): (codes: seq<nat>)
    requires i <= |x|
    ensures |codes| > 0
    decreases |x| - i
  {
    if i == |x| then [ent]
    else
      var found := Find(d, ent, x[i]);
      if found != 0 then Codes(x, i + 1, found, d, cap)
      else [ent] + Codes(x, i + 1, x[i], Grow(d, ent, x[i], cap), cap)
  }

  function CodesOf(x: seq<Byte>, cap: nat): seq<nat> {
    if |x| == 0 then [] else Codes(x, 1, x[0], [], cap)
  }

  /** What the decoder holds between codes.  Before the first code, prev is not
      used; last is the first byte of the phrase it wrote last. */
  datatype Decoder = Decoder(d: Dict, prev: nat, last: Byte, out: seq<Byte>)

  /** The phrase of a code as the decoder finds it, by pushing a byte for each
      link.  None when it follows a code that has no entry yet, or when the
      phrase takes more than the room left on the stack. */
  function Walk(d: Dict, code: nat, room: nat): (r: Option<seq<Byte>>)
    ensures r.Some? ==> 0 < |r.value| <= room
    decreases room
  {
    if code >= 256 + |d| || room == 0 then None
    else if code < 256 then Some([code])
    else match Walk(d, d[code - 256].prefix, room - 1)
      case None => None
      case Some(s) => Some(s + [d[code - 256].last])
  }

  /** The phrase the decoder writes for a code: one it has no entry for yet
      is the phrase before it with its own first byte added. */
  function Expand(s: Decoder, code: nat): (r: Option<seq<Byte>>)
    ensures r.Some? ==> 0 < |r.value| <= MAXSTACK
  {
    if code >= 256 + |s.d| then
      match Walk(s.d, s.prev, MAXSTACK - 1)
      case None => None
      case Some(t) => Some(t + [s.last])
    else
      Walk(s.d, code, MAXSTACK)
  }

  /** A code past the first free entry, which no encoder writes, is taken for that one. */
  lemma {:induction false} LaterCode(s: Decoder, code: nat)
    requires code >= 256 + |s.d|
    ensures Expand(s, code) == Expand(s, 256 + |s.d|)
    ensures Expand(s, code).Some? ==> Expand(s, code).value[|Expand(s, code).value| - 1] == s.last
  {
    hide Walk;
  }

  function Receive(s: Decoder, code: nat, cap: nat): Option<Decoder> {
    match Expand(s, code)
    case None => None
    case Some(t) => Some(Decoder(Grow(s.d, s.prev, t[0], cap), code, t[0], s.out + t))
  }

  function ReceiveAll(s: Decoder, codes: seq<nat>, cap: nat): Option<Decoder>
    decreases |codes|
  {
    if |codes| == 0 then Some(s)
    else match Receive(s, codes[0], cap)
      case None => None
      case Some(t) => ReceiveAll(t, codes[1..], cap)
  }

  /** The first code makes no entry. */
  function First(code: nat): Decoder {
    Decoder([], code, code % 256, [code % 256])
  }

  /* The two sides agree. */

  lemma {:induction false} PhraseStable(d: Dict, e: Entry, code: nat)
    requires WellFormed(d) && WellFormed(d + [e]) && code < 256 + |d|
    ensures Phrase(d + [e], code) == Phrase(d, code)
    decreases code
  {
    if code >= 256 {
      PhraseStable(d, e, d[code - 256].prefix);
    }
  }

  lemma {:induction false} WalkIsPhrase(d: Dict, code: nat, room: nat)
    requires WellFormed(d) && code < 256 + |d|
    ensures Walk(d, code, room) == if |Phrase(d, code)| <= room then Some(Phrase(d, code)) else None
    decreases code
  {
    if code >= 256 && room > 0 {
      WalkIsPhrase(d, d[code - 256].prefix, room - 1);
    }
  }

  /** What the encoder holds just before it emits ent, seen from the decoder,
      which has received every code before: its dictionary is one step behind. */
  ghost predicate InStep(s: Decoder, d: Dict, ent: nat, cap: nat) {
    && WellFormed(s.d) && WellFormed(d) && s.prev < 256 + |s.d|
    && ent < 256 + |d|
    && Phrase(s.d, s.prev)[0] == s.last
    && d == Grow(s.d, s.prev, Phrase(d, ent)[0], cap)
  }

  /** A code in step expands to the encoder's phrase, also when the decoder has
      no entry for it yet. */
  lemma {:induction false} ExpandInStep(s: Decoder, d: Dict, ent: nat, cap: nat)
    requires InStep(s, d, ent, cap)
    ensures ent <= 256 + |s.d|
    ensures Expand(s, ent) == if |Phrase(d, ent)| <= MAXSTACK then Some(Phrase(d, ent)) else None
  {
    if ent == 256 + |s.d| {
      var e := d[ent - 256];
      assert d == s.d + [e] && e.prefix == s.prev;
      PhraseStable(s.d, e, s.prev);
      assert Phrase(d, ent) == Phrase(s.d, s.prev) + [e.last];
      WalkIsPhrase(s.d, s.prev, MAXSTACK - 1);
    } else {
      if |d| > |s.d| {
        PhraseStable(s.d, d[|s.d|], ent);
      }
      WalkIsPhrase(s.d, ent, MAXSTACK);
    }
  }

  /** After an emission both dictionaries have moved on by one entry. */
  lemma {:induction false} StaysInStep(s: Decoder, d: Dict, ent: nat, c: Byte, cap: nat)
    requires InStep(s, d, ent, cap) && |Phrase(d, ent)| <= MAXSTACK
    ensures Receive(s, ent, cap) == Some(Decoder(d, ent, Phrase(d, ent)[0], s.out + Phrase(d, ent)))
    ensures InStep(Receive(s, ent, cap).value, Grow(d, ent, c, cap), c, cap)
  {
    ExpandInStep(s, d, ent, cap);
  }

  /** The longest phrase among the codes from position i on. */
  ghost function Longest(x: seq<Byte>, i: nat, ent: nat, d: Dict, cap: nat): nat
    requires i <= |x| && WellFormed(d) && ent < 256 + |d|
    decreases |x| - i
  {
    var length := |Phrase(d, ent)|;
    if i == |x| then length
    else
      var found := Find(d, ent, x[i]);
      if found != 0 then Longest(x, i + 1, found, d, cap)
      else
        var rest := Longest(x, i + 1, x[i], Grow(d, ent, x[i], cap), cap);
        if length < rest then rest else length
  }

  ghost function LongestOf(x: seq<Byte>, cap: nat): nat {
    if |x| == 0 then 0 else Longest(x, 1, x[0], [], cap)
  }

  /** Receiving the codes from position i on appends the input from there on,
      with the phrase in progress, unless some phrase does not fit the stack. */
  ghost predicate Restores(x: seq<Byte>, from: nat, i: nat, ent: nat, d: Dict, cap: nat, s: Decoder)
    requires from <= i <= |x| && WellFormed(d) && ent < 256 + |d|
  {
    var r := ReceiveAll(s, Codes(x, i, ent, d, cap), cap);
    if Longest(x, i, ent, d, cap) <= MAXSTACK then r.Some? && r.value.out == s.out + x[from..] else r.None?
  }

  lemma {:induction false} RestoresLast(x: seq<Byte>, from: nat, ent: nat, d: Dict, cap: nat, s: Decoder)
    requires from <= |x| && InStep(s, d, ent, cap) && Phrase(d, ent) == x[from..]
    ensures Restores(x, from, |x|, ent, d, cap, s)
  {
    ExpandInStep(s, d, ent, cap);
    assert Codes(x, |x|, ent, d, cap) == [ent] && [ent][1..] == [];
    if |Phrase(d, ent)| <= MAXSTACK {
      StaysInStep(s, d, ent, 0, cap);
      assert ReceiveAll(Receive(s, ent, cap).value, [], cap) == Receive(s, ent, cap);
    }
  }

  lemma {:induction false} ReceiveNone(s: Decoder, cap: nat)
    ensures ReceiveAll(s, [], cap) == Some(s)
  {
  }

  lemma {:induction false} ReceiveNext(s: Decoder, code: nat, rest: seq<nat>, cap: nat)
    ensures ReceiveAll(s, [code] + rest, cap) ==
      match Receive(s, code, cap) { case None => None case Some(t) => ReceiveAll(t, rest, cap) }
  {
    assert ([code] + rest)[1..] == rest;
  }

  /** An emission puts one code before those that follow. */
  lemma {:induction false} EmitStep(x: seq<Byte>, i: nat, ent: nat, d: Dict, cap: nat)
    requires i < |x| && WellFormed(d) && ent < 256 + |d| && Find(d, ent, x[i]) == 0
    ensures
      var d' := Grow(d, ent, x[i], cap);
      && WellFormed(d') && Phrase(d', x[i]) == [x[i]]
      && Codes(x, i, ent, d, cap) == [ent] + Codes(x, i + 1, x[i], d', cap)
      && Longest(x, i, ent, d, cap) ==
         (var n, m := |Phrase(d, ent)|, Longest(x, i + 1, x[i], d', cap); if n < m then m else n)
  {
  }

  lemma {:induction false} RestoresEmitted(x: seq<Byte>, from: nat, i: nat, ent: nat, d: Dict, cap: nat, s: Decoder)
    requires from <= i < |x| && InStep(s, d, ent, cap) && Phrase(d, ent) == x[from..i]
    requires Find(d, ent, x[i]) == 0
    requires
      var r := Receive(s, ent, cap);
      |Phrase(d, ent)| <= MAXSTACK ==> r.Some? && Restores(x, i, i + 1, x[i], Grow(d, ent, x[i], cap), cap, r.value)
    ensures Restores(x, from, i, ent, d, cap, s)
  {
    hide Codes, Longest, Phrase, ReceiveAll, Expand, Walk, Grow, WellFormed, Find;
    EmitStep(x, i, ent, d, cap);
    ReceiveNext(s, ent, Codes(x, i + 1, x[i], Grow(d, ent, x[i], cap), cap), cap);
    ExpandInStep(s, d, ent, cap);
    if |Phrase(d, ent)| <= MAXSTACK {
      StaysInStep(s, d, ent, x[i], cap);
      assert s.out + x[from..i] + x[i..] == s.out + x[from..] by {
        assert x[from..i] + x[i..] == x[from..];
      }
    }
  }

  lemma {:induction false} LastStep(x: seq<Byte>, ent: nat, d: Dict, cap: nat)
    requires WellFormed(d) && ent < 256 + |d|
    ensures Codes(x, |x|, ent, d, cap) == [ent] && Longest(x, |x|, ent, d, cap) == |Phrase(d, ent)|
  {
  }

  /** A match goes on with a phrase one byte longer. */
  lemma {:induction false} FoundStep(x: seq<Byte>, i: nat, ent: nat, d: Dict, cap: nat)
    requires i < |x| && WellFormed(d) && ent < 256 + |d| && Find(d, ent, x[i]) != 0
    ensures
      var found := Find(d, ent, x[i]);
      && Codes(x, i, ent, d, cap) == Codes(x, i + 1, found, d, cap)
      && Longest(x, i, ent, d, cap) == Longest(x, i + 1, found, d, cap)
      && Phrase(d, found) == Phrase(d, ent) + [x[i]]
  {
  }

  lemma {:induction false} ReceiveCodes(x: seq<Byte>, from: nat, i: nat, ent: nat, d: Dict, cap: nat, s: Decoder)
    requires from <= i <= |x| && InStep(s, d, ent, cap) && Phrase(d, ent) == x[from..i]
    ensures Restores(x, from, i, ent, d, cap, s)
    decreases |x| - i
  {
    hide Codes, Longest, ReceiveAll, Receive, Phrase, Find;
    if i == |x| {
      assert x[from..i] == x[from..];
      RestoresLast(x, from, ent, d, cap, s);
    } else {
      var found := Find(d, ent, x[i]);
      if found != 0 {
        FoundStep(x, i, ent, d, cap);
        assert x[from..i] + [x[i]] == x[from..i + 1];
        ReceiveCodes(x, from, i + 1, found, d, cap, s);
      } else {
        if |Phrase(d, ent)| <= MAXSTACK {
          StaysInStep(s, d, ent, x[i], cap);
          EmitStep(x, i, ent, d, cap);
          assert [x[i]] == x[i..i + 1];
          ReceiveCodes(x, i, i + 1, x[i], Grow(d, ent, x[i], cap), cap, Receive(s, ent, cap).value);
        }
        RestoresEmitted(x, from, i, ent, d, cap, s);
      }
    }
  }

  /** The codes of a string decode to the string, exactly when no phrase among
      them is too long for the decoder's stack. */
  lemma {:induction false} CodesRoundTrip(x: seq<Byte>, cap: nat)
    requires |x| > 0
    ensures
      var codes := CodesOf(x, cap);
      var r := ReceiveAll(First(codes[0]), codes[1..], cap);
      if LongestOf(x, cap) <= MAXSTACK then r.Some? && r.value.out == x else r.None?
  {
    hide Codes, Longest, Phrase, ReceiveAll, Receive, Find;
    assert Phrase([], x[0]) == [x[0]] by { PhraseByte([], x[0]); }
    if |x| == 1 {
      LastStep(x, x[0], [], cap);
      ReceiveNone(First(x[0]), cap);
      assert x == [x[0]] && [x[0]][1..] == [];
    } else {
      EmitStep(x, 1, x[0], [], cap);
      var d := Grow([], x[0], x[1], cap);
      var rest := Codes(x, 2, x[1], d, cap);
      assert ([x[0]] + rest)[1..] == rest;
      ReceiveCodes(x, 1, 2, x[1], d, cap, First(x[0]));
      assert [x[0]] + x[1..] == x;
    }
  }

  /* How long a phrase can get. */

  /** The sum of 1 to n. */
  function Triangle(n: nat): nat {
    if n == 0 then 0 else Triangle(n - 1) + n
  }

  lemma {:induction false} TriangleNext(n: nat)
    requires n > 0
    ensures Triangle(n) == Triangle(n - 1) + n
  {
  }

  lemma {:induction false} TriangleClosed(n: nat)
    ensures 2 * Triangle(n) == n * (n + 1)
  {
    if n > 0 {
      TriangleClosed(n - 1);
    }
  }

  lemma {:induction false} TriangleMonotone(m: nat, n: nat)
    requires m <= n
    ensures Triangle(m) <= Triangle(n)
  {
    if m < n {
      TriangleMonotone(m, n - 1);
    }
  }

  /** A phrase of length n needs a dictionary of n - 1 entries. */
  lemma {:induction false} PhraseLength(d: Dict, code: nat)
    requires WellFormed(d) && code < 256 + |d|
    ensures |Phrase(d, code)| <= |d| + 1
    ensures code >= 256 ==> |Phrase(d, code)| <= code - 254
    decreases code
  {
    if code >= 256 {
      PhraseLength(d, d[code - 256].prefix);
    }
  }

  lemma {:induction false} LongestByTable(x: seq<Byte>, i: nat, ent: nat, d: Dict, cap: nat)
    requires i <= |x| && WellFormed(d) && ent < 256 + |d| && |d| <= cap
    ensures Longest(x, i, ent, d, cap) <= cap + 1
    decreases |x| - i
  {
    PhraseLength(d, ent);
    if i < |x| {
      var found := Find(d, ent, x[i]);
      if found != 0 {
        LongestByTable(x, i + 1, found, d, cap);
      } else {
        LongestByTable(x, i + 1, x[i], Grow(d, ent, x[i], cap), cap);
      }
    }
  }

  /** An entry of length n was made by emitting its prefix, of length n - 1,
      after emitting the prefix of that, and so on. */
  ghost predicate Paid(d: Dict, from: nat) requires WellFormed(d) {
    forall code :: 0 <= code < 256 + |d| ==> Triangle(|Phrase(d, code)| - 1) <= from
  }

  lemma {:induction false} PhraseNew(d: Dict, e: Entry)
    requires WellFormed(d) && e.prefix < 256 + |d|
    ensures WellFormed(d + [e]) && Phrase(d + [e], 256 + |d|) == Phrase(d, e.prefix) + [e.last]
  {
    PhraseStable(d, e, e.prefix);
  }

  lemma {:induction false} PaidGrows(d: Dict, ent: nat, c: Byte, cap: nat, from: nat)
    requires WellFormed(d) && ent < 256 + |d| && Paid(d, from)
    ensures WellFormed(Grow(d, ent, c, cap)) && Paid(Grow(d, ent, c, cap), from + |Phrase(d, ent)|)
  {
    hide Phrase, Triangle;
    if |d| < cap {
      var e := Entry(ent, c);
      PhraseNew(d, e);
      assert Triangle(|Phrase(d, ent)|) == Triangle(|Phrase(d, ent)| - 1) + |Phrase(d, ent)| by {
        TriangleNext(|Phrase(d, ent)|);
      }
      forall code | 0 <= code < 256 + |d|
        ensures Phrase(d + [e], code) == Phrase(d, code)
      {
        PhraseStable(d, e, code);
      }
    }
  }

  lemma {:induction false} LongestByInput(x: seq<Byte>, from: nat, i: nat, ent: nat, d: Dict, cap: nat)
    requires from <= i <= |x| && WellFormed(d) && ent < 256 + |d|
    requires |Phrase(d, ent)| == i - from && Paid(d, from)
    ensures Triangle(Longest(x, i, ent, d, cap)) <= |x|
    decreases |x| - i
  {
    hide Phrase, Triangle, Longest, Codes, Find;
    TriangleNext(|Phrase(d, ent)|);
    if i == |x| {
      LastStep(x, ent, d, cap);
    } else {
      var found := Find(d, ent, x[i]);
      if found != 0 {
        FoundStep(x, i, ent, d, cap);
        LongestByInput(x, from, i + 1, found, d, cap);
      } else {
        EmitStep(x, i, ent, d, cap);
        PaidGrows(d, ent, x[i], cap, from);
        LongestByInput(x, i, i + 1, x[i], Grow(d, ent, x[i], cap), cap);
      }
    }
  }

  /** A phrase of length n takes at least 1 + 2 + ... + n bytes of input to emit,
      and a dictionary of n - 1 entries. */
  lemma {:induction false} PhraseCost(x: seq<Byte>, cap: nat)
    ensures Triangle(LongestOf(x, cap)) <= |x| && LongestOf(x, cap) <= cap + 1
  {
    if |x| > 0 {
      assert Phrase([], x[0]) == [x[0]];
      assert Paid([], 0);
      LongestByInput(x, 0, 1, x[0], [], cap);
      LongestByTable(x, 1, x[0], [], cap);
    }
  }

  /* That bound is reached by a run of one byte. */

  ghost predicate RunDict(d: Dict, b: Byte) {
    forall k :: 0 <= k < |d| ==> d[k] == Entry(if k == 0 then b else 255 + k, b)
  }

  /** The code of a run of length n. */
  function RunCode(b: Byte, n: nat): nat requires n > 0 {
    if n == 1 then b else 254 + n
  }

  lemma {:induction false} RunPhrase(d: Dict, b: Byte, n: nat)
    requires RunDict(d, b) && 0 < n <= |d| + 1
    ensures WellFormed(d) && |Phrase(d, RunCode(b, n))| == n
    ensures Find(d, RunCode(b, n), b) == if n <= |d| then RunCode(b, n + 1) else 0
  {
    if n > 1 {
      RunPhrase(d, b, n - 1);
    }
    var found := Find(d, RunCode(b, n), b);
    if n <= |d| {
      assert d[n - 1] == Entry(RunCode(b, n), b);
    }
  }

  lemma {:induction false} RunLongest(x: seq<Byte>, b: Byte, i: nat, n: nat, d: Dict, cap: nat, goal: nat)
    requires (forall k :: 0 <= k < |x| ==> x[k] == b) && RunDict(d, b)
    requires 0 < n <= |d| + 1 && |d| < goal <= cap + 1
    requires i == Triangle(|d|) + n <= |x| && Triangle(goal) <= |x|
    ensures WellFormed(d) && RunCode(b, n) < 256 + |d| && Longest(x, i, RunCode(b, n), d, cap) >= goal
    decreases |x| - i
  {
    hide Phrase, Longest, Codes, Find, Triangle;
    RunPhrase(d, b, n);
    TriangleNext(|d| + 1);
    TriangleMonotone(|d| + 1, goal);
    if n <= |d| {
      FoundStep(x, i, RunCode(b, n), d, cap);
      RunLongest(x, b, i + 1, n + 1, d, cap, goal);
    } else if |d| + 1 < goal {
      TriangleNext(|d| + 2);
      TriangleMonotone(|d| + 2, goal);
      EmitStep(x, i, RunCode(b, n), d, cap);
      RunLongest(x, b, i + 1, 1, d + [Entry(RunCode(b, n), b)], cap, goal);
    } else if i < |x| {
      EmitStep(x, i, RunCode(b, n), d, cap);
    } else {
      LastStep(x, RunCode(b, n), d, cap);
    }
  }

  lemma {:induction false} RunReachesCost(x: seq<Byte>, b: Byte, cap: nat, goal: nat)
    requires forall k :: 0 <= k < |x| ==> x[k] == b
    requires 0 < goal <= cap + 1 && Triangle(goal) <= |x|
    ensures LongestOf(x, cap) >= goal
  {
    TriangleMonotone(1, goal);
    RunLongest(x, b, 1, 1, [], cap, goal);
  }

  /** The input lengths at which no phrase can overflow the decoder's stack,
      whatever the bytes. */
  lemma {:induction false} StackBound(length: nat, cap: nat)
    ensures (forall x: seq<Byte> :: |x| <= length ==> LongestOf(x, cap) <= MAXSTACK)
            <==> length < 2003001 || cap < MAXSTACK
  {
    TriangleClosed(MAXSTACK + 1);
    forall x: seq<Byte> | |x| <= length && (length < 2003001 || cap < MAXSTACK)
      ensures LongestOf(x, cap) <= MAXSTACK
    {
      PhraseCost(x, cap);
      if LongestOf(x, cap) > MAXSTACK {
        TriangleMonotone(MAXSTACK + 1, LongestOf(x, cap));
      }
    }
    if length >= 2003001 && cap >= MAXSTACK {
      var x: seq<Byte> := seq(length, i => 0);
      RunReachesCost(x, 0, cap, MAXSTACK + 1);
    }
  }
}
