/** The encoder's table.  Each code has a chain of the codes that extend it by a
    byte, in ascending order of that byte; 0 ends a chain, as code 0 extends
    nothing. */
module Trie {
  import opened Bits
  import opened Lzw

  datatype Node = Node(next: nat, chain: nat, suffix: nat)

  /** Code k is an entry of d that extends code ent. */
  predicate Child(d: Dict, ent: nat, k: nat) {
    256 <= k < 256 + |d| && d[k - 256].prefix == ent
  }

  function Key(d: Dict, k: nat): nat {
    if 256 <= k < 256 + |d| then d[k - 256].last else 0
  }

  /** The table holds the bytes of the entries. */
  ghost predicate Keyed(t: seq<Node>, d: Dict) {
    256 + |d| <= |t| && forall k: nat :: 256 <= k < 256 + |d| ==> t[k].suffix == Key(d, k)
  }

  /** n is the first child of e that is not before key, or 0 if there is none.
      This says what each link of the table is. */
  ghost predicate FirstFrom(d: Dict, e: nat, key: nat, n: nat) {
    && (n != 0 ==> Child(d, e, n) && Key(d, n) >= key)
    && (forall k: nat :: Child(d, e, k) && Key(d, k) >= key ==> n != 0 && Key(d, n) <= Key(d, k))
  }

  ghost predicate Chained(t: seq<Node>, d: Dict) {
    && 256 + |d| <= |t|
    && (forall e: nat :: e < 256 + |d| ==> FirstFrom(d, e, 0, t[e].chain))
    && (forall k: nat :: 256 <= k < 256 + |d| ==> FirstFrom(d, d[k - 256].prefix, Key(d, k) + 1, t[k].next))
  }

  ghost predicate IsTrie(t: seq<Node>, d: Dict) {
    WellFormed(d) && Distinct(d) && Keyed(t, d) && Chained(t, d)
  }

  lemma {:induction false} Empty(t: seq<Node>)
    requires |t| >= 256 && forall e: nat :: e < 256 ==> t[e].chain == 0
    ensures IsTrie(t, [])
  {
  }

  /** A search that has got to n tells whether there is the child it is for. */
  lemma {:induction false} SearchEnds(d: Dict, ent: nat, c: Byte, n: nat)
    requires WellFormed(d) && Distinct(d)
    requires n != 0 ==> Child(d, ent, n)
    requires forall k: nat :: Child(d, ent, k) && Key(d, k) >= c ==> n != 0 && Key(d, n) <= Key(d, k)
    ensures n == 0 || Key(d, n) > c ==> Find(d, ent, c) == 0
    ensures n != 0 && Key(d, n) == c ==> Find(d, ent, c) == n
  {
    var found := Find(d, ent, c);
    assert found != 0 ==> Child(d, ent, found) && Key(d, found) == c;
    assert n != 0 && Key(d, n) == c ==> d[n - 256] == Entry(ent, c);
  }

  /** How a link is affected by a new entry. */
  lemma {:induction false} FirstFromGrown(d: Dict, ent: nat, c: Byte, e: nat, key: nat, n: nat)
    requires FirstFrom(d, e, key, n)
    ensures
      var free := 256 + |d|;
      FirstFrom(d + [Entry(ent, c)], e, key, if e == ent && key <= c && (n == 0 || c < Key(d, n)) then free else n)
  {
    var d' := d + [Entry(ent, c)];
    var free := 256 + |d|;
    assert forall k: nat :: k != free ==> (Child(d', e, k) <==> Child(d, e, k)) && Key(d', k) == Key(d, k);
    assert (Child(d', e, free) <==> e == ent) && Key(d', free) == c;
  }

  lemma {:induction false} DistinctGrown(d: Dict, ent: nat, c: Byte)
    requires Distinct(d) && Find(d, ent, c) == 0
    ensures Distinct(d + [Entry(ent, c)])
  {
  }

  /** A table with an entry linked in where it belongs: every link that should
      lead to it does, and no other link has changed. */
  ghost predicate LinkedIn(t: seq<Node>, t': seq<Node>, d: Dict, ent: nat, c: Byte) {
    var free := 256 + |d|;
    && free < |t| == |t'| && t'[free].suffix == c && t'[free].chain == 0
    && FirstFrom(d, ent, c + 1, t'[free].next)
    && (forall k: nat :: k < free ==> t'[k].suffix == t[k].suffix)
    && (forall e: nat :: e < free ==>
          t'[e].chain == if e == ent && (t[e].chain == 0 || c < Key(d, t[e].chain)) then free else t[e].chain)
    && (forall k: nat :: 256 <= k < free ==>
          t'[k].next == if Child(d, ent, k) && Key(d, k) < c && (t[k].next == 0 || c < Key(d, t[k].next)) then free
                        else t[k].next)
  }

  lemma {:induction false} Childless(d: Dict, e: nat)
    requires WellFormed(d) && e + 1 == 256 + |d|
    ensures FirstFrom(d, e, 0, 0)
  {
  }

  lemma {:induction false} Grown(t: seq<Node>, t': seq<Node>, d: Dict, ent: nat, c: Byte)
    requires IsTrie(t, d) && ent < 256 + |d| && Find(d, ent, c) == 0 && LinkedIn(t, t', d, ent, c)
    ensures IsTrie(t', d + [Entry(ent, c)])
  {
    hide FirstFrom, Find, Distinct;
    var free := 256 + |d|;
    var d' := d + [Entry(ent, c)];
    DistinctGrown(d, ent, c);
    forall e: nat | e < 256 + |d'|
      ensures FirstFrom(d', e, 0, t'[e].chain)
    {
      if e < free {
        FirstFromGrown(d, ent, c, e, 0, t[e].chain);
      } else {
        Childless(d', free);
      }
    }
    forall k: nat | 256 <= k < 256 + |d'|
      ensures FirstFrom(d', d'[k - 256].prefix, Key(d', k) + 1, t'[k].next)
    {
      if k < free {
        FirstFromGrown(d, ent, c, d[k - 256].prefix, Key(d, k) + 1, t[k].next);
      } else {
        FirstFromGrown(d, ent, c, ent, c + 1, t'[k].next);
      }
    }
  }

  /** A new entry before the first of its chain is linked in. */
  lemma {:induction false} LinkedFirst(t: seq<Node>, t': seq<Node>, d: Dict, ent: nat, c: Byte)
    requires IsTrie(t, d) && ent < 256 + |d| < |t|
    requires t[ent].chain == 0 || c < Key(d, t[ent].chain)
    requires
      var free := 256 + |d|;
      var t1 := t[free := Node(t[ent].chain, 0, c)];
      t' == t1[ent := t1[ent].(chain := free)]
    ensures LinkedIn(t, t', d, ent, c)
  {
    assert FirstFrom(d, ent, 0, t[ent].chain);
    forall k: nat | Child(d, ent, k) && Key(d, k) < c
      ensures false
    {
    }
  }

  /** What follows the new entry is what followed the one before it. */
  lemma {:induction false} FollowsNew(d: Dict, ent: nat, c: Byte, p: nat, n: nat)
    requires Child(d, ent, p) && Key(d, p) < c && FirstFrom(d, ent, Key(d, p) + 1, n)
    requires Find(d, ent, c) == 0 && (n == 0 || c < Key(d, n))
    ensures FirstFrom(d, ent, c + 1, n)
  {
    NotAmong(d, ent, c);
  }

  /** Only p leads past the place of the new entry. */
  lemma {:induction false} OnlyBefore(d: Dict, ent: nat, c: Byte, p: nat, n: nat, k: nat, m: nat)
    requires Distinct(d) && Child(d, ent, p) && Child(d, ent, k) && Key(d, p) < c && Key(d, k) < c && k != p
    requires FirstFrom(d, ent, Key(d, p) + 1, n) && (n == 0 || c < Key(d, n))
    requires FirstFrom(d, ent, Key(d, k) + 1, m)
    ensures m != 0 && Key(d, m) < c
  {
    if Key(d, k) == Key(d, p) {
      SameKey(d, ent, k, p);
    }
  }

  lemma {:induction false} HeadBefore(d: Dict, ent: nat, p: nat, n: nat)
    requires Child(d, ent, p) && FirstFrom(d, ent, 0, n)
    ensures n != 0 && Key(d, n) <= Key(d, p)
  {
  }

  /** A new entry after the last that comes before it is linked in. */
  lemma {:induction false} LinkedAfter(t: seq<Node>, t': seq<Node>, d: Dict, ent: nat, c: Byte, p: nat)
    requires IsTrie(t, d) && ent < 256 + |d| < |t| && Find(d, ent, c) == 0
    requires Child(d, ent, p) && Key(d, p) < c && (t[p].next == 0 || c < Key(d, t[p].next))
    requires
      var free := 256 + |d|;
      var t1 := t[free := Node(t[p].next, 0, c)];
      t' == t1[p := t1[p].(next := free)]
    ensures LinkedIn(t, t', d, ent, c)
  {
    hide Find, FirstFrom, Distinct, WellFormed, Keyed;
    var n := t[p].next;
    assert FirstFrom(d, ent, Key(d, p) + 1, n);
    assert FirstFrom(d, ent, 0, t[ent].chain);
    FollowsNew(d, ent, c, p, n);
    HeadBefore(d, ent, p, t[ent].chain);
    forall k: nat | 256 <= k < 256 + |d| && k != p && Child(d, ent, k) && Key(d, k) < c
      ensures t[k].next != 0 && Key(d, t[k].next) < c
    {
      OnlyBefore(d, ent, c, p, n, k, t[k].next);
    }
  }

  lemma {:induction false} SameKey(d: Dict, ent: nat, j: nat, k: nat)
    requires Distinct(d) && Child(d, ent, j) && Child(d, ent, k) && Key(d, j) == Key(d, k)
    ensures j == k
  {
    assert d[j - 256] == d[k - 256];
  }

  lemma {:induction false} NotAmong(d: Dict, ent: nat, c: Byte)
    requires Find(d, ent, c) == 0
    ensures forall k: nat :: Child(d, ent, k) ==> Key(d, k) != c
  {
    forall k: nat | Child(d, ent, k)
      ensures Key(d, k) != c
    {
      assert d[k - 256] != Entry(ent, c);
    }
  }

  lemma {:induction false} HeadOfChain(t: seq<Node>, d: Dict, ent: nat)
    requires IsTrie(t, d) && ent < 256 + |d|
    ensures var n := t[ent].chain; n != 0 ==> Child(d, ent, n) && t[n].suffix == Key(d, n)
  {
    assert FirstFrom(d, ent, 0, t[ent].chain);
  }

  lemma {:induction false} NextInChain(t: seq<Node>, d: Dict, ent: nat, p: nat)
    requires IsTrie(t, d) && Child(d, ent, p)
    ensures var n := t[p].next; n != 0 ==> Child(d, ent, n) && t[n].suffix == Key(d, n) > Key(d, p)
  {
    assert FirstFrom(d, ent, Key(d, p) + 1, t[p].next);
  }

  /** What the table stands for: different codes are different strings, every prefix
      of one is another, and the search for a byte after a string finds the code of
      the string with the byte added, if there is one. */
  lemma {:induction false} TableStrings(t: seq<Node>, d: Dict)
    requires IsTrie(t, d)
    ensures forall j: nat, k: nat :: j < 256 + |d| && k < 256 + |d| && Phrase(d, j) == Phrase(d, k) ==> j == k
    ensures forall k: nat, n: nat :: k < 256 + |d| && 0 < n <= |Phrase(d, k)| ==> IsPhrase(d, Phrase(d, k)[..n])
    ensures forall ent: nat, c: Byte, k: nat :: ent < 256 + |d| && 256 <= k < 256 + |d| ==>
      (Find(d, ent, c) == k <==> Phrase(d, k) == Phrase(d, ent) + [c])
  {
    hide Phrase, Find, Chained, Keyed;
    forall j: nat, k: nat | j < 256 + |d| && k < 256 + |d| && Phrase(d, j) == Phrase(d, k)
      ensures j == k
    {
      PhrasesDiffer(d, j, k);
    }
    forall k: nat, n: nat | k < 256 + |d| && 0 < n <= |Phrase(d, k)|
      ensures IsPhrase(d, Phrase(d, k)[..n])
    {
      var p := PrefixCode(d, k, n);
    }
    forall ent: nat, c: Byte, k: nat | ent < 256 + |d| && 256 <= k < 256 + |d|
      ensures Find(d, ent, c) == k <==> Phrase(d, k) == Phrase(d, ent) + [c]
    {
      FindsPhrase(d, ent, c, k);
    }
  }

  ghost predicate IsPhrase(d: Dict, s: seq<Byte>) requires WellFormed(d) {
    exists p: nat :: p < 256 + |d| && Phrase(d, p) == s
  }

  lemma {:induction false} FindsPhrase(d: Dict, ent: nat, c: Byte, k: nat)
    requires WellFormed(d) && Distinct(d) && ent < 256 + |d| && 256 <= k < 256 + |d|
    ensures Find(d, ent, c) == k <==> Phrase(d, k) == Phrase(d, ent) + [c]
  {
    hide Find;
    var e := d[k - 256];
    assert Phrase(d, k) == Phrase(d, e.prefix) + [e.last];
    if Phrase(d, k) == Phrase(d, ent) + [c] {
      assert Phrase(d, k)[..|Phrase(d, ent)|] == Phrase(d, ent) == Phrase(d, e.prefix);
      assert Phrase(d, k)[|Phrase(d, ent)|] == c == e.last;
      PhrasesDiffer(d, ent, e.prefix);
      var found := Find(d, ent, c);
      assert found != 0 ==> d[found - 256] == e;
    }
  }
}
