/** The directory of a Disk BASIC disk: the names that its entries have, how a path's
    name is compared with them, and what it says of the files. */
module DecbDir {
  import opened Bits

  const ENTRIES := 72

  /** Eight characters and three, filled with spaces. */
  datatype EntryName = EntryName(name: string, ext: string)

  /** An entry that is not in use begins with 0 or 255. */
  datatype DirEntry = Empty | Entry(name: EntryName, first: nat, lastSize: nat)

  /** A name that a path may have; one that is empty is a raw path. */
  predicate Legal(filename: string) { filename != "" && filename[0] != 255 as char && 0 as char !in filename }

  function Dot(filename: string): (k: nat)
    ensures k <= |filename| && (k < |filename| ==> filename[k] == '.')
    ensures forall i: nat :: i < k ==> filename[i] != '.'
  {
    if filename == "" || filename[0] == '.' then 0 else
      var k := Dot(filename[1..]);
      assert forall i: nat :: 0 < i < k + 1 ==> filename[i] == filename[1..][i - 1];
      k + 1
  }

  function Spaces(n: nat): string { seq(n, i => ' ') }

  function Filled(s: string, n: nat): (r: string)
    ensures |r| == n
  {
    if |s| >= n then s[..n] else s + Spaces(n - |s|)
  }

  function Extension(filename: string): string {
    if Dot(filename) < |filename| then filename[Dot(filename) + 1..] else ""
  }

  /** The entry's name that _decb_create gives a file. */
  function NameFor(filename: string): EntryName {
    EntryName(Filled(filename[..Dot(filename)], 8), Filled(Extension(filename), 3))
  }

  function Trimmed(s: string): string {
    if s != "" && s[|s| - 1] == ' ' then Trimmed(s[..|s| - 1]) else s
  }

  /** The string as far as its last character that is not a space. */
  lemma {:induction false} TrimmedIs(s: string)
    ensures
      var k := |Trimmed(s)|;
      Trimmed(s) <= s && (k > 0 ==> s[k - 1] != ' ') && forall i: nat :: k <= i < |s| ==> s[i] == ' '
    decreases |s|
  {
    if s != "" && s[|s| - 1] == ' ' {
      TrimmedIs(s[..|s| - 1]);
    }
  }

  /** DECBStringToCString */
  function Shown(n: EntryName): string {
    Trimmed(n.name) + if n.ext == Spaces(3) then "" else "." + Trimmed(n.ext)
  }

  function Lower(c: char): char { if 'A' <= c <= 'Z' then (c as int + 32) as char else c }

  /** strcasecmp finds no difference. */
  predicate SameName(a: string, b: string) {
    |a| == |b| && forall i: nat :: i < |a| ==> Lower(a[i]) == Lower(b[i])
  }

  /** The two differ at most in the case of letters A to Z. */
  predicate CaseOnly(a: string, b: string) {
    |a| == |b| && forall i: nat :: i < |a| ==>
      || a[i] == b[i]
      || ('A' <= a[i] <= 'Z' && b[i] as int == a[i] as int + 32)
      || ('A' <= b[i] <= 'Z' && a[i] as int == b[i] as int + 32)
  }

  lemma {:induction false} SameNameIs(a: string, b: string)
    ensures SameName(a, b) <==> CaseOnly(a, b)
  {
    forall i: nat | i < |a| == |b|
      ensures Lower(a[i]) == Lower(b[i]) <==>
        || a[i] == b[i]
        || ('A' <= a[i] <= 'Z' && b[i] as int == a[i] as int + 32)
        || ('A' <= b[i] <= 'Z' && a[i] as int == b[i] as int + 32)
    {
    }
  }

  /** _decb_cmp: the entry is of the file that a path names. */
  predicate Matches(e: DirEntry, filename: string) { e.Entry? && SameName(Shown(e.name), filename) }

  /** A path's name finds the file that is made with it. */
  predicate Fits(filename: string) { SameName(Shown(NameFor(filename)), filename) }

  lemma {:induction false} FilledMore(s: string, n: nat)
    requires |s| < n
    ensures Filled(s, n)[n - 1] == ' ' && Filled(s, n)[..n - 1] == Filled(s, n - 1)
  {
  }

  function Cut(s: string, n: nat): string { if |s| >= n then s[..n] else s }

  lemma {:induction false} TrimmedFilled(s: string, n: nat)
    requires ' ' !in s
    ensures Trimmed(Filled(s, n)) == Cut(s, n)
    decreases n
  {
    if |s| < n {
      FilledMore(s, n);
      TrimmedFilled(s, n - 1);
    } else if n > 0 {
      assert s[n - 1] in s;
    }
  }

  lemma {:induction false} ShownIs(filename: string)
    requires ' ' !in filename
    ensures
      var head, ext := filename[..Dot(filename)], Extension(filename);
      Shown(NameFor(filename)) == Cut(head, 8) + if ext == "" then "" else "." + Cut(ext, 3)
  {
    hide Trimmed, Dot;
    var head, ext := filename[..Dot(filename)], Extension(filename);
    TrimmedFilled(head, 8);
    TrimmedFilled(ext, 3);
    if ext == "" {
      assert Filled(ext, 3) == Spaces(3);
    } else {
      assert Filled(ext, 3)[0] == ext[0] != ' ';
    }
  }

  /** For a name without spaces that is so if and only if its two parts are no longer
      than the entry's, and there is something after its dot. */
  lemma {:induction false} FitsWhen(filename: string)
    requires ' ' !in filename
    ensures
      var k := Dot(filename);
      Fits(filename) <==> k <= 8 && (k < |filename| ==> 0 < |filename| - k - 1 <= 3)
  {
    hide Shown, NameFor, Dot;
    var k := Dot(filename);
    var head, ext := filename[..k], Extension(filename);
    ShownIs(filename);
    assert |Shown(NameFor(filename))| == |Cut(head, 8)| + if ext == "" then 0 else 1 + |Cut(ext, 3)|;
    if k <= 8 && (k < |filename| ==> 0 < |filename| - k - 1 <= 3) {
      assert Cut(head, 8) == head && Cut(ext, 3) == ext;
      assert Shown(NameFor(filename)) == filename;
    }
  }

  /** A file made with a name without spaces, of parts no longer than the entry's, is
      matched by every change of the name's case, which is a name that a path may have. */
  lemma {:induction false} AnyCase(e: DirEntry, made: string, asked: string)
    requires e.Entry? && e.name == NameFor(made) && ' ' !in made && Legal(made) && CaseOnly(made, asked)
    requires
      var k := Dot(made);
      k <= 8 && (k < |made| ==> 0 < |made| - k - 1 <= 3)
    ensures Legal(asked) && Matches(e, asked) && CaseOnly(Shown(e.name), asked)
  {
    hide NameFor, Shown, Dot;
    FitsWhen(made);
    SameNameIs(made, asked);
    SameNameIs(Shown(e.name), asked);
    forall i: nat | i < |asked|
      ensures asked[i] != 0 as char && (asked[i] == 255 as char ==> made[i] == 255 as char)
    {
      assert made[i] in made;
    }
  }

  /* The files that a directory lists. */

  /** Only one entry changes. */
  predicate EntrySet(dir: seq<DirEntry>, dir': seq<DirEntry>, i: nat, e: DirEntry) {
    i < |dir| && dir' == dir[i := e]
  }

  predicate IsEntry(dir: seq<DirEntry>, i: nat, h: nat) { i < |dir| && dir[i].Entry? && dir[i].first == h }

  /** Entries in use have different names and first granules. */
  ghost predicate EntriesApart(dir: seq<DirEntry>) {
    forall i: nat, j: nat :: i < j < |dir| && dir[i].Entry? && dir[j].Entry? ==>
      dir[i].name != dir[j].name && dir[i].first != dir[j].first
  }

  /** They are of files, with their last sector sizes. */
  ghost predicate Sized(dir: seq<DirEntry>, lastSizes: map<nat, nat>) {
    forall i: nat :: i < |dir| && dir[i].Entry? ==>
      dir[i].first in lastSizes && lastSizes[dir[i].first] == dir[i].lastSize
  }

  /** Every file has one. */
  ghost predicate Covered(dir: seq<DirEntry>, lastSizes: map<nat, nat>) {
    forall h: nat :: h in lastSizes ==> exists i: nat :: IsEntry(dir, i, h)
  }

  ghost predicate Listed(dir: seq<DirEntry>, lastSizes: map<nat, nat>) {
    |dir| == ENTRIES && EntriesApart(dir) && Sized(dir, lastSizes) && Covered(dir, lastSizes)
  }

  ghost predicate HasName(dir: seq<DirEntry>, name: EntryName) {
    exists i: nat :: i < |dir| && dir[i].Entry? && dir[i].name == name
  }

  /** What a disk stores, by name, from what it stores by first granule. */
  ghost function Named(dir: seq<DirEntry>, store: map<nat, seq<Byte>>): map<EntryName, seq<Byte>>
    requires EntriesApart(dir)
  {
    map i | 0 <= i < |dir| && dir[i].Entry? && dir[i].first in store :: dir[i].name := store[dir[i].first]
  }

  lemma {:induction false} NothingListed(dir: seq<DirEntry>)
    requires |dir| == ENTRIES && forall i: nat :: i < |dir| ==> dir[i].Empty?
    ensures Listed(dir, map[]) && Named(dir, map[]) == map[]
  {
  }

  lemma {:induction false} NamedHas(dir: seq<DirEntry>, store: map<nat, seq<Byte>>, i: nat)
    requires EntriesApart(dir) && i < |dir| && dir[i].Entry? && dir[i].first in store
    ensures dir[i].name in Named(dir, store) && Named(dir, store)[dir[i].name] == store[dir[i].first]
  {
  }

  lemma {:induction false} NamedEntry(dir: seq<DirEntry>, store: map<nat, seq<Byte>>, name: EntryName)
    returns (i: nat)
    requires EntriesApart(dir) && name in Named(dir, store)
    ensures i < |dir| && dir[i].Entry? && dir[i].name == name && dir[i].first in store
  {
    i :| i < |dir| && dir[i].Entry? && dir[i].name == name && dir[i].first in store;
  }

  lemma {:induction false} NamedKeys(dir: seq<DirEntry>, lastSizes: map<nat, nat>, store: map<nat, seq<Byte>>)
    requires Listed(dir, lastSizes) && store.Keys == lastSizes.Keys
    ensures forall name :: name in Named(dir, store) <==> HasName(dir, name)
  {
  }

  /** A change to one entry and its file changes nothing else by name. */
  lemma {:induction false} NamedAfter(
      dir: seq<DirEntry>, store: map<nat, seq<Byte>>, dir': seq<DirEntry>, store': map<nat, seq<Byte>>, i: nat)
    requires EntriesApart(dir) && EntriesApart(dir') && i < |dir| == |dir'| && dir' == dir[i := dir'[i]]
    requires forall k: nat :: k < |dir| && k != i && dir[k].Entry? ==> SameFile(store, store', dir[k].first)
    requires dir'[i].Entry? ==> dir'[i].first in store'
    ensures
      var rest := Named(dir, store) - if dir[i].Entry? then {dir[i].name} else {};
      Named(dir', store') == if dir'[i].Entry? then rest[dir'[i].name := store'[dir'[i].first]] else rest
  {
    hide Named;
    var was, now := Named(dir, store), Named(dir', store');
    var rest := was - if dir[i].Entry? then {dir[i].name} else {};
    var expected := if dir'[i].Entry? then rest[dir'[i].name := store'[dir'[i].first]] else rest;
    if dir'[i].Entry? {
      NamedHas(dir', store', i);
    }
    forall n | n in expected
      ensures n in now && now[n] == expected[n]
    {
      if !(dir'[i].Entry? && dir'[i].name == n) {
        var k := NamedEntry(dir, store, n);
        assert k != i && dir'[k] == dir[k];
        NamedHas(dir, store, k);
        NamedHas(dir', store', k);
      }
    }
    forall n | n in now
      ensures n in expected
    {
      var k := NamedEntry(dir', store', n);
      if k != i {
        assert dir[k] == dir'[k];
        NamedHas(dir, store, k);
      }
    }
  }

  predicate SameFile(store: map<nat, seq<Byte>>, store': map<nat, seq<Byte>>, h: nat) {
    (h in store <==> h in store') && (h in store ==> store'[h] == store[h])
  }

  lemma {:induction false} CoveredAfter(
      dir: seq<DirEntry>, lastSizes: map<nat, nat>, dir': seq<DirEntry>, sizes': map<nat, nat>, i: nat)
    requires Covered(dir, lastSizes) && i < |dir| == |dir'| && dir' == dir[i := dir'[i]]
    requires forall h: nat :: h in sizes' && !IsEntry(dir', i, h) ==> h in lastSizes && !IsEntry(dir, i, h)
    ensures Covered(dir', sizes')
  {
    forall h: nat | h in sizes'
      ensures exists k: nat :: IsEntry(dir', k, h)
    {
      if !IsEntry(dir', i, h) {
        var k: nat :| IsEntry(dir, k, h);
        assert IsEntry(dir', k, h);
      }
    }
  }

  /** An entry of its own for a new file. */
  lemma {:induction false} NewListed(
      dir: seq<DirEntry>, lastSizes: map<nat, nat>, store: map<nat, seq<Byte>>, i: nat, name: EntryName, g: nat)
    requires Listed(dir, lastSizes) && store.Keys == lastSizes.Keys
    requires i < |dir| && dir[i].Empty? && !HasName(dir, name) && g !in lastSizes
    ensures
      var dir' := dir[i := Entry(name, g, 0)];
      Listed(dir', lastSizes[g := 0]) && Named(dir', store[g := []]) == Named(dir, store)[name := []]
  {
    hide Covered, Named;
    var dir' := dir[i := Entry(name, g, 0)];
    CoveredAfter(dir, lastSizes, dir', lastSizes[g := 0], i);
    forall k: nat | k < |dir| && dir[k].Entry?
      ensures dir[k].name != name && dir[k].first != g
    {
    }
    NamedAfter(dir, store, dir', store[g := []], i);
    assert Named(dir, store) - {} == Named(dir, store);
  }

  /** The entry of a file goes. */
  lemma {:induction false} GoneListed(
      dir: seq<DirEntry>, lastSizes: map<nat, nat>, store: map<nat, seq<Byte>>, i: nat)
    requires Listed(dir, lastSizes) && store.Keys == lastSizes.Keys && i < |dir| && dir[i].Entry?
    ensures
      var g := dir[i].first;
      && Listed(dir[i := Empty], lastSizes - {g})
      && Named(dir[i := Empty], store - {g}) == Named(dir, store) - {dir[i].name}
  {
    hide Covered, Named;
    var g := dir[i].first;
    forall k: nat | k < |dir| && k != i && dir[k].Entry?
      ensures dir[k].first != g
    {
    }
    CoveredAfter(dir, lastSizes, dir[i := Empty], lastSizes - {g}, i);
    NamedAfter(dir, store, dir[i := Empty], store - {g}, i);
  }

  /** The entry of a file gets another last sector size, and the file other bytes. */
  lemma {:induction false} SizeListed(
      dir: seq<DirEntry>, lastSizes: map<nat, nat>, store: map<nat, seq<Byte>>, i: nat, lastSize: nat,
      bytes: seq<Byte>)
    requires Listed(dir, lastSizes) && store.Keys == lastSizes.Keys && i < |dir| && dir[i].Entry?
    ensures
      var g, name := dir[i].first, dir[i].name;
      var dir' := dir[i := Entry(name, g, lastSize)];
      && Listed(dir', lastSizes[g := lastSize])
      && Named(dir', store[g := bytes]) == Named(dir, store)[name := bytes]
  {
    hide Covered, Named;
    var g, name := dir[i].first, dir[i].name;
    var dir' := dir[i := Entry(name, g, lastSize)];
    forall k: nat | k < |dir| && k != i && dir[k].Entry?
      ensures dir[k].first != g && dir[k].name != name
    {
    }
    CoveredAfter(dir, lastSizes, dir', lastSizes[g := lastSize], i);
    NamedAfter(dir, store, dir', store[g := bytes], i);
    var was := Named(dir, store);
    assert (was - {name})[name := bytes] == was[name := bytes];
  }

  /* Which file a path's name finds, and which ones _decb_create kills. */

  /** The first entry that matches, or the end of the directory. */
  function FirstMatch(dir: seq<DirEntry>, filename: string): (i: nat)
    ensures i <= |dir| && (i < |dir| ==> Matches(dir[i], filename))
    ensures forall k: nat :: k < i ==> !Matches(dir[k], filename)
  {
    if dir == [] || Matches(dir[0], filename) then 0 else
      var k := FirstMatch(dir[1..], filename);
      assert forall j: nat :: 0 < j < k + 1 ==> dir[j] == dir[1..][j - 1];
      k + 1
  }

  /** It is the first entry that differs at most in case. */
  lemma {:induction false} FirstInCase(dir: seq<DirEntry>, filename: string)
    ensures
      var i := FirstMatch(dir, filename);
      && i <= |dir| && (i < |dir| ==> dir[i].Entry? && CaseOnly(Shown(dir[i].name), filename))
      && forall k: nat :: k < i ==> !(dir[k].Entry? && CaseOnly(Shown(dir[k].name), filename))
  {
    hide Shown, CaseOnly, SameName;
    forall k: nat | k < |dir| && dir[k].Entry?
      ensures Matches(dir[k], filename) <==> CaseOnly(Shown(dir[k].name), filename)
    {
      SameNameIs(Shown(dir[k].name), filename);
    }
  }

  lemma {:induction false} FirstMatchIs(dir: seq<DirEntry>, filename: string, i: nat)
    requires i <= |dir| && (i < |dir| ==> Matches(dir[i], filename))
    requires forall k: nat :: k < i ==> !Matches(dir[k], filename)
    ensures i == FirstMatch(dir, filename)
  {
  }

  /** The entries up to one that match are empty: what killing a file of a name
      leaves while there is one up to there. */
  function Cleared(dir: seq<DirEntry>, filename: string, upto: nat): (r: seq<DirEntry>)
    ensures |r| == |dir|
  {
    seq(|dir|, i requires 0 <= i < |dir| => if i <= upto && Matches(dir[i], filename) then Empty else dir[i])
  }

  /** The names and the first granules of the entries that Cleared takes. */
  ghost function ClearedNames(dir: seq<DirEntry>, filename: string, upto: nat): set<EntryName> {
    set i | 0 <= i < |dir| && i <= upto && Matches(dir[i], filename) :: dir[i].name
  }

  ghost function ClearedFirsts(dir: seq<DirEntry>, filename: string, upto: nat): set<nat> {
    set i | 0 <= i < |dir| && i <= upto && Matches(dir[i], filename) :: dir[i].first
  }

  lemma {:induction false} ClearedMore(dir: seq<DirEntry>, filename: string, i: nat, upto: nat)
    requires i == FirstMatch(dir, filename) <= upto < |dir|
    ensures Cleared(dir[i := Empty], filename, upto) == Cleared(dir, filename, upto)
    ensures ClearedNames(dir, filename, upto) == {dir[i].name} + ClearedNames(dir[i := Empty], filename, upto)
    ensures ClearedFirsts(dir, filename, upto) == {dir[i].first} + ClearedFirsts(dir[i := Empty], filename, upto)
  {
    var dir' := dir[i := Empty];
    forall n | n in ClearedNames(dir, filename, upto)
      ensures n in {dir[i].name} + ClearedNames(dir', filename, upto)
    {
      var k: nat :| k < |dir| && k <= upto && Matches(dir[k], filename) && dir[k].name == n;
      assert k != i ==> dir'[k] == dir[k];
    }
    forall g | g in ClearedFirsts(dir, filename, upto)
      ensures g in {dir[i].first} + ClearedFirsts(dir', filename, upto)
    {
      var k: nat :| k < |dir| && k <= upto && Matches(dir[k], filename) && dir[k].first == g;
      assert k != i ==> dir'[k] == dir[k];
    }
  }

  /** When only the last of them is left it is all there is to clear. */
  lemma {:induction false} ClearedLast(dir: seq<DirEntry>, filename: string, i: nat)
    requires i == FirstMatch(dir, filename) < |dir|
    ensures Cleared(dir, filename, i) == dir[i := Empty]
    ensures ClearedNames(dir, filename, i) == {dir[i].name} && ClearedFirsts(dir, filename, i) == {dir[i].first}
  {
    hide SameName, Shown;
    forall k: nat | k < |dir| && k <= i && Matches(dir[k], filename)
      ensures k == i
    {
    }
    assert Matches(dir[i], filename);
    assert forall k: nat :: k < |dir| ==> Cleared(dir, filename, i)[k] == dir[i := Empty][k];
  }

  /** The entry of a name, or the end of the directory. */
  function IndexOf(dir: seq<DirEntry>, name: EntryName): (i: nat)
    ensures i <= |dir| && (i < |dir| ==> dir[i].Entry? && dir[i].name == name)
    ensures forall k: nat :: k < i ==> !(dir[k].Entry? && dir[k].name == name)
  {
    if dir == [] || (dir[0].Entry? && dir[0].name == name) then 0 else
      var k := IndexOf(dir[1..], name);
      assert forall j: nat :: 0 < j < k + 1 ==> dir[j] == dir[1..][j - 1];
      k + 1
  }

  function FirstEmpty(dir: seq<DirEntry>): (i: nat)
    ensures i <= |dir| && (i < |dir| ==> dir[i].Empty?)
    ensures forall k: nat :: k < i ==> !dir[k].Empty?
  {
    if dir == [] || dir[0].Empty? then 0 else
      var k := FirstEmpty(dir[1..]);
      assert forall j: nat :: 0 < j < k + 1 ==> dir[j] == dir[1..][j - 1];
      k + 1
  }

  /** The directory that a new file of a name finds: if the name is there, every
      entry up to its that the name finds is gone. */
  function Replaced(dir: seq<DirEntry>, filename: string): (r: seq<DirEntry>)
    ensures |r| == |dir|
  {
    var j := IndexOf(dir, NameFor(filename));
    if j < |dir| then Cleared(dir, filename, j) else dir
  }

  ghost function GoneNames(dir: seq<DirEntry>, filename: string): set<EntryName> {
    var j := IndexOf(dir, NameFor(filename));
    if j < |dir| then ClearedNames(dir, filename, j) else {}
  }

  ghost function GoneFirsts(dir: seq<DirEntry>, filename: string): set<nat> {
    var j := IndexOf(dir, NameFor(filename));
    if j < |dir| then ClearedFirsts(dir, filename, j) else {}
  }

  /** So killing the first file that the name finds is a step towards it. */
  lemma {:induction false} ReplacedMore(dir: seq<DirEntry>, filename: string)
    requires EntriesApart(dir) && IndexOf(dir, NameFor(filename)) < |dir| && Fits(filename)
    ensures ReplacedBy(dir, filename)
  {
    hide Shown, NameFor, SameName, Cleared, ClearedNames, ClearedFirsts;
    var i, j := FirstMatch(dir, filename), IndexOf(dir, NameFor(filename));
    assert Matches(dir[j], filename);
    var dir' := dir[i := Empty];
    if i == j {
      assert IndexOf(dir', NameFor(filename)) == |dir|;
      ClearedLast(dir, filename, i);
    } else {
      assert dir'[j] == dir[j];
      assert IndexOf(dir', NameFor(filename)) == j;
      ClearedMore(dir, filename, i, j);
    }
  }

  ghost predicate ReplacedBy(dir: seq<DirEntry>, filename: string) {
    var i := FirstMatch(dir, filename);
    && i < |dir| && dir[i].Entry? && Replaced(dir[i := Empty], filename) == Replaced(dir, filename)
    && GoneNames(dir, filename) == {dir[i].name} + GoneNames(dir[i := Empty], filename)
    && GoneFirsts(dir, filename) == {dir[i].first} + GoneFirsts(dir[i := Empty], filename)
  }

  /** A new file is in the first entry not in use of the directory that it finds, and
      the files that it replaces are gone. */
  ghost predicate Made(
      dir: seq<DirEntry>, store: map<EntryName, seq<Byte>>, files: map<nat, seq<nat>>, dir': seq<DirEntry>,
      store': map<EntryName, seq<Byte>>, files': map<nat, seq<nat>>, filename: string, i: nat, first: nat)
  {
    var found, name := Replaced(dir, filename), NameFor(filename);
    && i == FirstEmpty(found) < |dir| && dir' == found[i := Entry(name, first, 0)]
    && store' == (store - GoneNames(dir, filename))[name := []]
    && files' == (files - GoneFirsts(dir, filename))[first := [first]]
  }

  lemma {:induction false} MinusMore<K, V>(m: map<K, V>, k: K, s: set<K>)
    ensures (m - {k}) - s == m - ({k} + s)
  {
  }

  lemma {:induction false} MadeAfter(
      dir: seq<DirEntry>, store: map<EntryName, seq<Byte>>, files: map<nat, seq<nat>>, dir': seq<DirEntry>,
      store': map<EntryName, seq<Byte>>, files': map<nat, seq<nat>>, filename: string, i: nat, first: nat)
    requires ReplacedBy(dir, filename)
    requires
      var k := FirstMatch(dir, filename);
      Made(dir[k := Empty], store - {dir[k].name}, files - {dir[k].first}, dir', store', files', filename, i, first)
    ensures Made(dir, store, files, dir', store', files', filename, i, first)
  {
    hide Replaced, GoneNames, GoneFirsts, NameFor;
    var k := FirstMatch(dir, filename);
    MinusMore(store, dir[k].name, GoneNames(dir[k := Empty], filename));
    MinusMore(files, dir[k].first, GoneFirsts(dir[k := Empty], filename));
  }

  lemma {:induction false} MadeNew(
      dir: seq<DirEntry>, store: map<EntryName, seq<Byte>>, files: map<nat, seq<nat>>, filename: string, first: nat)
    requires IndexOf(dir, NameFor(filename)) == |dir| && FirstEmpty(dir) < |dir|
    ensures
      var i, name := FirstEmpty(dir), NameFor(filename);
      Made(dir, store, files, dir[i := Entry(name, first, 0)], store[name := []], files[first := [first]], filename,
        i, first)
  {
    NothingGone(dir, filename);
    assert store - {} == store && files - {} == files;
  }

  lemma {:induction false} MadeNames(
      dir: seq<DirEntry>, store: map<EntryName, seq<Byte>>, files: map<nat, seq<nat>>, dir': seq<DirEntry>,
      store': map<EntryName, seq<Byte>>, files': map<nat, seq<nat>>, filename: string, i: nat, first: nat)
    requires Made(dir, store, files, dir', store', files', filename, i, first)
    ensures store' == (store - GoneNames(dir, filename))[NameFor(filename) := []]
  {
  }

  /** A new file whose name is not there is in the first entry not in use. */
  lemma {:induction false} MadeFirst(
      dir: seq<DirEntry>, store: map<EntryName, seq<Byte>>, files: map<nat, seq<nat>>, dir': seq<DirEntry>,
      store': map<EntryName, seq<Byte>>, files': map<nat, seq<nat>>, filename: string, i: nat, first: nat)
    requires Made(dir, store, files, dir', store', files', filename, i, first) && !HasName(dir, NameFor(filename))
    ensures i == FirstEmpty(dir) < |dir| == |dir'| && dir' == dir[i := Entry(NameFor(filename), first, 0)]
    ensures store' == store[NameFor(filename) := []] && HasName(dir', NameFor(filename))
    ensures GoneFirsts(dir, filename) == {}
  {
    hide NameFor;
    NameAt(dir, NameFor(filename));
    NothingGone(dir, filename);
    assert store - {} == store;
    assert dir'[i].name == NameFor(filename);
  }

  /** If its own name does not find the file, killing what it finds does not take the
      entry in the way. */
  lemma {:induction false} NotReplaced(dir: seq<DirEntry>, filename: string)
    requires !Fits(filename) && FirstMatch(dir, filename) < |dir|
    ensures
      var i := FirstMatch(dir, filename);
      HasName(dir[i := Empty], NameFor(filename)) <==> HasName(dir, NameFor(filename))
  {
    hide Shown, NameFor, SameName;
    var i := FirstMatch(dir, filename);
    var dir' := dir[i := Empty];
    if HasName(dir, NameFor(filename)) {
      var k: nat :| k < |dir| && dir[k].Entry? && dir[k].name == NameFor(filename);
      assert dir'[k] == dir[k];
    }
    if HasName(dir', NameFor(filename)) {
      var k: nat :| k < |dir'| && dir'[k].Entry? && dir'[k].name == NameFor(filename);
      assert dir'[k] == dir[k];
    }
  }

  lemma {:induction false} NothingGone(dir: seq<DirEntry>, filename: string)
    requires IndexOf(dir, NameFor(filename)) == |dir|
    ensures Replaced(dir, filename) == dir && GoneNames(dir, filename) == {} && GoneFirsts(dir, filename) == {}
  {
  }

  lemma {:induction false} NameAt(dir: seq<DirEntry>, name: EntryName)
    ensures IndexOf(dir, name) < |dir| <==> HasName(dir, name)
  {
  }

  lemma {:induction false} NoDot(filename: string)
    requires '.' !in filename
    ensures Dot(filename) == |filename| && Extension(filename) == ""
    ensures NameFor(filename) == EntryName(Filled(filename, 8), Spaces(3))
  {
    assert filename[..|filename|] == filename && Filled("", 3) == Spaces(3);
  }

  /** Names that differ in case are different to _decb_create, and not to
      _decb_open. */
  lemma {:induction false} CaseDiffers()
    ensures Legal("FOO") && Legal("foo") && Fits("foo") && NameFor("FOO") != NameFor("foo")
    ensures SameName(Shown(NameFor("FOO")), "foo")
  {
    hide Dot, Trimmed, NameFor;
    NoDot("FOO");
    NoDot("foo");
    TrimmedFilled("FOO", 8);
    TrimmedFilled("foo", 8);
    assert NameFor("FOO").name[0] == 'F' && NameFor("foo").name[0] == 'f';
    assert Shown(NameFor("FOO")) == "FOO" && Shown(NameFor("foo")) == "foo";
  }

  /** A name of nine characters is cut to eight. */
  lemma {:induction false} LongName()
    ensures Legal("LONGNAMES") && !Fits("LONGNAMES")
  {
    hide Dot, Fits;
    NoDot("LONGNAMES");
    FitsWhen("LONGNAMES");
  }

  lemma {:induction false} OneEntry(dir: seq<DirEntry>, name: EntryName)
    requires |dir| == ENTRIES && dir[0].Entry? && forall i: nat :: 1 <= i < |dir| ==> dir[i].Empty?
    ensures FirstEmpty(dir) == 1 && (dir[0].name != name ==> !HasName(dir, name))
  {
    assert dir[1].Empty?;
  }

  /** A directory with two names that differ in case, and what a new file of the
      second finds. */
  lemma {:induction false} CaseCleared(dir: seq<DirEntry>, a: nat, b: nat)
    requires |dir| == ENTRIES && forall i: nat :: 2 <= i < |dir| ==> dir[i].Empty?
    requires dir[0] == Entry(NameFor("FOO"), a, 0) && dir[1] == Entry(NameFor("foo"), b, 0)
    ensures HasName(dir, NameFor("foo")) && GoneNames(dir, "foo") == {NameFor("FOO"), NameFor("foo")}
  {
    hide Shown, NameFor, SameName;
    CaseDiffers();
    assert IndexOf(dir, NameFor("foo")) == 1;
    assert Matches(dir[0], "foo") && Matches(dir[1], "foo");
    forall n | n in {NameFor("FOO"), NameFor("foo")}
      ensures n in ClearedNames(dir, "foo", 1)
    {
      assert n == dir[0].name || n == dir[1].name;
    }
  }
}
