/** How many of a sequence of flags are set. */
module Counting {
  function Count(bits: seq<bool>): nat {
    if |bits| == 0 then 0 else Count(bits[..|bits| - 1]) + if bits[|bits| - 1] then 1 else 0
  }

  /** Setting a run of bits that are all clear, or clearing one that are all set,
      changes the count by its length. */
  lemma {:induction false} CountRun(b: seq<bool>, b': seq<bool>, lsn: nat, count: nat, value: bool)
    requires |b| == |b'| && lsn + count <= |b|
    requires forall l: nat :: l < |b| ==>
      if lsn <= l < lsn + count then b[l] == !value && b'[l] == value else b'[l] == b[l]
    ensures Count(b') == if value then Count(b) + count else Count(b) - count
    decreases |b|
  {
    if |b| > 0 {
      var n := |b| - 1;
      if count > 0 && lsn + count == |b| {
        CountRun(b[..n], b'[..n], lsn, count - 1, value);
      } else {
        CountRun(b[..n], b'[..n], if count == 0 then 0 else lsn, count, value);
      }
    }
  }

  lemma {:induction false} CountZero(b: seq<bool>)
    ensures Count(b) == 0 <==> forall l: nat :: l < |b| ==> !b[l]
  {
    if |b| > 0 {
      CountZero(b[..|b| - 1]);
      assert forall l: nat :: l < |b| - 1 ==> b[..|b| - 1][l] == b[l];
    }
  }

  lemma {:induction false} CountConcat(a: seq<bool>, b: seq<bool>)
    ensures Count(a + b) == Count(a) + Count(b)
    decreases |b|
  {
    if |b| == 0 {
      assert a + b == a;
    } else {
      assert (a + b)[..|a + b| - 1] == a + b[..|b| - 1];
      CountConcat(a, b[..|b| - 1]);
    }
  }
}
