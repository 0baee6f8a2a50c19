/** The search of a Disk BASIC disk for a free granule, outwards from a track. */
module DecbSearch {
  const UNUSED := 0xFF    // a free granule's link

  function Apart(a: nat, b: nat): nat { if a < b then b - a else a - b }

  /** The order in which granules are looked at from a start: by the distance of
      their tracks, the track before first, and the granules of a track in
      order. */
  predicate Before(a: nat, b: nat, start: nat) {
    var p, q, s := a / 2, b / 2, start / 2;
    if p == q then a < b
    else if Apart(p, s) == Apart(q, s) then p < q
    else Apart(p, s) < Apart(q, s)
  }

  /** That is, the granule of the nearest track, or of the track before if two are as near,
      and the first of a track. */
  lemma {:induction false} NearestIs(fat: seq<nat>, count: nat, granule: nat, start: nat)
    requires count <= |fat|
    requires forall g: nat :: g < count && fat[g] == UNUSED && g != granule ==> Before(granule, g, start)
    ensures forall g: nat :: g < count && fat[g] == 0xFF && g != granule ==>
      var t, u, from := granule / 2, g / 2, start / 2;
      || (t == u && granule < g)
      || (t != u && Apart(t, from) < Apart(u, from))
      || (t < from < u && from - t == u - from)
  {
    forall g: nat | g < count && fat[g] == 0xFF && g != granule
      ensures Before(granule, g, start)
    {
    }
  }

  /** Tracks lo to hi have been looked at. */
  ghost predicate Looked(seen: seq<nat>, lo: nat, hi: nat, start: nat) {
    && (forall i: nat :: i < |seen| ==> 2 * lo <= seen[i] < 2 * hi)
    && (forall g: nat :: 2 * lo <= g < 2 * hi ==> g in seen)
    && (forall i: nat, j: nat :: i < j < |seen| ==> Before(seen[i], seen[j], start))
  }

  /** The track that comes next: the one before those looked at, or after them. */
  predicate NextTrack(down: bool, lo: nat, hi: nat, tracks: nat, s: nat, p: int) {
    if down then p == lo - 1 && hi - 1 - s <= s - lo && (hi == tracks || hi - 1 - s == s - lo)
    else p == hi && s - lo <= hi - s && (lo == 0 || s - lo == hi - s)
  }

  lemma {:induction false} LookedMore(seen: seq<nat>, lo: nat, hi: nat, start: nat, down: bool, tracks: nat, p: nat)
    requires Looked(seen, lo, hi, start) && lo <= start / 2 <= hi <= tracks && p < tracks
    requires lo < hi ==> start / 2 < hi
    requires NextTrack(down, lo, hi, tracks, start / 2, p)
    ensures
      var lo', hi' := if down then lo - 1 else lo, if down then hi else hi + 1;
      lo' >= 0 && Looked(seen + [2 * p, 2 * p + 1], lo', hi', start)
    ensures forall g: nat :: g < 2 * tracks && g !in seen && g / 2 != p ==>
      Before(2 * p, g, start) && Before(2 * p + 1, g, start)
  {
    hide Before;
    var lo', hi' := if down then lo - 1 else lo, if down then hi else hi + 1;
    var more := seen + [2 * p, 2 * p + 1];
    forall g: nat | 2 * lo' <= g < 2 * hi'
      ensures g in more
    {
      if g / 2 == p {
        assert more[|seen| + g % 2] == g;
      } else {
        assert g in seen;
      }
    }
    TrackInOrder(p, start);
    forall i: nat, j: nat | i < j < |more|
      ensures Before(more[i], more[j], start)
    {
      if j >= |seen| && i < |seen| {
        TrackAfter(lo, hi, start, down, tracks, p, seen[i]);
      }
    }
    forall g: nat | g < 2 * tracks && g !in seen && g / 2 != p
      ensures Before(2 * p, g, start) && Before(2 * p + 1, g, start)
    {
      TrackAfter(lo, hi, start, down, tracks, p, g);
    }
  }

  lemma {:induction false} TrackInOrder(p: nat, start: nat)
    ensures Before(2 * p, 2 * p + 1, start)
  {
  }

  /** The track turned to comes after what has been looked at, and before the rest. */
  lemma {:induction false} TrackAfter(
      lo: nat, hi: nat, start: nat, down: bool, tracks: nat, p: nat, g: nat)
    requires lo <= start / 2 <= hi <= tracks && p < tracks && (lo < hi ==> start / 2 < hi) && g / 2 != p
    requires NextTrack(down, lo, hi, tracks, start / 2, p)
    ensures 2 * lo <= g < 2 * hi ==> Before(g, 2 * p, start) && Before(g, 2 * p + 1, start)
    ensures !(2 * lo <= g < 2 * hi) && g < 2 * tracks ==> Before(2 * p, g, start) && Before(2 * p + 1, g, start)
  {
  }

  /** The granules looked at up to one of a track. */
  function Seen(looked: seq<nat>, position: nat): seq<nat> {
    if position % 2 == 0 then looked else looked + [position - 1]
  }

  /** A free granule after none that was free is the first. */
  lemma {:induction false} FirstFree(
      fat: seq<nat>, looked: seq<nat>, lo: nat, hi: nat, start: nat, down: bool, tracks: nat, position: nat)
    requires Looked(looked, lo, hi, start) && lo <= start / 2 <= hi <= tracks && position < 2 * tracks <= |fat|
    requires lo < hi ==> start / 2 < hi
    requires NextTrack(down, lo, hi, tracks, start / 2, position / 2)
    requires forall i: nat :: i < |Seen(looked, position)| ==>
      Seen(looked, position)[i] < |fat| && fat[Seen(looked, position)[i]] != UNUSED
    ensures forall g: nat :: g < 2 * tracks && fat[g] == UNUSED && g != position ==> Before(position, g, start)
  {
    hide Looked, NextTrack;
    var p := position / 2;
    LookedMore(looked, lo, hi, start, down, tracks, p);
    forall g: nat | g < 2 * tracks && fat[g] == UNUSED && g != position
      ensures Before(position, g, start)
    {
      assert g !in Seen(looked, position);
      assert position % 2 == 1 ==> Seen(looked, position)[|looked|] == position - 1;
      assert forall i: nat :: i < |looked| ==> Seen(looked, position)[i] == looked[i];
    }
  }

  lemma {:induction false} SeenInOrder(
      looked: seq<nat>, lo: nat, hi: nat, start: nat, down: bool, tracks: nat, position: nat)
    requires Looked(looked, lo, hi, start) && lo <= start / 2 <= hi <= tracks && position < 2 * tracks
    requires lo < hi ==> start / 2 < hi
    requires NextTrack(down, lo, hi, tracks, start / 2, position / 2)
    ensures InOrder(Seen(looked, position) + [position], start)
  {
    hide Before, NextTrack;
    var p := position / 2;
    LookedMore(looked, lo, hi, start, down, tracks, p);
    var more := looked + [2 * p, 2 * p + 1];
    var seen := Seen(looked, position) + [position];
    assert seen == more[..|seen|];
  }

  ghost predicate InOrder(seen: seq<nat>, start: nat) {
    forall i: nat, j: nat :: i < j < |seen| ==> Before(seen[i], seen[j], start)
  }

  lemma {:induction false} AllLooked(fat: seq<nat>, looked: seq<nat>, lo: nat, hi: nat, start: nat, tracks: nat)
    requires Looked(looked, lo, hi, start) && lo <= hi <= tracks && hi - lo == tracks && 2 * tracks <= |fat|
    requires forall i: nat :: i < |looked| ==> looked[i] < |fat| && fat[looked[i]] != UNUSED
    ensures InOrder(looked, start) && forall g: nat :: g < 2 * tracks ==> fat[g] != UNUSED
  {
    hide Before;
    forall g: nat | g < 2 * tracks
      ensures fat[g] != UNUSED
    {
      assert g in looked;
    }
  }

  lemma {:induction false} StartsLooking(start: nat, tracks: nat)
    requires start < 2 * tracks
    ensures Looked([], start / 2, start / 2, start) && InOrder([], start)
    ensures NextTrack(false, start / 2, start / 2, tracks, start / 2, start / 2)
  {
  }

  /** Where the search goes after a track. */
  lemma {:induction false} Turned(down: bool, lo: nat, hi: nat, tracks: nat, s: nat, p: nat)
    requires NextTrack(down, lo, hi, tracks, s, p) && lo <= s <= hi <= tracks && p < tracks && s < tracks
    requires lo < hi ==> s < hi
    ensures
      var lo', hi' := if down then lo - 1 else lo, if down then hi else hi + 1;
      && 0 <= lo' <= s < hi' <= tracks
      && (!down && lo' > 0 ==> NextTrack(true, lo', hi', tracks, s, lo' - 1))
      && (!down && lo' == 0 ==> NextTrack(false, lo', hi', tracks, s, hi'))
      && (down && hi' < tracks ==> NextTrack(false, lo', hi', tracks, s, hi'))
      && (down && hi' == tracks ==> NextTrack(true, lo', hi', tracks, s, lo' - 1))
      && p == if down then lo' else hi' - 1
  {
  }

  /** How far the search has got. */
  ghost predicate Searching(
      fat: seq<nat>, count: nat, seen: seq<nat>, looked: seq<nat>, lo: nat, hi: nat, start: nat, down: bool,
      position: int)
  {
    && |seen| <= count <= |fat| && count % 2 == 0 && lo <= start / 2 <= hi <= count / 2 && (lo < hi ==> start / 2 < hi)
    && Looked(looked, lo, hi, start) && |looked| == 2 * (hi - lo)
    && NextTrack(down, lo, hi, count / 2, start / 2, position / 2)
    && |seen| == |looked| + position % 2 && InOrder(seen, start)
    && (if |seen| < count then 0 <= position < count && seen == Seen(looked, position) else seen == looked)
    && forall i: nat :: i < |seen| ==> seen[i] < count && fat[seen[i]] != UNUSED
  }

  /** The first granule of a track is not free. */
  lemma {:induction false} SearchOn(
      fat: seq<nat>, count: nat, seen: seq<nat>, looked: seq<nat>, lo: nat, hi: nat, start: nat, down: bool,
      position: int)
    requires Searching(fat, count, seen, looked, lo, hi, start, down, position) && |seen| < count
    requires position % 2 == 0 && fat[position] != UNUSED
    ensures Searching(fat, count, seen + [position], looked, lo, hi, start, down, position + 1)
  {
    hide Looked, NextTrack, InOrder;
    SeenInOrder(looked, lo, hi, start, down, count / 2, position);
    assert (position + 1) / 2 == position / 2;
  }

  /** Nor is the second. */
  lemma {:induction false} SearchEnd(
      fat: seq<nat>, count: nat, seen: seq<nat>, looked: seq<nat>, lo: nat, hi: nat, start: nat, down: bool,
      position: int)
    returns (lo': nat, hi': nat)
    requires Searching(fat, count, seen, looked, lo, hi, start, down, position) && |seen| < count && start < count
    requires position % 2 == 1 && fat[position] != UNUSED
    ensures lo' <= start / 2 < hi' <= count / 2 && |seen| + 1 == 2 * (hi' - lo')
    ensures position + 1 == if down then 2 * lo' + 2 else 2 * hi'
    ensures !down && lo' > 0 ==> NextTrack(true, lo', hi', count / 2, start / 2, lo' - 1)
    ensures !down && lo' == 0 ==> NextTrack(false, lo', hi', count / 2, start / 2, hi')
    ensures down && hi' < count / 2 ==> NextTrack(false, lo', hi', count / 2, start / 2, hi')
    ensures down && hi' == count / 2 ==> NextTrack(true, lo', hi', count / 2, start / 2, lo' - 1)
    ensures Looked(seen + [position], lo', hi', start) && InOrder(seen + [position], start)
  {
    hide Looked, NextTrack, InOrder;
    var p := position / 2;
    LookedMore(looked, lo, hi, start, down, count / 2, p);
    SeenInOrder(looked, lo, hi, start, down, count / 2, position);
    Turned(down, lo, hi, count / 2, start / 2, p);
    lo', hi' := if down then lo - 1 else lo, if down then hi else hi + 1;
    assert seen + [position] == looked + [2 * p, 2 * p + 1];
  }

  lemma {:induction false} SearchBegins(fat: seq<nat>, count: nat, start: nat)
    requires start < count <= |fat| && count % 2 == 0
    ensures Searching(fat, count, [], [], start / 2, start / 2, start, false, start - start % 2)
  {
    hide Looked, NextTrack, InOrder;
    StartsLooking(start, count / 2);
    assert (start - start % 2) / 2 == start / 2 && (start - start % 2) % 2 == 0;
  }

  /** A granule that is looked at and is free is the first. */
  lemma {:induction false} SearchFinds(
      fat: seq<nat>, count: nat, seen: seq<nat>, looked: seq<nat>, lo: nat, hi: nat, start: nat, down: bool,
      position: int)
    requires Searching(fat, count, seen, looked, lo, hi, start, down, position) && |seen| < count
    ensures 0 <= position < count <= |fat| && InOrder(seen + [position], start)
    ensures forall i: nat :: i < |seen| ==> seen[i] < count && fat[seen[i]] != UNUSED
    ensures forall g: nat :: g < count && fat[g] == UNUSED && g != position ==> Before(position, g, start)
  {
    hide Looked, NextTrack, InOrder, Before;
    SeenInOrder(looked, lo, hi, start, down, count / 2, position);
    FirstFree(fat, looked, lo, hi, start, down, count / 2, position);
  }

  lemma {:induction false} SearchTurns(
      fat: seq<nat>, count: nat, seen: seq<nat>, last: nat, lo: nat, hi: nat, start: nat, down: bool, position: int)
    requires |seen| + 1 <= count <= |fat| && count % 2 == 0 && lo <= start / 2 < hi <= count / 2
    requires |seen| + 1 == 2 * (hi - lo) && Looked(seen + [last], lo, hi, start) && InOrder(seen + [last], start)
    requires position == if down then 2 * (lo - 1) else 2 * hi
    requires NextTrack(down, lo, hi, count / 2, start / 2, if down then lo - 1 else hi)
    requires |seen| + 1 < count ==> 0 <= position < count
    requires last < count && fat[last] != UNUSED
    requires forall i: nat :: i < |seen| ==> seen[i] < count && fat[seen[i]] != UNUSED
    ensures Searching(fat, count, seen + [last], seen + [last], lo, hi, start, down, position)
  {
    hide Looked, NextTrack, InOrder;
    assert position % 2 == 0 && position / 2 == if down then lo - 1 else hi;
  }

  lemma {:induction false} SearchFails(
      fat: seq<nat>, count: nat, seen: seq<nat>, looked: seq<nat>, lo: nat, hi: nat, start: nat, down: bool,
      position: int)
    requires Searching(fat, count, seen, looked, lo, hi, start, down, position) && |seen| == count
    ensures InOrder(seen, start) && forall i: nat :: i < |seen| ==> seen[i] < count
    ensures count <= |fat| && forall g: nat :: g < count ==> fat[g] != UNUSED
  {
    hide Looked, NextTrack, InOrder;
    AllLooked(fat, looked, lo, hi, start, count / 2);
  }
}
