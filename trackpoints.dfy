/**
  The trackpoint clean-up of fix.js: the per-point `second` annotation (addSecond, addSeconds)
  and the removal of points whose timestamp does not advance or whose position did not change
  (filterGoproBadTime).

  Trackpoints are JavaScript objects that addSecond updates in place, so they are a class here.
  The arrays handed between the steps are never updated in place (map and filter build new
  arrays of the same objects), so they are sequences of references.
*/
module Trackpoints {
  import opened Options

  /** One parsed GPX trackpoint. `time` is the instant of the point in epoch milliseconds,
      the value that both the `>` comparison and `getTime()` work on. */
  class Trackpoint {
    var lat: real
    var lng: real
    var ele: real
    var time: int
    /** Absent until addSecond writes it. */
    var second: Option<real>

    constructor (lat: real, lng: real, ele: real, time: int)
      ensures this.lat == lat && this.lng == lng && this.ele == ele && this.time == time
      ensures second == None
    {
      this.lat, this.lng, this.ele, this.time := lat, lng, ele, time;
      second := None;
    }
  }

  // ---------------------------------------------------------------------------------------------
  // addSecond / addSeconds

  /** Epoch milliseconds to epoch seconds, the division by 1000 of fix.js line 13. */
  function EpochSeconds(ms: int): (s: real)
    ensures s * 1000.0 == ms as real
  {
    ms as real / 1000.0
  }

  /** Converting to seconds keeps the order of instants. */
  lemma EpochSecondsMonotone(a: int, b: int)
    requires a <= b
    ensures EpochSeconds(a) <= EpochSeconds(b)
  {
  }

  /** The point carries the `second` field that addSecond writes. */
  ghost predicate Annotated(t: Trackpoint)
    reads t
  {
    t.second == Some(EpochSeconds(t.time))
  }

  /** addSecond: writes `second` into the point itself and hands the same point back. */
  method AddSecond(tp: Trackpoint) returns (r: Trackpoint)
    modifies tp`second
    ensures r == tp
    ensures Annotated(tp)
  {
    tp.second := Some(EpochSeconds(tp.time));
    r := tp;
  }

  /** addSeconds: `map` over the points with addSecond. The new array holds the very same
      objects, every one of them annotated, and no other field of any point changes. */
  method AddSeconds(tps: seq<Trackpoint>) returns (r: seq<Trackpoint>)
    modifies tps
    ensures r == tps
    ensures forall t :: t in tps ==> Annotated(t)
    ensures forall t :: t in tps ==>
      t.lat == old(t.lat) && t.lng == old(t.lng) && t.ele == old(t.ele) && t.time == old(t.time)
  {
    r := [];
    var i := 0;
    while i < |tps|
      invariant 0 <= i <= |tps|
      invariant r == tps[..i]
      invariant forall k :: 0 <= k < i ==> Annotated(tps[k])
      invariant forall t :: t in tps ==>
        t.lat == old(t.lat) && t.lng == old(t.lng) && t.ele == old(t.ele) && t.time == old(t.time)
    {
      var t := AddSecond(tps[i]);
      r := r + [t];
      i := i + 1;
    }
    assert r == tps;
  }

  /** Once annotated, points whose times never decrease have seconds that never decrease.
      (The requires spells Annotated out: through the predicate, Dafny cannot see in the
      ensures that `second` is present.) */
  lemma {:induction false} SecondsNondecreasing(tps: seq<Trackpoint>)
    requires forall i :: 0 <= i < |tps| ==> tps[i].second == Some(EpochSeconds(tps[i].time))
    requires forall i :: 1 <= i < |tps| ==> tps[i - 1].time <= tps[i].time
    ensures forall i :: 1 <= i < |tps| ==> tps[i - 1].second.value <= tps[i].second.value
  {
    forall i | 1 <= i < |tps|
      ensures tps[i - 1].second.value <= tps[i].second.value
    {
      EpochSecondsMonotone(tps[i - 1].time, tps[i].time);
    }
  }

  // ---------------------------------------------------------------------------------------------
  // filterGoproBadTime

  /** The test of fix.js line 22: `cur` is strictly later than `prev` and sits at a different
      position (it is enough that one of the two coordinates differs). */
  predicate Keep(prev: Trackpoint, cur: Trackpoint): (ok: bool)
    reads prev, cur
    ensures ok ==> prev != cur
  {
    cur.time > prev.time && !(cur.lat == prev.lat && cur.lng == prev.lng)
  }

  /** A point is never kept when compared with itself. */
  lemma NeverKeepsItself(t: Trackpoint)
    ensures !Keep(t, t)
  {
  }

  /** The points of `rest` that the filter keeps when its cursor starts at `prev`: every
      point is tested against the point before it, and then becomes the cursor. */
  function FilterFrom(prev: Trackpoint, rest: seq<Trackpoint>): (r: seq<Trackpoint>)
    reads prev, rest
    ensures |r| <= |rest|
    ensures forall t :: t in r ==> t in rest
    decreases |rest|
  {
    if rest == [] then []
    else (if Keep(prev, rest[0]) then [rest[0]] else []) + FilterFrom(rest[0], rest[1..])
  }

  /** filterGoproBadTime as a value: the cursor starts on the first point itself. */
  function GoodTime(tps: seq<Trackpoint>): (r: seq<Trackpoint>)
    reads tps
    ensures tps == [] ==> r == []
    ensures tps != [] ==> |r| <= |tps| - 1
    ensures forall t :: t in r ==> t in tps
  {
    if tps == [] then [] else FilterFrom(tps[0], tps)
  }

  /** filterGoproBadTime: one pass of `filter` with a cursor `prev` that starts on the first
      point (undefined when there is none) and moves to every point, kept or not. */
  method FilterGoproBadTime(tps: seq<Trackpoint>) returns (kept: seq<Trackpoint>)
    ensures kept == GoodTime(tps)
  {
    var prev: Trackpoint? := if |tps| > 0 then tps[0] else null;
    kept := [];
    var i := 0;
    while i < |tps|
      invariant 0 <= i <= |tps|
      invariant tps == [] ==> kept == []
      invariant tps != [] ==> prev != null && kept + FilterFrom(prev, tps[i..]) == GoodTime(tps)
    {
      var cur := tps[i];
      var ok := Keep(prev, cur);
      assert tps[i..] == [cur] + tps[i + 1..];
      assert FilterFrom(prev, tps[i..]) == (if ok then [cur] else []) + FilterFrom(cur, tps[i + 1..]);
      prev := cur;
      if ok {
        kept := kept + [cur];
      }
      i := i + 1;
    }
  }

  // ---------------------------------------------------------------------------------------------
  // What the filter keeps, stated by index

  /** The input positions from `j` on whose point passes the test against the point before it. */
  function KeptFrom(s: seq<Trackpoint>, j: nat): (idx: seq<nat>)
    requires 1 <= j
    reads s
    ensures forall k :: 0 <= k < |idx| ==> j <= idx[k] < |s|
    ensures forall k, l :: 0 <= k < l < |idx| ==> idx[k] < idx[l]
    ensures forall i :: j <= i < |s| ==> (i in idx <==> Keep(s[i - 1], s[i]))
    decreases |s| - j
  {
    if j >= |s| then [] else (if Keep(s[j - 1], s[j]) then [j] else []) + KeptFrom(s, j + 1)
  }

  /** The input positions that filterGoproBadTime keeps. */
  function KeptIndices(s: seq<Trackpoint>): (idx: seq<nat>)
    reads s
  {
    if s == [] then [] else KeptFrom(s, 1)
  }

  /** `out` is `s` restricted to the ascending positions `idx`, and a position i >= 1 is among
      them exactly when point i is later than point i - 1 and not at the same place. Position 0
      is never among them. */
  ghost predicate IsSelection(out: seq<Trackpoint>, s: seq<Trackpoint>, idx: seq<nat>)
    reads s
  {
    && |idx| == |out|
    && (forall k :: 0 <= k < |idx| ==> 1 <= idx[k] < |s| && out[k] == s[idx[k]])
    && (forall k, l :: 0 <= k < l < |idx| ==> idx[k] < idx[l])
    && (forall i :: 1 <= i < |s| ==> (i in idx <==> Keep(s[i - 1], s[i])))
  }

  lemma {:induction false} FilterFromAt(s: seq<Trackpoint>, j: nat)
    requires 1 <= j <= |s|
    ensures |FilterFrom(s[j - 1], s[j..])| == |KeptFrom(s, j)|
    ensures forall k :: 0 <= k < |KeptFrom(s, j)| ==>
      FilterFrom(s[j - 1], s[j..])[k] == s[KeptFrom(s, j)[k]]
    decreases |s| - j
  {
    if j < |s| {
      assert s[j..][0] == s[j] && s[j..][1..] == s[j + 1..];
      FilterFromAt(s, j + 1);
    }
  }

  /** The output of filterGoproBadTime is exactly the input points at KeptIndices, in input
      order: nothing is inserted, reordered or changed, the first point is always dropped, and
      every other point is kept iff it passes the test against the input point just before it
      (not against the last point kept). */
  lemma GoodTimeSelects(s: seq<Trackpoint>)
    ensures IsSelection(GoodTime(s), s, KeptIndices(s))
  {
    if s != [] {
      NeverKeepsItself(s[0]);
      assert GoodTime(s) == FilterFrom(s[0], s[1..]);
      FilterFromAt(s, 1);
    }
  }

  /** Sequences of positions that both ascend strictly and hold the same positions are equal. */
  lemma {:induction false} AscendingSameMembersEqual(x: seq<nat>, y: seq<nat>)
    requires forall k, l :: 0 <= k < l < |x| ==> x[k] < x[l]
    requires forall k, l :: 0 <= k < l < |y| ==> y[k] < y[l]
    requires forall v :: v in x <==> v in y
    ensures x == y
  {
    assert y != [] ==> y[0] in x;
    if x != [] {
      assert x[0] in x;
      assert y != [];
      assert y[0] in y;
      assert x[0] == y[0] by {
        var a :| 0 <= a < |y| && y[a] == x[0];
        var b :| 0 <= b < |x| && x[b] == y[0];
        assert y[0] <= y[a] && x[0] <= x[b];
      }
      forall v
        ensures v in x[1..] <==> v in y[1..]
      {
        if v in x[1..] {
          var a :| 1 <= a < |x| && x[a] == v;
          assert v in y;
          var b :| 0 <= b < |y| && y[b] == v;
          assert b != 0;
        }
        if v in y[1..] {
          var b :| 1 <= b < |y| && y[b] == v;
          assert v in x;
          var a :| 0 <= a < |x| && x[a] == v;
          assert a != 0;
        }
      }
      AscendingSameMembersEqual(x[1..], y[1..]);
      assert x == [x[0]] + x[1..] && y == [y[0]] + y[1..];
    }
  }

  /** The selection rule determines the output: whatever satisfies IsSelection for `s` is
      what filterGoproBadTime returns for `s`. */
  lemma GoodTimeIsTheSelection(s: seq<Trackpoint>, out: seq<Trackpoint>, idx: seq<nat>)
    requires IsSelection(out, s, idx)
    ensures out == GoodTime(s)
  {
    GoodTimeSelects(s);
    var kept := KeptIndices(s);
    forall v
      ensures v in idx <==> v in kept
    {
      if v in idx {
        var k :| 0 <= k < |idx| && idx[k] == v;
        assert 1 <= v < |s| && Keep(s[v - 1], s[v]);
      }
      if v in kept {
        var k :| 0 <= k < |kept| && kept[k] == v;
        assert 1 <= v < |s| && Keep(s[v - 1], s[v]);
      }
    }
    AscendingSameMembersEqual(idx, kept);
  }

  /** Every point passes the test against the point before it. */
  ghost predicate AllPass(s: seq<Trackpoint>)
    reads s
  {
    forall i :: 1 <= i < |s| ==> Keep(s[i - 1], s[i])
  }

  lemma {:induction false} FilterFromKeepsAll(prev: Trackpoint, rest: seq<Trackpoint>)
    ensures |FilterFrom(prev, rest)| == |rest| <==> AllPass([prev] + rest)
    ensures AllPass([prev] + rest) ==> FilterFrom(prev, rest) == rest
    decreases |rest|
  {
    if rest != [] {
      FilterFromKeepsAll(rest[0], rest[1..]);
      var s := [prev] + rest;
      assert [rest[0]] + rest[1..] == rest == s[1..];
      assert AllPass(s) <==> Keep(prev, rest[0]) && AllPass(rest) by {
        if Keep(prev, rest[0]) && AllPass(rest) {
          forall i | 1 <= i < |s|
            ensures Keep(s[i - 1], s[i])
          {
            if i > 1 {
              assert s[i - 1] == rest[i - 2] && s[i] == rest[i - 1];
            }
          }
        }
        if AllPass(s) {
          forall i | 1 <= i < |rest|
            ensures Keep(rest[i - 1], rest[i])
          {
            assert s[i] == rest[i - 1] && s[i + 1] == rest[i];
          }
          assert s[0] == prev && s[1] == rest[0];
        }
      }
    }
  }

  /** For a non-empty input, the output is one point short of the input exactly when every
      point is later than, and elsewhere than, the point before it; the output is then the
      input without its first point. */
  lemma GoodTimeKeepsAllIff(s: seq<Trackpoint>)
    requires s != []
    ensures |GoodTime(s)| == |s| - 1 <==> AllPass(s)
    ensures AllPass(s) ==> GoodTime(s) == s[1..]
  {
    NeverKeepsItself(s[0]);
    assert GoodTime(s) == FilterFrom(s[0], s[1..]);
    assert [s[0]] + s[1..] == s;
    FilterFromKeepsAll(s[0], s[1..]);
  }

  /** The filter is not idempotent: filtering a non-empty result again drops at least its
      first point once more. */
  lemma RefilterShrinks(s: seq<Trackpoint>)
    requires GoodTime(s) != []
    ensures |GoodTime(GoodTime(s))| < |GoodTime(s)|
    ensures GoodTime(GoodTime(s)) != GoodTime(s)
  {
  }

  /** The cursor moves to every point, kept or not. A point `b` dropped for being no later
      than `a` still becomes the point `c` is tested against, so `c` is kept even though it
      is no later than `a`. */
  lemma PrevIsPrecedingPoint(a: Trackpoint, b: Trackpoint, c: Trackpoint)
    requires b.time < c.time <= a.time
    requires c.lat != b.lat || c.lng != b.lng
    ensures GoodTime([a, b, c]) == [c]
  {
    assert [a, b, c][1..] == [b, c] && [b, c][1..] == [c];
    assert FilterFrom(b, [c]) == [c];
    assert FilterFrom(a, [b, c]) == [c];
    assert FilterFrom(a, [a, b, c]) == [c];
  }

  /** The output need not be in time order: after a jump back in time only the first point
      of the jump is dropped, and the next one is tested against it, not against `b`. */
  lemma OutputMayGoBackInTime(a: Trackpoint, b: Trackpoint, c: Trackpoint, d: Trackpoint)
    requires a.time < b.time && (b.lat != a.lat || b.lng != a.lng)
    requires c.time < d.time < b.time && (d.lat != c.lat || d.lng != c.lng)
    ensures GoodTime([a, b, c, d]) == [b, d]
    ensures GoodTime([a, b, c, d])[1].time < GoodTime([a, b, c, d])[0].time
  {
    assert [a, b, c, d][1..] == [b, c, d] && [b, c, d][1..] == [c, d] && [c, d][1..] == [d];
    assert FilterFrom(c, [d]) == [d];
    assert FilterFrom(b, [c, d]) == [d];
    assert FilterFrom(a, [b, c, d]) == [b, d];
    assert FilterFrom(a, [a, b, c, d]) == [b, d];
  }

  // ---------------------------------------------------------------------------------------------
  // The promise chain of fix.js without its I/O: parsed points -> addSeconds -> filterGoproBadTime

  method FixTrackpoints(tps: seq<Trackpoint>) returns (fixed: seq<Trackpoint>)
    modifies tps
    ensures fixed == GoodTime(tps)
    ensures forall t :: t in tps ==> Annotated(t)
    ensures forall t :: t in tps ==>
      t.lat == old(t.lat) && t.lng == old(t.lng) && t.ele == old(t.ele) && t.time == old(t.time)
  {
    var annotated := AddSeconds(tps);
    fixed := FilterGoproBadTime(annotated);
  }
}
