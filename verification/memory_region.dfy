/**
 * The objects of SVD-Loader.py's merge: class MemoryRegion, whose fields the
 * script updates in place, and reduce_memory_regions, which sorts the caller's
 * list in place and then grows the last result region in place. Each method is
 * proved against the value functions of module Regions through Value().
 */
module MemoryRegions {
  import opened Numbers
  import opened Regions

  class MemoryRegion {
    var start: int
    var end: int
    var nameParts: seq<string>

    /** The region this object currently stands for. */
    function Value(): Region
      reads this
    {
      Region(start, end, nameParts)
    }

    ghost predicate Valid()
      reads this
    {
      Value().Valid()
    }

    /** The constructor keeps the given name parts when there are any and
        otherwise the single name; it asserts start < end. */
    constructor (name: string, start: int, end: int, nameParts: seq<string>)
      requires start < end
      ensures Valid()
      ensures Value() == Region(start, end, if |nameParts| > 0 then nameParts else [name])
    {
      this.start := start;
      this.end := end;
      this.nameParts := if |nameParts| > 0 then nameParts else [name];
    }

    /** A fresh region covering both operands; neither operand changes. */
    method CombineWith(other: MemoryRegion) returns (r: MemoryRegion)
      requires Valid()
      ensures fresh(r) && r.Valid()
      ensures r.Value() == Value().CombineWith(other.Value())
    {
      r := new MemoryRegion("", Min(start, other.start), Max(end, other.end), nameParts + other.nameParts);
    }

    /** Grows this region in place to cover other, appending other's name parts. */
    method CombineFrom(other: MemoryRegion)
      modifies this
      ensures Value() == old(Value().CombineWith(other.Value()))
      ensures old(Valid()) ==> Valid()
    {
      var otherParts := other.nameParts;
      start := Min(start, other.start);
      end := Max(end, other.end);
      nameParts := nameParts + otherParts;
    }
  }

  /** The regions the objects of s currently stand for. */
  function Values(s: seq<MemoryRegion>): (v: seq<Region>)
    reads s
    ensures |v| == |s|
    ensures forall k :: 0 <= k < |s| ==> v[k] == s[k].Value()
  {
    seq(|s|, k requires 0 <= k < |s| reads s => s[k].Value())
  }

  /** No object appears twice. */
  ghost predicate Distinct(s: seq<MemoryRegion>)
  {
    forall i, j :: 0 <= i < j < |s| ==> s[i] != s[j]
  }

  lemma {:induction false} DistinctCountsOnce(s: seq<MemoryRegion>, o: MemoryRegion)
    requires Distinct(s)
    ensures multiset(s)[o] <= 1
  {
    if s != [] {
      var p := s[..|s| - 1];
      assert s == p + [s[|s| - 1]];
      DistinctCountsOnce(p, o);
      if o == s[|s| - 1] {
        assert o !in p;
      }
    }
  }

  /** A permutation of a list without repetitions has none either. */
  lemma PermutationKeepsDistinct(u: seq<MemoryRegion>, v: seq<MemoryRegion>)
    requires Distinct(u) && multiset(u) == multiset(v)
    ensures Distinct(v)
    ensures forall k :: 0 <= k < |v| ==> v[k] in u
  {
    forall i, j | 0 <= i < j < |v| ensures v[i] != v[j] {
      if v[i] == v[j] {
        var o := v[i];
        assert v == v[..j] + v[j..];
        assert v[..j][i] == o && v[j..][0] == o;
        assert multiset(v[..j])[o] >= 1 && multiset(v[j..])[o] >= 1;
        DistinctCountsOnce(u, o);
        assert false;
      }
    }
    forall k | 0 <= k < |v| ensures v[k] in u {
      assert v[k] in multiset(v);
    }
  }

  /** One step of the insertion sort: putting x, the region after the
      sorted prefix p, at the place j that the inner loop found gives the
      sorted prefix one longer. */
  lemma InsertionStep(s0: seq<Region>, i: nat, p: seq<MemoryRegion>, x: MemoryRegion, j: nat)
    requires i < |s0| && |p| == i && j <= i
    requires Values(p) == SortPrefix(s0, i) && x.Value() == s0[i]
    requires j > 0 ==> p[j - 1].start <= x.start
    requires forall k :: j <= k < i ==> x.start < p[k].start
    ensures Values(p[..j] + [x] + p[j..]) == SortPrefix(s0, i + 1)
  {
    var t := Values(p);
    forall k | j <= k < i ensures s0[i].start < t[k].start {
      assert t[k] == p[k].Value();
    }
    SortPrefixStep(s0, i, j);
    ValuesSplice(p, x, j);
  }

  /** The values of a list with one object spliced in. */
  lemma ValuesSplice(p: seq<MemoryRegion>, x: MemoryRegion, j: nat)
    requires j <= |p|
    ensures Values(p[..j] + [x] + p[j..]) == Values(p)[..j] + [x.Value()] + Values(p)[j..]
  {
    var q := p[..j] + [x] + p[j..];
    var t := Values(p);
    var u := t[..j] + [x.Value()] + t[j..];
    assert |q| == |u|;
    forall k | 0 <= k < |q| ensures Values(q)[k] == u[k] {
      if k < j {
        assert q[k] == p[k];
      } else if k > j {
        assert q[k] == p[k - 1];
      }
    }
  }

  /** The shape of one insertion: before[i] moved down to position j, the
      elements from j to i - 1 shifted up by one, everything else in place. */
  ghost predicate Spliced<T>(before: seq<T>, after: seq<T>, i: nat, j: nat)
  {
    && j <= i < |before| == |after|
    && (forall k :: 0 <= k < j ==> after[k] == before[k])
    && after[j] == before[i]
    && (forall k :: j < k <= i ==> after[k] == before[k - 1])
    && (forall k :: i < k < |after| ==> after[k] == before[k])
  }

  lemma SplicedAsSlices<T>(before: seq<T>, after: seq<T>, i: nat, j: nat)
    requires Spliced(before, after, i, j)
    ensures after[..i + 1] == before[..i][..j] + [before[i]] + before[..i][j..]
    ensures after[i + 1..] == before[i + 1..]
    ensures multiset(after) == multiset(before)
  {
    SplicedPrefix(before, after, i, j);
    SplicedPermutes(before, after, i, j);
  }

  lemma SplicedPrefix<T>(before: seq<T>, after: seq<T>, i: nat, j: nat)
    requires Spliced(before, after, i, j)
    ensures after[..i + 1] == before[..j] + [before[i]] + before[j..i]
    ensures after[..i + 1] == before[..i][..j] + [before[i]] + before[..i][j..]
  {
    assert before[..i][..j] == before[..j];
    assert before[..i][j..] == before[j..i];
    assert after[..i + 1] == before[..j] + [before[i]] + before[j..i];
  }

  lemma SplicedPermutes<T>(before: seq<T>, after: seq<T>, i: nat, j: nat)
    requires Spliced(before, after, i, j)
    ensures after[i + 1..] == before[i + 1..]
    ensures multiset(after) == multiset(before)
  {
    var lo, mid, x, hi := before[..j], before[j..i], before[i], before[i + 1..];
    assert after[i + 1..] == hi;
    SplicedPrefix(before, after, i, j);
    assert after == after[..i + 1] + after[i + 1..];
    MovePermutes(lo, mid, x, hi);
    assert before == lo + mid + [x] + hi;
  }

  /** Moving one element in front of a slice keeps the multiset. */
  lemma MovePermutes<T>(lo: seq<T>, mid: seq<T>, x: T, hi: seq<T>)
    ensures multiset(lo + [x] + mid + hi) == multiset(lo + mid + [x] + hi)
  {
  }

  /** The inner loop of the insertion sort: shifts the regions of a[..i]
      that start after a[i] one place up and puts a[i] into the gap at j. */
  method InsertLast(a: array<MemoryRegion>, i: nat) returns (j: nat)
    requires i < a.Length
    modifies a
    ensures Spliced(old(a[..]), a[..], i, j)
    ensures j > 0 ==> old(a[j - 1]).start <= old(a[i]).start
    ensures forall k :: j <= k < i ==> old(a[i]).start < old(a[k]).start
  {
    var x := a[i];
    j := i;
    while j > 0 && x.start < a[j - 1].start
      invariant 0 <= j <= i
      invariant forall k :: 0 <= k < j ==> a[k] == old(a[k])
      invariant forall k :: j < k <= i ==> a[k] == old(a[k - 1])
      invariant forall k :: j <= k < i ==> x.start < old(a[k]).start
      invariant forall k :: i < k < a.Length ==> a[k] == old(a[k])
    {
      a[j] := a[j - 1];
      j := j - 1;
    }
    a[j] := x;
  }

  /** list.sort() on the regions: a stable sort of the references by start.
      The objects themselves do not change. */
  method SortRegions(a: array<MemoryRegion>)
    modifies a
    ensures Values(a[..]) == SortByStart(old(Values(a[..])))
    ensures multiset(a[..]) == old(multiset(a[..]))
  {
    ghost var a0 := a[..];
    ghost var s0 := Values(a0);
    var i := 0;
    while i < a.Length
      invariant 0 <= i <= a.Length
      invariant Values(a[..i]) == SortPrefix(s0, i)
      invariant forall k :: i <= k < a.Length ==> a[k] == a0[k]
      invariant multiset(a[..]) == multiset(a0)
    {
      ghost var before := a[..];
      ghost var p := a[..i];
      assert a[i] == a0[i];
      assert a0[i].Value() == s0[i];
      var j := InsertLast(a, i);
      SplicedAsSlices(before, a[..], i, j);
      InsertionStep(s0, i, p, a0[i], j);
      i := i + 1;
    }
    assert a[..] == a[..a.Length];
  }

  /** The values of a list with one more object at the end. */
  lemma ValuesAppend(p: seq<MemoryRegion>, x: MemoryRegion)
    ensures Values(p + [x]) == Values(p) + [x.Value()]
  {
    assert |Values(p + [x])| == |Values(p) + [x.Value()]|;
    forall k | 0 <= k < |p| + 1 ensures Values(p + [x])[k] == (Values(p) + [x.Value()])[k] {
      assert (p + [x])[k] == if k < |p| then p[k] else x;
    }
  }

  /** last.combine_from(region) on the last object of the result list: only
      that object changes, and the list's value changes in its last place. */
  method GrowLast(result: seq<MemoryRegion>, region: MemoryRegion)
    requires |result| > 0 && Distinct(result)
    modifies result[|result| - 1]
    ensures Values(result) ==
      old(Values(result)[..|result| - 1] + [result[|result| - 1].Value().CombineWith(region.Value())])
  {
    var last := result[|result| - 1];
    ghost var before := Values(result);
    last.CombineFrom(region);
    forall k | 0 <= k < |result| - 1 ensures Values(result)[k] == before[k] {
      assert result[k] != last;
    }
  }

  /** What the loop of reduce_memory_regions keeps after i of the sorted
      objects: the result holds distinct objects among the first i, standing
      for the sweep of the first i regions, every object outside the result
      still stands for its region of before the loop, and no object has moved
      its start. */
  ghost predicate SweepInv(objs: seq<MemoryRegion>, s: seq<Region>, i: nat, result: seq<MemoryRegion>)
    reads objs, result
  {
    && 0 < i <= |objs| == |s|
    && |result| > 0 && Distinct(result)
    && (forall r :: r in result ==> r in objs[..i])
    && Values(result) == Sweep(s[..i])
    && (forall k :: 0 <= k < |objs| && objs[k] !in result ==> objs[k].Value() == s[k])
    && (forall k :: 0 <= k < |objs| ==> objs[k].start == s[k].start)
  }

  /** The invariant before the loop's first pass, with the first object as
      the whole result. */
  lemma SweepInvFirst(objs: seq<MemoryRegion>, s: seq<Region>)
    requires 0 < |objs| && Distinct(objs) && s == Values(objs)
    ensures SweepInv(objs, s, 1, [objs[0]])
  {
    assert Values([objs[0]])[0] == s[0];
    assert objs[..1] == [objs[0]];
  }

  /** What the merge loop leaves behind, for objs standing for the sorted
      regions before it: the result holds objects of objs standing for the
      sweep of the sorted regions; every object keeps the start of its
      sorted region; an object outside the result still stands for its sorted
      region; and the result objects are exactly those that open a result
      region, so each run of merged regions grows its first object. */
  ghost predicate MergedFrom(objs: seq<MemoryRegion>, sorted: seq<Region>, result: seq<MemoryRegion>)
    requires 0 < |objs| == |sorted|
    reads objs, result
  {
    && Values(result) == Sweep(sorted)
    && (forall r :: r in result ==> r in objs)
    && (forall k :: 0 <= k < |objs| ==> objs[k].start == sorted[k].start)
    && (forall k :: 0 <= k < |objs| && objs[k] !in result ==> objs[k].Value() == sorted[k])
    && (forall k :: 0 <= k < |objs| ==> (objs[k] in result <==> OpensRun(sorted, k)))
  }

  /** The invariant after the loop's last pass: the result stands for the
      sweep of all the regions. */
  lemma SweepInvLast(objs: seq<MemoryRegion>, s: seq<Region>, result: seq<MemoryRegion>)
    requires SweepInv(objs, s, |objs|, result)
    requires forall k :: 0 <= k < |objs| ==> (objs[k] in result <==> OpensRun(s, k))
    ensures MergedFrom(objs, s, result)
  {
    assert objs[..|objs|] == objs;
    assert s[..|s|] == s;
  }

  /** One pass of the loop of reduce_memory_regions: region, the i-th of the
      sorted objects, is folded into the last result object when they overlap
      and appended otherwise. The ghost parameters are the sorted objects and
      the regions they stood for before the loop. */
  method SweepStep(ghost objs: seq<MemoryRegion>, ghost s: seq<Region>, i: nat,
                   result: seq<MemoryRegion>, region: MemoryRegion) returns (next: seq<MemoryRegion>)
    requires Distinct(objs) && i < |objs| && region == objs[i]
    requires Sorted(s) && SweepInv(objs, s, i, result)
    modifies result[|result| - 1]
    ensures SweepInv(objs, s, i + 1, next)
    ensures (next == result && !OpensRun(s, i)) || (next == result + [region] && OpensRun(s, i))
  {
    assert region !in objs[..i];
    assert region !in result;
    if region.Value().Overlaps(result[|result| - 1].Value()) {
      next := MergeStep(objs, s, i, result, region);
    } else {
      next := AppendStep(objs, s, i, result, region);
    }
    SweepInvNext(objs, s, i, result, next);
  }

  /** The invariant after one more pass, from what either case leaves. */
  lemma SweepInvNext(objs: seq<MemoryRegion>, s: seq<Region>, i: nat,
                     result: seq<MemoryRegion>, next: seq<MemoryRegion>)
    requires 0 < i < |objs| == |s|
    requires forall r :: r in result ==> r in objs[..i]
    requires next == result || next == result + [objs[i]]
    requires |next| > 0 && Distinct(next)
    requires Values(next) == Step(Sweep(s[..i]), s[i])
    requires forall k :: 0 <= k < |objs| && objs[k] !in next ==> objs[k].Value() == s[k]
    requires forall k :: 0 <= k < |objs| ==> objs[k].start == s[k].start
    ensures SweepInv(objs, s, i + 1, next)
  {
    SweepSnoc(s, i);
    forall r | r in next ensures r in objs[..i + 1] {
      if r in result {
        var j :| 0 <= j < i && objs[..i][j] == r;
        assert objs[..i + 1][j] == r;
      } else {
        assert objs[..i + 1][i] == r;
      }
    }
  }

  /** The result objects after one more pass are those that opened a result
      region: the new one joins exactly when it opens one. */
  lemma RunStartsStep(objs: seq<MemoryRegion>, s: seq<Region>, i: nat,
                      result: seq<MemoryRegion>, next: seq<MemoryRegion>)
    requires i < |objs| == |s| && Distinct(objs) && objs[i] !in result
    requires forall k :: 0 <= k < i ==> (objs[k] in result <==> OpensRun(s, k))
    requires (next == result && !OpensRun(s, i)) || (next == result + [objs[i]] && OpensRun(s, i))
    ensures forall k :: 0 <= k < i + 1 ==> (objs[k] in next <==> OpensRun(s, k))
  {
    forall k | 0 <= k < i + 1 ensures objs[k] in next <==> OpensRun(s, k) {
      if k < i {
        assert objs[k] != objs[i];
      }
    }
  }

  /** The overlapping case: the last result object grows in place. It keeps
      its start, since it stands for an earlier region of the sorted list. */
  method MergeStep(ghost objs: seq<MemoryRegion>, ghost s: seq<Region>, i: nat,
                   result: seq<MemoryRegion>, region: MemoryRegion) returns (next: seq<MemoryRegion>)
    requires 0 < i < |objs| == |s| && region == objs[i] && region !in result
    requires |result| > 0 && Distinct(result)
    requires forall r :: r in result ==> r in objs[..i]
    requires region.Value() == s[i]
    requires region.Value().Overlaps(result[|result| - 1].Value())
    requires Values(result) == Sweep(s[..i])
    requires forall k :: 0 <= k < |objs| && objs[k] !in result ==> objs[k].Value() == s[k]
    requires Sorted(s) && forall k :: 0 <= k < |objs| ==> objs[k].start == s[k].start
    modifies result[|result| - 1]
    ensures next == result && !OpensRun(s, i)
    ensures Values(next) == Step(Sweep(s[..i]), s[i])
    ensures forall k :: 0 <= k < |objs| && objs[k] !in next ==> objs[k].Value() == s[k]
    ensures forall k :: 0 <= k < |objs| ==> objs[k].start == s[k].start
  {
    ghost var last := result[|result| - 1];
    assert !OpensRun(s, i) by {
      OpensRunIffSeparate(s, i);
      assert Values(result)[|result| - 1] == last.Value();
    }
    assert last.start <= region.start by {
      assert last in objs[..i];
      var j :| 0 <= j < i && objs[j] == last;
    }
    GrowLast(result, region);
    next := result;
    forall k | 0 <= k < |objs| && objs[k] !in next ensures objs[k].Value() == s[k] {
      assert objs[k] != last;
    }
    forall k | 0 <= k < |objs| ensures objs[k].start == s[k].start {
      if objs[k] == last {
        assert Values(result)[|result| - 1] == last.Value();
      }
    }
  }

  /** The separate case: the region joins the result list unchanged. */
  method AppendStep(ghost objs: seq<MemoryRegion>, ghost s: seq<Region>, i: nat,
                    result: seq<MemoryRegion>, region: MemoryRegion) returns (next: seq<MemoryRegion>)
    requires 0 < i < |objs| == |s| && region == objs[i] && region !in result
    requires |result| > 0 && Distinct(result)
    requires region.Value() == s[i]
    requires !region.Value().Overlaps(result[|result| - 1].Value())
    requires Values(result) == Sweep(s[..i])
    requires forall k :: 0 <= k < |objs| && objs[k] !in result ==> objs[k].Value() == s[k]
    ensures next == result + [region] && OpensRun(s, i)
    ensures Distinct(next)
    ensures Values(next) == Step(Sweep(s[..i]), s[i])
    ensures forall k :: 0 <= k < |objs| && objs[k] !in next ==> objs[k].Value() == s[k]
  {
    assert OpensRun(s, i) by {
      OpensRunIffSeparate(s, i);
      assert Values(result)[|result| - 1] == result[|result| - 1].Value();
    }
    ValuesAppend(result, region);
    next := result + [region];
  }

  /** The loop of reduce_memory_regions over the sorted regions: grow the last
      result region in place or append the next region. */
  method SweepRegions(regions: array<MemoryRegion>, ghost objs: seq<MemoryRegion>) returns (result: seq<MemoryRegion>)
    requires regions[..] == objs && |objs| > 0
    requires Distinct(objs) && Sorted(Values(objs))
    modifies objs
    ensures regions[..] == objs
    ensures Distinct(result)
    ensures MergedFrom(objs, old(Values(objs)), result)
  {
    ghost var s := Values(objs);
    result := [regions[0]];
    SweepInvFirst(objs, s);
    var i := 1;
    while i < regions.Length
      invariant Sorted(s) && SweepInv(objs, s, i, result)
      invariant forall k :: 0 <= k < i ==> (objs[k] in result <==> OpensRun(s, k))
    {
      assert result[|result| - 1] in objs by {
        assert result[|result| - 1] in objs[..i];
      }
      assert regions[i] !in result by {
        assert regions[i] !in objs[..i];
      }
      ghost var before := result;
      result := SweepStep(objs, s, i, result, regions[i]);
      RunStartsStep(objs, s, i, before, result);
      i := i + 1;
    }
    SweepInvLast(objs, s, result);
  }

  /** reduce_memory_regions: sorts the given list in place and returns the
      merged regions; each object ends at the place of its own old value in
      the stably sorted values, the merged objects are objects of the list,
      grown in place, every other object of the list is left as it was, and
      the list stays sorted by start. The objects returned are those that open a result
      region in the sorted list, so of regions that tie on start the first one
      grows. */
  method ReduceMemoryRegions(regions: array<MemoryRegion>) returns (result: seq<MemoryRegion>)
    requires regions.Length > 0
    requires Distinct(regions[..])
    requires forall k :: 0 <= k < regions.Length ==> regions[k].Valid()
    modifies regions, regions[..]
    ensures Values(result) == Reduce(old(Values(regions[..])))
    ensures multiset(regions[..]) == old(multiset(regions[..]))
    ensures MergedFrom(regions[..], SortByStart(old(Values(regions[..]))), result)
    ensures Placed(old(regions[..]), old(Values(regions[..])), regions[..], SortByStart(old(Values(regions[..]))))
    ensures KeptOutside(old(regions[..]), old(Values(regions[..])), result)
    ensures forall k :: 0 <= k < regions.Length ==> regions[k].Valid()
  {
    ghost var a0 := regions[..];
    ghost var s := Values(a0);
    assert AllValid(s);
    SortRegions(regions);
    ghost var now := regions[..];
    ghost var sorted := Values(now);
    assert sorted == SortByStart(s);
    PermutationKeepsDistinct(a0, now);
    assert Placed(a0, s, now, sorted) by {
      assert Values(a0) == s;
      SameObjectSameValue(a0, now);
    }
    SortByStartSorted(s);
    result := SweepRegions(regions, now);
    ReduceDone(a0, s, now, sorted, result);
  }

  /** Every object stands in now where vals puts the value vals0 gives it in
      a0: for a0 before a sort and now after it, each object sits at the
      place of its own old value. */
  ghost predicate Placed(a0: seq<MemoryRegion>, vals0: seq<Region>, now: seq<MemoryRegion>, vals: seq<Region>)
    requires |a0| == |vals0| && |now| == |vals|
  {
    forall j, k :: 0 <= j < |a0| && 0 <= k < |now| && a0[j] == now[k] ==> vals0[j] == vals[k]
  }

  /** What the merge of the sorted objects gives for the list before the
      sort: the merged values, the old values of the objects not returned,
      and valid objects throughout. */
  lemma ReduceDone(a0: seq<MemoryRegion>, s: seq<Region>, now: seq<MemoryRegion>,
                   sorted: seq<Region>, result: seq<MemoryRegion>)
    requires 0 < |a0| == |s| && |now| == |sorted|
    requires AllValid(s) && sorted == SortByStart(s)
    requires multiset(a0) == multiset(now)
    requires Placed(a0, s, now, sorted)
    requires MergedFrom(now, sorted, result)
    ensures Values(result) == Reduce(s)
    ensures KeptOutside(a0, s, result)
    ensures forall k :: 0 <= k < |now| ==> now[k].Valid()
  {
    SortByStartPermutes(s);
    KeptThroughSort(a0, s, now, sorted, result);
    MergedValid(now, result, s);
  }

  /** Every object of objs outside result still has the value vals gives
      it. */
  ghost predicate KeptOutside(objs: seq<MemoryRegion>, vals: seq<Region>, result: seq<MemoryRegion>)
    requires |objs| == |vals|
    reads objs
  {
    forall k :: 0 <= k < |objs| && objs[k] !in result ==> objs[k].Value() == vals[k]
  }

  /** The same object in two lists has the same value in both. */
  lemma SameObjectSameValue(u: seq<MemoryRegion>, v: seq<MemoryRegion>)
    ensures forall j, k :: 0 <= j < |u| && 0 <= k < |v| && u[j] == v[k] ==> Values(u)[j] == Values(v)[k]
  {
  }

  /** An object of the list before the sort that the merge does not return
      still has its value of before the sort: it stands at some place of the
      sorted list, and there it kept its value. */
  lemma KeptThroughSort(a0: seq<MemoryRegion>, s: seq<Region>, now: seq<MemoryRegion>,
                        sorted: seq<Region>, result: seq<MemoryRegion>)
    requires |a0| == |s| && 0 < |now| == |sorted|
    requires multiset(a0) == multiset(now)
    requires Placed(a0, s, now, sorted)
    requires MergedFrom(now, sorted, result)
    ensures KeptOutside(a0, s, result)
  {
    forall j | 0 <= j < |a0| && a0[j] !in result ensures a0[j].Value() == s[j] {
      assert a0[j] in multiset(now);
      var k :| 0 <= k < |now| && now[k] == a0[j];
    }
  }

  /** After the merge every object of the list is valid: a merged one stands
      for a merged region, any other for a sorted input region. */
  lemma MergedValid(objs: seq<MemoryRegion>, result: seq<MemoryRegion>, s: seq<Region>)
    requires |s| > 0 && AllValid(s) && |objs| == |s|
    requires MergedFrom(objs, SortByStart(s), result)
    ensures forall k :: 0 <= k < |objs| ==> objs[k].Valid()
  {
    SortByStartAllValid(s);
    ReduceShape(s);
    forall k | 0 <= k < |objs| ensures objs[k].Valid() {
      if objs[k] in result {
        var j :| 0 <= j < |result| && result[j] == objs[k];
        assert result[j].Value() == Reduce(s)[j];
      } else {
        assert objs[k].Value() == SortByStart(s)[k];
      }
    }
  }
}
