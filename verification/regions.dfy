/**
 * The value layer of the memory-region merge in SVD-Loader.py: a region is the
 * half-open address range [start, end) claimed by one or more peripherals,
 * together with the list of their names. Sorting by start, the sweep that fuses
 * overlapping or touching regions, and everything proved about them live here;
 * the object that the script updates in place (class MemoryRegion) is in
 * module MemoryRegions and is proved against these functions.
 */
module Regions {
  import opened Numbers

  /** The parts joined with "_" (Python's "_".join), "" for no parts. */
  function Join(parts: seq<string>): string
  {
    if |parts| == 0 then ""
    else if |parts| == 1 then parts[0]
    else Join(parts[..|parts| - 1]) + "_" + parts[|parts| - 1]
  }

  datatype Region = Region(start: int, end: int, nameParts: seq<string>)
  {
    /** What every constructed region satisfies: the constructor's assertion
        start < end, and at least one name part. */
    predicate Valid()
    {
      start < end && |nameParts| > 0
    }

    /** Address x lies in [start, end). */
    predicate Contains(x: int)
    {
      start <= x < end
    }

    /** The number of addresses the region claims. */
    function Length(): (n: int)
      ensures Valid() ==> n > 0
      ensures forall x :: Contains(x) ==> 0 <= x - start < n
    {
      end - start
    }

    function Name(): string
    {
      Join(nameParts)
    }

    /** The order the sort uses: by start address only. */
    predicate Lt(other: Region)
    {
      start < other.start
    }

    /** True unless one region ends strictly before the other starts; so two
        half-open ranges that merely touch count as overlapping. */
    predicate Overlaps(other: Region)
    {
      if other.end < start then false
      else if end < other.start then false
      else true
    }

    /** The smallest region covering both, named by this one's parts
        followed by the other's. */
    function CombineWith(other: Region): (r: Region)
      ensures r.start <= start && r.start <= other.start
      ensures r.start == start || r.start == other.start
      ensures r.end >= end && r.end >= other.end
      ensures r.end == end || r.end == other.end
      ensures r.nameParts == nameParts + other.nameParts
    {
      Region(Min(start, other.start), Max(end, other.end), nameParts + other.nameParts)
    }
  }

  // ---------------------------------------------------------------------------
  // The single-region operations

  lemma {:induction false} JoinAppend(a: seq<string>, b: seq<string>)
    requires |a| > 0 && |b| > 0
    ensures Join(a + b) == Join(a) + "_" + Join(b)
    decreases |b|
  {
    if |b| == 1 {
      assert (a + b)[..|a + b| - 1] == a;
    } else {
      var b' := b[..|b| - 1];
      assert (a + b)[..|a + b| - 1] == a + b';
      JoinAppend(a, b');
    }
  }

  /** The name of a combined region is the two names joined with "_". */
  lemma NameOfCombination(a: Region, b: Region)
    requires a.Valid() && b.Valid()
    ensures a.CombineWith(b).Name() == a.Name() + "_" + b.Name()
  {
    JoinAppend(a.nameParts, b.nameParts);
  }

  lemma OverlapsSymmetric(a: Region, b: Region)
    ensures a.Overlaps(b) <==> b.Overlaps(a)
  {
  }

  /** Two valid regions overlap exactly when they share an address or one
      ends where the other starts. */
  lemma OverlapsIffShareOrTouch(a: Region, b: Region)
    requires a.Valid() && b.Valid()
    ensures a.Overlaps(b) <==>
      (exists x :: a.Contains(x) && b.Contains(x)) || a.end == b.start || b.end == a.start
  {
    if a.Overlaps(b) && a.end != b.start && b.end != a.start {
      var x := Max(a.start, b.start);
      assert a.Contains(x) && b.Contains(x);
    }
  }

  /** Two valid regions overlap exactly when combining them adds no address:
      the combination claims precisely the addresses of the two. */
  lemma OverlapsIffCombinationExact(a: Region, b: Region)
    requires a.Valid() && b.Valid()
    ensures a.Overlaps(b) <==>
      forall x :: a.CombineWith(b).Contains(x) <==> a.Contains(x) || b.Contains(x)
  {
    var c := a.CombineWith(b);
    if !a.Overlaps(b) {
      var gap := if b.end < a.start then b.end else a.end;
      assert c.Contains(gap) && !a.Contains(gap) && !b.Contains(gap);
    }
  }

  // ---------------------------------------------------------------------------
  // Properties of lists of regions

  ghost predicate AllValid(s: seq<Region>)
  {
    forall i :: 0 <= i < |s| ==> s[i].Valid()
  }

  ghost predicate Sorted(s: seq<Region>)
  {
    forall i, j :: 0 <= i < j < |s| ==> s[i].start <= s[j].start
  }

  /** Each region ends strictly before the next one starts. */
  ghost predicate Separated(s: seq<Region>)
  {
    forall k :: 1 <= k < |s| ==> s[k - 1].end < s[k].start
  }

  /** Address x is claimed by some region of s. */
  ghost predicate Covered(s: seq<Region>, x: int)
  {
    exists i :: 0 <= i < |s| && s[i].Contains(x)
  }

  /** Region inner lies inside region outer. */
  predicate Within(inner: Region, outer: Region)
  {
    outer.start <= inner.start && inner.end <= outer.end
  }

  /** All name parts, region after region. */
  function AllParts(s: seq<Region>): seq<string>
  {
    if s == [] then [] else AllParts(s[..|s| - 1]) + s[|s| - 1].nameParts
  }

  lemma {:induction false} AllPartsConcat(u: seq<Region>, v: seq<Region>)
    ensures AllParts(u + v) == AllParts(u) + AllParts(v)
    decreases |v|
  {
    if v == [] {
      assert u + v == u;
    } else {
      var v', x := v[..|v| - 1], v[|v| - 1];
      assert (u + v)[..|u + v| - 1] == u + v';
      calc {
        AllParts(u + v);
        AllParts(u + v') + x.nameParts;
        { AllPartsConcat(u, v'); }
        (AllParts(u) + AllParts(v')) + x.nameParts;
        { ConcatAssoc(AllParts(u), AllParts(v'), x.nameParts); }
        AllParts(u) + (AllParts(v') + x.nameParts);
        AllParts(u) + AllParts(v);
      }
    }
  }

  lemma AllPartsSnoc(u: seq<Region>, x: Region)
    ensures AllParts(u + [x]) == AllParts(u) + x.nameParts
  {
    assert (u + [x])[..|u|] == u;
  }

  lemma CoveredConcat(u: seq<Region>, v: seq<Region>, x: int)
    ensures Covered(u + v, x) <==> Covered(u, x) || Covered(v, x)
  {
    if Covered(u + v, x) {
      var i :| 0 <= i < |u + v| && (u + v)[i].Contains(x);
      if i >= |u| {
        assert v[i - |u|].Contains(x);
      }
    }
    if Covered(u, x) {
      var i :| 0 <= i < |u| && u[i].Contains(x);
      assert (u + v)[i] == u[i];
    }
    if Covered(v, x) {
      var i :| 0 <= i < |v| && v[i].Contains(x);
      assert (u + v)[|u| + i] == v[i];
    }
  }

  lemma CoveredSingle(r: Region, x: int)
    ensures Covered([r], x) <==> r.Contains(x)
  {
    if r.Contains(x) {
      assert [r][0] == r;
    }
  }

  // ---------------------------------------------------------------------------
  // Sorting: Python's list.sort with __lt__, a stable sort by start

  /** Inserts x after every region whose start is not greater than x's. */
  function Insert(s: seq<Region>, x: Region): (r: seq<Region>)
    ensures |r| == |s| + 1
  {
    if s == [] then [x]
    else if x.Lt(s[0]) then [x] + s
    else [s[0]] + Insert(s[1..], x)
  }

  /** The first i regions of s, sorted by inserting each one into the sorted
      regions before it. */
  function SortPrefix(s: seq<Region>, i: nat): (r: seq<Region>)
    requires i <= |s|
    ensures |r| == i
  {
    if i == 0 then [] else Insert(SortPrefix(s, i - 1), s[i - 1])
  }

  /** Stable sort by start. */
  function SortByStart(s: seq<Region>): seq<Region>
  {
    SortPrefix(s, |s|)
  }

  lemma {:induction false} InsertPermutes(s: seq<Region>, x: Region)
    ensures multiset(Insert(s, x)) == multiset(s) + multiset{x}
  {
    if s != [] && !x.Lt(s[0]) {
      InsertPermutes(s[1..], x);
      assert s == [s[0]] + s[1..];
    }
  }

  lemma {:induction false} SortPrefixPermutes(s: seq<Region>, i: nat)
    requires i <= |s|
    ensures multiset(SortPrefix(s, i)) == multiset(s[..i])
  {
    if i > 0 {
      var t := SortPrefix(s, i - 1);
      var prefix, y := s[..i - 1], s[i - 1];
      assert s[..i] == prefix + [y];
      calc {
        multiset(SortPrefix(s, i));
        multiset(Insert(t, y));
        { InsertPermutes(t, y); }
        multiset(t) + multiset{y};
        { SortPrefixPermutes(s, i - 1); }
        multiset(prefix) + multiset{y};
        multiset(prefix + [y]);
      }
    }
  }

  /** Sorting only reorders: the sorted list holds the same regions. */
  lemma SortByStartPermutes(s: seq<Region>)
    ensures multiset(SortByStart(s)) == multiset(s)
    ensures |SortByStart(s)| == |s|
  {
    SortPrefixPermutes(s, |s|);
    assert s[..|s|] == s;
  }

  /** Sorting keeps every region valid. */
  lemma SortByStartAllValid(s: seq<Region>)
    requires AllValid(s)
    ensures AllValid(SortByStart(s))
  {
    var t := SortByStart(s);
    SortByStartPermutes(s);
    forall i | 0 <= i < |t| ensures t[i].Valid() {
      assert t[i] in multiset(s);
    }
  }

  /** Where the insertion lands: after the first j regions, when those start
      no later than x and the rest start after x. */
  lemma {:induction false} InsertAt(s: seq<Region>, x: Region, j: nat)
    requires j <= |s|
    requires forall k :: 0 <= k < j ==> !x.Lt(s[k])
    requires forall k :: j <= k < |s| ==> x.Lt(s[k])
    ensures Insert(s, x) == s[..j] + [x] + s[j..]
  {
    if j > 0 {
      InsertAt(s[1..], x, j - 1);
      assert s[1..][..j - 1] == s[1..j];
      assert s[1..][j - 1..] == s[j..];
      assert s[..j] == [s[0]] + s[1..j];
    }
  }

  lemma {:induction false} InsertKeepsSorted(s: seq<Region>, x: Region)
    requires Sorted(s)
    ensures Sorted(Insert(s, x))
  {
    if s != [] && !x.Lt(s[0]) {
      InsertKeepsSorted(s[1..], x);
      var t := Insert(s[1..], x);
      InsertPermutes(s[1..], x);
      assert t[0] in multiset(s[1..]) + multiset{x};
    }
  }

  lemma {:induction false} SortPrefixSorted(s: seq<Region>, i: nat)
    requires i <= |s|
    ensures Sorted(SortPrefix(s, i))
  {
    if i > 0 {
      SortPrefixSorted(s, i - 1);
      InsertKeepsSorted(SortPrefix(s, i - 1), s[i - 1]);
    }
  }

  /** The sorted list is ordered by start. */
  lemma SortByStartSorted(s: seq<Region>)
    ensures Sorted(SortByStart(s))
  {
    SortPrefixSorted(s, |s|);
  }

  /** One step of the sort: the next region lands at the first place j after
      which every region of the sorted prefix starts later than it. */
  lemma SortPrefixStep(s: seq<Region>, i: nat, j: nat)
    requires i < |s| && j <= i
    requires j > 0 ==> SortPrefix(s, i)[j - 1].start <= s[i].start
    requires forall k :: j <= k < i ==> s[i].start < SortPrefix(s, i)[k].start
    ensures SortPrefix(s, i + 1) == SortPrefix(s, i)[..j] + [s[i]] + SortPrefix(s, i)[j..]
  {
    var t := SortPrefix(s, i);
    SortPrefixSorted(s, i);
    forall k | 0 <= k < j ensures !s[i].Lt(t[k]) {
      assert t[k].start <= t[j - 1].start;
    }
    InsertAt(t, s[i], j);
  }

  lemma {:induction false} InsertAllParts(s: seq<Region>, x: Region)
    ensures multiset(AllParts(Insert(s, x))) == multiset(AllParts(s)) + multiset(x.nameParts)
  {
    if s == [] {
      AllPartsSnoc([], x);
    } else if x.Lt(s[0]) {
      AllPartsConcat([x], s);
      AllPartsSnoc([], x);
    } else {
      var head, rest := [s[0]], s[1..];
      assert s == head + rest;
      calc {
        multiset(AllParts(Insert(s, x)));
        multiset(AllParts(head + Insert(rest, x)));
        { AllPartsConcat(head, Insert(rest, x)); }
        multiset(AllParts(head) + AllParts(Insert(rest, x)));
        { InsertAllParts(rest, x); }
        multiset(AllParts(head)) + multiset(AllParts(rest)) + multiset(x.nameParts);
        { AllPartsConcat(head, rest); }
        multiset(AllParts(s)) + multiset(x.nameParts);
      }
    }
  }

  lemma {:induction false} SortPrefixAllParts(s: seq<Region>, i: nat)
    requires i <= |s|
    ensures multiset(AllParts(SortPrefix(s, i))) == multiset(AllParts(s[..i]))
  {
    if i > 0 {
      var t := SortPrefix(s, i - 1);
      var prefix, y := s[..i - 1], s[i - 1];
      assert s[..i] == prefix + [y];
      calc {
        multiset(AllParts(SortPrefix(s, i)));
        multiset(AllParts(Insert(t, y)));
        { InsertAllParts(t, y); }
        multiset(AllParts(t)) + multiset(y.nameParts);
        { SortPrefixAllParts(s, i - 1); }
        multiset(AllParts(prefix)) + multiset(y.nameParts);
        multiset(AllParts(prefix) + y.nameParts);
        { AllPartsSnoc(prefix, y); }
        multiset(AllParts(s[..i]));
      }
    }
  }

  /** Sorting moves name parts around but neither loses nor adds one. */
  lemma SortByStartAllParts(s: seq<Region>)
    ensures multiset(AllParts(SortByStart(s))) == multiset(AllParts(s))
  {
    SortPrefixAllParts(s, |s|);
    assert s[..|s|] == s;
  }

  // ---------------------------------------------------------------------------
  // The sweep of reduce_memory_regions over the sorted list

  /** One step of the sweep: fold r into the last result region when they
      overlap, append it otherwise. */
  function Step(acc: seq<Region>, r: Region): (res: seq<Region>)
    requires |acc| > 0
    ensures |res| == |acc| || |res| == |acc| + 1
    ensures res[..|acc| - 1] == acc[..|acc| - 1]
  {
    var last := acc[|acc| - 1];
    if r.Overlaps(last) then acc[..|acc| - 1] + [last.CombineWith(r)]
    else acc + [r]
  }

  /** The result list after the sweep has seen all of s. */
  function Sweep(s: seq<Region>): (r: seq<Region>)
    requires |s| > 0
    ensures 0 < |r| <= |s|
  {
    if |s| == 1 then [s[0]]
    else Step(Sweep(s[..|s| - 1]), s[|s| - 1])
  }

  /** The sweep over one more region is one more step. */
  lemma SweepSnoc(s: seq<Region>, i: nat)
    requires 0 < i < |s|
    ensures Sweep(s[..i + 1]) == Step(Sweep(s[..i]), s[i])
  {
    assert s[..i + 1][..i] == s[..i];
  }

  /** Region k of s opens a result region of the sweep: it is the first
      region, or one the sweep appends rather than folds into the last. */
  ghost predicate OpensRun(s: seq<Region>, k: nat)
    requires k < |s|
  {
    k == 0 || |Sweep(s[..k + 1])| == |Sweep(s[..k])| + 1
  }

  /** A later region opens a result region exactly when it does not overlap
      the last result region of the sweep so far. */
  lemma OpensRunIffSeparate(s: seq<Region>, k: nat)
    requires 0 < k < |s|
    ensures var acc := Sweep(s[..k]);
      OpensRun(s, k) <==> !s[k].Overlaps(acc[|acc| - 1])
  {
    SweepSnoc(s, k);
  }

  /** Of two valid regions that start at the same address the sort keeps the
      first one first, and only that one opens a result region, so the merge
      grows the first. */
  lemma TieOpensFirst(x: Region, y: Region)
    requires x.Valid() && y.Valid() && x.start == y.start
    ensures SortByStart([x, y]) == [x, y]
    ensures OpensRun([x, y], 0) && !OpensRun([x, y], 1)
  {
    calc {
      SortByStart([x, y]);
      Insert(SortPrefix([x, y], 1), y);
      { assert SortPrefix([x, y], 1) == Insert([], x) == [x]; }
      Insert([x], y);
      { assert [x][1..] == []; }
      [x] + Insert([], y);
    }
    OpensRunIffSeparate([x, y], 1);
    assert [x, y][..1] == [x];
  }

  /** The last result region of the sweep holds the last region swept. */
  lemma SweepLastHolds(s: seq<Region>)
    requires |s| > 0
    ensures var acc := Sweep(s); Within(s[|s| - 1], acc[|acc| - 1])
  {
    if |s| > 1 {
      var acc := Sweep(s[..|s| - 1]);
      var r := s[|s| - 1];
      if r.Overlaps(acc[|acc| - 1]) {
        assert Sweep(s)[|Sweep(s)| - 1] == acc[|acc| - 1].CombineWith(r);
      }
    }
  }

  /** In any list of valid regions, a region that starts where the one
      before it starts never opens a result region: it overlaps the last
      result region, which holds the one before it. */
  lemma TieNeverOpens(s: seq<Region>, k: nat)
    requires AllValid(s) && 0 < k < |s| && s[k - 1].start == s[k].start
    ensures !OpensRun(s, k)
  {
    OpensRunIffSeparate(s, k);
    SweepLastHolds(s[..k]);
    assert s[..k][k - 1] == s[k - 1];
    assert s[k - 1].Valid();
  }

  /** What reduce_memory_regions returns, as a value. */
  function Reduce(s: seq<Region>): seq<Region>
    requires |s| > 0
  {
    Sweep(SortByStart(s))
  }

  /** The shape of the sweep's result over a sorted list of valid regions. */
  lemma {:induction false} SweepShape(s: seq<Region>)
    requires |s| > 0 && Sorted(s) && AllValid(s)
    ensures var r := Sweep(s);
      && AllValid(r)
      && Separated(r)
      && r[|r| - 1].start <= s[|s| - 1].start
  {
    if |s| > 1 {
      var p := s[..|s| - 1];
      var x := s[|s| - 1];
      assert AllValid(p) && Sorted(p);
      SweepShape(p);
      StepShape(Sweep(p), x);
    }
  }

  /** A step keeps a valid separated list valid and separated, given a valid
      region starting no earlier than the list's last one. */
  lemma StepShape(acc: seq<Region>, x: Region)
    requires |acc| > 0 && AllValid(acc) && Separated(acc) && x.Valid()
    requires acc[|acc| - 1].start <= x.start
    ensures var r := Step(acc, x);
      && AllValid(r)
      && Separated(r)
      && r[|r| - 1].start <= x.start
  {
    var m := |acc| - 1;
    var last := acc[m];
    var r := Step(acc, x);
    if x.Overlaps(last) {
      assert r[m] == last.CombineWith(x);
      assert |r| == |acc|;
      forall k | 0 <= k < m ensures r[k] == acc[k] {
        assert r[k] == r[..m][k];
      }
    } else {
      assert last.end < x.start;
      assert r == acc + [x];
    }
  }

  /** The sweep neither loses nor adds an address. */
  lemma {:induction false} SweepCoverage(s: seq<Region>)
    requires |s| > 0 && Sorted(s) && AllValid(s)
    ensures forall x :: Covered(Sweep(s), x) <==> Covered(s, x)
  {
    if |s| > 1 {
      var p := s[..|s| - 1];
      var y := s[|s| - 1];
      assert s == p + [y];
      SweepCoverage(p);
      SweepShape(p);
      var acc := Sweep(p);
      var init := acc[..|acc| - 1];
      var last := acc[|acc| - 1];
      assert acc == init + [last];
      if y.Overlaps(last) {
        OverlapsSymmetric(y, last);
        OverlapsIffCombinationExact(last, y);
      }
      forall x
        ensures Covered(Sweep(s), x) <==> Covered(s, x)
      {
        CoveredConcat(p, [y], x);
        CoveredSingle(y, x);
        CoveredConcat(init, [last], x);
        CoveredSingle(last, x);
        if y.Overlaps(last) {
          var c := last.CombineWith(y);
          assert Sweep(s) == init + [c];
          CoveredConcat(init, [c], x);
          CoveredSingle(c, x);
        } else {
          assert Sweep(s) == acc + [y];
          CoveredConcat(acc, [y], x);
        }
      }
    } else {
      assert Sweep(s) == s;
    }
  }

  /** Every region of s lies inside some region of the sweep's result. */
  lemma {:induction false} SweepContainsEach(s: seq<Region>)
    requires |s| > 0
    ensures forall i :: 0 <= i < |s| ==> exists j :: 0 <= j < |Sweep(s)| && Within(s[i], Sweep(s)[j])
  {
    if |s| > 1 {
      var p := s[..|s| - 1];
      var y := s[|s| - 1];
      SweepContainsEach(p);
      var acc := Sweep(p);
      assert Sweep(s) == Step(acc, y);
      forall i | 0 <= i < |s|
        ensures exists j :: 0 <= j < |Step(acc, y)| && Within(s[i], Step(acc, y)[j])
      {
        if i == |s| - 1 {
          StepHoldsNew(acc, y);
        } else {
          assert s[i] == p[i];
          var j :| 0 <= j < |acc| && Within(p[i], acc[j]);
          StepKeepsWithin(acc, y, p[i], j);
        }
      }
    } else {
      assert Within(s[0], Sweep(s)[0]);
    }
  }

  /** The region a step takes in lies within a region of the result. */
  lemma StepHoldsNew(acc: seq<Region>, y: Region)
    requires |acc| > 0
    ensures exists j :: 0 <= j < |Step(acc, y)| && Within(y, Step(acc, y)[j])
  {
    var m := |acc| - 1;
    if y.Overlaps(acc[m]) {
      assert Within(y, Step(acc, y)[m]);
    } else {
      assert Within(y, Step(acc, y)[m + 1]);
    }
  }

  /** A region within one of acc stays within one after a step. */
  lemma StepKeepsWithin(acc: seq<Region>, y: Region, x: Region, j: nat)
    requires j < |acc| && Within(x, acc[j])
    ensures exists k :: 0 <= k < |Step(acc, y)| && Within(x, Step(acc, y)[k])
  {
    var m := |acc| - 1;
    if j < m {
      assert Step(acc, y)[j] == acc[j];
    } else if y.Overlaps(acc[m]) {
      assert Within(x, Step(acc, y)[m]);
    } else {
      assert Within(x, Step(acc, y)[j]);
    }
  }

  /** The sweep keeps every name part, in order. */
  lemma {:induction false} SweepAllParts(s: seq<Region>)
    requires |s| > 0
    ensures AllParts(Sweep(s)) == AllParts(s)
  {
    if |s| == 1 {
      AllPartsSnoc([], s[0]);
      assert [s[0]] == s;
    } else {
      var p := s[..|s| - 1];
      var y := s[|s| - 1];
      assert p + [y] == s;
      calc {
        AllParts(Sweep(s));
        AllParts(Step(Sweep(p), y));
        { StepAllParts(Sweep(p), y); }
        AllParts(Sweep(p)) + y.nameParts;
        { SweepAllParts(p); }
        AllParts(p) + y.nameParts;
        { AllPartsSnoc(p, y); }
        AllParts(s);
      }
    }
  }

  /** A step appends the new region's name parts after all the others. */
  lemma StepAllParts(acc: seq<Region>, y: Region)
    requires |acc| > 0
    ensures AllParts(Step(acc, y)) == AllParts(acc) + y.nameParts
  {
    if y.Overlaps(acc[|acc| - 1]) {
      MergedParts(acc, y);
    } else {
      AllPartsSnoc(acc, y);
    }
  }

  /** Merging y into the last region keeps y's parts at the end. */
  lemma MergedParts(acc: seq<Region>, y: Region)
    requires |acc| > 0
    ensures AllParts(acc[..|acc| - 1] + [acc[|acc| - 1].CombineWith(y)]) == AllParts(acc) + y.nameParts
  {
    var init, last := acc[..|acc| - 1], acc[|acc| - 1];
    calc {
      AllParts(init + [last.CombineWith(y)]);
      { AllPartsSnoc(init, last.CombineWith(y)); }
      AllParts(init) + (last.nameParts + y.nameParts);
      { ConcatAssoc(AllParts(init), last.nameParts, y.nameParts); }
      (AllParts(init) + last.nameParts) + y.nameParts;
      AllParts(acc) + y.nameParts;
    }
  }

  lemma ConcatAssoc<T>(a: seq<T>, b: seq<T>, c: seq<T>)
    ensures a + (b + c) == (a + b) + c
  {
  }

  /** In a separated list of valid regions, an earlier region ends strictly
      before any later one starts. */
  lemma {:induction false} SeparatedOrdered(s: seq<Region>, i: nat, j: nat)
    requires AllValid(s) && Separated(s)
    requires i < j < |s|
    ensures s[i].end < s[j].start
    decreases j - i
  {
    if i + 1 < j {
      SeparatedOrdered(s, i + 1, j);
    }
  }

  lemma SeparatedOrderedAll(s: seq<Region>)
    requires AllValid(s) && Separated(s)
    ensures forall i, j :: 0 <= i < j < |s| ==> s[i].end < s[j].start
  {
    forall i, j | 0 <= i < j < |s| ensures s[i].end < s[j].start {
      SeparatedOrdered(s, i, j);
    }
  }

  // ---------------------------------------------------------------------------
  // What reduce_memory_regions guarantees

  /** The result of the merge: valid regions with a gap between consecutive
      ones, no two of which overlap, and no more of them than were given. */
  lemma ReduceShape(s: seq<Region>)
    requires |s| > 0 && AllValid(s)
    ensures var r := Reduce(s);
      && |r| <= |s|
      && AllValid(r)
      && Separated(r)
      && (forall i, j :: 0 <= i < j < |r| ==> r[i].start < r[j].start)
      && (forall i, j :: 0 <= i < |r| && 0 <= j < |r| && i != j ==> !r[i].Overlaps(r[j]))
  {
    var t := SortByStart(s);
    SortByStartSorted(s);
    SortByStartPermutes(s);
    SortByStartAllValid(s);
    SweepShape(t);
    var r := Sweep(t);
    SeparatedOrderedAll(r);
  }

  /** The merged regions claim exactly the addresses the given regions claim. */
  lemma ReduceCoverage(s: seq<Region>)
    requires |s| > 0 && AllValid(s)
    ensures forall x :: Covered(Reduce(s), x) <==> Covered(s, x)
  {
    var t := SortByStart(s);
    SortByStartSorted(s);
    SortByStartPermutes(s);
    SortByStartAllValid(s);
    SweepCoverage(t);
    forall x ensures Covered(t, x) <==> Covered(s, x) {
      if Covered(t, x) {
        var i :| 0 <= i < |t| && t[i].Contains(x);
        assert t[i] in multiset(s);
        var k :| 0 <= k < |s| && s[k] == t[i];
      }
      if Covered(s, x) {
        var i :| 0 <= i < |s| && s[i].Contains(x);
        assert s[i] in multiset(t);
        var k :| 0 <= k < |t| && t[k] == s[i];
      }
    }
  }

  /** Every given region lies inside exactly one merged region. */
  lemma ReduceContainsEachOnce(s: seq<Region>)
    requires |s| > 0 && AllValid(s)
    ensures var r := Reduce(s);
      forall i :: 0 <= i < |s| ==>
        (exists j :: 0 <= j < |r| && Within(s[i], r[j])) &&
        (forall j, k :: 0 <= j < |r| && 0 <= k < |r| && Within(s[i], r[j]) && Within(s[i], r[k]) ==> j == k)
  {
    var t := SortByStart(s);
    var r := Reduce(s);
    ReduceShape(s);
    SortByStartPermutes(s);
    SweepContainsEach(t);
    forall i | 0 <= i < |s|
      ensures exists j :: 0 <= j < |r| && Within(s[i], r[j])
    {
      assert s[i] in multiset(t);
      var k :| 0 <= k < |t| && t[k] == s[i];
    }
    forall i | 0 <= i < |s|
      ensures forall j, k :: 0 <= j < |r| && 0 <= k < |r| && Within(s[i], r[j]) && Within(s[i], r[k]) ==> j == k
    {
      WithinAtMostOne(r, s[i]);
    }
  }

  /** A valid region lies within at most one region of a separated list. */
  lemma WithinAtMostOne(r: seq<Region>, x: Region)
    requires AllValid(r) && Separated(r) && x.Valid()
    ensures forall j, k :: 0 <= j < |r| && 0 <= k < |r| && Within(x, r[j]) && Within(x, r[k]) ==> j == k
  {
    SeparatedOrderedAll(r);
  }

  /** The merge keeps every name part: in the order of the sorted list, and
      so as a multiset of the given ones. */
  lemma ReduceNames(s: seq<Region>)
    requires |s| > 0
    ensures AllParts(Reduce(s)) == AllParts(SortByStart(s))
    ensures multiset(AllParts(Reduce(s))) == multiset(AllParts(s))
  {
    SweepAllParts(SortByStart(s));
    SortByStartAllParts(s);
  }
}
