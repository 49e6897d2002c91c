/** The median of the times of the last blocks, which the time of the next block has to pass. */
module MedianTime {

  /** The last eleven times, or all if there are fewer. */
  function Window(times: seq<int>): (w: seq<int>)
    ensures |w| == if |times| < 11 then |times| else 11
    ensures w == times[|times| - |w|..]
  {
    if |times| < 11 then times else times[|times| - 11..]
  }

  function Inserted(x: int, s: seq<int>): (r: seq<int>)
    ensures |r| == |s| + 1
  {
    if s == [] || x <= s[0] then [x] + s else [s[0]] + Inserted(x, s[1..])
  }

  function Sorted(s: seq<int>): (r: seq<int>)
    ensures |r| == |s|
  {
    if s == [] then [] else Inserted(s[0], Sorted(s[1..]))
  }

  function MedianTimePast(times: seq<int>): (m: int)
    requires times != []
  {
    var w := Window(times);
    Sorted(w)[|w| / 2]
  }

  // ------------------------------------------------------------ what a median is

  /** How many of the times are not below m. */
  ghost function AtLeast(s: seq<int>, m: int): (n: nat)
    ensures n <= |s|
  {
    if s == [] then 0 else AtLeast(s[1..], m) + if s[0] >= m then 1 else 0
  }

  /** Half of the times, rounded up, are not below m, and fewer than that are above it. */
  ghost predicate IsMedian(s: seq<int>, m: int) {
    AtLeast(s, m + 1) < |s| - |s| / 2 <= AtLeast(s, m)
  }

  lemma {:induction false} AtLeastFalls(s: seq<int>, m: int, n: int)
    requires m <= n
    ensures AtLeast(s, n) <= AtLeast(s, m)
  {
    if s != [] { AtLeastFalls(s[1..], m, n); }
  }

  /** There is only one median. */
  lemma MedianUnique(s: seq<int>, m: int, n: int)
    requires IsMedian(s, m) && IsMedian(s, n)
    ensures m == n
  {
    if m < n { AtLeastFalls(s, m + 1, n); }
    if n < m { AtLeastFalls(s, n + 1, m); }
  }

  ghost predicate Ordered(s: seq<int>) { forall i, j :: 0 <= i < j < |s| ==> s[i] <= s[j] }

  lemma {:induction false} InsertedOrdered(x: int, s: seq<int>, b: int)
    requires Ordered(s)
    ensures Ordered(Inserted(x, s))
    ensures b <= x && (forall i :: 0 <= i < |s| ==> b <= s[i]) ==>
              forall i :: 0 <= i < |s| + 1 ==> b <= Inserted(x, s)[i]
  {
    if s != [] && x > s[0] {
      InsertedOrdered(x, s[1..], b);
      InsertedOrdered(x, s[1..], s[0]);
    }
  }

  lemma {:induction false} InsertedCount(x: int, s: seq<int>, m: int)
    ensures AtLeast(Inserted(x, s), m) == AtLeast(s, m) + if x >= m then 1 else 0
  {
    if s == [] || x <= s[0] {
      assert ([x] + s)[1..] == s;
    } else {
      InsertedCount(x, s[1..], m);
      assert ([s[0]] + Inserted(x, s[1..]))[1..] == Inserted(x, s[1..]);
    }
  }

  /** Sorting puts the times in order and keeps how many there are of each. */
  lemma {:induction false} SortedIs(s: seq<int>, m: int)
    ensures Ordered(Sorted(s)) && AtLeast(Sorted(s), m) == AtLeast(s, m)
  {
    if s != [] {
      SortedIs(s[1..], m);
      InsertedOrdered(s[0], Sorted(s[1..]), 0);
      InsertedCount(s[0], Sorted(s[1..]), m);
    }
  }

  lemma {:induction false} RankCounts(r: seq<int>, i: nat)
    requires Ordered(r) && i < |r|
    ensures AtLeast(r, r[i]) >= |r| - i && AtLeast(r, r[i] + 1) <= |r| - i - 1
    decreases |r|
  {
    if i > 0 {
      RankCounts(r[1..], i - 1);
    } else {
      AllAtLeast(r[1..], r[0]);
    }
  }

  lemma {:induction false} AllAtLeast(s: seq<int>, m: int)
    requires forall i :: 0 <= i < |s| ==> s[i] >= m
    ensures AtLeast(s, m) == |s|
  {
    if s != [] { AllAtLeast(s[1..], m); }
  }

  /** The median of the last blocks is the one median of their times. */
  lemma MedianIs(times: seq<int>, m: int)
    requires times != []
    ensures IsMedian(Window(times), m) <==> m == MedianTimePast(times)
  {
    var w, n := Window(times), MedianTimePast(times);
    SortedIs(w, n);
    SortedIs(w, n + 1);
    RankCounts(Sorted(w), |w| / 2);
    if IsMedian(w, m) { MedianUnique(w, m, n); }
  }

  /** A time is past the median exactly if more than half of the last times are below it. */
  lemma PastMedianIff(times: seq<int>, t: int)
    requires times != []
    ensures var w := Window(times); t > MedianTimePast(times) <==> |w| - AtLeast(w, t) > |w| / 2
  {
    var w, m := Window(times), MedianTimePast(times);
    MedianIs(times, m);
    if t > m { AtLeastFalls(w, m + 1, t); } else { AtLeastFalls(w, t, m); }
  }

  // ------------------------------------------------------------ along a chain

  lemma {:induction false} AtLeastAppended(s: seq<int>, t: int, m: int)
    ensures AtLeast(s + [t], m) == AtLeast(s, m) + if t >= m then 1 else 0
  {
    if s == [] {
      assert s + [t] == [t];
    } else {
      AtLeastAppended(s[1..], t, m);
      assert (s + [t])[1..] == s[1..] + [t];
    }
  }

  lemma WindowMoves(times: seq<int>, t: int, m: int)
    ensures var w, w' := Window(times), Window(times + [t]);
            AtLeast(w', m) >= AtLeast(w, m) + (if t >= m then 1 else 0) - (if |w| == 11 then 1 else 0)
  {
    var w, w' := Window(times), Window(times + [t]);
    AtLeastAppended(w, t, m);
    if |w| == 11 { assert w' == (w + [t])[1..]; } else { assert w' == w + [t]; }
  }

  /** A block past the median never lowers the median. */
  lemma MedianRises(times: seq<int>, t: int)
    requires times != [] && t > MedianTimePast(times)
    ensures MedianTimePast(times) <= MedianTimePast(times + [t])
  {
    var m, m' := MedianTimePast(times), MedianTimePast(times + [t]);
    MedianIs(times, m);
    MedianIs(times + [t], m');
    WindowMoves(times, t, m);
    if m' < m { AtLeastFalls(Window(times + [t]), m' + 1, m); }
  }

  /** Each time is past the median of the ones before it. */
  ghost predicate Passing(times: seq<int>) {
    forall k {:trigger times[k]} :: 1 <= k < |times| ==> MedianTimePast(times[..k]) < times[k]
  }

  /** So along a chain the median never falls, and each time is past the median of every earlier block. */
  lemma {:induction false} MedianNeverFalls(times: seq<int>, i: nat, j: nat)
    requires Passing(times) && 0 < i <= j <= |times|
    ensures MedianTimePast(times[..i]) <= MedianTimePast(times[..j])
    ensures j < |times| ==> MedianTimePast(times[..i]) < times[j]
    decreases j
  {
    hide MedianTimePast;
    if i < j {
      MedianNeverFalls(times, i, j - 1);
      MedianRises(times[..j - 1], times[j - 1]);
      assert times[..j] == times[..j - 1] + [times[j - 1]];
    }
  }

  // ------------------------------------------------------------ the operations

  method Sort(s: seq<int>) returns (r: seq<int>)
    ensures r == Sorted(s)
  {
    r := [];
    var i := |s|;
    assert s[i..] == [];
    while i > 0
      invariant 0 <= i <= |s| && r == Sorted(s[i..])
    {
      i := i - 1;
      assert s[i..][1..] == s[i + 1..];
      r := Inserted(s[i], r);
    }
    assert s[0..] == s;
  }

  method GetMedianTimePast(times: seq<int>) returns (m: int)
    requires times != []
    ensures m == MedianTimePast(times)
  {
    var pmedian: seq<int>, i, pindex := [], 0, |times|;
    while i < 11 && pindex > 0
      invariant 0 <= i <= 11 && pindex == |times| - i >= 0 && pmedian == times[pindex..]
    {
      pindex := pindex - 1;
      pmedian := [times[pindex]] + pmedian;
      i := i + 1;
    }
    assert pmedian == Window(times);
    pmedian := Sort(pmedian);
    return pmedian[|pmedian| / 2];
  }
}
