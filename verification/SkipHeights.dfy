/** Where skip pointers lead, and how many steps they leave of a walk to an ancestor. */
module SkipHeights {

  import opened Powers

  /** n & (n - 1), for n >= 0: the lowest one bit is turned into a zero. */
  function InvertLowestOne(n: nat): (r: nat)
    ensures n > 0 ==> r < n
  {
    if n == 0 then 0 else if n % 2 == 1 then n - 1 else 2 * InvertLowestOne(n / 2)
  }

  function GetSkipHeight(height: nat): (r: nat)
    ensures height >= 1 ==> r < height
  {
    if height < 2 then 0
    else if height % 2 == 1 then InvertLowestOne(InvertLowestOne(height - 1)) + 1
    else InvertLowestOne(height)
  }

  // ------------------------------------------------------------ bits

  function Shift(a: nat, d: nat): nat { a * Pow2(d) }

  lemma ShiftHalf(a: nat, d: nat)
    requires d > 0
    ensures Shift(a, d) == 2 * Shift(a, d - 1)
  {
  }

  lemma ShiftNext(a: nat, d: nat)
    ensures Shift(a + 1, d) == Shift(a, d) + Pow2(d) && Shift(a, 0) == a && Shift(0, d) == 0
  {
  }

  /** An odd number shifted up loses its last one. */
  lemma {:induction false} InvertClears(m: nat, k: nat)
    ensures InvertLowestOne(Shift(2 * m + 1, k)) == Shift(2 * m, k)
  {
    hide Shift;
    ShiftNext(2 * m, k);
    ShiftNext(2 * m + 1, k);
    if k > 0 {
      InvertClears(m, k - 1);
      ShiftHalf(2 * m + 1, k);
      ShiftHalf(2 * m, k);
      InvertEven(Shift(2 * m + 1, k - 1));
    }
  }

  lemma InvertEven(n: nat)
    ensures InvertLowestOne(2 * n) == 2 * InvertLowestOne(n)
  {
  }

  /** What is above the lowest one stays. */
  lemma {:induction false} InvertLow(a: nat, d: nat, y: nat)
    requires 0 < y < Pow2(d)
    ensures InvertLowestOne(Shift(a, d) + y) == Shift(a, d) + InvertLowestOne(y)
  {
    hide Shift;
    var h := Shift(a, d - 1);
    ShiftHalf(a, d);
    if y % 2 == 0 {
      InvertLow(a, d - 1, y / 2);
      HalfStep(h, y / 2);
      assert y == 2 * (y / 2);
    } else {
      InvertOdd(y);
      InvertOdd(2 * h + y);
    }
  }

  lemma HalfStep(h: nat, x: nat)
    requires InvertLowestOne(h + x) == h + InvertLowestOne(x)
    ensures InvertLowestOne(2 * h + 2 * x) == 2 * h + InvertLowestOne(2 * x)
  {
    hide InvertLowestOne;
    assert 2 * h + 2 * x == 2 * (h + x);
    InvertEven(h + x);
    InvertEven(x);
  }

  lemma InvertQuad(z: nat)
    ensures InvertLowestOne(4 * z) == 4 * InvertLowestOne(z) && InvertLowestOne(4 * z + 2) == 4 * z
  {
    hide InvertLowestOne;
    InvertEven(2 * z);
    InvertEven(z);
    InvertEven(2 * z + 1);
    InvertOdd(2 * z + 1);
    assert 4 * z == 2 * (2 * z) && 4 * z + 2 == 2 * (2 * z + 1);
  }

  /** The number of ones. */
  function Ones(n: nat): nat {
    if n == 0 then 0 else n % 2 + Ones(n / 2)
  }

  lemma {:induction false} InvertOnes(n: nat)
    requires n > 0
    ensures Ones(n) > 0 && Ones(InvertLowestOne(n)) == Ones(n) - 1
  {
    if n % 2 == 0 {
      InvertOnes(n / 2);
    } else {
      assert (n - 1) / 2 == n / 2;
    }
  }

  lemma {:induction false} FewOnes(n: nat, d: nat)
    requires n < Pow2(d)
    ensures Ones(n) <= d
  {
    if n > 0 { FewOnes(n / 2, d - 1); }
  }

  // ------------------------------------------------------------ one step of the walk

  /** Where the walk from height w to height t goes next, if the skip pointer is there. */
  function NextHeight(w: nat, t: nat): (r: nat)
    requires w > t
    ensures t <= r < w
  {
    var skip, skipPrev := GetSkipHeight(w), GetSkipHeight(w - 1);
    if skip == t || (skip > t && !(skipPrev < skip - 2 && skipPrev >= t)) then skip else w - 1
  }

  /** What the walk has to do before the highest bit in which w and t differ is gone. */
  function Work(y: nat): nat { 4 * Ones(y / 4) + y % 4 }

  /** A number with nothing below bit d, but something at or above it. */
  ghost predicate High(A: nat, d: nat) { exists a: nat :: a > 0 && A == Shift(a, d) }

  lemma LowAt(A: nat, d: nat, y: nat)
    requires High(A, d) && 0 < y < Pow2(d)
    ensures InvertLowestOne(A + y) == A + InvertLowestOne(y) && A % 2 == 0 && A >= 2
  {
    hide Shift, InvertLowestOne;
    var a: nat :| a > 0 && A == Shift(a, d);
    InvertLow(a, d, y);
    ShiftHalf(a, d);
    ShiftNext(a - 1, d);
  }

  lemma SkipEven(A: nat, d: nat, y: nat)
    requires High(A, d) && 0 < y < Pow2(d) && y % 2 == 0
    ensures GetSkipHeight(A + y) == A + InvertLowestOne(y)
  {
    hide InvertLowestOne, High, Pow2;
    LowAt(A, d, y);
  }

  /** Above the lowest two ones of y - 1 nothing changes. */
  lemma SkipOdd(A: nat, d: nat, y: nat)
    requires High(A, d) && y < Pow2(d) && y % 2 == 1 && y > 1 && InvertLowestOne(y - 1) > 0
    ensures GetSkipHeight(A + y) == A + InvertLowestOne(InvertLowestOne(y - 1)) + 1
  {
    hide InvertLowestOne, High, Pow2;
    LowAt(A, d, y - 1);
    LowAt(A, d, InvertLowestOne(y - 1));
    assert A + y - 1 == A + (y - 1);
  }

  lemma QuadWork(y: nat, z: nat, r: nat)
    requires y == 4 * z + r && r < 4
    ensures Work(y) == 4 * Ones(z) + r
  {
    hide Ones;
  }

  lemma EvenStep(A: nat, d: nat, y: nat, t: nat)
    requires High(A, d) && 0 < y < Pow2(d) && y % 2 == 0 && t < A
    ensures var r := NextHeight(A + y, t); r >= A ==> Work(r - A) < Work(y)
  {
    hide InvertLowestOne, GetSkipHeight, High, Pow2, Work, Ones;
    var z := y / 4;
    SkipEven(A, d, y);
    InvertQuad(z);
    QuadWork(y, z, y % 4);
    if y % 4 == 2 {
      QuadWork(4 * z, z, 0);
      QuadWork(y - 1, z, 1);
    } else {
      InvertOnes(z);
      QuadWork(4 * InvertLowestOne(z), InvertLowestOne(z), 0);
      if z % 2 == 1 {
        InvertOdd(z);
        QuadWork(y - 1, z - 1, 3);
      } else {
        NoBetter(A, d, y);
      }
    }
  }

  /** From a multiple of 8 the skip pointer goes further than that of the block before. */
  lemma NoBetter(A: nat, d: nat, y: nat)
    requires High(A, d) && 0 < y < Pow2(d) && y % 8 == 0
    ensures GetSkipHeight(A + y - 1) > GetSkipHeight(A + y)
  {
    hide InvertLowestOne, GetSkipHeight, High, Pow2;
    SkipEven(A, d, y);
    AroundEight(y, y / 8);
    SkipOdd(A, d, y - 1);
    assert A + y - 1 == A + (y - 1);
  }

  lemma AroundEight(y: nat, z: nat)
    requires y == 8 * z && z > 0
    ensures InvertLowestOne(y) <= y - 8 && InvertLowestOne(y - 2) == y - 4 && InvertLowestOne(y - 4) == y - 8
  {
    hide InvertLowestOne;
    InvertQuad(2 * z);
    InvertEven(z);
    InvertQuad(2 * z - 1);
    InvertOdd(2 * z - 1);
    assert y - 2 == 4 * (2 * z - 1) + 2 && y - 4 == 4 * (2 * z - 1);
  }

  lemma InvertOdd(n: nat)
    requires n % 2 == 1
    ensures InvertLowestOne(n) == n - 1
  {
  }

  lemma OddStep(A: nat, d: nat, y: nat, t: nat)
    requires High(A, d) && y < Pow2(d) && y % 2 == 1 && t < A
    requires y == 1 || InvertLowestOne(y - 1) == 0 ==> GetSkipHeight(A + y) < A
    ensures var r := NextHeight(A + y, t); r >= A ==> Work(r - A) < Work(y)
  {
    hide InvertLowestOne, GetSkipHeight, High, Pow2, Work, Ones;
    var z := y / 4;
    QuadWork(y, z, y % 4);
    QuadWork(y - 1, z, y % 4 - 1);
    if y > 1 && InvertLowestOne(y - 1) > 0 {
      SkipOdd(A, d, y);
      InvertQuad(z);
      InvertZero();
      var i := InvertLowestOne(z);
      InvertOnes(z);
      if y % 4 == 3 {
        QuadWork(4 * i + 1, i, 1);
      } else {
        InvertQuad(i);
        InvertOnes(i);
        QuadWork(4 * InvertLowestOne(i) + 1, InvertLowestOne(i), 1);
      }
    }
  }

  lemma InvertZero()
    ensures InvertLowestOne(0) == 0
  {
  }

  /** With at most one bit above the last, the skip pointer of an odd height leads below. */
  lemma SkipOut(A: nat, d: nat, y: nat, below: nat)
    requires High(A, d) && y < Pow2(d) && y % 2 == 1 && (y == 1 || InvertLowestOne(y - 1) == 0)
    requires InvertLowestOne(A) == below && below + 1 < A
    ensures GetSkipHeight(A + y) < A
  {
    hide InvertLowestOne, High, Pow2;
    LowAt(A, d, y);
    InvertZero();
    if y > 1 {
      LowAt(A, d, y - 1);
      assert A + y - 1 == A + (y - 1);
    }
  }

  /** With that bit still there and y below it, a step leaves less to do. */
  lemma StepWorks(q: nat, d: nat, y: nat, t: nat)
    requires 0 < y < Pow2(d) && t < Shift(2 * q + 1, d)
    ensures var a := Shift(2 * q + 1, d); var r := NextHeight(a + y, t); r >= a ==> Work(r - a) < Work(y)
  {
    hide Shift, InvertLowestOne, GetSkipHeight, Pow2, Work, NextHeight;
    var A := Shift(2 * q + 1, d);
    assert High(A, d);
    InvertClears(q, d);
    ShiftNext(2 * q, d);
    if y % 2 == 0 {
      EvenStep(A, d, y, t);
    } else {
      if y == 1 || InvertLowestOne(y - 1) == 0 { SkipOut(A, d, y, Shift(2 * q, d)); }
      OddStep(A, d, y, t);
    }
  }

  // ------------------------------------------------------------ levels

  /** The highest bit in which two numbers differ. */
  function Level(w: nat, t: nat): nat
    requires w > t
  {
    if w / 2 == t / 2 then 0 else 1 + Level(w / 2, t / 2)
  }

  lemma {:induction false} LevelForm(w: nat, t: nat) returns (q: nat, y: nat, u: nat)
    requires w > t
    ensures var d := Level(w, t); y < Pow2(d) && u < Pow2(d) && w == Shift(2 * q + 1, d) + y && t == Shift(2 * q, d) + u
  {
    hide Shift;
    if w / 2 == t / 2 {
      q, y, u := t / 2, 0, 0;
      ShiftNext(2 * q + 1, 0);
      ShiftNext(2 * q, 0);
    } else {
      var y', u';
      q, y', u' := LevelForm(w / 2, t / 2);
      y, u := 2 * y' + w % 2, 2 * u' + t % 2;
      ShiftHalf(2 * q + 1, Level(w, t));
      ShiftHalf(2 * q, Level(w, t));
    }
  }

  lemma {:induction false} LevelIs(q: nat, d: nat, y: nat, u: nat)
    requires y < Pow2(d) && u < Pow2(d)
    ensures Shift(2 * q + 1, d) + y > Shift(2 * q, d) + u
    ensures Level(Shift(2 * q + 1, d) + y, Shift(2 * q, d) + u) == d
  {
    hide Shift;
    var w, t := Shift(2 * q + 1, d) + y, Shift(2 * q, d) + u;
    ShiftNext(2 * q, d);
    ShiftNext(2 * q + 1, d);
    if d > 0 {
      ShiftHalf(2 * q + 1, d);
      ShiftHalf(2 * q, d);
      LevelIs(q, d - 1, y / 2, u / 2);
      assert w / 2 == Shift(2 * q + 1, d - 1) + y / 2 && t / 2 == Shift(2 * q, d - 1) + u / 2;
    }
  }

  lemma {:induction false} LevelBelow(a: nat, d: nat, x: nat, u: nat)
    requires u < x < Pow2(d)
    ensures Level(Shift(a, d) + x, Shift(a, d) + u) < d
  {
    hide Shift;
    var w, t := Shift(a, d) + x, Shift(a, d) + u;
    ShiftHalf(a, d);
    assert w / 2 == Shift(a, d - 1) + x / 2 && t / 2 == Shift(a, d - 1) + u / 2;
    if x / 2 != u / 2 { LevelBelow(a, d - 1, x / 2, u / 2); }
  }

  // ------------------------------------------------------------ the number of steps

  /** The steps of the walk with all skip pointers there. */
  function Steps(w: nat, t: nat): nat
    requires w >= t
    decreases w
  {
    if w == t then 0 else 1 + Steps(NextHeight(w, t), t)
  }

  /** What is left once the highest bits that differ are below level d. */
  function Rest(d: nat): nat { 2 * (d * (d + 1)) }

  lemma RestGrows(i: nat, d: nat)
    requires i < d
    ensures Rest(i) + 4 * i + 4 <= Rest(d)
  {
    assert (i + 1) * (i + 2) == i * (i + 1) + 2 * (i + 1);
    assert d * (d + 1) >= (i + 1) * (i + 2) by {
      assert d * (d + 1) - (i + 1) * (i + 2) == (d - i - 1) * (d + i + 2);
    }
  }

  ghost function Left(w: nat, t: nat): nat
    requires w >= t
  {
    if w == t then 0 else Rest(Level(w, t)) + Work(w % Pow2(Level(w, t))) + 1
  }

  lemma LeftIs(q: nat, d: nat, y: nat, u: nat)
    requires y < Pow2(d) && u < Pow2(d)
    ensures Shift(2 * q + 1, d) + y > Shift(2 * q, d) + u
    ensures Left(Shift(2 * q + 1, d) + y, Shift(2 * q, d) + u) == Rest(d) + Work(y) + 1
  {
    LevelIs(q, d, y, u);
    var w, p := Shift(2 * q + 1, d) + y, Pow2(d);
    DivUnique(w, p, 2 * q + 1, y);
  }

  /** With the highest bit that differs below level d, no more than Rest(d) is left. */
  lemma LeftBelow(w: nat, t: nat, d: nat)
    requires w >= t && (w > t ==> Level(w, t) < d)
    ensures Left(w, t) <= Rest(d)
  {
    if w > t {
      var i := Level(w, t);
      var y := w % Pow2(i);
      OnesBelow(y, i);
      RestGrows(i, d);
    }
  }

  lemma OnesBelow(y: nat, i: nat)
    requires y < Pow2(i)
    ensures Work(y) <= 4 * i + 3
  {
    FewOnes(y / 4, i);
  }

  lemma LeftFalls(w: nat, t: nat)
    requires w > t
    ensures Left(NextHeight(w, t), t) < Left(w, t)
  {
    hide Shift, Left, NextHeight, Level, Work, Rest, Pow2;
    var q, y, u := LevelForm(w, t);
    var d := Level(w, t);
    LeftIs(q, d, y, u);
    var A, r := Shift(2 * q + 1, d), NextHeight(w, t);
    ShiftNext(2 * q, d);
    if r >= A {
      StepWorks(q, d, y, t);
      LeftIs(q, d, r - A, u);
    } else {
      if r > t { LevelBelow(2 * q, d, r - Shift(2 * q, d), u); }
      LeftBelow(r, t, d);
    }
  }

  lemma {:induction false} StepsLeft(w: nat, t: nat)
    requires w >= t
    ensures Steps(w, t) <= Left(w, t)
    decreases w
  {
    hide Left, NextHeight;
    if w > t {
      LeftFalls(w, t);
      StepsLeft(NextHeight(w, t), t);
    }
  }

  /** From a height below 2^k every ancestor is reached in at most 2k(k + 1) steps. */
  lemma StepsBound(w: nat, t: nat, k: nat)
    requires t <= w < Pow2(k)
    ensures Steps(w, t) <= 2 * (k * (k + 1))
  {
    hide Shift, Left, Level, Steps, Pow2;
    StepsLeft(w, t);
    ShiftNext(0, k);
    if w > t { LevelBelow(0, k, w, t); }
    LeftBelow(w, t, k);
  }
}
