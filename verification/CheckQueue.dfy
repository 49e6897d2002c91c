/** The script check queue: one master adds batches of checks and waits for them,
    any number of workers process them. The protocol is modelled as the steps that
    its threads take between two points where they hold or give up the mutex, in
    every possible interleaving. A check is represented by what it will evaluate to. */
module CheckQueue {

  /** Where a thread is. Thread 0 is the master. */
  datatype Thread =
    | Outside
    | Working(nNow: nat, rest: seq<bool>, fOk: bool)
    | Waiting(notified: bool)

  /** The fields of the queue, the threads, and for the record the checks added
      since the last Wait returned and what that Wait returned. */
  datatype State = State(
    queue: seq<bool>, nIdle: int, nTotal: int, fAllOk: bool, nTodo: int,
    threads: seq<Thread>, added: seq<bool>, returned: bool)

  datatype Action =
    | Add(checks: seq<bool>, chosen: nat)
    | Enter(t: nat)
    | Exec(t: nat)
    | Finish(t: nat)
    | Wake(t: nat)

  const MASTER: nat := 0

  predicate All(checks: seq<bool>) { forall i :: 0 <= i < |checks| ==> checks[i] }

  function Reversed(s: seq<bool>): (r: seq<bool>)
    ensures |r| == |s|
    ensures forall i :: 0 <= i < |s| ==> r[i] == s[|s| - 1 - i]
  {
    if s == [] then [] else [s[|s| - 1]] + Reversed(s[..|s| - 1])
  }

  function Max(a: int, b: int): int { if a < b then b else a }
  function Min(a: int, b: int): int { if a < b then a else b }

  /** notify_one and notify_all on condWorker; a waiting worker may be notified already. */
  function NotifyOne(threads: seq<Thread>, chosen: nat): seq<Thread> {
    if 0 < chosen < |threads| && threads[chosen].Waiting? then threads[chosen := Waiting(true)] else threads
  }

  function NotifyAll(threads: seq<Thread>, n: nat): seq<Thread>
    requires n <= |threads|
    ensures |NotifyAll(threads, n)| == |threads|
  {
    if n == 0 then threads else
      var ts := NotifyAll(threads, n - 1);
      if n - 1 > 0 && ts[n - 1].Waiting? then ts[n - 1 := Waiting(true)] else ts
  }

  /** How much to take; never more than there is. */
  function BatchSize(s: State, nBatchSize: nat): (n: nat)
    requires s.nTotal >= 0 && s.nIdle >= 0 && s.queue != []
    ensures 1 <= n <= |s.queue|
  {
    QuotientBelow(|s.queue|, s.nTotal + s.nIdle + 1);
    Max(1, Min(nBatchSize, |s.queue| / (s.nTotal + s.nIdle + 1)))
  }

  /** A batch is within the limit, leaves as much for each other thread that works or may start to, and is as large as
      that allows. */
  lemma BatchFair(s: State, nBatchSize: nat)
    requires s.nTotal >= 0 && s.nIdle >= 0 && s.queue != []
    ensures var n, sharers := BatchSize(s, nBatchSize), s.nTotal + s.nIdle + 1;
            && (n == 1 || (n <= nBatchSize && n * sharers <= |s.queue|))
            && (n >= nBatchSize || (n + 1) * sharers > |s.queue|)
  {
    Shared(BatchSize(s, nBatchSize), nBatchSize, |s.queue|, s.nTotal + s.nIdle + 1);
  }

  lemma Shared(n: nat, most: nat, size: nat, d: nat)
    requires d > 0 && n == Max(1, Min(most, size / d))
    ensures n == 1 || (n <= most && n * d <= size)
    ensures n >= most || (n + 1) * d > size
  {
    var q := size / d;
    assert size == q * d + size % d;
    assert (q + 1) * d == q * d + d;
    Shares(n, q, d);
    Shares(q + 1, n + 1, d);
  }

  lemma Shares(a: nat, b: nat, d: nat)
    ensures a <= b ==> a * d <= b * d
  {
    if a <= b { assert b * d == a * d + (b - a) * d; }
  }

  lemma QuotientBelow(a: nat, d: int)
    requires d >= 1
    ensures 0 <= a / d <= a
  {
    TimesAtLeast(a / d, d);
  }

  lemma TimesAtLeast(q: int, d: int)
    requires d >= 1
    ensures q >= 0 ==> q * d >= q
  {
  }

  /** The inner loop of Loop, entered with the mutex held: return, wait or take a batch. */
  function Proceed(s: State, t: nat, nBatchSize: nat): State
    requires t < |s.threads| && s.nTotal >= 0 && s.nIdle >= 0
  {
    if s.queue == [] then
      if t == MASTER && s.nTodo == 0 then
        s.(nTotal := s.nTotal - 1, returned := s.fAllOk, fAllOk := true, threads := s.threads[t := Outside],
            added := [])
      else
        s.(nIdle := s.nIdle + 1, threads := s.threads[t := Waiting(false)])
    else
      var k := |s.queue| - BatchSize(s, nBatchSize);
      s.(queue := s.queue[..k], threads := s.threads[t := Working(|s.queue| - k, Reversed(s.queue[k..]), s.fAllOk)])
  }

  /** The clean-up after a batch, up to the point where the inner loop starts. */
  function Report(s: State, t: nat): State
    requires t < |s.threads| && s.threads[t].Working?
  {
    var w := s.threads[t];
    var todo := s.nTodo - w.nNow;
    s.(fAllOk := s.fAllOk && w.fOk, nTodo := todo,
       threads := if todo == 0 && t != MASTER && s.threads[MASTER].Waiting?
                  then s.threads[t := Outside][MASTER := Waiting(true)] else s.threads[t := Outside])
  }

  predicate Enabled(s: State, a: Action) {
    |s.threads| > 0 &&
    match a
    case Add(_, _) => s.threads[MASTER].Outside?
    case Enter(t) => t < |s.threads| && s.threads[t].Outside?
    case Exec(t) => t < |s.threads| && s.threads[t].Working? && s.threads[t].rest != []
    case Finish(t) => t < |s.threads| && s.threads[t].Working? && s.threads[t].rest == []
    case Wake(t) => t < |s.threads| && s.threads[t].Waiting?
  }

  function Step(s: State, a: Action, nBatchSize: nat): State
    requires Enabled(s, a) && s.nTotal >= 0 && s.nIdle >= 0 && (a.Wake? ==> s.nIdle > 0)
  {
    match a
    case Add(checks, chosen) =>
      s.(queue := s.queue + checks, nTodo := s.nTodo + |checks|, added := s.added + checks,
         threads := if |checks| == 1 then NotifyOne(s.threads, chosen)
                    else if |checks| > 1 then NotifyAll(s.threads, |s.threads|) else s.threads)
    case Enter(t) => Proceed(s.(nTotal := s.nTotal + 1), t, nBatchSize)
    case Exec(t) =>
      var w := s.threads[t];
      s.(threads := s.threads[t := w.(rest := w.rest[1..], fOk := if w.fOk then w.rest[0] else w.fOk)])
    case Finish(t) => Proceed(Report(s, t), t, nBatchSize)
    case Wake(t) => Proceed(s.(nIdle := s.nIdle - 1, threads := s.threads[t := Outside]), t, nBatchSize)
  }

  function Initial(n: nat): State
    requires n > 0
  {
    State([], 0, 0, true, 0, seq(n, i => Outside), [], true)
  }

  // ------------------------------------------------------------ sums over threads

  function Sum(f: Thread -> int, ts: seq<Thread>): int {
    if ts == [] then 0 else f(ts[0]) + Sum(f, ts[1..])
  }

  lemma {:induction false} SumUpdate(f: Thread -> int, ts: seq<Thread>, i: nat, x: Thread)
    requires i < |ts|
    ensures Sum(f, ts[i := x]) == Sum(f, ts) - f(ts[i]) + f(x)
  {
    if i == 0 {
      assert ts[0 := x][1..] == ts[1..];
    } else {
      assert ts[i := x][1..] == ts[1..][i - 1 := x];
      SumUpdate(f, ts[1..], i - 1, x);
    }
  }

  function InFlight(th: Thread): int { if th.Working? then th.nNow else 0 }
  function Idle(th: Thread): int { if th.Waiting? then 1 else 0 }
  function Inside(th: Thread): int { if th.Outside? then 0 else 1 }

  lemma {:induction false} SumBounds(f: Thread -> int, ts: seq<Thread>, i: nat)
    requires i < |ts| && forall th :: f(th) >= 0
    ensures Sum(f, ts) >= f(ts[i])
  {
    if |ts| > 1 {
      SumBounds(f, ts[1..], if i == 0 then 0 else i - 1);
    }
  }

  lemma {:induction false} SumPositive(f: Thread -> int, ts: seq<Thread>)
    requires forall th :: f(th) >= 0
    ensures Sum(f, ts) >= 0
    ensures Sum(f, ts) > 0 ==> exists i :: 0 <= i < |ts| && f(ts[i]) > 0
  {
    if ts != [] {
      SumPositive(f, ts[1..]);
      if Sum(f, ts) > 0 && f(ts[0]) <= 0 {
        var i :| 0 <= i < |ts[1..]| && f(ts[1..][i]) > 0;
        assert f(ts[i + 1]) > 0;
      }
    }
  }

  lemma {:induction false} SumOutside(f: Thread -> int, n: nat)
    requires f(Outside) == 0
    ensures Sum(f, seq(n, i => Outside)) == 0
  {
    if n > 0 {
      SumOutside(f, n - 1);
      assert seq(n, i => Outside)[1..] == seq(n - 1, i => Outside);
    }
  }

  // ------------------------------------------------------------ the invariant

  ghost predicate ThreadOk(th: Thread) {
    th.Working? ==> th.nNow > 0 && |th.rest| <= th.nNow
  }

  ghost predicate Counts(s: State) {
    && |s.threads| > 0
    && s.nTodo == |s.queue| + Sum(InFlight, s.threads)
    && s.nIdle == Sum(Idle, s.threads)
    && s.nTotal == Sum(Inside, s.threads)
    && forall t :: 0 <= t < |s.threads| ==> ThreadOk(s.threads[t])
  }

  predicate Clear(th: Thread) { th.Working? ==> th.fOk && All(th.rest) }

  /** Everything added evaluates to true just when nothing seen or still to be seen is false. */
  ghost predicate Verdict(s: State) {
    All(s.added) <==> s.fAllOk && All(s.queue) && forall t :: 0 <= t < |s.threads| ==> Clear(s.threads[t])
  }

  /** A master that waits has nothing left to take, and is notified or owed a notification. */
  ghost predicate MasterOk(s: State) {
    |s.threads| > 0 && (s.threads[MASTER].Waiting? ==> s.queue == [] && (s.threads[MASTER].notified || s.nTodo > 0))
  }

  ghost predicate Inv(s: State) {
    Counts(s) && Verdict(s) && MasterOk(s)
  }

  lemma InitialInv(n: nat)
    requires n > 0
    ensures Inv(Initial(n))
  {
    SumOutside(InFlight, n);
    SumOutside(Idle, n);
    SumOutside(Inside, n);
  }

  /** A thread inside the critical section: counted in nTotal, in none of the other sums. */
  ghost predicate Critical(s: State, t: nat) {
    && t < |s.threads| && s.threads[t].Outside?
    && s.nTodo == |s.queue| + Sum(InFlight, s.threads)
    && s.nIdle == Sum(Idle, s.threads)
    && s.nTotal == Sum(Inside, s.threads) + 1
    && (forall i :: 0 <= i < |s.threads| ==> ThreadOk(s.threads[i]))
    && Verdict(s) && MasterOk(s)
  }

  lemma SumsPositive(s: State)
    ensures Sum(InFlight, s.threads) >= 0 && Sum(Idle, s.threads) >= 0 && Sum(Inside, s.threads) >= 0
  {
    SumPositive(InFlight, s.threads);
    SumPositive(Idle, s.threads);
    SumPositive(Inside, s.threads);
  }

  lemma AllSplit(q: seq<bool>, k: nat)
    requires k <= |q|
    ensures All(q) <==> All(q[..k]) && All(Reversed(q[k..]))
  {
    if All(q[..k]) && All(Reversed(q[k..])) {
      forall i | 0 <= i < |q| ensures q[i] {
        if i < k { assert q[i] == q[..k][i]; } else { assert q[i] == q[k..][i - k] == Reversed(q[k..])[|q| - 1 - i]; }
      }
    }
    if All(q) {
      forall i | 0 <= i < |q| - k ensures Reversed(q[k..])[i] { assert Reversed(q[k..])[i] == q[k..][|q| - k - 1 - i]; }
    }
  }

  lemma AllAppend(a: seq<bool>, b: seq<bool>)
    ensures All(a + b) <==> All(a) && All(b)
  {
    if All(a + b) {
      forall i | 0 <= i < |a| ensures a[i] { assert (a + b)[i]; }
      forall i | 0 <= i < |b| ensures b[i] { assert (a + b)[|a| + i]; }
    }
  }

  /** Taking a batch moves checks from the queue to a thread. */
  lemma TakeKeeps(s: State, t: nat, nBatchSize: nat)
    requires Critical(s, t) && s.queue != []
    ensures s.nTotal >= 0 && s.nIdle >= 0 && Inv(Proceed(s, t, nBatchSize))
  {
    SumsPositive(s);
    var k := |s.queue| - BatchSize(s, nBatchSize);
    var w := Working(|s.queue| - k, Reversed(s.queue[k..]), s.fAllOk);
    SumUpdate(InFlight, s.threads, t, w);
    SumUpdate(Idle, s.threads, t, w);
    SumUpdate(Inside, s.threads, t, w);
    AllSplit(s.queue, k);
    var s' := Proceed(s, t, nBatchSize);
    assert Clear(w) <==> s.fAllOk && All(w.rest);
    assert (forall i :: 0 <= i < |s'.threads| ==> Clear(s'.threads[i])) <==>
          Clear(w) && (forall i :: 0 <= i < |s.threads| ==> Clear(s.threads[i])) by {
      assert s'.threads[t] == w;
      assert forall i :: 0 <= i < |s.threads| && i != t ==> s'.threads[i] == s.threads[i];
    }
  }

  lemma RestKeeps(s: State, t: nat, nBatchSize: nat)
    requires Critical(s, t) && s.queue == []
    ensures s.nTotal >= 0 && s.nIdle >= 0 && Inv(Proceed(s, t, nBatchSize))
    ensures t == MASTER && s.nTodo == 0 ==>
              Proceed(s, t, nBatchSize).returned == All(s.added)
                  && forall i :: 0 <= i < |s.threads| ==> !s.threads[i].Working?
  {
    SumsPositive(s);
    var th := if t == MASTER && s.nTodo == 0 then Outside else Waiting(false);
    SumUpdate(InFlight, s.threads, t, th);
    SumUpdate(Idle, s.threads, t, th);
    SumUpdate(Inside, s.threads, t, th);
    var s' := Proceed(s, t, nBatchSize);
    assert s'.threads == s.threads[t := th];
    if t == MASTER && s.nTodo == 0 {
      forall i | 0 <= i < |s.threads| ensures !s.threads[i].Working? {
        SumBounds(InFlight, s.threads, i);
        assert ThreadOk(s.threads[i]);
      }
    } else {
      assert forall i :: 0 <= i < |s.threads| && i != t ==> s'.threads[i] == s.threads[i];
      assert (forall i :: 0 <= i < |s.threads| ==> Clear(s'.threads[i])) <==>
          (forall i :: 0 <= i < |s.threads| ==> Clear(s.threads[i]));
    }
  }

  lemma ReportKeeps(s: State, t: nat)
    requires Inv(s) && t < |s.threads| && s.threads[t].Working? && s.threads[t].rest == []
    ensures Critical(Report(s, t), t)
  {
    var w := s.threads[t];
    var ts := s.threads[t := Outside];
    SumUpdate(InFlight, s.threads, t, Outside);
    SumUpdate(Idle, s.threads, t, Outside);
    SumUpdate(Inside, s.threads, t, Outside);
    var s' := Report(s, t);
    SumsPositive(s');
    if t != MASTER && s.threads[MASTER].Waiting? {
      SumUpdate(InFlight, ts, MASTER, Waiting(true));
      SumUpdate(Idle, ts, MASTER, Waiting(true));
      SumUpdate(Inside, ts, MASTER, Waiting(true));
    }
    assert Clear(w) <==> w.fOk;
    assert (forall i :: 0 <= i < |s.threads| ==> Clear(s.threads[i])) <==>
           w.fOk && (forall i :: 0 <= i < |s.threads| ==> Clear(s'.threads[i])) by {
      assert forall i :: 0 <= i < |s.threads| && i != t ==> Clear(s'.threads[i]) == Clear(s.threads[i]);
      assert Clear(s'.threads[t]) && s.threads[t] == w;
    }
  }

  lemma ExecKeeps(s: State, t: nat)
    requires Inv(s) && Enabled(s, Exec(t)) && s.nTotal >= 0 && s.nIdle >= 0
    ensures Inv(Step(s, Exec(t), 0))
  {
    var w := s.threads[t];
    var s' := Step(s, Exec(t), 0);
    var w' := s'.threads[t];
    SumUpdate(InFlight, s.threads, t, w');
    SumUpdate(Idle, s.threads, t, w');
    SumUpdate(Inside, s.threads, t, w');
    assert w.rest == [w.rest[0]] + w.rest[1..];
    AllAppend([w.rest[0]], w.rest[1..]);
    assert All([w.rest[0]]) <==> [w.rest[0]][0];
    assert Clear(w) <==> Clear(w');
    assert (forall i :: 0 <= i < |s.threads| ==> Clear(s.threads[i])) <==>
        (forall i :: 0 <= i < |s.threads| ==> Clear(s'.threads[i])) by {
      assert forall i :: 0 <= i < |s.threads| && i != t ==> s'.threads[i] == s.threads[i];
    }
    assert ThreadOk(w);
  }

  /** Notifications change no thread's work. */
  ghost predicate Notified(ts: seq<Thread>, ts': seq<Thread>) {
    && |ts'| == |ts|
    && (forall i :: 0 <= i < |ts| ==> ts'[i] == ts[i] || (i != MASTER && ts[i].Waiting? && ts'[i] == Waiting(true)))
    && Sum(InFlight, ts') == Sum(InFlight, ts) && Sum(Idle, ts') == Sum(Idle, ts) && Sum(Inside, ts') == Sum(Inside, ts)
  }

  lemma NotifyOneKeeps(ts: seq<Thread>, i: nat)
    ensures Notified(ts, NotifyOne(ts, i))
  {
    if 0 < i < |ts| && ts[i].Waiting? {
      SumUpdate(InFlight, ts, i, Waiting(true));
      SumUpdate(Idle, ts, i, Waiting(true));
      SumUpdate(Inside, ts, i, Waiting(true));
    }
  }

  lemma {:induction false} NotifyAllKeeps(ts: seq<Thread>, n: nat)
    requires n <= |ts|
    ensures Notified(ts, NotifyAll(ts, n))
    ensures forall i :: 0 < i < n && ts[i].Waiting? ==> NotifyAll(ts, n)[i] == Waiting(true)
  {
    if n > 0 {
      NotifyAllKeeps(ts, n - 1);
      var ts1 := NotifyAll(ts, n - 1);
      assert NotifyAll(ts, n) == NotifyOne(ts1, n - 1);
      NotifyOneKeeps(ts1, n - 1);
    }
  }

  lemma AddKeeps(s: State, checks: seq<bool>, chosen: nat, nBatchSize: nat)
    requires Inv(s) && Enabled(s, Add(checks, chosen)) && s.nTotal >= 0 && s.nIdle >= 0
    ensures Inv(Step(s, Add(checks, chosen), nBatchSize))
  {
    var s' := Step(s, Add(checks, chosen), nBatchSize);
    NotifyOneKeeps(s.threads, chosen);
    NotifyAllKeeps(s.threads, |s.threads|);
    assert Notified(s.threads, s'.threads);
    AllAppend(s.queue, checks);
    AllAppend(s.added, checks);
    assert forall i :: 0 <= i < |s.threads| ==> Clear(s'.threads[i]) == Clear(s.threads[i]);
    assert forall i :: 0 <= i < |s.threads| && ThreadOk(s.threads[i]) ==> ThreadOk(s'.threads[i]);
  }

  /** Every step of every thread keeps the invariant. */
  lemma StepKeeps(s: State, a: Action, nBatchSize: nat)
    requires Inv(s) && Enabled(s, a)
    ensures s.nTotal >= 0 && s.nIdle >= 0 && (a.Wake? ==> s.nIdle > 0)
    ensures Inv(Step(s, a, nBatchSize))
  {
    SumsPositive(s);
    match a
    case Add(checks, chosen) => AddKeeps(s, checks, chosen, nBatchSize);
    case Enter(t) => ProceedKeeps(s.(nTotal := s.nTotal + 1), t, nBatchSize);
    case Exec(t) => ExecKeeps(s, t);
    case Finish(t) =>
      ReportKeeps(s, t);
      ProceedKeeps(Report(s, t), t, nBatchSize);
    case Wake(t) =>
      WakeKeeps(s, t);
      ProceedKeeps(s.(nIdle := s.nIdle - 1, threads := s.threads[t := Outside]), t, nBatchSize);
  }

  lemma ProceedKeeps(s: State, t: nat, nBatchSize: nat)
    requires Critical(s, t)
    ensures s.nTotal >= 0 && s.nIdle >= 0 && Inv(Proceed(s, t, nBatchSize))
  {
    if s.queue == [] { RestKeeps(s, t, nBatchSize); } else { TakeKeeps(s, t, nBatchSize); }
  }

  lemma WakeKeeps(s: State, t: nat)
    requires Inv(s) && t < |s.threads| && s.threads[t].Waiting?
    ensures s.nIdle > 0 && Critical(s.(nIdle := s.nIdle - 1, threads := s.threads[t := Outside]), t)
  {
    SumBounds(Idle, s.threads, t);
    SumUpdate(InFlight, s.threads, t, Outside);
    SumUpdate(Idle, s.threads, t, Outside);
    SumUpdate(Inside, s.threads, t, Outside);
    var s' := s.(nIdle := s.nIdle - 1, threads := s.threads[t := Outside]);
    assert (forall i :: 0 <= i < |s.threads| ==> Clear(s.threads[i])) <==>
        (forall i :: 0 <= i < |s.threads| ==> Clear(s'.threads[i])) by {
      assert forall i :: 0 <= i < |s.threads| && i != t ==> s'.threads[i] == s.threads[i];
      assert Clear(s.threads[t]) && Clear(s'.threads[t]);
    }
  }

  // ------------------------------------------------------------ what the invariant gives

  /** A step in which a Wait returns: the master is in Loop, or enters it, and is out afterwards. */
  predicate Returns(s: State, a: Action, s': State) {
    && |s.threads| > 0 && |s'.threads| > 0
    && (a == Enter(MASTER) || !s.threads[MASTER].Outside?) && s'.threads[MASTER].Outside?
  }

  /** Wait returns the conjunction of all checks added since the previous Wait returned,
      and only when every one of them has been dealt with. */
  lemma WaitReturnsVerdict(s: State, a: Action, nBatchSize: nat)
    requires Inv(s) && Enabled(s, a) && s.nTotal >= 0 && s.nIdle >= 0 && (a.Wake? ==> s.nIdle > 0)
    requires Returns(s, a, Step(s, a, nBatchSize))
    ensures var s' := Step(s, a, nBatchSize);
            && s'.returned == All(s.added) && s'.added == [] && s'.fAllOk && s'.nTodo == 0 && s'.queue == []
            && forall i :: 0 <= i < |s'.threads| ==> !s'.threads[i].Working?
  {
    match a
    case Add(_, _) =>
    case Exec(t) =>
    case Finish(t) =>
      ReportKeeps(s, t);
      var c := Report(s, t);
      if c.queue == [] { RestKeeps(c, t, nBatchSize); }
    case Wake(t) =>
      WakeKeeps(s, t);
      var c := s.(nIdle := s.nIdle - 1, threads := s.threads[t := Outside]);
      if c.queue == [] { RestKeeps(c, t, nBatchSize); }
    case Enter(t) =>
      if s.queue == [] { RestKeeps(s.(nTotal := s.nTotal + 1), t, nBatchSize); }
  }

  /** A step in which no Wait returns adds to the record what Add adds, and nothing else. */
  lemma RecordGrows(s: State, a: Action, nBatchSize: nat)
    requires Enabled(s, a) && s.nTotal >= 0 && s.nIdle >= 0 && (a.Wake? ==> s.nIdle > 0)
    requires !Returns(s, a, Step(s, a, nBatchSize))
    ensures Step(s, a, nBatchSize).added == s.added + if a.Add? then a.checks else []
  {
  }

  /** A master asleep without a pending notification always has a worker with checks in hand. */
  lemma NoLostWakeup(s: State)
    requires Inv(s) && s.threads[MASTER] == Waiting(false)
    ensures exists t :: 0 < t < |s.threads| && s.threads[t].Working?
  {
    SumPositive(InFlight, s.threads);
    var t :| 0 <= t < |s.threads| && InFlight(s.threads[t]) > 0;
    assert s.threads[t].Working?;
  }

  /** A wake-up nobody asked for. */
  predicate Spurious(s: State, a: Action) {
    a.Wake? && a.t < |s.threads| && s.threads[a.t] == Waiting(false)
  }

  /** While the master is in Wait, some thread can move without a spurious wake-up. */
  lemma Progress(s: State) returns (a: Action)
    requires Inv(s) && !s.threads[MASTER].Outside?
    ensures Enabled(s, a) && !Spurious(s, a) && !a.Add? && !a.Enter?
  {
    var t := MASTER;
    if s.threads[MASTER] == Waiting(false) {
      NoLostWakeup(s);
      t :| 0 < t < |s.threads| && s.threads[t].Working?;
    }
    match s.threads[t]
    case Waiting(_) => a := Wake(t);
    case Working(_, rest, _) => a := if rest == [] then Finish(t) else Exec(t);
  }

  function Weight(th: Thread): int {
    match th
    case Outside => 1
    case Waiting(notified) => if notified then 2 else 0
    case Working(n, rest, _) => 3 * n + |rest|
  }

  /** How much the threads can still do before the master must have returned. */
  function Measure(s: State): int { 5 * |s.queue| + Sum(Weight, s.threads) }

  lemma ProceedMeasure(s: State, t: nat, nBatchSize: nat)
    requires t < |s.threads| && s.nTotal >= 0 && s.nIdle >= 0
    ensures Measure(Proceed(s, t, nBatchSize)) <= Measure(s) - Weight(s.threads[t]) + 1
    ensures s.queue != [] || t != MASTER || s.nTodo != 0 ==>
              Measure(Proceed(s, t, nBatchSize)) <= Measure(s) - Weight(s.threads[t])
  {
    var s' := Proceed(s, t, nBatchSize);
    SumUpdate(Weight, s.threads, t, s'.threads[t]);
  }

  /** Outside Add, every step that is not a spurious wake-up uses some of it up, and a spurious one adds nothing. */
  lemma StepMeasure(s: State, a: Action, nBatchSize: nat)
    requires Inv(s) && Enabled(s, a) && !a.Add? && (a == Enter(MASTER) ==> s.nTodo > 0)
    requires s.nTotal >= 0 && s.nIdle >= 0 && (a.Wake? ==> s.nIdle > 0)
    ensures Measure(Step(s, a, nBatchSize)) <= Measure(s) - if Spurious(s, a) then 0 else 1
  {
    var s' := Step(s, a, nBatchSize);
    match a
    case Enter(t) => ProceedMeasure(s.(nTotal := s.nTotal + 1), t, nBatchSize);
    case Exec(t) => SumUpdate(Weight, s.threads, t, s'.threads[t]);
    case Finish(t) =>
      ReportKeeps(s, t);
      SumsPositive(Report(s, t));
      assert ThreadOk(s.threads[t]);
      SumUpdate(Weight, s.threads, t, Outside);
      if t != MASTER { SumUpdate(Weight, s.threads[t := Outside], MASTER, Waiting(true)); }
      ProceedMeasure(Report(s, t), t, nBatchSize);
    case Wake(t) =>
      SumUpdate(Weight, s.threads, t, Outside);
      ProceedMeasure(s.(nIdle := s.nIdle - 1, threads := s.threads[t := Outside]), t, nBatchSize);
  }

  /** A run of the protocol from a fresh queue. */
  ghost predicate IsRun(n: nat, nBatchSize: nat, acts: seq<Action>, states: seq<State>) {
    && n > 0 && |states| == |acts| + 1 && states[0] == Initial(n)
    && forall i :: 0 <= i < |acts| ==>
         Enabled(states[i], acts[i]) && (Inv(states[i]) ==> Follows(states[i], acts[i], nBatchSize, states[i + 1]))
  }

  ghost predicate Follows(s: State, a: Action, nBatchSize: nat, s': State)
    requires Inv(s) && Enabled(s, a)
  {
    StepKeeps(s, a, nBatchSize);
    s' == Step(s, a, nBatchSize)
  }

  /** In every run, under every interleaving, nTodo is what is queued plus what is in flight,
      and the counters and the verdict are exact. */
  lemma {:induction false} RunInv(n: nat, nBatchSize: nat, acts: seq<Action>, states: seq<State>, i: nat)
    requires IsRun(n, nBatchSize, acts, states) && i < |states|
    ensures Inv(states[i])
  {
    if i == 0 {
      InitialInv(n);
    } else {
      RunInv(n, nBatchSize, acts, states, i - 1);
      assert Enabled(states[i - 1], acts[i - 1]) && Follows(states[i - 1], acts[i - 1], nBatchSize, states[i - 1 + 1]);
      StepKeeps(states[i - 1], acts[i - 1], nBatchSize);
    }
  }

  /** The checks that the first n steps of a run have added since the last return of a Wait. */
  function AddedSince(acts: seq<Action>, states: seq<State>, n: nat): seq<bool>
    requires n <= |acts| < |states|
  {
    if n == 0 || Returns(states[n - 1], acts[n - 1], states[n]) then []
    else AddedSince(acts, states, n - 1) + if acts[n - 1].Add? then acts[n - 1].checks else []
  }

  lemma {:induction false} RecordExact(n: nat, nBatchSize: nat, acts: seq<Action>, states: seq<State>, i: nat)
    requires IsRun(n, nBatchSize, acts, states) && i < |states|
    ensures states[i].added == AddedSince(acts, states, i)
  {
    if i > 0 {
      var s, a := states[i - 1], acts[i - 1];
      RecordExact(n, nBatchSize, acts, states, i - 1);
      RunInv(n, nBatchSize, acts, states, i - 1);
      assert Enabled(s, a) && Follows(s, a, nBatchSize, states[i - 1 + 1]);
      StepKeeps(s, a, nBatchSize);
      if Returns(s, a, states[i]) {
        WaitReturnsVerdict(s, a, nBatchSize);
      } else {
        RecordGrows(s, a, nBatchSize);
      }
    }
  }

  /** In every run, under every interleaving, every Wait returns the conjunction of exactly the checks added since the
      Wait before it returned. */
  lemma RunVerdict(n: nat, nBatchSize: nat, acts: seq<Action>, states: seq<State>, i: nat)
    requires IsRun(n, nBatchSize, acts, states) && i < |acts| && Returns(states[i], acts[i], states[i + 1])
    ensures var s' := states[i + 1];
            && s'.returned == All(AddedSince(acts, states, i)) && s'.queue == [] && s'.nTodo == 0
            && forall t :: 0 <= t < |s'.threads| ==> !s'.threads[t].Working?
  {
    RunInv(n, nBatchSize, acts, states, i);
    assert Enabled(states[i], acts[i]) && Follows(states[i], acts[i], nBatchSize, states[i + 1]);
    StepKeeps(states[i], acts[i], nBatchSize);
    WaitReturnsVerdict(states[i], acts[i], nBatchSize);
    RecordExact(n, nBatchSize, acts, states, i);
  }

  /** The steps of a run that are not spurious wake-ups. */
  function Moves(acts: seq<Action>, states: seq<State>): nat
    requires |states| == |acts| + 1
  {
    if acts == [] then 0 else (if Spurious(states[0], acts[0]) then 0 else 1) + Moves(acts[1..], states[1..])
  }

  /** Wait terminates whatever the scheduler does: as long as the master is inside Wait, no run
      has more than Measure steps that are not spurious wake-ups. */
  lemma {:induction false} WaitTerminates(nBatchSize: nat, acts: seq<Action>, states: seq<State>)
    requires |states| == |acts| + 1 && Inv(states[0])
    requires forall i :: 0 <= i < |states| ==> |states[i].threads| > 0 && !states[i].threads[MASTER].Outside?
    requires forall i :: 0 <= i < |acts| ==>
      Enabled(states[i], acts[i]) && (Inv(states[i]) ==> Follows(states[i], acts[i], nBatchSize, states[i + 1]))
    ensures Moves(acts, states) <= Measure(states[0])
  {
    SumWeight(states[0].threads);
    if acts != [] {
      StepKeeps(states[0], acts[0], nBatchSize);
      assert Follows(states[0], acts[0], nBatchSize, states[0 + 1]);
      StepMeasure(states[0], acts[0], nBatchSize);
      forall i | 0 <= i < |acts[1..]|
        ensures Enabled(states[1..][i], acts[1..][i])
          && (Inv(states[1..][i]) ==> Follows(states[1..][i], acts[1..][i], nBatchSize, states[1..][i + 1]))
      {
        assert states[1..][i] == states[i + 1] && acts[1..][i] == acts[i + 1]
            && states[1..][i + 1] == states[i + 1 + 1];
      }
      WaitTerminates(nBatchSize, acts[1..], states[1..]);
    }
  }

  lemma {:induction false} SumWeight(ts: seq<Thread>)
    ensures Sum(Weight, ts) >= 0
  {
    if ts != [] { SumWeight(ts[1..]); }
  }
}
