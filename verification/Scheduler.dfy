/** internal/scheduler/scheduler.go: scheduled backups, their retries and their next run. Times are nanoseconds. */
module Scheduler {
  import opened Prelude

  const RETRY_DELAY := 300_000_000_000   // five minutes

  /** The scheduling part of a task; `lastRun` is absent before the first completed run. */
  datatype Plan = PlanOf(interval: int, lastRun: Option<int>, nextRun: int, enabled: bool, maxRetries: int,
                         retryCount: int)

  function Regular(p: Plan, now: int): Plan
  {
    p.(lastRun := Some(now), nextRun := now + p.interval, retryCount := 0)
  }

  predicate Retries(p: Plan, ok: bool) { !ok && p.retryCount + 1 < p.maxRetries }

  /** The plan after a run ended at `now`. */
  function Completed(p: Plan, ok: bool, now: int): Plan
  {
    if Retries(p, ok) then p.(retryCount := p.retryCount + 1, nextRun := now + RETRY_DELAY) else Regular(p, now)
  }

  predicate Due(p: Plan, now: int) { p.enabled && now > p.nextRun }

  class BackupTask {
    const id: string
    const path: string
    const interval: int
    const maxRetries: int
    var lastRun: Option<int>
    var nextRun: int
    var enabled: bool
    var retryCount: int

    function Current(): Plan
      reads this
    {
      PlanOf(interval, lastRun, nextRun, enabled, maxRetries, retryCount)
    }

    constructor (id: string, path: string, interval: int, maxRetries: int, now: int)
      ensures this.id == id && this.path == path
      ensures Current() == PlanOf(interval, None, now + interval, true, maxRetries, 0)
    {
      this.id, this.path, this.interval, this.maxRetries := id, path, interval, maxRetries;
      lastRun, nextRun, enabled, retryCount := None, now + interval, true, 0;
    }

    /** The part of runTask after the backup function returned, under the scheduler's lock. */
    method Complete(ok: bool, now: int)
      modifies this
      ensures Current() == Completed(old(Current()), ok, now)
    {
      if !ok {
        retryCount := retryCount + 1;
        if retryCount < maxRetries {
          nextRun := now + RETRY_DELAY;
        } else {
          lastRun := Some(now);
          nextRun := now + interval;
          retryCount := 0;
        }
      } else {
        lastRun := Some(now);
        nextRun := now + interval;
        retryCount := 0;
      }
    }
  }

  class Scheduler {
    var tasks: map<string, BackupTask>

    constructor ()
      ensures tasks == map[]
    {
      tasks := map[];
    }

    method AddTask(id: string, path: string, interval: int, maxRetries: int, now: int) returns (ok: bool)
      modifies this
      ensures ok <==> id !in old(tasks)
      ensures !ok ==> tasks == old(tasks)
      ensures ok ==> id in tasks && tasks == old(tasks)[id := tasks[id]] && fresh(tasks[id])
      ensures ok ==> tasks[id].id == id && tasks[id].path == path
      ensures ok ==> tasks[id].Current() == PlanOf(interval, None, now + interval, true, maxRetries, 0)
    {
      if id in tasks { return false; }
      var task := new BackupTask(id, path, interval, maxRetries, now);
      tasks := tasks[id := task];
      return true;
    }

    method RemoveTask(id: string) returns (ok: bool)
      modifies this
      ensures ok <==> id in old(tasks)
      ensures tasks == old(tasks) - {id}
    {
      ok := id in tasks;
      tasks := tasks - {id};
    }

    method SetEnabled(id: string, enabled: bool) returns (ok: bool)
      modifies if id in tasks then {tasks[id]} else {}
      ensures ok <==> id in tasks
      ensures ok ==> tasks[id].Current() == old(tasks[id].Current()).(enabled := enabled)
    {
      if id !in tasks { return false; }
      tasks[id].enabled := enabled;
      return true;
    }

    /** The tasks a tick starts: each due task once, whether or not an earlier run of it is still going. */
    method TasksToRun(now: int) returns (due: seq<BackupTask>)
      ensures forall t :: t in due <==> (exists id :: id in tasks && tasks[id] == t && Due(t.Current(), now))
      ensures |due| == |set id | id in tasks && Due(tasks[id].Current(), now)|
    {
      due := [];
      var todo := tasks.Keys;
      ghost var started: set<string> := {};
      while todo != {}
        invariant todo <= tasks.Keys
        invariant started == set id | id in tasks && id !in todo && Due(tasks[id].Current(), now)
        invariant |due| == |started|
        invariant forall t :: t in due <==> (exists id :: id in started && tasks[id] == t)
        decreases |todo|
      {
        var id :| id in todo;
        var task := tasks[id];
        todo := todo - {id};
        if task.enabled && now > task.nextRun {
          due := due + [task];
          assert id !in started;
          started := started + {id};
        }
      }
      assert started == set id | id in tasks && Due(tasks[id].Current(), now);
    }
  }

  /**
   * When a task starts next. After a failure that is retried: at the first tick later than five minutes from now, its
   * last run staying what it was. After any other completion: at the first tick later than its interval from now, which
   * becomes its last run. Either way only if it is enabled.
   */
  lemma NextStart(p: Plan, ok: bool, now: int, tick: int)
    ensures var q := Completed(p, ok, now);
      var retried := !ok && p.retryCount + 1 < p.maxRetries;
      && (Due(q, tick) <==> p.enabled && tick - now > if retried then 5 * 60 * 1_000_000_000 else p.interval)
      && q.lastRun == (if retried then p.lastRun else Some(now))
      && q.retryCount == (if retried then p.retryCount + 1 else 0)
      && q.interval == p.interval && q.maxRetries == p.maxRetries && q.enabled == p.enabled
  {
  }

  // ---- Retry counting over any sequence of completions ----

  datatype Completion = Completion(ok: bool, at: int)

  function CompletedAll(p: Plan, cs: seq<Completion>): Plan
    decreases |cs|
  {
    if cs == [] then p else Completed(CompletedAll(p, cs[..|cs| - 1]), cs[|cs| - 1].ok, cs[|cs| - 1].at)
  }

  /** How many of the completions scheduled a regular run. */
  function RegularRuns(p: Plan, cs: seq<Completion>): (n: nat)
    decreases |cs|
  {
    if cs == [] then 0
    else
      var k := |cs| - 1;
      RegularRuns(p, cs[..k]) + if Retries(CompletedAll(p, cs[..k]), cs[k].ok) then 0 else 1
  }

  /** Completions of overlapping runs arrive in any order; the retry count stays within its bound regardless. */
  lemma {:induction false} RetryCountBounded(p: Plan, cs: seq<Completion>)
    requires 0 <= p.retryCount < Max(1, p.maxRetries)
    ensures var q := CompletedAll(p, cs);
      && 0 <= q.retryCount < Max(1, p.maxRetries)
      && q.maxRetries == p.maxRetries && q.interval == p.interval && q.enabled == p.enabled
    decreases |cs|
  {
    if cs != [] { RetryCountBounded(p, cs[..|cs| - 1]); }
  }

  /** Failures after a reset: each block of max(1, MaxRetries) of them ends in one regular reschedule. */
  lemma {:induction false} FailuresCounted(p: Plan, cs: seq<Completion>)
    requires p.retryCount == 0 && forall i :: 0 <= i < |cs| ==> !cs[i].ok
    ensures |cs| == RegularRuns(p, cs) * Max(1, p.maxRetries) + CompletedAll(p, cs).retryCount
    decreases |cs|
  {
    if cs != [] {
      hide RegularRuns, CompletedAll;
      FailuresCounted(p, cs[..|cs| - 1]);
      FailureStep(p, cs);
      Distribute(RegularRuns(p, cs[..|cs| - 1]), Max(1, p.maxRetries));
    }
  }

  /** One more failure either counts as a retry or completes a block and starts over. */
  lemma FailureStep(p: Plan, cs: seq<Completion>)
    requires p.retryCount == 0 && cs != [] && !cs[|cs| - 1].ok
    ensures var init, m := cs[..|cs| - 1], Max(1, p.maxRetries);
      var before, after := CompletedAll(p, init).retryCount, CompletedAll(p, cs).retryCount;
      if before + 1 < m then after == before + 1 && RegularRuns(p, cs) == RegularRuns(p, init)
      else before + 1 == m && after == 0 && RegularRuns(p, cs) == RegularRuns(p, init) + 1
  {
    RetryCountBounded(p, cs[..|cs| - 1]);
  }

  lemma DivModUnique(n: nat, m: int, q: nat, r: int)
    requires m > 0 && 0 <= r < m && n == q * m + r
    ensures n / m == q && n % m == r
  {
    if n / m < q {
      assert (n / m + 1) * m <= q * m by { MulMonotone(n / m + 1, q, m); }
    } else if n / m > q {
      assert (q + 1) * m <= n / m * m by { MulMonotone(q + 1, n / m, m); }
    }
  }

  lemma MulMonotone(a: int, b: int, m: int)
    requires a <= b && m >= 0
    ensures a * m <= b * m
  {
  }

  /** n failures in a row leave a retry count of n mod M and have caused n div M regular reschedules. */
  lemma FailuresDivMod(p: Plan, cs: seq<Completion>)
    requires p.retryCount == 0 && forall i :: 0 <= i < |cs| ==> !cs[i].ok
    ensures CompletedAll(p, cs).retryCount == |cs| % Max(1, p.maxRetries)
    ensures RegularRuns(p, cs) == |cs| / Max(1, p.maxRetries)
  {
    FailuresCounted(p, cs);
    RetryCountBounded(p, cs);
    DivModUnique(|cs|, Max(1, p.maxRetries), RegularRuns(p, cs), CompletedAll(p, cs).retryCount);
  }

  // ---- Spacing of the starts of one task ----

  datatype Event = Tick(at: int) | End(at: int, ok: bool) | Switch(at: int, enabled: bool)

  /** A task in time: its plan, the number of runs in progress, and when runs were started. */
  datatype Timeline = Timeline(plan: Plan, running: nat, starts: seq<int>)

  function Happen(t: Timeline, e: Event): Timeline
  {
    match e
    case Tick(now) => if Due(t.plan, now) then t.(running := t.running + 1, starts := t.starts + [now]) else t
    case End(now, ok) => if t.running == 0 then t else t.(plan := Completed(t.plan, ok, now), running := t.running - 1)
    case Switch(_, enabled) => t.(plan := t.plan.(enabled := enabled))
  }

  function HappenAll(t: Timeline, es: seq<Event>): Timeline
    decreases |es|
  {
    if es == [] then t else Happen(HappenAll(t, es[..|es| - 1]), es[|es| - 1])
  }

  /** The end of the only run in progress decides which tick starts the task next. */
  lemma StartsAfterEnd(t: Timeline, now: int, ok: bool, tick: int)
    requires t.running == 1
    ensures var retried := !ok && t.plan.retryCount + 1 < t.plan.maxRetries;
      var wait := if retried then 5 * 60 * 1_000_000_000 else t.plan.interval;
      var u := Happen(Happen(t, End(now, ok)), Tick(tick));
      && u.starts == t.starts + (if t.plan.enabled && tick - now > wait then [tick] else [])
      && u.running == if t.plan.enabled && tick - now > wait then 1 else 0
  {
    NextStart(t.plan, ok, now, tick);
  }

  /** A tick after the task was switched on or off. */
  lemma StartsAfterSwitch(t: Timeline, now: int, on: bool, tick: int)
    ensures Happen(Happen(t, Switch(now, on)), Tick(tick)).starts
         == t.starts + if on && tick > t.plan.nextRun then [tick] else []
  {
  }

  /** A disabled task is not started until it is enabled again. */
  lemma {:induction false} DisabledNeverStarts(t: Timeline, es: seq<Event>)
    requires !t.plan.enabled && forall i :: 0 <= i < |es| && es[i].Switch? ==> !es[i].enabled
    ensures HappenAll(t, es).starts == t.starts && !HappenAll(t, es).plan.enabled
    decreases |es|
  {
    if es != [] { DisabledNeverStarts(t, es[..|es| - 1]); }
  }

  predicate Monotone(es: seq<Event>)
  {
    forall i, j :: 0 <= i < j < |es| ==> es[i].at <= es[j].at
  }

  function Gap(p: Plan): int { Min(p.interval, RETRY_DELAY) }

  /** The tick starts the task although a run is in progress, and no later than a gap after its latest start. */
  predicate HastyStart(t: Timeline, e: Event, gap: int)
  {
    e.Tick? && Due(t.plan, e.at) && t.running > 0 && t.starts != [] && e.at - t.starts[|t.starts| - 1] <= gap
  }

  /** No tick is such a start. */
  predicate NeverHasty(t: Timeline, es: seq<Event>)
    decreases |es|
  {
    es == [] ||
    var n := |es| - 1;
    NeverHasty(t, es[..n]) && !HastyStart(HappenAll(t, es[..n]), es[n], Gap(t.plan))
  }

  /** No tick starts the task while a run of it is in progress. */
  predicate NoOverlap(t: Timeline, es: seq<Event>)
    decreases |es|
  {
    es == [] ||
    var n := |es| - 1;
    var before := HappenAll(t, es[..n]);
    NoOverlap(t, es[..n]) && !(es[n].Tick? && Due(before.plan, es[n].at) && before.running > 0)
  }

  ghost predicate Spaced(starts: seq<int>, gap: int)
  {
    forall i :: 0 <= i < |starts| - 1 ==> starts[i + 1] - starts[i] > gap
  }

  /** Once no run is in progress, the next start lies at least a gap after the latest one. */
  ghost predicate Settled(t: Timeline, u: Timeline, es: seq<Event>)
  {
    && u.plan.interval == t.plan.interval && (u.running > 0 ==> u.starts != [])
    && (u.starts != [] ==> es != [] && u.starts[|u.starts| - 1] <= es[|es| - 1].at)
    && (u.starts != [] && u.running == 0 ==> u.starts[|u.starts| - 1] + Gap(t.plan) <= u.plan.nextRun)
  }

  lemma {:induction false} SpacingInvariant(t: Timeline, es: seq<Event>)
    requires t.running == 0 && t.starts == [] && Monotone(es)
    ensures Settled(t, HappenAll(t, es), es)
    decreases |es|
  {
    if es != [] {
      SpacingInvariant(t, es[..|es| - 1]);
    }
  }

  lemma SpacedSnoc(starts: seq<int>, x: int, gap: int)
    ensures Spaced(starts + [x], gap) <==> Spaced(starts, gap) && (starts != [] ==> x - starts[|starts| - 1] > gap)
  {
    var longer := starts + [x];
    assert forall i :: 0 <= i < |starts| ==> longer[i] == starts[i];
    assert Spaced(longer, gap) ==> forall i :: 0 <= i < |starts| - 1 ==> longer[i + 1] - longer[i] > gap;
    if Spaced(longer, gap) && starts != [] {
      var k := |starts| - 1;
      assert longer[k + 1] - longer[k] > gap;
    }
  }

  /** The starts of a task are spaced exactly when no tick starts it within a gap of a run still in progress. */
  lemma {:induction false} SpacedIff(t: Timeline, es: seq<Event>)
    requires t.running == 0 && t.starts == [] && Monotone(es)
    ensures Spaced(HappenAll(t, es).starts, Gap(t.plan)) <==> NeverHasty(t, es)
    decreases |es|
  {
    hide Spaced;
    if es == [] {
      NothingSpaced(t.starts, Gap(t.plan));
    } else {
      var n := |es| - 1;
      SpacedIff(t, es[..n]);
      SpacingInvariant(t, es[..n]);
      SpacedSnoc(HappenAll(t, es[..n]).starts, es[n].at, Gap(t.plan));
    }
  }

  lemma NothingSpaced(starts: seq<int>, gap: int)
    requires starts == []
    ensures Spaced(starts, gap)
  {
  }

  lemma {:induction false} NoOverlapIsNeverHasty(t: Timeline, es: seq<Event>)
    requires NoOverlap(t, es)
    ensures NeverHasty(t, es)
    decreases |es|
  {
    if es != [] { NoOverlapIsNeverHasty(t, es[..|es| - 1]); }
  }

  lemma {:induction false} FarApart(starts: seq<int>, gap: int, i: nat, j: nat)
    requires Spaced(starts, gap) && i < j < |starts|
    ensures starts[j] - starts[i] > (j - i) * gap
    decreases j
  {
    assert starts[j - 1 + 1] - starts[j - 1] > gap;
    if i < j - 1 {
      FarApart(starts, gap, i, j - 1);
      Distribute(j - 1 - i, gap);
    }
  }

  lemma Distribute(n: int, gap: int)
    ensures (n + 1) * gap == n * gap + gap
  {
  }

  /** Without overlap and under a monotone clock, j - i starts lie more than j - i gaps apart. */
  lemma StartsAreSpaced(t: Timeline, es: seq<Event>, i: nat, j: nat)
    requires t.running == 0 && t.starts == [] && Monotone(es) && NoOverlap(t, es)
    requires i < j < |HappenAll(t, es).starts|
    ensures var starts := HappenAll(t, es).starts; starts[j] - starts[i] > (j - i) * Gap(t.plan)
  {
    NoOverlapIsNeverHasty(t, es);
    SpacedIff(t, es);
    FarApart(HappenAll(t, es).starts, Gap(t.plan), i, j);
  }

  /** How many of the starts fall into the window from `a` to `b`. */
  function StartsIn(starts: seq<int>, a: int, b: int): nat
    decreases |starts|
  {
    if starts == [] then 0
    else StartsIn(starts[..|starts| - 1], a, b) + if a <= starts[|starts| - 1] <= b then 1 else 0
  }

  lemma {:induction false} AfterSoMany(starts: seq<int>, gap: int, a: int, b: int)
    requires Spaced(starts, gap) && gap > 0 && StartsIn(starts, a, b) > 0
    ensures var n, last := StartsIn(starts, a, b), starts[|starts| - 1];
      last >= a + (n - 1) * gap && (n > 1 ==> last > a + (n - 1) * gap)
    decreases |starts|
  {
    var k := |starts| - 1;
    var init := starts[..k];
    assert forall i :: 0 <= i < k ==> init[i] == starts[i];
    var m := StartsIn(init, a, b);
    if m > 0 {
      AfterSoMany(init, gap, a, b);
      assert starts[k - 1 + 1] - starts[k - 1] > gap;
      Distribute(m - 1, gap);
    }
  }

  lemma {:induction false} SpacedInWindow(starts: seq<int>, gap: int, a: int, b: int)
    requires Spaced(starts, gap) && gap > 0
    ensures StartsIn(starts, a, b) > 1 ==> (StartsIn(starts, a, b) - 1) * gap < b - a
    decreases |starts|
  {
    if starts != [] {
      var k := |starts| - 1;
      if a <= starts[k] <= b {
        AfterSoMany(starts, gap, a, b);
      } else {
        assert forall i :: 0 <= i < k ==> starts[..k][i] == starts[i];
        SpacedInWindow(starts[..k], gap, a, b);
      }
    }
  }

  /** Without overlap a window of length L holds at most one start, or n of them with n - 1 gaps shorter than L. */
  lemma StartsInWindow(t: Timeline, es: seq<Event>, from: int, length: nat)
    requires t.running == 0 && t.starts == [] && Monotone(es) && NoOverlap(t, es) && Gap(t.plan) > 0
    ensures var n := StartsIn(HappenAll(t, es).starts, from, from + length);
      n > 1 ==> (n - 1) * Gap(t.plan) < length
    ensures StartsIn(HappenAll(t, es).starts, from, from + length) <= length / Gap(t.plan) + 1
  {
    hide HappenAll, NoOverlap, NeverHasty, Monotone, StartsIn, Spaced, Gap;
    NoOverlapIsNeverHasty(t, es);
    SpacedIff(t, es);
    SpacedInWindow(HappenAll(t, es).starts, Gap(t.plan), from, from + length);
    Quotient(StartsIn(HappenAll(t, es).starts, from, from + length), Gap(t.plan), length);
  }

  lemma Quotient(n: nat, gap: int, length: nat)
    requires gap > 0 && (n > 1 ==> (n - 1) * gap < length)
    ensures n <= length / gap + 1
  {
    var q := length / gap;
    assert length < (q + 1) * gap && q >= 0 by { DivisionBounds(length, gap); }
    if n > q + 1 { MulMonotone(q + 1, n - 1, gap); }
  }

  lemma DivisionBounds(length: nat, gap: int)
    requires gap > 0
    ensures length / gap >= 0 && length < (length / gap + 1) * gap
  {
    Distribute(length / gap, gap);
  }

  /** While a run is in progress nothing moves NextRun, so every later tick starts the task again. */
  lemma RunningTaskRestarts(t: Timeline, start: int, now: int)
    requires Due(t.plan, start) && start <= now
    ensures var u := Happen(t, Tick(start));
      var v := Happen(u, Tick(now));
      v.starts == t.starts + [start, now] && v.running == t.running + 2
  {
    assert t.starts + [start] + [now] == t.starts + [start, now];
  }

  /** So the spacing can fail: an hourly task started twice within a minute. */
  lemma OverlapBreaksSpacing()
    ensures var hour, minute := 3_600_000_000_000, 60_000_000_000;
      var t := Timeline(PlanOf(hour, None, hour, true, 3, 0), 0, []);
      var es := [Tick(hour + minute), Tick(hour + 2 * minute)];
      Monotone(es) && !NoOverlap(t, es) && !Spaced(HappenAll(t, es).starts, Gap(t.plan))
  {
    var hour, minute := 3_600_000_000_000, 60_000_000_000;
    var t := Timeline(PlanOf(hour, None, hour, true, 3, 0), 0, []);
    var es := [Tick(hour + minute), Tick(hour + 2 * minute)];
    var one := [es[0]];
    assert one[..0] == [] && es[..1] == one;
    assert HappenAll(t, []) == t && HappenAll(t, one) == Happen(t, es[0]);
    var v := HappenAll(t, es);
    assert v == Happen(Happen(t, es[0]), es[1]);
    RunningTaskRestarts(t, es[0].at, es[1].at);
    assert v.starts == [hour + minute, hour + 2 * minute];
    assert v.starts[0 + 1] - v.starts[0] == minute;
  }
}
