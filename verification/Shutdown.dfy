/** internal/shutdown/manager.go: hooks in priority order, run one after the other under nested deadlines. */
module Shutdown {
  import opened Prelude

  datatype Hook = Hook(name: string, priority: int, timeout: int)

  // ---- Registration ----

  /** A new hook goes before the first hook of higher priority value. */
  function Insert(hooks: seq<Hook>, h: Hook): seq<Hook>
  {
    if hooks == [] then [h]
    else if h.priority < hooks[0].priority then [h] + hooks
    else [hooks[0]] + Insert(hooks[1..], h)
  }

  function RegisterAll(regs: seq<Hook>): seq<Hook>
    decreases |regs|
  {
    if regs == [] then [] else Insert(RegisterAll(regs[..|regs| - 1]), regs[|regs| - 1])
  }

  lemma {:induction false} InsertAt(hooks: seq<Hook>, h: Hook, i: nat)
    requires i <= |hooks| && forall j :: 0 <= j < i ==> h.priority >= hooks[j].priority
    requires i < |hooks| ==> h.priority < hooks[i].priority
    ensures Insert(hooks, h) == hooks[..i] + [h] + hooks[i..]
  {
    if i > 0 {
      InsertAt(hooks[1..], h, i - 1);
      assert hooks[1..][..i - 1] == hooks[1..i] && hooks[1..][i - 1..] == hooks[i..];
      assert [hooks[0]] + hooks[1..i] == hooks[..i];
    } else if hooks != [] {
      assert hooks[..0] == [] && hooks[0..] == hooks;
    }
  }

  ghost predicate Sorted(hooks: seq<Hook>)
  {
    forall i, j :: 0 <= i < j < |hooks| ==> hooks[i].priority <= hooks[j].priority
  }

  function IfPriority(h: Hook, p: int): seq<Hook> { if h.priority == p then [h] else [] }

  function ByPriority(hooks: seq<Hook>, p: int): seq<Hook>
  {
    if hooks == [] then [] else IfPriority(hooks[0], p) + ByPriority(hooks[1..], p)
  }

  /** Ordered by priority; hooks of equal priority keep the order of their registration. */
  ghost predicate IsStableSort(hooks: seq<Hook>, regs: seq<Hook>)
  {
    Sorted(hooks) && forall p :: ByPriority(hooks, p) == ByPriority(regs, p)
  }

  lemma {:induction false} InsertMembers(hooks: seq<Hook>, h: Hook)
    ensures forall x :: x in Insert(hooks, h) <==> x == h || x in hooks
  {
    if hooks != [] {
      InsertMembers(hooks[1..], h);
      assert hooks == [hooks[0]] + hooks[1..];
    }
  }

  lemma {:induction false} InsertSorts(hooks: seq<Hook>, h: Hook)
    requires Sorted(hooks)
    ensures Sorted(Insert(hooks, h))
  {
    if hooks != [] && h.priority >= hooks[0].priority {
      InsertSorts(hooks[1..], h);
      InsertMembers(hooks[1..], h);
      var rest := Insert(hooks[1..], h);
      forall i | 0 <= i < |rest| ensures hooks[0].priority <= rest[i].priority {
        assert rest[i] in rest;
      }
    }
  }

  lemma {:induction false} ByPriorityAppend(a: seq<Hook>, b: seq<Hook>, p: int)
    ensures ByPriority(a + b, p) == ByPriority(a, p) + ByPriority(b, p)
  {
    hide IfPriority;
    if a == [] {
      assert a + b == b;
    } else {
      ByPriorityAppend(a[1..], b, p);
      assert (a + b)[1..] == a[1..] + b && (a + b)[0] == a[0];
    }
  }

  lemma {:induction false} NoneOfPriority(hooks: seq<Hook>, p: int)
    requires forall i :: 0 <= i < |hooks| ==> hooks[i].priority != p
    ensures ByPriority(hooks, p) == []
  {
    if hooks != [] { NoneOfPriority(hooks[1..], p); }
  }

  lemma ByPriorityOne(h: Hook, p: int)
    ensures ByPriority([h], p) == IfPriority(h, p)
  {
    assert [h][1..] == [];
  }

  /** A hook put in front of hooks of higher priority value comes after none of its own priority. */
  lemma FrontIsStable(hooks: seq<Hook>, h: Hook, p: int)
    requires forall i :: 0 <= i < |hooks| ==> h.priority < hooks[i].priority
    ensures IfPriority(h, p) + ByPriority(hooks, p) == ByPriority(hooks, p) + IfPriority(h, p)
  {
    if h.priority == p { NoneOfPriority(hooks, p); }
  }

  lemma {:induction false} InsertIsStable(hooks: seq<Hook>, h: Hook, p: int)
    requires Sorted(hooks)
    ensures ByPriority(Insert(hooks, h), p) == ByPriority(hooks, p) + IfPriority(h, p)
  {
    hide IfPriority;
    ByPriorityOne(h, p);
    if hooks == [] {
      assert Insert(hooks, h) == [h];
    } else if h.priority < hooks[0].priority {
      ByPriorityAppend([h], hooks, p);
      FrontIsStable(hooks, h, p);
    } else {
      InsertIsStable(hooks[1..], h, p);
      ByPriorityOne(hooks[0], p);
      ByPriorityAppend([hooks[0]], Insert(hooks[1..], h), p);
      assert IfPriority(hooks[0], p) + (ByPriority(hooks[1..], p) + IfPriority(h, p))
          == IfPriority(hooks[0], p) + ByPriority(hooks[1..], p) + IfPriority(h, p);
    }
  }

  /** Any sequence of registrations ends in its stable sort by priority. */
  lemma {:induction false} RegistrationIsStableSort(regs: seq<Hook>)
    ensures IsStableSort(RegisterAll(regs), regs)
    decreases |regs|
  {
    if regs != [] {
      var n := |regs| - 1;
      RegistrationIsStableSort(regs[..n]);
      InsertSorts(RegisterAll(regs[..n]), regs[n]);
      forall p ensures ByPriority(RegisterAll(regs), p) == ByPriority(regs, p) {
        InsertIsStable(RegisterAll(regs[..n]), regs[n], p);
        assert regs == regs[..n] + [regs[n]];
        ByPriorityAppend(regs[..n], [regs[n]], p);
        ByPriorityOne(regs[n], p);
      }
    }
  }

  lemma {:induction false} FirstOfPriority(hooks: seq<Hook>, p: int)
    requires ByPriority(hooks, p) != []
    ensures exists i :: 0 <= i < |hooks| && hooks[i].priority == p
  {
    if hooks[0].priority != p {
      FirstOfPriority(hooks[1..], p);
      var i :| 0 <= i < |hooks[1..]| && hooks[1..][i].priority == p;
      assert hooks[i + 1].priority == p;
    }
  }

  /** The stable sort is unique, so it is the specification of the registration order. */
  lemma {:induction false} StableSortUnique(a: seq<Hook>, b: seq<Hook>)
    requires Sorted(a) && Sorted(b) && forall p :: ByPriority(a, p) == ByPriority(b, p)
    ensures a == b
    decreases |a|
  {
    if a == [] {
      assert b == [];
    } else {
      var p := a[0].priority;
      assert ByPriority(a, p)[0] == a[0];
      assert b != [];
      FirstOfPriority(b, p);
      var q := b[0].priority;
      assert ByPriority(b, q)[0] == b[0];
      FirstOfPriority(a, q);
      assert q <= p && p <= q;
      forall r ensures ByPriority(a[1..], r) == ByPriority(b[1..], r) {
        var k := if p == r then 1 else 0;
        assert ByPriority(a[1..], r) == ByPriority(a, r)[k..] && ByPriority(b[1..], r) == ByPriority(b, r)[k..];
      }
      StableSortUnique(a[1..], b[1..]);
      assert a == [a[0]] + a[1..] && b == [b[0]] + b[1..];
    }
  }

  // ---- Running the hooks ----

  /** When a hook's function returns, counted from its start, and whether it reports an error. */
  datatype Ending = Never | Returns(after: nat, failed: bool)

  /**
   * What happens to the goroutine of one iteration. It reads the shared loop variable when it is scheduled:
   * normally at once, but if it is scheduled only after its deadline, it sees the hook of a later iteration, and
   * if the process exits first it never runs at all. `tie` settles a return and a deadline at the same instant.
   */
  datatype Turn = OnTime(ending: Ending, tie: bool) | Late(readAt: nat) | NotScheduled

  ghost predicate ValidTurns(turns: seq<Turn>)
  {
    forall i :: 0 <= i < |turns| && turns[i].Late? ==> i <= turns[i].readAt < |turns|
  }

  datatype HookError = TimedOut(name: string) | HookFailed(name: string)

  /** The deadline of a hook started at `now`: its own timeout, capped by the whole shutdown's deadline. */
  function Deadline(now: nat, hook: Hook, limit: nat): nat
    requires now <= limit
  {
    Min(limit, now + Max(0, hook.timeout))
  }

  predicate InTime(turn: Turn, now: nat, deadline: nat)
  {
    turn.OnTime? && turn.ending.Returns? &&
    (now + turn.ending.after < deadline || (now + turn.ending.after == deadline && turn.tie))
  }

  /** When the loop goes on to the next hook. */
  function Resumes(turn: Turn, now: nat, hook: Hook, limit: nat): (later: nat)
    requires now <= limit
    ensures now <= later <= limit && later - now <= Max(0, hook.timeout)
  {
    var deadline := Deadline(now, hook, limit);
    if InTime(turn, now, deadline) then now + turn.ending.after else deadline
  }

  function ErrorOf(turn: Turn, now: nat, hook: Hook, limit: nat): Option<HookError>
    requires now <= limit
  {
    if !InTime(turn, now, Deadline(now, hook, limit)) then Some(TimedOut(hook.name))
    else if turn.ending.failed then Some(HookFailed(hook.name))
    else None
  }

  /** The clock after the first `n` hooks. */
  function ClockAfter(hooks: seq<Hook>, turns: seq<Turn>, limit: nat, n: nat): (now: nat)
    requires n <= |hooks| == |turns|
    ensures now <= limit
  {
    if n == 0 then 0
    else Resumes(turns[n - 1], ClockAfter(hooks, turns, limit, n - 1), hooks[n - 1], limit)
  }

  function Errors(hooks: seq<Hook>, turns: seq<Turn>, limit: nat, n: nat): (errs: seq<HookError>)
    requires n <= |hooks| == |turns|
  {
    if n == 0 then []
    else
      var e := ErrorOf(turns[n - 1], ClockAfter(hooks, turns, limit, n - 1), hooks[n - 1], limit);
      Errors(hooks, turns, limit, n - 1) + if e.Some? then [e.value] else []
  }

  /** The position of the hook the goroutine of iteration `i` really calls, if it gets to call one. */
  function Called(turns: seq<Turn>, i: nat): Option<nat>
    requires i < |turns|
  {
    match turns[i]
    case OnTime(_, _) => Some(i)
    case Late(readAt) => Some(readAt)
    case NotScheduled => None
  }

  ghost predicate IsCalled(turns: seq<Turn>, j: nat)
  {
    exists i :: 0 <= i < |turns| && Called(turns, i) == Some(j)
  }

  /** The hooks called by the goroutines of the first `n` iterations, in the order of the iterations. */
  function Invoked(hooks: seq<Hook>, turns: seq<Turn>, n: nat): (called: seq<Hook>)
    requires ValidTurns(turns) && n <= |hooks| == |turns|
    ensures |called| <= n
  {
    if n == 0 then []
    else Invoked(hooks, turns, n - 1) + match Called(turns, n - 1) { case Some(j) => [hooks[j]] case None => [] }
  }

  class Manager {
    var hooks: seq<Hook>
    const timeout: int
    var shutdownClosed: bool
    var doneClosed: bool

    ghost predicate Valid()
      reads this
    {
      Sorted(hooks)
    }

    constructor (timeout: int)
      ensures Valid() && hooks == [] && this.timeout == timeout && !shutdownClosed && !doneClosed
    {
      hooks, this.timeout, shutdownClosed, doneClosed := [], timeout, false, false;
    }

    method RegisterHook(name: string, priority: int, timeout: int)
      requires Valid()
      modifies this`hooks
      ensures Valid() && hooks == Insert(old(hooks), Hook(name, priority, timeout))
    {
      var hook := Hook(name, priority, timeout);
      InsertSorts(hooks, hook);
      ghost var before := hooks;
      var i := 0;
      while i < |hooks|
        invariant 0 <= i <= |hooks| && hooks == before
        invariant forall j :: 0 <= j < i ==> priority >= hooks[j].priority
      {
        if priority < hooks[i].priority {
          InsertAt(hooks, hook, i);
          hooks := hooks[..i] + [hook] + hooks[i..];
          return;
        }
        i := i + 1;
      }
      InsertAt(hooks, hook, i);
      assert hooks[..i] == hooks && hooks[i..] == [];
      hooks := hooks + [hook];
    }

    /**
     * `turns` is what the environment does in each iteration. A second call panics on the closed channel before it
     * does anything else.
     */
    method Shutdown(turns: seq<Turn>) returns (panicked: bool, errors: seq<HookError>, called: seq<Hook>, waited: nat)
      requires Valid() && |turns| == |hooks| && ValidTurns(turns)
      modifies this`shutdownClosed, this`doneClosed
      ensures panicked <==> old(shutdownClosed)
      ensures panicked ==> shutdownClosed && doneClosed == old(doneClosed)
      ensures panicked ==> called == [] && errors == [] && waited == 0
      ensures !panicked ==>
        && shutdownClosed && doneClosed
        && called == Invoked(hooks, turns, |hooks|)
        && errors == Errors(hooks, turns, Max(0, timeout), |hooks|)
        && waited == ClockAfter(hooks, turns, Max(0, timeout), |hooks|)
    {
      panicked, errors, called, waited := false, [], [], 0;
      if shutdownClosed { return true, [], [], 0; }
      shutdownClosed := true;
      var limit := Max(0, timeout);
      for i := 0 to |hooks|
        invariant errors == Errors(hooks, turns, limit, i) && waited == ClockAfter(hooks, turns, limit, i)
        invariant called == Invoked(hooks, turns, i)
      {
        var hook := hooks[i];
        match Called(turns, i) {
          case Some(j) => called := called + [hooks[j]];
          case None =>
        }
        var deadline := waited + Max(0, hook.timeout);
        if deadline > limit { deadline := limit; }
        var done := turns[i].OnTime? && turns[i].ending.Returns?;
        if done {
          var at := waited + turns[i].ending.after;
          done := at < deadline || (at == deadline && turns[i].tie);
        }
        if done {
          if turns[i].ending.failed { errors := errors + [HookFailed(hook.name)]; }
          waited := waited + turns[i].ending.after;
        } else {
          errors := errors + [TimedOut(hook.name)];
          waited := deadline;
        }
      }
      doneClosed := true;
    }
  }

  // ---- Budget, errors, order ----

  function SumTimeouts(hooks: seq<Hook>, n: nat): nat
    requires n <= |hooks|
  {
    if n == 0 then 0 else SumTimeouts(hooks, n - 1) + Max(0, hooks[n - 1].timeout)
  }

  /** The wait never exceeds the shutdown timeout nor the sum of the hook timeouts. */
  lemma {:induction false} WaitIsBounded(hooks: seq<Hook>, turns: seq<Turn>, limit: nat, n: nat)
    requires n <= |hooks| == |turns|
    ensures ClockAfter(hooks, turns, limit, n) <= Min(limit, SumTimeouts(hooks, n))
  {
    if n > 0 { WaitIsBounded(hooks, turns, limit, n - 1); }
  }

  /** The bound is attained when no hook returns in time. */
  lemma {:induction false} WaitIsAttained(hooks: seq<Hook>, turns: seq<Turn>, limit: nat, n: nat)
    requires n <= |hooks| == |turns| && forall i :: 0 <= i < n ==> !turns[i].OnTime? || turns[i].ending.Never?
    ensures ClockAfter(hooks, turns, limit, n) == Min(limit, SumTimeouts(hooks, n))
  {
    if n > 0 { WaitIsAttained(hooks, turns, limit, n - 1); }
  }

  function Bad(hooks: seq<Hook>, turns: seq<Turn>, limit: nat, i: nat): bool
    requires i < |hooks| == |turns|
  {
    var now := ClockAfter(hooks, turns, limit, i);
    !InTime(turns[i], now, Deadline(now, hooks[i], limit)) || turns[i].ending.failed
  }

  /**
   * What an iteration started at `now` makes of a hook, in terms of its own timeout and of what is left of the whole
   * budget: a hook that returns before both is not reported as timed out, one that has not returned when either is
   * over is, and the loop goes on when the hook returns or the earlier of the two is over.
   */
  lemma IterationOutcome(turn: Turn, now: nat, hook: Hook, limit: nat)
    requires now <= limit
    ensures var own, left := (if hook.timeout > 0 then hook.timeout else 0), limit - now;
      var wait := if own < left then own else left;
      && (turn.OnTime? && turn.ending.Returns? && turn.ending.after < wait ==>
            && ErrorOf(turn, now, hook, limit) == (if turn.ending.failed then Some(HookFailed(hook.name)) else None)
            && Resumes(turn, now, hook, limit) == now + turn.ending.after)
      && (!turn.OnTime? || turn.ending.Never? || turn.ending.after > wait ==>
            && ErrorOf(turn, now, hook, limit) == Some(TimedOut(hook.name))
            && Resumes(turn, now, hook, limit) == now + wait)
      && (turn.OnTime? && turn.ending.Returns? && turn.ending.after == wait ==>
            && Resumes(turn, now, hook, limit) == now + wait
            && (ErrorOf(turn, now, hook, limit) == Some(TimedOut(hook.name)) <==> !turn.tie))
  {
  }

  /** The iterations that fail or run out of time, in order. */
  function BadTurns(hooks: seq<Hook>, turns: seq<Turn>, limit: nat, n: nat): (bad: seq<nat>)
    requires n <= |hooks| == |turns|
    ensures forall k :: 0 <= k < |bad| ==> bad[k] < n && Bad(hooks, turns, limit, bad[k])
    ensures forall k, l :: 0 <= k < l < |bad| ==> bad[k] < bad[l]
    ensures forall i :: 0 <= i < n && Bad(hooks, turns, limit, i) ==> i in bad
  {
    if n == 0 then []
    else BadTurns(hooks, turns, limit, n - 1) + if Bad(hooks, turns, limit, n - 1) then [n - 1] else []
  }

  /** The error iteration `i` is reported with. */
  predicate Blames(e: HookError, hooks: seq<Hook>, turns: seq<Turn>, limit: nat, i: nat)
    requires i < |hooks| == |turns|
  {
    var now := ClockAfter(hooks, turns, limit, i);
    e.name == hooks[i].name && (e.TimedOut? <==> !InTime(turns[i], now, Deadline(now, hooks[i], limit)))
  }

  /** One error per iteration that failed or ran out of time, in order and of the right kind, and no other. */
  lemma {:induction false} OneErrorPerBadHook(hooks: seq<Hook>, turns: seq<Turn>, limit: nat, n: nat)
    requires n <= |hooks| == |turns|
    ensures var errs, bad := Errors(hooks, turns, limit, n), BadTurns(hooks, turns, limit, n);
      |errs| == |bad| && forall k :: 0 <= k < |errs| ==> Blames(errs[k], hooks, turns, limit, bad[k])
  {
    if n > 0 { OneErrorPerBadHook(hooks, turns, limit, n - 1); }
  }

  /**
   * Every registered hook is called if and only if every goroutine runs and reads the loop variable in its own
   * iteration; then each is called exactly once, in priority order.
   */
  lemma EveryHookCalledIff(turns: seq<Turn>)
    requires ValidTurns(turns)
    ensures (forall j :: 0 <= j < |turns| ==> IsCalled(turns, j))
       <==> (forall i :: 0 <= i < |turns| ==> Called(turns, i) == Some(i))
  {
    if forall j :: 0 <= j < |turns| ==> IsCalled(turns, j) {
      forall i | 0 <= i < |turns| ensures Called(turns, i) == Some(i) { CalledInOrder(turns, i); }
    }
    if forall i :: 0 <= i < |turns| ==> Called(turns, i) == Some(i) {
      forall j | 0 <= j < |turns| ensures IsCalled(turns, j) { assert Called(turns, j) == Some(j); }
    }
  }

  lemma {:induction false} CalledInOrder(turns: seq<Turn>, j: nat)
    requires ValidTurns(turns) && j < |turns|
    requires forall k :: 0 <= k < |turns| ==> IsCalled(turns, k)
    ensures forall i :: 0 <= i <= j ==> Called(turns, i) == Some(i)
  {
    if j > 0 { CalledInOrder(turns, j - 1); }
    assert IsCalled(turns, j);
    var i :| 0 <= i < |turns| && Called(turns, i) == Some(j);
  }

  lemma {:induction false} CallsInOrder(hooks: seq<Hook>, turns: seq<Turn>, n: nat)
    requires n <= |hooks| == |turns| && ValidTurns(turns)
    requires forall i :: 0 <= i < |turns| ==> Called(turns, i) == Some(i)
    ensures Invoked(hooks, turns, n) == hooks[..n]
  {
    if n > 0 { CallsInOrder(hooks, turns, n - 1); }
  }

  /**
   * Then the calls are the hooks, once each and in order; that is so in particular if every goroutine is scheduled
   * in time.
   */
  lemma OnTimeCallsInOrder(hooks: seq<Hook>, turns: seq<Turn>)
    requires |hooks| == |turns| && ValidTurns(turns)
    ensures (forall j :: 0 <= j < |turns| ==> IsCalled(turns, j)) ==> Invoked(hooks, turns, |hooks|) == hooks
    ensures (forall i :: 0 <= i < |turns| ==> turns[i].OnTime?) ==> Invoked(hooks, turns, |hooks|) == hooks
  {
    EveryHookCalledIff(turns);
    if forall i :: 0 <= i < |turns| ==> Called(turns, i) == Some(i) {
      CallsInOrder(hooks, turns, |hooks|);
      assert hooks[..|hooks|] == hooks;
    }
  }

  /**
   * A goroutine scheduled after its deadline calls the next hook instead: the first one is skipped, the second
   * called twice.
   */
  lemma LateGoroutineSkipsHook(first: Hook, second: Hook)
    ensures var turns := [Late(1), OnTime(Returns(0, false), true)];
      ValidTurns(turns) && Invoked([first, second], turns, 2) == [second, second]
  {
    var hooks, turns := [first, second], [Late(1), OnTime(Returns(0, false), true)];
    assert Invoked(hooks, turns, 1) == Invoked(hooks, turns, 0) + [second];
    assert Invoked(hooks, turns, 2) == Invoked(hooks, turns, 1) + [second];
  }

  /** A goroutine the process does not wait for may never run: its hook is not called at all. */
  lemma UnscheduledGoroutineSkipsHook(only: Hook)
    ensures ValidTurns([NotScheduled]) && Invoked([only], [NotScheduled], 1) == []
  {
    assert Invoked([only], [NotScheduled], 0) == [];
  }
}
