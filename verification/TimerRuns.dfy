/** Whole runs of the alarms of libAfterBase/timer.c: any setting, handling and removing, at any moments. */
module TimerRuns {
  import opened Common
  import opened TimerQueue

  datatype Step<D> = Set(msec: nat, data: D) | Tick | Cancel(data: D)

  /** A step, and the time of day when it is taken. */
  datatype Request<D> = Request(step: Step<D>, sec: int, usec: int)

  datatype Reply<D> = Quiet | Fired(called: Option<D>) | Taken(success: bool)

  ghost function Now<D>(q: Request<D>): int
  {
    Moment(q.sec, q.usec)
  }

  /** What one request does to the alarms, and what it answers. */
  ghost predicate Stepped<D>(before: seq<Alarm<D>>, q: Request<D>, after: seq<Alarm<D>>, r: Reply<D>)
  {
    match q.step
    case Set(msec, data) => after == [Alarm(Now(q) + 1000 * msec, data)] + before && r == Quiet
    case Tick => r.Fired? && Ticked(before, Now(q), r.called, after)
    case Cancel(data) => r.Taken? && Withdrawn(before, data, r.success, after)
  }

  /** The requests lead from the first state of the run to its last. */
  ghost predicate Runs<D>(run: seq<seq<Alarm<D>>>, requests: seq<Request<D>>, replies: seq<Reply<D>>)
  {
    && |run| == |requests| + 1 && |replies| == |requests|
    && forall i :: 0 <= i < |requests| ==> Stepped(run[i], requests[i], run[i + 1], replies[i])
  }

  lemma StepIsSettled<D>(before: seq<Alarm<D>>, q: Request<D>, a1: seq<Alarm<D>>, a2: seq<Alarm<D>>, r1: Reply<D>, r2: Reply<D>)
    requires Stepped(before, q, a1, r1) && Stepped(before, q, a2, r2)
    ensures a1 == a2 && r1 == r2
  {
    match q.step {
      case Set(msec, data) =>
      case Tick =>
        if Due(before, Now(q)) {
          var i: nat :| Next(before, i) && r1.called == Some(before[i].data) && a1 == Removed(before, i);
          var j: nat :| Next(before, j) && r2.called == Some(before[j].data) && a2 == Removed(before, j);
          NextIsUnique(before, i, j);
        }
      case Cancel(data) =>
        if exists j :: 0 <= j < |before| && before[j].data == data {
          var i: nat :| LastSetWith(before, data, i) && a1 == Removed(before, i);
          var j: nat :| LastSetWith(before, data, j) && a2 == Removed(before, j);
          assert i == j;
        }
    }
  }

  /** An alarm that is set and then taken out by its data leaves everything as it was, whatever was set before with
      the same data. */
  lemma SetThenCancel<D>(before: seq<Alarm<D>>, q: Request<D>, between: seq<Alarm<D>>, r: Reply<D>, p: Request<D>,
                         after: seq<Alarm<D>>, s: Reply<D>)
    requires q.step.Set? && p.step == Cancel(q.step.data)
    requires Stepped(before, q, between, r) && Stepped(between, p, after, s)
    ensures after == before && s == Taken(true)
  {
    assert LastSetWith(between, q.step.data, 0) && Removed(between, 0) == before;
    assert between[0].data == q.step.data;
  }

  /** With nothing else due, the alarm that was just set fires exactly if its time has passed since it was set, and
      its data goes to the handler. */
  lemma SetThenTick<D>(before: seq<Alarm<D>>, q: Request<D>, between: seq<Alarm<D>>, r: Reply<D>, p: Request<D>,
                       after: seq<Alarm<D>>, s: Reply<D>)
    requires q.step.Set? && p.step.Tick? && forall a :: a in before ==> p.sec * 1000000 + p.usec < a.at
    requires Stepped(before, q, between, r) && Stepped(between, p, after, s)
    ensures if (p.sec - q.sec) * 1000000 + (p.usec - q.usec) >= 1000 * q.step.msec
      then after == before && s == Fired(Some(q.step.data))
      else after == between && s == Fired(None)
  {
    assert forall j :: 1 <= j < |between| ==> between[j] == before[j - 1] && before[j - 1] in before;
    assert between[0].at == q.sec * 1000000 + q.usec + 1000 * q.step.msec && Removed(between, 0) == before;
    TickedIs(between, Now(p), s.called, after);
  }

  /** The requests and the alarms at the start settle every reply and every later state. */
  lemma {:induction false} RunIsSettled<D>(run: seq<seq<Alarm<D>>>, run': seq<seq<Alarm<D>>>, requests: seq<Request<D>>,
                                           replies: seq<Reply<D>>, replies': seq<Reply<D>>, n: nat)
    requires Runs(run, requests, replies) && Runs(run', requests, replies') && run[0] == run'[0] && n <= |requests|
    ensures run[..n + 1] == run'[..n + 1] && replies[..n] == replies'[..n]
  {
    if n > 0 {
      RunIsSettled(run, run', requests, replies, replies', n - 1);
      assert run[n - 1] == run[..n][n - 1] && run'[n - 1] == run'[..n][n - 1];
      StepIsSettled(run[n - 1], requests[n - 1], run[n], run'[n], replies[n - 1], replies'[n - 1]);
    }
  }

  // ---------------------------------------------------------------- what a run sets, fires and takes out

  ghost function SetIn<D>(q: Request<D>): multiset<Alarm<D>>
  {
    if q.step.Set? then multiset{Alarm(Now(q) + 1000 * q.step.msec, q.step.data)} else multiset{}
  }

  /** An alarm and the moment it fired at. */
  datatype Shot<D> = Shot(alarm: Alarm<D>, when: int)

  ghost function FiredIn<D>(before: seq<Alarm<D>>, q: Request<D>): seq<Shot<D>>
  {
    if q.step.Tick? && Due(before, Now(q)) then [Shot(before[NextIndex(before)], Now(q))] else []
  }

  ghost function TakenIn<D>(before: seq<Alarm<D>>, q: Request<D>, after: seq<Alarm<D>>): multiset<Alarm<D>>
  {
    if q.step.Cancel? then multiset(before) - multiset(after) else multiset{}
  }

  ghost function AlarmsOf<D>(shots: seq<Shot<D>>): (r: seq<Alarm<D>>)
    ensures |r| == |shots|
  {
    seq(|shots|, i requires 0 <= i < |shots| => shots[i].alarm)
  }

  lemma JoinAlarms<D>(a: seq<Shot<D>>, b: seq<Shot<D>>)
    ensures multiset(AlarmsOf(a + b)) == multiset(AlarmsOf(a)) + multiset(AlarmsOf(b))
  {
    assert AlarmsOf(a + b) == AlarmsOf(a) + AlarmsOf(b);
  }

  /** The alarms set in the first n steps. */
  ghost function SetBy<D>(requests: seq<Request<D>>, n: nat): multiset<Alarm<D>>
    requires n <= |requests|
  {
    if n == 0 then multiset{} else SetBy(requests, n - 1) + SetIn(requests[n - 1])
  }

  /** The alarms that fired in the first n steps, in order. */
  ghost function FiredBy<D>(run: seq<seq<Alarm<D>>>, requests: seq<Request<D>>, n: nat): seq<Shot<D>>
    requires n <= |requests| && |run| == |requests| + 1
  {
    if n == 0 then [] else FiredBy(run, requests, n - 1) + FiredIn(run[n - 1], requests[n - 1])
  }

  /** The alarms that were taken out by their data. */
  ghost function TakenBy<D>(run: seq<seq<Alarm<D>>>, requests: seq<Request<D>>, n: nat): multiset<Alarm<D>>
    requires n <= |requests| && |run| == |requests| + 1
  {
    if n == 0 then multiset{} else TakenBy(run, requests, n - 1) + TakenIn(run[n - 1], requests[n - 1], run[n])
  }

  ghost function CalledIn<D>(r: Reply<D>): seq<D>
  {
    if r.Fired? && r.called.Some? then [r.called.value] else []
  }

  /** The data that handlers were called with, in order. */
  ghost function CalledBy<D>(replies: seq<Reply<D>>, n: nat): seq<D>
    requires n <= |replies|
  {
    if n == 0 then [] else CalledBy(replies, n - 1) + CalledIn(replies[n - 1])
  }

  /** What one step adds to, and takes from, the alarms. */
  lemma StepBalances<D>(before: seq<Alarm<D>>, q: Request<D>, after: seq<Alarm<D>>, r: Reply<D>)
    requires Stepped(before, q, after, r)
    ensures Balances(multiset(before), multiset(after), SetIn(q), multiset(AlarmsOf(FiredIn(before, q))), TakenIn(before, q, after))
  {
    hide Ticked, Withdrawn, Due, Next;
    match q.step {
      case Set(msec, data) =>
      case Tick =>
        TickBalances(before, q, after, r);
      case Cancel(data) =>
        WithdrawnBalances(before, data, r.success, after);
    }
  }

  lemma TickBalances<D>(before: seq<Alarm<D>>, q: Request<D>, after: seq<Alarm<D>>, r: Reply<D>)
    requires q.step.Tick? && Stepped(before, q, after, r)
    ensures multiset(before) == multiset(after) + multiset(AlarmsOf(FiredIn(before, q)))
  {
    hide Ticked, Due, Next;
    TickedIs(before, Now(q), r.called, after);
    if Due(before, Now(q)) {
      WithoutOne(before, NextIndex(before));
      assert AlarmsOf(FiredIn(before, q)) == [before[NextIndex(before)]];
    } else {
      assert AlarmsOf(FiredIn(before, q)) == [];
    }
  }

  lemma WithdrawnBalances<D>(before: seq<Alarm<D>>, data: D, success: bool, after: seq<Alarm<D>>)
    requires Withdrawn(before, data, success, after)
    ensures multiset(before) == multiset(after) + (multiset(before) - multiset(after))
  {
    if after != before {
      var i: nat :| LastSetWith(before, data, i) && after == Removed(before, i);
      WithoutOne(before, i);
    }
  }

  ghost predicate Balances<T>(before: multiset<T>, after: multiset<T>, s: multiset<T>, f: multiset<T>, t: multiset<T>)
  {
    before + s == after + f + t
  }

  /** Every alarm that was ever set is still set, has fired, or has been taken out, each of them once. */
  lemma {:induction false} RunBalances<D>(run: seq<seq<Alarm<D>>>, requests: seq<Request<D>>, replies: seq<Reply<D>>, n: nat)
    requires Runs(run, requests, replies) && n <= |requests|
    ensures multiset(run[0]) + SetBy(requests, n)
         == multiset(run[n]) + multiset(AlarmsOf(FiredBy(run, requests, n))) + TakenBy(run, requests, n)
  {
    hide Stepped, SetIn, FiredIn, TakenIn;
    if n == 0 {
      assert AlarmsOf<D>([]) == [];
    } else {
      var q, before, after := requests[n - 1], run[n - 1], run[n];
      RunBalances(run, requests, replies, n - 1);
      assert Stepped(before, q, after, replies[n - 1]);
      StepBalances(before, q, after, replies[n - 1]);
      JoinAlarms(FiredBy(run, requests, n - 1), FiredIn(before, q));
      Sum(multiset(run[0]), SetBy(requests, n - 1), multiset(before), multiset(AlarmsOf(FiredBy(run, requests, n - 1))),
          TakenBy(run, requests, n - 1), SetIn(q), multiset(after), multiset(AlarmsOf(FiredIn(before, q))),
          TakenIn(before, q, after));
    }
  }

  lemma Sum<T>(start: multiset<T>, set_: multiset<T>, before: multiset<T>, fired: multiset<T>, taken: multiset<T>,
               s: multiset<T>, after: multiset<T>, f: multiset<T>, t: multiset<T>)
    requires start + set_ == before + fired + taken && Balances(before, after, s, f, t)
    ensures start + (set_ + s) == after + (fired + f) + (taken + t)
  {
    assert start + (set_ + s) == (start + set_) + s;
    assert (before + fired + taken) + s == (before + s) + fired + taken;
  }

  /** No alarm fires before its moment. */
  lemma {:induction false} NoneFiresEarly<D>(run: seq<seq<Alarm<D>>>, requests: seq<Request<D>>, replies: seq<Reply<D>>, n: nat)
    requires Runs(run, requests, replies) && n <= |requests|
    ensures forall k :: 0 <= k < |FiredBy(run, requests, n)| ==>
      FiredBy(run, requests, n)[k].alarm.at <= FiredBy(run, requests, n)[k].when
  {
    hide Ticked, Withdrawn, Next, Due;
    if n > 0 {
      NoneFiresEarly(run, requests, replies, n - 1);
      var q := requests[n - 1];
      assert Stepped(run[n - 1], q, run[n], replies[n - 1]);
      if q.step.Tick? {
        TickedIs(run[n - 1], Now(q), replies[n - 1].called, run[n]);
      }
    }
  }

  /** No alarm fires more often than it was set. */
  lemma NoneFiresTwice<D>(run: seq<seq<Alarm<D>>>, requests: seq<Request<D>>, replies: seq<Reply<D>>, n: nat, a: Alarm<D>)
    requires Runs(run, requests, replies) && n <= |requests|
    ensures multiset(AlarmsOf(FiredBy(run, requests, n)))[a] <= (multiset(run[0]) + SetBy(requests, n))[a]
  {
    RunBalances(run, requests, replies, n);
  }

  /** The handlers are called with the data of the alarms that fire, in that order. */
  lemma {:induction false} HandlersAreCalled<D>(run: seq<seq<Alarm<D>>>, requests: seq<Request<D>>, replies: seq<Reply<D>>, n: nat)
    requires Runs(run, requests, replies) && n <= |requests|
    ensures var shots := FiredBy(run, requests, n);
      |CalledBy(replies, n)| == |shots| && forall k :: 0 <= k < |shots| ==> CalledBy(replies, n)[k] == shots[k].alarm.data
  {
    hide Ticked, Withdrawn, Next, Due;
    if n > 0 {
      HandlersAreCalled(run, requests, replies, n - 1);
      var q := requests[n - 1];
      assert Stepped(run[n - 1], q, run[n], replies[n - 1]);
      if q.step.Tick? {
        TickedIs(run[n - 1], Now(q), replies[n - 1].called, run[n]);
      }
    }
  }

  // ---------------------------------------------------------------- the program makes such runs

  ghost predicate Timely<D>(requests: seq<Request<D>>)
  {
    forall k :: 0 <= k < |requests| ==> 0 <= requests[k].usec < MILLION
  }

  method Run<D(==)>(timers: Timers<D>, requests: seq<Request<D>>) returns (replies: seq<Reply<D>>, ghost run: seq<seq<Alarm<D>>>)
    requires timers.Valid() && Timely(requests)
    modifies timers, timers.all`next
    ensures timers.Valid() && Runs(run, requests, replies)
    ensures run[0] == old(timers.Alarms()) && run[|requests|] == timers.Alarms()
  {
    hide Stepped;
    replies, run := [], [timers.Alarms()];
    for k := 0 to |requests|
      invariant timers.Valid() && fresh(timers.all - old(timers.all))
      invariant Runs(run, requests[..k], replies) && run[0] == old(timers.Alarms()) && run[k] == timers.Alarms()
    {
      ghost var before := run;
      var reply := ServeOne(timers, requests[k]);
      RunGrows(before, requests, k, replies, timers.Alarms(), reply);
      replies, run := replies + [reply], before + [timers.Alarms()];
    }
    assert requests[..|requests|] == requests;
  }

  lemma RunGrows<D>(run: seq<seq<Alarm<D>>>, requests: seq<Request<D>>, n: nat, replies: seq<Reply<D>>,
                    after: seq<Alarm<D>>, r: Reply<D>)
    requires n < |requests| && Runs(run, requests[..n], replies) && Stepped(run[n], requests[n], after, r)
    ensures Runs(run + [after], requests[..n + 1], replies + [r])
  {
    var run', requests', replies' := run + [after], requests[..n + 1], replies + [r];
    forall i | 0 <= i < n + 1 ensures Stepped(run'[i], requests'[i], run'[i + 1], replies'[i]) {
      if i < n {
        assert requests[..n][i] == requests'[i];
      }
    }
  }

  method ServeOne<D(==)>(timers: Timers<D>, q: Request<D>) returns (r: Reply<D>)
    requires timers.Valid() && 0 <= q.usec < MILLION
    modifies timers, timers.all`next
    ensures timers.Valid() && fresh(timers.all - old(timers.all))
    ensures Stepped(old(timers.Alarms()), q, timers.Alarms(), r)
  {
    match q.step
    case Set(msec, data) =>
      timers.New(q.sec, q.usec, msec, data);
      r := Quiet;
    case Tick =>
      var success, called := timers.Handle(q.sec, q.usec);
      r := Fired(called);
    case Cancel(data) =>
      var success := timers.RemoveByData(data);
      r := Taken(success);
  }
}
