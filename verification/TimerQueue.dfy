/** The alarms of libAfterBase/timer.c. A moment is a pair of seconds and microseconds; the time of day is a
    parameter wherever the program asks for it, and calling a handler is to report the data it is called with. */
module TimerQueue {
  import opened Common

  const MILLION := 1_000_000

  /** The greatest moment the search for the next alarm starts from. */
  const HORIZON := 0x7fffffff * MILLION

  /** A moment in microseconds. */
  function Moment(sec: int, usec: int): int
  {
    sec * MILLION + usec
  }

  datatype Alarm<D> = Alarm(at: int, data: D)

  // ---------------------------------------------------------------- which alarm is next

  /** i is the earliest alarm; of several at the same moment, the one that was set first. Alarms are listed with
      the one set last in front. */
  ghost predicate Next<D>(alarms: seq<Alarm<D>>, i: nat)
  {
    && i < |alarms|
    && (forall j :: 0 <= j < |alarms| ==> alarms[i].at <= alarms[j].at)
    && (forall j :: i < j < |alarms| ==> alarms[i].at < alarms[j].at)
  }

  ghost predicate Due<D>(alarms: seq<Alarm<D>>, now: int)
  {
    exists i :: 0 <= i < |alarms| && alarms[i].at <= now
  }

  lemma NextIsUnique<D>(alarms: seq<Alarm<D>>, i: nat, j: nat)
    requires Next(alarms, i) && Next(alarms, j)
    ensures i == j
  {
    assert alarms[i].at <= alarms[j].at <= alarms[i].at;
  }

  /** The place of the next alarm. */
  ghost function NextIndex<D>(alarms: seq<Alarm<D>>): (i: nat)
    requires alarms != []
    ensures i < |alarms| && Next(alarms, i)
  {
    if |alarms| == 1 then 0
    else
      var j := NextIndex(alarms[1..]) + 1;
      assert forall k :: 1 <= k < |alarms| ==> alarms[k] == alarms[1..][k - 1];
      if alarms[0].at < alarms[j].at then 0 else j
  }

  /** What handling alarms once does: if any is due, the next one is taken out and its handler is called. */
  ghost predicate Ticked<D>(before: seq<Alarm<D>>, now: int, called: Option<D>, after: seq<Alarm<D>>)
  {
    if Due(before, now) then
      exists i: nat :: Next(before, i) && called == Some(before[i].data) && after == Removed(before, i)
    else called == None && after == before
  }

  lemma TickedOnce<D>(before: seq<Alarm<D>>, now: int, i: nat)
    requires Next(before, i) && before[i].at <= now
    ensures i < |before| && Ticked(before, now, Some(before[i].data), Removed(before, i))
  {
  }

  lemma NotTicked<D>(before: seq<Alarm<D>>, now: int)
    requires !Due(before, now)
    ensures Ticked(before, now, None, before)
  {
  }

  lemma TickedIs<D>(before: seq<Alarm<D>>, now: int, called: Option<D>, after: seq<Alarm<D>>)
    requires Ticked(before, now, called, after)
    ensures called.Some? <==> Due(before, now)
    ensures called.Some? ==> before != [] && var i := NextIndex(before);
      before[i].at <= now && called == Some(before[i].data) && after == Removed(before, i)
    ensures called.None? ==> after == before
  {
    if Due(before, now) {
      var i: nat :| Next(before, i) && called == Some(before[i].data) && after == Removed(before, i);
      NextIsUnique(before, i, NextIndex(before));
    }
  }

  /** i is the first of the list with this data: the one set last. */
  ghost predicate LastSetWith<D>(alarms: seq<Alarm<D>>, data: D, i: nat)
  {
    i < |alarms| && alarms[i].data == data && forall j :: 0 <= j < i ==> alarms[j].data != data
  }

  /** What removing by data does: of the alarms with this data, if any, the one set last is taken out. */
  ghost predicate Withdrawn<D>(before: seq<Alarm<D>>, data: D, success: bool, after: seq<Alarm<D>>)
  {
    if exists j :: 0 <= j < |before| && before[j].data == data then
      success && exists i: nat :: LastSetWith(before, data, i) && after == Removed(before, i)
    else !success && after == before
  }

  lemma WithoutOne<T>(s: seq<T>, i: nat)
    requires i < |s|
    ensures multiset(s) == multiset(Removed(s, i)) + multiset{s[i]}
  {
    assert s == s[..i] + [s[i]] + s[i + 1..];
  }

  /** The alarms set for one moment, in the order of the list. */
  ghost function SetFor<D>(alarms: seq<Alarm<D>>, at: int): seq<Alarm<D>>
  {
    if alarms == [] then []
    else SetFor(alarms[..|alarms| - 1], at) + if alarms[|alarms| - 1].at == at then [alarms[|alarms| - 1]] else []
  }

  lemma {:induction false} SetForJoin<D>(a: seq<Alarm<D>>, b: seq<Alarm<D>>, at: int)
    ensures SetFor(a + b, at) == SetFor(a, at) + SetFor(b, at)
    decreases |b|
  {
    if b == [] {
      assert a + b == a;
    } else {
      assert (a + b)[..|a + b| - 1] == a + b[..|b| - 1];
      SetForJoin(a, b[..|b| - 1], at);
    }
  }

  lemma {:induction false} NoneSetFor<D>(alarms: seq<Alarm<D>>, at: int)
    requires forall j :: 0 <= j < |alarms| ==> alarms[j].at != at
    ensures SetFor(alarms, at) == []
  {
    if alarms != [] {
      NoneSetFor(alarms[..|alarms| - 1], at);
    }
  }

  ghost function Reversed<T>(s: seq<T>): seq<T>
  {
    if s == [] then [] else [s[|s| - 1]] + Reversed(s[..|s| - 1])
  }

  lemma ReversedBack<T>(s: seq<T>, x: T)
    ensures Reversed(s + [x]) == [x] + Reversed(s)
  {
    assert (s + [x])[..|s|] == s;
  }

  lemma SetForFront<D>(a: Alarm<D>, rest: seq<Alarm<D>>, at: int)
    ensures SetFor([a] + rest, at) == (if a.at == at then [a] else []) + SetFor(rest, at)
  {
    SetForJoin([a], rest, at);
    assert [a][..0] == [];
  }

  /** The next alarm is the first that was set for its moment. */
  lemma NextWasFirst<D>(alarms: seq<Alarm<D>>, i: nat, at: int)
    requires Next(alarms, i)
    ensures SetFor(alarms, at) == SetFor(Removed(alarms, i), at) + if at == alarms[i].at then [alarms[i]] else []
  {
    var front, back := alarms[..i], alarms[i + 1..];
    assert alarms == front + [alarms[i]] + back;
    SetForJoin(front + [alarms[i]], back, at);
    SetForJoin(front, [alarms[i]], at);
    SetForJoin(front, back, at);
    assert [alarms[i]][..0] == [];
    if at == alarms[i].at {
      NoneSetFor(back, at);
    }
  }

  // ---------------------------------------------------------------- firing everything that is due

  /** fired, in this order, is what firing one alarm after the other at the moment now gives; left is not due. */
  ghost predicate Fires<D>(alarms: seq<Alarm<D>>, now: int, fired: seq<Alarm<D>>, left: seq<Alarm<D>>)
    decreases |fired|
  {
    if fired == [] then left == alarms && !Due(alarms, now)
    else exists i: nat :: Next(alarms, i) && alarms[i] == fired[0] && fired[0].at <= now
                     && Fires(Removed(alarms, i), now, fired[1..], left)
  }

  lemma FirstFired<D>(alarms: seq<Alarm<D>>, now: int, fired: seq<Alarm<D>>, left: seq<Alarm<D>>) returns (i: nat)
    requires Fires(alarms, now, fired, left) && fired != []
    ensures Next(alarms, i) && alarms[i] == fired[0] && fired[0].at <= now
    ensures Fires(Removed(alarms, i), now, fired[1..], left)
    ensures multiset(alarms) == multiset(Removed(alarms, i)) + multiset{fired[0]}
  {
    i :| Next(alarms, i) && alarms[i] == fired[0] && fired[0].at <= now
         && Fires(Removed(alarms, i), now, fired[1..], left);
    WithoutOne(alarms, i);
  }

  /** Nothing is lost and nothing fires twice: what has fired was due, and what is left is not. */
  lemma {:induction false} FiresWhatIsDue<D>(alarms: seq<Alarm<D>>, now: int, fired: seq<Alarm<D>>, left: seq<Alarm<D>>)
    requires Fires(alarms, now, fired, left)
    ensures multiset(alarms) == multiset(fired) + multiset(left)
    ensures forall a :: a in multiset(fired) ==> a.at <= now
    ensures forall j :: 0 <= j < |left| ==> left[j].at > now
    decreases |fired|
  {
    if fired != [] {
      var i := FirstFired(alarms, now, fired, left);
      FiresWhatIsDue(Removed(alarms, i), now, fired[1..], left);
      assert fired == [fired[0]] + fired[1..];
    }
  }

  /** It fires in the order of the moments. */
  lemma {:induction false} FiresInOrder<D>(alarms: seq<Alarm<D>>, now: int, fired: seq<Alarm<D>>, left: seq<Alarm<D>>)
    requires Fires(alarms, now, fired, left)
    ensures forall j, k :: 0 <= j < k < |fired| ==> fired[j].at <= fired[k].at
    decreases |fired|
  {
    if fired != [] {
      var i := FirstFired(alarms, now, fired, left);
      var rest := fired[1..];
      FiresInOrder(Removed(alarms, i), now, rest, left);
      FiresWhatIsDue(alarms, now, fired, left);
      forall j, k | 0 <= j < k < |fired| ensures fired[j].at <= fired[k].at {
        if j == 0 {
          assert fired[k] in multiset(fired) && fired[k] in multiset(alarms);
        } else {
          assert fired[j] == rest[j - 1] && fired[k] == rest[k - 1];
        }
      }
    }
  }

  /** For the same moment, it fires in the order it was set. */
  lemma {:induction false} FiresFirstSetFirst<D>(alarms: seq<Alarm<D>>, now: int, fired: seq<Alarm<D>>,
                                                left: seq<Alarm<D>>, at: int)
    requires Fires(alarms, now, fired, left) && at <= now
    ensures SetFor(fired, at) == Reversed(SetFor(alarms, at))
    decreases |fired|
  {
    if fired == [] {
      NoneSetFor(alarms, at);
    } else {
      hide *;
      var i := FirstFired(alarms, now, fired, left);
      var rest, first := Removed(alarms, i), fired[0];
      FiresFirstSetFirst(rest, now, fired[1..], left, at);
      NextWasFirst(alarms, i, at);
      assert fired == [first] + fired[1..];
      SetForFront(first, fired[1..], at);
      ReversedBack(SetFor(rest, at), first);
      if at != first.at {
        assert SetFor(rest, at) + [] == SetFor(rest, at) && [] + SetFor(fired[1..], at) == SetFor(fired[1..], at);
      }
    }
  }

  // ---------------------------------------------------------------- the list of timers

  class Timer<D> {
    const sec: int
    const usec: int
    const data: D
    var next: Timer?<D>

    constructor (sec: int, usec: int, data: D)
      requires 0 <= usec < MILLION
      ensures this.sec == sec && this.usec == usec && this.data == data && next == null
    {
      this.sec, this.usec, this.data, next := sec, usec, data, null;
    }
  }

  ghost function View<D>(t: Timer<D>): Alarm<D>
  {
    Alarm(Moment(t.sec, t.usec), t.data)
  }

  ghost function Views<D>(nodes: seq<Timer<D>>): (r: seq<Alarm<D>>)
    ensures |r| == |nodes|
  {
    seq(|nodes|, i requires 0 <= i < |nodes| => View(nodes[i]))
  }

  lemma ViewsRemoved<D>(nodes: seq<Timer<D>>, i: nat)
    requires i < |nodes|
    ensures Views(Removed(nodes, i)) == Removed(Views(nodes), i)
  {
  }

  ghost function Nth<D>(nodes: seq<Timer<D>>, i: nat): Timer?<D>
  {
    if i < |nodes| then nodes[i] else null
  }

  /** The list from first runs through exactly these timers, each once. */
  ghost predicate Linked<D>(first: Timer?<D>, nodes: seq<Timer<D>>, all: set<Timer<D>>)
    reads all`next
  {
    && first == Nth(nodes, 0)
    && (forall i :: 0 <= i < |nodes| ==> nodes[i] in all && 0 <= nodes[i].usec < MILLION)
    && (forall i {:trigger nodes[i].next} :: 0 <= i < |nodes| ==> nodes[i].next == Nth(nodes, i + 1))
    && (forall i, j :: 0 <= i < j < |nodes| ==> nodes[i] != nodes[j])
  }

  lemma Entry<D>(first: Timer?<D>, nodes: seq<Timer<D>>, all: set<Timer<D>>, i: nat)
    requires Linked(first, nodes, all) && i <= |nodes|
    ensures first == Nth(nodes, 0)
    ensures i < |nodes| ==> nodes[i] in all && 0 <= nodes[i].usec < MILLION && nodes[i].next == Nth(nodes, i + 1)
  {
  }

  /** The comparison of seconds, then microseconds, is the comparison of moments. */
  lemma MomentsCompare(sec: int, usec: int, sec': int, usec': int)
    requires 0 <= usec < MILLION && 0 <= usec' < MILLION
    ensures sec < sec' || (sec == sec' && usec <= usec') <==> Moment(sec, usec) <= Moment(sec', usec')
    ensures sec < sec' || (sec == sec' && usec < usec') <==> Moment(sec, usec) < Moment(sec', usec')
  {
  }

  class Timers<D(==)> {
    var first: Timer?<D>
    ghost var nodes: seq<Timer<D>>
    ghost var all: set<Timer<D>>

    ghost predicate Valid()
      reads this, all
    {
      Linked(first, nodes, all)
    }

    /** The alarms that are set, the one set last in front. */
    ghost function Alarms(): seq<Alarm<D>>
      reads this
    {
      Views(nodes)
    }

    constructor ()
      ensures Valid() && Alarms() == [] && all == {}
    {
      first, nodes, all := null, [], {};
    }

    /** Sets an alarm msec milliseconds after now. */
    method New(sec: int, usec: int, msec: nat, data: D)
      requires Valid() && 0 <= usec < MILLION
      modifies this
      ensures Valid() && fresh(all - old(all))
      ensures Alarms() == [Alarm(Moment(sec, usec) + 1000 * msec, data)] + old(Alarms())
    {
      var total := msec * 1000 + usec;
      var timer := new Timer(sec + total / MILLION, total % MILLION, data);
      timer.next := first;
      assert Linked(first, nodes, all);
      PushLinked(first, nodes, all, timer);
      assert Views([timer] + nodes) == [View(timer)] + Views(nodes);
      first, nodes, all := timer, [timer] + nodes, all + {timer};
    }

    /** Takes a timer out of the list, if it is there at all; it is the i-th, or i is past the end. */
    method Extract(timer: Timer<D>, ghost i: nat) returns (r: Timer?<D>)
      requires Valid() && if i < |nodes| then nodes[i] == timer else timer !in nodes && i == |nodes|
      modifies this, all`next, timer`next
      ensures Valid() && all == old(all) && nodes == if i < |old(nodes)| then Removed(old(nodes), i) else old(nodes)
      ensures r == if i < |old(nodes)| || old(nodes) == [] then timer else null
    {
      Entry(first, nodes, all, i);
      if first == timer {
        first := timer.next;
      } else if first != null {
        var ptr := first;
        ghost var p := 0;
        while ptr.next != null
          invariant p < |nodes| && p < i && ptr == nodes[p]
          decreases |nodes| - p
        {
          if ptr.next == timer {
            break;
          }
          ptr, p := ptr.next, p + 1;
        }
        if ptr.next == timer {
          assert p + 1 == i;
          ptr.next := timer.next;
        } else {
          return null;
        }
      }
      timer.next := null;
      if i < |nodes| {
        LinkedWithout(first, nodes, all, i);
        nodes := Removed(nodes, i);
      }
      return timer;
    }

    /** Fires the next alarm if it is due now: takes it out, and calls its handler. */
    method Handle(sec: int, usec: int) returns (success: bool, called: Option<D>)
      requires Valid() && 0 <= usec < MILLION
      modifies this, all`next
      ensures Valid() && all == old(all) && success == called.Some?
      ensures Ticked(old(Alarms()), Moment(sec, usec), called, Alarms())
    {
      hide *;
      var good, i := FindNext(sec, usec);
      ghost var before, now := Alarms(), Moment(sec, usec);
      success, called := false, None;
      AlarmsAre();
      if good != null {
        NextTells(i);
        ViewsRemoved(nodes, i);
        var extracted := Extract(good, i);
        AlarmsAre();
        success, called := true, Some(good.data);
        TickedOnce(before, now, i);
      } else {
        NotTicked(before, now);
      }
    }

    lemma AlarmsAre()
      ensures Alarms() == Views(nodes)
    {
    }

    lemma NextTells(i: nat)
      requires Valid() && Next(Alarms(), i)
      ensures i < |nodes| == |Alarms()| && Alarms()[i].data == nodes[i].data && nodes[i] in all
    {
    }

    /** The earliest timer that is due; of several for the same moment, the last of the list. */
    method FindNext(sec: int, usec: int) returns (good: Timer?<D>, ghost b: nat)
      requires Valid() && 0 <= usec < MILLION
      ensures good == null <==> !Due(Alarms(), Moment(sec, usec))
      ensures good != null ==> Next(Alarms(), b) && nodes[b] == good && Alarms()[b].at <= Moment(sec, usec)
    {
      good, b := null, 0;
      ghost var alarms, now := Alarms(), Moment(sec, usec);
      var timer, i: nat := first, 0;
      Entry(first, nodes, all, 0);
      while timer != null
        invariant i <= |nodes| && timer == Nth(nodes, i)
        invariant good == null ==> forall j :: 0 <= j < i ==> alarms[j].at > now
        invariant good != null ==> b < i && nodes[b] == good && alarms[b].at <= now
        invariant good != null ==> forall j :: 0 <= j < i ==>
          alarms[b].at <= alarms[j].at && (j > b ==> alarms[b].at < alarms[j].at)
        decreases |nodes| - i
      {
        Entry(first, nodes, all, i);
        assert alarms[i] == View(timer);
        MomentsCompare(timer.sec, timer.usec, sec, usec);
        if timer.sec < sec || (timer.sec == sec && timer.usec <= usec) {
          if good != null {
            Entry(first, nodes, all, b);
            MomentsCompare(good.sec, good.usec, timer.sec, timer.usec);
          }
          if good == null || !(good.sec < timer.sec || (timer.sec == good.sec && timer.usec > good.usec)) {
            good, b := timer, i;
          }
        }
        timer, i := timer.next, i + 1;
      }
    }

    /** How long it is until the next alarm; the shortest time there is if it is overdue. */
    method DelayTillNextAlarm(sec: int, usec: int) returns (any: bool, dsec: int, dusec: int)
      requires Valid() && 0 <= usec < MILLION
      ensures any <==> Alarms() != []
      ensures any ==> var wait := Soonest(Alarms()) - Moment(sec, usec);
        0 <= dusec < MILLION && Moment(dsec, dusec) == if wait < 0 then 1 else wait
    {
      dsec, dusec := 0, 0;
      if first == null {
        return false, 0, 0;
      }
      var tsec, tusec := 0x7fffffff, 0;
      var timer, i: nat := first, 0;
      ghost var alarms := Alarms();
      Entry(first, nodes, all, 0);
      assert alarms[..0] == [];
      while timer != null
        invariant i <= |nodes| && timer == Nth(nodes, i)
        invariant 0 <= tusec < MILLION && Moment(tsec, tusec) == Soonest(alarms[..i])
        decreases |nodes| - i
      {
        Entry(first, nodes, all, i);
        assert alarms[i] == View(timer) && alarms[..i + 1][..i] == alarms[..i];
        MomentsCompare(timer.sec, timer.usec, tsec, tusec);
        if timer.sec < tsec || (timer.sec == tsec && timer.usec <= tusec) {
          tsec, tusec := timer.sec, timer.usec;
        }
        timer, i := timer.next, i + 1;
      }
      assert alarms[..|nodes|] == alarms;
      tsec, tusec := SubtractTimes(tsec, tusec, sec, usec);
      if tsec < 0 || tusec < 0 {
        return true, 0, 1;
      }
      return true, tsec, tusec;
    }

    /** The first timer of the list with this data, and its place. */
    method FindData(data: D) returns (timer: Timer?<D>, ghost i: nat)
      requires Valid()
      ensures timer == null ==> forall j :: 0 <= j < |Alarms()| ==> Alarms()[j].data != data
      ensures timer != null ==> i < |nodes| && nodes[i] == timer && timer.data == data
      ensures timer != null ==> forall j :: 0 <= j < i ==> Alarms()[j].data != data
    {
      timer, i := first, 0;
      Entry(first, nodes, all, 0);
      while timer != null && timer.data != data
        invariant i <= |nodes| && timer == Nth(nodes, i)
        invariant forall j :: 0 <= j < i ==> Alarms()[j].data != data
        decreases |nodes| - i
      {
        Entry(first, nodes, all, i);
        timer, i := timer.next, i + 1;
      }
    }

    /** Takes out the alarm with this data that was set last. */
    method RemoveByData(data: D) returns (success: bool)
      requires Valid()
      modifies this, all`next
      ensures Valid() && all == old(all)
      ensures Withdrawn(old(Alarms()), data, success, Alarms())
    {
      var timer, i := FindData(data);
      success := false;
      if timer != null {
        ghost var before := Alarms();
        assert LastSetWith(before, data, i);
        var extracted := Extract(timer, i);
        assert Alarms() == Removed(before, i);
        success := true;
      }
    }
  }

  /** The earliest moment an alarm is set for, or the horizon if there is none before it. */
  ghost function Soonest<D>(alarms: seq<Alarm<D>>): int
  {
    if alarms == [] then HORIZON
    else
      var rest := Soonest(alarms[..|alarms| - 1]);
      if alarms[|alarms| - 1].at <= rest then alarms[|alarms| - 1].at else rest
  }

  /** The difference between two moments, with the microseconds brought back into their range. */
  method SubtractTimes(sec1: int, usec1: int, sec2: int, usec2: int) returns (sec: int, usec: int)
    requires 0 <= usec1 < MILLION && 0 <= usec2 < MILLION
    ensures 0 <= usec < MILLION && Moment(sec, usec) == Moment(sec1, usec1) - Moment(sec2, usec2)
  {
    sec := sec1 - sec2 - (999999 + usec2 - usec1) / MILLION;
    usec := usec1 + (sec1 - sec2 - sec) * MILLION - usec2;
  }

  /** The list without its i-th timer is linked, if the link to it now leads past it. */
  lemma LinkedWithout<D>(first: Timer?<D>, nodes: seq<Timer<D>>, all: set<Timer<D>>, i: nat)
    requires i < |nodes| && (forall k :: 0 <= k < |nodes| ==> nodes[k] in all && 0 <= nodes[k].usec < MILLION)
    requires forall p, q :: 0 <= p < q < |nodes| ==> nodes[p] != nodes[q]
    requires first == Nth(nodes, if i == 0 then 1 else 0)
    requires forall k {:trigger nodes[k].next} :: 0 <= k < |nodes| && k != i ==>
        nodes[k].next == Nth(nodes, if k + 1 == i then i + 1 else k + 1)
    ensures Linked(first, Removed(nodes, i), all)
  {
    var rest := Removed(nodes, i);
    forall k | 0 <= k < |rest| ensures rest[k].next == Nth(rest, k + 1) {
      assert rest[k] == nodes[if k < i then k else k + 1];
    }
  }

  lemma PushLinked<D>(first: Timer?<D>, nodes: seq<Timer<D>>, all: set<Timer<D>>, timer: Timer<D>)
    requires Linked(first, nodes, all) && timer !in all && timer.next == first && 0 <= timer.usec < MILLION
    ensures Linked(timer, [timer] + nodes, all + {timer})
  {
  }

  // ---------------------------------------------------------------- whole runs

  /** Handles alarms at one moment until none is due any more. */
  method Drain<D(==)>(timers: Timers<D>, sec: int, usec: int) returns (called: seq<D>, ghost fired: seq<Alarm<D>>)
    requires timers.Valid() && 0 <= usec < MILLION
    modifies timers, timers.all`next
    ensures timers.Valid() && timers.all == old(timers.all)
    ensures Fires(old(timers.Alarms()), Moment(sec, usec), fired, timers.Alarms())
    ensures |called| == |fired| && forall k :: 0 <= k < |fired| ==> called[k] == fired[k].data
    decreases |timers.nodes|
  {
    hide Ticked, Due, Next;
    ghost var before := timers.Alarms();
    var success, data := timers.Handle(sec, usec);
    TickedIs(before, Moment(sec, usec), data, timers.Alarms());
    if !success {
      return [], [];
    }
    ghost var i, rest := NextIndex(before), [];
    called, rest := Drain(timers, sec, usec);
    fired, called := [before[i]] + rest, [data.value] + called;
    assert fired[1..] == rest;
  }

  lemma {:induction false} SoonestIsLeast<D>(alarms: seq<Alarm<D>>)
    ensures Soonest(alarms) <= HORIZON && forall j :: 0 <= j < |alarms| ==> Soonest(alarms) <= alarms[j].at
    ensures Soonest(alarms) == HORIZON || exists j :: 0 <= j < |alarms| && alarms[j].at == Soonest(alarms)
  {
    if alarms != [] {
      var front := alarms[..|alarms| - 1];
      SoonestIsLeast(front);
      if j :| 0 <= j < |front| && front[j].at == Soonest(front) {
        assert alarms[j] == front[j];
      }
      assert alarms[|alarms| - 1].at == alarms[|alarms| - 1].at;
    }
  }

  /** Waiting for as long as it says until the next alarm is enough to fire it, unless it lies past the horizon. */
  method WaitAndHandle<D(==)>(timers: Timers<D>, sec: int, usec: int) returns (any: bool, success: bool)
    requires timers.Valid() && 0 <= usec < MILLION
    modifies timers, timers.all`next
    ensures timers.Valid() && any == (old(timers.Alarms()) != [])
    ensures any ==> var now := Moment(sec, usec);
      success <==> Due(old(timers.Alarms()), if now > HORIZON then now + 1 else HORIZON)
  {
    var dsec, dusec;
    any, dsec, dusec := timers.DelayTillNextAlarm(sec, usec);
    success := false;
    if any {
      ghost var alarms, now := timers.Alarms(), Moment(sec, usec);
      SoonestIsLeast(alarms);
      var later, laterUsec := sec + dsec, usec + dusec;
      if laterUsec >= MILLION {
        later, laterUsec := later + 1, laterUsec - MILLION;
      }
      ghost var awake := now + Moment(dsec, dusec);
      assert Moment(later, laterUsec) == awake;
      var called;
      success, called := timers.Handle(later, laterUsec);
    }
  }

  /** An alarm past the horizon is waited for in vain. */
  method HorizonIsNotEnough<D(==)>(data: D) returns (any: bool, success: bool)
    ensures any && !success
  {
    var timers := new Timers<D>();
    timers.New(0, 0, 0x7fffffff * 1000 + 1, data);
    any, success := WaitAndHandle(timers, 0, 0);
  }
}
