/** The alarm service: starting, stopping and ticking, with callbacks that change the list
    while it is being walked. */
module AlarmService {
  import opened Arithmetic
  import opened AlarmClock
  import opened AlarmList
  import opened ErrorCodes
  import opened Lists

  /** What a visit does to an alarm: nothing if it is not due; otherwise its callback answers with
      a period, having stopped some alarms. */
  datatype Outcome = NotDue | Called(period: u32, stopped: set<Alarm>)

  /** The alarms a visit takes out of the list: a callback's answer of zero drops its alarm. */
  function Dropped(a: Alarm, o: Outcome): set<Alarm> {
    match o
    case NotDue => {}
    case Called(period, stopped) => stopped + if period == 0 then {a} else {}
  }

  function AllDropped(visited: seq<Alarm>, outcomes: seq<Outcome>): set<Alarm>
    requires |outcomes| == |visited|
  {
    if visited == [] then {}
    else
      var n := |visited| - 1;
      AllDropped(visited[..n], outcomes[..n]) + Dropped(visited[n], outcomes[n])
  }

  lemma DroppedSnoc(visited: seq<Alarm>, outcomes: seq<Outcome>, a: Alarm, o: Outcome)
    requires |outcomes| == |visited|
    ensures AllDropped(visited + [a], outcomes + [o]) == AllDropped(visited, outcomes) + Dropped(a, o)
  {
    assert (visited + [a])[..|visited|] == visited && (outcomes + [o])[..|visited|] == outcomes;
  }

  /** When the alarm is due after a visit at the instant `now`. */
  function DueAfter(due: nat, now: nat, o: Outcome): nat {
    if o.Called? && o.period != 0 then now + o.period else due
  }

  /** A callback that has run: for which alarm, at which instant, and what it answered. */
  datatype Firing = Firing(alarm: Alarm, at: nat, period: u32)

  /** The callback run by one visit, if any. */
  function RunBy(a: Alarm, o: Outcome, now: nat): seq<Firing> {
    if o.Called? then [Firing(a, now, o.period)] else []
  }

  /** The callbacks run by these visits at the instant `now`. */
  function CallbacksRun(visited: seq<Alarm>, outcomes: seq<Outcome>, now: nat): seq<Firing>
    requires |outcomes| == |visited|
  {
    if visited == [] then []
    else
      var n := |visited| - 1;
      CallbacksRun(visited[..n], outcomes[..n], now) + RunBy(visited[n], outcomes[n], now)
  }

  lemma {:induction false} CallbacksRunSnoc(
      visited: seq<Alarm>, outcomes: seq<Outcome>, now: nat, a: Alarm, o: Outcome)
    requires |outcomes| == |visited|
    ensures CallbacksRun(visited + [a], outcomes + [o], now)
            == CallbacksRun(visited, outcomes, now) + RunBy(a, o, now)
  {
    assert (visited + [a])[..|visited|] == visited && (outcomes + [o])[..|visited|] == outcomes;
  }

  /** Those of these alarms that are due at the instant `now`. */
  function DueNow(alarms: seq<Alarm>, dues: map<Alarm, nat>, now: nat): seq<Alarm>
    requires forall a | a in alarms :: a in dues
  {
    if alarms == [] then []
    else
      var n := |alarms| - 1;
      DueNow(alarms[..n], dues, now) + if dues[alarms[n]] == now then [alarms[n]] else []
  }

  function Alarms(firings: seq<Firing>): seq<Alarm> {
    seq(|firings|, i requires 0 <= i < |firings| => firings[i].alarm)
  }

  /** If exactly the due alarms are called, the callbacks run are theirs, once each and in order. */
  lemma {:induction false} RunAreDue(
      visited: seq<Alarm>, outcomes: seq<Outcome>, dues: map<Alarm, nat>, now: nat)
    requires |outcomes| == |visited| && forall a | a in visited :: a in dues
    requires forall i | 0 <= i < |visited| :: outcomes[i].Called? <==> dues[visited[i]] == now
    ensures Alarms(CallbacksRun(visited, outcomes, now)) == DueNow(visited, dues, now)
    decreases |visited|
  {
    if visited != [] {
      var n := |visited| - 1;
      RunAreDue(visited[..n], outcomes[..n], dues, now);
    }
  }

  /** Each callback run belongs to a visit. */
  lemma {:induction false} FiringOfVisit(visited: seq<Alarm>, outcomes: seq<Outcome>, now: nat, f: Firing)
    returns (i: nat)
    requires |outcomes| == |visited| && f in CallbacksRun(visited, outcomes, now)
    ensures i < |visited| && outcomes[i].Called? && f == Firing(visited[i], now, outcomes[i].period)
    decreases |visited|
  {
    var n := |visited| - 1;
    if f in CallbacksRun(visited[..n], outcomes[..n], now) {
      i := FiringOfVisit(visited[..n], outcomes[..n], now, f);
    } else {
      i := n;
    }
  }

  /** An alarm whose callback answered zero is among the dropped ones. */
  lemma {:induction false} ZeroDrops(visited: seq<Alarm>, outcomes: seq<Outcome>, i: nat)
    requires |outcomes| == |visited| && i < |visited| && outcomes[i].Called? && outcomes[i].period == 0
    ensures visited[i] in AllDropped(visited, outcomes)
    decreases |visited|
  {
    var n := |visited| - 1;
    if i < n {
      ZeroDrops(visited[..n], outcomes[..n], i);
    }
  }

  /** The record of a walk over the list: the alarms present at entry and when they were due; the list
      now, cut into what lies behind the walk (`done`) and what it has still to visit (`rest`); the
      alarms visited, with the outcome of each visit; the alarms started by callbacks that are still
      there; and the alarms stopped before their turn. */
  datatype Walk = Walk(
    entry: seq<Alarm>, dues: map<Alarm, nat>, done: seq<Alarm>, rest: seq<Alarm>,
    visited: seq<Alarm>, outcomes: seq<Outcome>, started: seq<Alarm>, lost: set<Alarm>)
  {
    /** All alarms the visits took out of the list. */
    function Gone(): set<Alarm>
      requires |outcomes| == |visited|
    {
      AllDropped(visited, outcomes)
    }

    /** The visited alarms are those of the entry list that were not lost, as far as the walk has got. */
    predicate InStep() {
      && Distinct(entry) && |outcomes| == |visited|
      && visited + rest == Without(entry, lost) && lost <= Gone()
    }

    /** Callbacks stopped no alarm but their own, so none went unvisited. */
    predicate Polite() {
      && |outcomes| == |visited| && lost == {}
      && forall i | 0 <= i < |visited| && outcomes[i].Called? :: outcomes[i].stopped <= {visited[i]}
    }

    /** One more visit, of alarm a; the alarms in `more` were started during it. */
    function Visited(a: Alarm, o: Outcome, more: seq<Alarm>): Walk {
      this.(visited := visited + [a], outcomes := outcomes + [o], started := more + Without(started, Dropped(a, o)))
    }
  }

  class Service {
    const head: Alarm
    var nticks: u32
    var tickRate: u32
    ghost var clock: nat        // the unbounded tick count
    ghost var ring: seq<Alarm>  // the registered alarms in list order

    // What the callbacks will answer, in the order in which they run, and what has run so far.
    const answers: nat -> u32
    ghost var log: seq<Firing>
    var calls: nat

    ghost predicate ValidList()
      reads this, head`next, head`previous, (set a | a in ring)`next, (set a | a in ring)`previous
    {
      Circular(head, ring) && nticks == Counter(clock) && |log| == calls
    }

    /** Every registered alarm stands for its due instant. */
    ghost predicate Valid()
      reads this, head, ring
    {
      ValidList() && forall a | a in ring :: OnTime(a.Timer(), clock, a.due)
    }

    constructor (rate: u32, replies: nat -> u32)
      ensures Valid() && ring == [] && tickRate == rate && clock == 0 && fresh(head)
      ensures answers == replies && log == []
    {
      head := new Alarm();
      nticks, tickRate := 0, rate;
      clock, ring := 0, [];
      answers, log, calls := replies, [], 0;
    }

    /** alt_alarm_start. Starting an alarm that is registered already ruins the list: from then on
        the links from the head never lead back to it. */
    method Start(alarm: Alarm?, ticks: u32) returns (rc: int, ghost trap: set<Alarm>)
      requires ValidList() && alarm != head
      modifies this`ring, head`next, (set a | a in ring)`previous, head`previous
      modifies if alarm == null then {} else {alarm}
      ensures rc == if tickRate == 0 then -ENOTSUP else if alarm == null then -EINVAL else 0
      ensures rc != 0 ==> ValidList() && ring == old(ring)
      ensures rc == 0 ==> alarm.Timer() == Started(nticks, ticks)
      ensures rc == 0 && alarm !in old(ring) ==> ValidList() && ring == [alarm] + old(ring)
      ensures rc == 0 && alarm in old(ring) ==> head.next == alarm && alarm in trap && Trap(head, trap)
      ensures rc == 0 && ticks < WORD - 1 ==>
                alarm.due == clock + ticks + 1 && OnTime(alarm.Timer(), clock, alarm.due)
    {
      if tickRate == 0 {
        return -ENOTSUP, {};
      }
      if alarm == null {
        return -EINVAL, {};
      }
      var current := nticks;
      alarm.time := (ticks + current + 1) % WORD;
      if alarm.time < current {
        alarm.rollover := true;
      } else {
        alarm.rollover := false;
      }
      alarm.due := clock + ticks + 1;
      if ticks < WORD - 1 {
        StartOnTime(clock, ticks);
      }
      assert LinkedAt(head, ring, 0);
      trap := Insert(head, alarm, ring);
      if alarm !in ring {
        ring := [alarm] + ring;
      }
      rc := 0;
    }

    /** alt_alarm_stop: harmless for an alarm that is already out of the list. */
    method Stop(alarm: Alarm)
      requires ValidList() && alarm != head
      requires alarm in ring || (alarm.next == alarm && alarm.previous == alarm)
      modifies this`ring, (set a | a in ring || a == head)`next, (set a | a in ring || a == head)`previous
      modifies alarm`next, alarm`previous
      ensures ValidList() && ring == Without(old(ring), {alarm})
      ensures forall a :: a in ring <==> a in old(ring) && a != alarm
      ensures alarm.next == alarm && alarm.previous == alarm
    {
      if alarm in ring {
        var k := FindLinks(head, alarm, ring);
      }
      ghost var before := ring;
      ring := Remove(head, alarm, ring);
      WithoutMembers(before, {alarm});
    }

    // ---- Callbacks ----

    /** Any registered alarm, or the head: what following some number of links leads to. */
    method FollowLinks() returns (v: Alarm)
      requires ValidList()
      ensures v == head || v in ring
    {
      v := head;
      ghost var i: nat := 0;
      var steps: nat := *;
      while steps > 0
        invariant i <= |ring| && v == At(head, ring, i)
      {
        assert LinkedAt(head, ring, i);
        v := v.next;
        i := if i == |ring| then 0 else i + 1;
        steps := steps - 1;
      }
    }

    /** Starts a new alarm with a delay that keeps it on time. */
    method StartNew(ghost started: seq<Alarm>, ghost rest: seq<Alarm>) returns (ghost more: seq<Alarm>)
      requires ValidList() && ring == started + rest
      requires forall a | a in started :: OnTime(a.Timer(), clock, a.due)
      modifies this`ring, head`next, (set a | a in ring)`previous, head`previous
      ensures ValidList() && ring == more + rest && forall a | a in old(ring) :: a in ring
      ensures forall a | a in more :: (a in started || fresh(a)) && OnTime(a.Timer(), clock, a.due)
    {
      more := started;
      var alarm := new Alarm();
      var ticks: u32 := *;
      if ticks < WORD - 1 {
        var rc, _ := Start(alarm, ticks);
        if rc == 0 {
          more := [alarm] + started;
        }
      }
    }

    /** Stops one alarm; the started ones and the others each lose it if they had it. */
    method StopOne(victim: Alarm, ghost started: seq<Alarm>, ghost before: seq<Alarm>, ghost gone: set<Alarm>)
      returns (ghost left: seq<Alarm>)
      requires ValidList() && ring == started + Without(before, gone) && victim != head
      requires victim in ring || (victim.next == victim && victim.previous == victim)
      requires forall a | a in started && a != victim :: OnTime(a.Timer(), clock, a.due)
      modifies this`ring, (set a | a in ring || a == head)`next, (set a | a in ring || a == head)`previous
      modifies victim`next, victim`previous
      ensures ValidList() && ring == left + Without(before, gone + {victim})
      ensures ring == Without(old(ring), {victim})
      ensures forall a :: a in ring <==> a in old(ring) && a != victim
      ensures victim.next == victim && victim.previous == victim
      ensures forall a | a in left :: a in started && a != victim && OnTime(a.Timer(), clock, a.due)
    {
      Stop(victim);
      WithoutConcat(started, Without(before, gone), {victim});
      WithoutTwice(before, gone, {victim});
      left := Without(started, {victim});
      forall a | a in left ensures a in started && a != victim && OnTime(a.Timer(), clock, a.due) {
        WithoutMember(started, {victim}, a);
      }
    }

    /** What the assumption about the saved next alarm is for: the walk of alt_tick, which goes on from
        there, returns to the head if and only if that alarm is still registered. */
    lemma SavedNextIff(next: Alarm)
      requires ValidList() && next != head && (next in ring || (next.next == next && next.previous == next))
      ensures (exists s :: Chain(s) && s != [] && s[0] == next && head in s) <==> next in ring
    {
      WalkEndsIff(head, ring, next);
    }

    /** This outcome is what the callbacks run since `before` say of a visit to `alarm`. */
    ghost predicate Heard(alarm: Alarm, outcome: Outcome, before: seq<Firing>)
      reads this
    {
      log == before + RunBy(alarm, outcome, clock) && (outcome.Called? ==> outcome.period == answers(|before|))
    }

    /** A callback may start new alarms and stop registered ones, among them the one it was
        called for, but not the one the walk will visit next; a polite one stops no other. */
    method Callback(alarm: Alarm, next: Alarm, polite: bool)
      returns (period: u32, ghost gone: set<Alarm>, ghost started: seq<Alarm>)
      requires ValidList() && alarm in ring && next != alarm && (next == head || next in ring)
      modifies this`ring, this`log, this`calls
      modifies (set a | a in ring || a == head)`next, (set a | a in ring || a == head)`previous
      ensures ValidList() && ring == started + Without(old(ring), gone)
      ensures forall a | a in ring :: a in old(ring) || fresh(a)
      ensures next !in gone && head !in gone && (polite ==> gone <= {alarm})
      ensures forall a | a in started :: fresh(a) && OnTime(a.Timer(), clock, a.due)
      ensures alarm !in ring ==> alarm.next == alarm && alarm.previous == alarm
      ensures log == old(log) + [Firing(alarm, clock, period)] && period == answers(|old(log)|)
    {
      gone, started := {}, [];
      WithoutNone(ring, {});
      var actions: nat := *;
      while actions > 0
        invariant ValidList() && ring == started + Without(old(ring), gone) && log == old(log)
        invariant next !in gone && head !in gone && (polite ==> gone <= {alarm})
        invariant forall a | a in started :: fresh(a) && OnTime(a.Timer(), clock, a.due)
        invariant alarm !in ring ==> alarm.next == alarm && alarm.previous == alarm
      {
        WithoutMembers(old(ring), gone);
        gone, started := Act(alarm, next, polite, old(ring), gone, started);
        actions := actions - 1;
      }
      period := answers(calls);
      log := log + [Firing(alarm, clock, period)];
      calls := calls + 1;
      WithoutMembers(old(ring), gone);
    }

    /** One thing a callback does. */
    method Act(alarm: Alarm, next: Alarm, polite: bool, ghost before: seq<Alarm>,
               ghost gone: set<Alarm>, ghost started: seq<Alarm>)
      returns (ghost gone': set<Alarm>, ghost started': seq<Alarm>)
      requires ValidList() && ring == started + Without(before, gone)
      requires next !in gone && head !in gone && (polite ==> gone <= {alarm}) && alarm != head && alarm != next
      requires forall a | a in started :: OnTime(a.Timer(), clock, a.due)
      requires alarm !in ring ==> alarm.next == alarm && alarm.previous == alarm
      modifies this`ring, (set a | a in ring || a == head)`next, (set a | a in ring || a == head)`previous
      modifies alarm`next, alarm`previous
      ensures ValidList() && ring == started' + Without(before, gone')
      ensures next !in gone' && head !in gone' && (polite ==> gone' <= {alarm})
      ensures forall a | a in started' :: (a in started || fresh(a)) && OnTime(a.Timer(), clock, a.due)
      ensures alarm !in ring ==> alarm.next == alarm && alarm.previous == alarm
    {
      gone', started' := gone, started;
      if * {
        started' := StartNew(started, Without(before, gone));
      } else {
        var victim := alarm;
        if !polite {
          victim := FollowLinks();
        }
        if victim != head && victim != next {
          started' := StopOne(victim, started, before, gone);
          gone' := gone + {victim};
        }
      }
    }

    // ---- The tick ----

    /** What the walk still has to visit, from `alarm` on, is the end of the list. */
    ghost predicate AtRest(alarm: Alarm, done: seq<Alarm>, rest: seq<Alarm>)
      reads this, head, ring
    {
      ValidList() && ring == done + rest && alarm == if rest == [] then head else rest[0]
    }

    /** Alarms already served this tick are on time for the present clock, the others for the
        instant before it. */
    ghost predicate Served(done: seq<Alarm>, rest: seq<Alarm>)
      reads this, head, ring, done, rest
    {
      && clock > 0
      && (forall a | a in done :: OnTime(a.Timer(), clock, a.due))
      && (forall a | a in rest :: OnTime(a.Timer(), clock - 1, a.due))
    }

    lemma NextOnCircle(alarm: Alarm, done: seq<Alarm>, rest: seq<Alarm>)
      requires AtRest(alarm, done, rest) && rest != []
      ensures alarm.next == if rest[1..] == [] then head else rest[1]
      ensures alarm != head && alarm in ring && alarm !in rest[1..] && alarm !in done
      ensures alarm.next != alarm && (alarm.next == head || alarm.next in ring)
    {
      var i := |done| + 1;
      assert At(head, ring, i) == alarm && LinkedAt(head, ring, i);
      assert rest == [alarm] + rest[1..];
      assert forall j | 0 <= j < |rest| :: ring[|done| + j] == rest[j];
      assert forall j | 0 <= j < |done| :: ring[j] == done[j];
    }

    /** The timer part of a visit whose alarm is not due. */
    method Unroll(alarm: Alarm)
      modifies alarm`rollover
      ensures alarm.Timer() == Unrolled(old(alarm.Timer()), nticks)
    {
      if alarm.rollover && nticks == 0 {
        alarm.rollover := false;
      }
    }

    /** The timer part after a callback asked for another period. */
    method Rearm(alarm: Alarm, period: u32)
      requires alarm.Timer() == Timer(nticks, false) && nticks == Counter(clock) && period != 0
      modifies alarm`time, alarm`rollover, alarm`due
      ensures alarm.due == clock + period && OnTime(alarm.Timer(), clock, alarm.due)
    {
      RearmOnTime(clock, period);
      alarm.time := (alarm.time + period) % WORD;
      if alarm.time < nticks {
        alarm.rollover := true;
      }
      alarm.due := clock + period;
    }

    /** Calls back for a due alarm; `served` is what then stands before the unvisited rest. */
    method RunCallback(alarm: Alarm, next: Alarm, polite: bool, ghost done: seq<Alarm>, ghost tail: seq<Alarm>)
      returns (period: u32, ghost served: seq<Alarm>, ghost gone: set<Alarm>, ghost started: seq<Alarm>)
      requires ValidList() && ring == (done + [alarm]) + tail
      requires next != alarm && (next == head || next in ring)
      requires forall a | a in done :: OnTime(a.Timer(), clock, a.due)
      modifies this`ring, this`log, this`calls
      modifies (set a | a in ring || a == head)`next, (set a | a in ring || a == head)`previous
      ensures ValidList() && ring == served + Without(tail, gone)
      ensures forall a | a in ring :: a in old(ring) || fresh(a)
      ensures ring == started + Without(old(ring), gone) && forall a | a in started :: fresh(a)
      ensures next !in gone && (polite ==> gone <= {alarm})
      ensures forall a | a in served && a != alarm :: OnTime(a.Timer(), clock, a.due)
      ensures alarm !in ring ==> alarm.next == alarm && alarm.previous == alarm
      ensures log == old(log) + [Firing(alarm, clock, period)] && period == answers(|old(log)|)
    {
      assert alarm == ring[|done|];
      period, gone, started := Callback(alarm, next, polite);
      WithoutConcat(done + [alarm], tail, gone);
      ghost var earlier := Without(done + [alarm], gone);
      served := started + earlier;
      forall a | a in served && a != alarm ensures OnTime(a.Timer(), clock, a.due) {
        WithoutMember(done + [alarm], gone, a);
      }
    }

    /** A due alarm's turn: the callback runs, then the alarm is dropped or rearmed. */
    method Fire(alarm: Alarm, next: Alarm, polite: bool, ghost done: seq<Alarm>, ghost tail: seq<Alarm>)
      returns (ghost done': seq<Alarm>, ghost started: seq<Alarm>, ghost outcome: Outcome)
      requires ValidList() && ring == (done + [alarm]) + tail && alarm != head
      requires next != alarm && (next == head || next in ring)
      requires alarm.Timer() == Timer(nticks, false)
      requires forall a | a in done :: OnTime(a.Timer(), clock, a.due)
      modifies this`ring, this`log, this`calls
      modifies (set a | a in ring || a == head)`next, (set a | a in ring || a == head)`previous
      modifies alarm`time, alarm`rollover, alarm`due, alarm`next, alarm`previous
      ensures ValidList() && ring == done' + Without(tail, Dropped(alarm, outcome))
      ensures ring == started + Without(old(ring), Dropped(alarm, outcome)) && forall a | a in started :: fresh(a)
      ensures outcome.Called? && next !in Dropped(alarm, outcome) && (polite ==> outcome.stopped <= {alarm})
      ensures alarm.due == DueAfter(old(alarm.due), clock, outcome)
      ensures forall a | a in done' :: OnTime(a.Timer(), clock, a.due)
      ensures Heard(alarm, outcome, old(log))
    {
      ghost var before := ring;
      var period;
      ghost var gone;
      period, done', gone, started := RunCallback(alarm, next, polite, done, tail);
      outcome := Called(period, gone);
      if period == 0 {
        done' := StopOne(alarm, done', tail, gone);
        WithoutMore(started, before, gone, {alarm});
        assert alarm == before[|done|];
        WithoutNone(started, {alarm});
      } else {
        Rearm(alarm, period);
        assert Dropped(alarm, outcome) == gone;
      }
    }

    /** The alarm's part of one turn of the walk. */
    method Serve(alarm: Alarm, next: Alarm, polite: bool, ghost done: seq<Alarm>, ghost tail: seq<Alarm>)
      returns (ghost done': seq<Alarm>, ghost started: seq<Alarm>, ghost outcome: Outcome)
      requires ValidList() && ring == (done + [alarm]) + tail && alarm != head && clock > 0
      requires next != alarm && (next == head || next in ring)
      requires OnTime(alarm.Timer(), clock - 1, alarm.due)
      requires forall a | a in done :: a != alarm && OnTime(a.Timer(), clock, a.due)
      modifies this`ring, this`log, this`calls
      modifies (set a | a in ring || a == head)`next, (set a | a in ring || a == head)`previous
      modifies alarm`time, alarm`rollover, alarm`due, alarm`next, alarm`previous
      ensures ValidList() && ring == done' + Without(tail, Dropped(alarm, outcome))
      ensures ring == started + Without(old(ring), Dropped(alarm, outcome)) && forall a | a in started :: fresh(a)
      ensures next !in Dropped(alarm, outcome) && (polite && outcome.Called? ==> outcome.stopped <= {alarm})
      ensures alarm.due == DueAfter(old(alarm.due), clock, outcome)
      ensures forall a | a in done' :: OnTime(a.Timer(), clock, a.due)
      ensures outcome.Called? <==> old(alarm.due) == clock
      ensures Heard(alarm, outcome, old(log))
    {
      TickOnTime(alarm.Timer(), clock - 1, alarm.due);
      Unroll(alarm);
      if alarm.time <= nticks && !alarm.rollover {
        done', started, outcome := Fire(alarm, next, polite, done, tail);
      } else {
        done', started, outcome := done + [alarm], [], NotDue;
        WithoutNone(tail, {});
        WithoutNone(ring, {});
      }
    }

    /** One turn of the walk. */
    method Visit(alarm: Alarm, polite: bool, ghost done: seq<Alarm>, ghost rest: seq<Alarm>)
      returns (next: Alarm, ghost done': seq<Alarm>, ghost started: seq<Alarm>, ghost outcome: Outcome)
      requires rest != [] && AtRest(alarm, done, rest) && Served(done, rest)
      modifies this`ring, this`log, this`calls
      modifies (set a | a in ring || a == head)`next, (set a | a in ring || a == head)`previous
      modifies alarm`time, alarm`rollover, alarm`due
      ensures AtRest(next, done', Without(rest[1..], Dropped(alarm, outcome)))
      ensures Served(done', Without(rest[1..], Dropped(alarm, outcome)))
      ensures ring == started + Without(old(ring), Dropped(alarm, outcome)) && forall a | a in started :: fresh(a)
      ensures forall a | a in Without(rest[1..], Dropped(alarm, outcome)) :: a in rest && a != alarm
      ensures polite && outcome.Called? ==> outcome.stopped <= {alarm}
      ensures alarm.due == DueAfter(old(alarm.due), clock, outcome)
      ensures outcome.Called? <==> old(alarm.due) == clock
      ensures Heard(alarm, outcome, old(log))
    {
      NextOnCircle(alarm, done, rest);
      ghost var tail := rest[1..];
      assert rest == [alarm] + tail;
      assert ring == (done + [alarm]) + tail;
      next := alarm.next;
      done', started, outcome := Serve(alarm, next, polite, done, tail);
      ghost var gone := Dropped(alarm, outcome);
      forall a | a in Without(tail, gone) ensures a in rest && a != alarm && OnTime(a.Timer(), clock - 1, a.due) {
        WithoutMember(tail, gone, a);
      }
    }

    /** One turn with its bookkeeping. */
    method Turn(alarm: Alarm, polite: bool, ghost k: Walk)
      returns (next: Alarm, ghost k': Walk, ghost more: seq<Alarm>, ghost outcome: Outcome)
      requires k.rest != [] && AtRest(alarm, k.done, k.rest) && Served(k.done, k.rest) && k.InStep()
      modifies this`ring, this`log, this`calls
      modifies (set a | a in ring || a == head)`next, (set a | a in ring || a == head)`previous
      modifies alarm`time, alarm`rollover, alarm`due
      ensures k' == k.Visited(alarm, outcome, more).(done := k'.done, rest := k'.rest, lost := k'.lost)
      ensures AtRest(next, k'.done, k'.rest) && Served(k'.done, k'.rest) && k'.InStep()
      ensures |k'.rest| < |k.rest| && forall a | a in k'.rest :: a in k.rest && a.due == old(a.due)
      ensures ring == more + Without(old(ring), Dropped(alarm, outcome)) && forall a | a in more :: fresh(a)
      ensures polite ==> k'.lost == k.lost && (outcome.Called? ==> outcome.stopped <= {alarm})
      ensures alarm.due == DueAfter(old(alarm.due), clock, outcome)
      ensures outcome.Called? <==> old(alarm.due) == clock
      ensures Heard(alarm, outcome, old(log))
    {
      ghost var done;
      next, done, more, outcome := Visit(alarm, polite, k.done, k.rest);
      ghost var gone := Dropped(alarm, outcome);
      ghost var lost := WalkOn(k.entry, k.lost, k.visited, k.rest, gone);
      k' := k.Visited(alarm, outcome, more).(done := done, rest := Without(k.rest[1..], gone), lost := lost);
      DroppedSnoc(k.visited, k.outcomes, alarm, outcome);
    }

    /** Advances the counter and finds the first alarm. */
    method Begin() returns (alarm: Alarm)
      requires Valid()
      modifies this`clock, this`nticks
      ensures clock == old(clock) + 1
      ensures AtRest(alarm, [], ring) && Served([], ring) && Dues() == old(Dues())
    {
      CounterTicks(clock);
      nticks := (nticks + 1) % WORD;
      clock := clock + 1;
      assert LinkedAt(head, ring, 0);
      alarm := head.next;
    }

    // ---- What a walk has done ----

    ghost function Dues(): map<Alarm, nat>
      reads this`ring, (set a | a in ring)`due
    {
      map a | a in ring :: a.due
    }

    /** What became of the visited alarms: called exactly if due, then due as asked. */
    ghost predicate Record(k: Walk)
      reads this`clock, (set a | a in k.visited)`due
    {
      && |k.outcomes| == |k.visited|
      && forall i | 0 <= i < |k.visited| :: RecordOne(k.visited[i], k.outcomes[i], k.entry, k.dues)
    }

    ghost predicate RecordOne(a: Alarm, o: Outcome, entry: seq<Alarm>, dues: map<Alarm, nat>)
      reads this`clock, a`due
    {
      && a in entry && a in dues
      && (o.Called? <==> dues[a] == clock)
      && a.due == DueAfter(dues[a], clock, o)
    }

    /** What became of the list: the alarms started meanwhile come first, then those present at entry
        that were not dropped. */
    ghost predicate Kept(k: Walk)
      reads this`ring
    {
      && |k.outcomes| == |k.visited|
      && ring == k.started + Without(k.entry, k.Gone())
      && forall a | a in k.started :: a !in k.entry
    }

    lemma KeptOn(k: Walk, before: seq<Alarm>, more: seq<Alarm>, a: Alarm, o: Outcome, k': Walk)
      requires k' == k.Visited(a, o, more).(done := k'.done, rest := k'.rest, lost := k'.lost)
      requires |k.outcomes| == |k.visited| && before == k.started + Without(k.entry, k.Gone())
      requires forall b | b in more || b in k.started :: b !in k.entry
      requires ring == more + Without(before, Dropped(a, o))
      ensures Kept(k')
    {
      var gone := k.Gone();
      DroppedSnoc(k.visited, k.outcomes, a, o);
      WithoutMore(k.started, k.entry, gone, Dropped(a, o));
      WithoutMembers(k.started, Dropped(a, o));
      assert more + (Without(k.started, Dropped(a, o)) + Without(k.entry, gone + Dropped(a, o)))
          == (more + Without(k.started, Dropped(a, o))) + Without(k.entry, gone + Dropped(a, o));
    }

    /** A walk in progress, about to visit `alarm`. */
    ghost predicate Walked(alarm: Alarm, k: Walk)
      reads this, head, ring, k.done, k.rest, k.visited
    {
      && AtRest(alarm, k.done, k.rest) && Served(k.done, k.rest) && k.InStep()
      && (forall a | a in k.rest :: a in k.entry && a in k.dues && a.due == k.dues[a])
      && Record(k)
    }

    /** The callbacks run since `before` are those of the visits so far, and gave the answers in turn. */
    ghost predicate Rung(k: Walk, before: seq<Firing>)
      reads this
    {
      && |k.outcomes| == |k.visited| && log == before + CallbacksRun(k.visited, k.outcomes, clock)
      && forall i | |before| <= i < |log| :: log[i].period == answers(i)
    }

    lemma RungOn(k: Walk, before: seq<Firing>, sofar: seq<Firing>, more: seq<Alarm>, a: Alarm, o: Outcome, k': Walk)
      requires k' == k.Visited(a, o, more).(done := k'.done, rest := k'.rest, lost := k'.lost)
      requires |k.outcomes| == |k.visited| && sofar == before + CallbacksRun(k.visited, k.outcomes, clock)
      requires forall i | |before| <= i < |sofar| :: sofar[i].period == answers(i)
      requires Heard(a, o, sofar)
      ensures Rung(k', before)
    {
      CallbacksRunSnoc(k.visited, k.outcomes, clock, a, o);
    }

    ghost predicate Progress(alarm: Alarm, polite: bool, k: Walk, before: seq<Firing>)
      reads this, head, ring, k.done, k.rest, k.visited
    {
      Walked(alarm, k) && Kept(k) && (polite ==> k.Polite()) && Rung(k, before)
    }

    lemma RecordSnoc(k: Walk, a: Alarm, o: Outcome, more: seq<Alarm>)
      requires Record(k) && RecordOne(a, o, k.entry, k.dues)
      ensures Record(k.Visited(a, o, more))
    {
    }

    method RecordedTurn(alarm: Alarm, polite: bool, ghost k: Walk)
      returns (next: Alarm, ghost k': Walk, ghost more: seq<Alarm>, ghost outcome: Outcome)
      requires Walked(alarm, k) && k.rest != []
      modifies this`ring, this`log, this`calls
      modifies (set a | a in ring || a == head)`next, (set a | a in ring || a == head)`previous
      modifies alarm`time, alarm`rollover, alarm`due
      ensures k' == k.Visited(alarm, outcome, more).(done := k'.done, rest := k'.rest, lost := k'.lost)
      ensures Walked(next, k') && |k'.rest| < |k.rest|
      ensures ring == more + Without(old(ring), Dropped(alarm, outcome)) && forall a | a in more :: fresh(a)
      ensures forall a | a in ring :: a in old(ring) || fresh(a)
      ensures polite ==> k'.lost == k.lost && (outcome.Called? ==> outcome.stopped <= {alarm})
      ensures Heard(alarm, outcome, old(log))
    {
      assert k.rest[0] in k.rest && alarm.due == k.dues[alarm];
      WithoutDistinct(k.entry, k.lost);
      SplitDistinct(k.visited, k.rest);
      assert alarm !in k.visited;
      next, k', more, outcome := Turn(alarm, polite, k);
      RecordSnoc(k, alarm, outcome, more);
      WithoutMembers(old(ring), Dropped(alarm, outcome));
    }

    lemma PoliteOn(k: Walk, more: seq<Alarm>, a: Alarm, o: Outcome, k': Walk)
      requires k.Polite() && (o.Called? ==> o.stopped <= {a}) && k'.lost == k.lost
      requires k' == k.Visited(a, o, more).(done := k'.done, rest := k'.rest, lost := k'.lost)
      ensures k'.Polite()
    {
    }

    /** The same turn seen from the whole list. */
    method KeepingTurn(alarm: Alarm, polite: bool, ghost k: Walk, ghost from: seq<Firing>)
      returns (next: Alarm, ghost k': Walk)
      requires Progress(alarm, polite, k, from) && k.rest != []
      modifies this`ring, this`log, this`calls
      modifies (set a | a in ring || a == head)`next, (set a | a in ring || a == head)`previous
      modifies alarm`time, alarm`rollover, alarm`due
      ensures Progress(next, polite, k', from) && |k'.rest| < |k.rest|
      ensures k'.entry == k.entry && k'.dues == k.dues
      ensures forall a | a in ring :: a in old(ring) || fresh(a)
    {
      ghost var before, sofar := ring, log;
      ghost var more, outcome;
      next, k', more, outcome := RecordedTurn(alarm, polite, k);
      KeptOn(k, before, more, alarm, outcome, k');
      RungOn(k, from, sofar, more, alarm, outcome, k');
      if polite {
        PoliteOn(k, more, alarm, outcome, k');
      }
    }

    lemma WalkDone(polite: bool, k: Walk, before: seq<Firing>)
      requires Progress(head, polite, k, before)
      ensures Valid() && k.rest == [] && k.visited == Without(k.entry, k.lost)
    {
      assert forall a | a in k.rest :: a in ring;
      assert k.visited + [] == k.visited;
    }

    lemma NothingYet(first: Alarm, dues: map<Alarm, nat>)
      requires AtRest(first, [], ring) && Served([], ring) && dues == Dues()
      ensures Progress(first, true, Walk(ring, dues, [], ring, [], [], [], {}), log)
    {
      WithoutNone(ring, {});
    }

    /** The i-th callback ran just now, gave the i-th answer, and was heard. */
    ghost predicate Answered(i: nat)
      requires i < |log|
      reads this, log[i].alarm`due
    {
      var f := log[i];
      && f.at == clock && f.period == answers(i)
      && (f.period != 0 ==> f.alarm.due == clock + f.period)
      && (f.period == 0 ==> f.alarm !in ring)
    }

    /** The callbacks run since `before` are those of the visited alarms that are due, once each and in
        order, and each answer was heard. */
    ghost predicate CalledBack(k: Walk, before: seq<Firing>)
      reads this, (set f | f in log :: f.alarm)`due
    {
      && before <= log && (forall a | a in k.visited :: a in k.dues)
      && Alarms(log[|before|..]) == DueNow(k.visited, k.dues, clock)
      && forall i | |before| <= i < |log| :: Answered(i)
    }

    lemma RungAsDue(k: Walk, before: seq<Firing>)
      requires Record(k) && Kept(k) && Rung(k, before)
      ensures CalledBack(k, before)
    {
      var firings := CallbacksRun(k.visited, k.outcomes, clock);
      assert log[|before|..] == firings;
      assert forall i | 0 <= i < |k.visited| :: RecordOne(k.visited[i], k.outcomes[i], k.entry, k.dues);
      RunAreDue(k.visited, k.outcomes, k.dues, clock);
      forall i | |before| <= i < |log| ensures Answered(i) {
        FiringAnswered(k, before, i);
      }
    }

    lemma FiringAnswered(k: Walk, before: seq<Firing>, i: nat)
      requires Record(k) && Kept(k) && Rung(k, before) && |before| <= i < |log|
      ensures Answered(i)
    {
      assert log[i] == CallbacksRun(k.visited, k.outcomes, clock)[i - |before|];
      var j := FiringOfVisit(k.visited, k.outcomes, clock, log[i]);
      assert RecordOne(k.visited[j], k.outcomes[j], k.entry, k.dues);
      if log[i].period == 0 {
        ZeroDrops(k.visited, k.outcomes, j);
        WithoutMembers(k.entry, k.Gone());
      }
    }

    /** The walk over the list. */
    method ServeAll(first: Alarm, polite: bool) returns (ghost k: Walk)
      requires AtRest(first, [], ring) && Served([], ring)
      modifies this`ring, this`log, this`calls, head, ring
      ensures Valid() && k.entry == old(ring) && k.dues == old(Dues())
      ensures k.visited == Without(k.entry, k.lost) && k.InStep() && Record(k) && Kept(k)
      ensures CalledBack(k, old(log))
      ensures polite ==> k.Polite()
      ensures forall a | a in ring :: a in old(ring) || fresh(a)
    {
      k := Walk(ring, Dues(), [], ring, [], [], [], {});
      NothingYet(first, k.dues);
      var alarm := first;
      while alarm != head
        invariant Progress(alarm, polite, k, old(log)) && k.entry == old(ring) && k.dues == old(Dues())
        invariant forall a | a in ring :: a in old(ring) || fresh(a)
        decreases |k.rest|
      {
        assert k.rest[0] in k.rest && alarm in k.entry;
        alarm, k := KeepingTurn(alarm, polite, k, old(log));
      }
      WalkDone(polite, k, old(log));
      RungAsDue(k, old(log));
    }

    /** alt_tick: advances the counter and serves the registered alarms. It visits, once each and
        in order, exactly the alarms present at entry that no callback stopped before their turn
        (all of them if callbacks stop only themselves), none started meanwhile; calls back exactly
        those visited whose due instant has come and makes each due again a period later; and keeps
        in the list exactly the alarms nobody stopped and whose callback did not answer zero. By the
        record that callbacks make of themselves: those run were for the visited alarms due now, once
        each and in order, gave the answers they had to give, and each alarm is due again that much
        later, or out of the list if that is zero. */
    method Tick(polite: bool) returns (ghost k: Walk)
      requires Valid()
      modifies this`clock, this`nticks, this`ring, this`log, this`calls, head, ring
      ensures Valid() && clock == old(clock) + 1 && k.entry == old(ring) && k.dues == old(Dues())
      ensures k.visited == Without(old(ring), k.lost) && k.InStep() && Record(k) && Kept(k)
      ensures polite ==> k.Polite() && k.visited == old(ring)
      ensures forall a | a in ring :: a in old(ring) || fresh(a)
      ensures CalledBack(k, old(log))
    {
      ghost var entry, dues := ring, Dues();
      var first := Begin();
      ghost var now := clock;
      k := ServeAll(first, polite);
      assert clock == now && k.entry == entry && k.dues == dues;
      AllVisited(k, polite);
    }

    lemma AllVisited(k: Walk, polite: bool)
      requires k.visited == Without(k.entry, k.lost) && (polite ==> k.Polite())
      ensures polite ==> k.visited == k.entry
    {
      WithoutNone(k.entry, {});
    }
  }
}
