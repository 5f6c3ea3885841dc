/** The alert queue as a system of interleaved atomic steps: producers, delay setters and one consumer. */
module AlertSteps {
  import opened Fifo

  datatype Alert = Alert(dept: string, alarm: int, level: int)

  const MAX_MSGS := 10

  /** Where the consumer is: polling; an alert taken and pushed but the timer not yet set; counting down. */
  datatype Phase = Polling | Pushed | Waiting

  datatype Sys = Sys(queue: Fifo<Alert>, accepted: seq<Alert>, sent: seq<Alert>, timer: int, alertDelay: int, phase: Phase)

  datatype Step = Add(alert: Alert) | SetDelay(delay: int) | Poll | Arm | Tick

  function Start(timer: int, alertDelay: int): Sys {
    Sys(New(MAX_MSGS), [], [], timer, alertDelay, Polling)
  }

  /** The consumer does one thing at a time; the others may come at any time. */
  predicate Enabled(s: Sys, step: Step) {
    match step
    case Poll => s.phase.Polling?
    case Arm => s.phase.Pushed?
    case Tick => s.phase.Waiting?
    case _ => true
  }

  function Next(s: Sys, step: Step): Sys {
    match step
    case Add(a) => s.(queue := Push(s.queue, a), accepted := if HasRoom(s.queue) then s.accepted + [a] else s.accepted)
    case SetDelay(d) => s.(timer := d)
    case Poll =>
      if s.queue.items == [] then s
      else s.(queue := Pop(s.queue), sent := s.sent + [s.queue.items[0]], phase := Pushed)
    case Arm => s.(timer := s.alertDelay, phase := Waiting)
    case Tick => s.(timer := s.timer - 1, phase := if s.timer - 1 <= 0 then Polling else Waiting)
  }

  predicate CanRun(s: Sys, steps: seq<Step>)
    decreases |steps|
  {
    steps == [] || (Enabled(s, steps[0]) && CanRun(Next(s, steps[0]), steps[1..]))
  }

  function Final(s: Sys, steps: seq<Step>): Sys
    decreases |steps|
  {
    if steps == [] then s else Final(Next(s, steps[0]), steps[1..])
  }

  // ---------- No alert is lost or sent twice ----------

  predicate Conserved(s: Sys) {
    s.accepted == s.sent + s.queue.items && |s.queue.items| <= s.queue.capacity == 10
  }

  lemma StepConserves(s: Sys, step: Step)
    requires Conserved(s)
    ensures Conserved(Next(s, step))
  {
    var s' := Next(s, step);
    match step
    case Add(a) => assert s.sent + (s.queue.items + [a]) == s.sent + s.queue.items + [a];
    case Poll =>
      if s.queue.items != [] {
        assert s.queue.items == [s.queue.items[0]] + s'.queue.items;
        assert s.sent + [s.queue.items[0]] + s'.queue.items == s.sent + ([s.queue.items[0]] + s'.queue.items);
      }
    case _ =>
  }

  /** In every interleaving what has been accepted is what has been sent followed by at most ten queued alerts. */
  lemma {:induction false} RunConserves(s: Sys, steps: seq<Step>)
    requires Conserved(s)
    ensures Conserved(Final(s, steps))
    decreases |steps|
  {
    if steps != [] {
      StepConserves(s, steps[0]);
      RunConserves(Next(s, steps[0]), steps[1..]);
    }
  }

  lemma StartConserved(timer: int, alertDelay: int, steps: seq<Step>)
    ensures Conserved(Final(Start(timer, alertDelay), steps))
  {
    RunConserves(Start(timer, alertDelay), steps);
  }

  /** In every state of every run an alert is accepted, behind those queued, exactly if fewer than ten are queued. */
  lemma RunAccepts(timer: int, alertDelay: int, steps: seq<Step>, a: Alert)
    ensures var s := Final(Start(timer, alertDelay), steps); var t := Next(s, Add(a));
      if |s.queue.items| < 10 then t.queue.items == s.queue.items + [a] && t.accepted == s.accepted + [a] && t.sent == s.sent
      else t == s
  {
    StartConserved(timer, alertDelay, steps);
  }

  lemma {:induction false} AcceptedGrows(s: Sys, steps: seq<Step>)
    ensures s.accepted <= Final(s, steps).accepted
    decreases |steps|
  {
    if steps != [] {
      AcceptedGrows(Next(s, steps[0]), steps[1..]);
    }
  }

  /**
    An accepted alert is never lost: in every later state it is, in the place where it was accepted, among those sent
    followed by those queued.
   */
  lemma AcceptedStays(s: Sys, a: Alert, steps: seq<Step>)
    requires Conserved(s) && |s.queue.items| < 10
    ensures var u := Final(Next(s, Add(a)), steps); var i := |s.accepted|;
      i < |u.sent + u.queue.items| && (u.sent + u.queue.items)[i] == a
  {
    var t := Next(s, Add(a));
    StepConserves(s, Add(a));
    RunConserves(t, steps);
    AcceptedGrows(t, steps);
    assert t.accepted[|s.accepted|] == a;
  }

  // ---------- How long a wait takes ----------

  function Ticks(steps: seq<Step>): nat {
    if steps == [] then 0 else (if steps[0].Tick? then 1 else 0) + Ticks(steps[1..])
  }

  /** Nobody writes the timer. */
  predicate Quiet(steps: seq<Step>) {
    forall i :: 0 <= i < |steps| ==> !steps[i].SetDelay? && !steps[i].Arm?
  }

  lemma {:induction false} NoTicks(s: Sys, steps: seq<Step>)
    requires !s.phase.Waiting? && CanRun(s, steps) && Quiet(steps)
    ensures Ticks(steps) == 0 && !Final(s, steps).phase.Waiting?
    decreases |steps|
  {
    if steps != [] {
      assert !steps[0].SetDelay? && !steps[0].Arm?;
      NoTicks(Next(s, steps[0]), steps[1..]);
    }
  }

  /** A wait goes on for exactly as many decrements as the timer says, at least one, if the timer is left alone. */
  lemma {:induction false} WaitLength(s: Sys, steps: seq<Step>)
    requires s.phase.Waiting? && CanRun(s, steps) && Quiet(steps)
    ensures Ticks(steps) <= (if s.timer < 1 then 1 else s.timer)
    ensures Final(s, steps).phase.Waiting? <==> Ticks(steps) < (if s.timer < 1 then 1 else s.timer)
    decreases |steps|
  {
    if steps != [] {
      assert !steps[0].SetDelay? && !steps[0].Arm?;
      var s' := Next(s, steps[0]);
      if s'.phase.Waiting? {
        WaitLength(s', steps[1..]);
      } else {
        NoTicks(s', steps[1..]);
      }
    }
  }

  lemma {:induction false} RunAppend(s: Sys, a: seq<Step>, b: seq<Step>)
    ensures Final(s, a + b) == Final(Final(s, a), b)
    ensures CanRun(s, a + b) <==> CanRun(s, a) && CanRun(Final(s, a), b)
    decreases |a|
  {
    if a == [] {
      assert a + b == b;
    } else {
      RunAppend(Next(s, a[0]), a[1..], b);
      assert (a + b)[1..] == a[1..] + b;
    }
  }

  /**
    In every interleaving, behind the last write of `d` to the timer in a wait, be it by the consumer or by a delay
    setter, the wait ends exactly at decrement number max(1, d).
   */
  lemma LastWriteCounts(s: Sys, before: seq<Step>, write: Step, after: seq<Step>, d: int)
    requires CanRun(s, before + ([write] + after)) && Quiet(after)
    requires (write.Arm? && d == Final(s, before).alertDelay) ||
      (write == SetDelay(d) && Final(s, before).phase.Waiting?)
    ensures Ticks(after) <= (if d < 1 then 1 else d)
    ensures Final(s, before + ([write] + after)).phase.Waiting? <==> Ticks(after) < (if d < 1 then 1 else d)
  {
    RunAppend(s, before, [write] + after);
    RunAppend(Final(s, before), [write], after);
    var s' := Next(Final(s, before), write);
    assert Final(Final(s, before), [write]) == s';
    WaitLength(s', after);
  }

  // ---------- Delays that are set outside a wait ----------

  function WithoutDelays(steps: seq<Step>): seq<Step> {
    if steps == [] then []
    else (if steps[0].SetDelay? then [] else [steps[0]]) + WithoutDelays(steps[1..])
  }

  /** Until the consumer arms the timer, its value makes no difference to anything else. */
  lemma {:induction false} TimerUnread(s: Sys, t: int, steps: seq<Step>)
    requires !s.phase.Waiting? && CanRun(s, steps) && forall i :: 0 <= i < |steps| ==> !steps[i].Arm?
    ensures var other := WithoutDelays(steps); var u := Final(s, steps);
      && CanRun(s.(timer := t), other) && Final(s.(timer := t), other) == u.(timer := t) && !u.phase.Waiting?
    decreases |steps|
  {
    if steps != [] {
      var step := steps[0];
      assert !step.Arm?;
      TimerUnread(Next(s, step), t, steps[1..]);
      if step.SetDelay? {
        assert [] + WithoutDelays(steps[1..]) == WithoutDelays(steps[1..]);
        assert Next(s, step).(timer := t) == s.(timer := t);
      } else {
        var other := [step] + WithoutDelays(steps[1..]);
        assert other[1..] == WithoutDelays(steps[1..]);
        assert Next(s.(timer := t), step) == Next(s, step).(timer := t);
      }
    }
  }

  /** Delays set while no wait is on have no effect on the next wait: without them it starts in the same state. */
  lemma IdleDelaysForgotten(s: Sys, steps: seq<Step>)
    requires !s.phase.Waiting? && CanRun(s, steps + [Arm]) && forall i :: 0 <= i < |steps| ==> !steps[i].Arm?
    ensures CanRun(s, WithoutDelays(steps) + [Arm])
    ensures Final(s, WithoutDelays(steps) + [Arm]) == Final(s, steps + [Arm])
    ensures Final(s, steps + [Arm]).timer == Final(s, steps).alertDelay && Final(s, steps + [Arm]).phase.Waiting?
  {
    RunAppend(s, steps, [Arm]);
    TimerUnread(s, s.timer, steps);
    RunAppend(s, WithoutDelays(steps), [Arm]);
    assert s.(timer := s.timer) == s;
    assert forall u: Sys :: Final(u, [Arm]) == Next(u, Arm);
  }
}
