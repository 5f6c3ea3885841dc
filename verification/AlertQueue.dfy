/** The alert queue in memory: each method is one step that the locks make atomic. */
module AlertQueue {
  import opened AlertSteps
  import opened Fifo
  import opened Queue

  const MAX_DEPT_NAME := 20

  /**
    The name that is found in the field. `strncpy` pads a shorter name with terminators, and a longer one gets its
    terminator afterwards; behind a name that fills the field what was in memory, `junk`, is read on.
   */
  function Stored(msg: string, junk: string): string {
    if |msg| < MAX_DEPT_NAME then msg else msg[..MAX_DEPT_NAME] + if |msg| > MAX_DEPT_NAME then "" else junk
  }

  /** What is stored of a name that is short, long, or exactly as long as the field. */
  lemma StoredName(msg: string, junk: string)
    ensures |msg| < 20 ==> Stored(msg, junk) == msg
    ensures |msg| > 20 ==> |Stored(msg, junk)| == 20 && forall i :: 0 <= i < 20 ==> Stored(msg, junk)[i] == msg[i]
    ensures |msg| == 20 ==> Stored(msg, junk) == msg + junk
  {
    assert |msg| == 20 ==> msg[..20] == msg;
  }

  /** Exactly when the stored name has no other bytes than the given one. */
  lemma StoredIff(msg: string, junk: string)
    ensures Stored(msg, junk) <= msg <==> |msg| != 20 || junk == ""
  {
    if |msg| == 20 {
      assert msg[..20] == msg && |msg + junk| == |msg| + |junk|;
      assert junk == "" ==> msg + junk == msg;
    }
  }

  /** A short name that is accepted is found with exactly its bytes in every later state, be it queued or sent. */
  lemma NameKept(s: Sys, msg: string, alarm: int, level: int, junk: string, steps: seq<Step>)
    requires Conserved(s) && |s.queue.items| < 10 && |msg| < 20
    ensures var u := Final(Next(s, Add(Alert(Stored(msg, junk), alarm, level))), steps); var i := |s.accepted|;
      if i < |u.sent| then u.sent[i] == Alert(msg, alarm, level)
      else i - |u.sent| < |u.queue.items| && u.queue.items[i - |u.sent|] == Alert(msg, alarm, level)
  {
    AcceptedStays(s, Alert(Stored(msg, junk), alarm, level), steps);
  }

  class MsgQueue {
    const queue: QueueCtrl<Alert>
    var timer: int
    var alertDelay: int
    var acceptDelay: int
    /** Where the consumer thread is, and what it has pushed. */
    ghost var phase: Phase
    ghost var sent: seq<Alert>
    ghost var accepted: seq<Alert>

    ghost predicate Valid()
      reads this, queue, queue.data
    {
      queue.Valid() && queue.data.Length == 10
    }

    ghost function State(): Sys
      requires Valid()
      reads this, queue, queue.data
    {
      Sys(queue.State(), accepted, sent, timer, alertDelay, phase)
    }

    /** `_msgQueue_Init`; the timer is a static variable, the delays come from the configuration in seconds. */
    constructor (queue: QueueCtrl<Alert>, alertSeconds: int, acceptSeconds: int)
      requires queue.Valid() && queue.State() == New(MAX_MSGS)
      ensures Valid() && this.queue == queue && State() == Start(0, alertSeconds * 10) && acceptDelay == acceptSeconds * 10
    {
      this.queue := queue;
      timer, alertDelay, acceptDelay := 0, alertSeconds * 10, acceptSeconds * 10;
      phase, sent, accepted := Polling, [], [];
    }

    /** `msgQueue_SetDelay` */
    method SetDelay(delay: int)
      requires Valid()
      modifies this`timer
      ensures Valid() && State() == Next(old(State()), AlertSteps.SetDelay(delay)) && timer == delay
    {
      timer := delay;
    }

    /** `msgQueue_SetAccept` */
    method SetAccept()
      requires Valid()
      modifies this`timer
      ensures Valid() && State() == Next(old(State()), AlertSteps.SetDelay(acceptDelay)) && timer == acceptDelay
    {
      SetDelay(acceptDelay);
    }

    /** `msgQueue_Add`: 0, or -1 if the queue is full. */
    method Add(msg: string, alarm: int, level: int, junk: string) returns (r: int)
      requires Valid()
      modifies this`accepted, queue, queue.data
      ensures Valid() && State() == Next(old(State()), AlertSteps.Add(Alert(Stored(msg, junk), alarm, level)))
      ensures r == if |old(queue.Contents())| < 10 then 0 else -1
      ensures |msg| < 20 ==>
        queue.Contents() == old(queue.Contents()) + if r == 0 then [Alert(msg, alarm, level)] else []
    {
      var dept := if |msg| >= MAX_DEPT_NAME then msg[..MAX_DEPT_NAME] + junk else msg;
      if |msg| > MAX_DEPT_NAME {
        dept := dept[..MAX_DEPT_NAME];
      }
      var qmsg := Alert(dept, alarm, level);
      assert |msg| > MAX_DEPT_NAME ==> dept == msg[..MAX_DEPT_NAME] + "";
      var ok := queue.Enqueue(qmsg);
      if !ok {
        return -1;
      }
      accepted := accepted + [qmsg];
      return 0;
    }

    /** The consumer looks for an alert and pushes it. */
    method Poll() returns (found: bool)
      requires Valid() && Enabled(State(), AlertSteps.Poll)
      modifies this`phase, this`sent, queue
      ensures Valid() && State() == Next(old(State()), AlertSteps.Poll) && found == State().phase.Pushed?
      ensures if found then old(queue.Contents()) == [sent[|sent| - 1]] + queue.Contents() else queue.Contents() == []
    {
      var qmsg;
      found, qmsg := queue.Dequeue();
      if found {
        sent := sent + [qmsg];
        phase := Pushed;
      }
    }

    /** The consumer sets the delay between two alerts. */
    method Arm()
      requires Valid() && Enabled(State(), AlertSteps.Arm)
      modifies this`phase, this`timer
      ensures Valid() && State() == Next(old(State()), AlertSteps.Arm) && timer == alertDelay
    {
      timer := alertDelay;
      phase := Waiting;
    }

    /** One round of the loop that waits. */
    method Tick() returns (nextMsg: bool)
      requires Valid() && Enabled(State(), AlertSteps.Tick)
      modifies this`phase, this`timer
      ensures Valid() && State() == Next(old(State()), AlertSteps.Tick) && nextMsg == State().phase.Polling?
      ensures timer == old(timer) - 1 && nextMsg == (timer <= 0)
    {
      nextMsg := false;
      timer := timer - 1;
      if timer <= 0 {
        nextMsg := true;
        phase := Polling;
      }
    }
  }
}
