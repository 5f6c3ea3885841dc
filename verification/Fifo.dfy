/** A bounded queue as a sequence, and what its runs keep. */
module Fifo {
  /** `peak` is what `get_queue_max_depth` tells. */
  datatype Fifo<T> = Fifo(items: seq<T>, capacity: nat, peak: nat)

  function New<T>(capacity: nat): Fifo<T> {
    Fifo([], capacity, 0)
  }

  predicate HasRoom<T>(q: Fifo<T>) {
    |q.items| < q.capacity
  }

  function Push<T>(q: Fifo<T>, x: T): Fifo<T> {
    if HasRoom(q) then
      var items := q.items + [x];
      Fifo(items, q.capacity, if |items| > q.peak then |items| else q.peak)
    else q
  }

  function Pop<T>(q: Fifo<T>): Fifo<T> {
    if q.items == [] then q else q.(items := q.items[1..])
  }

  function Clear<T>(q: Fifo<T>): Fifo<T> {
    q.(items := [])
  }

  datatype Op<T> = In(x: T) | Out | Drop

  function Apply<T>(q: Fifo<T>, op: Op<T>): Fifo<T> {
    match op
    case In(x) => Push(q, x)
    case Out => Pop(q)
    case Drop => Clear(q)
  }

  /** The states of a run, the first one included. */
  function States<T>(q: Fifo<T>, ops: seq<Op<T>>): (r: seq<Fifo<T>>)
    ensures |r| == |ops| + 1 && r[0] == q
    decreases |ops|
  {
    [q] + if ops == [] then [] else States(Apply(q, ops[0]), ops[1..])
  }

  function Last<T>(q: Fifo<T>, ops: seq<Op<T>>): Fifo<T> {
    States(q, ops)[|ops|]
  }

  /** What an operation lets in. */
  function Taken<T>(q: Fifo<T>, op: Op<T>): seq<T> {
    if op.In? && HasRoom(q) then [op.x] else []
  }

  /** What an operation hands out or drops. */
  function Given<T>(q: Fifo<T>, op: Op<T>): seq<T> {
    if op.Drop? then q.items else if op.Out? && q.items != [] then [q.items[0]] else []
  }

  function AllTaken<T>(q: Fifo<T>, ops: seq<Op<T>>): seq<T>
    decreases |ops|
  {
    if ops == [] then [] else Taken(q, ops[0]) + AllTaken(Apply(q, ops[0]), ops[1..])
  }

  function AllGiven<T>(q: Fifo<T>, ops: seq<Op<T>>): seq<T>
    decreases |ops|
  {
    if ops == [] then [] else Given(q, ops[0]) + AllGiven(Apply(q, ops[0]), ops[1..])
  }

  lemma StepKeepsOrder<T>(q: Fifo<T>, op: Op<T>)
    ensures q.items + Taken(q, op) == Given(q, op) + Apply(q, op).items
  {
  }

  /** First in, first out: over every run, what has come in is what has gone out followed by what is there. */
  lemma {:induction false} RunKeepsOrder<T>(q: Fifo<T>, ops: seq<Op<T>>)
    ensures q.items + AllTaken(q, ops) == AllGiven(q, ops) + Last(q, ops).items
    decreases |ops|
  {
    if ops != [] {
      var q', taken, given := Apply(q, ops[0]), AllTaken(Apply(q, ops[0]), ops[1..]), AllGiven(Apply(q, ops[0]), ops[1..]);
      StepKeepsOrder(q, ops[0]);
      RunKeepsOrder(q', ops[1..]);
      assert Last(q, ops) == Last(q', ops[1..]);
      Reorder(q.items, Taken(q, ops[0]), taken, Given(q, ops[0]), q'.items, given, Last(q, ops).items);
    }
  }

  lemma Reorder<T>(a: seq<T>, b: seq<T>, c: seq<T>, d: seq<T>, e: seq<T>, f: seq<T>, g: seq<T>)
    requires a + b == d + e && e + c == f + g
    ensures a + (b + c) == (d + f) + g
  {
    assert a + (b + c) == (a + b) + c == d + (e + c) == d + (f + g);
  }

  /** No state is deeper than `peak`. */
  predicate Within<T>(s: seq<Fifo<T>>, peak: nat) {
    forall i :: 0 <= i < |s| ==> |s[i].items| <= peak
  }

  /** Some state is as deep as `peak`. */
  predicate Reached<T>(s: seq<Fifo<T>>, peak: nat) {
    exists i :: 0 <= i < |s| && |s[i].items| == peak
  }

  lemma WithinMore<T>(q: Fifo<T>, s: seq<Fifo<T>>, peak: nat)
    ensures Within([q] + s, peak) <==> |q.items| <= peak && Within(s, peak)
    ensures Reached([q] + s, peak) <==> |q.items| == peak || Reached(s, peak)
  {
    var all := [q] + s;
    assert all[0] == q && forall i :: 0 <= i < |s| ==> s[i] == all[i + 1];
  }

  /** The peak is the largest depth that the queue has had since it was created, and the depth stays in bounds. */
  lemma {:induction false} RunPeak<T>(q: Fifo<T>, ops: seq<Op<T>>)
    requires |q.items| <= q.peak <= q.capacity
    ensures var s, peak := States(q, ops), Last(q, ops).peak;
      Within(s, peak) && q.peak <= peak <= q.capacity && (peak == q.peak || Reached(s, peak))
    decreases |ops|
  {
    hide Within, Reached;
    var peak := Last(q, ops).peak;
    if ops == [] {
      assert States(q, ops) == [q] + [];
      WithinMore(q, [], peak);
      NoStates<T>(peak);
    } else {
      var q' := Apply(q, ops[0]);
      var s' := States(q', ops[1..]);
      assert States(q, ops) == [q] + s' && Last(q, ops) == Last(q', ops[1..]);
      RunPeak(q', ops[1..]);
      WithinMore(q, s', peak);
      assert s' == [q'] + s'[1..];
      WithinMore(q', s'[1..], peak);
    }
  }

  lemma NoStates<T>(peak: nat)
    ensures Within<T>([], peak)
  {
  }

  /** A queue that has just been created: the peak is exactly the largest depth of the run. */
  lemma NewPeak<T>(capacity: nat, ops: seq<Op<T>>)
    ensures var s, peak := States(New(capacity), ops), Last(New(capacity), ops).peak;
      Within(s, peak) && Reached(s, peak) && peak <= capacity
  {
    RunPeak(New(capacity), ops);
    assert |States(New<T>(capacity), ops)[0].items| == 0;
  }

  // ---------- Room ----------

  lemma {:induction false} RunCapacity<T>(q: Fifo<T>, ops: seq<Op<T>>)
    requires |q.items| <= q.capacity
    ensures Last(q, ops).capacity == q.capacity && |Last(q, ops).items| <= q.capacity
    decreases |ops|
  {
    if ops != [] {
      RunCapacity(Apply(q, ops[0]), ops[1..]);
    }
  }

  /**
    In every state of every run of a new queue, an element that comes in is appended if fewer elements than the capacity
    are there, and changes nothing otherwise; the first element goes out, and dropping leaves none.
   */
  lemma RunSteps<T>(capacity: nat, ops: seq<Op<T>>, x: T)
    ensures var q := Last(New(capacity), ops);
      && (|q.items| < capacity ==> Apply(q, In(x)).items == q.items + [x])
      && (|q.items| >= capacity ==> |q.items| == capacity && Apply(q, In(x)) == q)
      && (q.items != [] ==> Apply(q, Out).items == q.items[1..]) && (q.items == [] ==> Apply(q, Out) == q)
      && Apply(q, Drop).items == []
  {
    RunCapacity(New(capacity), ops);
  }

  function Ins<T>(xs: seq<T>): (ops: seq<Op<T>>)
    ensures |ops| == |xs| && forall i :: 0 <= i < |xs| ==> ops[i] == In(xs[i])
  {
    seq(|xs|, i requires 0 <= i < |xs| => In(xs[i]))
  }

  lemma {:induction false} Filling<T>(q: Fifo<T>, xs: seq<T>)
    requires |q.items| + |xs| <= q.capacity
    ensures Last(q, Ins(xs)).items == q.items + xs
    decreases |xs|
  {
    if xs == [] {
      assert q.items + xs == q.items;
    } else {
      var q' := Apply(q, In(xs[0]));
      Filling(q', xs[1..]);
      assert Ins(xs)[1..] == Ins(xs[1..]);
      assert q.items + [xs[0]] + xs[1..] == q.items + xs;
    }
  }

  /** A new queue holds as many elements as its capacity says, in the order in which they came. */
  lemma FilledUp<T>(capacity: nat, xs: seq<T>)
    requires |xs| <= capacity
    ensures Last(New(capacity), Ins(xs)).items == xs
  {
    Filling(New(capacity), xs);
    assert [] + xs == xs;
  }
}
