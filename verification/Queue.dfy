/** The ring of one queue, and the table of queue controls. */
module Queue {
  import opened Fifo

  /** The next place in a ring. */
  function Wrap(i: nat, n: nat): nat {
    if i >= n then i - n else i
  }

  /** The `n` elements from a place on, round the end. */
  function Ring<T>(d: seq<T>, from: nat, n: nat): (r: seq<T>)
    requires n <= |d| && (from < |d| || n == 0)
    ensures |r| == n && forall i :: 0 <= i < n ==> r[i] == d[Wrap(from + i, |d|)]
  {
    seq(n, i requires 0 <= i < n => d[Wrap(from + i, |d|)])
  }

  lemma RingPut<T>(d: seq<T>, from: nat, n: nat, x: T)
    requires from < |d| && n < |d|
    ensures Ring(d[Wrap(from + n, |d|) := x], from, n + 1) == Ring(d, from, n) + [x]
  {
  }

  lemma RingTake<T>(d: seq<T>, from: nat, n: nat)
    requires from < |d| && 0 < n <= |d|
    ensures Ring(d, Wrap(from + 1, |d|), n - 1) == Ring(d, from, n)[1..]
  {
  }

  /** `QUEUE_CTRL`; a pointer into the data area is the index of an element, and -1 for `NULL`. */
  class QueueCtrl<T(0)> {
    var inUse: bool
    var data: array<T>
    var nextIn: nat
    var nextOut: nat
    var nQueued: nat
    var maxQueued: nat
    var maxDepth: nat

    ghost predicate Valid()
      reads this, data
    {
      && inUse && maxDepth == data.Length && nQueued <= maxQueued <= maxDepth
      && (if maxDepth == 0 then nextIn == nextOut == 0
          else nextOut < maxDepth && nextIn == Wrap(nextOut + nQueued, maxDepth))
    }

    ghost function Contents(): (s: seq<T>)
      requires Valid()
      reads this, data
    {
      Ring(data[..], nextOut, nQueued)
    }

    /** The queue as a sequence. */
    ghost function State(): Fifo<T>
      requires Valid()
      reads this, data
    {
      Fifo(Contents(), maxDepth, maxQueued)
    }

    constructor ()
      ensures !inUse
    {
      inUse := false;
      data := new T[0];
      nextIn, nextOut, nQueued, maxQueued, maxDepth := 0, 0, 0, 0, 0;
    }

    /** The fields that `create_new_queue` sets. */
    method Setup(data: array<T>)
      requires inUse
      modifies this
      ensures Valid() && State() == New(data.Length) && this.data == data
    {
      this.data := data;
      nextIn, nextOut, nQueued, maxQueued, maxDepth := 0, 0, 0, 0, data.Length;
      assert Contents() == [];
    }

    /** `clear_queue` */
    method ClearQueue()
      requires Valid()
      modifies this
      ensures Valid() && State() == Clear(old(State())) && Contents() == [] && data == old(data)
    {
      if inUse {
        nextIn, nextOut, nQueued := 0, 0, 0;
      }
    }

    /** `enqueue_data` */
    method Enqueue(x: T) returns (ret: bool)
      requires Valid()
      modifies this, data
      ensures Valid() && State() == Push(old(State()), x) && data == old(data)
      ensures ret == (|old(Contents())| < data.Length)
      ensures Contents() == if ret then old(Contents()) + [x] else old(Contents())
    {
      hide Ring;
      if nQueued < maxDepth {
        RingPut(data[..], nextOut, nQueued, x);
        data[nextIn] := x;
        nextIn := nextIn + 1;
        if nextIn >= maxDepth {
          nextIn := 0;
        }
        nQueued := nQueued + 1;
        if nQueued > maxQueued {
          maxQueued := nQueued;
        }
        ret := true;
      } else {
        ret := false;
      }
    }

    /** `dequeue_data`: the element that is handed out, if there is one. */
    method Dequeue() returns (ret: bool, x: T)
      requires Valid()
      modifies this
      ensures Valid() && State() == Pop(old(State())) && ret == (old(Contents()) != []) && data == old(data)
      ensures if ret then old(Contents()) == [x] + Contents() else Contents() == []
    {
      hide Ring;
      if nQueued != 0 {
        RingTake(data[..], nextOut, nQueued);
        x := data[nextOut];
        nextOut := nextOut + 1;
        if nextOut >= maxDepth {
          nextOut := 0;
        }
        nQueued := nQueued - 1;
        ret := true;
      } else {
        x := *;
        ret := false;
      }
    }

    /** `read_queue_data` */
    method Peek() returns (ret: bool, x: T)
      requires Valid()
      ensures ret == (Contents() != []) && (ret ==> x == Contents()[0])
    {
      x := *;
      ret := nQueued != 0;
      if ret {
        x := data[nextOut];
      }
    }

    /** `walk_queue`, from the place of the element number `i` to that of the next one. */
    method WalkQueue(place: int, ghost i: int) returns (next: int)
      requires Valid() && -1 <= i < nQueued && place == if i < 0 then -1 else Wrap(nextOut + i, maxDepth)
      ensures next == if i + 1 < nQueued then Wrap(nextOut + i + 1, maxDepth) else -1
    {
      if place == -1 {
        next := if nQueued == 0 then -1 else nextOut;
      } else {
        next := place + 1;
        if next >= maxDepth {
          next := 0;
        }
        if next == nextIn {
          next := -1;
        }
      }
    }

    /** Walking from `NULL` to `NULL` visits each element once, in order. */
    method WalkAll() returns (visited: seq<T>)
      requires Valid()
      ensures visited == Contents()
    {
      visited := [];
      ghost var i := -1;
      var place := WalkQueue(-1, i);
      while place != -1
        invariant -1 <= i < nQueued && place == (if i + 1 < nQueued then Wrap(nextOut + i + 1, maxDepth) else -1)
        invariant visited == Contents()[..i + 1]
        decreases nQueued - i
      {
        visited := visited + [data[place]];
        i := i + 1;
        place := WalkQueue(place, i);
      }
    }

    /** `dump_queue_data` */
    method Dump(to: array<T>) returns (ret: nat)
      requires Valid() && to != data && nQueued <= to.Length
      modifies to
      ensures Valid() && ret == nQueued && to[..ret] == Contents() && to[ret..] == old(to[ret..])
    {
      ret := nQueued;
      var next := nextOut;
      for i := 0 to ret
        invariant Valid() && next == (if maxDepth == 0 then 0 else Wrap(nextOut + i, maxDepth))
        invariant to[..i] == Contents()[..i] && to[ret..] == old(to[ret..])
      {
        to[i] := data[next];
        next := next + 1;
        if next >= maxDepth {
          next := 0;
        }
        assert to[..i + 1] == to[..i] + [to[i]];
      }
    }
  }

  const MAX_QUEUES := 10

  /** `queue_ctrls`: the table of all queue controls. */
  class QueueTable<T(0)> {
    const ctrls: seq<QueueCtrl<T>>

    /** The queues in use are sound and share no storage. */
    ghost predicate Valid()
      reads this, ctrls, set c | c in ctrls :: c.data
    {
      && |ctrls| == MAX_QUEUES
      && (forall i, j :: 0 <= i < j < MAX_QUEUES ==> ctrls[i] != ctrls[j])
      && (forall i :: 0 <= i < MAX_QUEUES && ctrls[i].inUse ==> ctrls[i].Valid())
      && (forall i, j :: 0 <= i < j < MAX_QUEUES && ctrls[i].inUse && ctrls[j].inUse ==> ctrls[i].data != ctrls[j].data)
    }

    ghost predicate Live(k: int)
      reads this, ctrls
    {
      0 <= k < |ctrls| && ctrls[k].inUse
    }

    constructor ()
      ensures Valid() && |ctrls| == 10 && forall i :: 0 <= i < 10 ==> !ctrls[i].inUse
    {
      var cs: seq<QueueCtrl<T>> := [];
      while |cs| < MAX_QUEUES
        invariant |cs| <= MAX_QUEUES && forall i :: 0 <= i < |cs| ==> fresh(cs[i]) && !cs[i].inUse
        invariant forall i, j :: 0 <= i < j < |cs| ==> cs[i] != cs[j]
      {
        var c := new QueueCtrl<T>();
        cs := cs + [c];
      }
      ctrls := cs;
    }

    /** `_get_new_queue_ctrl`: the first control that is free, or -1 if all are in use. */
    method GetNewQueueCtrl() returns (k: int)
      requires Valid()
      modifies ctrls
      ensures k == -1 <==> forall i :: 0 <= i < MAX_QUEUES ==> old(ctrls[i].inUse)
      ensures k != -1 ==> 0 <= k < MAX_QUEUES && !old(ctrls[k].inUse) && ctrls[k].inUse
      ensures k != -1 ==> forall i :: 0 <= i < k ==> old(ctrls[i].inUse)
      ensures forall i :: 0 <= i < MAX_QUEUES && i != k ==> unchanged(ctrls[i])
    {
      k := -1;
      for i := 0 to MAX_QUEUES
        invariant forall j :: 0 <= j < i ==> ctrls[j].inUse
        invariant forall j :: 0 <= j < MAX_QUEUES ==> unchanged(ctrls[j])
      {
        if !ctrls[i].inUse {
          ctrls[i].inUse := true;
          return i;
        }
      }
    }

    /**
      `create_queue`: an empty queue, or -1 if there is no memory for its data; the queues there are keep what they
      hold. That a control is free is taken for granted.
     */
    method CreateQueue(n: nat) returns (k: int)
      requires Valid() && exists i :: 0 <= i < MAX_QUEUES && !ctrls[i].inUse
      modifies ctrls
      ensures Valid() && forall j :: old(Live(j)) ==> Live(j) && ctrls[j].State() == old(ctrls[j].State())
      ensures k == -1 || 0 <= k < MAX_QUEUES
      ensures k >= 0 ==> !old(Live(k)) && Live(k) && ctrls[k].State() == New(n) && fresh(ctrls[k].data)
      ensures forall j :: 0 <= j < MAX_QUEUES && j != k ==> ctrls[j].inUse == old(ctrls[j].inUse)
    {
      hide Ring, Wrap;
      if * {
        return -1;
      }
      var data := new T[n];
      k := GetNewQueueCtrl();
      ctrls[k].Setup(data);
    }

    /** `enqueue_data` on one of the queues. */
    method EnqueueAt(k: nat, x: T) returns (ret: bool)
      requires Valid() && Live(k)
      modifies ctrls[k], ctrls[k].data
      ensures Valid() && Live(k) && ctrls[k].State() == Push(old(ctrls[k].State()), x)
      ensures ret == (|old(ctrls[k].Contents())| < old(ctrls[k].data.Length))
      ensures ctrls[k].Contents() == old(ctrls[k].Contents()) + if ret then [x] else []
      ensures forall j :: old(Live(j)) && j != k ==> Live(j) && ctrls[j].State() == old(ctrls[j].State())
    {
      ret := ctrls[k].Enqueue(x);
    }

    /** `dequeue_data` on one of the queues. */
    method DequeueAt(k: nat) returns (ret: bool, x: T)
      requires Valid() && Live(k)
      modifies ctrls[k]
      ensures Valid() && Live(k) && ctrls[k].State() == Pop(old(ctrls[k].State()))
      ensures ret == (old(ctrls[k].Contents()) != [])
      ensures if ret then old(ctrls[k].Contents()) == [x] + ctrls[k].Contents() else ctrls[k].Contents() == []
      ensures forall j :: old(Live(j)) && j != k ==> Live(j) && ctrls[j].State() == old(ctrls[j].State())
    {
      ret, x := ctrls[k].Dequeue();
    }

    /** `clear_queue` on one of the queues. */
    method ClearAt(k: nat)
      requires Valid() && Live(k)
      modifies ctrls[k]
      ensures Valid() && Live(k) && ctrls[k].State() == Clear(old(ctrls[k].State()))
      ensures forall j :: old(Live(j)) && j != k ==> Live(j) && ctrls[j].State() == old(ctrls[j].State())
    {
      ctrls[k].ClearQueue();
    }

    /** `destroy_queue` */
    method DestroyQueue(k: nat)
      requires Valid() && Live(k)
      modifies ctrls[k]
      ensures Valid() && !Live(k)
      ensures forall j :: old(Live(j)) && j != k ==> Live(j) && ctrls[j].State() == old(ctrls[j].State())
    {
      var c := ctrls[k];
      c.data := new T[0];
      c.nextIn, c.nextOut, c.nQueued, c.maxQueued, c.maxDepth := 0, 0, 0, 0, 0;
      c.inUse := false;
    }
  }
}
