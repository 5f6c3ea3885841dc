/** The allocator that cJSON calls through its hooks. */
module Memory {

  class Heap {
    /** What has been allocated and not been freed. */
    ghost var live: set<object>
    /** How many allocations have failed. */
    ghost var failures: nat

    constructor ()
      ensures live == {} && failures == 0
    {
      live, failures := {}, 0;
    }

    /** Any allocation may fail. The contents of a new block are arbitrary. */
    method NewText(n: nat) returns (a: array?<char>)
      modifies this
      ensures a == null ==> live == old(live) && failures == old(failures) + 1
      ensures a != null ==> fresh(a) && a.Length == n && live == old(live) + {a} && failures == old(failures)
    {
      if * {
        failures := failures + 1;
        return null;
      }
      var b := new char[n];
      live := live + {b};
      return b;
    }

    /** A table of pointers, cleared with `memset`. */
    method NewTable(n: nat) returns (t: array?<array?<char>>)
      modifies this
      ensures t == null ==> live == old(live) && failures == old(failures) + 1
      ensures t != null ==> fresh(t) && t.Length == n && live == old(live) + {t} && failures == old(failures)
      ensures t != null ==> forall i :: 0 <= i < n ==> t[i] == null
    {
      if * {
        failures := failures + 1;
        return null;
      }
      var b := new array?<char>[n](_ => null);
      live := live + {b};
      return b;
    }

    /** Only a live block can be freed, and nothing is known about its contents afterwards. */
    method Free(o: object)
      requires o in live && o != this
      modifies this, o
      ensures live == old(live) - {o} && failures == old(failures)
    {
      live := live - {o};
    }
  }

  /** Success means that no allocation has failed, and failure that one has or that it is specified. */
  ghost predicate Accounted(ok: bool, specified: bool, before: nat, after: nat) {
    if ok then before == after else before < after || (before == after && specified)
  }

  ghost function Block(a: array?<char>): set<object> {
    if a == null then {} else {a}
  }

  /** The block holds the text `s` and its terminator. */
  predicate HoldsText(a: array<char>, s: string)
    reads a
  {
    |s| < a.Length && a[..|s|] == s && a[|s|] == '\0' && '\0' !in s
  }

  /** `strlen` */
  method StrLen(a: array<char>, ghost s: string) returns (n: nat)
    requires HoldsText(a, s)
    ensures n == |s| && a[..n] == s
  {
    n := 0;
    while a[n] != '\0'
      invariant n <= |s|
      decreases |s| - n
    {
      assert a[n] == a[..|s|][n];
      n := n + 1;
    }
  }
}
