/** Putting sequences together and taking elements out of them. */
module Sequences {

  lemma Regroup<T>(a: seq<T>, b: seq<T>, c: seq<T>)
    ensures a + b + c == a + (b + c)
  {
  }

  /** A part of a suffix. */
  lemma SuffixPart<T>(s: seq<T>, o: nat, i: nat)
    requires o + i <= |s|
    ensures s[o..][..i] == s[o..o + i] && s[o..][i..] == s[o + i..]
  {
  }

  function Insert<T>(s: seq<T>, i: nat, x: T): (r: seq<T>)
    requires i <= |s|
    ensures |r| == |s| + 1 && r[i] == x
    ensures (forall k :: 0 <= k < i ==> r[k] == s[k]) && forall k :: i < k <= |s| ==> r[k] == s[k - 1]
  {
    s[..i] + [x] + s[i..]
  }

  function Without<T>(s: seq<T>, i: nat): seq<T>
    requires i < |s|
  {
    s[..i] + s[i + 1..]
  }

  lemma WithoutAt<T>(s: seq<T>, i: nat)
    requires i < |s|
    ensures |Without(s, i)| == |s| - 1
    ensures forall k :: 0 <= k < |s| - 1 ==> Without(s, i)[k] == s[if k < i then k else k + 1]
    ensures i > 0 ==> Without(s, i)[0] == s[0] && Without(s, i)[1..] == Without(s[1..], i - 1)
    ensures i == 0 ==> Without(s, i) == s[1..]
  {
    if i > 0 {
      assert s[1..][..i - 1] == s[1..i] && s[1..][i..] == s[i + 1..];
    }
  }
}
