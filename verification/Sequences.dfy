/** Sequence facts shared by the components: concatenation of blocks, absence of repetition, counting. */
module Sequences {

  datatype Option<+T> = None | Some(value: T)

  function Concat<T>(blocks: seq<seq<T>>): seq<T>
  {
    if blocks == [] then [] else blocks[0] + Concat(blocks[1..])
  }

  lemma {:induction false} ConcatSplits<T>(a: seq<seq<T>>, b: seq<seq<T>>)
    ensures Concat(a + b) == Concat(a) + Concat(b)
  {
    if a == [] {
      assert a + b == b;
    } else {
      assert (a + b)[1..] == a[1..] + b;
      ConcatSplits(a[1..], b);
    }
  }

  lemma Associative<T>(a: seq<T>, b: seq<T>, c: seq<T>)
    ensures a + b + c == a + (b + c)
  {
  }

  lemma SlicesJoin<T>(s: seq<T>, a: nat, b: nat, c: nat)
    requires a <= b <= c <= |s|
    ensures s[a..b] + s[b..c] == s[a..c]
  {
  }

  function Without<T>(s: seq<T>, i: nat): seq<T>
    requires i < |s|
  {
    s[..i] + s[i + 1..]
  }

  lemma WithoutAt<T>(s: seq<T>, i: nat)
    requires i < |s|
    ensures |Without(s, i)| == |s| - 1
    ensures forall k :: 0 <= k < |s| - 1 ==> Without(s, i)[k] == s[if k < i then k else k + 1]
  {
  }

  /** The sequence without the first element that is meant. */
  function WithoutFirst<T>(s: seq<T>, meant: T -> bool): (r: seq<T>)
    ensures forall x :: x in r ==> x in s
    ensures |r| <= |s|
  {
    if s == [] then [] else if meant(s[0]) then s[1..] else [s[0]] + WithoutFirst(s[1..], meant)
  }

  lemma {:induction false} WithoutFirstAt<T>(s: seq<T>, meant: T -> bool, i: nat)
    requires i < |s| && meant(s[i]) && forall k :: 0 <= k < i ==> !meant(s[k])
    ensures WithoutFirst(s, meant) == Without(s, i)
    decreases i
  {
    if i > 0 {
      WithoutFirstAt(s[1..], meant, i - 1);
      assert Without(s, i) == [s[0]] + Without(s[1..], i - 1);
    } else {
      assert Without(s, 0) == s[1..];
    }
  }

  lemma {:induction false} WithoutFirstMisses<T>(s: seq<T>, meant: T -> bool)
    requires forall k :: 0 <= k < |s| ==> !meant(s[k])
    ensures WithoutFirst(s, meant) == s
    decreases |s|
  {
    if s != [] {
      WithoutFirstMisses(s[1..], meant);
    }
  }

  predicate NoRepeats<T(==)>(s: seq<T>)
  {
    forall i, j :: 0 <= i < j < |s| ==> s[i] != s[j]
  }

  function Elements<T>(s: seq<T>): set<T>
  {
    set x | x in s
  }

  lemma ElementsSnoc<T>(s: seq<T>, k: nat)
    requires k < |s|
    ensures Elements(s[..k + 1]) == Elements(s[..k]) + {s[k]}
  {
  }

  lemma {:induction false} NoRepeatsCardinality<T>(s: seq<T>)
    requires NoRepeats(s)
    ensures |Elements(s)| == |s|
  {
    if s != [] {
      var init, last := s[..|s| - 1], s[|s| - 1];
      NoRepeatsCardinality(init);
      assert s == init + [last];
      assert Elements(s) == Elements(init) + {last};
    }
  }

  function Interval(lo: nat, hi: nat): (r: set<nat>)
    requires lo <= hi
    ensures forall i: nat :: i in r <==> lo <= i < hi
    ensures |r| == hi - lo
  {
    if lo == hi then {} else Interval(lo, hi - 1) + {hi - 1}
  }

  lemma SubsetCardinality<T>(small: set<T>, big: set<T>)
    requires small <= big
    ensures |small| <= |big|
    ensures |small| == |big| ==> small == big
  {
    assert big == small + (big - small);
  }

  /** Pigeonhole: a repetition-free list of numbers from lo..hi is no longer than the interval. */
  lemma Pigeonhole(s: seq<nat>, lo: nat, hi: nat)
    requires lo <= hi && NoRepeats(s)
    requires forall i :: 0 <= i < |s| ==> lo <= s[i] < hi
    ensures |s| <= hi - lo
  {
    NoRepeatsCardinality(s);
    SubsetCardinality(Elements(s), Interval(lo, hi));
  }

  /** Counting: a list that names every number of lo..hi is at least as long as the interval. */
  lemma Covering(s: seq<nat>, lo: nat, hi: nat)
    requires lo <= hi
    requires forall n: nat :: lo <= n < hi ==> n in s
    ensures hi - lo <= |s|
  {
    SubsetCardinality(Interval(lo, hi), Elements(s));
    ElementsCardinality(s);
  }

  lemma {:induction false} ElementsCardinality<T>(s: seq<T>)
    ensures |Elements(s)| <= |s|
  {
    if s != [] {
      var init, last := s[..|s| - 1], s[|s| - 1];
      ElementsCardinality(init);
      assert s == init + [last];
      assert Elements(s) == Elements(init) + {last};
    }
  }
}
