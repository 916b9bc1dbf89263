/** What several algorithms share: options, bytes, and facts about sets and repetition-free sequences. */
module Sequences {

  datatype Option<+T> = None | Some(value: T)

  type Byte = b: int | 0 <= b < 256

  function Max(a: int, b: int): int {
    if a > b then a else b
  }

  function Min(a: int, b: int): int {
    if a < b then a else b
  }

  ghost predicate Distinct<T>(s: seq<T>) {
    forall i, j :: 0 <= i < j < |s| ==> s[i] != s[j]
  }

  function ToSet<T>(s: seq<T>): (r: set<T>) {
    set x | x in s
  }

  /** A repetition-free sequence is as long as its set of elements. */
  lemma {:induction false} DistinctSize<T>(s: seq<T>)
    requires Distinct(s)
    ensures |ToSet(s)| == |s|
  {
    if s != [] {
      var last := s[|s| - 1];
      DistinctSize(s[..|s| - 1]);
      assert ToSet(s) == ToSet(s[..|s| - 1]) + {last};
    }
  }

  lemma SubsetSize<T>(a: set<T>, b: set<T>)
    requires a <= b
    ensures |a| <= |b|
    ensures |a| == |b| ==> a == b
  {
    assert b == a + (b - a);
  }

  /** Marking one more element leaves fewer unmarked. */
  lemma MarkShrinks<T>(all: set<T>, marked: set<T>, x: T)
    requires x in all && x !in marked
    ensures |all - (marked + {x})| < |all - marked|
  {
    SubsetSize(all - (marked + {x}), all - marked);
    assert x in all - marked;
  }

  /** Pigeonhole: a repetition-free sequence over `universe` fits in it, and a full one uses every element. */
  lemma DistinctFits<T>(s: seq<T>, universe: set<T>)
    requires Distinct(s)
    requires forall x :: x in s ==> x in universe
    ensures |s| <= |universe|
    ensures |s| == |universe| ==> forall x :: x in universe ==> x in s
  {
    DistinctSize(s);
    SubsetSize(ToSet(s), universe);
    if |s| == |universe| {
      assert ToSet(s) == universe;
    }
  }

  lemma DistinctSnoc<T>(s: seq<T>, x: T)
    requires Distinct(s) && x !in s
    ensures Distinct(s + [x])
  {
  }
}
