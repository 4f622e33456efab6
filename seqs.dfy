/** Small facts about sequences used by the enumerations and orderings of the model. */
module Seqs {

  /** No element occurs twice. */
  predicate Distinct<T(==)>(s: seq<T>) {
    forall i, j :: 0 <= i < j < |s| ==> s[i] != s[j]
  }

  /** Position of the first occurrence of `x` in `s`. */
  function IndexOf<T(==)>(s: seq<T>, x: T): (i: nat)
    requires x in s
    ensures i < |s| && s[i] == x
    ensures forall j :: 0 <= j < i ==> s[j] != x
  {
    if s[0] == x then 0 else 1 + IndexOf(s[1..], x)
  }

  /** Position of the last occurrence of `x` in `s`. */
  function LastIndexOf<T(==)>(s: seq<T>, x: T): (i: nat)
    requires x in s
    ensures i < |s| && s[i] == x
    ensures forall j :: i < j < |s| ==> s[j] != x
  {
    if s[|s| - 1] == x then |s| - 1 else LastIndexOf(s[..|s| - 1], x)
  }

  /** `s` back to front: the order in which a stack pushed as `s` is popped. */
  function Reverse<T>(s: seq<T>): (r: seq<T>)
    ensures |r| == |s|
    ensures forall i :: 0 <= i < |s| ==> r[i] == s[|s| - 1 - i]
  {
    if s == [] then [] else [s[|s| - 1]] + Reverse(s[..|s| - 1])
  }

  /** One more element at the back of a concatenation. */
  lemma SeqAssoc<T>(a: seq<T>, b: seq<T>, c: seq<T>)
    ensures a + (b + c) == (a + b) + c
  {
  }

  lemma SnocAssoc<T>(a: seq<T>, b: seq<T>, x: T)
    ensures a + (b + [x]) == (a + b) + [x]
  {
  }

  /** Appending never moves the first occurrence of an element already present. */
  lemma IndexOfAppend<T>(s: seq<T>, t: seq<T>, x: T)
    requires x in s
    ensures x in s + t && IndexOf(s + t, x) == IndexOf(s, x)
  {
    var i := IndexOf(s, x);
    assert (s + t)[i] == x;
    var k := IndexOf(s + t, x);
    assert k <= i;
    assert (s + t)[k] == s[k];
  }

  /** An element met first in the appended part is found after the whole prefix. */
  lemma IndexOfAppendNew<T>(s: seq<T>, t: seq<T>, x: T)
    requires x !in s && x in t
    ensures x in s + t && IndexOf(s + t, x) == |s| + IndexOf(t, x)
  {
    var i := IndexOf(t, x);
    assert (s + t)[|s| + i] == x;
    var k := IndexOf(s + t, x);
    assert k >= |s|;
    assert t[k - |s|] == x;
  }

  /** The first occurrence in `s` is the last occurrence in the reversed sequence. */
  lemma LastIndexOfReverse<T>(s: seq<T>, x: T)
    requires x in s
    ensures x in Reverse(s)
    ensures LastIndexOf(Reverse(s), x) == |s| - 1 - IndexOf(s, x)
  {
    MirrorLastIndexOf(s, Reverse(s), x);
  }

  /** The same, for any sequence that mirrors `s` position by position. */
  lemma MirrorLastIndexOf<T>(s: seq<T>, r: seq<T>, x: T)
    requires |r| == |s| && x in s
    requires forall i :: 0 <= i < |s| ==> r[i] == s[|s| - 1 - i]
    ensures x in r && LastIndexOf(r, x) == |s| - 1 - IndexOf(s, x)
  {
    var i := IndexOf(s, x);
    assert r[|s| - 1 - i] == x;
    var k := LastIndexOf(r, x);
    assert s[|s| - 1 - k] == r[k];
    MirroredOccurrences(s, r, x, i, k);
  }

  /** The first occurrence in `s` and the last in its mirror image `r` sit at mirrored positions. */
  lemma MirroredOccurrences<T>(s: seq<T>, r: seq<T>, x: T, i: nat, k: nat)
    requires |r| == |s| && i < |s| && k < |s|
    requires s[i] == x && r[|s| - 1 - i] == x && r[k] == x && s[|s| - 1 - k] == x
    requires forall j :: 0 <= j < i ==> s[j] != x
    requires forall j :: k < j < |r| ==> r[j] != x
    ensures k == |s| - 1 - i
  {
  }
}
