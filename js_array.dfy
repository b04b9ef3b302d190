/** The two JavaScript array operations the containers rely on: `indexOf` and
    `splice(index, 1)`, including their behaviour on a missing element. */
module JsArray {

  /** Array.prototype.indexOf: the first position holding x, or -1. */
  function IndexOf<T(==)>(s: seq<T>, x: T): (i: int)
    ensures -1 <= i < |s|
    ensures i == -1 <==> x !in s
    ensures 0 <= i ==> s[i] == x && forall j :: 0 <= j < i ==> s[j] != x
  {
    if |s| == 0 then -1
    else if s[0] == x then 0
    else
      var rest := IndexOf(s[1..], x);
      if rest == -1 then -1 else rest + 1
  }

  /** The position `splice(index, 1)` removes: a negative index counts from the end. */
  function SpliceStart(length: nat, index: int): (start: nat)
    ensures start <= length
  {
    if index < 0 then (if length + index < 0 then 0 else length + index)
    else if index > length then length
    else index
  }

  /** Array.prototype.splice(index, 1), keeping the array that remains. */
  function SpliceOne<T>(s: seq<T>, index: int): (r: seq<T>)
  {
    var start := SpliceStart(|s|, index);
    if start < |s| then s[..start] + s[start + 1..] else s
  }

  /** An index in -length .. length-1 drops exactly one element, any other index
      nothing; nothing new ever appears. */
  lemma SpliceOneShape<T>(s: seq<T>, index: int)
    ensures -|s| <= index < |s| ==> |SpliceOne(s, index)| == |s| - 1
    ensures index >= |s| ==> SpliceOne(s, index) == s
    ensures |s| == 0 ==> SpliceOne(s, index) == []
    ensures multiset(SpliceOne(s, index)) <= multiset(s)
    ensures forall y :: y in SpliceOne(s, index) ==> y in s
  {
    var start := SpliceStart(|s|, index);
    if start < |s| {
      assert s == s[..start] + [s[start]] + s[start + 1..];
      assert multiset(s) == multiset(s[..start]) + multiset{s[start]} + multiset(s[start + 1..]);
    }
  }

  /** splice(indexOf(x), 1) on an array holding x removes x's first occurrence. */
  lemma RemoveFirstOccurrence<T>(s: seq<T>, x: T)
    requires x in s
    ensures var i := IndexOf(s, x);
      SpliceOne(s, i) == s[..i] + s[i + 1..] &&
      multiset(SpliceOne(s, i)) == multiset(s) - multiset{x}
  {
    var i := IndexOf(s, x);
    assert SpliceStart(|s|, i) == i;
    DropOne(s, i);
  }

  /** Dropping the element at i takes exactly that element out of the multiset. */
  lemma DropOne<T>(s: seq<T>, i: nat)
    requires i < |s|
    ensures multiset(s[..i] + s[i + 1..]) == multiset(s) - multiset{s[i]}
  {
    assert s == s[..i] + ([s[i]] + s[i + 1..]);
    assert multiset(s) == multiset(s[..i] + s[i + 1..]) + multiset{s[i]};
  }

  /** splice(indexOf(x), 1) on an array without x is splice(-1, 1): the last element goes. */
  lemma RemoveMissingDropsLast<T>(s: seq<T>, x: T)
    requires x !in s && |s| > 0
    ensures SpliceOne(s, IndexOf(s, x)) == s[..|s| - 1]
  {
  }
}
