/** The two JavaScript array operations the game relies on to take one entry out of a list:
    `indexOf` and `splice(start, 1)`, with the language's own edge cases. */
module JsArray {

  /** `s.indexOf(x)`: the first position holding `x`, or -1 when `x` does not occur. */
  function IndexOf<T(==)>(s: seq<T>, x: T): (r: int)
    ensures -1 <= r < |s|
    ensures r == -1 <==> x !in s
    ensures 0 <= r ==> s[r] == x && x !in s[..r]
  {
    if |s| == 0 then -1
    else if s[0] == x then 0
    else
      var k := IndexOf(s[1..], x);
      if k == -1 then -1
      else
        assert s[..k + 1] == [s[0]] + s[1..][..k];
        k + 1
  }

  /** The position `splice` starts at: a negative start counts back from the end
      (and stops at 0), a start past the end is clamped to the length. */
  function SpliceStart(len: nat, start: int): (k: nat)
    ensures k <= len
  {
    if start < 0 then (if len + start < 0 then 0 else len + start)
    else if start > len then len
    else start
  }

  /** `s.splice(start, 1)`: the list after removing the one element at the normalised start,
      or the list unchanged when that start is the end of the list. */
  function Splice1<T>(s: seq<T>, start: int): (r: seq<T>)
    ensures SpliceStart(|s|, start) < |s| ==> |r| == |s| - 1
    ensures SpliceStart(|s|, start) == |s| ==> r == s
    ensures forall j :: 0 <= j < |r| ==> r[j] == if j < SpliceStart(|s|, start) then s[j] else s[j + 1]
  {
    var k := SpliceStart(|s|, start);
    if k < |s| then s[..k] + s[k + 1..] else s
  }

  /** Removing position k takes exactly one copy of `s[k]` out of the multiset of entries. */
  lemma RemovedOnce<T>(s: seq<T>, k: nat)
    requires k < |s|
    ensures multiset(Splice1(s, k)) == multiset(s) - multiset{s[k]}
    ensures Splice1(s, k) == s[..k] + s[k + 1..]
  {
    assert s == s[..k] + [s[k]] + s[k + 1..];
    assert Splice1(s, k) == s[..k] + s[k + 1..];
  }

  /** `s.splice(s.indexOf(x), 1)` when `x` is absent: indexOf gives -1, which splice reads as
      "the last element", so a non-empty list loses its last entry although it holds no `x`. */
  lemma AbsentRemovesLast<T>(s: seq<T>, x: T)
    requires x !in s && |s| > 0
    ensures Splice1(s, IndexOf(s, x)) == s[..|s| - 1]
  {
  }

  /** `s.splice(s.indexOf(x), 1)` when `x` is present removes exactly one occurrence of `x`. */
  lemma PresentRemovesOne<T>(s: seq<T>, x: T)
    requires x in s
    ensures multiset(Splice1(s, IndexOf(s, x))) == multiset(s) - multiset{x}
    ensures |Splice1(s, IndexOf(s, x))| == |s| - 1
  {
    RemovedOnce(s, IndexOf(s, x));
  }

  /** The first occurrence of an element that does not occur earlier is its own position. */
  lemma IndexOfFirstOccurrence<T>(s: seq<T>, k: nat)
    requires k < |s| && s[k] !in s[..k]
    ensures IndexOf(s, s[k]) == k
  {
  }
}
