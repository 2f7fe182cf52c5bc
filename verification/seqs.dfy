/** Array helpers of JavaScript the panels rely on: `indexOf`, `splice(i, 1)`
    and reading an array back to front. */
module Seqs {
  /** `s.indexOf(x)`: the first index holding `x`, or -1. */
  function IndexOf<T(==)>(s: seq<T>, x: T): (r: int)
    ensures r == -1 <==> x !in s
    ensures r != -1 ==> 0 <= r < |s| && s[r] == x && x !in s[..r]
  {
    if |s| == 0 then -1
    else if s[0] == x then 0
    else
      var r := IndexOf(s[1..], x);
      if r == -1 then -1
      else
        assert s[..r + 1] == [s[0]] + s[1..][..r];
        r + 1
  }

  /** The first index holding `x` is the only index holding `x` with no
      `x` before it. */
  lemma IndexOfIsFirst<T>(s: seq<T>, x: T, i: nat)
    requires i < |s| && s[i] == x && x !in s[..i]
    ensures IndexOf(s, x) == i
  {
  }

  /** `s.splice(i, 1)`: `s` without position `i`. */
  function RemoveAt<T>(s: seq<T>, i: nat): (r: seq<T>)
    requires i < |s|
    ensures |r| == |s| - 1
    ensures forall k :: 0 <= k < i ==> r[k] == s[k]
    ensures forall k :: i <= k < |r| ==> r[k] == s[k + 1]
  {
    s[..i] + s[i + 1..]
  }

  /** `s` read from its last element to its first. */
  function Reverse<T>(s: seq<T>): (r: seq<T>)
    ensures |r| == |s| && forall k :: 0 <= k < |s| ==> r[k] == s[|s| - 1 - k]
  {
    if s == [] then [] else [s[|s| - 1]] + Reverse(s[..|s| - 1])
  }

  /** Reversal turns a concatenation around. */
  lemma ReverseConcat<T>(a: seq<T>, b: seq<T>)
    ensures Reverse(a + b) == Reverse(b) + Reverse(a)
  {
    var r, t := Reverse(a + b), Reverse(b) + Reverse(a);
    assert |r| == |t|;
    forall k | 0 <= k < |r|
      ensures r[k] == t[k]
    {
      if k < |b| {
        assert t[k] == Reverse(b)[k];
      } else {
        assert t[k] == Reverse(a)[k - |b|];
      }
    }
  }
}
