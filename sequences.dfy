/** Sequence operations standing for the iterator adapters the list uses:
    `take`, `nth` and `rev`. */
module Sequences {
  import opened Wrappers

  function Min(a: nat, b: nat): nat
  {
    if a <= b then a else b
  }

  /** The prefix of at most `n` elements of `s` (an iterator's `take(n)`). */
  function Take<T>(s: seq<T>, n: nat): (r: seq<T>)
    ensures |r| == Min(n, |s|)
    ensures r == s[..|r|]
  {
    if |s| <= n then s else s[..n]
  }

  /** The element at position `n`, if there is one (an iterator's `nth(n)`). */
  function Nth<T>(s: seq<T>, n: nat): (r: Option<T>)
    ensures r.Some? <==> n < |s|
    ensures n < |s| ==> r.value == s[n]
  {
    if n < |s| then Some(s[n]) else None
  }

  /** `s` back to front (an iterator's `rev()`). */
  function Reverse<T>(s: seq<T>): (r: seq<T>)
    ensures |r| == |s|
    decreases |s|
  {
    if |s| == 0 then [] else Reverse(s[1..]) + [s[0]]
  }

  /** Element k of the reversal is element |s| - 1 - k of `s`. */
  lemma {:induction false} ReverseAt<T>(s: seq<T>, k: nat)
    requires k < |s|
    ensures Reverse(s)[k] == s[|s| - 1 - k]
    decreases |s|
  {
    if k < |s| - 1 {
      ReverseAt(s[1..], k);
    }
  }

  lemma {:induction false} ReverseAppend<T>(a: seq<T>, b: seq<T>)
    ensures Reverse(a + b) == Reverse(b) + Reverse(a)
    decreases |a|
  {
    if |a| == 0 {
      assert a + b == b;
    } else {
      assert (a + b)[1..] == a[1..] + b;
      ReverseAppend(a[1..], b);
    }
  }

  lemma {:induction false} ReverseSingleton<T>(x: T)
    ensures Reverse([x]) == [x]
  {
  }

  /** Reversing a sequence around its element at `k`: what follows `k` comes first,
      then the element, then what precedes it. */
  lemma {:induction false} ReverseSplit<T>(s: seq<T>, k: nat)
    requires k < |s|
    ensures Reverse(s) == Reverse(s[k + 1..]) + [s[k]] + Reverse(s[..k])
  {
    var pre, post := s[..k], s[k + 1..];
    var tail := [s[k]] + post;
    assert s == pre + tail;
    ReverseAppend(pre, tail);
    ReverseAppend([s[k]], post);
    ReverseSingleton(s[k]);
  }
}
