/** Generic sequence helpers: searching in order (the shape of every early-exit loop
    of the model) and concatenating the pieces each element maps to. */
module Seqs {
  import opened Wrappers

  /** The position of the first element that satisfies `p`, or `None` when none does. */
  function FirstWhere<T>(s: seq<T>, p: T -> bool): (k: Option<nat>)
    ensures k.None? <==> forall i :: 0 <= i < |s| ==> !p(s[i])
    ensures k.Some? ==> k.value < |s| && p(s[k.value]) && forall i :: 0 <= i < k.value ==> !p(s[i])
    decreases |s|
  {
    if |s| == 0 then None
    else if p(s[0]) then Some(0)
    else match FirstWhere(s[1..], p)
      case None => None
      case Some(j) => Some(j + 1)
  }

  /** The concatenation of `f(x)` over the elements `x` of `s`, in order. */
  function FlatMap<T, U>(f: T -> seq<U>, s: seq<T>): seq<U>
    decreases |s|
  {
    if |s| == 0 then [] else f(s[0]) + FlatMap(f, s[1..])
  }

  /** The first element contributes its pieces ahead of the rest. */
  lemma FlatMapCons<T, U>(f: T -> seq<U>, x: T, s: seq<T>)
    ensures FlatMap(f, [x] + s) == f(x) + FlatMap(f, s)
  {
    assert ([x] + s)[1..] == s;
  }

  /** Mapping a concatenation concatenates the results: order is kept. */
  lemma {:induction false} FlatMapAppend<T, U>(f: T -> seq<U>, a: seq<T>, b: seq<T>)
    ensures FlatMap(f, a + b) == FlatMap(f, a) + FlatMap(f, b)
    decreases |a|
  {
    if |a| > 0 {
      assert (a + b)[0] == a[0];
      assert (a + b)[1..] == a[1..] + b;
      FlatMapAppend(f, a[1..], b);
    } else {
      assert a + b == b;
    }
  }

  lemma FlatMapThree<T, U>(f: T -> seq<U>, x: T, y: T, z: T)
    ensures FlatMap(f, [x, y, z]) == f(x) + f(y) + f(z)
  {
    FlatMapCons(f, z, []);
    FlatMapCons(f, y, [z]);
    FlatMapCons(f, x, [y, z]);
    assert [z] + [] == [z] && [y] + [z] == [y, z] && [x] + [y, z] == [x, y, z];
  }

  /** When every `f(x)` has at most one element, the result is no longer than `s`. */
  lemma {:induction false} FlatMapShort<T, U>(f: T -> seq<U>, s: seq<T>)
    requires forall i :: 0 <= i < |s| ==> |f(s[i])| <= 1
    ensures |FlatMap(f, s)| <= |s|
    decreases |s|
  {
    if |s| > 0 {
      FlatMapShort(f, s[1..]);
    }
  }

  /** A property every `f(x)` element has, every element of the result has. */
  lemma {:induction false} FlatMapAll<T, U>(f: T -> seq<U>, s: seq<T>, p: U -> bool)
    requires forall i, k :: 0 <= i < |s| && 0 <= k < |f(s[i])| ==> p(f(s[i])[k])
    ensures forall k :: 0 <= k < |FlatMap(f, s)| ==> p(FlatMap(f, s)[k])
    decreases |s|
  {
    if |s| > 0 {
      FlatMapAll(f, s[1..], p);
      var head, rest := f(s[0]), FlatMap(f, s[1..]);
      forall k | 0 <= k < |head + rest| ensures p((head + rest)[k]) {
        if k >= |head| {
          assert (head + rest)[k] == rest[k - |head|];
        } else {
          assert (head + rest)[k] == head[k];
        }
      }
    }
  }
}
