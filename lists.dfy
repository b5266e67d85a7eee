/** `Array.prototype.filter` with a predicate, and the facts the pages rely on. */
module Lists {
  import opened Wrappers

  /** The elements that pass `keep`, in their order. */
  function Filter<T>(s: seq<T>, keep: T -> bool): (r: seq<T>)
    ensures |r| <= |s|
    ensures forall i :: 0 <= i < |r| ==> keep(r[i])
  {
    if s == [] then []
    else (if keep(s[0]) then [s[0]] else []) + Filter(s[1..], keep)
  }

  /** An element is kept exactly when it is in `s` and passes. */
  lemma {:induction false} FilterElements<T>(s: seq<T>, keep: T -> bool, x: T)
    ensures x in Filter(s, keep) <==> x in s && keep(x)
    decreases |s|
  {
    if s != [] {
      FilterElements(s[1..], keep, x);
      assert x in s <==> x == s[0] || x in s[1..] by { assert s == [s[0]] + s[1..]; }
    }
  }

  /**
   * Filtering with a predicate and with its negation splits `s` in two:
   * together the two parts hold every element of `s`, as often as `s` does.
   */
  lemma {:induction false} FilterPartition<T>(s: seq<T>, keep: T -> bool, drop: T -> bool)
    requires forall x :: drop(x) == !keep(x)
    ensures multiset(Filter(s, keep)) + multiset(Filter(s, drop)) == multiset(s)
    ensures |Filter(s, keep)| + |Filter(s, drop)| == |s|
    decreases |s|
  {
    if s != [] {
      FilterPartition(s[1..], keep, drop);
      assert s == [s[0]] + s[1..];
    }
  }

  /** Filtering a concatenation filters each part. */
  lemma {:induction false} FilterConcat<T>(a: seq<T>, b: seq<T>, keep: T -> bool)
    ensures Filter(a + b, keep) == Filter(a, keep) + Filter(b, keep)
    decreases |a|
  {
    if a == [] {
      assert a + b == b;
    } else {
      assert (a + b)[1..] == a[1..] + b;
      FilterConcat(a[1..], b, keep);
    }
  }

  /** The integer that `value` picks out of each element, in order. */
  function Values<T>(s: seq<T>, value: T -> int): (r: seq<int>)
    ensures |r| == |s|
  {
    if s == [] then [] else [value(s[0])] + Values(s[1..], value)
  }

  lemma {:induction false} ValuesElements<T>(s: seq<T>, value: T -> int, v: int)
    ensures v in Values(s, value) <==> exists x :: x in s && value(x) == v
    decreases |s|
  {
    if s != [] {
      ValuesElements(s[1..], value, v);
      assert forall x :: x in s <==> x == s[0] || x in s[1..] by { assert s == [s[0]] + s[1..]; }
    }
  }

  /** `s.filter((_, i) => i !== idx)`: the element at `idx`, if any, is dropped and the rest keep their order. */
  function RemoveAt<T>(s: seq<T>, idx: int): (r: seq<T>)
    ensures 0 <= idx < |s| ==> r == s[..idx] + s[idx + 1..]
    ensures !(0 <= idx < |s|) ==> r == s
  {
    if s == [] then []
    else
      var last := |s| - 1;
      var init := RemoveAt(s[..last], idx);
      assert s == s[..last] + [s[last]];
      if last != idx then
        assert 0 <= idx < last ==> s[..last][idx + 1..] + [s[last]] == s[idx + 1..];
        init + [s[last]]
      else
        init
  }

  /** `s.map(f)` where `f` may fail: every result, or `None` as soon as one fails. */
  function AllSome<T, U>(s: seq<T>, f: T -> Option<U>): (r: Option<seq<U>>)
    ensures r.Some? <==> forall i :: 0 <= i < |s| ==> f(s[i]).Some?
    ensures r.Some? ==> |r.value| == |s| && forall i :: 0 <= i < |s| ==> r.value[i] == f(s[i]).value
  {
    if s == [] then Some([])
    else
      var first := f(s[0]);
      var rest := AllSome(s[1..], f);
      if first.Some? && rest.Some? then
        assert forall i :: 1 <= i < |s| ==> s[i] == s[1..][i - 1];
        Some([first.value] + rest.value)
      else
        assert forall i :: 1 <= i < |s| ==> s[i] == s[1..][i - 1];
        None
  }
}
