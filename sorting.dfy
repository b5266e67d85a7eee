/**
 * `Array.prototype.sort` with a comparator on a string key: the pages sort
 * recipe names with `localeCompare` and date strings with `<`, in
 * ascending or descending order. Since ECMA-262 (section 23.1.3.30) makes
 * the sort stable, it is modelled as a stable insertion sort; for the
 * distinct keys the pages sort, any correct sort gives the same result.
 */
module Sorting {
  import opened JsText

  /** The comparator's "a goes before b". */
  predicate Before(a: string, b: string, descending: bool) {
    if descending then LexLess(b, a) else LexLess(a, b)
  }

  lemma BeforeIrreflexive(a: string, descending: bool)
    ensures !Before(a, a, descending)
  {
    LexLessIrreflexive(a);
  }

  lemma BeforeTransitive(a: string, b: string, c: string, descending: bool)
    requires Before(a, b, descending) && Before(b, c, descending)
    ensures Before(a, c, descending)
  {
    if descending { LexLessTransitive(c, b, a); } else { LexLessTransitive(a, b, c); }
  }

  lemma BeforeTotal(a: string, b: string, descending: bool)
    ensures a == b || Before(a, b, descending) || Before(b, a, descending)
  {
    LexLessTotal(a, b);
  }

  /** Inserts `x` after every element that goes strictly before it. */
  function Insert<T>(x: T, s: seq<T>, key: T -> string, descending: bool): (r: seq<T>)
    ensures |r| == |s| + 1
  {
    if s == [] then [x]
    else if Before(key(s[0]), key(x), descending) then [s[0]] + Insert(x, s[1..], key, descending)
    else [x] + s
  }

  /** The sorted copy of `s`. */
  function SortBy<T>(s: seq<T>, key: T -> string, descending: bool): (r: seq<T>)
    ensures |r| == |s|
  {
    if s == [] then [] else Insert(s[0], SortBy(s[1..], key, descending), key, descending)
  }

  /** Each element goes strictly before every later one. */
  predicate StrictlySorted<T>(s: seq<T>, key: T -> string, descending: bool) {
    forall i, j :: 0 <= i < j < |s| ==> Before(key(s[i]), key(s[j]), descending)
  }

  /** No two elements share a key. */
  predicate DistinctKeys<T>(s: seq<T>, key: T -> string) {
    forall i, j :: 0 <= i < j < |s| ==> key(s[i]) != key(s[j])
  }

  lemma {:induction false} InsertPermutes<T>(x: T, s: seq<T>, key: T -> string, descending: bool)
    ensures multiset(Insert(x, s, key, descending)) == multiset(s) + multiset{x}
    decreases |s|
  {
    if s != [] && Before(key(s[0]), key(x), descending) {
      InsertPermutes(x, s[1..], key, descending);
      assert s == [s[0]] + s[1..];
    }
  }

  /** Sorting only reorders. */
  lemma {:induction false} SortPermutes<T>(s: seq<T>, key: T -> string, descending: bool)
    ensures multiset(SortBy(s, key, descending)) == multiset(s)
    decreases |s|
  {
    if s != [] {
      SortPermutes(s[1..], key, descending);
      InsertPermutes(s[0], SortBy(s[1..], key, descending), key, descending);
      assert s == [s[0]] + s[1..];
    }
  }

  lemma InsertElements<T>(x: T, s: seq<T>, key: T -> string, descending: bool)
    ensures forall e :: e in Insert(x, s, key, descending) <==> e == x || e in s
  {
    InsertPermutes(x, s, key, descending);
    forall e ensures e in Insert(x, s, key, descending) <==> e == x || e in s {
      assert e in Insert(x, s, key, descending) <==> e in multiset(Insert(x, s, key, descending));
      assert e in s <==> e in multiset(s);
    }
  }

  lemma SortElements<T>(s: seq<T>, key: T -> string, descending: bool)
    ensures forall e :: e in SortBy(s, key, descending) <==> e in s
  {
    SortPermutes(s, key, descending);
    forall e ensures e in SortBy(s, key, descending) <==> e in s {
      assert e in SortBy(s, key, descending) <==> e in multiset(SortBy(s, key, descending));
      assert e in s <==> e in multiset(s);
    }
  }

  /** Inserting an element whose key is new keeps a strictly sorted sequence strictly sorted. */
  lemma {:induction false} InsertStrict<T>(x: T, s: seq<T>, key: T -> string, descending: bool)
    requires StrictlySorted(s, key, descending)
    requires forall e :: e in s ==> key(e) != key(x)
    ensures StrictlySorted(Insert(x, s, key, descending), key, descending)
    decreases |s|
  {
    if s == [] {
    } else if Before(key(s[0]), key(x), descending) {
      InsertStrict(x, s[1..], key, descending);
      InsertBehindHead(x, s, key, descending);
    } else {
      InsertInFront(x, s, key, descending);
    }
  }

  /** `x` goes after the head: the head stays first, before everything `x` was inserted among. */
  lemma InsertBehindHead<T>(x: T, s: seq<T>, key: T -> string, descending: bool)
    requires s != [] && Before(key(s[0]), key(x), descending)
    requires StrictlySorted(s, key, descending)
    requires StrictlySorted(Insert(x, s[1..], key, descending), key, descending)
    ensures StrictlySorted(Insert(x, s, key, descending), key, descending)
  {
    var t := Insert(x, s[1..], key, descending);
    forall e | e in t ensures Before(key(s[0]), key(e), descending) {
      InsertMember(x, s[1..], key, descending, e);
      if e != x {
        HeadBefore(s, key, descending, e);
      }
    }
    ConsSorted(s[0], t, key, descending);
  }

  /** In a strictly sorted sequence the head goes before every later element. */
  lemma HeadBefore<T>(s: seq<T>, key: T -> string, descending: bool, e: T)
    requires s != [] && StrictlySorted(s, key, descending) && e in s[1..]
    ensures Before(key(s[0]), key(e), descending)
  {
    var m :| 0 <= m < |s[1..]| && s[1..][m] == e;
    assert s[m + 1] == e;
  }

  lemma InsertMember<T>(x: T, s: seq<T>, key: T -> string, descending: bool, e: T)
    requires e in Insert(x, s, key, descending)
    ensures e == x || e in s
  {
    InsertElements(x, s, key, descending);
  }

  /** An element before everything in a strictly sorted sequence can be put in front of it. */
  lemma ConsSorted<T>(h: T, t: seq<T>, key: T -> string, descending: bool)
    requires StrictlySorted(t, key, descending)
    requires forall e :: e in t ==> Before(key(h), key(e), descending)
    ensures StrictlySorted([h] + t, key, descending)
  {
    var r := [h] + t;
    forall i, j | 0 <= i < j < |r| ensures Before(key(r[i]), key(r[j]), descending) {
      assert r[j] == t[j - 1] && t[j - 1] in t;
      if i > 0 { assert r[i] == t[i - 1]; }
    }
  }

  /** `x` goes in front: it is before the head, and so before everything. */
  lemma InsertInFront<T>(x: T, s: seq<T>, key: T -> string, descending: bool)
    requires s != [] && !Before(key(s[0]), key(x), descending)
    requires StrictlySorted(s, key, descending)
    requires forall e :: e in s ==> key(e) != key(x)
    ensures StrictlySorted(Insert(x, s, key, descending), key, descending)
  {
    var r := Insert(x, s, key, descending);
    assert key(s[0]) != key(x) by { assert s[0] in s; }
    BeforeTotal(key(x), key(s[0]), descending);
    forall j | 0 <= j < |s| ensures Before(key(x), key(s[j]), descending) {
      if j > 0 { BeforeTransitive(key(x), key(s[0]), key(s[j]), descending); }
    }
    assert r == [x] + s;
    forall i, j | 0 <= i < j < |r| ensures Before(key(r[i]), key(r[j]), descending) {
      if i > 0 { assert r[i] == s[i - 1] && r[j] == s[j - 1]; } else { assert r[j] == s[j - 1]; }
    }
  }

  /** With distinct keys the sorted copy is strictly ordered. */
  lemma {:induction false} SortStrict<T>(s: seq<T>, key: T -> string, descending: bool)
    requires DistinctKeys(s, key)
    ensures StrictlySorted(SortBy(s, key, descending), key, descending)
    decreases |s|
  {
    if s != [] {
      var rest := SortBy(s[1..], key, descending);
      assert DistinctKeys(s[1..], key) by {
        forall i, j | 0 <= i < j < |s[1..]| ensures key(s[1..][i]) != key(s[1..][j]) {
          assert s[1..][i] == s[i + 1] && s[1..][j] == s[j + 1];
        }
      }
      SortStrict(s[1..], key, descending);
      SortPermutes(s[1..], key, descending);
      forall e | e in rest ensures key(e) != key(s[0]) {
        assert e in multiset(rest);
        assert e in s[1..];
        var m :| 0 <= m < |s[1..]| && s[1..][m] == e;
        assert s[m + 1] == e;
      }
      InsertStrict(s[0], rest, key, descending);
    }
  }
}
