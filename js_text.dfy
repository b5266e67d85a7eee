/**
 * The ECMAScript string primitives the screens rely on: `trim`, ASCII case
 * mapping, `includes`, `split` on one character, `replace` of the first
 * occurrence of one character, `join`, and the relational operator `<` on
 * strings (ECMA-262, section 7.2.13, IsLessThan on two strings).
 */
module JsText {

  /** WhiteSpace and LineTerminator code points (ECMA-262, sections 12.2 and 12.3). */
  predicate IsWhiteSpace(c: char) {
    || c == '\t' || c == '\n' || c == '\U{000B}' || c == '\U{000C}' || c == '\r' || c == ' '
    || c == '\U{00A0}' || c == '\U{1680}' || ('\U{2000}' <= c <= '\U{200A}')
    || c == '\U{2028}' || c == '\U{2029}' || c == '\U{202F}' || c == '\U{205F}'
    || c == '\U{3000}' || c == '\U{FEFF}'
  }

  /** Leading white space removed. */
  function TrimStart(s: string): (r: string)
    ensures |r| <= |s| && r == s[|s| - |r|..]
    ensures forall k :: 0 <= k < |s| - |r| ==> IsWhiteSpace(s[k])
    ensures r == [] || !IsWhiteSpace(r[0])
  {
    if |s| > 0 && IsWhiteSpace(s[0]) then TrimStart(s[1..]) else s
  }

  /** Trailing white space removed. */
  function TrimEnd(s: string): (r: string)
    ensures |r| <= |s| && r == s[..|r|]
    ensures forall k :: |r| <= k < |s| ==> IsWhiteSpace(s[k])
    ensures r == [] || !IsWhiteSpace(r[|r| - 1])
  {
    if |s| > 0 && IsWhiteSpace(s[|s| - 1]) then TrimEnd(s[..|s| - 1]) else s
  }

  /** `String.prototype.trim`. */
  function Trim(s: string): (r: string)
    ensures r == [] || (!IsWhiteSpace(r[0]) && !IsWhiteSpace(r[|r| - 1]))
  {
    TrimEnd(TrimStart(s))
  }

  /** `r` is the slice `s[i..j]`, and everything of `s` outside it is white space. */
  predicate TrimmedTo(s: string, r: string, i: int, j: int) {
    && 0 <= i <= j <= |s| && r == s[i..j]
    && (forall k :: 0 <= k < i ==> IsWhiteSpace(s[k]))
    && (forall k :: j <= k < |s| ==> IsWhiteSpace(s[k]))
  }

  /** Trimming removes only white space: what is left is a slice of the input, with white space all around it. */
  lemma TrimIsSlice(s: string)
    ensures exists i, j :: TrimmedTo(s, Trim(s), i, j)
  {
    var a := TrimStart(s);
    var b := TrimEnd(a);
    var i := |s| - |a|;
    var j := i + |b|;
    assert b == s[i..j] by {
      assert a[..|b|] == s[i..j];
    }
    forall k | j <= k < |s|
      ensures IsWhiteSpace(s[k])
    {
      assert s[k] == a[k - i];
    }
    assert TrimmedTo(s, Trim(s), i, j);
  }

  predicate NoWhiteSpace(s: string) {
    forall k :: 0 <= k < |s| ==> !IsWhiteSpace(s[k])
  }

  /** A string without white space is its own trim. */
  lemma TrimNoWhiteSpace(s: string)
    requires NoWhiteSpace(s)
    ensures Trim(s) == s
  {
    var a := TrimStart(s);
    assert a == s;
  }

  /** `toLowerCase`, restricted to the ASCII letters. */
  function LowerChar(c: char): (r: char)
    ensures 'A' <= c <= 'Z' ==> r as int == c as int + 32
    ensures !('A' <= c <= 'Z') ==> r == c
  {
    if 'A' <= c <= 'Z' then (c as int + 32) as char else c
  }

  /** `toUpperCase`, restricted to the ASCII letters. */
  function UpperChar(c: char): (r: char)
    ensures 'a' <= c <= 'z' ==> r as int == c as int - 32
    ensures !('a' <= c <= 'z') ==> r == c
  {
    if 'a' <= c <= 'z' then (c as int - 32) as char else c
  }

  function ToLower(s: string): (r: string)
    ensures |r| == |s| && forall k :: 0 <= k < |s| ==> r[k] == LowerChar(s[k])
  {
    if s == [] then [] else [LowerChar(s[0])] + ToLower(s[1..])
  }

  /** Upper-cases the first character and keeps the rest (the `cap` helper of the Orders screen). */
  function Cap(s: string): (r: string)
    ensures |r| == |s|
    ensures s != [] ==> r[0] == UpperChar(s[0]) && r[1..] == s[1..]
  {
    if s == [] then s else [UpperChar(s[0])] + s[1..]
  }

  /** An upper-case ASCII letter followed by lower-case ones, as the English weekday names are written. */
  predicate Capitalised(s: string) {
    |s| > 0 && 'A' <= s[0] <= 'Z' && forall k :: 1 <= k < |s| ==> 'a' <= s[k] <= 'z'
  }

  /** Capitalising a lower-cased capitalised word gives the word back. */
  lemma CapOfLower(s: string)
    requires Capitalised(s)
    ensures Cap(ToLower(s)) == s
  {
    var r := Cap(ToLower(s));
    assert r[0] == s[0];
    assert forall k :: 1 <= k < |s| ==> r[k] == s[k] by {
      forall k | 1 <= k < |s| ensures r[k] == s[k] {
        assert r[k] == r[1..][k - 1];
      }
    }
  }

  /** `s.includes(q)`: `q` occurs in `s` at some position. */
  predicate Includes(s: string, q: string) {
    exists i | 0 <= i <= |s| - |q| :: OccursAt(s, q, i)
  }

  /** `q` occurs in `s` starting at index `i`. */
  predicate OccursAt(s: string, q: string, i: int) {
    0 <= i <= |s| - |q| && s[i..i + |q|] == q
  }

  /** The string relation `a < b`: code-point-wise lexicographic, a proper prefix being smaller. */
  predicate LexLess(a: string, b: string) {
    if a == [] then b != []
    else if b == [] then false
    else if a[0] != b[0] then a[0] < b[0]
    else LexLess(a[1..], b[1..])
  }

  lemma {:induction false} LexLessIrreflexive(a: string)
    ensures !LexLess(a, a)
  {
    if a != [] { LexLessIrreflexive(a[1..]); }
  }

  lemma {:induction false} LexLessAsymmetric(a: string, b: string)
    ensures LexLess(a, b) ==> !LexLess(b, a)
  {
    if a != [] && b != [] && a[0] == b[0] { LexLessAsymmetric(a[1..], b[1..]); }
  }

  lemma {:induction false} LexLessTransitive(a: string, b: string, c: string)
    requires LexLess(a, b) && LexLess(b, c)
    ensures LexLess(a, c)
  {
    if a != [] && a[0] == b[0] && b[0] == c[0] {
      LexLessTransitive(a[1..], b[1..], c[1..]);
    }
  }

  lemma {:induction false} LexLessTotal(a: string, b: string)
    ensures a == b || LexLess(a, b) || LexLess(b, a)
  {
    if a != [] && b != [] && a[0] == b[0] {
      LexLessTotal(a[1..], b[1..]);
      if a[1..] == b[1..] { assert a == [a[0]] + a[1..]; assert b == [b[0]] + b[1..]; }
    }
  }

  /** Two strings of the same length with the same beginning compare as their tails do. */
  lemma {:induction false} LexLessCommonPrefix(p: string, a: string, b: string)
    ensures LexLess(p + a, p + b) == LexLess(a, b)
  {
    if p != [] {
      assert (p + a)[1..] == p[1..] + a;
      assert (p + b)[1..] == p[1..] + b;
      LexLessCommonPrefix(p[1..], a, b);
    } else {
      assert p + a == a && p + b == b;
    }
  }

  /** With equal-length, different first parts the comparison is decided by those parts. */
  lemma {:induction false} LexLessDecidedByPrefix(a: string, x: string, b: string, y: string)
    requires |a| == |b| && a != b
    ensures LexLess(a + x, b + y) == LexLess(a, b)
  {
    assert a != [] && b != [];
    if a[0] == b[0] {
      assert a[1..] != b[1..];
      assert (a + x)[1..] == a[1..] + x;
      assert (b + y)[1..] == b[1..] + y;
      LexLessDecidedByPrefix(a[1..], x, b[1..], y);
    }
  }

  /** `parts.join(sep)`. */
  function Join(parts: seq<string>, sep: char): (r: string)
    ensures |parts| == 1 ==> r == parts[0]
  {
    if parts == [] then []
    else if |parts| == 1 then parts[0]
    else parts[0] + [sep] + Join(parts[1..], sep)
  }

  /** `s.split(sep)` for a one-character separator. */
  function Split(s: string, sep: char): (parts: seq<string>)
    ensures |parts| >= 1
    ensures Join(parts, sep) == s
    ensures forall i :: 0 <= i < |parts| ==> sep !in parts[i]
  {
    if s == [] then [[]]
    else
      var rest := Split(s[1..], sep);
      if s[0] == sep then
        assert [] + [sep] + Join(rest, sep) == s;
        [[]] + rest
      else
        var parts := [[s[0]] + rest[0]] + rest[1..];
        assert Join(parts, sep) == s by {
          if |rest| == 1 {
            assert Join(parts, sep) == [s[0]] + rest[0];
          } else {
            assert Join(rest, sep) == rest[0] + [sep] + Join(rest[1..], sep);
            assert parts[1..] == rest[1..];
          }
        }
        parts
  }

  /** Splitting a join of separator-free parts gives the parts back. */
  lemma {:induction false} SplitJoin(parts: seq<string>, sep: char)
    requires |parts| >= 1
    requires forall i :: 0 <= i < |parts| ==> sep !in parts[i]
    ensures Split(Join(parts, sep), sep) == parts
  {
    var s := Join(parts, sep);
    var r := Split(s, sep);
    JoinInjective(r, parts, sep);
  }

  /** Join is injective on non-empty lists of separator-free parts. */
  lemma {:induction false} JoinInjective(a: seq<string>, b: seq<string>, sep: char)
    requires |a| >= 1 && |b| >= 1
    requires forall i :: 0 <= i < |a| ==> sep !in a[i]
    requires forall i :: 0 <= i < |b| ==> sep !in b[i]
    requires Join(a, sep) == Join(b, sep)
    ensures a == b
    decreases |a| + |b|
  {
    var s := Join(a, sep);
    if |a| == 1 && |b| == 1 {
    } else if |a| == 1 {
      assert false;
    } else if |b| == 1 {
      assert false;
    } else {
      assert s == a[0] + [sep] + Join(a[1..], sep);
      assert s == b[0] + [sep] + Join(b[1..], sep);
      FirstSeparator(a[0], Join(a[1..], sep), b[0], Join(b[1..], sep), sep);
      assert a[0] == b[0];
      assert Join(a[1..], sep) == Join(b[1..], sep);
      JoinInjective(a[1..], b[1..], sep);
      assert a == [a[0]] + a[1..];
      assert b == [b[0]] + b[1..];
    }
  }

  lemma FirstSeparator(x: string, xs: string, y: string, ys: string, sep: char)
    requires sep !in x && sep !in y
    requires x + [sep] + xs == y + [sep] + ys
    ensures x == y && xs == ys
  {
    var s := x + [sep] + xs;
    assert s[..|x|] == x && s[|x|] == sep;
    assert s[..|y|] == y && s[|y|] == sep;
    IndexOfIs(s, sep, |x|);
    IndexOfIs(s, sep, |y|);
    assert x == s[..|x|];
    assert y == s[..|y|];
    assert xs == s[|x| + 1..];
    assert ys == s[|y| + 1..];
  }

  /** Index of the first occurrence of `c`, if any. */
  function IndexOf(s: string, c: char): (r: int)
    ensures -1 <= r < |s|
    ensures r == -1 <==> c !in s
    ensures 0 <= r ==> s[r] == c && c !in s[..r]
  {
    if s == [] then -1
    else if s[0] == c then 0
    else
      var k := IndexOf(s[1..], c);
      if k == -1 then -1
      else
        assert s[1..][..k] == s[1..k + 1];
        k + 1
  }

  lemma IndexOfIs(s: string, c: char, k: int)
    requires 0 <= k < |s| && s[k] == c && c !in s[..k]
    ensures IndexOf(s, c) == k
  {
    var r := IndexOf(s, c);
    assert r >= 0;
    assert r <= k by { assert s[..k + 1][k] == c; }
    assert s[..k][..r] == s[..r];
  }

  /** `s.replace(from, to)` with a one-character string pattern: only the first occurrence changes. */
  function ReplaceFirst(s: string, from: char, to: char): (r: string)
    ensures |r| == |s|
    ensures from !in s ==> r == s
    ensures from in s ==> var i := IndexOf(s, from); r == s[..i] + [to] + s[i + 1..]
  {
    var i := IndexOf(s, from);
    if i < 0 then s else s[..i] + [to] + s[i + 1..]
  }
}
