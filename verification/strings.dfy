/**
 * The ordinal string operations of the .NET base library that the editor code relies on:
 * IndexOf / LastIndexOf of a character, Split on a character, Replace of one character by
 * another, Contains, StartsWith, TrimStart, an ASCII ToLower and the ordinal ordering of strings.
 */
module Strings {

  /** String.IndexOf(char): the first position of `c` in `s`, or -1. */
  function IndexOf(s: string, c: char): (r: int)
    ensures -1 <= r < |s|
    ensures r >= 0 ==> s[r] == c
    ensures forall k :: 0 <= k < |s| && (r < 0 || k < r) ==> s[k] != c
  {
    if |s| == 0 then -1
    else if s[0] == c then 0
    else
      var i := IndexOf(s[1..], c);
      if i < 0 then -1 else i + 1
  }

  /** String.LastIndexOf(char): the last position of `c` in `s`, or -1. */
  function LastIndexOf(s: string, c: char): (r: int)
    ensures -1 <= r < |s|
    ensures r >= 0 ==> s[r] == c
    ensures forall k :: r < k < |s| ==> s[k] != c
  {
    if |s| == 0 then -1
    else if s[|s| - 1] == c then |s| - 1
    else LastIndexOf(s[..|s| - 1], c)
  }

  /** The pieces glued back together with `c` between neighbours (the inverse of Split). */
  function Join(parts: seq<string>, c: char): string
  {
    if |parts| == 0 then ""
    else if |parts| == 1 then parts[0]
    else parts[0] + [c] + Join(parts[1..], c)
  }

  /** String.Split(char): the maximal runs of `s` between occurrences of `c`; never empty. */
  function Split(s: string, c: char): (parts: seq<string>)
    ensures |parts| >= 1
    ensures parts[0] == (if IndexOf(s, c) < 0 then s else s[..IndexOf(s, c)])
    decreases |s|
  {
    var i := IndexOf(s, c);
    if i < 0 then [s] else [s[..i]] + Split(s[i + 1..], c)
  }

  /** The part before the first `c` holds no `c`. */
  lemma BeforeIndexOf(s: string, c: char)
    ensures c !in (if IndexOf(s, c) < 0 then s else s[..IndexOf(s, c)])
  {
    var i := IndexOf(s, c);
    var before := if i < 0 then s else s[..i];
    forall k | 0 <= k < |before| ensures before[k] != c {
      assert before[k] == s[k];
    }
  }

  /** The pieces hold no separator. */
  lemma {:induction false} SplitPieces(s: string, c: char)
    ensures forall p :: p in Split(s, c) ==> c !in p
    decreases |s|
  {
    var i := IndexOf(s, c);
    if i < 0 {
      assert Split(s, c) == [s];
      assert c !in s by { BeforeIndexOf(s, c); }
    } else {
      var rest := Split(s[i + 1..], c);
      assert Split(s, c) == [s[..i]] + rest;
      assert c !in s[..i] by { BeforeIndexOf(s, c); }
      SplitPieces(s[i + 1..], c);
    }
  }

  /** Joining the pieces with the separator gives back the string. */
  lemma {:induction false} SplitJoin(s: string, c: char)
    ensures Join(Split(s, c), c) == s
    decreases |s|
  {
    var i := IndexOf(s, c);
    if i >= 0 {
      var head, tail := s[..i], s[i + 1..];
      var rest := Split(tail, c);
      SplitJoin(tail, c);
      JoinCons(head, rest, c);
      assert s == head + [c] + tail;
    }
  }

  lemma JoinCons(head: string, rest: seq<string>, c: char)
    requires |rest| >= 1
    ensures Join([head] + rest, c) == head + [c] + Join(rest, c)
  {
    assert ([head] + rest)[1..] == rest;
  }

  /** The first piece of a split is the longest prefix that does not contain the separator. */
  lemma SplitHead(s: string, c: char)
    ensures Split(s, c)[0] <= s
    ensures c !in Split(s, c)[0]
    ensures |Split(s, c)[0]| < |s| ==> s[|Split(s, c)[0]|] == c
  {
    BeforeIndexOf(s, c);
  }

  /** Enumerable.Aggregate((a, b) => a + b): the concatenation of the pieces. */
  function Concat(parts: seq<string>): string
  {
    if |parts| == 0 then "" else parts[0] + Concat(parts[1..])
  }

  /** `s` with every occurrence of `c` removed (the reference definition for Split + Concat). */
  function Without(s: string, c: char): (r: string)
    ensures c !in r
    ensures |r| <= |s|
    ensures forall ch :: ch in r ==> ch in s
  {
    if |s| == 0 then ""
    else (if s[0] == c then "" else [s[0]]) + Without(s[1..], c)
  }

  lemma {:induction false} WithoutAppend(a: string, b: string, c: char)
    ensures Without(a + b, c) == Without(a, c) + Without(b, c)
  {
    if |a| > 0 {
      assert (a + b)[1..] == a[1..] + b;
      WithoutAppend(a[1..], b, c);
    } else {
      assert a + b == b;
    }
  }

  lemma {:induction false} WithoutAbsent(s: string, c: char)
    requires c !in s
    ensures Without(s, c) == s
  {
    if |s| > 0 {
      WithoutAbsent(s[1..], c);
    }
  }

  lemma WithoutAt(s: string, c: char, i: int)
    requires 0 <= i < |s| && s[i] == c && c !in s[..i]
    ensures Without(s, c) == s[..i] + Without(s[i + 1..], c)
  {
    var head, tail := s[..i], s[i + 1..];
    var rest := [c] + tail;
    assert s == head + rest;
    WithoutAppend(head, rest, c);
    WithoutAbsent(head, c);
    assert rest[1..] == tail;
    assert Without(rest, c) == Without(tail, c);
  }

  /** Splitting on `c` and concatenating the pieces removes every `c` and keeps the rest in order. */
  lemma {:induction false} ConcatSplit(s: string, c: char)
    ensures Concat(Split(s, c)) == Without(s, c)
    decreases |s|
  {
    var i := IndexOf(s, c);
    if i < 0 {
      assert c !in s by { BeforeIndexOf(s, c); }
      WithoutAbsent(s, c);
    } else {
      var tail := s[i + 1..];
      var parts := [s[..i]] + Split(tail, c);
      assert Split(s, c) == parts;
      assert parts[1..] == Split(tail, c);
      ConcatSplit(tail, c);
      assert c !in s[..i] by { BeforeIndexOf(s, c); }
      WithoutAt(s, c, i);
    }
  }

  /** String.Replace(a, b) for single characters. */
  function ReplaceChar(s: string, a: char, b: char): (r: string)
    ensures |r| == |s|
    ensures forall k :: 0 <= k < |s| ==> r[k] == (if s[k] == a then b else s[k])
  {
    seq(|s|, k requires 0 <= k < |s| => if s[k] == a then b else s[k])
  }

  predicate IsAsciiUpper(ch: char)
  {
    'A' <= ch <= 'Z'
  }

  function ToLowerChar(ch: char): char
  {
    if IsAsciiUpper(ch) then (ch as int - 'A' as int + 'a' as int) as char else ch
  }

  /** String.ToLower restricted to the ASCII letters. */
  function ToLower(s: string): (r: string)
    ensures |r| == |s|
    ensures forall k :: 0 <= k < |s| ==> r[k] == ToLowerChar(s[k])
    ensures forall k :: 0 <= k < |r| ==> !IsAsciiUpper(r[k])
  {
    seq(|s|, k requires 0 <= k < |s| => ToLowerChar(s[k]))
  }

  /** A string without upper-case letters is its own lower case. */
  lemma ToLowerOfLower(s: string)
    requires forall k :: 0 <= k < |s| ==> !IsAsciiUpper(s[k])
    ensures ToLower(s) == s
  {
  }

  /** `t` occurs in `s` starting at position `i`. */
  predicate OccursAt(s: string, t: string, i: int)
  {
    0 <= i && i + |t| <= |s| && s[i..i + |t|] == t
  }

  /** String.Contains(string), ordinal. */
  predicate Contains(s: string, t: string)
    ensures Contains(s, t) <==> exists i :: OccursAt(s, t, i)
  {
    if t <= s then
      assert OccursAt(s, t, 0);
      true
    else if |s| == 0 then
      false
    else
      var r := Contains(s[1..], t);
      OccursInTail(s, t);
      r
  }

  /** An occurrence past the first position is an occurrence in the tail, one position earlier. */
  lemma OccursInTail(s: string, t: string)
    requires |s| > 0
    ensures forall i :: OccursAt(s, t, i) && i > 0 ==> OccursAt(s[1..], t, i - 1)
    ensures forall i :: OccursAt(s[1..], t, i) ==> OccursAt(s, t, i + 1)
  {
    forall i | OccursAt(s, t, i) && i > 0 ensures OccursAt(s[1..], t, i - 1) {
      forall k | 0 <= k < |t| ensures s[1..][i - 1..i - 1 + |t|][k] == t[k] {
        assert s[i..i + |t|][k] == t[k];
      }
    }
    forall i | OccursAt(s[1..], t, i) ensures OccursAt(s, t, i + 1) {
      forall k | 0 <= k < |t| ensures s[i + 1..i + 1 + |t|][k] == t[k] {
        assert s[1..][i..i + |t|][k] == t[k];
      }
    }
  }

  /** String.TrimStart(c): `s` without its leading run of `c`. */
  function TrimStart(s: string, c: char): (r: string)
    ensures |r| <= |s| && r == s[|s| - |r|..]
    ensures r == [] || r[0] != c
    ensures forall k :: 0 <= k < |s| - |r| ==> s[k] == c
  {
    if |s| > 0 && s[0] == c then TrimStart(s[1..], c) else s
  }

  /** The ordinal (code-point) ordering of strings: a total preorder, in fact a total order. */
  predicate LexLe(a: string, b: string)
  {
    |a| == 0 || (|b| > 0 && (a[0] < b[0] || (a[0] == b[0] && LexLe(a[1..], b[1..]))))
  }

  lemma {:induction false} LexLeTotal(a: string, b: string)
    ensures LexLe(a, b) || LexLe(b, a)
  {
    if |a| > 0 && |b| > 0 && a[0] == b[0] {
      LexLeTotal(a[1..], b[1..]);
    }
  }

  lemma {:induction false} LexLeTransitive(a: string, b: string, c: string)
    requires LexLe(a, b) && LexLe(b, c)
    ensures LexLe(a, c)
  {
    if |a| > 0 && |b| > 0 && |c| > 0 && a[0] == b[0] && b[0] == c[0] {
      LexLeTransitive(a[1..], b[1..], c[1..]);
    }
  }

  lemma {:induction false} LexLeAntisymmetric(a: string, b: string)
    requires LexLe(a, b) && LexLe(b, a)
    ensures a == b
  {
    if |a| > 0 && |b| > 0 {
      LexLeAntisymmetric(a[1..], b[1..]);
      assert a == [a[0]] + a[1..];
      assert b == [b[0]] + b[1..];
    }
  }
}
