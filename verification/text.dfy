/** The two string operations the pattern-list builder relies on: splitting on a
    separator (Go's `strings.Split` with a one-character separator) and
    whitespace trimming (Go's `strings.TrimSpace`, restricted to ASCII white space). */
module Text {

  /** ASCII white space: space, tab, line feed, vertical tab, form feed, carriage return. */
  predicate IsSpace(c: char) {
    c == ' ' || c == '\t' || c == '\n' || c == '\U{0B}' || c == '\U{0C}' || c == '\r'
  }

  predicate AllSpace(s: string) {
    forall k :: 0 <= k < |s| ==> IsSpace(s[k])
  }

  /** Number of occurrences of `c` in `s`. */
  function Count(s: string, c: char): nat {
    if |s| == 0 then 0 else (if s[0] == c then 1 else 0) + Count(s[1..], c)
  }

  /** Concatenation of `parts` with `sep` between neighbours (Go's `strings.Join`). */
  function Join(parts: seq<string>, sep: char): string {
    if |parts| == 0 then ""
    else if |parts| == 1 then parts[0]
    else parts[0] + [sep] + Join(parts[1..], sep)
  }

  /** The pieces of `s` between occurrences of `sep`. As in Go, the result is never
      empty: the empty string splits into one empty piece, and a leading, trailing or
      doubled separator yields empty pieces. */
  function Split(s: string, sep: char): (parts: seq<string>)
    ensures |parts| == Count(s, sep) + 1
    ensures forall i :: 0 <= i < |parts| ==> sep !in parts[i]
    ensures Join(parts, sep) == s
    decreases |s|
  {
    if |s| == 0 then [""]
    else
      var rest := Split(s[1..], sep);
      if s[0] == sep then [""] + rest
      else [[s[0]] + rest[0]] + rest[1..]
  }

  lemma JoinCons(part: string, rest: seq<string>, sep: char)
    requires |rest| >= 1
    ensures Join([part] + rest, sep) == part + [sep] + Join(rest, sep)
  {
    assert ([part] + rest)[1..] == rest;
  }

  /** Splitting a sequence of separator-free pieces joined by the separator gives the pieces back. */
  lemma {:induction false} SplitJoin(parts: seq<string>, sep: char)
    requires |parts| >= 1
    requires forall i :: 0 <= i < |parts| ==> sep !in parts[i]
    ensures Split(Join(parts, sep), sep) == parts
    decreases |parts|
  {
    if |parts| == 1 {
      SplitNoSeparator(parts[0], sep);
    } else {
      SplitJoin(parts[1..], sep);
      SplitAfterPiece(parts[0], Join(parts[1..], sep), sep);
    }
  }

  lemma {:induction false} SplitNoSeparator(s: string, sep: char)
    requires sep !in s
    ensures Split(s, sep) == [s]
    decreases |s|
  {
    if |s| > 0 {
      SplitNoSeparator(s[1..], sep);
      assert [s[0]] + s[1..] == s;
    }
  }

  lemma {:induction false} SplitAfterPiece(a: string, b: string, sep: char)
    requires sep !in a
    ensures Split(a + [sep] + b, sep) == [a] + Split(b, sep)
    decreases |a|
  {
    var s := a + [sep] + b;
    if |a| == 0 {
      assert s == [sep] + b;
      assert s[1..] == b;
    } else {
      assert s[1..] == a[1..] + [sep] + b;
      SplitAfterPiece(a[1..], b, sep);
      assert [a[0]] + a[1..] == a;
    }
  }

  /** `s` without its leading white space. */
  function TrimLeft(s: string): (t: string)
    ensures |t| <= |s| && t == s[|s| - |t|..]
    ensures AllSpace(s[..|s| - |t|])
    ensures t == [] || !IsSpace(t[0])
    decreases |s|
  {
    if |s| > 0 && IsSpace(s[0]) then
      var t := TrimLeft(s[1..]);
      assert s[1..][|s| - 1 - |t|..] == s[|s| - |t|..];
      assert forall k | 1 <= k < |s| - |t| :: s[k] == s[1..][..|s| - 1 - |t|][k - 1];
      t
    else s
  }

  /** `s` without its trailing white space. */
  function TrimRight(s: string): (t: string)
    ensures |t| <= |s| && t == s[..|t|]
    ensures AllSpace(s[|t|..])
    ensures t == [] || !IsSpace(t[|t| - 1])
    decreases |s|
  {
    if |s| > 0 && IsSpace(s[|s| - 1]) then
      var t := TrimRight(s[..|s| - 1]);
      assert s[..|s| - 1][..|t|] == s[..|t|];
      assert forall k | |t| <= k < |s| - 1 :: s[k] == s[..|s| - 1][|t|..][k - |t|];
      t
    else s
  }

  /** `t` is an infix of `s` and everything of `s` around it is white space. */
  ghost predicate IsTrimOf(t: string, s: string) {
    exists i :: 0 <= i <= |s| - |t| && t == s[i..i + |t|] && AllSpace(s[..i]) && AllSpace(s[i + |t|..])
  }

  /** `s` without leading and trailing white space: the infix of `s` that is left
      once every white-space character at either end is removed. */
  function TrimSpace(s: string): (t: string)
    ensures t == [] <==> AllSpace(s)
    ensures t != [] ==> !IsSpace(t[0]) && !IsSpace(t[|t| - 1])
  {
    var l := TrimLeft(s);
    var t := TrimRight(l);
    assert l != [] ==> t != [] && !AllSpace(s) by {
      if l != [] {
        assert AllSpace(l[|t|..]);
        assert s[|s| - |l|] == l[0];
      }
    }
    assert l == [] ==> AllSpace(s) by {
      if l == [] {
        assert s[..|s|] == s;
      }
    }
    t
  }

  /** A suffix `l` of `s` after white space, and a prefix `t` of `l` before white space,
      make `t` a trimming of `s`. */
  lemma TrimOfSuffixPrefix(s: string, l: string, t: string)
    requires |l| <= |s| && l == s[|s| - |l|..] && AllSpace(s[..|s| - |l|])
    requires |t| <= |l| && t == l[..|t|] && AllSpace(l[|t|..])
    ensures IsTrimOf(t, s)
  {
    var i := |s| - |l|;
    assert s[i..i + |t|] == t;
    assert s[i + |t|..] == l[|t|..];
    assert 0 <= i <= |s| - |t| && t == s[i..i + |t|] && AllSpace(s[..i]) && AllSpace(s[i + |t|..]);
  }

  /** The trimmed string is an infix of the original with only white space around it. */
  lemma TrimSpaceIsInfix(s: string)
    ensures IsTrimOf(TrimSpace(s), s)
  {
    TrimOfSuffixPrefix(s, TrimLeft(s), TrimRight(TrimLeft(s)));
  }

  /** Trimming removes characters and never adds one. */
  lemma TrimSpaceKeepsCharacters(s: string, c: char)
    requires c in TrimSpace(s)
    ensures c in s
  {
    TrimSpaceIsInfix(s);
    InfixKeepsCharacters(TrimSpace(s), s, c);
  }

  /** Every character of a trimming occurs in the trimmed string. */
  lemma InfixKeepsCharacters(t: string, s: string, c: char)
    requires IsTrimOf(t, s) && c in t
    ensures c in s
  {
    var i :| 0 <= i <= |s| - |t| && t == s[i..i + |t|] && AllSpace(s[..i]) && AllSpace(s[i + |t|..]);
    var k :| 0 <= k < |t| && t[k] == c;
    assert s[i + k] == c;
  }

  /** A string that neither starts nor ends with white space is its own trimming. */
  lemma TrimSpaceOfTrimmed(t: string)
    requires t == [] || (!IsSpace(t[0]) && !IsSpace(t[|t| - 1]))
    ensures TrimSpace(t) == t
  {
    assert TrimLeft(t) == t;
  }

  lemma {:induction false} TrimLeftSpaces(pre: string, u: string)
    requires AllSpace(pre) && (u == [] || !IsSpace(u[0]))
    ensures TrimLeft(pre + u) == u
    decreases |pre|
  {
    if |pre| > 0 {
      assert (pre + u)[1..] == pre[1..] + u;
      TrimLeftSpaces(pre[1..], u);
    } else {
      assert pre + u == u;
    }
  }

  lemma {:induction false} TrimRightSpaces(u: string, post: string)
    requires AllSpace(post) && (u == [] || !IsSpace(u[|u| - 1]))
    ensures TrimRight(u + post) == u
    decreases |post|
  {
    if |post| > 0 {
      assert (u + post)[..|u + post| - 1] == u + post[..|post| - 1];
      TrimRightSpaces(u, post[..|post| - 1]);
    } else {
      assert u + post == u;
    }
  }

  /** Trimming is determined by its characterization: white space around a string
      that neither starts nor ends with white space is exactly what is removed. */
  lemma TrimSpaceOf(pre: string, t: string, post: string)
    requires AllSpace(pre) && AllSpace(post)
    requires t == [] || (!IsSpace(t[0]) && !IsSpace(t[|t| - 1]))
    ensures TrimSpace(pre + t + post) == t
  {
    if t == [] {
      assert AllSpace(pre + t + post) by {
        forall k | 0 <= k < |pre + t + post| ensures IsSpace((pre + t + post)[k]) {
          if k < |pre| { assert (pre + t + post)[k] == pre[k]; }
          else { assert (pre + t + post)[k] == post[k - |pre|]; }
        }
      }
    } else {
      assert pre + t + post == pre + (t + post);
      TrimLeftSpaces(pre, t + post);
      TrimRightSpaces(t, post);
    }
  }

  /** Trimming twice is trimming once. */
  lemma TrimSpaceIdempotent(s: string)
    ensures TrimSpace(TrimSpace(s)) == TrimSpace(s)
  {
    TrimSpaceOfTrimmed(TrimSpace(s));
  }
}
