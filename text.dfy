/**
 * The string operations the scripts use, with Python 2 `str` semantics:
 * character classes of `re` without flags, `x in s`, `str.replace`,
 * `str.split('\n')` and `str.strip()`.
 */
module Text {

  /** `\d` and `[0-9]` */
  predicate IsDigit(c: char) { '0' <= c <= '9' }

  /** `\w` on a byte string: ASCII letters, digits and underscore */
  predicate IsWordChar(c: char) {
    'a' <= c <= 'z' || 'A' <= c <= 'Z' || IsDigit(c) || c == '_'
  }

  /** `\s`, and the characters `str.strip()` removes: space, \t, \n, \r, \v, \f */
  predicate IsSpace(c: char) {
    c == ' ' || c == '\t' || c == '\n' || c == '\r' || c as int == 11 || c as int == 12
  }

  predicate IsNonSpace(c: char) { !IsSpace(c) }

  /** Any character but a line feed: what `.` matches in a pattern */
  predicate NotNewline(c: char) { c != '\n' }

  predicate AllDigits(s: string) { forall k :: 0 <= k < |s| ==> IsDigit(s[k]) }

  predicate StartsWith(s: string, prefix: string) {
    |prefix| <= |s| && s[..|prefix|] == prefix
  }

  /** Python's `sub in s` for strings: `sub` occurs somewhere in `s` */
  predicate Contains(s: string, sub: string)
    decreases |s|
  {
    StartsWith(s, sub) || (s != [] && Contains(s[1..], sub))
  }

  /** An occurrence in a suffix is an occurrence. */
  lemma {:induction false} ContainsSuffix(s: string, k: nat, sub: string)
    requires k <= |s| && Contains(s[k..], sub)
    ensures Contains(s, sub)
    decreases k
  {
    if k > 0 {
      assert s[1..][k - 1..] == s[k..];
      ContainsSuffix(s[1..], k - 1, sub);
    }
  }

  /** An occurrence in a prefix is an occurrence. */
  lemma {:induction false} ContainsPrefix(s: string, k: nat, sub: string)
    requires k <= |s| && Contains(s[..k], sub)
    ensures Contains(s, sub)
    decreases k
  {
    if !StartsWith(s[..k], sub) {
      assert s[..k][1..] == s[1..][..k - 1];
      ContainsPrefix(s[1..], k - 1, sub);
    }
  }

  /** A string does not contain a longer one. */
  lemma {:induction false} NotContainsLonger(s: string, sub: string)
    requires |s| < |sub|
    ensures !Contains(s, sub)
    decreases |s|
  {
    if s != [] {
      NotContainsLonger(s[1..], sub);
    }
  }

  /** A string without `c` does not contain any string that holds `c`. */
  lemma {:induction false} NotContainsChar(s: string, sub: string, k: nat)
    requires k < |sub| && sub[k] !in s
    ensures !Contains(s, sub)
    decreases |s|
  {
    if |sub| <= |s| {
      assert s[..|sub|][k] == s[k];
    }
    if s != [] {
      NotContainsChar(s[1..], sub, k);
    }
  }

  /** The first index at or after `i` whose character is not in `cls`, or `|s|`. */
  function Span(s: string, i: nat, cls: char -> bool): (e: nat)
    requires i <= |s|
    ensures i <= e <= |s|
    ensures forall k :: i <= k < e ==> cls(s[k])
    ensures e < |s| ==> !cls(s[e])
    decreases |s| - i
  {
    if i == |s| || !cls(s[i]) then i else Span(s, i + 1, cls)
  }

  /** A run that is ended by a character outside the class is exactly what `Span` finds. */
  lemma {:induction false} SpanExact(s: string, i: nat, e: nat, cls: char -> bool)
    requires i <= e <= |s|
    requires forall k :: i <= k < e ==> cls(s[k])
    requires e < |s| ==> !cls(s[e])
    ensures Span(s, i, cls) == e
    decreases e - i
  {
    if i < e {
      SpanExact(s, i + 1, e, cls);
    }
  }

  /** `Span` looks only at the characters it passes over and the one that stops it. */
  lemma {:induction false} SpanAgree(s: string, t: string, i: nat, cls: char -> bool)
    requires i <= |s| && i <= |t|
    requires var e := Span(s, i, cls);
      e <= |t| && s[i..e] == t[i..e] && (e < |s| <==> e < |t|) && (e < |s| ==> s[e] == t[e])
    ensures Span(s, i, cls) == Span(t, i, cls)
    decreases |s| - i
  {
    var e := Span(s, i, cls);
    if i < e {
      assert s[i] == s[i..e][0] == t[i..e][0] == t[i];
      assert s[i + 1..e] == s[i..e][1..];
      assert t[i + 1..e] == t[i..e][1..];
      SpanAgree(s, t, i + 1, cls);
    }
  }

  /**
   * `Span` from `i` gives the same answer on two strings that agree up to a
   * position `n` that stops it, and stops there or before.
   */
  lemma {:induction false} SpanPrefix(x: string, y: string, i: nat, n: nat, cls: char -> bool)
    requires i <= n <= |x| && n <= |y| && x[..n] == y[..n]
    requires n < |x| <==> n < |y|
    requires n < |x| ==> x[n] == y[n] && !cls(x[n])
    ensures Span(x, i, cls) == Span(y, i, cls) <= n
    decreases n - i
  {
    if i < n {
      assert x[i] == x[..n][i] && y[i] == y[..n][i];
      SpanPrefix(x, y, i + 1, n, cls);
    }
  }

  /** The index of the first line feed at or after `i`, or `|s|`: where `$` matches in multi-line mode */
  function LineEnd(s: string, i: nat): (e: nat)
    requires i <= |s|
    ensures i <= e <= |s|
    ensures forall k :: i <= k < e ==> s[k] != '\n'
    ensures e < |s| ==> s[e] == '\n'
  {
    Span(s, i, NotNewline)
  }

  /**
   * Python's `s.replace(pat, rep)`: every occurrence of `pat`, found left to
   * right without overlap, is replaced by `rep`.
   */
  function ReplaceAll(s: string, pat: string, rep: string): string
    requires pat != []
    decreases |s|
  {
    if s == [] then []
    else if StartsWith(s, pat) then rep + ReplaceAll(s[|pat|..], pat, rep)
    else [s[0]] + ReplaceAll(s[1..], pat, rep)
  }

  /** A string with no occurrence of `pat` comes back unchanged. */
  lemma {:induction false} ReplaceAbsent(s: string, pat: string, rep: string)
    requires pat != [] && !Contains(s, pat)
    ensures ReplaceAll(s, pat, rep) == s
    decreases |s|
  {
    if s != [] {
      ReplaceAbsent(s[1..], pat, rep);
    }
  }

  /**
   * When the first occurrence of `pat` in `a + pat + b` is the one after `a`,
   * replacing splits there: `a` and `b` are rewritten on their own and that
   * occurrence becomes `rep`.
   */
  lemma {:induction false} ReplaceSplit(a: string, pat: string, b: string, rep: string)
    requires pat != []
    requires !Contains((a + pat)[..|a| + |pat| - 1], pat)
    ensures ReplaceAll(a + pat + b, pat, rep) == ReplaceAll(a, pat, rep) + rep + ReplaceAll(b, pat, rep)
    decreases |a|
  {
    var s := a + pat + b;
    var pre := (a + pat)[..|a| + |pat| - 1];
    if a == [] {
      assert StartsWith(s, pat);
      assert s[|pat|..] == b;
    } else {
      assert pre[..|pat|] == s[..|pat|];
      assert !StartsWith(s, pat);
      assert |pat| <= |a| ==> pre[..|pat|] == a[..|pat|];
      assert !StartsWith(a, pat);
      assert s[1..] == a[1..] + pat + b;
      assert (a[1..] + pat)[..|a| - 1 + |pat| - 1] == pre[1..];
      assert !Contains(pre[1..], pat);
      ReplaceSplit(a[1..], pat, b, rep);
      assert s[0] == a[0];
      calc {
        ReplaceAll(s, pat, rep);
        [s[0]] + ReplaceAll(s[1..], pat, rep);
        [a[0]] + ReplaceAll(a[1..] + pat + b, pat, rep);
        [a[0]] + (ReplaceAll(a[1..], pat, rep) + rep + ReplaceAll(b, pat, rep));
        ([a[0]] + ReplaceAll(a[1..], pat, rep)) + rep + ReplaceAll(b, pat, rep);
        ReplaceAll(a, pat, rep) + rep + ReplaceAll(b, pat, rep);
      }
    }
  }

  /** Python's `s.split('\n')`: always at least one piece, and none holds a line feed. */
  function SplitLines(s: string): (lines: seq<string>)
    ensures |lines| >= 1
    ensures forall i :: 0 <= i < |lines| ==> '\n' !in lines[i]
    decreases |s|
  {
    var e := LineEnd(s, 0);
    assert forall k :: 0 <= k < e ==> s[..e][k] != '\n';
    if e == |s| then [s] else [s[..e]] + SplitLines(s[e + 1..])
  }

  /** `'\n'.join(lines)` */
  function JoinLines(lines: seq<string>): string
  {
    if lines == [] then []
    else if |lines| == 1 then lines[0]
    else lines[0] + "\n" + JoinLines(lines[1..])
  }

  /** Joining the pieces of a split gives back the string. */
  lemma {:induction false} JoinSplit(s: string)
    ensures JoinLines(SplitLines(s)) == s
    decreases |s|
  {
    var e := LineEnd(s, 0);
    if e < |s| {
      JoinSplit(s[e + 1..]);
      assert s == s[..e] + "\n" + s[e + 1..];
    }
  }

  /** Splitting a join of line-feed-free lines gives back the lines. */
  lemma {:induction false} SplitJoin(lines: seq<string>)
    requires |lines| >= 1
    requires forall i :: 0 <= i < |lines| ==> '\n' !in lines[i]
    ensures SplitLines(JoinLines(lines)) == lines
    decreases |lines|
  {
    var s := JoinLines(lines);
    var l := lines[0];
    if |lines| == 1 {
      assert LineEnd(s, 0) == |s|;
    } else {
      assert s == l + "\n" + JoinLines(lines[1..]);
      assert s[|l|] == '\n';
      assert forall k :: 0 <= k < |l| ==> s[k] == l[k] && s[k] != '\n';
      assert LineEnd(s, 0) == |l|;
      assert s[..|l|] == l;
      assert s[|l| + 1..] == JoinLines(lines[1..]);
      SplitJoin(lines[1..]);
    }
  }

  /** A string without a line feed is a single piece. */
  lemma SplitLinesOne(l: string)
    requires '\n' !in l
    ensures SplitLines(l) == [l]
  {
    SpanExact(l, 0, |l|, NotNewline);
  }

  /** A line-feed-free line followed by a line feed is the first piece, and the rest is split on its own. */
  lemma SplitLinesCons(l: string, rest: string)
    requires '\n' !in l
    ensures SplitLines(l + "\n" + rest) == [l] + SplitLines(rest)
  {
    var s := l + "\n" + rest;
    assert forall k :: 0 <= k < |l| ==> s[k] == l[k];
    SpanExact(s, 0, |l|, NotNewline);
    assert s[..|l|] == l;
    assert s[|l| + 1..] == rest;
  }

  /** The start of the run of whitespace that ends at `j`. */
  function TrailingSpaceStart(s: string, j: nat): (k: nat)
    requires j <= |s|
    ensures k <= j
    ensures forall i :: k <= i < j ==> IsSpace(s[i])
    ensures k > 0 ==> !IsSpace(s[k - 1])
  {
    if j == 0 || !IsSpace(s[j - 1]) then j else TrailingSpaceStart(s, j - 1)
  }

  /** Python's `s.strip()`: the slice of `s` between its leading and its trailing whitespace */
  function Strip(s: string): (r: string)
    ensures r == [] <==> forall k :: 0 <= k < |s| ==> IsSpace(s[k])
    ensures r != [] ==> !IsSpace(r[0]) && !IsSpace(r[|r| - 1])
    ensures exists i, j :: 0 <= i <= j <= |s| && r == s[i..j]
                           && (forall k :: 0 <= k < i ==> IsSpace(s[k]))
                           && (forall k :: j <= k < |s| ==> IsSpace(s[k]))
  {
    var i := Span(s, 0, IsSpace);
    var j := TrailingSpaceStart(s, |s|);
    if i >= j then
      assert i == |s|;
      assert s[0..0] == [];
      []
    else
      assert !IsSpace(s[i]);
      s[i..j]
  }

  /** A string that starts and ends with non-whitespace is its own strip. */
  lemma StripUnchanged(s: string)
    requires s != [] && !IsSpace(s[0]) && !IsSpace(s[|s| - 1])
    ensures Strip(s) == s
  {
    assert Span(s, 0, IsSpace) == 0;
    assert TrailingSpaceStart(s, |s|) == |s|;
  }
}
