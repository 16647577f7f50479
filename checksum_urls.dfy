/**
 * The two URLs derived from a complete-update URL: the release's signed
 * SHA512SUMS manifest (`get_hashes_url`) and the per-file checksum fragment
 * written by beetmover (`get_beetmover_url`).
 */
module ChecksumUrls {
  import opened Wrappers
  import opened Text

  /** `(build\d+)/` tried at the start of `s`: the length of the text it matches */
  function BuildSegment(s: string): (r: Option<nat>)
    ensures r.Some? ==> 7 <= r.value <= |s| && StartsWith(s, "build") && s[r.value - 1] == '/'
    ensures r.Some? ==> forall k :: 5 <= k < r.value - 1 ==> IsDigit(s[k])
  {
    if !StartsWith(s, "build") || |s| == 5 || !IsDigit(s[5]) then None
    else
      var d := Span(s, 5, IsDigit);
      if d < |s| && s[d] == '/' then Some(d + 1) else None
  }

  /** Every text that starts with `build`, digits and `/` starts with a segment of exactly that length. */
  lemma BuildSegmentOf(digits: string, rest: string)
    requires digits != [] && AllDigits(digits)
    ensures BuildSegment("build" + digits + "/" + rest) == Some(6 + |digits|)
  {
    var s := "build" + digits + "/" + rest;
    assert s[..5] == "build";
    assert forall k :: 5 <= k < 5 + |digits| ==> s[k] == digits[k - 5];
    assert s[5 + |digits|] == '/';
    SpanExact(s, 5, 5 + |digits|, IsDigit);
  }

  /**
   * `re.sub(r'(build\d+)/.*', r'\1/SHA512SUMS', url)`: every match, found
   * left to right, keeps its `build<digits>/` and has the rest of its line
   * (`.*` stops at a line feed) replaced by `SHA512SUMS`.
   */
  function HashesUrl(s: string): string
    decreases |s|
  {
    if s == [] then []
    else match BuildSegment(s)
      case Some(m) => s[..m] + "SHA512SUMS" + HashesUrl(s[LineEnd(s, m)..])
      case None => [s[0]] + HashesUrl(s[1..])
  }

  /** The characters of `build` after its `b`, and digits: what a segment is read through */
  predicate IsSegmentChar(c: char) { c == 'u' || c == 'i' || c == 'l' || c == 'd' || IsDigit(c) }

  lemma {:induction false} HashesUrlFirst(s: string)
    requires s != []
    ensures HashesUrl(s) != [] && HashesUrl(s)[0] == s[0]
  {
  }

  /** No `build<digits>/` segment starts at an index in `[i, n)`. */
  predicate NoSegmentIn(s: string, i: nat, n: nat)
    requires i <= n <= |s|
  {
    forall q :: i <= q < n ==> BuildSegment(s[q..]).None?
  }

  /** One step of the scan where no segment starts. */
  lemma HashesUrlStep(s: string)
    requires s != [] && BuildSegment(s).None?
    ensures HashesUrl(s) == [s[0]] + HashesUrl(s[1..])
  {
  }

  /** One step of the scan at a segment. */
  lemma HashesUrlMatchStep(s: string, m: nat)
    requires BuildSegment(s) == Some(m)
    ensures HashesUrl(s) == s[..m] + "SHA512SUMS" + HashesUrl(s[LineEnd(s, m)..])
  {
  }

  /** A text that does not start with `b` does not start with a segment. */
  lemma NoSegmentWithoutB(t: string)
    requires t == [] || t[0] != 'b'
    ensures BuildSegment(t).None?
  {
    assert |t| >= 5 ==> t[..5][0] == t[0];
  }

  /** No segment starts among characters that are not `b`. */
  lemma NoSegmentWithoutBs(t: string, i: nat, n: nat)
    requires i <= n <= |t|
    requires forall k :: i <= k < n ==> t[k] != 'b'
    ensures NoSegmentIn(t, i, n)
  {
    forall q | i <= q < n ensures BuildSegment(t[q..]).None? {
      assert t[q..][0] == t[q];
      NoSegmentWithoutB(t[q..]);
    }
  }

  /** Text in which no segment starts is kept as it is. */
  lemma {:induction false} HashesUrlKeeps(s: string, i: nat, n: nat)
    requires i <= n <= |s| && NoSegmentIn(s, i, n)
    ensures HashesUrl(s[i..]) == s[i..n] + HashesUrl(s[n..])
    decreases n - i
  {
    if i < n {
      calc {
        HashesUrl(s[i..]);
        { HashesUrlStep(s[i..]); assert s[i..][1..] == s[i + 1..]; }
        [s[i]] + HashesUrl(s[i + 1..]);
        { HashesUrlKeeps(s, i + 1, n); }
        [s[i]] + (s[i + 1..n] + HashesUrl(s[n..]));
        { assert s[i..n] == [s[i]] + s[i + 1..n]; }
        s[i..n] + HashesUrl(s[n..]);
      }
    } else {
      assert s[i..n] == [];
    }
  }

  /** A URL without any `build<digits>/` segment is returned unchanged. */
  lemma HashesUrlNoSegment(s: string)
    requires NoSegmentIn(s, 0, |s|)
    ensures HashesUrl(s) == s
  {
    HashesUrlKeeps(s, 0, |s|);
    assert s[0..] == s && s[|s|..] == [];
  }

  /** On a line that starts with a segment, the rest of the line becomes `SHA512SUMS`. */
  lemma HashesUrlOfLine(t: string, m: nat)
    requires '\n' !in t && BuildSegment(t) == Some(m)
    ensures HashesUrl(t) == t[..m] + "SHA512SUMS"
  {
    SpanExact(t, m, |t|, NotNewline);
    HashesUrlMatchStep(t, m);
    assert t[|t|..] == [];
  }

  /**
   * On a one-line URL whose first segment starts at `i` and is `m` long: everything up to and
   * including `build<digits>/` is kept and the rest becomes `SHA512SUMS`.
   */
  lemma HashesUrlOfUrl(s: string, i: nat, m: nat)
    requires '\n' !in s
    requires i <= |s| && BuildSegment(s[i..]) == Some(m)
    requires NoSegmentIn(s, 0, i)
    ensures HashesUrl(s) == s[..i + m] + "SHA512SUMS"
  {
    var t := s[i..];
    assert s[0..] == s;
    HashesUrlKeeps(s, 0, i);
    NoNewlineInSuffix(s, i);
    HashesUrlOfLine(t, m);
    JoinAtSegment(s, i, m, HashesUrl(s), HashesUrl(t));
  }

  lemma NoNewlineInSuffix(s: string, i: nat)
    requires '\n' !in s && i <= |s|
    ensures '\n' !in s[i..]
  {
  }

  lemma JoinAtSegment(s: string, i: nat, m: nat, whole: string, part: string)
    requires i + m <= |s|
    requires whole == s[0..i] + part && part == s[i..][..m] + "SHA512SUMS"
    ensures whole == s[..i + m] + "SHA512SUMS"
  {
    assert s[..i + m] == s[0..i] + s[i..][..m];
  }

  /**
   * Whether a segment starts at 0 depends only on the text up to the first
   * character, after the leading one, that cannot continue `build<digits>`.
   */
  lemma BuildSegmentAgree(x: string, y: string, n: nat)
    requires 1 <= n <= |x| && n <= |y| && x[..n] == y[..n]
    requires n < |x| <==> n < |y|
    requires n < |x| ==> x[n] == y[n] && !IsSegmentChar(x[n])
    ensures BuildSegment(x) == BuildSegment(y)
  {
    if n >= 5 {
      assert x[..5] == x[..n][..5] && y[..5] == y[..n][..5];
      assert 5 < n ==> x[5] == x[..n][5] && y[5] == y[..n][5];
      SpanPrefix(x, y, 5, n, IsDigit);
      var d := Span(x, 5, IsDigit);
      assert d < n ==> x[d] == x[..n][d] && y[d] == y[..n][d];
    } else if n < |x| {
      assert |x| >= 5 ==> x[..5][n] == x[n];
      assert |y| >= 5 ==> y[..5][n] == y[n];
      assert "build"[n] in "uild";
    }
  }

  /** Keeping the text up to a character that ends the scan, and that character, keeps the answer. */
  lemma AgreeOnPrefix(s: string, n: nat, tail: string)
    requires 1 <= n <= |s|
    requires n < |s| ==> tail != [] && tail[0] == s[n] && !IsSegmentChar(s[n])
    requires n == |s| ==> tail == []
    ensures BuildSegment([s[0]] + (s[1..n] + tail)) == BuildSegment(s)
  {
    var y := [s[0]] + (s[1..n] + tail);
    assert y[..n] == s[..n];
    if n < |s| {
      assert y[n] == tail[0];
    }
    BuildSegmentAgree(s, y, n);
  }

  /** A segment followed by `SHA512SUMS` and then nothing or a new line: the rewrite of one match. */
  lemma SegmentThenSums(p: string, h: string)
    requires BuildSegment(p) == Some(|p|)
    requires h == [] || h[0] == '\n'
    ensures var z := p + "SHA512SUMS" + h;
      BuildSegment(z) == Some(|p|) && LineEnd(z, |p|) == |p| + 10 && z[..|p|] == p && z[|p| + 10..] == h
  {
    var z := p + "SHA512SUMS" + h;
    var n := |p|;
    assert z[..n - 1] == p[..n - 1] && z[n - 1] == p[n - 1] == '/';
    BuildSegmentAgree(p, z, n - 1);
    assert forall k :: n <= k < n + 10 ==> z[k] == "SHA512SUMS"[k - n] != '\n';
    assert n + 10 < |z| ==> z[n + 10] == h[0];
    SpanExact(z, n, n + 10, NotNewline);
  }

  /** Rewriting the text after a character creates no segment at that character. */
  lemma BuildSegmentAfterRewrite(s: string)
    requires s != [] && BuildSegment(s).None?
    ensures BuildSegment([s[0]] + HashesUrl(s[1..])).None?
  {
    var n := Span(s, 1, IsSegmentChar);
    NoSegmentWithoutBs(s, 1, n);
    HashesUrlKeeps(s, 1, n);
    var tail := HashesUrl(s[n..]);
    if n < |s| {
      HashesUrlFirst(s[n..]);
    } else {
      assert s[n..] == [];
    }
    AgreeOnPrefix(s, n, tail);
  }

  /** The case of `HashesUrlIdempotent` where a segment starts the text. */
  lemma IdempotentAtSegment(s: string, m: nat)
    requires BuildSegment(s) == Some(m)
    requires var r := s[LineEnd(s, m)..]; HashesUrl(HashesUrl(r)) == HashesUrl(r)
    ensures HashesUrl(HashesUrl(s)) == HashesUrl(s)
  {
    var r := s[LineEnd(s, m)..];
    var p := s[..m];
    var h := HashesUrl(r);
    HashesUrlMatchStep(s, m);
    assert p[..m - 1] == s[..m - 1] && p[m - 1] == s[m - 1];
    BuildSegmentAgree(s, p, m - 1);
    if r != [] {
      HashesUrlFirst(r);
    }
    SegmentThenSums(p, h);
    HashesUrlMatchStep(p + "SHA512SUMS" + h, m);
  }

  /** The case of `HashesUrlIdempotent` where no segment starts the text. */
  lemma IdempotentNoSegment(s: string)
    requires s != [] && BuildSegment(s).None?
    requires HashesUrl(HashesUrl(s[1..])) == HashesUrl(s[1..])
    ensures HashesUrl(HashesUrl(s)) == HashesUrl(s)
  {
    BuildSegmentAfterRewrite(s);
    var z := HashesUrl(s);
    HashesUrlStep(s);
    assert z[0] == s[0] && z[1..] == HashesUrl(s[1..]);
    HashesUrlStep(z);
  }

  /** Deriving the manifest URL twice gives the same URL as deriving it once. */
  lemma {:induction false} HashesUrlIdempotent(s: string)
    ensures HashesUrl(HashesUrl(s)) == HashesUrl(s)
    decreases |s|
  {
    if s != [] {
      match BuildSegment(s)
      case Some(m) =>
        HashesUrlIdempotent(s[LineEnd(s, m)..]);
        IdempotentAtSegment(s, m);
      case None =>
        HashesUrlIdempotent(s[1..]);
        IdempotentNoSegment(s);
    }
  }

  /**
   * `url.replace('/update/', '/beetmover-checksums/update/') + '.beet'`:
   * the address of the per-file checksum fragment.
   */
  function BeetmoverUrl(url: string): (r: string)
    ensures |r| >= 5 && r[|r| - 5..] == ".beet"
  {
    ReplaceAll(url, "/update/", "/beetmover-checksums/update/") + ".beet"
  }

  /** Without an `/update/` directory the fragment sits next to the file. */
  lemma BeetmoverUrlNoUpdate(url: string)
    requires !Contains(url, "/update/")
    ensures BeetmoverUrl(url) == url + ".beet"
  {
    ReplaceAbsent(url, "/update/", "/beetmover-checksums/update/");
  }

  /** With one `/update/` directory, that directory moves under `/beetmover-checksums/`. */
  lemma BeetmoverUrlOneUpdate(a: string, b: string)
    requires !Contains((a + "/update/")[..|a| + 7], "/update/")
    requires !Contains(b, "/update/")
    ensures BeetmoverUrl(a + "/update/" + b) == a + "/beetmover-checksums/update/" + b + ".beet"
  {
    var p, r := "/update/", "/beetmover-checksums/update/";
    ReplaceSplit(a, p, b, r);
    assert (a + p)[..|a| + 7][..|a|] == a;
    if Contains(a, p) {
      ContainsPrefix((a + p)[..|a| + 7], |a|, p);
    }
    ReplaceAbsent(a, p, r);
    ReplaceAbsent(b, p, r);
  }
}
