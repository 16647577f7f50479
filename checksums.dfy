/**
 * Reading checksums: the beetmover fragment parsed by `parse_beetmover_data`,
 * the check in `get_url_size_hash`, the SHA512SUMS manifest loop of
 * `get_hashes`, and the retry rule of `get_url`.
 */
module Checksums {
  import opened Wrappers
  import opened Text
  import opened ChecksumUrls

  /** The named groups `hash`, `size` and `path` of a beetmover line */
  datatype BeetData = BeetData(hash: string, size: string, path: string)

  predicate AllWordChars(s: string) { forall k :: 0 <= k < |s| ==> IsWordChar(s[k]) }

  /** What the pattern's groups can hold: `\w+`, `\d+`, and `.*?` stopping at the end of the line */
  predicate WellFormedBeet(d: BeetData) {
    d.hash != [] && AllWordChars(d.hash) && d.size != [] && AllDigits(d.size) && '\n' !in d.path
  }

  /** The line `<hash> sha512 <size> <path>` */
  function FormatBeetLine(d: BeetData): string {
    d.hash + " sha512 " + d.size + " " + d.path
  }

  /**
   * `^(?P<hash>\w+) sha512 (?P<size>\d+) (?P<path>.*?)$` tried on one line.
   * `\w+` is followed by a space and `\d+` by a space, neither of which the
   * runs can hold, so each run is the longest one; `.*?` runs to `$`, the
   * end of the line.
   */
  function ParseBeetLine(line: string): (r: Option<BeetData>)
    ensures r.Some? ==> line == FormatBeetLine(r.value)
    ensures r.Some? && '\n' !in line ==> WellFormedBeet(r.value)
  {
    var h := Span(line, 0, IsWordChar);
    if h == 0 || !StartsWith(line[h..], " sha512 ") then None
    else
      var d := Span(line, h + 8, IsDigit);
      if d == h + 8 || d == |line| || line[d] != ' ' then None
      else
        var r := BeetData(line[..h], line[h + 8..d], line[d + 1..]);
        assert line[h..][..8] == line[h..h + 8];
        assert line == line[..h] + line[h..h + 8] + line[h + 8..d] + [line[d]] + line[d + 1..];
        assert AllWordChars(r.hash) by {
          forall k | 0 <= k < h ensures IsWordChar(r.hash[k]) { assert r.hash[k] == line[k]; }
        }
        assert AllDigits(r.size) by {
          forall k | 0 <= k < d - h - 8 ensures IsDigit(r.size[k]) { assert r.size[k] == line[k + h + 8]; }
        }
        Some(r)
  }

  /** A line written from well-formed groups is read back as those groups. */
  lemma ParseFormatBeetLine(d: BeetData)
    requires WellFormedBeet(d)
    ensures ParseBeetLine(FormatBeetLine(d)) == Some(d)
  {
    var line := FormatBeetLine(d);
    var h := |d.hash|;
    var e := h + 8 + |d.size|;
    assert forall k :: 0 <= k < h ==> line[k] == d.hash[k];
    assert line[h] == ' ';
    SpanExact(line, 0, h, IsWordChar);
    assert line[h..][..8] == " sha512 ";
    assert forall k :: h + 8 <= k < e ==> line[k] == d.size[k - h - 8];
    assert line[e] == ' ';
    SpanExact(line, h + 8, e, IsDigit);
    assert line[..h] == d.hash && line[h + 8..e] == d.size && line[e + 1..] == d.path;
  }

  /** The index of the first parsed line that matched */
  function FirstMatch(parsed: seq<Option<BeetData>>): (r: Option<nat>)
    ensures r.Some? ==> r.value < |parsed| && parsed[r.value].Some?
    ensures r.Some? ==> forall j :: 0 <= j < r.value ==> parsed[j].None?
    ensures r.None? ==> forall j :: 0 <= j < |parsed| ==> parsed[j].None?
  {
    if parsed == [] then None
    else if parsed[0].Some? then Some(0)
    else
      var r := FirstMatch(parsed[1..]);
      assert forall j :: 1 <= j < |parsed| ==> parsed[j] == parsed[1..][j - 1];
      if r.None? then None else Some(r.value + 1)
  }

  /**
   * `parse_beetmover_data`: `re.search` with `re.M` lets `^` match at the
   * start of every line, and nothing in the pattern crosses a line feed, so
   * the match is the first line that matches as a whole.  With no match,
   * `m.groupdict()` is called on None.
   */
  function ParseBeetmoverData(beet: string): (r: Result<BeetData>)
    ensures r.Err? <==> forall j :: 0 <= j < |SplitLines(beet)| ==> ParseBeetLine(SplitLines(beet)[j]).None?
    ensures r.Err? ==> r.error == AttributeError
    ensures r.Ok? ==> WellFormedBeet(r.value)
    ensures r.Ok? ==>
      exists i :: 0 <= i < |SplitLines(beet)| && SplitLines(beet)[i] == FormatBeetLine(r.value) &&
        forall j :: 0 <= j < i ==> ParseBeetLine(SplitLines(beet)[j]).None?
  {
    var lines := SplitLines(beet);
    var parsed := seq(|lines|, j requires 0 <= j < |lines| => ParseBeetLine(lines[j]));
    assert forall j :: 0 <= j < |lines| ==> parsed[j] == ParseBeetLine(lines[j]);
    match FirstMatch(parsed)
    case None => Err(AttributeError)
    case Some(i) =>
      assert '\n' !in lines[i] && ParseBeetLine(SplitLines(beet)[i]).Some?;
      var d := ParseBeetLine(lines[i]).value;
      assert lines[i] == FormatBeetLine(d);
      Ok(d)
  }

  /** A fragment that starts with a well-formed line yields that line's groups, whatever follows. */
  lemma ParseBeetmoverDataFirstLine(d: BeetData, rest: string)
    requires WellFormedBeet(d)
    ensures ParseBeetmoverData(FormatBeetLine(d) + "\n" + rest) == Ok(d)
  {
    var line := FormatBeetLine(d);
    assert '\n' !in line by {
      assert forall k :: 0 <= k < |line| ==> line[k] != '\n' by {
        assert forall k :: |d.hash| + 8 + |d.size| < k < |line| ==> line[k] == d.path[k - |d.hash| - 9 - |d.size|];
      }
    }
    SplitLinesCons(line, rest);
    ParseFormatBeetLine(d);
  }

  /** `int(s)` for a run of decimal digits */
  function DecimalValue(s: string): (n: nat)
    requires AllDigits(s)
    decreases |s|
  {
    if s == [] then 0 else 10 * DecimalValue(s[..|s| - 1]) + (s[|s| - 1] as int - '0' as int)
  }

  /** Leading zeros do not change the value `int` reads. */
  lemma {:induction false} DecimalValueLeadingZero(s: string)
    requires AllDigits(s)
    ensures AllDigits("0" + s) && DecimalValue("0" + s) == DecimalValue(s)
    decreases |s|
  {
    if s != [] {
      DecimalValueLeadingZero(s[..|s| - 1]);
      assert ("0" + s)[..|s|] == "0" + s[..|s| - 1];
    }
  }

  /**
   * `get_url_size_hash`: fetch the beetmover fragment of the URL, parse it,
   * and accept it only when the manifest lists its path with the same hash.
   * The download (`get_url`) is the parameter `fetch`.
   */
  function UrlSizeHash(url: string, fetch: string -> Result<string>, hashes: map<string, string>): (r: Result<(nat, string)>)
    ensures r.Ok? ==>
      && fetch(BeetmoverUrl(url)).Ok? && ParseBeetmoverData(fetch(BeetmoverUrl(url)).value).Ok?
      && var d := ParseBeetmoverData(fetch(BeetmoverUrl(url)).value).value;
      && d.path in hashes && hashes[d.path] == d.hash == r.value.1 && r.value.0 == DecimalValue(d.size)
    ensures r.Err? && fetch(BeetmoverUrl(url)).Ok? ==>
      r.error == AttributeError || r.error == AssertionError || r.error.KeyError?
    ensures fetch(BeetmoverUrl(url)).Err? ==> r.Err? && r.error == fetch(BeetmoverUrl(url)).error
    ensures fetch(BeetmoverUrl(url)).Ok? && ParseBeetmoverData(fetch(BeetmoverUrl(url)).value).Err? ==>
      r == Err(AttributeError)
    ensures fetch(BeetmoverUrl(url)).Ok? && ParseBeetmoverData(fetch(BeetmoverUrl(url)).value).Ok? ==>
      var d := ParseBeetmoverData(fetch(BeetmoverUrl(url)).value).value;
      && (d.path !in hashes ==> r == Err(KeyError(d.path)))
      && (d.path in hashes && hashes[d.path] != d.hash ==> r == Err(AssertionError))
      && (d.path in hashes && hashes[d.path] == d.hash ==> r == Ok((DecimalValue(d.size), d.hash)))
  {
    match fetch(BeetmoverUrl(url))
    case Err(e) => Err(e)
    case Ok(beet) =>
      match ParseBeetmoverData(beet)
      case Err(e) => Err(e)
      case Ok(d) =>
        if d.path !in hashes then Err(KeyError(d.path))
        else if d.hash != hashes[d.path] then Err(AssertionError)
        else Ok((DecimalValue(d.size), d.hash))
  }

  /**
   * For a fragment whose first line is well formed: the size and hash are
   * returned exactly when the manifest holds the path with that hash; a
   * missing path is a key error and a different hash fails the assertion.
   */
  lemma UrlSizeHashOfLine(url: string, fetch: string -> Result<string>, hashes: map<string, string>,
                          d: BeetData, rest: string)
    requires WellFormedBeet(d)
    requires fetch(BeetmoverUrl(url)) == Ok(FormatBeetLine(d) + "\n" + rest)
    ensures d.path !in hashes ==> UrlSizeHash(url, fetch, hashes) == Err(KeyError(d.path))
    ensures d.path in hashes && hashes[d.path] != d.hash ==> UrlSizeHash(url, fetch, hashes) == Err(AssertionError)
    ensures d.path in hashes && hashes[d.path] == d.hash ==>
      UrlSizeHash(url, fetch, hashes) == Ok((DecimalValue(d.size), d.hash))
  {
    ParseBeetmoverDataFirstLine(d, rest);
  }

  /** A manifest line after `strip()`: blank, split into hash and path, or without whitespace to split at */
  datatype ManifestLine = Blank | Pair(hash: string, path: string) | Malformed

  predicate NoSpace(s: string) { forall k :: 0 <= k < |s| ==> !IsSpace(s[k]) }

  predicate AllSpace(s: string) { forall k :: 0 <= k < |s| ==> IsSpace(s[k]) }

  /**
   * `line.strip()`, then `re.split('\s+', line, 1)` unpacked into two names:
   * the split is at the first run of whitespace; a stripped line without
   * whitespace gives one piece, and unpacking it fails.
   */
  function ClassifyLine(raw: string): ManifestLine
  {
    var l := Strip(raw);
    if l == [] then Blank else SplitAtSpace(l)
  }

  /**
   * A stripped line is blank, or has no whitespace and cannot be unpacked, or
   * is a non-empty hash without whitespace, a run of whitespace, and a path
   * that starts with non-whitespace.
   */
  lemma ClassifyLineShape(raw: string)
    ensures var r := ClassifyLine(raw);
      && (r.Blank? <==> Strip(raw) == [])
      && (r.Malformed? <==> Strip(raw) != [] && NoSpace(Strip(raw)))
      && (r.Pair? ==> r.hash != [] && NoSpace(r.hash) && r.path != [] && !IsSpace(r.path[0]))
      && (r.Pair? ==> exists sep :: sep != [] && AllSpace(sep) && Strip(raw) == r.hash + sep + r.path)
  {
  }

  /** `re.split('\s+', l, 1)` on a stripped, non-empty line */
  function SplitAtSpace(l: string): (r: ManifestLine)
    requires l != [] && !IsSpace(l[0]) && !IsSpace(l[|l| - 1])
    ensures !r.Blank?
    ensures r.Malformed? <==> NoSpace(l)
    ensures r.Pair? ==> r.hash != [] && NoSpace(r.hash) && r.path != [] && !IsSpace(r.path[0])
    ensures r.Pair? ==> exists sep :: sep != [] && AllSpace(sep) && l == r.hash + sep + r.path
  {
    var i := Span(l, 0, IsNonSpace);
    if i == |l| then Malformed
    else
      var j := Span(l, i, IsSpace);
      assert j < |l|;
      var sep := l[i..j];
      assert AllSpace(sep) by {
        forall k | 0 <= k < j - i ensures IsSpace(sep[k]) { assert sep[k] == l[i + k]; }
      }
      assert NoSpace(l[..i]) by {
        forall k | 0 <= k < i ensures !IsSpace(l[..i][k]) { assert l[..i][k] == l[k]; }
      }
      assert IsSpace(l[i]) && !IsSpace(l[j]);
      assert l == l[..i] + sep + l[j..];
      Pair(l[..i], l[j..])
  }

  /** A line `<hash><whitespace><path>` is read as that pair: the path keeps any whitespace inside it. */
  lemma ClassifyPairLine(h: string, sep: string, p: string)
    requires h != [] && NoSpace(h) && sep != [] && AllSpace(sep)
    requires p != [] && !IsSpace(p[0]) && !IsSpace(p[|p| - 1])
    ensures ClassifyLine(h + sep + p) == Pair(h, p)
  {
    var l := h + sep + p;
    var i, j := |h|, |h| + |sep|;
    StripUnchanged(l);
    assert forall k :: 0 <= k < i ==> l[k] == h[k];
    assert forall k :: i <= k < j ==> l[k] == sep[k - i];
    assert l[j] == p[0];
    SpanExact(l, 0, i, IsNonSpace);
    SpanExact(l, i, j, IsSpace);
    assert l[..i] == h && l[j..] == p;
  }

  /** Each line of a manifest, classified */
  function Classified(lines: seq<string>): (c: seq<ManifestLine>)
    ensures |c| == |lines| && forall i :: 0 <= i < |lines| ==> c[i] == ClassifyLine(lines[i])
  {
    seq(|lines|, i requires 0 <= i < |lines| => ClassifyLine(lines[i]))
  }

  /** The loop of `get_hashes` over classified lines: `retval[path] = h` for each pair in order */
  function ManifestOf(entries: seq<ManifestLine>): Result<map<string, string>>
    decreases |entries|
  {
    if entries == [] then Ok(map[])
    else
      match ManifestOf(entries[..|entries| - 1])
      case Err(e) => Err(e)
      case Ok(m) =>
        match entries[|entries| - 1]
        case Blank => Ok(m)
        case Pair(h, p) => Ok(m[p := h])
        case Malformed => Err(ValueError)
  }

  /** Once a prefix fails, so does every longer one. */
  lemma {:induction false} ManifestErrExtends(entries: seq<ManifestLine>, i: nat)
    requires i <= |entries| && ManifestOf(entries[..i]).Err?
    ensures ManifestOf(entries) == Err(ValueError)
    decreases |entries|
  {
    if i == |entries| {
      assert entries[..i] == entries;
      ManifestErrIsValueError(entries);
    } else {
      var init := entries[..|entries| - 1];
      assert init[..i] == entries[..i];
      ManifestErrExtends(init, i);
    }
  }

  /** The only failure is the unpacking error. */
  lemma {:induction false} ManifestErrIsValueError(entries: seq<ManifestLine>)
    requires ManifestOf(entries).Err?
    ensures ManifestOf(entries) == Err(ValueError)
    decreases |entries|
  {
    if ManifestOf(entries[..|entries| - 1]).Err? {
      ManifestErrIsValueError(entries[..|entries| - 1]);
    }
  }

  /** The manifest fails to parse exactly when one of its lines is non-blank without whitespace. */
  lemma {:induction false} ManifestErrIff(entries: seq<ManifestLine>)
    ensures ManifestOf(entries).Err? <==> exists i :: 0 <= i < |entries| && entries[i].Malformed?
    decreases |entries|
  {
    if entries != [] {
      var init := entries[..|entries| - 1];
      ManifestErrIff(init);
      if exists i :: 0 <= i < |entries| && entries[i].Malformed? {
        var i :| 0 <= i < |entries| && entries[i].Malformed?;
        if i < |entries| - 1 {
          assert init[i] == entries[i];
        }
      }
    }
  }

  /** A path the parsed manifest maps to a hash was paired with that hash on some line. */
  lemma {:induction false} ManifestOnlyListed(entries: seq<ManifestLine>, m: map<string, string>, p: string)
    requires ManifestOf(entries) == Ok(m) && p in m
    ensures exists i :: 0 <= i < |entries| && entries[i] == Pair(m[p], p)
    decreases |entries|
  {
    var init := entries[..|entries| - 1];
    var last := entries[|entries| - 1];
    var m0 := ManifestOf(init).value;
    if !(last.Pair? && last.path == p) {
      ManifestOnlyListed(init, m0, p);
      var i :| 0 <= i < |init| && init[i] == Pair(m0[p], p);
      assert entries[i] == init[i];
    }
  }

  /** The last line that pairs a path with a hash decides the path's entry: later lines overwrite earlier ones. */
  lemma {:induction false} ManifestLastWins(entries: seq<ManifestLine>, m: map<string, string>, i: nat, h: string, p: string)
    requires ManifestOf(entries) == Ok(m)
    requires i < |entries| && entries[i] == Pair(h, p)
    requires forall j :: i < j < |entries| ==> !(entries[j].Pair? && entries[j].path == p)
    ensures p in m && m[p] == h
    decreases |entries|
  {
    var init := entries[..|entries| - 1];
    if i < |entries| - 1 {
      var m0 := ManifestOf(init).value;
      assert init[i] == entries[i];
      ManifestLastWins(init, m0, i, h, p);
    }
  }

  /** One more line: what the loop body does to the dictionary. */
  lemma ManifestStep(entries: seq<ManifestLine>, i: nat, m: map<string, string>)
    requires i < |entries| && ManifestOf(entries[..i]) == Ok(m)
    ensures entries[i].Blank? ==> ManifestOf(entries[..i + 1]) == Ok(m)
    ensures entries[i].Pair? ==> ManifestOf(entries[..i + 1]) == Ok(m[entries[i].path := entries[i].hash])
    ensures entries[i].Malformed? ==> ManifestOf(entries[..i + 1]).Err?
  {
    assert entries[..i + 1][..i] == entries[..i];
  }

  /**
   * The loop of `get_hashes` (lines split on line feeds, each stripped,
   * blanks skipped, the rest split at the first whitespace run) that builds
   * the path-to-hash dictionary.
   */
  method ParseManifest(text: string) returns (r: Result<map<string, string>>)
    ensures r == ManifestOf(Classified(SplitLines(text)))
  {
    var lines := SplitLines(text);
    ghost var entries := Classified(lines);
    var retval: map<string, string> := map[];
    var i := 0;
    while i < |lines|
      invariant 0 <= i <= |lines|
      invariant ManifestOf(entries[..i]) == Ok(retval)
    {
      var line := ClassifyLine(lines[i]);
      ManifestStep(entries, i, retval);
      match line {
        case Blank =>
        case Pair(h, path) =>
          retval := retval[path := h];
        case Malformed =>
          ManifestErrExtends(entries, i + 1);
          return Err(ValueError);
      }
      i := i + 1;
    }
    assert entries[..i] == entries;
    r := Ok(retval);
  }

  /** One HTTP response: whether `raise_for_status` lets it through, its body, and its declared `content-length` */
  datatype Response = Response(ok: bool, body: string, contentLength: nat)

  /** The body is as long as the header declares. */
  predicate Complete(resp: Response) { |resp.body| == resp.contentLength }

  /**
   * `get_url`: up to three attempts; an HTTP error status raises at once, a
   * body whose length differs from `content-length` is retried, and three
   * short bodies raise ValueError.  `respond(k)` is the answer to attempt `k`.
   */
  method GetUrl(respond: nat -> Response) returns (r: Result<string>, attempts: nat)
    ensures 1 <= attempts <= 3
    ensures forall k :: 0 <= k < attempts - 1 ==> respond(k).ok && !Complete(respond(k))
    ensures r.Ok? <==> respond(attempts - 1).ok && Complete(respond(attempts - 1))
    ensures r.Ok? ==> r.value == respond(attempts - 1).body
    ensures r == Err(HttpError) <==> !respond(attempts - 1).ok
    ensures r == Err(ValueError) <==> respond(attempts - 1).ok && !Complete(respond(attempts - 1))
    ensures r == Err(ValueError) ==> attempts == 3
    ensures r.Ok? || r == Err(HttpError) || r == Err(ValueError)
  {
    attempts := 0;
    while attempts < 3
      invariant 0 <= attempts <= 3
      invariant forall k :: 0 <= k < attempts ==> respond(k).ok && !Complete(respond(k))
    {
      var resp := respond(attempts);
      attempts := attempts + 1;
      if !resp.ok {
        return Err(HttpError), attempts;
      }
      if !Complete(resp) {
        continue;
      }
      return Ok(resp.body), attempts;
    }
    r := Err(ValueError);
  }
}
