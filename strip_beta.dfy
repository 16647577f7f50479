/**
 * `strip_beta.py`: remove one beta release from a release blob.  Every
 * locale's partials lose the entries whose `from` contains the beta's name,
 * and every channel's `partials` in `fileUrls` loses the key equal to it.
 *
 * The locale loop removes entries from the very list it iterates over, so
 * it is modelled with Python's list iterator: an index that advances by one
 * per step over the current list, and `list.remove(x)`, which deletes the
 * first element equal to `x`.  After a removal the entry that moves into
 * the removed one's place is not examined.
 */
module StripBeta {
  import opened Wrappers
  import opened Text
  import opened ReleaseBlob

  /** `part['from']` contains the beta's name (`args.beta in part['from']`) */
  predicate Matches(e: Entry, beta: string) { Contains(e.from, beta) }

  /** `list.remove(x)`: the first element equal to `x` deleted (`x` is always present here) */
  function RemoveFirst(s: seq<Entry>, x: Entry): (r: seq<Entry>)
    ensures x in s ==> |r| == |s| - 1
    ensures x !in s ==> r == s
  {
    if s == [] then []
    else if s[0] == x then s[1..]
    else [s[0]] + RemoveFirst(s[1..], x)
  }

  /** When nothing before index `k` equals `s[k]`, `remove(s[k])` deletes index `k`. */
  lemma {:induction false} RemoveFirstAt(s: seq<Entry>, k: nat)
    requires k < |s| && s[k] !in s[..k]
    ensures RemoveFirst(s, s[k]) == s[..k] + s[k + 1..]
  {
    if k > 0 {
      var t := s[1..];
      assert s[0] in s[..k];
      assert t[..k - 1] == s[..k][1..];
      assert t[k - 1] == s[k];
      RemoveFirstAt(t, k - 1);
      assert RemoveFirst(s, s[k]) == [s[0]] + (t[..k - 1] + t[k..]);
      assert t[k..] == s[k + 1..];
      assert s[..k] == [s[0]] + t[..k - 1];
    }
  }

  /**
   * `for part in partials: if beta in part['from']: partials.remove(part)`,
   * from iterator position `i` on: the entry at `i` is examined, the
   * position advances, and a matching entry is removed.
   */
  function Sweep(s: seq<Entry>, i: nat, beta: string): seq<Entry>
    decreases |s| - i
  {
    if i >= |s| then s
    else if Matches(s[i], beta) then Sweep(RemoveFirst(s, s[i]), i + 1, beta)
    else Sweep(s, i + 1, beta)
  }

  /** The entries that do not match, in order: what an ideal filter would keep */
  function Unmatched(s: seq<Entry>, beta: string): seq<Entry> {
    if s == [] then []
    else (if Matches(s[0], beta) then [] else [s[0]]) + Unmatched(s[1..], beta)
  }

  /** Removing a matching entry leaves the unmatched entries as they were. */
  lemma {:induction false} UnmatchedRemoveFirst(s: seq<Entry>, x: Entry, beta: string)
    requires Matches(x, beta)
    ensures Unmatched(RemoveFirst(s, x), beta) == Unmatched(s, beta)
  {
    if s != [] && s[0] != x {
      UnmatchedRemoveFirst(s[1..], x, beta);
      assert ([s[0]] + RemoveFirst(s[1..], x))[1..] == RemoveFirst(s[1..], x);
    }
  }

  /**
   * An entry whose `from` does not contain the beta is never removed, and
   * the survivors keep their order: the unmatched entries of the result are
   * exactly those of the input.
   */
  lemma {:induction false} SweepKeepsUnmatched(s: seq<Entry>, i: nat, beta: string)
    ensures Unmatched(Sweep(s, i, beta), beta) == Unmatched(s, beta)
    decreases |s| - i
  {
    if i < |s| {
      if Matches(s[i], beta) {
        UnmatchedRemoveFirst(s, s[i], beta);
        SweepKeepsUnmatched(RemoveFirst(s, s[i]), i + 1, beta);
      } else {
        SweepKeepsUnmatched(s, i + 1, beta);
      }
    }
  }

  /** No entry of `s` matches */
  predicate NoneMatch(s: seq<Entry>, beta: string) {
    forall k :: 0 <= k < |s| ==> !Matches(s[k], beta)
  }

  /** No two neighbours of `s` both match */
  predicate NoAdjacentMatches(s: seq<Entry>, beta: string) {
    forall k :: 0 <= k < |s| - 1 ==> !(Matches(s[k], beta) && Matches(s[k + 1], beta))
  }

  /**
   * The sweep from position `i` leaves no matching entry when nothing before
   * `i` matches and no two neighbours from `i` on both match.
   */
  lemma {:induction false} SweepCleans(s: seq<Entry>, i: nat, beta: string)
    requires i <= |s| ==> NoneMatch(s[..i], beta) && NoAdjacentMatches(s[i..], beta)
    requires i > |s| ==> NoneMatch(s, beta)
    ensures NoneMatch(Sweep(s, i, beta), beta)
    decreases |s| - i
  {
    if i >= |s| {
      if i == |s| {
        assert s[..i] == s;
      }
    } else if Matches(s[i], beta) {
      RemoveFirstAt(s, i);
      CleanAfterRemoval(s, i, beta);
      SweepCleans(s[..i] + s[i + 1..], i + 1, beta);
    } else {
      CleanAfterKeep(s, i, beta);
      SweepCleans(s, i + 1, beta);
    }
  }

  /** Removing the matching entry at `i` skips its neighbour, which does not match. */
  lemma CleanAfterRemoval(s: seq<Entry>, i: nat, beta: string)
    requires i < |s| && Matches(s[i], beta)
    requires NoneMatch(s[..i], beta) && NoAdjacentMatches(s[i..], beta)
    ensures s[i] !in s[..i]
    ensures var t := s[..i] + s[i + 1..];
      && (i + 1 <= |t| ==> NoneMatch(t[..i + 1], beta) && NoAdjacentMatches(t[i + 1..], beta))
      && (i + 1 > |t| ==> NoneMatch(t, beta))
  {
    var t := s[..i] + s[i + 1..];
    if i + 1 <= |t| {
      assert !Matches(s[i + 1], beta) by {
        assert s[i..][0] == s[i] && s[i..][1] == s[i + 1];
      }
      assert t[..i + 1] == s[..i] + [s[i + 1]];
      assert t[i + 1..] == s[i..][2..];
    } else {
      assert t == s[..i];
    }
  }

  /** Passing over an entry that does not match keeps the sweep's precondition. */
  lemma CleanAfterKeep(s: seq<Entry>, i: nat, beta: string)
    requires i < |s| && !Matches(s[i], beta)
    requires NoneMatch(s[..i], beta) && NoAdjacentMatches(s[i..], beta)
    ensures NoneMatch(s[..i + 1], beta) && NoAdjacentMatches(s[i + 1..], beta)
  {
    assert s[..i + 1] == s[..i] + [s[i]];
    assert s[i + 1..] == s[i..][1..];
  }

  /** Hence a list with no two neighbouring matches ends with no match at all. */
  lemma SweepCleansAll(s: seq<Entry>, beta: string)
    requires NoAdjacentMatches(s, beta)
    ensures NoneMatch(Sweep(s, 0, beta), beta)
  {
    assert s[0..] == s;
    SweepCleans(s, 0, beta);
  }

  /**
   * Two neighbouring matches: the second moves into the first one's place
   * after its removal, is never examined, and survives.
   */
  lemma SweepSkipsNeighbour()
    ensures var a := Entry("Firefox-56.0b12-build1", Some("aa"), None, map[]);
      var b := Entry("Firefox-56.0b12-build1", Some("bb"), None, map[]);
      && Matches(a, "Firefox-56.0b12-build1") && Matches(b, "Firefox-56.0b12-build1")
      && Sweep([a, b], 0, "Firefox-56.0b12-build1") == [b]
  {
    var a := Entry("Firefox-56.0b12-build1", Some("aa"), None, map[]);
    var b := Entry("Firefox-56.0b12-build1", Some("bb"), None, map[]);
    assert StartsWith(a.from, "Firefox-56.0b12-build1");
    assert RemoveFirst([a, b], a) == [b];
  }

  /**
   * `remove` deletes the first entry equal to the one examined, not the one
   * examined: of two equal matches with a non-match between them, the later
   * is examined but the earlier is deleted, so the order changes.
   */
  lemma SweepRemovesFirstEqual()
    ensures var m := Entry("Firefox-56.0b12-build1", Some("mm"), None, map[]);
      var a := Entry("Firefox-56.0b12-build1", Some("aa"), None, map[]);
      var x := Entry("Firefox-55.0-build3", Some("xx"), None, map[]);
      Sweep([m, a, x, a], 0, "Firefox-56.0b12-build1") == [x, a]
  {
    var beta := "Firefox-56.0b12-build1";
    var m := Entry(beta, Some("mm"), None, map[]);
    var a := Entry(beta, Some("aa"), None, map[]);
    var x := Entry("Firefox-55.0-build3", Some("xx"), None, map[]);
    assert StartsWith(m.from, beta) && StartsWith(a.from, beta);
    assert !Contains(x.from, beta) by {
      NotContainsLonger(x.from, beta);
    }
    assert Matches(m, beta) && Matches(a, beta) && !Matches(x, beta);
    calc {
      Sweep([m, a, x, a], 0, beta);
      { assert RemoveFirst([m, a, x, a], m) == [a, x, a]; }
      Sweep([a, x, a], 1, beta);
      Sweep([a, x, a], 2, beta);
      { assert [a, x, a][2] == a && RemoveFirst([a, x, a], a) == [x, a]; }
      Sweep([x, a], 3, beta);
    }
  }

  /** The loop of lines 32-34 over the locale's own list */
  method StripPartials(partials: seq<Entry>, beta: string) returns (r: seq<Entry>)
    ensures r == Sweep(partials, 0, beta)
  {
    r := partials;
    var i := 0;
    while i < |r|
      invariant Sweep(r, i, beta) == Sweep(partials, 0, beta)
      decreases |r| - i
    {
      var part := r[i];
      i := i + 1;
      if Contains(part.from, beta) {
        r := RemoveFirst(r, part);
      }
    }
  }

  /** A locale with a `partials` key has its list swept; one without is kept */
  function StrippedLocale(locale: Locale, beta: string): Locale {
    match locale.partials
    case None => locale
    case Some(ps) => locale.(partials := Some(Sweep(ps, 0, beta)))
  }

  /** A platform with `locales` has each locale stripped; one without is kept */
  function StrippedPlatform(platform: Platform, beta: string): Platform {
    match platform.locales
    case None => platform
    case Some(ls) => platform.(locales := Some(map l | l in ls :: StrippedLocale(ls[l], beta)))
  }

  /** `for l in blob['platforms'][p]['locales'].keys(): if 'partials' in ...: ...` */
  method StripLocales(locales: map<string, Locale>, beta: string) returns (r: map<string, Locale>)
    ensures r == map l | l in locales :: StrippedLocale(locales[l], beta)
  {
    r := locales;
    var todo := locales.Keys;
    while todo != {}
      invariant todo <= locales.Keys && r.Keys == locales.Keys
      invariant forall l :: l in todo ==> r[l] == locales[l]
      invariant forall l :: l in locales && l !in todo ==> r[l] == StrippedLocale(locales[l], beta)
      decreases |todo|
    {
      var l :| l in todo;
      if r[l].partials.Some? {
        var partials := StripPartials(r[l].partials.value, beta);
        r := r[l := r[l].(partials := Some(partials))];
      }
      todo := todo - {l};
    }
  }

  /** `for p in blob['platforms'].keys(): if 'locales' in ...: ...` */
  method StripPlatforms(platforms: map<string, Platform>, beta: string) returns (r: map<string, Platform>)
    ensures r == map p | p in platforms :: StrippedPlatform(platforms[p], beta)
  {
    r := platforms;
    var todo := platforms.Keys;
    while todo != {}
      invariant todo <= platforms.Keys && r.Keys == platforms.Keys
      invariant forall p :: p in todo ==> r[p] == platforms[p]
      invariant forall p :: p in platforms && p !in todo ==> r[p] == StrippedPlatform(platforms[p], beta)
      decreases |todo|
    {
      var p :| p in todo;
      if r[p].locales.Some? {
        var locales := StripLocales(r[p].locales.value, beta);
        r := r[p := r[p].(locales := Some(locales))];
      }
      todo := todo - {p};
    }
  }

  /** Every channel has `partials` */
  predicate AllHavePartials(fileUrls: FileUrls) {
    forall c :: c in fileUrls ==> "partials" in fileUrls[c]
  }

  /**
   * `del blob['fileUrls'][k]['partials'][beta]` where present, in every
   * channel; None is the KeyError of a channel without `partials`.
   */
  function StrippedFileUrls(fileUrls: FileUrls, beta: string): Option<FileUrls> {
    if !AllHavePartials(fileUrls) then None
    else Some(map c | c in fileUrls :: StrippedChannel(fileUrls[c], beta))
  }

  /** One channel: the beta's key gone from its `partials` */
  function StrippedChannel(updates: Updates, beta: string): Updates
    requires "partials" in updates
  {
    updates["partials" := updates["partials"] - {beta}]
  }

  /** `if args.beta in ...['partials'].keys(): del ...['partials'][args.beta]` */
  method StripChannel(updates: Updates, beta: string) returns (r: Updates)
    requires "partials" in updates
    ensures r == StrippedChannel(updates, beta)
  {
    var partials := updates["partials"];
    if beta in partials {
      partials := partials - {beta};
    } else {
      assert partials == partials - {beta};
    }
    r := updates["partials" := partials];
  }

  /** Lines 37-39 */
  method StripFileUrls(fileUrls: FileUrls, beta: string) returns (r: Option<FileUrls>)
    ensures r == StrippedFileUrls(fileUrls, beta)
  {
    var acc := fileUrls;
    var todo := fileUrls.Keys;
    while todo != {}
      invariant todo <= fileUrls.Keys && acc.Keys == fileUrls.Keys
      invariant forall c :: c in todo ==> acc[c] == fileUrls[c]
      invariant forall c :: c in fileUrls && c !in todo ==>
        "partials" in fileUrls[c] && acc[c] == StrippedChannel(fileUrls[c], beta)
      decreases |todo|
    {
      var c :| c in todo;
      if "partials" !in acc[c] {
        assert !AllHavePartials(fileUrls);
        return None;
      }
      var updates := StripChannel(acc[c], beta);
      acc := acc[c := updates];
      todo := todo - {c};
    }
    StrippedFileUrlsOf(fileUrls, beta, acc);
    r := Some(acc);
  }

  /** A map that holds every channel stripped is the stripped `fileUrls`. */
  lemma StrippedFileUrlsOf(fileUrls: FileUrls, beta: string, acc: FileUrls)
    requires acc.Keys == fileUrls.Keys
    requires forall c :: c in fileUrls ==> "partials" in fileUrls[c] && acc[c] == StrippedChannel(fileUrls[c], beta)
    ensures StrippedFileUrls(fileUrls, beta) == Some(acc)
  {
    assert acc == map c | c in fileUrls :: StrippedChannel(fileUrls[c], beta);
  }

  /** The blob written, or None for a channel without `partials` */
  function Stripped(blob: Blob, beta: string): Option<Blob> {
    match StrippedFileUrls(blob.fileUrls, beta)
    case None => None
    case Some(fileUrls) =>
      Some(blob.(platforms := map p | p in blob.platforms :: StrippedPlatform(blob.platforms[p], beta),
                 fileUrls := fileUrls))
  }

  /** The `__main__` block between loading and writing the blob */
  method Strip(blob: Blob, beta: string) returns (r: Option<Blob>)
    ensures r == Stripped(blob, beta)
  {
    var platforms := StripPlatforms(blob.platforms, beta);
    var fileUrls := StripFileUrls(blob.fileUrls, beta);
    if fileUrls.None? {
      return None;
    }
    r := Some(blob.(platforms := platforms, fileUrls := fileUrls.value));
  }

  /**
   * The run fails exactly when a channel lacks `partials`.  Otherwise the
   * name, every platform, locale and channel stay, platforms without
   * locales and locales without partials are unchanged, completes are kept,
   * and a partial not matching the beta is never removed.
   */
  lemma StrippedPlatformsShape(blob: Blob, beta: string, p: string, l: string)
    ensures Stripped(blob, beta).None? <==> exists c :: c in blob.fileUrls && "partials" !in blob.fileUrls[c]
    ensures Stripped(blob, beta).Some? ==>
      var r := Stripped(blob, beta).value;
      && r.name == blob.name && r.actions == blob.actions && r.openUrl == blob.openUrl
      && r.platforms.Keys == blob.platforms.Keys
      && r.fileUrls == StrippedFileUrls(blob.fileUrls, beta).value
      && (p in blob.platforms ==>
            && r.platforms[p] == blob.platforms[p].(locales := r.platforms[p].locales)
            && (blob.platforms[p].locales.None? ==> r.platforms[p] == blob.platforms[p])
            && (blob.platforms[p].locales.Some? ==>
                  var before := blob.platforms[p].locales.value;
                  && r.platforms[p].locales.Some? && r.platforms[p].locales.value.Keys == before.Keys
                  && (l in before ==>
                        var after := r.platforms[p].locales.value[l];
                        && after.completes == before[l].completes
                        && (before[l].partials.None? ==> after == before[l])
                        && (before[l].partials.Some? ==>
                              after.partials.Some? &&
                              Unmatched(after.partials.value, beta) == Unmatched(before[l].partials.value, beta)))))
  {
    if Stripped(blob, beta).Some? && p in blob.platforms && blob.platforms[p].locales.Some? {
      var before := blob.platforms[p].locales.value;
      if l in before && before[l].partials.Some? {
        SweepKeepsUnmatched(before[l].partials.value, 0, beta);
      }
    }
  }

  /**
   * Channels are never deleted: every channel keeps its update types, its
   * other update types are unchanged, and its `partials` lose exactly the
   * key equal to the beta.
   */
  lemma StrippedFileUrlsShape(fileUrls: FileUrls, beta: string, c: string)
    requires StrippedFileUrls(fileUrls, beta).Some?
    ensures var r := StrippedFileUrls(fileUrls, beta).value;
      && r.Keys == fileUrls.Keys
      && (c in fileUrls ==>
            && r[c].Keys == fileUrls[c].Keys
            && (forall t :: t in fileUrls[c] && t != "partials" ==> r[c][t] == fileUrls[c][t])
            && r[c]["partials"].Keys == fileUrls[c]["partials"].Keys - {beta}
            && forall v :: v in r[c]["partials"] ==> r[c]["partials"][v] == fileUrls[c]["partials"][v])
  {
  }
}
