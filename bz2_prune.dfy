/**
 * The third pass of `transform_balrog_blob.py`: beta releases are no longer
 * offered as the source of a partial update.  Locale partials from a beta
 * are filtered out, channels whose name contains `beta` are dropped, and
 * the beta versions are deleted from every other channel's `partials`.
 */
module Bz2Prune {
  import opened Wrappers
  import opened Text
  import opened BetaVersions
  import opened ReleaseBlob

  /** `[d for d in partials if not is_a_beta_version(d['from'])]` */
  function NonBeta(ds: seq<Entry>): seq<Entry> {
    if ds == [] then []
    else (if IsBetaVersion(ds[0].from) then [] else [ds[0]]) + NonBeta(ds[1..])
  }

  /** An entry survives exactly when it was there and is not from a beta. */
  lemma {:induction false} NonBetaMembers(ds: seq<Entry>, e: Entry)
    ensures e in NonBeta(ds) <==> e in ds && !IsBetaVersion(e.from)
  {
    if ds != [] {
      NonBetaMembers(ds[1..], e);
      assert ds == [ds[0]] + ds[1..];
    }
  }

  /** Filtering distributes over concatenation: the survivors keep their relative order. */
  lemma {:induction false} NonBetaAppend(a: seq<Entry>, b: seq<Entry>)
    ensures NonBeta(a + b) == NonBeta(a) + NonBeta(b)
  {
    if a == [] {
      assert a + b == b;
    } else {
      var head := if IsBetaVersion(a[0].from) then [] else [a[0]];
      assert (a + b)[0] == a[0] && (a + b)[1..] == a[1..] + b;
      NonBetaAppend(a[1..], b);
      calc {
        NonBeta(a + b);
        head + NonBeta(a[1..] + b);
        head + (NonBeta(a[1..]) + NonBeta(b));
        (head + NonBeta(a[1..])) + NonBeta(b);
        NonBeta(a) + NonBeta(b);
      }
    }
  }

  /** A list with no beta entry is kept whole. */
  lemma {:induction false} NonBetaKeepsAll(ds: seq<Entry>)
    requires forall i :: 0 <= i < |ds| ==> !IsBetaVersion(ds[i].from)
    ensures NonBeta(ds) == ds
  {
    if ds != [] {
      NonBetaKeepsAll(ds[1..]);
    }
  }

  /** `if locale_data.get('partials'):` a missing or empty list is left alone */
  function PrunedLocale(locale: Locale): Locale {
    if locale.partials.Some? && locale.partials.value != [] then
      locale.(partials := Some(NonBeta(locale.partials.value)))
    else locale
  }

  /** Every locale of one platform pruned */
  function PrunedLocales(locales: map<string, Locale>): map<string, Locale> {
    map l | l in locales :: PrunedLocale(locales[l])
  }

  /** A platform without `locales` is skipped */
  function PrunedPlatform(platform: Platform): Platform {
    match platform.locales
    case None => platform
    case Some(ls) => platform.(locales := Some(PrunedLocales(ls)))
  }

  /** Every platform pruned */
  function PrunedPlatforms(platforms: map<string, Platform>): map<string, Platform> {
    map p | p in platforms :: PrunedPlatform(platforms[p])
  }

  /**
   * After the pass every platform and locale is still there with the same
   * completes, alias and OS names; no partial comes from a beta; a partial
   * is kept exactly when it was there and is not from a beta; and a locale
   * with missing or empty partials is unchanged.
   */
  lemma PrunedPlatformsShape(platforms: map<string, Platform>, p: string, l: string, e: Entry)
    requires p in platforms
    ensures var r := PrunedPlatforms(platforms);
      && r.Keys == platforms.Keys
      && r[p].alias == platforms[p].alias && r[p].osBouncer == platforms[p].osBouncer && r[p].osFtp == platforms[p].osFtp
      && (platforms[p].locales.None? ==> r[p] == platforms[p])
    ensures platforms[p].locales.Some? && l in platforms[p].locales.value ==>
      var r := PrunedPlatforms(platforms);
      var before := platforms[p].locales.value[l];
      && r[p].locales.Some? && r[p].locales.value.Keys == platforms[p].locales.value.Keys
      && var after := r[p].locales.value[l];
      && after.completes == before.completes
      && (before.partials.None? || before.partials == Some([]) ==> after == before)
      && (before.partials.Some? ==> after.partials.Some?)
      && (before.partials.Some? ==>
            (e in after.partials.value <==> e in before.partials.value && !IsBetaVersion(e.from)))
  {
    var ps := platforms[p];
    if ps.locales.Some? && l in ps.locales.value {
      var before := ps.locales.value[l];
      if before.partials.Some? && before.partials.value != [] {
        NonBetaMembers(before.partials.value, e);
      }
    }
  }

  /** `for locale_name, locale_data in platform_data['locales'].iteritems(): ...` */
  method PruneLocales(locales: map<string, Locale>) returns (r: map<string, Locale>)
    ensures r == PrunedLocales(locales)
  {
    r := locales;
    var todo := locales.Keys;
    while todo != {}
      invariant todo <= locales.Keys && r.Keys == locales.Keys
      invariant forall l :: l in todo ==> r[l] == locales[l]
      invariant forall l :: l in locales && l !in todo ==> r[l] == PrunedLocale(locales[l])
      decreases |todo|
    {
      var l :| l in todo;
      var partials := r[l].partials;
      if partials.Some? && partials.value != [] {
        r := r[l := r[l].(partials := Some(NonBeta(partials.value)))];
      }
      todo := todo - {l};
    }
  }

  /** `for platform_name, platform_data in blob['platforms'].iteritems()`, skipping a platform without locales */
  method PrunePlatforms(platforms: map<string, Platform>) returns (r: map<string, Platform>)
    ensures r == PrunedPlatforms(platforms)
  {
    r := platforms;
    var todo := platforms.Keys;
    while todo != {}
      invariant todo <= platforms.Keys && r.Keys == platforms.Keys
      invariant forall p :: p in todo ==> r[p] == platforms[p]
      invariant forall p :: p in platforms && p !in todo ==> r[p] == PrunedPlatform(platforms[p])
      decreases |todo|
    {
      var p :| p in todo;
      if r[p].locales.Some? {
        var locales := PruneLocales(r[p].locales.value);
        r := r[p := r[p].(locales := Some(locales))];
      }
      todo := todo - {p};
    }
  }

  /** The versions of a `partials` map that are not betas, with their URLs */
  function PrunedPartials(urls: UrlMap): UrlMap {
    map v | v in urls && !IsBetaVersion(v) :: urls[v]
  }

  /** A channel the pass keeps */
  predicate KeptChannel(channel: string) { !Contains(channel, "beta") }

  /**
   * Channels named with `beta` dropped, every other channel's `partials`
   * pruned; None is the KeyError of a kept channel without `partials`.
   */
  function PrunedFileUrls(fileUrls: FileUrls): Option<FileUrls> {
    if !KeptHavePartials(fileUrls) then None
    else Some(map c | c in fileUrls && KeptChannel(c) :: PrunedChannel(fileUrls[c]))
  }

  /** Every kept channel has `partials` */
  predicate KeptHavePartials(fileUrls: FileUrls) {
    forall c :: c in fileUrls && KeptChannel(c) ==> "partials" in fileUrls[c]
  }

  /** A kept channel: its `partials` pruned, its other update types as they were */
  function PrunedChannel(updates: Updates): Updates
    requires "partials" in updates
  {
    updates["partials" := PrunedPartials(updates["partials"])]
  }

  /**
   * The pass fails exactly when a kept channel has no `partials`; otherwise
   * no remaining channel name contains `beta`, every other channel remains
   * with the same update types, its other update types unchanged, and its
   * `partials` holding exactly its non-beta versions with their URLs.
   */
  lemma PrunedFileUrlsShape(fileUrls: FileUrls, c: string, v: string)
    ensures var r := PrunedFileUrls(fileUrls);
      r.None? <==> exists c :: c in fileUrls && KeptChannel(c) && "partials" !in fileUrls[c]
    ensures var r := PrunedFileUrls(fileUrls);
      r.Some? ==> (c in r.value <==> c in fileUrls && !Contains(c, "beta"))
    ensures var r := PrunedFileUrls(fileUrls);
      r.Some? && c in r.value ==>
        && r.value[c].Keys == fileUrls[c].Keys
        && (forall t :: t in fileUrls[c] && t != "partials" ==> r.value[c][t] == fileUrls[c][t])
        && (v in r.value[c]["partials"] <==> v in fileUrls[c]["partials"] && !IsBetaVersion(v))
        && (v in r.value[c]["partials"] ==> r.value[c]["partials"][v] == fileUrls[c]["partials"][v])
  {
  }

  /** `for version in updates['partials'].keys(): if is_a_beta_version(version): del updates['partials'][version]` */
  method PrunePartials(urls: UrlMap) returns (r: UrlMap)
    ensures r == PrunedPartials(urls)
  {
    r := urls;
    var todo := urls.Keys;
    while todo != {}
      invariant todo <= urls.Keys && r.Keys <= urls.Keys
      invariant forall v :: v in r ==> r[v] == urls[v]
      invariant forall v :: v in todo ==> v in r
      invariant forall v :: v in urls && v !in todo ==> (v in r <==> !IsBetaVersion(v))
      decreases |todo|
    {
      var v :| v in todo;
      if IsBetaVersion(v) {
        r := r - {v};
      }
      todo := todo - {v};
    }
    assert r.Keys == PrunedPartials(urls).Keys;
  }

  /** `for channel in blob['fileUrls'].keys(): if 'beta' in channel: del ... else: ...` */
  method PruneFileUrls(fileUrls: FileUrls) returns (r: Option<FileUrls>)
    ensures r == PrunedFileUrls(fileUrls)
  {
    var acc := fileUrls;
    var todo := fileUrls.Keys;
    while todo != {}
      invariant todo <= fileUrls.Keys && acc.Keys <= fileUrls.Keys
      invariant forall c :: c in todo ==> c in acc && acc[c] == fileUrls[c]
      invariant forall c :: c in fileUrls && c !in todo ==>
        if KeptChannel(c) then "partials" in fileUrls[c] && c in acc && acc[c] == PrunedChannel(fileUrls[c])
        else c !in acc
      decreases |todo|
    {
      var c :| c in todo;
      if !KeptChannel(c) {
        acc := acc - {c};
      } else {
        if "partials" !in acc[c] {
          assert c in fileUrls && KeptChannel(c) && "partials" !in fileUrls[c];
          assert PrunedFileUrls(fileUrls) == None;
          return None;
        }
        var partials := PrunePartials(acc[c]["partials"]);
        acc := acc[c := acc[c]["partials" := partials]];
      }
      todo := todo - {c};
    }
    PrunedFileUrlsOf(fileUrls, acc);
    r := Some(acc);
  }

  /** A map that holds exactly the kept channels, each pruned, is the pruned `fileUrls`. */
  lemma PrunedFileUrlsOf(fileUrls: FileUrls, acc: FileUrls)
    requires acc.Keys <= fileUrls.Keys
    requires forall c :: c in fileUrls ==>
      if KeptChannel(c) then "partials" in fileUrls[c] && c in acc && acc[c] == PrunedChannel(fileUrls[c])
      else c !in acc
    ensures PrunedFileUrls(fileUrls) == Some(acc)
  {
    assert acc == map c | c in fileUrls && KeptChannel(c) :: PrunedChannel(fileUrls[c]);
  }
}
