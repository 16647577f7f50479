/**
 * The whole of `transform_balrog_blob.py` after the release blob is
 * downloaded: rename, rewrite the complete URLs to their bz2 variants,
 * fill in sizes and hashes checked against the SHA512SUMS manifest, prune
 * the beta partials, and optionally add the what's-new page.  The manifest
 * text and the download function are parameters; any exception the script
 * would raise is None.
 */
module Bz2Migration {
  import opened Wrappers
  import opened Text
  import opened BetaVersions
  import opened ReleaseBlob
  import opened ChecksumUrls
  import opened Checksums
  import opened Bz2Rewrite
  import opened Bz2Fill
  import opened Bz2Prune

  const WnpAction := "showURL"
  const WnpUrl := "https://www.mozilla.org/%LOCALE%/firefox/56.0/whatsnew/?oldversion=%OLD_VERSION%"

  /** `blob['name'] += '-bz2'`, then `'-WNP'` with `--wnp` */
  function MigratedName(name: string, wnp: bool): string {
    name + "-bz2" + (if wnp then "-WNP" else "")
  }

  /** `get_url_size_hash(url, hashes)` with the download made by `fetch` */
  function Lookup(fetch: string -> Result<string>, hashes: map<string, string>): string -> Result<(nat, string)> {
    u => UrlSizeHash(u, fetch, hashes)
  }

  /** The blob the script writes, or None when it stops with an exception */
  function Transformed(blob: Blob, wnp: bool, sums: string, fetch: string -> Result<string>): Option<Blob> {
    match RewrittenFileUrls(blob.fileUrls)
    case None => None
    case Some(fileUrls) =>
      match ManifestOf(Classified(SplitLines(sums)))
      case Err(_) => None
      case Ok(hashes) =>
        match FilledPlatforms(blob.platforms, TemplateUrl(fileUrls), Lookup(fetch, hashes))
        case None => None
        case Some(platforms) =>
          match PrunedFileUrls(fileUrls)
          case None => None
          case Some(pruned) =>
            Some(Blob(MigratedName(blob.name, wnp), PrunedPlatforms(platforms), pruned,
                      if wnp then Some(WnpAction) else blob.actions,
                      if wnp then Some(WnpUrl) else blob.openUrl))
  }

  /** The `__main__` block from the rename to the what's-new settings */
  method Transform(blob: Blob, wnp: bool, sums: string, fetch: string -> Result<string>) returns (r: Option<Blob>)
    ensures r == Transformed(blob, wnp, sums, fetch)
  {
    var name := MigratedName(blob.name, wnp);
    var fileUrls := RewriteFileUrls(blob.fileUrls);
    if fileUrls.None? {
      return None;
    }
    var hashes := ParseManifest(sums);
    if hashes.Err? {
      return None;
    }
    var platforms := FillPlatforms(blob.platforms, TemplateUrl(fileUrls.value), Lookup(fetch, hashes.value));
    if platforms.None? {
      return None;
    }
    var pruned := PrunePlatforms(platforms.value);
    var prunedUrls := PruneFileUrls(fileUrls.value);
    if prunedUrls.None? {
      return None;
    }
    var actions, openUrl := blob.actions, blob.openUrl;
    if wnp {
      actions, openUrl := Some(WnpAction), Some(WnpUrl);
    }
    r := Some(Blob(name, pruned, prunedUrls.value, actions, openUrl));
  }

  /** A finished run renames the blob and sets the what's-new fields exactly when asked. */
  lemma TransformedNameAndActions(blob: Blob, wnp: bool, sums: string, fetch: string -> Result<string>)
    ensures Transformed(blob, wnp, sums, fetch).Some? ==>
      var r := Transformed(blob, wnp, sums, fetch).value;
      && (wnp ==> r.name == blob.name + "-bz2" + "-WNP" && r.actions == Some("showURL") && r.openUrl == Some(WnpUrl))
      && (!wnp ==> r.name == blob.name + "-bz2" && r.actions == blob.actions && r.openUrl == blob.openUrl)
  {
    assert blob.name + "-bz2" + "" == blob.name + "-bz2";
  }

  /** A finished run keeps every platform. */
  lemma TransformedPlatforms(blob: Blob, wnp: bool, sums: string, fetch: string -> Result<string>)
    ensures Transformed(blob, wnp, sums, fetch).Some? ==>
      Transformed(blob, wnp, sums, fetch).value.platforms.Keys == blob.platforms.Keys
  {
    if Transformed(blob, wnp, sums, fetch).None? {
      return;
    }
    var fileUrls := RewrittenFileUrls(blob.fileUrls).value;
    var hashes := ManifestOf(Classified(SplitLines(sums))).value;
    var platforms := FilledPlatforms(blob.platforms, TemplateUrl(fileUrls), Lookup(fetch, hashes)).value;
    assert PrunedPlatforms(platforms).Keys == platforms.Keys;
  }

  /**
   * A finished run keeps exactly the channels whose names do not contain
   * `beta`; each of them has `partials`, holding exactly its non-beta
   * versions with their URLs as they were.
   */
  lemma TransformedChannels(blob: Blob, wnp: bool, sums: string, fetch: string -> Result<string>, c: string, v: string)
    ensures Transformed(blob, wnp, sums, fetch).Some? ==>
      (c in Transformed(blob, wnp, sums, fetch).value.fileUrls <==> c in blob.fileUrls && !Contains(c, "beta"))
    ensures Transformed(blob, wnp, sums, fetch).Some? && c in Transformed(blob, wnp, sums, fetch).value.fileUrls ==>
      var after := Transformed(blob, wnp, sums, fetch).value.fileUrls[c];
      && "partials" in blob.fileUrls[c] && "partials" in after
      && (v in after["partials"] <==> v in blob.fileUrls[c]["partials"] && !IsBetaVersion(v))
      && (v in after["partials"] ==> after["partials"][v] == blob.fileUrls[c]["partials"][v])
  {
    if Transformed(blob, wnp, sums, fetch).None? {
      return;
    }
    var fileUrls := RewrittenFileUrls(blob.fileUrls).value;
    PrunedFileUrlsShape(fileUrls, c, v);
    if c in blob.fileUrls && !Contains(c, "beta") {
      assert "partials" in fileUrls[c];
      RewrittenFileUrlsShape(blob.fileUrls, c, "partials", v);
    }
  }

  /**
   * The run stops exactly when a URL cannot be rewritten, the manifest has a
   * line without whitespace, a complete's size and hash cannot be found, or
   * a channel without `beta` in its name has no `partials`.
   */
  lemma TransformedFails(blob: Blob, wnp: bool, sums: string, fetch: string -> Result<string>)
    ensures Transformed(blob, wnp, sums, fetch).None? <==>
      || RewrittenFileUrls(blob.fileUrls).None?
      || ManifestOf(Classified(SplitLines(sums))).Err?
      || FilledPlatforms(blob.platforms, TemplateUrl(RewrittenFileUrls(blob.fileUrls).value),
                         Lookup(fetch, ManifestOf(Classified(SplitLines(sums))).value)).None?
      || !KeptHavePartials(RewrittenFileUrls(blob.fileUrls).value)
  {
  }

  /**
   * After a finished run, each complete of a locale carries the size and
   * the hash of the beetmover fragment for the locale's URL, the manifest
   * lists that hash for the fragment's path, and the locale's partials are
   * exactly the non-beta partials it had.
   */
  lemma TransformedLocale(blob: Blob, wnp: bool, sums: string, fetch: string -> Result<string>,
                          p: string, l: string, i: nat, e: Entry)
    requires p in blob.platforms && blob.platforms[p].locales.Some? && l in blob.platforms[p].locales.value
    ensures Transformed(blob, wnp, sums, fetch).Some? ==>
      var r := Transformed(blob, wnp, sums, fetch).value;
      var before := blob.platforms[p].locales.value[l];
      && r.platforms[p].locales.Some? && l in r.platforms[p].locales.value
      && var after := r.platforms[p].locales.value[l];
      && |after.completes| == |before.completes|
      && (before.partials.Some? <==> after.partials.Some?)
      && (before.partials.Some? ==> (e in after.partials.value <==> e in before.partials.value && !IsBetaVersion(e.from)))
      && (i < |before.completes| ==>
            var fileUrls := RewrittenFileUrls(blob.fileUrls).value;
            var hashes := ManifestOf(Classified(SplitLines(sums))).value;
            var url := CompleteUrl(TemplateUrl(fileUrls), blob.platforms[p], l);
            && url.Some? && UrlSizeHash(url.value, fetch, hashes).Ok?
            && var sh := UrlSizeHash(url.value, fetch, hashes).value;
            && after.completes[i] == WithSizeHash(before.completes[i], sh.0, sh.1)
            && fetch(BeetmoverUrl(url.value)).Ok?
            && var beet := ParseBeetmoverData(fetch(BeetmoverUrl(url.value)).value);
            && beet.Ok? && beet.value.path in hashes && hashes[beet.value.path] == beet.value.hash == sh.1
            && sh.0 == DecimalValue(beet.value.size))
  {
    if Transformed(blob, wnp, sums, fetch).None? {
      return;
    }
    var fileUrls := RewrittenFileUrls(blob.fileUrls).value;
    var hashes := ManifestOf(Classified(SplitLines(sums))).value;
    var lookup := Lookup(fetch, hashes);
    var template := TemplateUrl(fileUrls);
    var platforms := FilledPlatforms(blob.platforms, template, lookup).value;
    var platform := blob.platforms[p];
    FilledPlatformShape(platform, template, lookup);
    var before := platform.locales.value[l];
    FilledLocaleShape(l, before, platform, template, lookup);
    var filled := platforms[p].locales.value[l];
    PrunedPlatformsShape(platforms, p, l, e);
    if i < |before.completes| {
      var url := CompleteUrl(template, platform, l);
      assert lookup(url.value) == UrlSizeHash(url.value, fetch, hashes);
    }
  }

  /** No locale partial of the migrated blob is from a beta. */
  lemma TransformedNoBetaPartials(blob: Blob, wnp: bool, sums: string, fetch: string -> Result<string>,
                                  p: string, l: string, k: nat)
    ensures var t := Transformed(blob, wnp, sums, fetch);
      t.Some? && p in t.value.platforms && t.value.platforms[p].locales.Some? && l in t.value.platforms[p].locales.value
      && t.value.platforms[p].locales.value[l].partials.Some? && k < |t.value.platforms[p].locales.value[l].partials.value|
      ==> !IsBetaVersion(t.value.platforms[p].locales.value[l].partials.value[k].from)
  {
    var t := Transformed(blob, wnp, sums, fetch);
    if !(t.Some? && p in t.value.platforms && t.value.platforms[p].locales.Some? && l in t.value.platforms[p].locales.value
         && t.value.platforms[p].locales.value[l].partials.Some? && k < |t.value.platforms[p].locales.value[l].partials.value|) {
      return;
    }
    var fileUrls := RewrittenFileUrls(blob.fileUrls).value;
    var hashes := ManifestOf(Classified(SplitLines(sums))).value;
    var platforms := FilledPlatforms(blob.platforms, TemplateUrl(fileUrls), Lookup(fetch, hashes)).value;
    assert t.value.platforms == PrunedPlatforms(platforms);
    var e := t.value.platforms[p].locales.value[l].partials.value[k];
    PrunedPlatformsShape(platforms, p, l, e);
  }
}
