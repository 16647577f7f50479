/**
 * The second pass of `transform_balrog_blob.py`: every complete entry of
 * every locale gets the `hashValue` and `filesize` of the file its URL names.
 * The URL comes from the `beta-localtest` channel's `completes['*']`
 * template with the platform's `OS_BOUNCER` and `OS_FTP` and the locale
 * filled in.  `lookup` stands for `get_url_size_hash(url, hashes)`; the
 * worker pool that runs it is not modelled, so the entries are filled in
 * turn and any failure aborts the run (None).
 */
module Bz2Fill {
  import opened Wrappers
  import opened Text
  import opened ReleaseBlob

  /** `blob['fileUrls']['beta-localtest']['completes']['*']`: None is the KeyError */
  function TemplateUrl(fileUrls: FileUrls): (r: Option<string>)
    ensures r.Some? <==> "beta-localtest" in fileUrls && "completes" in fileUrls["beta-localtest"]
                         && "*" in fileUrls["beta-localtest"]["completes"]
  {
    if "beta-localtest" in fileUrls && "completes" in fileUrls["beta-localtest"]
       && "*" in fileUrls["beta-localtest"]["completes"]
    then Some(fileUrls["beta-localtest"]["completes"]["*"])
    else None
  }

  /** The three `str.replace` calls, in the script's order */
  function ExpandTemplate(template: string, bouncer: string, ftp: string, locale: string): string {
    ReplaceAll(ReplaceAll(ReplaceAll(template, "%OS_BOUNCER%", bouncer), "%OS_FTP%", ftp), "%LOCALE%", locale)
  }

  /** A template without placeholders is used as it is. */
  lemma ExpandTemplateNoPlaceholders(template: string, bouncer: string, ftp: string, locale: string)
    requires !Contains(template, "%OS_BOUNCER%") && !Contains(template, "%OS_FTP%") && !Contains(template, "%LOCALE%")
    ensures ExpandTemplate(template, bouncer, ftp, locale) == template
  {
    ReplaceAbsent(template, "%OS_BOUNCER%", bouncer);
    ReplaceAbsent(template, "%OS_FTP%", ftp);
    ReplaceAbsent(template, "%LOCALE%", locale);
  }

  /**
   * A template whose only placeholder is one `%LOCALE%` gives each locale
   * the template with its name in that place.
   */
  lemma ExpandTemplateLocale(a: string, b: string, bouncer: string, ftp: string, locale: string)
    requires var t := a + "%LOCALE%" + b; !Contains(t, "%OS_BOUNCER%") && !Contains(t, "%OS_FTP%")
    requires !Contains((a + "%LOCALE%")[..|a| + 7], "%LOCALE%") && !Contains(b, "%LOCALE%")
    ensures ExpandTemplate(a + "%LOCALE%" + b, bouncer, ftp, locale) == a + locale + b
  {
    var t := a + "%LOCALE%" + b;
    ReplaceAbsent(t, "%OS_BOUNCER%", bouncer);
    ReplaceAbsent(t, "%OS_FTP%", ftp);
    ReplaceSplit(a, "%LOCALE%", b, locale);
    assert (a + "%LOCALE%")[..|a| + 7][..|a|] == a;
    if Contains(a, "%LOCALE%") {
      ContainsPrefix((a + "%LOCALE%")[..|a| + 7], |a|, "%LOCALE%");
    }
    ReplaceAbsent(a, "%LOCALE%", locale);
    ReplaceAbsent(b, "%LOCALE%", locale);
  }

  /** Both fields of an entry set from the download's size and hash; nothing else changes */
  function WithSizeHash(e: Entry, size: nat, hash: string): (r: Entry)
    ensures r.from == e.from && r.others == e.others && r.hashValue == Some(hash) && r.filesize == Some(size)
  {
    e.(hashValue := Some(hash), filesize := Some(size))
  }

  /** The URL of a locale's complete update, or None for a missing key */
  function CompleteUrl(template: Option<string>, platform: Platform, locale: string): (r: Option<string>)
    ensures r.Some? <==> template.Some? && platform.osBouncer.Some? && platform.osFtp.Some?
  {
    if template.None? || platform.osBouncer.None? || platform.osFtp.None? then None
    else Some(ExpandTemplate(template.value, platform.osBouncer.value, platform.osFtp.value, locale))
  }

  /**
   * One locale: with no completes nothing is looked up; otherwise every
   * complete gets the size and hash of the locale's URL.
   */
  function FilledLocale(name: string, locale: Locale, platform: Platform, template: Option<string>,
                        lookup: string -> Result<(nat, string)>): (r: Option<Locale>)
  {
    var cs := locale.completes;
    if cs == [] then Some(locale)
    else match CompleteUrl(template, platform, name)
      case None => None
      case Some(url) =>
        match lookup(url)
        case Err(_) => None
        case Ok(sh) =>
          Some(locale.(completes := seq(|cs|, i requires 0 <= i < |cs| => WithSizeHash(cs[i], sh.0, sh.1))))
  }

  /**
   * A locale without completes is kept as it is; one with completes is
   * filled exactly when its URL can be built and looked up, and then keeps
   * its partials and its number of completes, each complete carrying that
   * URL's size and hash.
   */
  lemma FilledLocaleShape(name: string, locale: Locale, platform: Platform, template: Option<string>,
                          lookup: string -> Result<(nat, string)>)
    ensures locale.completes == [] ==> FilledLocale(name, locale, platform, template, lookup) == Some(locale)
    ensures locale.completes != [] ==>
      var r := FilledLocale(name, locale, platform, template, lookup);
      var url := CompleteUrl(template, platform, name);
      && (r.Some? <==> url.Some? && lookup(url.value).Ok?)
      && (r.Some? ==>
            && r.value.partials == locale.partials && |r.value.completes| == |locale.completes|
            && forall i :: 0 <= i < |locale.completes| ==>
                 r.value.completes[i] == WithSizeHash(locale.completes[i], lookup(url.value).value.0, lookup(url.value).value.1))
  {
  }

  /** One platform: a platform without `locales` is skipped; otherwise every locale is filled */
  function FilledPlatform(platform: Platform, template: Option<string>,
                          lookup: string -> Result<(nat, string)>): (r: Option<Platform>)
  {
    match platform.locales
    case None => Some(platform)
    case Some(ls) =>
      if forall l :: l in ls ==> FilledLocale(l, ls[l], platform, template, lookup).Some? then
        Some(platform.(locales := Some(map l | l in ls :: FilledLocale(l, ls[l], platform, template, lookup).value)))
      else None
  }

  /**
   * A platform without locales is kept; one with locales fails exactly when
   * one of its locales does, and otherwise keeps its alias, its OS names and
   * its locale names, each locale filled.
   */
  lemma FilledPlatformShape(platform: Platform, template: Option<string>,
                            lookup: string -> Result<(nat, string)>)
    ensures platform.locales.None? ==> FilledPlatform(platform, template, lookup) == Some(platform)
    ensures var r := FilledPlatform(platform, template, lookup);
      r.Some? ==> r.value.alias == platform.alias && r.value.osBouncer == platform.osBouncer && r.value.osFtp == platform.osFtp
    ensures platform.locales.Some? ==>
      var r := FilledPlatform(platform, template, lookup);
      var ls := platform.locales.value;
      && (r.None? <==> exists l :: l in ls && FilledLocale(l, ls[l], platform, template, lookup).None?)
      && (r.Some? ==>
            && r.value.locales.Some? && r.value.locales.value.Keys == ls.Keys
            && forall l :: l in ls ==> FilledLocale(l, ls[l], platform, template, lookup) == Some(r.value.locales.value[l]))
  {
  }

  /** Every platform filled */
  function FilledPlatforms(platforms: map<string, Platform>, template: Option<string>,
                           lookup: string -> Result<(nat, string)>): (r: Option<map<string, Platform>>)
    ensures r.None? <==> exists p :: p in platforms && FilledPlatform(platforms[p], template, lookup).None?
    ensures r.Some? ==> r.value.Keys == platforms.Keys
    ensures r.Some? ==> forall p :: p in platforms ==> FilledPlatform(platforms[p], template, lookup) == Some(r.value[p])
  {
    if forall p :: p in platforms ==> FilledPlatform(platforms[p], template, lookup).Some? then
      Some(map p | p in platforms :: FilledPlatform(platforms[p], template, lookup).value)
    else None
  }

  /** A map holding every locale of the platform filled is what filling the platform gives. */
  lemma FilledPlatformOf(platform: Platform, template: Option<string>,
                         lookup: string -> Result<(nat, string)>, acc: map<string, Locale>)
    requires platform.locales.Some? && acc.Keys == platform.locales.value.Keys
    requires forall l :: l in platform.locales.value ==>
      FilledLocale(l, platform.locales.value[l], platform, template, lookup) == Some(acc[l])
    ensures FilledPlatform(platform, template, lookup) == Some(platform.(locales := Some(acc)))
  {
    var ls := platform.locales.value;
    assert acc == map l | l in ls :: FilledLocale(l, ls[l], platform, template, lookup).value;
  }

  /** A map holding every platform filled is what filling the platforms gives. */
  lemma FilledPlatformsOf(platforms: map<string, Platform>, template: Option<string>,
                          lookup: string -> Result<(nat, string)>, acc: map<string, Platform>)
    requires acc.Keys == platforms.Keys
    requires forall p :: p in platforms ==> FilledPlatform(platforms[p], template, lookup) == Some(acc[p])
    ensures FilledPlatforms(platforms, template, lookup) == Some(acc)
  {
    assert acc == map p | p in platforms :: FilledPlatform(platforms[p], template, lookup).value;
  }

  /** `for c in locale_data.get('completes', [])[:]: ... c['hashValue'] = hash; c['filesize'] = size` */
  method FillLocale(name: string, locale: Locale, platform: Platform, template: Option<string>,
                    lookup: string -> Result<(nat, string)>) returns (r: Option<Locale>)
    ensures r == FilledLocale(name, locale, platform, template, lookup)
  {
    var cs := locale.completes;
    var i := 0;
    while i < |cs|
      invariant 0 <= i <= |cs| && |cs| == |locale.completes|
      invariant i > 0 ==> CompleteUrl(template, platform, name).Some? && lookup(CompleteUrl(template, platform, name).value).Ok?
      invariant forall k :: i <= k < |cs| ==> cs[k] == locale.completes[k]
      invariant forall k :: 0 <= k < i ==>
        var sh := lookup(CompleteUrl(template, platform, name).value).value;
        cs[k] == WithSizeHash(locale.completes[k], sh.0, sh.1)
    {
      var url := CompleteUrl(template, platform, name);
      if url.None? {
        return None;
      }
      var sh := lookup(url.value);
      if sh.Err? {
        return None;
      }
      cs := cs[i := WithSizeHash(cs[i], sh.value.0, sh.value.1)];
      i := i + 1;
    }
    r := Some(locale.(completes := cs));
    if cs != [] {
      var sh := lookup(CompleteUrl(template, platform, name).value).value;
      assert cs == seq(|cs|, k requires 0 <= k < |cs| => WithSizeHash(locale.completes[k], sh.0, sh.1));
    }
  }

  /** `for locale_name, locale_data in platform_data['locales'].iteritems()`, skipping a platform without locales */
  method FillPlatform(platform: Platform, template: Option<string>,
                      lookup: string -> Result<(nat, string)>) returns (r: Option<Platform>)
    ensures r == FilledPlatform(platform, template, lookup)
  {
    if platform.locales.None? {
      return Some(platform);
    }
    var ls := platform.locales.value;
    var acc := ls;
    var todo := ls.Keys;
    while todo != {}
      invariant todo <= ls.Keys && acc.Keys == ls.Keys
      invariant forall l :: l in todo ==> acc[l] == ls[l]
      invariant forall l :: l in ls && l !in todo ==> FilledLocale(l, ls[l], platform, template, lookup) == Some(acc[l])
      decreases |todo|
    {
      var l :| l in todo;
      var next := FillLocale(l, acc[l], platform, template, lookup);
      if next.None? {
        assert FilledLocale(l, ls[l], platform, template, lookup).None?;
        return None;
      }
      acc := acc[l := next.value];
      todo := todo - {l};
    }
    FilledPlatformOf(platform, template, lookup, acc);
    r := Some(platform.(locales := Some(acc)));
  }

  /** `for platform_name, platform_data in blob['platforms'].iteritems()` */
  method FillPlatforms(platforms: map<string, Platform>, template: Option<string>,
                       lookup: string -> Result<(nat, string)>) returns (r: Option<map<string, Platform>>)
    ensures r == FilledPlatforms(platforms, template, lookup)
  {
    var acc := platforms;
    var todo := platforms.Keys;
    while todo != {}
      invariant todo <= platforms.Keys && acc.Keys == platforms.Keys
      invariant forall p :: p in todo ==> acc[p] == platforms[p]
      invariant forall p :: p in platforms && p !in todo ==> FilledPlatform(platforms[p], template, lookup) == Some(acc[p])
      decreases |todo|
    {
      var p :| p in todo;
      var next := FillPlatform(acc[p], template, lookup);
      if next.None? {
        assert FilledPlatform(platforms[p], template, lookup).None?;
        return None;
      }
      acc := acc[p := next.value];
      todo := todo - {p};
    }
    FilledPlatformsOf(platforms, template, lookup, acc);
    r := Some(acc);
  }
}
