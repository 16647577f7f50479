/**
 * The first pass of `transform_balrog_blob.py`: every complete-update URL in
 * `fileUrls` is pointed at its bz2 variant; `partials` are left alone.
 */
module Bz2Rewrite {
  import opened Wrappers
  import opened Text
  import opened ProductUrls
  import opened ReleaseBlob

  const Bouncer := "download.mozilla.org"
  const CompleteSuffix := ".complete.mar"
  const Bz2CompleteSuffix := ".bz2.complete.mar"

  /**
   * One URL: a bouncer URL gets its product renamed to `<product>-bz2`
   * (`None + '-bz2'` is a TypeError when it has none); any other URL has
   * every `.complete.mar` replaced by `.bz2.complete.mar`.
   */
  function RewriteUrl(url: string): (r: Result<string>)
    ensures Contains(url, Bouncer) ==> (r.Err? <==> FindProduct(url).None?)
    ensures r.Err? ==> r.error == TypeError && Contains(url, Bouncer)
    ensures Contains(url, Bouncer) && r.Ok? ==> FindProduct(r.value) == Some(FindProduct(url).value + "-bz2")
  {
    if Contains(url, Bouncer) then
      match FindProduct(url)
      case None => Err(TypeError)
      case Some(p) =>
        assert '&' !in "-bz2" && '\n' !in "-bz2";
        FindProductOfNewUrl(url, p + "-bz2");
        Ok(MakeNewUrl(url, p + "-bz2"))
    else Ok(ReplaceAll(url, CompleteSuffix, Bz2CompleteSuffix))
  }

  /**
   * A bouncer URL whose leftmost match holds the product `x` keeps all of
   * its text but the product, which becomes `x-bz2`; later matches are
   * substituted too, and with none the rest of the URL is copied.
   */
  lemma RewriteUrlBouncer(a: string, x: string, b: string)
    requires Contains(a + ("product=" + x + "&" + b), Bouncer)
    requires '&' !in x && '\n' !in x
    requires forall i :: 0 <= i < |a| ==> ProductMatch((a + ("product=" + x + "&" + b))[i..]).None?
    ensures RewriteUrl(a + ("product=" + x + "&" + b)) ==
      Ok(a + ("product=" + (x + "-bz2") + "&" + MakeNewUrl(b, x + "-bz2")))
    ensures FindProduct(b).None? ==>
      RewriteUrl(a + ("product=" + x + "&" + b)) == Ok(a + ("product=" + (x + "-bz2") + "&" + b))
  {
    FindProductAt(a, x, b);
    MakeNewUrlOneMatch(a, x, b, x + "-bz2");
    if FindProduct(b).None? {
      MakeNewUrlUnchanged(b, x + "-bz2");
    }
  }

  /** A URL off the bouncer with one `.complete.mar` becomes the `.bz2.complete.mar` URL. */
  lemma RewriteUrlFile(a: string, b: string)
    requires !Contains(a + CompleteSuffix + b, Bouncer)
    requires !Contains((a + CompleteSuffix)[..|a| + 12], CompleteSuffix)
    requires !Contains(b, CompleteSuffix)
    ensures RewriteUrl(a + CompleteSuffix + b) == Ok(a + Bz2CompleteSuffix + b)
  {
    ReplaceSplit(a, CompleteSuffix, b, Bz2CompleteSuffix);
    assert (a + CompleteSuffix)[..|a| + 12][..|a|] == a;
    if Contains(a, CompleteSuffix) {
      ContainsPrefix((a + CompleteSuffix)[..|a| + 12], |a|, CompleteSuffix);
    }
    ReplaceAbsent(a, CompleteSuffix, Bz2CompleteSuffix);
    ReplaceAbsent(b, CompleteSuffix, Bz2CompleteSuffix);
  }

  /** A URL that is neither on the bouncer nor names a complete MAR is kept. */
  lemma RewriteUrlOther(url: string)
    requires !Contains(url, Bouncer) && !Contains(url, CompleteSuffix)
    ensures RewriteUrl(url) == Ok(url)
  {
    ReplaceAbsent(url, CompleteSuffix, Bz2CompleteSuffix);
  }

  /** The versions of one update type, each URL rewritten; None when one cannot be */
  function RewrittenUrls(urls: UrlMap): (r: Option<UrlMap>)
    ensures r.None? <==> exists v :: v in urls && RewriteUrl(urls[v]).Err?
    ensures r.Some? ==> r.value.Keys == urls.Keys
    ensures r.Some? ==> forall v :: v in urls ==> RewriteUrl(urls[v]) == Ok(r.value[v])
  {
    if forall v :: v in urls ==> RewriteUrl(urls[v]).Ok? then
      Some(map v | v in urls :: RewriteUrl(urls[v]).value)
    else None
  }

  /** The update types of one channel: `partials` skipped, every other type's URLs rewritten */
  function RewrittenUpdates(updates: Updates): (r: Option<Updates>)
    ensures r.None? <==> exists t :: t in updates && t != "partials" && RewrittenUrls(updates[t]).None?
    ensures r.Some? ==> r.value.Keys == updates.Keys
    ensures r.Some? ==> forall t :: t in updates && t != "partials" ==> RewrittenUrls(updates[t]) == Some(r.value[t])
    ensures r.Some? && "partials" in updates ==> r.value["partials"] == updates["partials"]
  {
    if forall t :: t in updates && t != "partials" ==> RewrittenUrls(updates[t]).Some? then
      Some(map t | t in updates :: if t == "partials" then updates[t] else RewrittenUrls(updates[t]).value)
    else None
  }

  /** Every channel's update types rewritten */
  function RewrittenFileUrls(fileUrls: FileUrls): (r: Option<FileUrls>)
    ensures r.None? <==> exists c :: c in fileUrls && RewrittenUpdates(fileUrls[c]).None?
    ensures r.Some? ==> r.value.Keys == fileUrls.Keys
    ensures r.Some? ==> forall c :: c in fileUrls ==> RewrittenUpdates(fileUrls[c]) == Some(r.value[c])
  {
    if forall c :: c in fileUrls ==> RewrittenUpdates(fileUrls[c]).Some? then
      Some(map c | c in fileUrls :: RewrittenUpdates(fileUrls[c]).value)
    else None
  }

  /**
   * The pass keeps every channel, update type and version, leaves `partials`
   * as they were, and gives every other URL its bz2 name: a bouncer URL's
   * product gains `-bz2`.
   */
  lemma RewrittenFileUrlsShape(fileUrls: FileUrls, c: string, t: string, v: string)
    requires RewrittenFileUrls(fileUrls).Some?
    requires c in fileUrls && t in fileUrls[c]
    ensures var r := RewrittenFileUrls(fileUrls).value;
      && c in r && r[c].Keys == fileUrls[c].Keys && r[c][t].Keys == fileUrls[c][t].Keys
      && (t == "partials" ==> r[c][t] == fileUrls[c][t])
      && (t != "partials" && v in fileUrls[c][t] ==> RewriteUrl(fileUrls[c][t][v]) == Ok(r[c][t][v]))
      && (t != "partials" && v in fileUrls[c][t] && Contains(fileUrls[c][t][v], Bouncer) ==>
            FindProduct(r[c][t][v]) == Some(FindProduct(fileUrls[c][t][v]).value + "-bz2"))
  {
  }

  /** A map holding every URL rewritten is what rewriting the versions gives. */
  lemma RewrittenUrlsOf(urls: UrlMap, acc: UrlMap)
    requires acc.Keys == urls.Keys
    requires forall v :: v in urls ==> RewriteUrl(urls[v]) == Ok(acc[v])
    ensures RewrittenUrls(urls) == Some(acc)
  {
    assert acc == map v | v in urls :: RewriteUrl(urls[v]).value;
  }

  /** A map holding `partials` as it was and every other update type rewritten is what rewriting the channel gives. */
  lemma RewrittenUpdatesOf(updates: Updates, acc: Updates)
    requires acc.Keys == updates.Keys
    requires "partials" in updates ==> acc["partials"] == updates["partials"]
    requires forall t :: t in updates && t != "partials" ==> RewrittenUrls(updates[t]) == Some(acc[t])
    ensures RewrittenUpdates(updates) == Some(acc)
  {
    assert acc == map t | t in updates :: if t == "partials" then updates[t] else RewrittenUrls(updates[t]).value;
  }

  /** A map holding every channel rewritten is what rewriting `fileUrls` gives. */
  lemma RewrittenFileUrlsOf(fileUrls: FileUrls, acc: FileUrls)
    requires acc.Keys == fileUrls.Keys
    requires forall c :: c in fileUrls ==> RewrittenUpdates(fileUrls[c]) == Some(acc[c])
    ensures RewrittenFileUrls(fileUrls) == Some(acc)
  {
    assert acc == map c | c in fileUrls :: RewrittenUpdates(fileUrls[c]).value;
  }

  /** `for prev_release, url in urls.iteritems(): ... urls[prev_release] = new_url` */
  method RewriteUrls(urls: UrlMap) returns (r: Option<UrlMap>)
    ensures r == RewrittenUrls(urls)
  {
    var acc := urls;
    var todo := urls.Keys;
    while todo != {}
      invariant todo <= urls.Keys && acc.Keys == urls.Keys
      invariant forall v :: v in todo ==> acc[v] == urls[v]
      invariant forall v :: v in urls && v !in todo ==> RewriteUrl(urls[v]) == Ok(acc[v])
      decreases |todo|
    {
      var v :| v in todo;
      var next := RewriteUrl(acc[v]);
      if next.Err? {
        assert RewriteUrl(urls[v]).Err?;
        return None;
      }
      acc := acc[v := next.value];
      todo := todo - {v};
    }
    RewrittenUrlsOf(urls, acc);
    r := Some(acc);
  }

  /** `for update_type, urls in updates.iteritems()`, skipping `partials` */
  method RewriteUpdates(updates: Updates) returns (r: Option<Updates>)
    ensures r == RewrittenUpdates(updates)
  {
    var acc := updates;
    var todo := updates.Keys;
    while todo != {}
      invariant todo <= updates.Keys && acc.Keys == updates.Keys
      invariant forall t :: t in todo ==> acc[t] == updates[t]
      invariant "partials" in updates ==> acc["partials"] == updates["partials"]
      invariant forall t :: t in updates && t !in todo && t != "partials" ==> RewrittenUrls(updates[t]) == Some(acc[t])
      decreases |todo|
    {
      var t :| t in todo;
      if t != "partials" {
        var next := RewriteUrls(acc[t]);
        if next.None? {
          assert RewrittenUrls(updates[t]).None?;
          return None;
        }
        acc := acc[t := next.value];
      }
      todo := todo - {t};
    }
    RewrittenUpdatesOf(updates, acc);
    r := Some(acc);
  }

  /** `for channel, updates in blob['fileUrls'].iteritems()` */
  method RewriteFileUrls(fileUrls: FileUrls) returns (r: Option<FileUrls>)
    ensures r == RewrittenFileUrls(fileUrls)
  {
    var acc := fileUrls;
    var todo := fileUrls.Keys;
    while todo != {}
      invariant todo <= fileUrls.Keys && acc.Keys == fileUrls.Keys
      invariant forall c :: c in todo ==> acc[c] == fileUrls[c]
      invariant forall c :: c in fileUrls && c !in todo ==> RewrittenUpdates(fileUrls[c]) == Some(acc[c])
      decreases |todo|
    {
      var c :| c in todo;
      var next := RewriteUpdates(acc[c]);
      if next.None? {
        assert RewrittenUpdates(fileUrls[c]).None?;
        return None;
      }
      acc := acc[c := next.value];
      todo := todo - {c};
    }
    RewrittenFileUrlsOf(fileUrls, acc);
    r := Some(acc);
  }
}
