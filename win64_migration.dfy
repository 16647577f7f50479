/**
 * `munge.py`: turn a release blob into the one that moves 32-bit Firefox on
 * 64-bit Windows to 64-bit Firefox.  Only the two Windows platforms stay,
 * the 64-bit platform's locales lose their partials (they would not apply
 * to a 32-bit install), the `WINNT_x86-msvc-x64` alias points at the 64-bit
 * build, and the blob is renamed.  A missing key is a KeyError: None.
 */
module Win64Migration {
  import opened Wrappers
  import opened ReleaseBlob

  const Win64 := "WINNT_x86_64-msvc"
  const Win32On64 := "WINNT_x86-msvc-x64"
  const NameSuffix := "-win64-migration"

  /** The platforms the first loop keeps */
  predicate Kept(p: string) { p == Win64 || p == Win32On64 }

  /** `for p in data['platforms'].keys(): if p not in (...): del data['platforms'][p]` */
  method FilterPlatforms(platforms: map<string, Platform>) returns (r: map<string, Platform>)
    ensures r.Keys == set p | p in platforms && Kept(p)
    ensures forall p :: p in r ==> r[p] == platforms[p]
  {
    r := platforms;
    var todo := platforms.Keys;
    while todo != {}
      invariant todo <= platforms.Keys && r.Keys <= platforms.Keys
      invariant forall p :: p in todo ==> p in r
      invariant forall p :: p in platforms && p !in todo ==> (p in r <==> Kept(p))
      invariant forall p :: p in r ==> r[p] == platforms[p]
      decreases |todo|
    {
      var p :| p in todo;
      if !Kept(p) {
        r := r - {p};
      }
      todo := todo - {p};
    }
  }

  /** Every locale has a `partials` key */
  predicate AllHavePartials(locales: map<string, Locale>) {
    forall l :: l in locales ==> locales[l].partials.Some?
  }

  /** `del ldata['partials']` for every locale; None is the KeyError of a locale without them */
  function WithoutPartials(locales: map<string, Locale>): Option<map<string, Locale>> {
    if AllHavePartials(locales) then Some(map l | l in locales :: locales[l].(partials := None))
    else None
  }

  /** `for ldata in data['platforms']['WINNT_x86_64-msvc']['locales'].itervalues(): del ldata['partials']` */
  method DropPartials(locales: map<string, Locale>) returns (r: Option<map<string, Locale>>)
    ensures r == WithoutPartials(locales)
  {
    var acc := locales;
    var todo := locales.Keys;
    while todo != {}
      invariant todo <= locales.Keys && acc.Keys == locales.Keys
      invariant forall l :: l in todo ==> acc[l] == locales[l]
      invariant forall l :: l in locales && l !in todo ==>
        locales[l].partials.Some? && acc[l] == locales[l].(partials := None)
      decreases |todo|
    {
      var l :| l in todo;
      if acc[l].partials.None? {
        assert !AllHavePartials(locales);
        return None;
      }
      acc := acc[l := acc[l].(partials := None)];
      todo := todo - {l};
    }
    assert acc == map l | l in locales :: locales[l].(partials := None);
    r := Some(acc);
  }

  /** The blob `munge.py` writes, or None when it stops with a KeyError */
  function Munged(blob: Blob): Option<Blob> {
    var ps := map p | p in blob.platforms && Kept(p) :: blob.platforms[p];
    if Win64 !in ps || ps[Win64].locales.None? then None
    else match WithoutPartials(ps[Win64].locales.value)
      case None => None
      case Some(locales) =>
        if Win32On64 !in ps then None
        else
          var ps' := ps[Win64 := ps[Win64].(locales := Some(locales))];
          Some(blob.(platforms := ps'[Win32On64 := ps'[Win32On64].(alias := Some(Win64))],
                     name := blob.name + NameSuffix))
  }

  /** The script from loading the blob to naming its output */
  method Munge(blob: Blob) returns (r: Option<Blob>)
    ensures r == Munged(blob)
  {
    var ps := FilterPlatforms(blob.platforms);
    assert ps == map p | p in blob.platforms && Kept(p) :: blob.platforms[p];
    if Win64 !in ps || ps[Win64].locales.None? {
      return None;
    }
    var locales := DropPartials(ps[Win64].locales.value);
    if locales.None? {
      return None;
    }
    ps := ps[Win64 := ps[Win64].(locales := locales)];
    if Win32On64 !in ps {
      return None;
    }
    ps := ps[Win32On64 := ps[Win32On64].(alias := Some(Win64))];
    r := Some(blob.(platforms := ps, name := blob.name + NameSuffix));
  }

  /** `data['name'] + '.json'`: the file the blob is written to */
  function OutputFileName(blob: Blob): string {
    blob.name + ".json"
  }

  /**
   * The script fails exactly when the 64-bit platform, its locales, a
   * locale's partials or the 32-bit-on-64-bit platform is missing.
   */
  lemma MungedFails(blob: Blob)
    ensures Munged(blob).None? <==>
      || Win64 !in blob.platforms
      || blob.platforms[Win64].locales.None?
      || (exists l :: l in blob.platforms[Win64].locales.value && blob.platforms[Win64].locales.value[l].partials.None?)
      || Win32On64 !in blob.platforms
  {
    var ps := map p | p in blob.platforms && Kept(p) :: blob.platforms[p];
    if Win64 in blob.platforms {
      assert Win64 in ps;
    }
    if Win32On64 in blob.platforms {
      assert Win32On64 in ps;
    }
  }

  /**
   * After a finished run exactly the two Windows platforms remain; every
   * 64-bit locale has lost its partials and kept everything else; the
   * 32-bit-on-64-bit platform is as it was but for its alias; the name has
   * the migration suffix and the output file is that name plus `.json`;
   * nothing else changes.
   */
  lemma MungedShape(blob: Blob, l: string)
    requires Munged(blob).Some?
    ensures var r := Munged(blob).value;
      && r.platforms.Keys == {Win64, Win32On64}
      && r.platforms[Win32On64] == blob.platforms[Win32On64].(alias := Some("WINNT_x86_64-msvc"))
      && r.platforms[Win64].alias == blob.platforms[Win64].alias
      && r.platforms[Win64].osBouncer == blob.platforms[Win64].osBouncer
      && r.platforms[Win64].osFtp == blob.platforms[Win64].osFtp
      && r.platforms[Win64].locales.Some?
      && r.platforms[Win64].locales.value.Keys == blob.platforms[Win64].locales.value.Keys
      && (l in blob.platforms[Win64].locales.value ==>
            r.platforms[Win64].locales.value[l] == blob.platforms[Win64].locales.value[l].(partials := None))
      && r.name == blob.name + "-win64-migration"
      && OutputFileName(r) == blob.name + "-win64-migration" + ".json"
      && r.fileUrls == blob.fileUrls && r.actions == blob.actions && r.openUrl == blob.openUrl
  {
    var ps := map p | p in blob.platforms && Kept(p) :: blob.platforms[p];
    assert ps.Keys == {Win64, Win32On64};
  }
}
