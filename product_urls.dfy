/**
 * `find_product` and `make_new_url`: the `product=` query parameter of a
 * download redirector URL, matched by the pattern `product=(.*?)&`.  The lazy
 * `.*?` stops at the first `&`, and `.` does not cross a line feed, so a match
 * is `product=`, a run without `&` or line feed, and the `&` that ends it.
 */
module ProductUrls {
  import opened Wrappers
  import opened Text

  /** What `.*?` may pass over before the closing `&` */
  predicate IsValueChar(c: char) { c != '&' && c != '\n' }

  /** The pattern tried at the start of `s`: the index of the closing `&` of a match. */
  function ProductMatch(s: string): (r: Option<nat>)
    ensures r.Some? ==> StartsWith(s, "product=") && 8 <= r.value < |s| && s[r.value] == '&'
    ensures r.Some? ==> forall k :: 8 <= k < r.value ==> IsValueChar(s[k])
    ensures r.None? && StartsWith(s, "product=") ==>
              var e := Span(s, 8, IsValueChar); e == |s| || s[e] == '\n'
  {
    if !StartsWith(s, "product=") then None
    else
      var e := Span(s, 8, IsValueChar);
      if e < |s| && s[e] == '&' then Some(e) else None
  }

  /** `re.search('product=(.*?)&', url)`: the group of the leftmost match, if any */
  function FindProduct(url: string): (r: Option<string>)
    ensures r.Some? ==> '&' !in r.value && '\n' !in r.value
    ensures r.Some? ==> Contains(url, "product=" + r.value + "&")
    decreases |url|
  {
    if url == [] then None
    else match ProductMatch(url)
      case Some(e) =>
        assert forall k :: 0 <= k < e - 8 ==> url[8..e][k] == url[k + 8];
        assert url[..e + 1] == "product=" + url[8..e] + "&";
        Some(url[8..e])
      case None =>
        var r := FindProduct(url[1..]);
        if r.Some? then ContainsSuffix(url, 1, "product=" + r.value + "&"); r else r
  }

  /**
   * `re.sub('product=.*?&', 'product=' + product + '&', url)`: every match,
   * found left to right without overlap, becomes `product=<product>&`.
   */
  function MakeNewUrl(url: string, product: string): string
    decreases |url|
  {
    if url == [] then []
    else match ProductMatch(url)
      case Some(e) => "product=" + product + "&" + MakeNewUrl(url[e + 1..], product)
      case None => [url[0]] + MakeNewUrl(url[1..], product)
  }

  /** No match anywhere is what makes `find_product` return None. */
  lemma {:induction false} FindProductNone(url: string)
    ensures FindProduct(url).None? <==> forall i :: 0 <= i <= |url| ==> ProductMatch(url[i..]).None?
    decreases |url|
  {
    if url != [] {
      FindProductNone(url[1..]);
      forall i | 1 <= i <= |url| ensures url[1..][i - 1..] == url[i..] { }
      if FindProduct(url).None? {
        forall i | 0 <= i <= |url| ensures ProductMatch(url[i..]).None? {
          if i > 0 { assert url[1..][i - 1..] == url[i..]; } else { assert url[0..] == url; }
        }
      } else {
        assert ProductMatch(url[0..]).Some? || ProductMatch(url[1..][0..]).Some? ||
               exists i :: 0 <= i <= |url| - 1 && ProductMatch(url[1..][i..]).Some?;
      }
    }
  }

  /**
   * `re.search` takes the leftmost match: when the first position where the
   * pattern matches is `i`, the product is the text between that match's
   * `product=` and its `&`.
   */
  lemma {:induction false} FindProductLeftmost(url: string, i: nat)
    requires i <= |url| && ProductMatch(url[i..]).Some?
    requires forall j :: 0 <= j < i ==> ProductMatch(url[j..]).None?
    ensures i + 8 <= i + ProductMatch(url[i..]).value <= |url|
    ensures FindProduct(url) == Some(url[i + 8..i + ProductMatch(url[i..]).value])
    decreases i
  {
    var e := ProductMatch(url[i..]).value;
    if i == 0 {
      assert url[0..] == url;
    } else {
      assert url[0..] == url;
      var t := url[1..];
      assert t[i - 1..] == url[i..];
      forall j | 0 <= j < i - 1 ensures ProductMatch(t[j..]).None? {
        assert t[j..] == url[j + 1..];
      }
      FindProductLeftmost(t, i - 1);
      assert t[i - 1 + 8..i - 1 + e] == url[i + 8..i + e];
    }
  }

  /** A URL without a `product=...&` match is left as it is. */
  lemma {:induction false} MakeNewUrlUnchanged(url: string, product: string)
    requires FindProduct(url).None?
    ensures MakeNewUrl(url, product) == url
    decreases |url|
  {
    if url != [] {
      MakeNewUrlUnchanged(url[1..], product);
    }
  }

  /** Substitution keeps the first character. */
  lemma {:induction false} MakeNewUrlFirst(url: string, product: string)
    requires url != []
    ensures MakeNewUrl(url, product) != [] && MakeNewUrl(url, product)[0] == url[0]
  {
  }

  /** Substitution keeps the first eight characters: a match keeps its `product=`. */
  lemma {:induction false} MakeNewUrlPrefix(url: string, product: string, k: nat)
    requires k <= 8 && k <= |url|
    ensures |MakeNewUrl(url, product)| >= k && MakeNewUrl(url, product)[..k] == url[..k]
    decreases k
  {
    if k > 0 && ProductMatch(url).None? {
      MakeNewUrlPrefix(url[1..], product, k - 1);
    }
  }

  /** A text without `&` up to its first line feed does not start with a match. */
  lemma AmpFreeNoMatch(url: string, n: nat)
    requires 0 < n <= |url| && (n < |url| ==> url[n] == '\n')
    requires forall k :: 0 <= k < n ==> url[k] != '&'
    ensures ProductMatch(url).None?
  {
    if StartsWith(url, "product=") && 8 <= n {
      var e := Span(url, 8, IsValueChar);
      assert e <= n;
    }
    assert n < 8 && n < |url| && 8 <= |url| ==> url[..8][n] == url[n];
  }

  /** Where no match starts, substitution copies the first character and goes on with the rest. */
  lemma MakeNewUrlStep(url: string, product: string)
    requires url != [] && ProductMatch(url).None?
    ensures MakeNewUrl(url, product) == [url[0]] + MakeNewUrl(url[1..], product)
  {
  }

  /** Putting back the first character of a prefix of `url`. */
  lemma ConsPrefix(url: string, n: nat, tail: string)
    requires 0 < n <= |url|
    ensures [url[0]] + (url[1..][..n - 1] + tail) == url[..n] + tail
  {
    assert url[..n] == [url[0]] + url[1..][..n - 1];
  }

  /** Up to the first line feed, a text without `&` holds no match and is kept. */
  lemma {:induction false} MakeNewUrlKeepsAmpFree(url: string, product: string, n: nat)
    requires n <= |url| && (n < |url| ==> url[n] == '\n')
    requires forall k :: 0 <= k < n ==> url[k] != '&'
    ensures MakeNewUrl(url, product) == url[..n] + MakeNewUrl(url[n..], product)
    decreases n
  {
    if n > 0 {
      AmpFreeNoMatch(url, n);
      MakeNewUrlStep(url, product);
      var rest := url[1..];
      assert rest[n - 1..] == url[n..];
      assert forall k :: 0 <= k < n - 1 ==> rest[k] == url[k + 1];
      MakeNewUrlKeepsAmpFree(rest, product, n - 1);
      ConsPrefix(url, n, MakeNewUrl(url[n..], product));
    } else {
      assert url[..0] == [] && url[0..] == url;
    }
  }

  /** A text that starts with `product=`, a value free of `&` and line feed, and `&` matches up to that `&`. */
  lemma MatchAtKey(x: string, b: string)
    requires '&' !in x && '\n' !in x
    ensures ProductMatch("product=" + x + "&" + b) == Some(8 + |x|)
  {
    var s := "product=" + x + "&" + b;
    assert s[..8] == "product=";
    assert forall k :: 8 <= k < 8 + |x| ==> s[k] == x[k - 8];
    assert s[8 + |x|] == '&';
    SpanExact(s, 8, 8 + |x|, IsValueChar);
  }

  /** No match starting in `a` before `m`: none at the start, and none in `a`'s rest before `m`. */
  lemma NoMatchRest(a: string, m: string)
    requires a != []
    requires forall i :: 0 <= i < |a| ==> ProductMatch((a + m)[i..]).None?
    ensures a + m != [] && ProductMatch(a + m).None? && (a + m)[1..] == a[1..] + m && (a + m)[0] == a[0]
    ensures forall i :: 0 <= i < |a| - 1 ==> ProductMatch((a[1..] + m)[i..]).None?
  {
    assert (a + m)[0..] == a + m;
    forall i | 0 <= i < |a| - 1 ensures ProductMatch((a[1..] + m)[i..]).None? {
      assert (a[1..] + m)[i..] == (a + m)[i + 1..];
    }
  }

  /** Where no match starts, `find_product` goes on with the rest. */
  lemma FindProductStep(url: string)
    requires url != [] && ProductMatch(url).None?
    ensures FindProduct(url) == FindProduct(url[1..])
  {
  }

  /** At a match holding `x`, `find_product` returns `x`. */
  lemma FindProductAtMatch(x: string, b: string)
    requires '&' !in x && '\n' !in x
    ensures FindProduct("product=" + x + "&" + b) == Some(x)
  {
    var m := "product=" + x + "&" + b;
    MatchAtKey(x, b);
    assert m[8..8 + |x|] == x;
  }

  /** The product of a URL whose leftmost match holds `x` is `x`. */
  lemma {:induction false} FindProductAt(a: string, x: string, b: string)
    requires '&' !in x && '\n' !in x
    requires forall i :: 0 <= i < |a| ==> ProductMatch((a + ("product=" + x + "&" + b))[i..]).None?
    ensures FindProduct(a + ("product=" + x + "&" + b)) == Some(x)
    decreases |a|
  {
    var m := "product=" + x + "&" + b;
    if a == [] {
      assert a + m == m;
      FindProductAtMatch(x, b);
    } else {
      NoMatchRest(a, m);
      FindProductStep(a + m);
      FindProductAt(a[1..], x, b);
    }
  }

  /** Substitution at a match: `product=<x>&` becomes `product=<product>&` and the rest is substituted. */
  lemma MakeNewUrlAtMatch(x: string, b: string, product: string)
    requires '&' !in x && '\n' !in x
    ensures MakeNewUrl("product=" + x + "&" + b, product) == "product=" + product + "&" + MakeNewUrl(b, product)
  {
    var m := "product=" + x + "&" + b;
    MatchAtKey(x, b);
    assert m[8 + |x| + 1..] == b;
  }

  /** Putting back the first character of a nonempty text. */
  lemma ConsRest(a: string, z: string)
    requires a != []
    ensures [a[0]] + (a[1..] + z) == a + z
  {
    assert a == [a[0]] + a[1..];
  }

  /**
   * Substitution rewrites only the match: the text `a` before the leftmost
   * match is copied, the match becomes `product=<product>&`, and the
   * substitution goes on after the match's `&`.
   */
  lemma {:induction false} MakeNewUrlOneMatch(a: string, x: string, b: string, product: string)
    requires '&' !in x && '\n' !in x
    requires forall i :: 0 <= i < |a| ==> ProductMatch((a + ("product=" + x + "&" + b))[i..]).None?
    ensures MakeNewUrl(a + ("product=" + x + "&" + b), product) == a + ("product=" + product + "&" + MakeNewUrl(b, product))
    decreases |a|
  {
    var m := "product=" + x + "&" + b;
    var z := "product=" + product + "&" + MakeNewUrl(b, product);
    MakeNewUrlAtMatch(x, b, product);
    if a == [] {
      assert a + m == m && a + z == z;
    } else {
      NoMatchRest(a, m);
      MakeNewUrlStep(a + m, product);
      MakeNewUrlOneMatch(a[1..], x, b, product);
      ConsRest(a, z);
    }
  }

  /** Whether a match starts at 0 depends only on the text up to the character that stops the scan. */
  lemma ProductMatchAgree(x: string, y: string)
    requires StartsWith(x, "product=")
    requires var e := Span(x, 8, IsValueChar);
      |y| >= e && y[..e] == x[..e] && (e < |x| <==> e < |y|) && (e < |x| ==> y[e] == x[e])
    ensures ProductMatch(y) == ProductMatch(x)
  {
    var e := Span(x, 8, IsValueChar);
    assert y[..8] == x[..e][..8] == x[..8];
    assert y[8..e] == x[8..e] by {
      assert y[8..e] == y[..e][8..];
      assert x[8..e] == x[..e][8..];
    }
    SpanAgree(x, y, 8, IsValueChar);
  }

  /** The case of `NoMatchCreated` where the text starts with `product=` but has no `&` before its line feed. */
  lemma NoMatchCreatedAfterKey(x: string, product: string)
    requires StartsWith(x, "product=") && ProductMatch(x).None?
    ensures ProductMatch([x[0]] + MakeNewUrl(x[1..], product)).None?
  {
    var t := x[1..];
    var e0 := Span(x, 8, IsValueChar);
    var n := e0 - 1;
    assert forall k :: 1 <= k < 8 ==> x[k] == x[..8][k] && x[k] != '&';
    assert forall k :: 0 <= k < n ==> t[k] == x[k + 1] && t[k] != '&';
    MakeNewUrlKeepsAmpFree(t, product, n);
    var tail := MakeNewUrl(t[n..], product);
    var y := [x[0]] + (t[..n] + tail);
    ConsPrefix(x, e0, tail);
    assert y[..e0] == x[..e0];
    if n < |t| {
      MakeNewUrlFirst(t[n..], product);
      assert y[e0] == tail[0] == t[n] == x[e0];
    } else {
      assert t[n..] == [];
    }
    ProductMatchAgree(x, y);
  }

  /**
   * A match cannot begin at a position that had none before: substitution
   * rewrites only text between `product=` and `&`, so the text a failed
   * attempt reads is kept.
   */
  lemma NoMatchCreated(c: char, t: string, product: string)
    requires ProductMatch([c] + t).None?
    ensures ProductMatch([c] + MakeNewUrl(t, product)).None?
  {
    var x := [c] + t;
    var y := [c] + MakeNewUrl(t, product);
    if StartsWith(x, "product=") {
      assert x[1..] == t;
      NoMatchCreatedAfterKey(x, product);
    } else if |x| >= 8 {
      MakeNewUrlPrefix(t, product, 7);
      assert y[..8] == [c] + MakeNewUrl(t, product)[..7];
      assert x[..8] == [c] + t[..7];
    } else {
      assert FindProduct(t).None? by {
        FindProductNone(t);
      }
      MakeNewUrlUnchanged(t, product);
    }
  }

  /**
   * Substitution round trip: after `make_new_url(url, p)`, `find_product`
   * reads back `p`, provided the URL had a match and `p` holds neither `&`
   * nor a line feed.
   */
  lemma {:induction false} FindProductOfNewUrl(url: string, product: string)
    requires FindProduct(url).Some?
    requires '&' !in product && '\n' !in product
    ensures FindProduct(MakeNewUrl(url, product)) == Some(product)
    decreases |url|
  {
    var m := MakeNewUrl(url, product);
    match ProductMatch(url)
    case Some(e) =>
      var p := "product=" + product + "&";
      assert m == p + MakeNewUrl(url[e + 1..], product);
      assert m[..8] == "product=";
      assert forall k :: 8 <= k < 8 + |product| ==> m[k] == product[k - 8];
      SpanExact(m, 8, 8 + |product|, IsValueChar);
      assert m[8..8 + |product|] == product;
    case None =>
      FindProductOfNewUrl(url[1..], product);
      assert url == [url[0]] + url[1..];
      NoMatchCreated(url[0], url[1..], product);
      assert m[1..] == MakeNewUrl(url[1..], product);
  }
}
