/**
 * `is_a_beta_version`: does a version string start like a beta build,
 * `Firefox-[\.0-9]+b[0-9]+-build`?  `re.match` anchors the pattern at the
 * start only, so anything may follow `-build`.
 */
module BetaVersions {
  import opened Text

  /** the class `[\.0-9]` */
  predicate IsReleaseChar(c: char) { c == '.' || IsDigit(c) }

  predicate AllReleaseChars(s: string) { forall k :: 0 <= k < |s| ==> IsReleaseChar(s[k]) }

  /**
   * The pattern read left to right. `[\.0-9]+` is followed by `b` and
   * `[0-9]+` by `-`, neither of which the run can hold, so backtracking
   * never helps: each run is the longest one.
   */
  predicate IsBetaVersion(v: string) {
    StartsWith(v, "Firefox-") &&
    var i := Span(v, 8, IsReleaseChar);
    i > 8 && i < |v| && v[i] == 'b' &&
    var j := Span(v, i + 1, IsDigit);
    j > i + 1 && StartsWith(v[j..], "-build")
  }

  /** The strings the pattern describes: `Firefox-<release>b<beta>-build<rest>`. */
  function BetaName(release: string, beta: string, rest: string): string {
    "Firefox-" + release + "b" + beta + "-build" + rest
  }

  /** Every string of the described shape is recognised. */
  lemma BetaVersionComplete(release: string, beta: string, rest: string)
    requires release != [] && AllReleaseChars(release)
    requires beta != [] && AllDigits(beta)
    ensures IsBetaVersion(BetaName(release, beta, rest))
  {
    var v := BetaName(release, beta, rest);
    var i := 8 + |release|;
    var j := i + 1 + |beta|;
    assert v[..8] == "Firefox-";
    assert forall k :: 8 <= k < i ==> v[k] == release[k - 8];
    assert v[i] == 'b';
    SpanExact(v, 8, i, IsReleaseChar);
    assert forall k :: i + 1 <= k < j ==> v[k] == beta[k - i - 1];
    assert v[j..] == "-build" + rest;
    SpanExact(v, i + 1, j, IsDigit);
  }

  /** Every recognised string has the described shape. */
  lemma BetaVersionSound(v: string)
    requires IsBetaVersion(v)
    ensures exists release, beta, rest ::
              release != [] && AllReleaseChars(release) && beta != [] && AllDigits(beta)
              && v == BetaName(release, beta, rest)
  {
    var i := Span(v, 8, IsReleaseChar);
    var j := Span(v, i + 1, IsDigit);
    assert v[..8] == "Firefox-" && v[j..][..6] == "-build";
    SplitBetaName(v, i, j);
    var release, beta := v[8..i], v[i + 1..j];
    assert AllReleaseChars(release) && AllDigits(beta);
    ShapeWitness(v, release, beta, v[j + 6..]);
  }

  /** Cutting a string at the places where the pattern's parts meet. */
  lemma SplitBetaName(v: string, i: nat, j: nat)
    requires 8 <= i < j && j + 6 <= |v|
    requires v[..8] == "Firefox-" && v[i] == 'b' && v[j..][..6] == "-build"
    ensures v == BetaName(v[8..i], v[i + 1..j], v[j + 6..])
  {
    assert v[j..] == v[j..][..6] + v[j + 6..];
    assert v[i + 1..] == v[i + 1..j] + v[j..];
    assert v[i..] == [v[i]] + v[i + 1..];
    assert v[8..] == v[8..i] + v[i..];
    assert v == v[..8] + v[8..];
  }

  lemma ShapeWitness(v: string, release: string, beta: string, rest: string)
    requires release != [] && AllReleaseChars(release) && beta != [] && AllDigits(beta)
    requires v == "Firefox-" + release + "b" + beta + "-build" + rest
    ensures exists release, beta, rest ::
              release != [] && AllReleaseChars(release) && beta != [] && AllDigits(beta)
              && v == BetaName(release, beta, rest)
  {
    assert v == BetaName(release, beta, rest);
  }

  /** A beta build is recognised. */
  lemma BetaVersionExample()
    ensures IsBetaVersion("Firefox-56.0b12-build1")
  {
    BetaVersionComplete("56.0", "12", "1");
    assert BetaName("56.0", "12", "1") == "Firefox-56.0b12-build1";
  }

  /** A release build is not. */
  lemma ReleaseVersionExample()
    ensures !IsBetaVersion("Firefox-56.0-build1")
  {
    SpanExact("Firefox-56.0-build1", 8, 12, IsReleaseChar);
  }
}
