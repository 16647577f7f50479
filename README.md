# Balrog release-blob migration scripts, modelled in Dafny

Balrog, Mozilla's update server, describes each Firefox release with a
JSON *release blob*. The blob has three parts:

- per platform and locale, the `completes` and `partials` update entries;
- under `fileUrls`, per channel and update type, the download URL for each
  previous version;
- a few top-level fields (`name`, `actions`, `openURL`).

Three one-off scripts rewrite such blobs, and this project models all three.

- **`transform_balrog_blob.py`** makes the `-bz2` variant of a blob. It
  runs four passes, in this order:
  - The *rewrite* pass points every complete URL at its bz2 artifact. A
    bouncer URL gets its `product=` value suffixed with `-bz2`. Any other
    URL has `.complete.mar` replaced by `.bz2.complete.mar`.
  - The *fill* pass gives every locale's completes the size and hash of the
    file built from the `beta-localtest` URL template. The values come from
    the file's beetmover checksum fragment. The hash is checked against the
    `SHA512SUMS` manifest.
  - The *prune* pass drops partials from beta releases, drops channels whose
    name contains `beta`, and drops beta versions from the `partials` of
    every other channel.
  - With `--wnp`, the script also sets the what's-new page.

  The script's helpers are modelled as well:
  - the URL helpers: `get_hashes_url`, `get_beetmover_url`, `find_product`
    and `make_new_url`;
  - `is_a_beta_version`;
  - the parsers: `parse_beetmover_data` and the manifest loop of
    `get_hashes`;
  - the check in `get_url_size_hash`;
  - the retry rule of `get_url`.
- **`strip_beta.py`** removes one beta from a blob:
  - Locale partials whose `from` contains the beta's name are removed,
    using `list.remove` while iterating over that same list.
  - The beta's key is deleted from every channel's `partials`.
- **`munge.py`** makes the Windows 32-to-64-bit migration blob:
  - only the two Windows platforms are kept;
  - the 64-bit locales lose their partials;
  - the `WINNT_x86-msvc-x64` alias is pointed at `WINNT_x86_64-msvc`;
  - `-win64-migration` is appended to the blob's name, and the blob is
    written to a file named after the new name: `<name>-win64-migration.json`.

How the model is built:

- **Values and loops.** The blob is a value (`ReleaseBlob`). Every loop of
  the scripts is a `method` with a `while` loop over the map keys or list
  indices it walks. Each method is proved equal to a specification
  function. The properties the scripts promise are lemmas about those
  functions.
- **Failures.** A helper's exception is a `Result` with the error kind:
  `KeyError`, `AttributeError`, `AssertionError`, `TypeError`, `ValueError`
  or an HTTP error. At blob level, any exception that stops a script is
  `None`.
- **Regular expressions** are hand-written scanners with Python 2's
  semantics. `.` stops at a line feed, `\w` is ASCII, `\s` is space, tab,
  line feed, carriage return, vertical tab and form feed, and `re.sub`
  replaces non-overlapping matches left to right.
- **`strip_beta.py`'s locale loop** removes entries from the list it is
  iterating over. It is modelled with Python's list iterator: an index
  that moves on by one after each entry, and `remove`, which deletes the
  first element equal to it as a whole dict (an `Entry` holds every key of
  the entry). As a result, the entry that moves into a removed
  entry's place is never examined. `StripBeta.SweepSkipsNeighbour` shows
  two adjacent matching entries of which the second survives.
  `StripBeta.SweepCleansAll` shows that every match is removed when no two
  matches are adjacent. `StripBeta.SweepRemovesFirstEqual` shows that an
  earlier equal entry is deleted in place of the one examined.
- **`get_url`'s retries.** The code retries only a length mismatch. An
  HTTP error status raises at once, at `raise_for_status` on line 18.

## Model

| member | source | states |
|---|---|---|
| BetaVersions.BetaVersionComplete | scripts/bz2-lzma-migration/transform_balrog_blob.py:81-83 | every `Firefox-<digits and dots>b<digits>-build<anything>` is a beta version |
| BetaVersions.BetaVersionSound | scripts/bz2-lzma-migration/transform_balrog_blob.py:81-83 | every beta version has that form (the match is anchored only at the start) |
| BetaVersions.BetaVersionExample | scripts/bz2-lzma-migration/transform_balrog_blob.py:81-83 | `Firefox-56.0b12-build1` is a beta version |
| BetaVersions.ReleaseVersionExample | scripts/bz2-lzma-migration/transform_balrog_blob.py:81-83 | `Firefox-56.0-build1` is not |
| ChecksumUrls.BuildSegment | scripts/bz2-lzma-migration/transform_balrog_blob.py:31 | a `build\d+/` match is `build`, then digits, then `/` |
| ChecksumUrls.BuildSegmentOf | scripts/bz2-lzma-migration/transform_balrog_blob.py:31 | conversely, every text starting with `build`, digits and `/` starts with a match of exactly that length |
| ChecksumUrls.HashesUrlNoSegment | scripts/bz2-lzma-migration/transform_balrog_blob.py:30-31 | a URL without a `build<digits>/` segment is returned unchanged |
| ChecksumUrls.HashesUrlOfLine | scripts/bz2-lzma-migration/transform_balrog_blob.py:31 | on a line that starts with a segment, the rest of the line becomes `SHA512SUMS` |
| ChecksumUrls.HashesUrlOfUrl | scripts/bz2-lzma-migration/transform_balrog_blob.py:30-31 | for a one-line URL, everything through its first `build<digits>/` is kept and the rest becomes `SHA512SUMS` |
| ChecksumUrls.HashesUrlIdempotent | scripts/bz2-lzma-migration/transform_balrog_blob.py:30-31 | deriving the manifest URL twice gives the same result as deriving it once |
| ChecksumUrls.BeetmoverUrl | scripts/bz2-lzma-migration/transform_balrog_blob.py:34-36 | the fragment URL always ends in `.beet` |
| ChecksumUrls.BeetmoverUrlNoUpdate | scripts/bz2-lzma-migration/transform_balrog_blob.py:34-36 | without `/update/`, the fragment URL is the URL plus `.beet` |
| ChecksumUrls.BeetmoverUrlOneUpdate | scripts/bz2-lzma-migration/transform_balrog_blob.py:34-36 | one `/update/` directory moves under `/beetmover-checksums/` |
| ProductUrls.ProductMatch | scripts/bz2-lzma-migration/transform_balrog_blob.py:73 | a match is `product=`, then characters other than `&` and line feed, then `&` |
| ProductUrls.FindProduct | scripts/bz2-lzma-migration/transform_balrog_blob.py:72-74 | a product found holds no `&` or line feed, and `product=<it>&` occurs in the URL |
| ProductUrls.FindProductLeftmost | scripts/bz2-lzma-migration/transform_balrog_blob.py:72-74 | the product is the group of the leftmost match: the text between `product=` and `&` at the first position where the pattern matches |
| ProductUrls.FindProductAt | scripts/bz2-lzma-migration/transform_balrog_blob.py:72-74 | for a URL `a + "product=" + x + "&" + b` with no match starting in `a` and `x` free of `&` and line feed, the product is `x` |
| ProductUrls.FindProductNone | scripts/bz2-lzma-migration/transform_balrog_blob.py:72-74 | None exactly when no position of the URL starts a match |
| ProductUrls.MakeNewUrlUnchanged | scripts/bz2-lzma-migration/transform_balrog_blob.py:77-78 | a URL with no match is left as it is |
| ProductUrls.MakeNewUrlAtMatch | scripts/bz2-lzma-migration/transform_balrog_blob.py:77-78 | at a match, `product=<x>&` becomes `product=<product>&` and the substitution goes on after the `&` |
| ProductUrls.MakeNewUrlOneMatch | scripts/bz2-lzma-migration/transform_balrog_blob.py:77-78 | only the match is rewritten: the text `a` before the leftmost match is copied, the match becomes `product=<product>&`, and the text after its `&` is substituted in turn |
| ProductUrls.MakeNewUrlPrefix | scripts/bz2-lzma-migration/transform_balrog_blob.py:77-78 | substitution keeps the first eight characters |
| ProductUrls.MakeNewUrlKeepsAmpFree | scripts/bz2-lzma-migration/transform_balrog_blob.py:77-78 | text before the first line feed that holds no `&` is kept |
| ProductUrls.NoMatchCreated | scripts/bz2-lzma-migration/transform_balrog_blob.py:77-78 | substitution never creates a match at a position that had none |
| ProductUrls.FindProductOfNewUrl | scripts/bz2-lzma-migration/transform_balrog_blob.py:72-78 | round trip: `find_product(make_new_url(url, p)) == p` when the URL had a match and `p` holds no `&` or line feed |
| Checksums.ParseBeetLine | scripts/bz2-lzma-migration/transform_balrog_blob.py:40-41 | a parsed line is `<hash> sha512 <size> <path>` of its groups, which are well formed |
| Checksums.ParseFormatBeetLine | scripts/bz2-lzma-migration/transform_balrog_blob.py:40-41 | round trip: a well-formed line parses back to its groups |
| Checksums.FirstMatch | scripts/bz2-lzma-migration/transform_balrog_blob.py:40-41 | `re.search` with `re.M` takes the first line that matches |
| Checksums.ParseBeetmoverData | scripts/bz2-lzma-migration/transform_balrog_blob.py:39-42 | AttributeError exactly when no line matches; otherwise the groups of the first matching line |
| Checksums.ParseBeetmoverDataFirstLine | scripts/bz2-lzma-migration/transform_balrog_blob.py:39-42 | a fragment whose first line is well formed gives that line's groups |
| Checksums.DecimalValueLeadingZero | scripts/bz2-lzma-migration/transform_balrog_blob.py:69 | `int(size)` ignores leading zeros |
| Checksums.UrlSizeHash | scripts/bz2-lzma-migration/transform_balrog_blob.py:64-69 | a failed download is returned as it is; a fragment with no matching line is an AttributeError; for the parsed fragment, a path missing from the manifest is a KeyError, a different hash an AssertionError, and an equal hash gives the fragment's size read as a decimal and its hash |
| Checksums.UrlSizeHashOfLine | scripts/bz2-lzma-migration/transform_balrog_blob.py:64-69 | missing path gives a KeyError; different hash gives an AssertionError; equal hash gives the size and the hash |
| Checksums.SplitAtSpace | scripts/bz2-lzma-migration/transform_balrog_blob.py:59 | `re.split('\s+', line, 1)` gives two pieces exactly when the line has whitespace: the hash before the first whitespace run and the path after it, which starts with a non-whitespace character |
| Checksums.ClassifyPairLine | scripts/bz2-lzma-migration/transform_balrog_blob.py:56-59 | a hash, whitespace and a path read back as that pair |
| Checksums.ClassifyLineShape | scripts/bz2-lzma-migration/transform_balrog_blob.py:56-59 | each stripped line is blank, malformed (no whitespace) or a pair split at its first whitespace |
| Checksums.Classified | scripts/bz2-lzma-migration/transform_balrog_blob.py:55-59 | each line classified on its own, in order |
| Checksums.ManifestErrExtends | scripts/bz2-lzma-migration/transform_balrog_blob.py:55-60 | once a line fails to unpack, the loop ends in ValueError whatever follows |
| Checksums.ManifestErrIsValueError | scripts/bz2-lzma-migration/transform_balrog_blob.py:59 | the only way the loop fails is the ValueError of the unpacking |
| Checksums.ManifestErrIff | scripts/bz2-lzma-migration/transform_balrog_blob.py:54-61 | the loop fails exactly when some line is malformed |
| Checksums.ManifestOnlyListed | scripts/bz2-lzma-migration/transform_balrog_blob.py:54-61 | every path in the result comes from a line of the manifest with that hash |
| Checksums.ManifestLastWins | scripts/bz2-lzma-migration/transform_balrog_blob.py:60 | the hash kept for a path is the one on the last line that names it |
| Checksums.ManifestStep | scripts/bz2-lzma-migration/transform_balrog_blob.py:55-60 | one iteration: a blank line is skipped, a pair is stored, a malformed line fails |
| Checksums.ParseManifest | scripts/bz2-lzma-migration/transform_balrog_blob.py:54-61 | the loop returns the manifest of the classified lines of the text |
| Checksums.GetUrl | scripts/bz2-lzma-migration/transform_balrog_blob.py:15-27 | at most three attempts; only a length mismatch is retried; an HTTP error is raised at once; three mismatches raise ValueError; success returns the body |
| Text.SplitLines | scripts/bz2-lzma-migration/transform_balrog_blob.py:55 | `split('\n')` gives at least one piece, and no piece holds a line feed |
| Text.JoinSplit | scripts/bz2-lzma-migration/transform_balrog_blob.py:55 | joining the pieces with line feeds gives back the text |
| Text.SplitJoin | scripts/bz2-lzma-migration/transform_balrog_blob.py:55 | splitting a join of line-feed-free lines gives back the lines |
| Text.Strip | scripts/bz2-lzma-migration/transform_balrog_blob.py:56 | `strip()` gives a slice of the text that is empty exactly when the text is all whitespace, and otherwise starts and ends with non-whitespace |
| Text.StripUnchanged | scripts/bz2-lzma-migration/transform_balrog_blob.py:56 | a text with no whitespace at either end is its own strip |
| Text.ReplaceAbsent | scripts/bz2-lzma-migration/transform_balrog_blob.py:134-136 | `str.replace` of a pattern that does not occur changes nothing |
| Text.ReplaceSplit | scripts/bz2-lzma-migration/transform_balrog_blob.py:134-136 | `str.replace` replaces the first occurrence and then continues after it |
| Bz2Rewrite.RewriteUrl | scripts/bz2-lzma-migration/transform_balrog_blob.py:111-115 | a bouncer URL fails (TypeError) exactly when it has no product, and otherwise its product gains `-bz2` |
| Bz2Rewrite.RewriteUrlFile | scripts/bz2-lzma-migration/transform_balrog_blob.py:115 | a direct URL with one `.complete.mar` gets `.bz2.complete.mar` in its place |
| Bz2Rewrite.RewriteUrlOther | scripts/bz2-lzma-migration/transform_balrog_blob.py:111-115 | a URL that is neither a bouncer URL nor a complete is kept |
| Bz2Rewrite.RewriteUrlBouncer | scripts/bz2-lzma-migration/transform_balrog_blob.py:111-113 | a bouncer URL keeps all of its text except the product of its leftmost match, which becomes `<product>-bz2`; when the text after that match holds no further match, it is copied unchanged |
| Bz2Rewrite.RewrittenUrls | scripts/bz2-lzma-migration/transform_balrog_blob.py:110-116 | fails exactly when one URL fails; otherwise each version keeps its key and gets its rewritten URL |
| Bz2Rewrite.RewrittenUpdates | scripts/bz2-lzma-migration/transform_balrog_blob.py:106-116 | `partials` is skipped and kept; every other update type is rewritten |
| Bz2Rewrite.RewrittenFileUrls | scripts/bz2-lzma-migration/transform_balrog_blob.py:105-116 | fails exactly when a channel fails; otherwise every channel is rewritten |
| Bz2Rewrite.RewrittenFileUrlsShape | scripts/bz2-lzma-migration/transform_balrog_blob.py:105-116 | all keys are kept, partials are untouched, and every bouncer URL's product gains `-bz2` |
| Bz2Rewrite.RewriteUrls | scripts/bz2-lzma-migration/transform_balrog_blob.py:110-116 | the inner loop computes `RewrittenUrls` |
| Bz2Rewrite.RewriteUpdates | scripts/bz2-lzma-migration/transform_balrog_blob.py:106-116 | the middle loop computes `RewrittenUpdates` |
| Bz2Rewrite.RewriteFileUrls | scripts/bz2-lzma-migration/transform_balrog_blob.py:105-116 | the outer loop computes `RewrittenFileUrls` |
| Bz2Rewrite.RewrittenUrlsOf | scripts/bz2-lzma-migration/transform_balrog_blob.py:110-116 | a map with the same versions, each holding its URL rewritten, is the result for the update type |
| Bz2Rewrite.RewrittenUpdatesOf | scripts/bz2-lzma-migration/transform_balrog_blob.py:106-116 | a map with the same update types, `partials` as it was and every other type rewritten, is the result for the channel |
| Bz2Rewrite.RewrittenFileUrlsOf | scripts/bz2-lzma-migration/transform_balrog_blob.py:105-116 | a map with the same channels, each rewritten, is the result of the pass |
| Bz2Fill.TemplateUrl | scripts/bz2-lzma-migration/transform_balrog_blob.py:133 | the template exists exactly when `fileUrls['beta-localtest']['completes']['*']` does |
| Bz2Fill.ExpandTemplateNoPlaceholders | scripts/bz2-lzma-migration/transform_balrog_blob.py:133-136 | a template without placeholders is used as it is |
| Bz2Fill.ExpandTemplateLocale | scripts/bz2-lzma-migration/transform_balrog_blob.py:133-136 | a template whose only placeholder is one `%LOCALE%` gets the locale's name in its place |
| Bz2Fill.WithSizeHash | scripts/bz2-lzma-migration/transform_balrog_blob.py:142-143 | the entry gets that hash and size and keeps its `from` and every other key |
| Bz2Fill.CompleteUrl | scripts/bz2-lzma-migration/transform_balrog_blob.py:133-136 | the URL can be built exactly when the template, `OS_BOUNCER` and `OS_FTP` are present |
| Bz2Fill.FilledLocaleShape | scripts/bz2-lzma-migration/transform_balrog_blob.py:131-143 | a locale with no completes is kept; otherwise it is filled exactly when its URL builds and looks up, and each complete carries that size and hash |
| Bz2Fill.FilledPlatformShape | scripts/bz2-lzma-migration/transform_balrog_blob.py:127-143 | a platform without locales is kept; one fails exactly when one of its locales fails; alias and OS names are kept |
| Bz2Fill.FilledPlatforms | scripts/bz2-lzma-migration/transform_balrog_blob.py:127-143 | fails exactly when a platform fails; otherwise every platform is filled |
| Bz2Fill.FillLocale | scripts/bz2-lzma-migration/transform_balrog_blob.py:131-143 | the loop over completes computes `FilledLocale` |
| Bz2Fill.FillPlatform | scripts/bz2-lzma-migration/transform_balrog_blob.py:128-143 | the loop over locales computes `FilledPlatform` |
| Bz2Fill.FillPlatforms | scripts/bz2-lzma-migration/transform_balrog_blob.py:127-143 | the loop over platforms computes `FilledPlatforms` |
| Bz2Fill.FilledPlatformOf | scripts/bz2-lzma-migration/transform_balrog_blob.py:128-143 | a platform whose locales map holds every locale filled is the filled platform |
| Bz2Fill.FilledPlatformsOf | scripts/bz2-lzma-migration/transform_balrog_blob.py:127-143 | a map with the same platforms, each filled, is the result of the pass |
| Bz2Prune.NonBetaMembers | scripts/bz2-lzma-migration/transform_balrog_blob.py:152 | an entry survives the filter exactly when it was there and is not from a beta |
| Bz2Prune.NonBetaAppend | scripts/bz2-lzma-migration/transform_balrog_blob.py:152 | the filter keeps the survivors' order |
| Bz2Prune.NonBetaKeepsAll | scripts/bz2-lzma-migration/transform_balrog_blob.py:152 | a list with no beta entry is kept whole |
| Bz2Prune.PrunedPlatformsShape | scripts/bz2-lzma-migration/transform_balrog_blob.py:146-152 | platforms, locales, completes, alias and OS names are kept; locales with missing or empty partials are unchanged; a partial survives exactly when it is not from a beta |
| Bz2Prune.PruneLocales | scripts/bz2-lzma-migration/transform_balrog_blob.py:149-152 | the loop over locales computes `PrunedLocales` |
| Bz2Prune.PrunePlatforms | scripts/bz2-lzma-migration/transform_balrog_blob.py:146-152 | the loop over platforms computes `PrunedPlatforms` |
| Bz2Prune.PrunedFileUrlsShape | scripts/bz2-lzma-migration/transform_balrog_blob.py:153-160 | fails exactly when a kept channel has no `partials`; otherwise channels named with `beta` are gone, the others keep their update types, and a partial survives exactly when it is not a beta |
| Bz2Prune.PrunePartials | scripts/bz2-lzma-migration/transform_balrog_blob.py:158-160 | the loop over versions computes `PrunedPartials` |
| Bz2Prune.PruneFileUrls | scripts/bz2-lzma-migration/transform_balrog_blob.py:153-160 | the loop over channels computes `PrunedFileUrls` |
| Bz2Prune.PrunedFileUrlsOf | scripts/bz2-lzma-migration/transform_balrog_blob.py:153-160 | a map that holds exactly the kept channels, each pruned, is the result of the pass |
| Bz2Migration.Transform | scripts/bz2-lzma-migration/transform_balrog_blob.py:100-166 | the `__main__` block computes `Transformed` |
| Bz2Migration.TransformedNameAndActions | scripts/bz2-lzma-migration/transform_balrog_blob.py:100-166 | the name gains `-bz2`, and `-WNP` with `--wnp`; `actions` and `openURL` are set exactly with `--wnp` |
| Bz2Migration.TransformedPlatforms | scripts/bz2-lzma-migration/transform_balrog_blob.py:127-152 | every platform is kept |
| Bz2Migration.TransformedChannels | scripts/bz2-lzma-migration/transform_balrog_blob.py:153-156 | a channel remains exactly when it was in the input and has no `beta` in its name; each remaining channel's `partials` hold exactly its non-beta versions, with their URLs unchanged |
| Bz2Migration.TransformedFails | scripts/bz2-lzma-migration/transform_balrog_blob.py:105-160 | the run stops exactly when a URL rewrite fails, the manifest is malformed, a lookup fails, or a kept channel lacks `partials` |
| Bz2Migration.TransformedLocale | scripts/bz2-lzma-migration/transform_balrog_blob.py:127-152 | each complete carries the size and hash of the beetmover fragment for the locale's URL, and the manifest lists that hash under the fragment's path; partials are exactly the non-beta ones |
| Bz2Migration.TransformedNoBetaPartials | scripts/bz2-lzma-migration/transform_balrog_blob.py:146-152 | no locale partial of the result is from a beta |
| StripBeta.RemoveFirst | scripts/bz2-lzma-migration/strip_beta.py:34 | `list.remove` of an element the list holds shortens it by one; the model returns a list without the element unchanged where Python raises ValueError, a case that cannot arise at line 34 because `part` is read from the list it is removed from |
| StripBeta.RemoveFirstAt | scripts/bz2-lzma-migration/strip_beta.py:34 | removing an element with no equal before it deletes exactly its index |
| StripBeta.UnmatchedRemoveFirst | scripts/bz2-lzma-migration/strip_beta.py:32-34 | removing a matching entry keeps the non-matching entries and their order |
| StripBeta.SweepKeepsUnmatched | scripts/bz2-lzma-migration/strip_beta.py:32-34 | the loop never removes a non-matching entry and keeps their order |
| StripBeta.SweepCleans | scripts/bz2-lzma-migration/strip_beta.py:32-34 | from any point of the loop, if no two matches are adjacent ahead, no match survives |
| StripBeta.SweepCleansAll | scripts/bz2-lzma-migration/strip_beta.py:32-34 | a list without two adjacent matches loses every match |
| StripBeta.SweepSkipsNeighbour | scripts/bz2-lzma-migration/strip_beta.py:32-34 | of two adjacent entries from the beta, the second survives |
| StripBeta.SweepRemovesFirstEqual | scripts/bz2-lzma-migration/strip_beta.py:32-34 | with two equal matches around a non-match, the earlier one is deleted when the later one is examined, so the order changes |
| StripBeta.StripPartials | scripts/bz2-lzma-migration/strip_beta.py:29-35 | the loop over the list it removes from computes `Sweep` |
| StripBeta.StripLocales | scripts/bz2-lzma-migration/strip_beta.py:27-35 | every locale with `partials` is swept, the others kept |
| StripBeta.StripPlatforms | scripts/bz2-lzma-migration/strip_beta.py:24-35 | every platform with `locales` is stripped, the others kept |
| StripBeta.StripChannel | scripts/bz2-lzma-migration/strip_beta.py:38-39 | the beta's key is gone from `partials`, whether it was there or not |
| StripBeta.StripFileUrls | scripts/bz2-lzma-migration/strip_beta.py:37-39 | the loop over channels computes `StrippedFileUrls` |
| StripBeta.StrippedFileUrlsOf | scripts/bz2-lzma-migration/strip_beta.py:37-39 | a map that holds every channel stripped is the result of the loop |
| StripBeta.Strip | scripts/bz2-lzma-migration/strip_beta.py:23-39 | the script computes `Stripped` |
| StripBeta.StrippedPlatformsShape | scripts/bz2-lzma-migration/strip_beta.py:24-39 | fails exactly when a channel lacks `partials`; otherwise name, platforms, locales and completes are kept, every platform field other than `locales` is unchanged, `fileUrls` is the stripped `fileUrls`, and no non-matching partial is lost |
| StripBeta.StrippedFileUrlsShape | scripts/bz2-lzma-migration/strip_beta.py:37-42 | no channel is deleted; each keeps its update types, and its `partials` lose exactly the beta's key |
| Win64Migration.FilterPlatforms | scripts/win32-win64migration/munge.py:18-20 | exactly the two Windows platforms remain, unchanged |
| Win64Migration.DropPartials | scripts/win32-win64migration/munge.py:23-24 | every locale loses its partials; a locale without them is a KeyError |
| Win64Migration.Munge | scripts/win32-win64migration/munge.py:18-30 | the script computes `Munged` |
| Win64Migration.MungedFails | scripts/win32-win64migration/munge.py:18-27 | fails exactly when the 64-bit platform, its locales, a locale's partials, or the x64 platform is missing |
| Win64Migration.MungedShape | scripts/win32-win64migration/munge.py:18-33 | two platforms remain; the 64-bit locales lose only their partials; the x64 alias is `WINNT_x86_64-msvc`; the name gains `-win64-migration`; the file is that name plus `.json`; nothing else changes |

## Left out

- The network, `gpg --verify`, reading and writing JSON files, argument parsing and logging are not modelled. Downloads are parameters: `fetch` for the beetmover fragment, the manifest text `sums`, and `respond` for the answers `get_url` gets.
- `munge.py`'s usage check (lines 10-13) and its file write (lines 33-34) are left out; only the output file name is modelled.
- The worker pool of lines 123-141 is left out. The model fills completes in turn, and any failed lookup stops the run. The script also stops on the first failure it collects, so the written blob is the same.
- Bz2Migration.Transform: line 119 builds the manifest URL from whatever `url` the rewrite loop handled last. That depends on dict order, so the manifest is a parameter (`sums`) rather than derived from the blob.
- Bz2Migration.Transform: when the rewrite loop never binds `url`, line 119 raises NameError. This happens when no channel has an update type other than `partials` with a URL in it. The model does not stop in that case; `Transformed` can succeed there.
- Checksums.GetUrl: the `content-length` header is a number. A header `int()` cannot parse is not modelled, nor is the KeyError of line 21 for a response with no `content-length` header.
- ProductUrls.MakeNewUrl inserts the product literally. Backslash escapes in a product, which `re.sub` would interpret in its template, are not processed.
- A locale without `completes` is modelled as one with an empty list, which is what `get('completes', [])` reads it as. A JSON `null` for `partials` is modelled as a missing key. The model therefore differs from the scripts on a null `partials`: strip_beta.py raises TypeError at `for part in partials` where `StripBeta.Stripped` keeps the locale, and munge.py deletes the null key and succeeds where `Win64Migration.Munged` fails with KeyError.
- Which exception a blob-level failure raises is not modelled (only that the run stops). When several keys are missing, which one is reported first depends on dict iteration order.
- `fetch` is a function: the same URL always gives the same answer.
- Blob fields that none of the scripts reads or writes are not part of `ReleaseBlob`, at every level of the blob: a platform keeps only `locales`, `alias`, `OS_BOUNCER` and `OS_FTP`, and a locale only `completes` and `partials`. Other keys, such as a locale's `buildID` and `appVersion`, are passed through unchanged by the scripts; the model drops them.
- ReleaseBlob.Entry: `from` is always present. The KeyError that a partial without `from` raises is not modelled; it would come at line 33 of `strip_beta.py` or line 152 of `transform_balrog_blob.py`.
- ReleaseBlob.Entry: the values of an entry's other keys are compared as JSON text. Two values that Python compares equal but that are written differently, such as `1` and `1.0`, count as different here.
