# Touch-point label resolver — a Dafny model

This project models the pure helpers of the backend's API module
(`saas/backend/api/views.py`). The HTTP handlers wrap these helpers around
object-storage, label-detection and HTTP calls:

- **Point normaliser** (`_normalize_point`): divides a touch point in screen
  pixels by the screen size. It raises for a non-positive size and does no
  clamping.
- **Label resolver** (`_best_label_near_point`): takes the detector's labels
  and the normalised point and picks one label name. A containing bounding box
  wins first: the one with the smallest area, then the highest confidence,
  then the nearest centre. Without one, the best-scoring other box wins, using
  a running maximum with strict `>`. Without any valid box, the label with the
  highest top-level confidence wins.
- **String helpers**: the `s3://bucket/key` branch of `_parse_s3_url`; the
  lower-case and slug spellings of a label and the six object keys that
  `_lookup_product_url_for_label` tries, with its first-hit search; and the
  `Content-Type` that `fetch_image` picks from the URL's extension.

Coordinates and confidences are `real`. The resolver uses only comparisons,
`+ - * /` and squaring, so it makes the same comparisons as the source. The
results can still differ from floats, because floats round. In doubles
`0.7 + 0.1` is `0.7999999999999999`. So for a box with left edge 0.7 and width
0.1, the source finds `u = 0.8` outside the box, and `Labels.Contains` finds it
inside. Rounding at box edges can change containment, and rounding in the
score or the sort key can change ties.

Layout, one module per file:

| file | module | contents |
|---|---|---|
| wrappers.dfy | `Wrappers` | `Option`, `Result` |
| text.dfy | `Text` | ASCII `Lower`, `StartsWith`, `EndsWith` |
| sorting.dfy | `Sorting` | stable insertion sort `SortBy`; its head is the first least element |
| normalize.dfy | `PointNormalization` | `NormalizePoint` |
| labels.dfy | `Labels` | `Box`, `Instance`, `Label`; per-instance geometry, score and sort key |
| resolver.dfy | `Resolver` | the resolver as a fold over labels and instances, then the selection |
| resolver_spec.dfy | `ResolverSpec` | the flattened candidates, the fold's invariant and the selection theorems |
| scenarios.dfy | `ResolverExamples` | worked examples of the resolver |
| s3_url.dfy | `S3Urls` | `ParseS3Url` and its round trip |
| product_index.dfy | `ProductIndex` | slug, candidate keys, first-hit lookup |
| content_type.dfy | `ContentTypes` | `ContentTypeFor` |

How the source's Python maps onto the model:

- Missing keys. The resolver reads a box's `Left`, `Top`, `Width` and
  `Height`, and a label's `Confidence`, with a default of 0. So a missing key
  is the field value `0.0`. A missing `BoundingBox` is `Box(0.0, 0.0, 0.0, 0.0)`,
  which is skipped like any other zero-width box. A missing `Instances` list
  is the empty sequence. An instance's own `Confidence` defaults to its
  label's confidence, so it is an `Option<real>`.
- Sorting. `containing.sort(key=...)` followed by `[0]`, and
  `sorted(labels, key=..., reverse=True)[0]`, are both modelled by one stable
  insertion sort, `Sorting.SortBy`, followed by taking the head. Python's sort
  is stable, including with `reverse=True`. So `le` is "key not greater" for
  the containing list and "confidence not smaller" for the labels.
  `Sorting.SortByHead` proves that the head is the first least element.
- The resolver's loops. `Resolver.ScanLabels` and `Resolver.ScanInstances` are
  the two nested loops. They carry the same state as the source: the list of
  containing entries and the running `(score, name)` best. `ResolverSpec`
  describes the same result without the loop. `Candidates` lists every valid
  instance in label/instance order, and the theorems relate the fold to it.
- Not invoked. The call to the resolver in `recommend_product` is commented
  out in the source (views.py:192-204). The resolver is modelled from its own
  body.

## Model

| member | source | states |
|---|---|---|
| PointNormalization.NormalizePoint | saas/backend/api/views.py:44-51 | Fails with `InvalidResolution` exactly when width <= 0 or height <= 0. Otherwise the point scales back to the pixel point (`u * width == x`, `v * height == y`), so it is the plain quotient. |
| PointNormalization.OnScreenLandsInUnitSquare | saas/backend/api/views.py:44-51 | A pixel point on the screen (0 <= x <= width, 0 <= y <= height) normalises into the unit square. |
| PointNormalization.OffScreenIsNotClamped | saas/backend/api/views.py:47-51 | No clamping: a point past the right and bottom edges normalises to coordinates above 1. |
| Labels.Area | saas/backend/api/views.py:74 | The body is the box area `width * height`, the first sort key. |
| Labels.CenterX | saas/backend/api/views.py:71 | The body is the horizontal centre `left + width / 2`. |
| Labels.CenterY | saas/backend/api/views.py:72 | The body is the vertical centre `top + height / 2`. |
| Labels.IsValid | saas/backend/api/views.py:69-70 | The body is the skip test: a box counts only when its width and height are both positive. |
| Labels.Contains | saas/backend/api/views.py:73 | The body is the containment test with closed intervals on both axes. |
| Labels.MakeCandidate | saas/backend/api/views.py:64-76 | The body builds the record of one valid instance: containment, `width * height`, the instance's confidence or else the label's, and the squared centre distance. |
| Labels.Dist2 | saas/backend/api/views.py:71-76 | The squared distance from the point to the box centre `(left + width/2, top + height/2)`, never negative. |
| Labels.Score | saas/backend/api/views.py:81 | The body is the score of a non-containing box: `-dist2 + conf / 1000`. |
| Labels.KeyLe | saas/backend/api/views.py:86 | The body compares the sort keys `(area, -conf, dist2)` lexicographically; `a` may precede `b` unless `b`'s key is strictly smaller. |
| Labels.ValidBoxContainsCornersAndCenter | saas/backend/api/views.py:69-76 | Containment uses closed intervals: all four corners of a valid box count as inside. The centre is inside and at squared distance 0. |
| Labels.ConfidenceGe | saas/backend/api/views.py:94 | The body is the order of `sorted(..., key=confidence, reverse=True)`: `a` may precede `b` when its confidence is not smaller. |
| Labels.KeyLeIsTotalPreorder | saas/backend/api/views.py:86 | The lexicographic order on `(area, -confidence, dist2)` is total and transitive, so a stable sort by it is well defined. |
| Labels.ConfidenceGeIsTotalPreorder | saas/backend/api/views.py:94 | The descending order on label confidence is total and transitive. |
| Sorting.Insert | saas/backend/api/views.py:86 | Inserting adds exactly the one element: the result is a permutation of the input plus `x`. |
| Sorting.SortBy | saas/backend/api/views.py:86 | The sort returns a permutation of its input. |
| Sorting.SortByIsSorted | saas/backend/api/views.py:86 | The sort's output is ordered by `le`. |
| Sorting.SortByHead | saas/backend/api/views.py:85-87 | The head of the stable sort is a least element, and no earlier element of the input is also least. This is what `[0]` of a stably sorted list returns. |
| Sorting.SortByHeadIsMember | saas/backend/api/views.py:86-87 | The head of the sorted list is an element of the input list. |
| Sorting.FirstLeastUnique | saas/backend/api/views.py:85-87 | The earliest least element is unique, so taking the head selects one element. |
| Resolver.Observe | saas/backend/api/views.py:77-83 | A containing record is appended and the best is kept. For any other record, the new best scores at least as much as the record and as the old best, and is either the old best or this record. |
| Resolver.ScanInstances | saas/backend/api/views.py:63-83 | The inner loop over one label's instances, skipping invalid boxes. The containing list only grows at its end, and a recorded best never scores lower afterwards. |
| Resolver.ScanLabels | saas/backend/api/views.py:60-83 | The outer loop over the labels. The containing list only grows at its end, and a recorded best never scores lower afterwards. |
| Resolver.Choose | saas/backend/api/views.py:85-97 | Answers none exactly when there is no containing record, no best and no label. Otherwise it names a containing record, else the best, else a label, in that order of preference. |
| Resolver.BestLabelNearPoint | saas/backend/api/views.py:54-97 | The resolver returns none exactly when the label list is empty. |
| ResolverSpec.InsideOf | saas/backend/api/views.py:77-78 | The containing list holds exactly the candidates whose box contains the point. |
| ResolverSpec.ObserveKeepsInvariant | saas/backend/api/views.py:77-83 | One loop step keeps the invariant. A containing instance is appended. A non-containing one replaces the best only on a strictly higher score, so the best stays the first maximal score. |
| ResolverSpec.FirstBestSurvives | saas/backend/api/views.py:82-83 | A later candidate that does not score strictly higher leaves the recorded best unchanged. Ties keep the first one seen. |
| ResolverSpec.NewFirstBest | saas/backend/api/views.py:82-83 | A non-containing candidate that beats every earlier one becomes the first best. |
| ResolverSpec.ScanInstancesKeepsInvariant | saas/backend/api/views.py:63-83 | The inner loop over one label's instances keeps the invariant. Invalid boxes are skipped. |
| ResolverSpec.ScanLabelsKeepsInvariant | saas/backend/api/views.py:60-83 | The outer loop over the labels keeps the invariant. |
| ResolverSpec.ScanComputesCandidates | saas/backend/api/views.py:55-83 | After the loops, the state holds the containing valid instances in visiting order, and the first non-containing instance with maximal score (none if there is no such instance). |
| ResolverSpec.InstanceCandidatesAreValidInstances | saas/backend/api/views.py:63-76 | One label's records are exactly its instances with width > 0 and height > 0. The confidence is the instance's own or the label's. |
| ResolverSpec.CandidatesAreValidInstances | saas/backend/api/views.py:60-76 | The flattened records are exactly those of the valid instances of all labels. |
| ResolverSpec.CandidatesWitnessBoxes | saas/backend/api/views.py:69-78 | A valid box exists iff a record exists. A valid box contains the point iff the containing list is non-empty. |
| ResolverSpec.ResolvePrefersContaining | saas/backend/api/views.py:73-87 | If some valid box contains the point, the answer is the name of a containing valid instance with the least `(area, -confidence, dist2)`, the earliest among equal keys. Non-containing boxes play no part. |
| ResolverSpec.ResolveFallsBackToNearest | saas/backend/api/views.py:79-90 | If valid boxes exist but none contains the point, the answer is the name of the first instance whose `-dist2 + confidence/1000` is maximal. |
| ResolverSpec.ResolveFallsBackToTopConfidence | saas/backend/api/views.py:92-95 | If no valid box exists and the list is non-empty, the answer is the name of the first label with the highest top-level confidence. |
| ResolverSpec.ResolveNamesAnInputLabel | saas/backend/api/views.py:54-97 | Any answer is the name of one of the input labels. |
| ResolverSpec.ScanInstancesSkipsInvalid | saas/backend/api/views.py:69-70 | Taking an invalid instance out of one label's list leaves the inner loop's result unchanged. |
| ResolverSpec.ScanLabelsSkipsInvalid | saas/backend/api/views.py:60-70 | Taking an invalid instance out of any label leaves the loops' result unchanged. |
| ResolverSpec.TopConfidenceNameAgrees | saas/backend/api/views.py:94-95 | The label-level fallback depends only on the labels' names and confidences, not on their instances. |
| ResolverSpec.InvalidInstanceIsIgnored | saas/backend/api/views.py:69-70 | Removing an instance with width <= 0 or height <= 0 never changes the answer. |
| ResolverExamples.InsideTheOnlyBox | saas/backend/api/views.py:77-87 | A point inside the only box resolves to its label. |
| ResolverExamples.SmallerContainingBoxWins | saas/backend/api/views.py:85-87 | Of two containing boxes, the smaller wins even when it comes later. |
| ResolverExamples.MoreConfidentEqualBoxWins | saas/backend/api/views.py:85-87 | Of two containing boxes of equal area, the more confident wins. |
| ResolverExamples.OnlyOutsideBoxIsChosen | saas/backend/api/views.py:80-90 | A lone non-containing valid box is chosen. |
| ResolverExamples.MostConfidentLabelWithoutBoxes | saas/backend/api/views.py:92-95 | Without instances, the most confident label wins. |
| ResolverExamples.ZeroWidthBoxIsSkipped | saas/backend/api/views.py:69-70 | A zero-width box is skipped, so the label-level fallback decides. |
| S3Urls.IndexOf | saas/backend/api/views.py:16 | Finds the first occurrence of a character: the character is there, and it does not occur earlier. |
| S3Urls.SplitAtFirstSlash | saas/backend/api/views.py:16-19 | There are two parts iff the text contains `/`. The first part has no `/`, and the parts joined by `/` give back the text. |
| S3Urls.ParseS3Url | saas/backend/api/views.py:12-19 | For an `s3://` URL, succeeds iff the rest contains `/`. On success the bucket has no `/`, and `s3://` + bucket + `/` + key is the URL. Any other URL is left to the virtual-hosted/path-style matcher. |
| S3Urls.S3UrlRoundTrip | saas/backend/api/views.py:14-19 | Formatting a slash-free bucket and any key as `s3://bucket/key` and parsing it gives back the bucket and key. |
| Text.LowerChar | saas/backend/api/views.py:126 | Upper-case ASCII letters map to lower case. Every other character is unchanged. |
| Text.Lower | saas/backend/api/views.py:126 | Lower-casing keeps the length and maps each character by `LowerChar`. |
| Text.StartsWith | saas/backend/api/views.py:14 | The body is `startswith`: `s` is at least as long as `p` and its first characters spell `p`. |
| Text.EndsWith | saas/backend/api/views.py:237-243 | The body is `endswith`: `s` is at least as long as `q` and its last characters spell `q`. |
| Text.SuffixesNest | saas/backend/api/views.py:237-244 | Two suffixes of one string nest: the shorter is a suffix of the longer. |
| ProductIndex.IsSlugChar | saas/backend/api/views.py:127 | The body is the character class `[a-z0-9]` that the slug keeps. |
| ProductIndex.SkipRun | saas/backend/api/views.py:127 | Drops exactly the leading run of characters outside `[a-z0-9]`. |
| ProductIndex.Collapse | saas/backend/api/views.py:127 | After `re.sub(r"[^a-z0-9]+", "-", s)`, only `[a-z0-9-]` remains and no two dashes are adjacent. Where the dashes go is stated for the whole slug by `SlugifyJoinsWords`. |
| ProductIndex.TrimLeadingDashes | saas/backend/api/views.py:127 | Removes exactly the leading dashes. |
| ProductIndex.TrimTrailingDashes | saas/backend/api/views.py:127 | Removes exactly the trailing dashes. |
| ProductIndex.LeadingDashes | saas/backend/api/views.py:127 | Counts the leading dashes: every character before the count is a dash, and the one at the count (if any) is not. |
| ProductIndex.TrimLeadingDropsLeadingDashes | saas/backend/api/views.py:127 | Trimming leading dashes leaves the input after its leading dashes. |
| ProductIndex.StripDashes | saas/backend/api/views.py:127 | `strip('-')`: the result is the part of the input that starts right after its leading dashes. Everything cut off after the result is a dash, and the result neither starts nor ends with one. |
| ProductIndex.StripDashesMakesSlug | saas/backend/api/views.py:127 | `strip('-')` of a dash-separated string is a slug. |
| ProductIndex.Slugify | saas/backend/api/views.py:127 | The slug has only `[a-z0-9-]`, does not start or end with `-`, and has no `--`. |
| ProductIndex.Words | saas/backend/api/views.py:127 | The reference for the slug: the maximal runs of `[a-z0-9]`, in order, read character by character. A text starting with a character of `[a-z0-9]` has a first word starting with it. |
| ProductIndex.WordsAreRuns | saas/backend/api/views.py:127 | Every word is non-empty and made only of `[a-z0-9]`. |
| ProductIndex.SlugifyJoinsWords | saas/backend/api/views.py:127 | The slug is the words of the lower-cased label joined by single dashes. Each run of other characters between two words becomes exactly one dash, and runs at either end vanish. |
| ProductIndex.SpacedLabelIsDashed | saas/backend/api/views.py:127 | For any two characters `a` and `b` of `[a-z0-9]`, the slug of `a b` is `a-b`: the space becomes one dash. |
| ProductIndex.Slug | saas/backend/api/views.py:126-127 | The slug of a label is a slug, and it is the words of the lower-cased label joined by single dashes. |
| ProductIndex.SlugifyKeepsAlnums | saas/backend/api/views.py:127 | The slug keeps every character of `[a-z0-9]` in the lower-cased label, in order, and no other character of `[a-z0-9]`. |
| ProductIndex.AlnumsCollapse | saas/backend/api/views.py:127 | Collapsing runs changes only characters outside `[a-z0-9]`. |
| ProductIndex.CollapseFixesDashSeparated | saas/backend/api/views.py:127 | A dash-separated string is unchanged by the collapse. |
| ProductIndex.SlugifyFixesSlugs | saas/backend/api/views.py:126-127 | A slug is its own lower-case form and its own slug. |
| ProductIndex.SlugIdempotent | saas/backend/api/views.py:126-127 | Slugging a slug gives it back. |
| ProductIndex.KeyVariants | saas/backend/api/views.py:125-127 | The body lists the three spellings in the order they are tried: raw, lower-cased, slug. |
| ProductIndex.CandidateKeys | saas/backend/api/views.py:129-136 | Exactly six keys are tried. |
| ProductIndex.CandidateKeysOrder | saas/backend/api/views.py:125-136 | The keys are the raw, lower and slug spellings, in that order, each with `.json` then `.txt` under `prefix/`. |
| ProductIndex.SlugLabelRepeatsKeys | saas/backend/api/views.py:125-136 | For a label that already is a slug, the three spellings give the same two keys. |
| ProductIndex.IsHit | saas/backend/api/views.py:139 | The body is the truthiness test `if url:`: a read is a hit when it returns a string and the string is not empty. |
| ProductIndex.FirstHitIndex | saas/backend/api/views.py:137-141 | Finds the first key whose read yields a non-empty URL. Every earlier key misses. None means every key misses. |
| ProductIndex.FirstHit | saas/backend/api/views.py:137-141 | The answer, if any, is a non-empty URL read from some key, and every earlier key misses. None means every key misses. |
| ProductIndex.LookupProductUrl | saas/backend/api/views.py:100-141 | No bucket (missing or empty) gives none. Otherwise the answer is the non-empty URL read from the first candidate key that yields one, and none when all six miss. |
| ContentTypes.SuffixesExclusive | saas/backend/api/views.py:237-244 | No string ends with two of `.png`, `.gif`, `.webp`, `.bmp`. |
| ContentTypes.ContentTypeFor | saas/backend/api/views.py:235-244 | Each image type is chosen exactly when the lower-cased URL ends with its extension. `image/jpeg` is chosen exactly when none of the four matches. |
| ContentTypes.ContentTypeIgnoresCase | saas/backend/api/views.py:236 | Lower-casing the URL first does not change the type. |
| ContentTypes.ExtensionDecides | saas/backend/api/views.py:236-244 | The type depends only on the lower-cased URL, piece by piece. |
| ContentTypes.UpperCasePngIsRecognised | saas/backend/api/views.py:236-238 | A URL ending in `.PNG` is served as `image/png`, whatever precedes it. |
| ContentTypes.PngInAnyCase | saas/backend/api/views.py:236-238 | A URL whose extension spells `.png` in any mix of letter cases is served as `image/png`, whatever precedes it. |

## Left out

- Object storage, label detection and HTTP fetches are not modelled: `_fetch_image_bytes`, `get_object`, `detect_labels` and `requests.get`. They are network and SDK I/O.
- The object read inside `try_key` is not modelled. This covers the `NoSuchKey` handling, the JSON `url` field, the UTF-8 text fallback and `strip()`. It is the `tryKey` parameter of `ProductIndex.LookupProductUrl`. Exceptions it raises other than a missing key are not modelled.
- The regex branches of `_parse_s3_url` (virtual-hosted and path-style URLs) are not modelled. They are regular-expression engine behaviour. They are the opaque `matchHttps` parameter of `S3Urls.ParseS3Url`.
- The Django handlers are not modelled: `recommend_product`, `fetch_image` and `detect_labels`, with their method checks, JSON body parsing, status codes, environment reads and `urls.py`. This is HTTP plumbing. The environment values the helpers read (`PRODUCT_INDEX_BUCKET`, `PRODUCT_INDEX_PREFIX`) are `Option` parameters.
- The frontends and the upload scripts are not modelled (screenshot capture, S3 upload, UI). They are outside the helpers.
- Float semantics and coercion are not modelled. There is no IEEE-754 rounding, NaN or infinity, and no Python `float()` coercion of arbitrary JSON values (which can raise). Inputs are already-numeric reals.
- Text.Lower: only ASCII letters are case-mapped, while `str.lower` also maps non-ASCII letters and can change the length (U+0130 becomes `i` followed by U+0307). So the lower-case key spelling differs for labels with non-ASCII capitals.
- Text.LowerChar: every character other than `A`-`Z` is returned unchanged, while `str.lower` maps non-ASCII capitals such as `Ä` too.
- ProductIndex.Slug: for labels containing U+0130 or U+212A (Kelvin sign) the slug differs, and so do the last two keys. `str.lower` maps these two to text containing the ASCII letters `i` and `k`, which the slug keeps; the model drops them. They are the only non-ASCII characters whose lower case contains ASCII. Neither can complete `.png`, `.gif`, `.webp` or `.bmp`, so `ContentTypes.ContentTypeFor` is unaffected.
- Labels.Label: the label name is always a string. A label without a `Name` key would make the Python resolver return `None` when that label wins, and the model has no such label.

