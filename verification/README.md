# Image insights: a verified model of the analysis core

This project models the analysis core of the image-insights service. The
service is an HTTP API that takes a JPEG or PNG image, either uploaded or
fetched from a URL. It reports the image's perceptual brightness:
- the Rec. 709 luminance of every pixel;
- the mean, the median and a 0-100 brightness score;
- the brightness of the edge strips;
- a ten-bucket histogram;
- the original size.

The model covers these parts of the service:

- **Cache key** (`cache_key.dfy`, module `CacheKey`): `compute_cache_key`.
  The key hashes the image bytes, a `|` byte, the sorted metric names joined
  by `,`, a `|` byte and the edge mode. It is returned as lowercase hex. The
  BLAKE2b digest is a function parameter, so every lemma holds for any digest
  of 64 bytes (RFC 7693, section 2.1).
- **Cache** (`cache.dfy`, module `Cache`): `ImageAnalysisCache`, an LRU cache
  with a TTL.
  - Its ordered dictionary is two fields: the key order, oldest first, and a
    map from key to (timestamp, result).
  - `Lookup` and `Insert` specify `get` and `set` as functions on a `Store`
    value.
  - The class methods are proved equal to those functions and to keep the
    invariant: each key is listed once, and the size stays within the
    capacity.
  - The monotonic clock is the parameter `now`.
- **Luminance engine** (`luminance.dfy`, module `Luminance`): Rec. 709 luma,
  mean, median (a sort proved to be a permutation), brightness score with
  Python's round-half-even, and the three edge-strip modes. numpy's slicing
  with negative bounds is modelled.
- **Histogram** (`histogram.dfy`, module `Histogram`): the loop of
  `calculate_histogram` as a `for` loop, proved bucket by bucket against a
  specification function.
- **Validators** (`validators.dfy`, module `Validators`): `validate_metrics`,
  `validate_edge_mode` and `validate_image_upload`, with every error they
  raise. `strings.dfy` (module `Strings`) provides the Python `str`
  operations they use.
- **Resize arithmetic** (`resize.dfy`, module `Resize`): the new size chosen
  by `resize_image_if_needed`.
- **Request handling** (`image_analysis.dfy`, module `ImageAnalysis`):
  - `_process_image_bytes` builds the response field by field, one method per
    block of fields.
  - The two endpoints run their validations in the source's order: metrics,
    then the edge mode, then the upload or the download.
  - Each endpoint's contract states which error wins, whether the body is
    read or fetched at all, and what every field of a successful response
    holds.

`config.dfy` holds the settings, `errors.dfy` the HTTP errors with their
status codes, and `wrappers.dfy` the `Option` and `Result` types. Floating
point is modelled by exact reals. Python's `int()` on a non-negative float
becomes `.Floor`, and `round` becomes round-half-even.

## Model

| member | source | states |
|---|---|---|
| Errors.StatusCode | app/core/validators.py:22-118 | Each error has the status the source raises it with. An unsupported type gets 415 and an oversized file 413. An empty file, invalid metrics, an invalid edge mode and a corrupt image (app/api/image_analysis.py:105) get 400. A fetcher error keeps its own status, one of 400, 408, 413 or 415 (app/core/url_handler.py:25-100). Every code lies in 400..599 |
| Strings.IndexOf | app/core/validators.py:71 | The first position of the separator: it holds the separator and nothing before it does |
| Strings.Split | app/core/validators.py:71 | `str.split(",")` yields at least one piece and no piece holds the separator |
| Strings.JoinSplit | app/core/validators.py:71 | Joining the pieces of a split gives back the original text |
| Strings.SplitJoin | app/core/cache.py:47 | Splitting a join of separator-free pieces gives back the pieces |
| Strings.StripLeading | app/core/validators.py:71 | The result is a suffix of the input; every dropped character is whitespace and the result does not start with whitespace |
| Strings.StripTrailing | app/core/validators.py:71 | The result is a prefix of the input; every dropped character is whitespace and the result does not end with whitespace |
| Strings.Strip | app/core/validators.py:108 | `strip()` is the slice between the leading and the trailing whitespace, and starts and ends with non-whitespace |
| Strings.StripUnchanged | app/core/validators.py:108 | Text with no blank at either end is unchanged by `strip()` |
| Strings.StripLeadingSpace | app/core/validators.py:108 | A leading blank does not affect the strip |
| Strings.StripTrailingSpace | app/core/validators.py:108 | A trailing blank does not affect the strip |
| Strings.Lower | app/core/validators.py:108 | `lower()` keeps the length and maps each character separately |
| Strings.NatToString | app/core/histogram.py:59 | `str(n)` is a non-empty run of decimal digits with no leading zero |
| Strings.NatToStringRoundTrip | app/core/histogram.py:59 | Reading the digits of `str(n)` gives back `n` |
| Strings.EncodeChar | app/core/cache.py:47 | UTF-8 encodes a code point in 1 to 4 bytes; ASCII stays one byte of the same value, and every byte of a longer encoding is at least 0x80 |
| Strings.Utf8 | app/core/cache.py:47-49 | `encode()` gives between one and four bytes per character |
| Strings.Utf8Ascii | app/core/cache.py:47-49 | `encode()` on ASCII text is the identity on code points |
| Strings.Utf8AsciiInjective | app/core/cache.py:47-49 | Distinct ASCII strings have distinct encodings |
| Strings.Utf8AsciiByte | app/core/cache.py:44-49 | An ASCII byte occurs in an encoding only where its own character occurs, so the encoded names never contain a `|` byte |
| CacheKey.LexIrreflexive | app/core/cache.py:47 | Python's string order is irreflexive |
| CacheKey.LexAsymmetric | app/core/cache.py:47 | Python's string order is asymmetric |
| CacheKey.LexTransitive | app/core/cache.py:47 | Python's string order is transitive |
| CacheKey.LexTotal | app/core/cache.py:47 | Any two distinct strings are ordered one way or the other |
| CacheKey.LeastExists | app/core/cache.py:47 | Every non-empty set of names has a least element |
| CacheKey.SortedNames | app/core/cache.py:47 | `sorted(metrics)` is strictly ascending and lists exactly the set's members, each once |
| CacheKey.LeastFirst | app/core/cache.py:47 | The least name followed by a sorted listing of the rest is a sorted listing of the whole set |
| CacheKey.SortedUnique | app/core/cache.py:47 | A set has only one strictly sorted listing, so the join does not depend on the set's iteration order |
| CacheKey.HexDigit | app/core/cache.py:50 | Each nibble becomes one lowercase hex digit |
| CacheKey.HexDigitValue | app/core/cache.py:50 | The hex digit of a nibble reads back as that nibble |
| CacheKey.HexDigest | app/core/cache.py:50 | `hexdigest()` has two lowercase hex digits per digest byte |
| CacheKey.HexDigestInjective | app/core/cache.py:50 | Equal hex strings come from equal digests |
| CacheKey.ComputeCacheKey | app/core/cache.py:22-50 | Whatever the digest, the key is 128 lowercase hex characters (a 64-byte BLAKE2b digest) |
| CacheKey.KeyHasNoSecret | app/core/cache.py:3-5 | The key holds only hex digits, so no readable text such as "secret" can occur in it: nothing of the request is kept in clear |
| CacheKey.NoneAndEmptyEdgeModeAgree | app/core/cache.py:49 | `edge_mode or ""` makes a missing edge mode and an empty one hash alike |
| CacheKey.MetricsTextSorted | app/core/cache.py:47 | {"median", "brightness"} enters the hash as "brightness,median" |
| CacheKey.ValidNamesPlain | app/core/cache.py:44-47 | Every valid metric name and edge mode is non-empty ASCII with no `,` or `|` |
| CacheKey.JoinPlain | app/core/cache.py:47 | A join of such names is ASCII with no `|`, and non-empty when there is a name |
| CacheKey.TailLengthOf | app/core/cache.py:44-49 | The part after the last `|` byte of `x + [|] + y` is `y` when `y` holds no `|` |
| CacheKey.SplitAtLastSeparator | app/core/cache.py:44-49 | Two byte strings `x + [|] + y` with `|`-free tails are equal only if their heads and their tails are equal |
| CacheKey.MetricsTextPlain | app/core/cache.py:47 | The metrics part of a validated request is ASCII with no `|` byte, and non-empty for a non-empty set |
| CacheKey.EdgeModeTextPlain | app/core/cache.py:49 | The edge-mode part of a validated request is ASCII with no `|` byte, and non-empty for a given mode |
| CacheKey.SortedNamesNoComma | app/core/cache.py:47 | No sorted validated name holds a comma |
| CacheKey.MetricsTextInjective | app/core/cache.py:47 | Two validated metric sets with the same join are the same set |
| CacheKey.PreimageInjective | app/core/cache.py:42-49 | The separators do their job: distinct validated requests feed the hasher distinct bytes |
| CacheKey.SharedKeyIsDigestCollision | app/core/cache.py:22-50 | Two distinct validated requests share a key only when the digest itself collides on two distinct inputs |
| Cache.Without | app/core/cache.py:96 | Removing a key from the order leaves exactly the other keys. It changes nothing when the key is absent, and shortens a duplicate-free order by one when present |
| Cache.WithoutConcat | app/core/cache.py:96-99 | Removing a key from a concatenation removes it from each part and keeps the parts in order |
| Cache.WithoutSingleton | app/core/cache.py:96-99 | On a single key, the removal keeps it unless it is the removed key. With `WithoutConcat`, removal is the order-keeping filter, so the other keys keep their relative recency |
| Cache.DistinctTail | app/core/cache.py:124 | Dropping the oldest key keeps the order free of duplicates |
| Cache.DistinctAppend | app/core/cache.py:121 | Appending a new key keeps the order free of duplicates |
| Cache.DistinctPrepend | app/core/cache.py:99 | A key in front of a duplicate-free order without it is duplicate-free |
| Cache.WithoutDistinct | app/core/cache.py:96-99 | Removing a key keeps the order free of duplicates |
| Cache.MoveToEnd | app/core/cache.py:99 | `move_to_end` leaves the key last and the other keys before it in their old order |
| Cache.DistinctCardinality | app/core/cache.py:132-135 | A duplicate-free order has as many keys as its set of keys |
| Cache.CoherentSize | app/core/cache.py:132-135 | When the order and the map hold the same keys, their sizes agree |
| Cache.Lookup | app/core/cache.py:75-100 | `get` hits exactly when the key is stored and fresh. It never adds a key and never changes a stored entry; the `Lookup*` lemmas below give each branch's new store |
| Cache.Insert | app/core/cache.py:102-124 | `set` stores `(now, result)` under the key. It adds no other key and changes no other entry; the `Insert*` lemmas below give the order and the eviction |
| Cache.LookupAbsent | app/core/cache.py:91-92 | A missing key is a miss that changes nothing |
| Cache.LookupExpired | app/core/cache.py:93-97 | An entry older than the TTL is a miss. Exactly that key leaves the map and the order; everything else, including the order of the other keys, stays as it was |
| Cache.LookupHit | app/core/cache.py:93-100 | A fresh entry returns its stored result and moves only that key to the most-recent end |
| Cache.LookupKeepsInvariant | app/core/cache.py:90-100 | `get` keeps the invariant: each key is listed once, the order and map agree, and the size is within capacity |
| Cache.InsertKeepsInvariant | app/core/cache.py:118-124 | `set` keeps the invariant |
| Cache.InsertThenLookupHits | app/core/cache.py:102-124 | A value just stored is returned by a `get` within the TTL |
| Cache.InsertThenLookupExpires | app/core/cache.py:94-97 | A value read more than TTL seconds after it was stored is gone |
| Cache.ZeroTtl | app/core/cache.py:94 | With TTL 0 a read at the storing instant hits and any later read misses |
| Cache.InsertExisting | app/core/cache.py:109-121 | Re-storing a key moves it to the end, restamps it and evicts nothing |
| Cache.InsertEvictsOldest | app/core/cache.py:122-124 | Storing a new key into a full cache evicts exactly the oldest key |
| Cache.InsertWithRoom | app/core/cache.py:121-124 | Storing a new key into a cache with room appends it and evicts nothing |
| Cache.NoCapacityStaysEmpty | app/core/cache.py:122-124 | A cache of capacity 0 stays empty |
| Cache.ScenarioFirst | app/core/cache.py:118-124 | Storing "a" into an empty cache of capacity 2 leaves just "a" |
| Cache.ScenarioSecond | app/core/cache.py:118-124 | Storing "b" then leaves "a", "b" in that order |
| Cache.ScenarioThird | app/core/cache.py:122-124 | Storing "c" then evicts "a" and leaves "b", "c" |
| Cache.EvictionScenario | app/core/cache.py:102-124 | With room for two, storing "a", "b", "c" keeps "b" and "c" only |
| Cache.ScenarioReads | app/core/cache.py:90-100 | Reading that store back within the TTL: "a" misses, and "b" then "c" hit, each moving to the most recent end |
| Cache.ImageAnalysisCache.constructor | app/core/cache.py:61-73 | A new cache is empty, valid and has the given capacity and TTL; with no arguments these are the defaults 128 and 3600 (`DEFAULT_MAX_SIZE`, `DEFAULT_TTL_SECONDS`) |
| Cache.ImageAnalysisCache.Get | app/core/cache.py:75-100 | The method's result and new state are those of `Lookup`, and it keeps `Valid()` |
| Cache.ImageAnalysisCache.Set | app/core/cache.py:102-124 | The method's new state is that of `Insert`, and it keeps `Valid()` |
| Cache.ImageAnalysisCache.Clear | app/core/cache.py:126-129 | The cache is empty and valid afterwards |
| Cache.ImageAnalysisCache.Size | app/core/cache.py:131-135 | The size is the number of entries and of ordered keys, and at most the capacity (0 for a capacity of 0 or less) |
| Luminance.Luma | app/core/luminance.py:19-23 | The Rec. 709 luma of an 8-bit pixel lies in [0, 255] |
| Luminance.CalculateLuminance | app/core/luminance.py:9-23 | The grid has the image's shape, and each cell is the luma of its pixel, in [0, 255] |
| Luminance.GreyLuma | app/core/luminance.py:19-23 | The weights sum to 1, so a grey pixel (v, v, v) has luma v |
| Luminance.PrimaryOrder | app/core/luminance.py:19-23 | Pure green is brighter than pure red, which is brighter than pure blue |
| Luminance.FlattenLength | app/core/luminance.py:95 | Flattening `h` rows of `w` cells gives `h * w` cells |
| Luminance.FlattenMember | app/core/luminance.py:95 | Every flattened cell is a cell of some row |
| Luminance.FlattenConcat | app/core/luminance.py:134 | Flattening a concatenation concatenates the flattenings |
| Luminance.SumBounds | app/core/luminance.py:36 | A sum of values in [lo, hi] lies in [n*lo, n*hi] |
| Luminance.MeanBounds | app/core/luminance.py:26-36 | The mean lies between any bounds of the values |
| Luminance.MeanConstant | app/core/luminance.py:26-36 | The mean of a constant grid is that constant |
| Luminance.MeanExample | app/core/luminance.py:26-36 | The mean of [100, 200, 150, 150] is 150 |
| Luminance.ConsSorted | app/core/luminance.py:49 | Putting a smaller head before a sorted permutation of the rest keeps the list sorted and a permutation |
| Luminance.InsertSorted | app/core/luminance.py:49 | Inserting into a sorted list gives a sorted list with that one value added |
| Luminance.Sort | app/core/luminance.py:49 | The sort is ascending and a permutation of its input |
| Luminance.SortedHeadLeast | app/core/luminance.py:49 | The head of an ascending list is its least value |
| Luminance.SortedTail | app/core/luminance.py:49 | The tail of an ascending list is ascending and holds the other values |
| Luminance.SortedUnique | app/core/luminance.py:49 | Two ascending lists of the same values are equal |
| Luminance.MedianPermutation | app/core/luminance.py:39-49 | The median depends only on the values, not on their order |
| Luminance.MedianSorted | app/core/luminance.py:39-49 | The median of an ascending list is its middle value, or the mean of its two middle values |
| Luminance.MedianBounds | app/core/luminance.py:39-49 | The median lies between any bounds of the values |
| Luminance.MedianExample | app/core/luminance.py:39-49 | The median of [10, 20, 30, 100] is 25 |
| Luminance.RoundHalfEven | app/core/luminance.py:63 | Python's `round` is within 1/2 of its argument, and an exact tie goes to the even integer |
| Luminance.RoundMonotone | app/core/luminance.py:63 | Rounding preserves order |
| Luminance.BrightnessScore | app/core/luminance.py:52-63 | A mean luminance in [0, 255] scores in [0, 100] |
| Luminance.BrightnessScoreExamples | app/core/luminance.py:52-63 | Black scores 0, white 100 and the midpoint 127.5 scores 50; the exact ties 0.5 and 1.5 (means 1.275 and 3.825) round to the even 0 and 2 |
| Luminance.BrightnessScoreMonotone | app/core/luminance.py:52-63 | A brighter mean never scores lower |
| Luminance.PySlice | app/core/luminance.py:94-125 | A Python slice with negative bounds only takes elements of its input |
| Luminance.PySliceEdges | app/core/luminance.py:94-125 | With a strip thickness `e` that fits, `s[:e]` is the first `e` elements and `s[-e:]` the last `e`. `s[e:-e]` is what lies between, empty once the strips meet |
| Luminance.Columns | app/core/luminance.py:94 | `a[:, i:j]` keeps every row and slices each one alike |
| Luminance.EdgeSize | app/core/luminance.py:89-90 | The strip thickness is at least 1, at most the side, and a tenth of a side of 10 or more |
| Luminance.ColumnsFrom | app/core/luminance.py:98 | `a[:, i:]` keeps every row and slices each one alike |
| Luminance.CalculateEdgeLuminance | app/core/luminance.py:66-134 | The cells are extracted exactly when the mode is one of the three valid ones; any other mode raises `ValueError` |
| Luminance.Flatten2 | app/core/luminance.py:134 | Concatenating two strips is their sequence concatenation |
| Luminance.ColumnStripLength | app/core/luminance.py:94 | A column strip of equal-length slices has rows × slice-length cells |
| Luminance.ColumnsFromLength | app/core/luminance.py:98 | The same for a strip that runs to the end of each row |
| Luminance.RowSliceLengths | app/core/luminance.py:94-125 | In one row, the left and right slices have `ew` cells and the inner slice has `w - 2ew` cells, or none |
| Luminance.LeftRightLength | app/core/luminance.py:92-99 | Mode "left_right" extracts `2 * h * ew` cells |
| Luminance.TopBottomLength | app/core/luminance.py:101-108 | Mode "top_bottom" extracts `2 * eh * w` cells |
| Luminance.InnerStripLength | app/core/luminance.py:121-125 | The inner part of a band of rows has rows × max(0, w - 2ew) cells |
| Luminance.StripsLength | app/core/luminance.py:110-134 | Appending two strips adds their lengths |
| Luminance.AllLength | app/core/luminance.py:110-126 | Mode "all" extracts `2*h*ew + 2*eh*max(0, w - 2ew)` cells |
| Luminance.EdgeCellCount | app/core/luminance.py:89-126 | The cell count of each of the three modes |
| Luminance.FlattenBounded | app/core/luminance.py:95 | Flattening keeps any bound on the cells |
| Luminance.ColumnsBounded | app/core/luminance.py:94-98 | Column slices keep any bound on the cells |
| Luminance.RowsBounded | app/core/luminance.py:103-107 | Row slices keep any bound on the cells |
| Luminance.LeftRightBounded | app/core/luminance.py:92-99 | The "left_right" cells keep any bound on the grid |
| Luminance.TopBottomBounded | app/core/luminance.py:101-108 | The "top_bottom" cells keep any bound on the grid |
| Luminance.InnerBounded | app/core/luminance.py:121-125 | The inner top and bottom strips keep any bound on the grid |
| Luminance.BoundedConcat | app/core/luminance.py:134 | Concatenating bounded rows keeps the bound |
| Luminance.LeftRightRowsBounded | app/core/luminance.py:113-118 | The two side strips of "all" keep any bound on the grid |
| Luminance.StripsBounded | app/core/luminance.py:110-134 | Two bounded strips appended to bounded rows keep the bound |
| Luminance.AllStripsBounded | app/core/luminance.py:110-126 | The "all" cells keep any bound on the grid |
| Luminance.EdgeBounded | app/core/luminance.py:66-134 | For every valid mode, every extracted cell keeps any bound that holds on the whole grid |
| Luminance.UniformEdgeScore | app/core/luminance.py:66-134 | On a one-colour grid each edge mode's mean is that colour and its score equals the whole image's |
| Luminance.EdgesNonEmpty | app/core/luminance.py:89-126 | Every valid mode extracts at least one cell of a non-empty grid, so its mean is defined |
| Histogram.Count | app/core/histogram.py:50-54 | The count of bucket `i`, by the source's comparison, never exceeds the number of cells |
| Histogram.Bucket | app/core/histogram.py:54-61 | The bucket the loop appends has its share in [0, 100] |
| Histogram.CountWithin | app/core/histogram.py:52-54 | A count never exceeds the number of cells |
| Histogram.RoundTo1 | app/core/histogram.py:56 | `round(x, 1)` is within 0.05 of x and keeps [0, 100] |
| Histogram.Percent | app/core/histogram.py:56 | A bucket's percentage lies in [0, 100] |
| Histogram.BucketBounds | app/core/histogram.py:34-51 | The ten labels are 0-24, 25-50, 51-75, 76-101, 102-127, 128-152, 153-178, 179-203, 204-229 and 230-255 |
| Histogram.BucketsTile | app/core/histogram.py:46-51 | Bucket i starts at floor(256i/10); each bucket ends one before the next starts, and the labels cover 0..255 |
| Histogram.LabelExamples | app/core/histogram.py:59 | The first, middle and last labels read "0-24", "128-152" and "230-255" |
| Histogram.BucketEndNatural | app/core/histogram.py:47-51 | No bucket ends below 0 |
| Histogram.ComputeBucket | app/core/histogram.py:46-61 | One loop pass appends the specified bucket: its label and its rounded share |
| Histogram.CalculateHistogram | app/core/histogram.py:17-63 | An empty grid gives no buckets; otherwise the result is the ten buckets in order, each the specified one |
| Histogram.CountAll | app/core/histogram.py:52-54 | A bucket that holds every cell counts them all |
| Histogram.CountNone | app/core/histogram.py:52-54 | A bucket that holds no cell counts 0 |
| Histogram.PercentExtremes | app/core/histogram.py:56 | All cells give 100.0 and none gives 0.0 |
| Histogram.UniformBucket | app/core/histogram.py:45-61 | On a one-level grid a bucket reports 100% if it counts the level and 0% otherwise |
| Histogram.Uniform128 | app/core/histogram.py:45-61 | A grid at 128 puts 100% in bucket "128-152" and 0% in the others |
| Histogram.LevelCounted | app/core/histogram.py:45-54 | Every level in [0, 255] is counted by some bucket |
| Histogram.GreyTwentyFiveCountedTwice | app/core/histogram.py:46-54 | As written the buckets overlap: level 25.0 is counted by "0-24" and by "25-50" |
| Histogram.UniformTwentyFive | app/core/histogram.py:45-61 | As written, a grid at 25.0 reports 100% in each of the first two buckets |
| Histogram.StartsAscend | app/core/histogram.py:46 | Bucket starts never decrease |
| Histogram.HitsFrom | app/core/histogram.py:46-51 | With the label-based rule, buckets `from`..9 count a level exactly when it is at least bucket `from`'s start |
| Histogram.CountsFromCons | app/core/histogram.py:45-54 | With that rule the counts of a list are those of its head plus those of its tail |
| Histogram.ZeroCounts | app/core/histogram.py:40-41 | No cells give zero counts |
| Histogram.FixedCountsPartition | app/core/histogram.py:45-61 | With the label-based rule the ten counts of cells in [0, 255] sum to the number of cells, so the percentages sum to 100 up to rounding |
| Histogram.FixedMatchesLabels | app/core/histogram.py:59 | With that rule a whole level is counted by exactly the bucket whose label range holds it |
| Validators.Normalize | app/core/validators.py:71 | `strip().lower()` has the stripped length and no ASCII capital letters |
| Validators.Requested | app/core/validators.py:71 | The names a parameter asks for never include the empty name: blank items are dropped |
| Validators.ValidateMetrics | app/core/validators.py:53-87 | No parameter gives {"brightness"}; any unknown name fails with exactly the unknown names; otherwise it gives the normalised non-blank items, or {"brightness"} when there are none. A success is a non-empty subset of the valid names |
| Validators.RequestedOfJoin | app/core/validators.py:71 | A list of comma-free items asks for exactly its normalised non-blank items |
| Validators.PairNames | app/core/validators.py:71 | Two non-blank items denote the set of their two normalised names |
| Validators.RequestedOfSplitPair | app/core/validators.py:71 | A parameter that splits into two non-blank items asks for their two normalised names |
| Validators.RequestedOfPair | app/core/validators.py:71 | The same for the join of two comma-free items |
| Validators.NormalizeMedian | app/core/validators.py:71 | "Median" normalises to "median" |
| Validators.NormalizeUpperBrightness | app/core/validators.py:71 | " BRIGHTNESS" normalises to "brightness" |
| Validators.SplitMixedCase | app/core/validators.py:71 | "Median, BRIGHTNESS" splits into "Median" and " BRIGHTNESS" |
| Validators.RequestedMixedCase | app/core/validators.py:71 | "Median, BRIGHTNESS" asks for {"brightness", "median"} |
| Validators.ValidateMetricsNormalises | app/core/validators.py:53-87 | Case and surrounding blanks do not matter: "Median, BRIGHTNESS" is accepted as {"brightness", "median"} |
| Validators.ValidateMetricsBlank | app/core/validators.py:84-85 | "" and "," fall back to {"brightness"} |
| Validators.RequestedUnknown | app/core/validators.py:71 | "brightness,foo" asks for {"brightness", "foo"} |
| Validators.ValidateMetricsRejects | app/core/validators.py:73-82 | "brightness,foo" fails and reports only "foo" |
| Validators.ValidateEdgeMode | app/core/validators.py:90-120 | No mode gives no mode; a given mode is accepted exactly when its normalised form is valid, and the result is that form. A failure reports the mode as received |
| Validators.NormalizeSpacedAll | app/core/validators.py:108 | " ALL " normalises to "all" |
| Validators.NormalizeEmpty | app/core/validators.py:108 | "" normalises to "" |
| Validators.EmptyEdgeModeRejected | app/core/validators.py:105-118 | An empty mode is an error, not "no mode" |
| Validators.SpacedEdgeModeAccepted | app/core/validators.py:105-120 | " ALL " is accepted as "all" |
| Validators.ValidateImageUpload | app/core/validators.py:8-50 | In order: a disallowed content type fails 415, more than 5 MiB fails 413 with the size, and empty fails 400. Otherwise the bytes pass unchanged; success exactly when all three checks pass |
| Validators.UploadStatusCodes | app/core/validators.py:22-48 | The three upload checks give 415, 400 and 413 |
| Resize.AtLeastOne | app/core/resize.py:36-37 | `max(1, n)` is at least 1 and at least n |
| Resize.Scaled | app/core/resize.py:30-33 | The exact floor of side × 512 / longer. The source's float product can be one less where that quotient is a whole number (see Left out) |
| Resize.CancelFactor | app/core/resize.py:30-33 | A proof step of `ScaledAtMost` and `SquareResize`: a positive common factor cancels from an inequality |
| Resize.CancelStrict | app/core/resize.py:30-33 | A proof step of `SquareResize`: the same cancellation for a strict inequality |
| Resize.ScaledAtMost | app/core/resize.py:28-33 | The shorter side never scales past 512 |
| Resize.ResizeImageIfNeeded | app/core/resize.py:8-39 | The image is kept exactly when both sides are at most 512. Otherwise the longer side becomes 512, and the other becomes the floored proportional size, or 1 exactly when that floor is 0. Both sides lie in 1..512 |
| Resize.AspectPreserved | app/core/resize.py:27-37 | The new size keeps the aspect ratio up to rounding: the cross products differ by less than the longer side |
| Resize.ResizeExamples | app/core/resize.py:8-39 | 1000×500 becomes 512×256, 500×1000 becomes 256×512, 800×600 becomes 512×384, and 512×512 and 100×100 are kept |
| Resize.SquareResize | app/core/resize.py:28-33 | On exact arithmetic a square larger than 512 becomes 512×512. The source's floats give 511 on one side for some squares, such as 561×561 (see Left out) |
| ImageAnalysis.FieldNamesDistinct | app/api/image_analysis.py:128-155 | Distinct response fields have distinct JSON names |
| ImageAnalysis.Round2 | app/api/image_analysis.py:134 | `round(x, 2)` is within 0.005 of x and keeps [0, 255] |
| ImageAnalysis.AnalysedGrid | app/api/image_analysis.py:116-125 | The grid of a decoded, possibly resized image is a non-empty rectangle of levels in [0, 255] |
| ImageAnalysis.AnalysedShape | app/api/image_analysis.py:116-125 | That grid has a cell to average, and every valid edge mode extracts a cell of it |
| ImageAnalysis.ExtendsKeepsMatches | app/api/image_analysis.py:128-155 | Adding fields keeps every field already set |
| ImageAnalysis.BlocksCompose | app/api/image_analysis.py:128-157 | Each block of fields, added in turn, gives the whole response |
| ImageAnalysis.AddBrightness | app/api/image_analysis.py:131-134 | When "brightness" is asked for, adds the score and the rounded mean of the whole grid, and nothing else |
| ImageAnalysis.AddEdge | app/api/image_analysis.py:137-142 | When an edge mode is given, adds the score, the rounded mean of that mode's strips and the mode itself |
| ImageAnalysis.AddMedian | app/api/image_analysis.py:145-146 | When "median" is asked for, adds the rounded median |
| ImageAnalysis.AddHistogram | app/api/image_analysis.py:149-150 | When "histogram" is asked for, adds the ten buckets |
| ImageAnalysis.AddMetadata | app/api/image_analysis.py:153-155 | Always adds the original width and height and "rec709" |
| ImageAnalysis.GroupsDisjoint | app/api/image_analysis.py:128-155 | The blocks set disjoint fields |
| ImageAnalysis.AssembleResponse | app/api/image_analysis.py:127-157 | The response has exactly the fields the request selects, each holding its metric |
| ImageAnalysis.ProcessImageBytes | app/api/image_analysis.py:75-157 | It fails with the corrupt-image error exactly when the decoder rejects the bytes. Otherwise the fields are those selected, the metrics come from the resized image, and width and height are the original ones |
| ImageAnalysis.ExtendsKeepsResponse | app/api/image_analysis.py:224-226 | Adding `processing_time_ms` keeps every metric field |
| ImageAnalysis.TimeKeyFresh | app/api/image_analysis.py:226 | `processing_time_ms` is not a field `_process_image_bytes` sets |
| ImageAnalysis.AnalysedReady | app/api/image_analysis.py:137-142 | The grid of any decoded image serves any valid edge mode |
| ImageAnalysis.ProcessAndTime | app/api/image_analysis.py:221-226 | The response of `_process_image_bytes` plus the elapsed milliseconds rounded to 2 places; the decoder's failure is the only error |
| ImageAnalysis.AnalyzeImage | app/api/image_analysis.py:165-238 | Metrics are validated first, then the edge mode, then the upload; the first failure is the error. The body is read only once both parameters are valid and the content type is allowed. Success exactly when everything passes, with the full timed response |
| ImageAnalysis.AnalyzeImageFromUrl | app/api/image_analysis.py:246-308 | The same order: nothing is fetched unless both parameters are valid, and a fetcher error is reported as raised. Success exactly when everything passes, with the full timed response |
| ImageAnalysis.ResponseInRange | app/api/image_analysis.py:127-157 | Every score in a response lies in [0, 100], every luminance in [0, 255] and every percentage in [0, 100] |
| ImageAnalysis.TimedResponseInRange | app/api/image_analysis.py:165-308 | In what either endpoint returns, every score lies in [0, 100] and every luminance in [0, 255] |
| ImageAnalysis.DefaultRequestFields | app/api/image_analysis.py:131-155 | A request with neither parameter gets brightness_score, average_luminance, width, height, algorithm and processing_time_ms only |
| ImageAnalysis.FullRequestFields | app/api/image_analysis.py:131-155 | All metrics and an edge mode give all eleven fields |
| ImageAnalysis.BlackResample | app/api/image_analysis.py:116 | The stand-in resampler returns a grid of the requested size |
| ImageAnalysis.BlackStubsSound | app/api/image_analysis.py:97-116 | The one-black-pixel decoder and that resampler meet the endpoints' assumptions |
| ImageAnalysis.BlackPixelAnalysed | app/api/image_analysis.py:116-125 | One black pixel is not resized and has luminance 0 |

Several definitions state nothing by themselves; the lemmas named here are
what is proved about them:
- `Luminance.Sum` and `Luminance.Mean` (app/core/luminance.py:26-36) are
  covered by `SumBounds`, `MeanBounds` and `MeanConstant`.
- `Luminance.Median` and `Luminance.MedianOfSorted` (app/core/luminance.py:39-49)
  are covered by `MedianPermutation`, `MedianSorted` and `MedianBounds`.
- `Luminance.Flatten`, `Luminance.LeftRight` and `Luminance.TopBottom`
  (app/core/luminance.py:92-108, 134) are covered by `FlattenLength`,
  `LeftRightLength`, `TopBottomLength`, `LeftRightBounded` and
  `TopBottomBounded`.
- `Histogram.InBucket`, `Histogram.Label` and `Histogram.BucketStart`/`BucketEnd`
  (app/core/histogram.py:46-61) are covered by `BucketBounds`, `BucketsTile`,
  `LabelExamples`, `LevelCounted` and `GreyTwentyFiveCountedTwice`.
- `CacheKey.MetricsText`, `CacheKey.EdgeModeText` and `CacheKey.Preimage`
  (app/core/cache.py:42-49) are covered by `MetricsTextPlain`,
  `EdgeModeTextPlain`, `MetricsTextInjective`, `NoneAndEmptyEdgeModeAgree`
  and `PreimageInjective`.
- `CacheKey.MetricNamesPlain` and `CacheKey.EdgeModeNamesPlain`
  (app/core/cache.py:44-49) are the two steps of `ValidNamesPlain`, one
  for the metric names and one for the edge modes.
- `Strings.Join` (app/core/cache.py:47) is covered by `JoinSplit`,
  `SplitJoin` and `CacheKey.JoinPlain`.
- `Strings.IsSpace` and `Strings.LowerChar` (app/core/validators.py:71, 108)
  are covered by `Strip` and `Lower`.
- `Validators.ContentTypeAllowed` (app/core/validators.py:22-30) is covered
  by `ValidateImageUpload` and `ImageAnalysis.AnalyzeImage`.
- `ImageAnalysis.TimedResponse` (app/api/image_analysis.py:221-226) is
  covered by `ProcessAndTime` and `TimedResponseInRange`.

`ImageAnalysis.BlackUploadScenario`, `Cache.EvictionThroughMethods` and
`Cache.DefaultCacheRun` are client runs. They call the methods on concrete
inputs and assert the results: a black PNG scores 0 with width 1 and no
histogram, the cache evicts "a", and a cache built with no arguments has
capacity 128, TTL 3600 and no entries. They have no contract of their own.

## Left out

- Locking: `threading.Lock` makes each cache call atomic. The model is
  sequential, and each method is one atomic step.
- Deep copies: results are immutable values in the model, so the copies
  `get` and `set` make cannot be told apart from sharing.
- BLAKE2b: the digest is a function parameter. Collision resistance cannot
  be proved; `CacheKey.SharedKeyIsDigestCollision` reduces key sharing to a
  digest collision.
- The cache is not wired into `_process_image_bytes` or the endpoints, since
  the source does not call it there either.
- Floating point: luminance, means, percentages and the resize factor are
  exact reals. float64 rounding may differ in the last place. `Luminance.EdgeSize`
  takes `int(n * 0.1)` as `n / 10`.
- Resize.Scaled: takes `int(side * (512 / longer))` as the floor of the exact
  quotient. Where `side * 512 / longer` is a whole number, the float product
  can land just below it, and `int` then truncates to one less than the
  model. For example, `561 * (512 / 561)` is 511.99999999999994, so the
  source resizes a 561×561 image to 511×512, while `Resize.SquareResize`
  states 512×512. Likewise 644×161 gets height 127 in the source and 128 in
  the model. Many whole quotients are not affected: `500 * (512 / 1000)` is
  exactly 256 and `600 * (512 / 800)` exactly 384. The contracts of
  `Resize.ResizeImageIfNeeded`, `Resize.AspectPreserved` and
  `Resize.SquareResize` hold for the exact arithmetic only; the five sizes
  of `Resize.ResizeExamples` come out the same in float arithmetic.
  Modelling IEEE-754 division and multiplication is out of scope.
- PIL and numpy: `Image.open`, `convert("RGB")` and the LANCZOS resample are
  parameters `decode` and `resample`. The model assumes the decoder yields a
  well-formed grid and the resampler delivers the size it is asked for.
  Pixel values after resampling are whatever it returns.
- Any exception other than the decoder's maps to a 500 response, outside
  the model; `Errors.ApiError.InternalError` only names it.
- `Luminance.Mean`: numpy's NaN for an empty array is not modelled. Every
  call site has a non-empty grid, proved by `ImageAnalysis.AnalysedShape`.
- The edge strips of a grid one cell high or wide take the same cells twice,
  as numpy's slices do. The model keeps that and proves no property
  specific to it.
- `if validated_edge_mode:` tests truthiness. The model tests `Some?`. These
  agree because `Validators.ValidateEdgeMode` never returns `Some("")`.
- Clock: `time.time()` enters as the elapsed seconds of a request, and
  `time.monotonic()` as the `now` argument of the cache methods.
- Logging: every logging statement, `_redact_url_for_logging` (used only for
  logging), and the `ENABLE_DETAILED_LOGGING` setting are left out.
  `app/config.py` does not define that setting, and `Settings` is a frozen
  dataclass with no such field (app/config.py:6-31). As written, the first
  read of it (app/api/image_analysis.py:199 and :271) raises
  `AttributeError` before any validation, so every request would fail with
  500. The model assumes the setting exists, as the logging tests do; its
  value does not affect any response.
- `calculate_edge_luminance` defaults `edge_mode` to "left_right"
  (app/core/luminance.py:66-67). Every caller passes a mode, so
  `Luminance.CalculateEdgeLuminance` takes the mode as a required argument.
- `app/core/url_handler.py` is not part of this model. The URL endpoint
  takes the download's outcome, bytes or error, as a parameter, and an error
  is an `Errors.ApiError.DownloadFailed` with one of the statuses the fetcher
  raises.
- `app/main.py`, `app/api/responses.py`, the `ImageUrlRequest` model and
  FastAPI's parameter parsing are not part of this model; a parameter is an
  `Option<string>`.
- Strings.Lower: lowers ASCII letters only, while Python's `lower()` also
  folds other letters; Unicode case tables are out of scope. Which names are
  valid is unaffected, because no valid name contains a `k`, the only ASCII
  letter that a non-ASCII character (the Kelvin sign) lowers to. The invalid
  names reported for non-ASCII input may be spelled differently.
- `Validators.ValidateImageUpload` takes the bytes the upload yields; the
  asynchronous read is not modelled. The `uploadRead` result of
  `ImageAnalysis.AnalyzeImage` records whether it happens.
- The HTTP error bodies (allowed types, size in MB, valid names) are not
  modelled; the errors carry the values the bodies report.

## Findings

| source | as written | input that shows it | evidently intended | confidence | as-written member | corrected member |
|---|---|---|---|---|---|---|
| app/core/histogram.py:46-54 | Bucket i < 9 counts `[int(i*25.6), (i+1)*25.6)`, but the next bucket already starts at `int((i+1)*25.6)`, so adjacent intervals overlap on `[int((i+1)*25.6), (i+1)*25.6)` | A grid at grey level 25.0 reports 100% in "0-24" and 100% in "25-50"; the percentages sum to 200 | Each bucket counts the levels its label names, `[start_i, start_(i+1))` and the last `[230, 255]`, so every level is counted once and the percentages sum to about 100, as tests/test_core.py:121-126 expects | medium, not executed | Histogram.UniformTwentyFive | Histogram.FixedCountsPartition |

The endpoint model keeps the counting as written, so it still says what the
service returns. `Histogram.InBucketFixed` and `Histogram.CountFixed` define
the corrected rule, and `Histogram.FixedCountsPartition` and
`Histogram.FixedMatchesLabels` prove what the labels promise about it.
