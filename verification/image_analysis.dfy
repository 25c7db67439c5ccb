/** The request handling of `app/api/image_analysis.py`: the validation
    order of the two endpoints and `_process_image_bytes`, which fills the
    response field by field.

    The image decoder (PIL's `Image.open` and `convert("RGB")`), the
    LANCZOS resample, the URL download and the clock are outside the model;
    they enter as parameters: `decode` (None when PIL raises), `resample`,
    `download` (what `validate_and_download_from_url` returns or raises)
    and `elapsedSeconds`. */
module ImageAnalysis {
  import opened Wrappers
  import opened Config
  import opened Errors
  import opened Validators
  import opened Luminance
  import opened Histogram
  import opened Resize

  /** A decoded RGB image: `width` x `height` pixels, row by row. */
  datatype Image = Image(width: nat, height: nat, pixels: seq<seq<Pixel>>)

  predicate WellFormed(img: Image)
  {
    img.width >= 1 && img.height >= 1 && IsGrid(img.pixels, img.height, img.width)
  }

  /** The resampler delivers an image of the size it is asked for. */
  ghost predicate ResampleSound(resample: (Image, nat, nat) -> Image)
  {
    forall img, w: nat, h: nat :: WellFormed(img) && w >= 1 && h >= 1 ==>
      WellFormed(resample(img, w, h)) && resample(img, w, h).width == w && resample(img, w, h).height == h
  }

  /** A value of the JSON response. */
  datatype FieldValue =
    | IntField(i: int)
    | RealField(x: real)
    | TextField(s: string)
    | HistogramField(buckets: seq<HistogramBucket>)

  /** The keys of the response dictionary. */
  datatype Field =
    | BrightnessScoreKey | AverageLuminanceKey
    | EdgeBrightnessScoreKey | EdgeAverageLuminanceKey | EdgeModeKey
    | MedianLuminanceKey | HistogramKey
    | WidthKey | HeightKey | AlgorithmKey
    | ProcessingTimeKey

  /** The JSON name of each key. */
  function FieldName(f: Field): string
  {
    match f
    case BrightnessScoreKey => "brightness_score"
    case AverageLuminanceKey => "average_luminance"
    case EdgeBrightnessScoreKey => "edge_brightness_score"
    case EdgeAverageLuminanceKey => "edge_average_luminance"
    case EdgeModeKey => "edge_mode"
    case MedianLuminanceKey => "median_luminance"
    case HistogramKey => "histogram"
    case WidthKey => "width"
    case HeightKey => "height"
    case AlgorithmKey => "algorithm"
    case ProcessingTimeKey => "processing_time_ms"
  }

  /** Distinct fields have distinct JSON names, so a map keyed by `Field`
      is a dictionary keyed by those names. */
  lemma FieldNamesDistinct(f: Field, g: Field)
    ensures FieldName(f) == FieldName(g) ==> f == g
  {
  }

  /** The response dictionary. */
  type Response = map<Field, FieldValue>

  /** `round(x, 2)` on an exact real: the nearest hundredth, ties to even. */
  function Round2(x: real): (r: real)
    ensures -0.005 <= r - x <= 0.005
    ensures 0.0 <= x <= LUMINANCE_MAX as real ==> 0.0 <= r <= LUMINANCE_MAX as real
  {
    RoundHalfEven(x * 100.0) as real / 100.0
  }

  /** The image after `resize_image_if_needed`. */
  function Resized(img: Image, resample: (Image, nat, nat) -> Image): Image
  {
    match ResizeImageIfNeeded(img.width, img.height)
    case Keep => img
    case ResizeTo(w, h) => resample(img, w, h)
  }

  /** The luminance grid the metrics are computed on. */
  function Analysed(img: Image, resample: (Image, nat, nat) -> Image): seq<seq<real>>
  {
    CalculateLuminance(Resized(img, resample).pixels)
  }

  /** The analysed grid is a non-empty grid of levels in [0, 255]. */
  lemma AnalysedGrid(img: Image, resample: (Image, nat, nat) -> Image)
    requires WellFormed(img) && ResampleSound(resample)
    ensures var lum := Analysed(img, resample);
            && |lum| >= 1 && |lum[0]| >= 1 && IsGrid(lum, |lum|, |lum[0]|)
            && Bounded(lum, 0.0, 255.0)
  {
    var r := Resized(img, resample);
    assert WellFormed(r);
    assert IsGrid(Analysed(img, resample), r.height, r.width);
  }

  /** A grid the metrics can be computed on: it has a row and a cell, its
      levels lie in [0, 255], and each edge mode extracts at least one cell. */
  ghost predicate Analysable(lum: seq<seq<real>>)
  {
    && |lum| >= 1
    && |Flatten(lum)| > 0
    && Bounded(lum, 0.0, 255.0)
    && (forall k :: 0 <= k < |Flatten(lum)| ==> 0.0 <= Flatten(lum)[k] <= 255.0)
    && (forall mode :: mode in VALID_EDGE_MODES ==>
          CalculateEdgeLuminance(lum, mode).Some? && |CalculateEdgeLuminance(lum, mode).value| > 0)
  }

  /** The part of `Analysable` one request relies on: a cell to average and,
      when an edge mode is given, a strip cell for it. */
  ghost predicate Ready(lum: seq<seq<real>>, edgeMode: Option<string>)
  {
    && |lum| >= 1
    && |Flatten(lum)| > 0
    && (edgeMode.Some? ==>
          CalculateEdgeLuminance(lum, edgeMode.value).Some?
          && |CalculateEdgeLuminance(lum, edgeMode.value).value| > 0)
  }

  /** Every decoded image gives such a grid, resized or not. */
  lemma AnalysedShape(img: Image, resample: (Image, nat, nat) -> Image)
    requires WellFormed(img) && ResampleSound(resample)
    ensures Analysable(Analysed(img, resample))
  {
    AnalysedGrid(img, resample);
    var lum := Analysed(img, resample);
    FlattenLength(lum, |lum[0]|);
    PositiveProduct(|lum|, |lum[0]|);
    FlattenBounded(lum, 0.0, 255.0);
    EdgesNonEmpty(lum, |lum|, |lum[0]|);
  }

  /** The fields a successful analysis holds, group by group. */
  function BrightnessFields(metrics: set<string>): set<Field>
  {
    if "brightness" in metrics then {BrightnessScoreKey, AverageLuminanceKey} else {}
  }

  function EdgeFields(edgeMode: Option<string>): set<Field>
  {
    if edgeMode.Some? then {EdgeBrightnessScoreKey, EdgeAverageLuminanceKey, EdgeModeKey} else {}
  }

  function MedianFields(metrics: set<string>): set<Field>
  {
    if "median" in metrics then {MedianLuminanceKey} else {}
  }

  function HistogramFields(metrics: set<string>): set<Field>
  {
    if "histogram" in metrics then {HistogramKey} else {}
  }

  const METADATA_FIELDS: set<Field> := {WidthKey, HeightKey, AlgorithmKey}

  function ResponseFields(metrics: set<string>, edgeMode: Option<string>): set<Field>
  {
    BrightnessFields(metrics) + EdgeFields(edgeMode) + MedianFields(metrics)
    + HistogramFields(metrics) + METADATA_FIELDS
  }

  /** `brightness_score` and `average_luminance` of the whole grid. */
  ghost predicate BrightnessMatches(resp: Response, flat: seq<real>, metrics: set<string>)
    requires |flat| > 0
  {
    "brightness" in metrics ==>
      && BrightnessScoreKey in resp && resp[BrightnessScoreKey] == IntField(BrightnessScore(Mean(flat)))
      && AverageLuminanceKey in resp && resp[AverageLuminanceKey] == RealField(Round2(Mean(flat)))
  }

  /** The three edge fields of the strips of `edgeMode`. */
  ghost predicate EdgeMatches(resp: Response, lum: seq<seq<real>>, edgeMode: Option<string>)
    requires |lum| >= 1
    requires edgeMode.Some? ==>
               CalculateEdgeLuminance(lum, edgeMode.value).Some? && |CalculateEdgeLuminance(lum, edgeMode.value).value| > 0
  {
    edgeMode.Some? ==>
      var edges := CalculateEdgeLuminance(lum, edgeMode.value).value;
      && EdgeBrightnessScoreKey in resp && resp[EdgeBrightnessScoreKey] == IntField(BrightnessScore(Mean(edges)))
      && EdgeAverageLuminanceKey in resp && resp[EdgeAverageLuminanceKey] == RealField(Round2(Mean(edges)))
      && EdgeModeKey in resp && resp[EdgeModeKey] == TextField(edgeMode.value)
  }

  ghost predicate MedianMatches(resp: Response, flat: seq<real>, metrics: set<string>)
    requires |flat| > 0
  {
    "median" in metrics ==>
      MedianLuminanceKey in resp && resp[MedianLuminanceKey] == RealField(Round2(Median(flat)))
  }

  ghost predicate HistogramMatches(resp: Response, flat: seq<real>, metrics: set<string>)
    requires |flat| > 0
  {
    "histogram" in metrics ==>
      && HistogramKey in resp && resp[HistogramKey].HistogramField?
      && |resp[HistogramKey].buckets| == HISTOGRAM_BUCKETS
      && forall k :: 0 <= k < HISTOGRAM_BUCKETS ==>
           BucketEnd(k) >= 0 && resp[HistogramKey].buckets[k] == Bucket(flat, k)
  }

  /** `width` and `height` are those of the image as decoded, before any
      resizing. */
  ghost predicate MetadataMatches(resp: Response, width: nat, height: nat)
  {
    && WidthKey in resp && resp[WidthKey] == IntField(width)
    && HeightKey in resp && resp[HeightKey] == IntField(height)
    && AlgorithmKey in resp && resp[AlgorithmKey] == TextField(LUMINANCE_ALGORITHM)
  }

  /** What each field of the response holds for the grid `lum` of an image
      of `width` x `height`. */
  ghost predicate ResponseMatches(resp: Response, lum: seq<seq<real>>, width: nat, height: nat,
                                  metrics: set<string>, edgeMode: Option<string>)
    requires Ready(lum, edgeMode)
  {
    var flat := Flatten(lum);
    && BrightnessMatches(resp, flat, metrics)
    && EdgeMatches(resp, lum, edgeMode)
    && MedianMatches(resp, flat, metrics)
    && HistogramMatches(resp, flat, metrics)
    && MetadataMatches(resp, width, height)
  }

  /** `b` keeps every field of `a` unchanged. */
  ghost predicate Extends(a: Response, b: Response)
  {
    forall f :: f in a ==> f in b && b[f] == a[f]
  }

  /** Adding fields never falsifies what the fields already there state. */
  lemma ExtendsKeepsMatches(a: Response, b: Response, lum: seq<seq<real>>, width: nat, height: nat,
                            metrics: set<string>, edgeMode: Option<string>)
    requires Ready(lum, edgeMode)
    requires Extends(a, b)
    ensures BrightnessMatches(a, Flatten(lum), metrics) ==> BrightnessMatches(b, Flatten(lum), metrics)
    ensures EdgeMatches(a, lum, edgeMode) ==> EdgeMatches(b, lum, edgeMode)
    ensures MedianMatches(a, Flatten(lum), metrics) ==> MedianMatches(b, Flatten(lum), metrics)
    ensures HistogramMatches(a, Flatten(lum), metrics) ==> HistogramMatches(b, Flatten(lum), metrics)
  {
  }

  /** Each block's fields survive the blocks after it. */
  lemma BlocksCompose(r1: Response, r2: Response, r3: Response, r4: Response, r5: Response,
                      lum: seq<seq<real>>, width: nat, height: nat,
                      metrics: set<string>, edgeMode: Option<string>)
    requires Ready(lum, edgeMode)
    requires Extends(r1, r2) && Extends(r2, r3) && Extends(r3, r4) && Extends(r4, r5)
    requires BrightnessMatches(r1, Flatten(lum), metrics)
    requires EdgeMatches(r2, lum, edgeMode)
    requires MedianMatches(r3, Flatten(lum), metrics)
    requires HistogramMatches(r4, Flatten(lum), metrics)
    requires MetadataMatches(r5, width, height)
    ensures ResponseMatches(r5, lum, width, height, metrics, edgeMode)
  {
    ExtendsKeepsMatches(r1, r2, lum, width, height, metrics, edgeMode);
    ExtendsKeepsMatches(r2, r3, lum, width, height, metrics, edgeMode);
    ExtendsKeepsMatches(r3, r4, lum, width, height, metrics, edgeMode);
    ExtendsKeepsMatches(r4, r5, lum, width, height, metrics, edgeMode);
  }

  /** The `brightness` block: mean luminance and its 0-100 score. */
  method AddBrightness(response: Response, flat: seq<real>, requestedMetrics: set<string>)
    returns (out: Response)
    requires |flat| > 0
    requires response.Keys !! BrightnessFields(requestedMetrics)
    ensures out.Keys == response.Keys + BrightnessFields(requestedMetrics)
    ensures Extends(response, out)
    ensures BrightnessMatches(out, flat, requestedMetrics)
  {
    out := response;
    if "brightness" in requestedMetrics {
      var avgLuminance := Mean(flat);
      out := out[BrightnessScoreKey := IntField(BrightnessScore(avgLuminance))];
      out := out[AverageLuminanceKey := RealField(Round2(avgLuminance))];
    }
  }

  /** The edge block, present exactly when an edge mode was given. */
  method AddEdge(response: Response, luminance: seq<seq<real>>, validatedEdgeMode: Option<string>)
    returns (out: Response)
    requires |luminance| >= 1
    requires validatedEdgeMode.Some? ==>
               CalculateEdgeLuminance(luminance, validatedEdgeMode.value).Some?
               && |CalculateEdgeLuminance(luminance, validatedEdgeMode.value).value| > 0
    requires response.Keys !! EdgeFields(validatedEdgeMode)
    ensures out.Keys == response.Keys + EdgeFields(validatedEdgeMode)
    ensures Extends(response, out)
    ensures EdgeMatches(out, luminance, validatedEdgeMode)
  {
    out := response;
    if validatedEdgeMode.Some? {
      var edgeValues := CalculateEdgeLuminance(luminance, validatedEdgeMode.value).value;
      var edgeAvgLuminance := Mean(edgeValues);
      out := out[EdgeBrightnessScoreKey := IntField(BrightnessScore(edgeAvgLuminance))];
      out := out[EdgeAverageLuminanceKey := RealField(Round2(edgeAvgLuminance))];
      out := out[EdgeModeKey := TextField(validatedEdgeMode.value)];
    }
  }

  /** The `median` block. */
  method AddMedian(response: Response, flat: seq<real>, requestedMetrics: set<string>)
    returns (out: Response)
    requires |flat| > 0
    requires response.Keys !! MedianFields(requestedMetrics)
    ensures out.Keys == response.Keys + MedianFields(requestedMetrics)
    ensures Extends(response, out)
    ensures MedianMatches(out, flat, requestedMetrics)
  {
    out := response;
    if "median" in requestedMetrics {
      out := out[MedianLuminanceKey := RealField(Round2(Median(flat)))];
    }
  }

  /** The `histogram` block. */
  method AddHistogram(response: Response, luminance: seq<seq<real>>, requestedMetrics: set<string>)
    returns (out: Response)
    requires |Flatten(luminance)| > 0
    requires response.Keys !! HistogramFields(requestedMetrics)
    ensures out.Keys == response.Keys + HistogramFields(requestedMetrics)
    ensures Extends(response, out)
    ensures HistogramMatches(out, Flatten(luminance), requestedMetrics)
  {
    out := response;
    if "histogram" in requestedMetrics {
      var histogram := CalculateHistogram(luminance);
      out := out[HistogramKey := HistogramField(histogram)];
    }
  }

  /** The metadata every successful response carries. */
  method AddMetadata(response: Response, originalWidth: nat, originalHeight: nat)
    returns (out: Response)
    requires response.Keys !! METADATA_FIELDS
    ensures out.Keys == response.Keys + METADATA_FIELDS
    ensures Extends(response, out)
    ensures MetadataMatches(out, originalWidth, originalHeight)
  {
    out := response[WidthKey := IntField(originalWidth)];
    out := out[HeightKey := IntField(originalHeight)];
    out := out[AlgorithmKey := TextField(LUMINANCE_ALGORITHM)];
  }

  /** No two groups name the same field, so no block overwrites another's. */
  lemma GroupsDisjoint(metrics: set<string>, edgeMode: Option<string>)
    ensures BrightnessFields(metrics) !! EdgeFields(edgeMode)
    ensures BrightnessFields(metrics) + EdgeFields(edgeMode) !! MedianFields(metrics)
    ensures BrightnessFields(metrics) + EdgeFields(edgeMode) + MedianFields(metrics)
            !! HistogramFields(metrics)
    ensures BrightnessFields(metrics) + EdgeFields(edgeMode) + MedianFields(metrics)
            + HistogramFields(metrics) !! METADATA_FIELDS
  {
  }

  /** The response-building half of `_process_image_bytes`: each requested
      group of fields, then the metadata. */
  method AssembleResponse(luminance: seq<seq<real>>, originalWidth: nat, originalHeight: nat,
                          requestedMetrics: set<string>, validatedEdgeMode: Option<string>)
    returns (response: Response)
    requires Ready(luminance, validatedEdgeMode)
    ensures response.Keys == ResponseFields(requestedMetrics, validatedEdgeMode)
    ensures ResponseMatches(response, luminance, originalWidth, originalHeight,
                            requestedMetrics, validatedEdgeMode)
  {
    var flat := Flatten(luminance);
    GroupsDisjoint(requestedMetrics, validatedEdgeMode);
    ghost var b, e, m, h := BrightnessFields(requestedMetrics), EdgeFields(validatedEdgeMode),
                            MedianFields(requestedMetrics), HistogramFields(requestedMetrics);
    var r1 := AddBrightness(map[], flat, requestedMetrics);
    assert r1.Keys == b;
    var r2 := AddEdge(r1, luminance, validatedEdgeMode);
    assert r2.Keys == b + e;
    var r3 := AddMedian(r2, flat, requestedMetrics);
    assert r3.Keys == b + e + m;
    var r4 := AddHistogram(r3, luminance, requestedMetrics);
    assert r4.Keys == b + e + m + h;
    response := AddMetadata(r4, originalWidth, originalHeight);
    assert response.Keys == b + e + m + h + METADATA_FIELDS;
    BlocksCompose(r1, r2, r3, r4, response, luminance, originalWidth, originalHeight,
                  requestedMetrics, validatedEdgeMode);
  }

  /** `_process_image_bytes(contents, requested_metrics, validated_edge_mode)`:
      a 400 when the bytes do not decode, otherwise the fields requested,
      computed on the (possibly resized) image. */
  method ProcessImageBytes(contents: seq<byte>, decode: seq<byte> -> Option<Image>,
                           resample: (Image, nat, nat) -> Image,
                           requestedMetrics: set<string>, validatedEdgeMode: Option<string>)
    returns (r: Result<Response, ApiError>)
    requires decode(contents).Some? ==> WellFormed(decode(contents).value)
    requires ResampleSound(resample)
    requires validatedEdgeMode.Some? ==> validatedEdgeMode.value in VALID_EDGE_MODES
    ensures r.Failure? <==> decode(contents).None?
    ensures r.Failure? ==> r.error == CorruptImage
    ensures r.Success? ==> r.value.Keys == ResponseFields(requestedMetrics, validatedEdgeMode)
    ensures r.Success? ==> Analysable(Analysed(decode(contents).value, resample))
    ensures r.Success? ==> Ready(Analysed(decode(contents).value, resample), validatedEdgeMode)
    ensures r.Success? ==>
              var img := decode(contents).value;
              ResponseMatches(r.value, Analysed(img, resample), img.width, img.height,
                              requestedMetrics, validatedEdgeMode)
  {
    var decoded := decode(contents);
    if decoded.None? {
      return Failure(CorruptImage);
    }
    var img := decoded.value;
    var originalWidth, originalHeight := img.width, img.height;
    var resized := Resized(img, resample);
    var luminance := CalculateLuminance(resized.pixels);
    AnalysedShape(img, resample);
    var response := AssembleResponse(luminance, originalWidth, originalHeight,
                                     requestedMetrics, validatedEdgeMode);
    return Success(response);
  }

  /** `b` still states all `a` does about the response. */
  lemma ExtendsKeepsResponse(a: Response, b: Response, lum: seq<seq<real>>, width: nat, height: nat,
                             metrics: set<string>, edgeMode: Option<string>)
    requires Ready(lum, edgeMode)
    requires Extends(a, b)
    requires ResponseMatches(a, lum, width, height, metrics, edgeMode)
    ensures ResponseMatches(b, lum, width, height, metrics, edgeMode)
  {
    ExtendsKeepsMatches(a, b, lum, width, height, metrics, edgeMode);
  }

  /** `processing_time_ms` is added after `_process_image_bytes`, to a key
      it never sets. */
  lemma TimeKeyFresh(metrics: set<string>, edgeMode: Option<string>)
    ensures ProcessingTimeKey !in ResponseFields(metrics, edgeMode)
  {
  }

  /** The decoder returns images whose pixels fill their stated size. */
  ghost predicate DecodeSound(decode: seq<byte> -> Option<Image>)
  {
    forall bytes :: decode(bytes).Some? ==> WellFormed(decode(bytes).value)
  }

  /** The grid of any decoded image is ready for any valid edge mode. */
  lemma AnalysedReady(img: Image, resample: (Image, nat, nat) -> Image, edgeMode: Option<string>)
    requires WellFormed(img) && ResampleSound(resample)
    requires edgeMode.Some? ==> edgeMode.value in VALID_EDGE_MODES
    ensures Ready(Analysed(img, resample), edgeMode)
  {
    AnalysedShape(img, resample);
  }

  /** What a successful endpoint call returns for `contents`: the fields of
      `_process_image_bytes`, each computed on the decoded image, and
      `processing_time_ms`, the elapsed time in milliseconds to two places. */
  ghost predicate TimedResponse(resp: Response, contents: seq<byte>,
                                decode: seq<byte> -> Option<Image>,
                                resample: (Image, nat, nat) -> Image,
                                metrics: set<string>, edgeMode: Option<string>,
                                elapsedSeconds: real)
    requires DecodeSound(decode) && ResampleSound(resample)
    requires edgeMode.Some? ==> edgeMode.value in VALID_EDGE_MODES
  {
    && decode(contents).Some?
    && var img := decode(contents).value;
       AnalysedReady(img, resample, edgeMode);
       && resp.Keys == ResponseFields(metrics, edgeMode) + {ProcessingTimeKey}
       && ResponseMatches(resp, Analysed(img, resample), img.width, img.height, metrics, edgeMode)
       && resp[ProcessingTimeKey] == RealField(Round2(elapsedSeconds * 1000.0))
  }

  /** The common tail of both endpoints: `_process_image_bytes`, then the
      processing time. */
  method ProcessAndTime(contents: seq<byte>, decode: seq<byte> -> Option<Image>,
                        resample: (Image, nat, nat) -> Image,
                        requestedMetrics: set<string>, validatedEdgeMode: Option<string>,
                        elapsedSeconds: real)
    returns (r: Result<Response, ApiError>)
    requires DecodeSound(decode) && ResampleSound(resample)
    requires validatedEdgeMode.Some? ==> validatedEdgeMode.value in VALID_EDGE_MODES
    ensures r.Failure? <==> decode(contents).None?
    ensures r.Failure? ==> r.error == CorruptImage
    ensures r.Success? ==>
              TimedResponse(r.value, contents, decode, resample, requestedMetrics, validatedEdgeMode,
                            elapsedSeconds)
  {
    var processed := ProcessImageBytes(contents, decode, resample, requestedMetrics, validatedEdgeMode);
    if processed.Failure? {
      return Failure(processed.error);
    }
    var response := processed.value;
    TimeKeyFresh(requestedMetrics, validatedEdgeMode);
    response := response[ProcessingTimeKey := RealField(Round2(elapsedSeconds * 1000.0))];
    var img := decode(contents).value;
    ExtendsKeepsResponse(processed.value, response, Analysed(img, resample), img.width, img.height,
                         requestedMetrics, validatedEdgeMode);
    return Success(response);
  }

  /** `POST /v1/image/analysis`: the metrics, then the edge mode, then the
      upload are validated, in that order; the first failure is the answer.
      `uploadRead` tells whether the upload's bytes were read, which happens
      only once the content type has passed. */
  method AnalyzeImage(contentType: Option<string>, upload: seq<byte>,
                      metrics: Option<string>, edgeMode: Option<string>,
                      decode: seq<byte> -> Option<Image>, resample: (Image, nat, nat) -> Image,
                      elapsedSeconds: real)
    returns (r: Result<Response, ApiError>, uploadRead: bool)
    requires DecodeSound(decode) && ResampleSound(resample)
    ensures ValidateMetrics(metrics).Failure? ==>
              r == Failure(ValidateMetrics(metrics).error) && !uploadRead
    ensures ValidateMetrics(metrics).Success? && ValidateEdgeMode(edgeMode).Failure? ==>
              r == Failure(ValidateEdgeMode(edgeMode).error) && !uploadRead
    ensures uploadRead <==>
              ValidateMetrics(metrics).Success? && ValidateEdgeMode(edgeMode).Success?
              && ContentTypeAllowed(contentType)
    ensures ValidateMetrics(metrics).Success? && ValidateEdgeMode(edgeMode).Success?
            && ValidateImageUpload(contentType, upload).Failure? ==>
              r == Failure(ValidateImageUpload(contentType, upload).error)
    ensures ValidateMetrics(metrics).Success? && ValidateEdgeMode(edgeMode).Success?
            && ValidateImageUpload(contentType, upload).Success? && decode(upload).None? ==>
              r == Failure(CorruptImage)
    ensures r.Success? <==>
              ValidateMetrics(metrics).Success? && ValidateEdgeMode(edgeMode).Success?
              && ValidateImageUpload(contentType, upload).Success? && decode(upload).Some?
    ensures r.Success? ==>
              TimedResponse(r.value, upload, decode, resample, ValidateMetrics(metrics).value,
                            ValidateEdgeMode(edgeMode).value, elapsedSeconds)
  {
    uploadRead := false;
    var requestedMetrics := ValidateMetrics(metrics);
    if requestedMetrics.Failure? {
      return Failure(requestedMetrics.error), uploadRead;
    }
    var validatedEdgeMode := ValidateEdgeMode(edgeMode);
    if validatedEdgeMode.Failure? {
      return Failure(validatedEdgeMode.error), uploadRead;
    }
    uploadRead := ContentTypeAllowed(contentType);
    var contents := ValidateImageUpload(contentType, upload);
    if contents.Failure? {
      return Failure(contents.error), uploadRead;
    }
    r := ProcessAndTime(contents.value, decode, resample, requestedMetrics.value,
                        validatedEdgeMode.value, elapsedSeconds);
  }

  /** `POST /v1/image/analysis/url`: the same order, with the download in
      place of the upload check. `download` is what the URL fetcher returns
      or raises; what it raises is always a `DownloadFailed`. `fetched`
      tells whether it was called, which happens only once both parameters
      have passed. */
  method AnalyzeImageFromUrl(metrics: Option<string>, edgeMode: Option<string>,
                             download: Result<seq<byte>, ApiError>,
                             decode: seq<byte> -> Option<Image>, resample: (Image, nat, nat) -> Image,
                             elapsedSeconds: real)
    returns (r: Result<Response, ApiError>, fetched: bool)
    requires DecodeSound(decode) && ResampleSound(resample)
    requires download.Failure? ==> download.error.DownloadFailed?
    ensures ValidateMetrics(metrics).Failure? ==>
              r == Failure(ValidateMetrics(metrics).error) && !fetched
    ensures ValidateMetrics(metrics).Success? && ValidateEdgeMode(edgeMode).Failure? ==>
              r == Failure(ValidateEdgeMode(edgeMode).error) && !fetched
    ensures fetched <==> ValidateMetrics(metrics).Success? && ValidateEdgeMode(edgeMode).Success?
    ensures fetched && download.Failure? ==> r == Failure(download.error)
    ensures fetched && download.Success? && decode(download.value).None? ==> r == Failure(CorruptImage)
    ensures r.Success? <==> fetched && download.Success? && decode(download.value).Some?
    ensures r.Success? ==>
              TimedResponse(r.value, download.value, decode, resample, ValidateMetrics(metrics).value,
                            ValidateEdgeMode(edgeMode).value, elapsedSeconds)
  {
    fetched := false;
    var requestedMetrics := ValidateMetrics(metrics);
    if requestedMetrics.Failure? {
      return Failure(requestedMetrics.error), fetched;
    }
    var validatedEdgeMode := ValidateEdgeMode(edgeMode);
    if validatedEdgeMode.Failure? {
      return Failure(validatedEdgeMode.error), fetched;
    }
    fetched := true;
    if download.Failure? {
      return Failure(download.error), fetched;
    }
    r := ProcessAndTime(download.value, decode, resample, requestedMetrics.value,
                        validatedEdgeMode.value, elapsedSeconds);
  }

  /** Every score a response carries lies in [0, 100], every luminance in
      [0, 255] and every histogram share in [0, 100]. */
  lemma ResponseInRange(resp: Response, lum: seq<seq<real>>, width: nat, height: nat,
                        metrics: set<string>, edgeMode: Option<string>)
    requires Analysable(lum) && Ready(lum, edgeMode)
    requires ResponseMatches(resp, lum, width, height, metrics, edgeMode)
    ensures "brightness" in metrics ==>
              && 0 <= resp[BrightnessScoreKey].i <= 100
              && 0.0 <= resp[AverageLuminanceKey].x <= 255.0
    ensures edgeMode.Some? ==>
              && 0 <= resp[EdgeBrightnessScoreKey].i <= 100
              && 0.0 <= resp[EdgeAverageLuminanceKey].x <= 255.0
    ensures "median" in metrics ==> 0.0 <= resp[MedianLuminanceKey].x <= 255.0
    ensures "histogram" in metrics ==>
              forall k :: 0 <= k < |resp[HistogramKey].buckets| ==>
                0.0 <= resp[HistogramKey].buckets[k].percent <= 100.0
  {
    var flat := Flatten(lum);
    MeanBounds(flat, 0.0, 255.0);
    MedianBounds(flat, 0.0, 255.0);
    if edgeMode.Some? {
      EdgeBounded(lum, edgeMode.value, 0.0, 255.0);
      MeanBounds(CalculateEdgeLuminance(lum, edgeMode.value).value, 0.0, 255.0);
    }
  }

  /** The same, for what either endpoint returns. */
  lemma TimedResponseInRange(resp: Response, contents: seq<byte>,
                             decode: seq<byte> -> Option<Image>,
                             resample: (Image, nat, nat) -> Image,
                             metrics: set<string>, edgeMode: Option<string>,
                             elapsedSeconds: real)
    requires DecodeSound(decode) && ResampleSound(resample)
    requires edgeMode.Some? ==> edgeMode.value in VALID_EDGE_MODES
    requires TimedResponse(resp, contents, decode, resample, metrics, edgeMode, elapsedSeconds)
    ensures "brightness" in metrics ==>
              && 0 <= resp[BrightnessScoreKey].i <= 100
              && 0.0 <= resp[AverageLuminanceKey].x <= 255.0
    ensures edgeMode.Some? ==>
              && 0 <= resp[EdgeBrightnessScoreKey].i <= 100
              && 0.0 <= resp[EdgeAverageLuminanceKey].x <= 255.0
    ensures "median" in metrics ==> 0.0 <= resp[MedianLuminanceKey].x <= 255.0
  {
    var img := decode(contents).value;
    AnalysedShape(img, resample);
    AnalysedReady(img, resample, edgeMode);
    ResponseInRange(resp, Analysed(img, resample), img.width, img.height, metrics, edgeMode);
  }

  /** A request with neither `metrics` nor `edge_mode` gets the brightness
      fields, the metadata and the processing time, and nothing else. */
  lemma DefaultRequestFields()
    ensures ValidateMetrics(None) == Success(DEFAULT_METRICS)
    ensures ValidateEdgeMode(None) == Success(None)
    ensures ResponseFields(DEFAULT_METRICS, None) + {ProcessingTimeKey} ==
            {BrightnessScoreKey, AverageLuminanceKey, WidthKey, HeightKey, AlgorithmKey, ProcessingTimeKey}
  {
  }

  /** All metrics and an edge mode: every field. */
  lemma FullRequestFields(mode: string)
    ensures ResponseFields(VALID_METRICS, Some(mode)) + {ProcessingTimeKey} ==
            {BrightnessScoreKey, AverageLuminanceKey, EdgeBrightnessScoreKey, EdgeAverageLuminanceKey,
             EdgeModeKey, MedianLuminanceKey, HistogramKey, WidthKey, HeightKey, AlgorithmKey,
             ProcessingTimeKey}
  {
  }

  /** A decoder that reads every upload as one black pixel, and a resampler
      that paints the requested size black. */
  function BlackPixelDecoder(bytes: seq<byte>): Option<Image>
  {
    Some(Image(1, 1, [[Pixel(0, 0, 0)]]))
  }

  function BlackResample(img: Image, w: nat, h: nat): (out: Image)
    ensures out.width == w && out.height == h && IsGrid(out.pixels, h, w)
  {
    Image(w, h, seq(h, _ => seq(w, _ => Pixel(0, 0, 0))))
  }

  lemma BlackStubsSound()
    ensures DecodeSound(BlackPixelDecoder)
    ensures ResampleSound(BlackResample)
  {
  }

  /** The black pixel needs no resizing and has luminance 0. */
  lemma BlackPixelAnalysed()
    ensures Analysed(Image(1, 1, [[Pixel(0, 0, 0)]]), BlackResample) == [[0.0]]
    ensures Flatten([[0.0]]) == [0.0]
  {
    var img := Image(1, 1, [[Pixel(0, 0, 0)]]);
    assert Resized(img, BlackResample) == img;
    GreyLuma(0);
    var lum := Analysed(img, BlackResample);
    assert |lum| == 1 && |lum[0]| == 1 && lum[0][0] == 0.0;
    assert lum[0] == [0.0];
    assert Flatten([[0.0]]) == [0.0] + Flatten([]);
  }

  /** A PNG upload of a black pixel with default parameters scores 0. */
  method BlackUploadScenario()
  {
    BlackStubsSound();
    var r, uploadRead := AnalyzeImage(Some("image/png"), [1 as byte], None, None,
                                      BlackPixelDecoder, BlackResample, 0.25);
    assert ContentTypeAllowed(Some("image/png"));
    assert uploadRead && r.Success?;
    BlackPixelAnalysed();
    BrightnessScoreExamples();
    assert r.value[BrightnessScoreKey] == IntField(0);
    assert r.value[WidthKey] == IntField(1);
    assert HistogramKey !in r.value;
  }
}
