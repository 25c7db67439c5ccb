/** `app/core/validators.py`: the query-parameter parsers and the upload
    checks. */
module Validators {
  import opened Wrappers
  import opened Config
  import opened Strings
  import opened Errors

  const VALID_METRICS: set<string> := {"brightness", "median", "histogram"}
  const DEFAULT_METRICS: set<string> := {"brightness"}
  const VALID_EDGE_MODES: set<string> := {"left_right", "top_bottom", "all"}

  /** `s.strip().lower()`. */
  function Normalize(s: string): (r: string)
    ensures |r| == |Strip(s)|
    ensures forall k :: 0 <= k < |r| ==> !('A' <= r[k] <= 'Z')
  {
    Lower(Strip(s))
  }

  /** The metric names a `metrics` parameter asks for: its comma-separated
      items, normalised, with blank items dropped and duplicates merged. */
  function Requested(metrics: string): (names: set<string>)
    ensures "" !in names
  {
    set p | p in Split(metrics, ',') && Strip(p) != "" :: Normalize(p)
  }

  /** `validate_metrics`. */
  function ValidateMetrics(metrics: Option<string>): (r: Result<set<string>, ApiError>)
    ensures metrics.None? ==> r == Success(DEFAULT_METRICS)
    ensures r.Success? ==> r.value != {} && r.value <= VALID_METRICS
    ensures metrics.Some? ==>
              (r.Failure? <==> Requested(metrics.value) - VALID_METRICS != {})
    ensures r.Failure? ==>
              metrics.Some? && r.error == InvalidMetrics(Requested(metrics.value) - VALID_METRICS)
    ensures metrics.Some? && r.Success? ==>
              r.value == if Requested(metrics.value) == {} then DEFAULT_METRICS
                         else Requested(metrics.value)
  {
    match metrics
    case None => Success(DEFAULT_METRICS)
    case Some(text) =>
      var requested := Requested(text);
      var invalid := requested - VALID_METRICS;
      if invalid != {} then Failure(InvalidMetrics(invalid))
      else if requested == {} then Success(DEFAULT_METRICS)
      else Success(requested)
  }

  /** A `metrics` parameter written as a list of comma-free items asks for
      exactly the normalised non-blank items. */
  lemma RequestedOfJoin(items: seq<string>)
    requires |items| >= 1
    requires forall k :: 0 <= k < |items| ==> ',' !in items[k]
    ensures Requested(Join(items, ',')) ==
            set p | p in items && Strip(p) != "" :: Normalize(p)
  {
    SplitJoin(items, ',');
  }

  /** The set a two-item list denotes, when neither item is blank. */
  lemma PairNames(a: string, b: string)
    requires Strip(a) != "" && Strip(b) != ""
    ensures (set p | p in [a, b] && Strip(p) != "" :: Normalize(p)) == {Normalize(a), Normalize(b)}
  {
  }

  /** A parameter that splits into two non-blank items asks for their two
      normalised names. */
  lemma RequestedOfSplitPair(metrics: string, a: string, b: string, na: string, nb: string)
    requires Split(metrics, ',') == [a, b]
    requires Strip(a) != "" && Strip(b) != "" && Normalize(a) == na && Normalize(b) == nb
    ensures Requested(metrics) == {na, nb}
  {
    PairNames(a, b);
  }

  /** The names asked for by a two-item list whose items are not blank. */
  lemma RequestedOfPair(a: string, b: string)
    requires ',' !in a && ',' !in b
    requires Strip(a) != "" && Strip(b) != ""
    ensures Requested(Join([a, b], ',')) == {Normalize(a), Normalize(b)}
  {
    RequestedOfJoin([a, b]);
    PairNames(a, b);
  }

  /** Facts about the literals of the examples below, one at a time. */
  lemma NoCommaMedian()
    ensures ',' !in "Median"
  {
  }

  lemma LowerMedian()
    ensures Lower("Median") == "median"
  {
  }

  lemma NoCommaUpperBrightness()
    ensures ',' !in " BRIGHTNESS"
  {
  }

  lemma LowerUpperBrightness()
    ensures Lower("BRIGHTNESS") == "brightness"
  {
  }

  lemma NoCommaBrightness()
    ensures ',' !in "brightness"
  {
  }

  lemma LowerBrightness()
    ensures Lower("brightness") == "brightness"
  {
  }

  lemma NoCommaFoo()
    ensures ',' !in "foo"
  {
  }

  lemma LowerFoo()
    ensures Lower("foo") == "foo"
  {
  }

  lemma NormalizeMedian()
    ensures ',' !in "Median" && Strip("Median") == "Median"
    ensures Normalize("Median") == "median"
  {
    NoCommaMedian();
    StripUnchanged("Median");
    LowerMedian();
  }

  lemma NormalizeUpperBrightness()
    ensures ',' !in " BRIGHTNESS" && Strip(" BRIGHTNESS") == "BRIGHTNESS"
    ensures Normalize(" BRIGHTNESS") == "brightness"
  {
    NoCommaUpperBrightness();
    StripLeadingSpace(" BRIGHTNESS");
    assert " BRIGHTNESS"[1..] == "BRIGHTNESS";
    StripUnchanged("BRIGHTNESS");
    LowerUpperBrightness();
  }

  lemma NormalizeBrightness()
    ensures ',' !in "brightness" && Strip("brightness") == "brightness"
    ensures Normalize("brightness") == "brightness"
  {
    NoCommaBrightness();
    StripUnchanged("brightness");
    LowerBrightness();
  }

  lemma NormalizeFoo()
    ensures ',' !in "foo" && Strip("foo") == "foo"
    ensures Normalize("foo") == "foo"
  {
    NoCommaFoo();
    StripUnchanged("foo");
    LowerFoo();
  }

  lemma JoinMixedCase()
    ensures Join(["Median", " BRIGHTNESS"], ',') == "Median, BRIGHTNESS"
  {
  }

  lemma SplitMixedCase()
    ensures Split("Median, BRIGHTNESS", ',') == ["Median", " BRIGHTNESS"]
  {
    NoCommaMedian();
    NoCommaUpperBrightness();
    SplitJoin(["Median", " BRIGHTNESS"], ',');
    JoinMixedCase();
  }

  lemma RequestedMixedCase()
    ensures Requested("Median, BRIGHTNESS") == {"brightness", "median"}
  {
    SplitMixedCase();
    NormalizeMedian();
    NormalizeUpperBrightness();
    RequestedOfSplitPair("Median, BRIGHTNESS", "Median", " BRIGHTNESS", "median", "brightness");
  }

  /** Case and surrounding blanks do not matter: "Median, BRIGHTNESS" asks
      for {"brightness", "median"}. */
  lemma ValidateMetricsNormalises()
    ensures ValidateMetrics(Some("Median, BRIGHTNESS")) == Success({"brightness", "median"})
  {
    RequestedMixedCase();
  }

  /** A parameter with no non-blank item falls back to the default. */
  lemma ValidateMetricsBlank()
    ensures ValidateMetrics(Some("")) == Success(DEFAULT_METRICS)
    ensures ValidateMetrics(Some(",")) == Success(DEFAULT_METRICS)
  {
    assert Split("", ',') == [""];
    assert Requested("") == {};
    RequestedOfJoin(["", ""]);
    assert Join(["", ""], ',') == ",";
    assert Requested(",") == {};
  }

  lemma JoinUnknown()
    ensures Join(["brightness", "foo"], ',') == "brightness,foo"
  {
  }

  lemma SplitUnknown()
    ensures Split("brightness,foo", ',') == ["brightness", "foo"]
  {
    NoCommaBrightness();
    NoCommaFoo();
    SplitJoin(["brightness", "foo"], ',');
    JoinUnknown();
  }

  lemma RequestedUnknown()
    ensures Requested("brightness,foo") == {"brightness", "foo"}
  {
    SplitUnknown();
    NormalizeBrightness();
    NormalizeFoo();
    RequestedOfSplitPair("brightness,foo", "brightness", "foo", "brightness", "foo");
  }

  lemma UnknownNames()
    ensures {"brightness", "foo"} - VALID_METRICS == {"foo"}
  {
  }

  /** An unknown name is reported, and only the unknown names are. */
  lemma ValidateMetricsRejects()
    ensures ValidateMetrics(Some("brightness,foo")) == Failure(InvalidMetrics({"foo"}))
  {
    RequestedUnknown();
    UnknownNames();
  }

  /** `validate_edge_mode`. */
  function ValidateEdgeMode(mode: Option<string>): (r: Result<Option<string>, ApiError>)
    ensures mode.None? ==> r == Success(None)
    ensures mode.Some? ==> (r.Success? <==> Normalize(mode.value) in VALID_EDGE_MODES)
    ensures mode.Some? && r.Success? ==> r.value == Some(Normalize(mode.value))
    ensures r.Failure? ==> mode.Some? && r.error == InvalidEdgeMode(mode.value)
    ensures r.Success? && r.value.Some? ==> r.value.value in VALID_EDGE_MODES
  {
    match mode
    case None => Success(None)
    case Some(text) =>
      var normalized := Normalize(text);
      if normalized !in VALID_EDGE_MODES then Failure(InvalidEdgeMode(text))
      else Success(Some(normalized))
  }

  lemma LowerSpacedAll()
    ensures Lower("ALL") == "all"
  {
  }

  lemma NormalizeSpacedAll()
    ensures Normalize(" ALL ") == "all"
  {
    StripLeadingSpace(" ALL ");
    assert " ALL "[1..] == "ALL ";
    StripTrailingSpace("ALL ");
    assert "ALL "[..3] == "ALL";
    StripUnchanged("ALL");
    LowerSpacedAll();
  }

  lemma NormalizeEmpty()
    ensures Normalize("") == ""
  {
    assert StripLeading("") == "";
    assert Lower("") == "";
  }

  /** The empty mode is an error, not "no mode". */
  lemma EmptyEdgeModeRejected()
    ensures ValidateEdgeMode(Some("")) == Failure(InvalidEdgeMode(""))
  {
    NormalizeEmpty();
    assert |""| == 0;
    assert "" !in VALID_EDGE_MODES;
  }

  /** Case and surrounding blanks do not matter: " ALL " is "all". */
  lemma SpacedEdgeModeAccepted()
    ensures ValidateEdgeMode(Some(" ALL ")) == Success(Some("all"))
  {
    NormalizeSpacedAll();
  }

  /** Whether `validate_image_upload` reads the body: only once the content
      type has been accepted. */
  predicate ContentTypeAllowed(contentType: Option<string>)
  {
    contentType.Some? && contentType.value in ALLOWED_CONTENT_TYPES
  }

  /** `validate_image_upload` given the declared content type and the bytes
      that reading the upload yields. */
  function ValidateImageUpload(contentType: Option<string>, contents: seq<byte>)
    : (r: Result<seq<byte>, ApiError>)
    ensures !ContentTypeAllowed(contentType) ==> r == Failure(UnsupportedImageType(contentType))
    ensures ContentTypeAllowed(contentType) && |contents| > MAX_FILE_SIZE ==>
              r == Failure(ImageTooLarge(|contents|))
    ensures ContentTypeAllowed(contentType) && |contents| == 0 ==> r == Failure(EmptyImageFile)
    ensures r.Success? <==>
              ContentTypeAllowed(contentType) && 0 < |contents| <= MAX_FILE_SIZE
    ensures r.Success? ==> r.value == contents
  {
    if !ContentTypeAllowed(contentType) then Failure(UnsupportedImageType(contentType))
    else if |contents| > MAX_FILE_SIZE then Failure(ImageTooLarge(|contents|))
    else if |contents| == 0 then Failure(EmptyImageFile)
    else Success(contents)
  }

  /** The status codes of the three upload checks, in the order they run. */
  lemma UploadStatusCodes(contents: seq<byte>)
    ensures StatusCode(ValidateImageUpload(Some("image/gif"), contents).error) == 415
    ensures StatusCode(ValidateImageUpload(Some("image/png"), []).error) == 400
    ensures |contents| > MAX_FILE_SIZE ==>
              StatusCode(ValidateImageUpload(Some("image/jpeg"), contents).error) == 413
  {
  }
}
