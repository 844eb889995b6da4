/**
 * The scan request: the JSON body of `POST /scan`, in which every field may be
 * absent, and the option record the handler derives from it by filling in a
 * default for each absent field and splitting `exclude` on commas.
 */
module Options {
  import opened Wrappers
  import opened PyStr

  /** The body of a scan request; `None` is a field the client left out. */
  datatype ScanRequest = ScanRequest(
    url: Option<string>,
    excludeExternal: Option<bool>,
    excludeInternal: Option<bool>,
    recursive: Option<bool>,
    ordered: Option<bool>,
    verbose: Option<bool>,
    follow: Option<bool>,
    get: Option<bool>,
    filterLevel: Option<int>,
    requests: Option<int>,
    hostRequests: Option<int>,
    userAgent: Option<string>,
    exclude: Option<string>)

  /** The arguments `call_blc` receives. `keywords` are the raw comma-separated pieces, not yet trimmed. */
  datatype ScanOptions = ScanOptions(
    url: string,
    excludeExternal: bool,
    excludeInternal: bool,
    recursive: bool,
    ordered: bool,
    verbose: bool,
    follow: bool,
    get: bool,
    filterLevel: int,    // -1 means "not set"
    requests: int,       // 0 means "not set"
    hostRequests: int,   // 0 means "not set"
    userAgent: string,
    keywords: seq<string>)

  const DefaultUserAgent := "Mozilla/5.0"
  const UnsetFilterLevel := -1

  /** A request body with every field left out. */
  const EmptyRequest := ScanRequest(None, None, None, None, None, None, None, None, None, None, None, None, None)

  /** The handler's `data.get(field, default)` for each field, then `exclude.split(",")`. */
  function OptionsOf(body: ScanRequest): (o: ScanOptions)
    ensures |o.keywords| >= 1
    ensures forall i :: 0 <= i < |o.keywords| ==> ',' !in o.keywords[i]
    ensures Join(o.keywords, ',') == body.exclude.GetOr("")
  {
    ScanOptions(
      body.url.GetOr(""),
      body.excludeExternal.GetOr(false),
      body.excludeInternal.GetOr(false),
      body.recursive.GetOr(false),
      body.ordered.GetOr(false),
      body.verbose.GetOr(false),
      body.follow.GetOr(false),
      body.get.GetOr(false),
      body.filterLevel.GetOr(UnsetFilterLevel),
      body.requests.GetOr(0),
      body.hostRequests.GetOr(0),
      body.userAgent.GetOr(DefaultUserAgent),
      Split(body.exclude.GetOr(""), ','))
  }

  /** Every field the client leaves out takes its documented default; `exclude` defaults to one empty piece. */
  lemma EmptyRequestDefaults()
    ensures OptionsOf(EmptyRequest) ==
      ScanOptions("", false, false, false, false, false, false, false, -1, 0, 0, "Mozilla/5.0", [""])
  {
  }

  /** A supplied `exclude` made of comma-free pieces joined by commas splits back into exactly those pieces. */
  lemma ExcludeSplitsIntoPieces(body: ScanRequest, pieces: seq<string>)
    requires body.exclude.Some?
    requires |pieces| >= 1 && forall i :: 0 <= i < |pieces| ==> ',' !in pieces[i]
    requires body.exclude.value == Join(pieces, ',')
    ensures OptionsOf(body).keywords == pieces
  {
    SplitJoin(pieces, ',');
  }
}
