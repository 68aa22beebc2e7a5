/**
  The query checks at the head of `imageOptimizer`: the loader, then `url`, `w` and `q`, each
  answered with its own 400 message, the first failing check winning.
*/
module Validation {
  import opened Wrappers
  import opened JsText
  import Mime

  /** A query parameter: absent, given once, or given several times (an array). */
  datatype Param = Absent | Single(value: string) | Repeated(values: seq<string>)

  datatype Query = Query(url: Param, w: Param, q: Param)

  /** What `new URL(url)` yields: the serialised URL, its protocol and its host name. */
  datatype Url = Url(href: string, protocol: string, hostname: string)

  /** `new URL(text)`, supplied by the caller: `None` is a thrown `TypeError`. */
  type UrlParser = string -> Option<Url>

  /** The image configuration once destructured; `loader` is `""` when undefined. */
  datatype Config = Config(
    loader: string,
    deviceSizes: seq<int>,
    imageSizes: seq<int>,
    domains: seq<string>,
    minimumCacheTTL: int,
    formats: seq<string>)

  /** A request that passed every check. */
  datatype Accepted = Accepted(url: string, href: string, isAbsolute: bool, width: int, quality: int)

  /** A status code and the message the response is ended with. */
  datatype Rejection = Rejection(status: int, message: string)

  const NOT_FOUND := Rejection(404, "Not found")
  const URL_REQUIRED := Rejection(400, "\"url\" parameter is required")
  const URL_ARRAY := Rejection(400, "\"url\" parameter cannot be an array")
  const URL_INVALID := Rejection(400, "\"url\" parameter is invalid")
  const URL_NOT_ALLOWED := Rejection(400, "\"url\" parameter is not allowed")
  const WIDTH_REQUIRED := Rejection(400, "\"w\" parameter (width) is required")
  const WIDTH_ARRAY := Rejection(400, "\"w\" parameter (width) cannot be an array")
  const QUALITY_REQUIRED := Rejection(400, "\"q\" parameter (quality) is required")
  const QUALITY_ARRAY := Rejection(400, "\"q\" parameter (quality) cannot be an array")
  const WIDTH_NOT_POSITIVE := Rejection(400, "\"w\" parameter (width) must be a number greater than 0")
  const QUALITY_OUT_OF_RANGE := Rejection(400, "\"q\" parameter (quality) must be a number between 1 and 100")

  function WidthNotAllowed(width: int): Rejection {
    Rejection(400, "\"w\" parameter (width) of " + IntToString(width) + " is not allowed")
  }

  const DEFAULT_DEVICE_SIZES: seq<int> := [640, 750, 828, 1080, 1200, 1920, 2048, 3840]
  const DEFAULT_IMAGE_SIZES: seq<int> := [16, 32, 48, 64, 96, 128, 256, 384]

  /** `imageConfigDefault`: it has no `loader` field. */
  const DEFAULT_CONFIG := Config("", DEFAULT_DEVICE_SIZES, DEFAULT_IMAGE_SIZES, [], 60, [Mime.WEBP])

  /** `!param` is false: the parameter is there and not the empty string. */
  predicate Given(p: Param) {
    !p.Absent? && p != Single("")
  }

  /** The widths a request may ask for: the configured ones, plus the blur width in dev mode. */
  function AllowedWidths(config: Config, isDev: bool): seq<int> {
    config.deviceSizes + config.imageSizes + (if isDev then [Mime.BLUR_IMG_SIZE] else [])
  }

  /**
    The `url` check: a path starting with `/` is fetched from this server; anything else must be
    an http(s) URL on an allowed host. The result is the `href` to fetch and whether it is
    absolute.
  */
  function Target(url: string, config: Config, parseUrl: UrlParser): (r: Result<(string, bool), Rejection>)
    ensures r.Failure? ==> r.error == URL_INVALID || r.error == URL_NOT_ALLOWED
    ensures r.Success? ==> (r.value.1 <==> !StartsWith(url, "/"))
    ensures r.Success? && !r.value.1 ==> r.value.0 == url
    ensures r.Success? && r.value.1 ==>
      && parseUrl(url).Some?
      && parseUrl(url).value.protocol in {"http:", "https:"}
      && parseUrl(url).value.hostname in config.domains
      && r.value.0 == parseUrl(url).value.href
  {
    if StartsWith(url, "/") then Success((url, false))
    else match parseUrl(url)
      case None => Failure(URL_INVALID)
      case Some(u) =>
        if u.protocol != "http:" && u.protocol != "https:" then Failure(URL_INVALID)
        else if u.hostname !in config.domains then Failure(URL_NOT_ALLOWED)
        else Success((u.href, true))
  }

  /** The checks of `imageOptimizer`, in the order the source makes them. */
  function Validate(config: Config, query: Query, parseUrl: UrlParser, isDev: bool): (r: Result<Accepted, Rejection>)
    ensures r.Failure? ==> r.error.status == (if config.loader != "default" then 404 else 400)
    ensures r.Success? ==>
      && query.url.Single? && r.value.url == query.url.value
      && (r.value.isAbsolute <==> !StartsWith(query.url.value, "/"))
      && r.value.width != 0 && r.value.width in AllowedWidths(config, isDev)
      && 1 <= r.value.quality <= 100
  {
    if config.loader != "default" then Failure(NOT_FOUND)
    else if !Given(query.url) then Failure(URL_REQUIRED)
    else if query.url.Repeated? then Failure(URL_ARRAY)
    else match Target(query.url.value, config, parseUrl)
      case Failure(e) => Failure(e)
      case Success(target) =>
        if !Given(query.w) then Failure(WIDTH_REQUIRED)
        else if query.w.Repeated? then Failure(WIDTH_ARRAY)
        else if !Given(query.q) then Failure(QUALITY_REQUIRED)
        else if query.q.Repeated? then Failure(QUALITY_ARRAY)
        else
          var width := ParseInt(query.w.value, false);
          if width.None? || width.value == 0 then Failure(WIDTH_NOT_POSITIVE)
          else if width.value !in AllowedWidths(config, isDev) then Failure(WidthNotAllowed(width.value))
          else
            var quality := ParseInt(query.q.value, true);
            if quality.None? || quality.value < 1 || quality.value > 100 then Failure(QUALITY_OUT_OF_RANGE)
            else Success(Accepted(query.url.value, target.0, target.1, width.value, quality.value))
  }

  /** When a request is served, stated condition by condition rather than as a chain of checks. */
  predicate Acceptable(config: Config, query: Query, parseUrl: UrlParser, isDev: bool) {
    && config.loader == "default"
    && query.url.Single? && query.url.value != ""
    && Target(query.url.value, config, parseUrl).Success?
    && query.w.Single? && query.q.Single?
    && ParseInt(query.w.value, false).Some?
    && ParseInt(query.w.value, false).value != 0
    && ParseInt(query.w.value, false).value in AllowedWidths(config, isDev)
    && ParseInt(query.q.value, true).Some?
    && 1 <= ParseInt(query.q.value, true).value <= 100
  }

  // ---------------------------------------------------------------------------------------------
  // Properties

  /**
    A request is served exactly when it is acceptable, and then with the parsed width and
    quality: the width is an allowed, non-zero width and the quality lies in [1, 100].
  */
  lemma ValidateIsAcceptable(config: Config, query: Query, parseUrl: UrlParser, isDev: bool)
    ensures Validate(config, query, parseUrl, isDev).Success? <==> Acceptable(config, query, parseUrl, isDev)
    ensures Validate(config, query, parseUrl, isDev).Success? ==>
      var a := Validate(config, query, parseUrl, isDev).value;
      && a.url == query.url.value
      && Some(a.width) == ParseInt(query.w.value, false)
      && Some(a.quality) == ParseInt(query.q.value, true)
      && a.width != 0 && a.width in AllowedWidths(config, isDev)
      && 1 <= a.quality <= 100
  {
    if config.loader == "default" && Given(query.url) && !query.url.Repeated?
       && Target(query.url.value, config, parseUrl).Success?
    {
      assert Validate(config, query, parseUrl, isDev).Success? <==> Acceptable(config, query, parseUrl, isDev);
    }
  }

  /** Every rejection is a 400, except the 404 of a loader other than `default`. */
  lemma RejectionStatus(config: Config, query: Query, parseUrl: UrlParser, isDev: bool)
    ensures Validate(config, query, parseUrl, isDev).Failure? ==>
      var e := Validate(config, query, parseUrl, isDev).error;
      (e.status == 404 <==> config.loader != "default") && (e.status == 404 || e.status == 400)
  {
  }

  /** The loader is checked before anything in the query is looked at. */
  lemma LoaderCheckedFirst(config: Config, query: Query, parseUrl: UrlParser, isDev: bool)
    requires config.loader != "default"
    ensures Validate(config, query, parseUrl, isDev) == Failure(NOT_FOUND)
  {
  }

  /** A relative `url` is fetched as it is, without parsing it or consulting `domains`. */
  lemma RelativeUrlIsKept(url: string, config: Config, parseUrl: UrlParser)
    requires StartsWith(url, "/")
    ensures Target(url, config, parseUrl) == Success((url, false))
  {
  }

  /**
    An absolute `url` is accepted exactly when it parses as an http: or https: URL whose host
    is listed in `domains`; it is then fetched by its serialised form.
  */
  lemma AbsoluteUrlRules(url: string, config: Config, parseUrl: UrlParser)
    requires !StartsWith(url, "/")
    ensures Target(url, config, parseUrl).Success? <==>
      parseUrl(url).Some? && parseUrl(url).value.protocol in ["http:", "https:"] &&
      parseUrl(url).value.hostname in config.domains
    ensures Target(url, config, parseUrl).Success? ==>
      Target(url, config, parseUrl).value == (parseUrl(url).value.href, true)
  {
  }

  /** With an empty `domains` list no absolute URL is ever accepted. */
  lemma NoDomainsMeansRelativeOnly(config: Config, query: Query, parseUrl: UrlParser, isDev: bool)
    requires config.domains == []
    ensures Validate(config, query, parseUrl, isDev).Success? ==>
      !Validate(config, query, parseUrl, isDev).value.isAbsolute
  {
  }

  /**
    The presence and array checks of `w` and `q` come before either is parsed: a missing `q`
    is reported whatever text `w` holds.
  */
  lemma PresenceBeforeParsing(config: Config, query: Query, parseUrl: UrlParser, isDev: bool)
    requires config.loader == "default" && Given(query.url) && !query.url.Repeated?
    requires Target(query.url.value, config, parseUrl).Success?
    requires Given(query.w) && query.w.Single?
    ensures !Given(query.q) ==> Validate(config, query, parseUrl, isDev) == Failure(QUALITY_REQUIRED)
    ensures query.q.Repeated? ==> Validate(config, query, parseUrl, isDev) == Failure(QUALITY_ARRAY)
  {
  }

  /**
    A negative width passes the "greater than 0" test (which only rejects 0 and NaN) and is
    turned away by the allow-list, with its own value in the message.
  */
  lemma NegativeWidthReachesAllowList(config: Config, query: Query, parseUrl: UrlParser, isDev: bool, n: int)
    requires config.loader == "default" && query.url.Single? && query.url.value != ""
    requires Target(query.url.value, config, parseUrl).Success?
    requires query.w.Single? && query.q.Single? && query.q.value != ""
    requires ParseInt(query.w.value, false) == Some(n) && n < 0 && n !in AllowedWidths(config, isDev)
    ensures Validate(config, query, parseUrl, isDev) == Failure(WidthNotAllowed(n))
  {
    assert query.w.value != "" by {
      assert ParseInt("", false) == None;
    }
  }

  /** Once the rest is in order, the quality decides alone: accepted iff `parseInt(q)` is in [1, 100]. */
  lemma QualityDecides(config: Config, query: Query, parseUrl: UrlParser, isDev: bool)
    requires config.loader == "default" && query.url.Single? && query.url.value != ""
    requires Target(query.url.value, config, parseUrl).Success?
    requires query.w.Single? && query.q.Single? && query.q.value != ""
    requires ParseInt(query.w.value, false).Some? && ParseInt(query.w.value, false).value != 0
    requires ParseInt(query.w.value, false).value in AllowedWidths(config, isDev)
    ensures Validate(config, query, parseUrl, isDev).Success? <==>
      ParseInt(query.q.value, true).Some? && 1 <= ParseInt(query.q.value, true).value <= 100
    ensures Validate(config, query, parseUrl, isDev).Failure? ==>
      Validate(config, query, parseUrl, isDev).error == QUALITY_OUT_OF_RANGE
  {
    assert query.w.value != "" by {
      assert ParseInt("", false) == None;
    }
  }

  /** Dev mode adds exactly the blur width to the allow-list; outside dev it is the configured widths. */
  lemma BlurWidthOnlyInDev(config: Config)
    ensures AllowedWidths(config, false) == config.deviceSizes + config.imageSizes
    ensures AllowedWidths(config, true) == config.deviceSizes + config.imageSizes + [Mime.BLUR_IMG_SIZE]
    ensures forall x :: x in AllowedWidths(config, true) <==> x in AllowedWidths(config, false) || x == Mime.BLUR_IMG_SIZE
  {
  }

  /** The default widths do not include 8: a blur-sized request is served only in dev mode. */
  lemma BlurWidthNeedsDev(config: Config)
    requires config.deviceSizes == DEFAULT_DEVICE_SIZES && config.imageSizes == DEFAULT_IMAGE_SIZES
    ensures Mime.BLUR_IMG_SIZE !in AllowedWidths(config, false)
    ensures Mime.BLUR_IMG_SIZE in AllowedWidths(config, true)
  {
  }

  // ---------------------------------------------------------------------------------------------
  // The dev server's configuration

  /**
    The dev server validates against `imageConfigDefault`, which has no loader, so its loader
    check fails for every request: nothing is ever served.
  */
  lemma DevServerRejectsEverything(query: Query, parseUrl: UrlParser)
    ensures Validate(DEFAULT_CONFIG, query, parseUrl, true) == Failure(NOT_FOUND)
  {
    LoaderCheckedFirst(DEFAULT_CONFIG, query, parseUrl, true);
  }

  /** The configuration the dev server evidently means: the defaults with the built-in loader. */
  const DEV_CONFIG := DEFAULT_CONFIG.(loader := "default")

  /** With it, a blur-sized request for a local image is served in dev mode. */
  lemma DevConfigServesBlurWidth(parseUrl: UrlParser)
    ensures Validate(DEV_CONFIG, Query(Single("/a.png"), Single("8"), Single("75")), parseUrl, true) ==
      Success(Accepted("/a.png", "/a.png", false, 8, 75))
  {
    BlurWidthText();
    DefaultQualityText();
    assert StartsWith("/a.png", "/");
    assert 8 in AllowedWidths(DEV_CONFIG, true);
  }

  lemma BlurWidthText()
    ensures ParseInt("8", false) == Some(8)
  {
    assert TrimStart("8") == "8";
    assert DigitRun("8", false) == "8";
  }

  lemma DefaultQualityText()
    ensures ParseInt("75", true) == Some(75)
  {
    assert TrimStart("75") == "75";
    assert DigitRun("75", false) == "75";
    assert RadixValue("75", false) == 75;
    assert ParseUnsigned("75", true) == Some(75);
  }
}
