/**
  `imageOptimizer`: the request pipeline of the image optimisation endpoint. A request is
  validated, fingerprinted and marked in flight. It is then served from the disk cache, or
  fetched, passed through or re-encoded, cached and sent. Whatever happens after the marker is
  set, the marker is removed again.

  One pipeline models both copies of the source. The production server uses the sharp codec and
  is never in dev mode; the dev server uses the squoosh codec and may be in dev mode.
*/
module Optimizer {
  import opened Wrappers
  import opened JsText
  import Mime
  import ContentSniff
  import Fresh
  import CacheControl
  import Fingerprint
  import HttpResponse
  import DiskCache
  import Inflight
  import Validation
  import Transform

  /** What a fetch returned: status, `ok`, body bytes and the two headers the optimiser reads. */
  datatype Upstream = Upstream(status: int, ok: bool, body: seq<byte>, contentType: string, cacheControl: string)

  /** A fetch either yields a response or fails without one. */
  datatype Fetched = Received(response: Upstream) | NetworkError(reason: string)

  /** The codec of the server: sharp (with the image's width and AVIF support) or squoosh. */
  datatype Codec =
    | Sharp(metaWidth: seq<byte> -> Option<int>, avifSupported: bool)
    | Squoosh(orientation: seq<byte> -> Transform.Orientation)

  /** The collaborators and settings the pipeline is given. */
  datatype Env = Env(
    parseUrl: Validation.UrlParser,
    negotiate: HttpResponse.Negotiator,
    sha: Fingerprint.Digest,
    isAnimated: seq<byte> -> bool,
    fetch: string -> Fetched,
    dispatch: string -> Fetched,
    codec: Codec,
    encode: (seq<byte>, seq<Transform.Op>) -> Option<seq<byte>>,
    disposition: HttpResponse.Disposition,
    parseDate: Fresh.DateParser,
    db: Mime.MimeDb,
    now: int,
    isDev: bool)

  datatype Request = Request(headers: Fresh.RequestHeaders, query: Validation.Query)

  /** How the pipeline ended: with the response answered, or with an error thrown to the caller. */
  datatype Exit = Answered | Threw(error: string)

  const UPSTREAM_INVALID: string := "\"url\" parameter is valid but upstream response is invalid"
  const NOT_AN_IMAGE: string := "The requested resource isn't a valid image."

  // ---------------------------------------------------------------------------------------------
  // The stages as functions

  /**
    The key of a request: its fingerprint, which also names its cache directory. The items are
    hashed as the source lists them, with nothing between them. The key can name a directory
    and never holds `/` or `.`.
  */
  function RequestKey(env: Env, a: Validation.Accepted, mimeType: string): (key: string)
    ensures '/' !in key && '.' !in key
  {
    var items := Fingerprint.RequestItemsAsWritten(a.href, a.width, a.quality, mimeType);
    Fingerprint.FingerprintIsFileSafe(env.sha, items);
    Fingerprint.Fingerprint(env.sha, items)
  }

  /**
    Two accepted requests for `/p20` at width 48 and `/p` at width 2048, with the same quality
    and negotiated type, get the same key: they share one cache directory and one in-flight
    marker, so either can be answered with the other's image.
  */
  lemma CollidingRequestsShareKey(env: Env, a1: Validation.Accepted, a2: Validation.Accepted, mimeType: string)
    requires a1.href == "/p20" && a1.width == 48
    requires a2.href == "/p" && a2.width == 2048
    requires a1.quality == 75 && a2.quality == 75
    ensures a1 != a2
    ensures RequestKey(env, a1, mimeType) == RequestKey(env, a2, mimeType)
  {
    Fingerprint.AsWrittenRequestsCollide(mimeType);
  }

  /** Why a fetch produced no image: answered with a status, or an error that propagates. */
  datatype FetchFailure = Refused(status: int) | Thrown(reason: string)

  /**
    Fetching the source image. An absolute URL is fetched from the network: an error response
    is answered with its status and a failed fetch throws. A relative URL goes to the server's
    own handler, whose failure is answered with a 500.
  */
  function FetchUpstream(env: Env, a: Validation.Accepted): (r: Result<Upstream, FetchFailure>)
    ensures r.Failure? && r.error.Thrown? ==> a.isAbsolute && env.fetch(a.href).NetworkError?
    ensures r.Success? && a.isAbsolute ==> r.value.ok && env.fetch(a.href) == Received(r.value)
    ensures r.Success? && !a.isAbsolute ==> env.dispatch(a.href) == Received(r.value)
    ensures r.Failure? && !a.isAbsolute ==> r.error == Refused(500)
  {
    if a.isAbsolute then
      match env.fetch(a.href)
      case NetworkError(reason) => Failure(Thrown(reason))
      case Received(u) => if !u.ok then Failure(Refused(u.status)) else Success(u)
    else
      match env.dispatch(a.href)
      case NetworkError(_) => Failure(Refused(500))
      case Received(u) => Success(u)
  }

  /** The type of the fetched image: sniffed from its bytes, else the declared Content-Type. */
  function UpstreamType(up: Upstream): (t: string)
    ensures t == up.contentType || t in {Mime.JPEG, Mime.PNG, Mime.GIF, Mime.WEBP, Mime.SVG, Mime.AVIF}
  {
    match ContentSniff.DetectContentType(up.body)
    case Some(t) => t
    case None => up.contentType
  }

  /** The codec instructions for a re-encoding; `None` when the codec has no format for the type. */
  function CodecPlan(codec: Codec, contentType: string, width: int, quality: int, buffer: seq<byte>)
    : Option<seq<Transform.Op>>
  {
    match codec
    case Sharp(metaWidth, avifSupported) =>
      Some(Transform.SharpPlan(contentType, width, quality, metaWidth(buffer), avifSupported))
    case Squoosh(orientation) =>
      Transform.SquooshPlan(contentType, width, quality, orientation(buffer))
  }

  /** The bytes the codec produces, or `None` when it throws or has nothing to produce. */
  function Encoded(env: Env, contentType: string, a: Validation.Accepted, buffer: seq<byte>): Option<seq<byte>> {
    match CodecPlan(env.codec, contentType, a.width, a.quality, buffer)
    case None => None
    case Some(ops) => env.encode(buffer, ops)
  }

  /** What is done with a fetched image: refuse it, or send a type and bytes, cached or not. */
  datatype Delivery = Refuse(status: int, message: string) | Send(contentType: string, body: seq<byte>, cached: bool)

  /**
    The delivery of a fetched image. Pass-through images are cached and sent as they came;
    re-encoded ones are cached and sent in the output type. When the codec fails, the original
    bytes are sent with the upstream type and nothing is cached.
  */
  function Deliver(env: Env, a: Validation.Accepted, mimeType: string, up: Upstream): Delivery {
    var upstreamType := UpstreamType(up);
    var animated := Transform.IsAnimatable(upstreamType) && env.isAnimated(up.body);
    match Transform.Decide(upstreamType, mimeType, animated, env.db)
    case PassThrough => Send(upstreamType, up.body, true)
    case NotAnImage => Refuse(400, NOT_AN_IMAGE)
    case Optimize(contentType) =>
      match Encoded(env, contentType, a, up.body)
      case Some(optimized) => Send(contentType, optimized, true)
      case None => Send(upstreamType, up.body, false)
  }

  // ---------------------------------------------------------------------------------------------
  // Properties of the stages

  /** A codec failure sends the original bytes under the upstream type and writes nothing to the cache. */
  lemma CodecFailureFallsBack(env: Env, a: Validation.Accepted, mimeType: string, up: Upstream)
    requires Transform.Decide(UpstreamType(up), mimeType,
      Transform.IsAnimatable(UpstreamType(up)) && env.isAnimated(up.body), env.db).Optimize?
    requires Encoded(env, Transform.OutputType(UpstreamType(up), mimeType, env.db), a, up.body).None?
    ensures Deliver(env, a, mimeType, up) == Send(UpstreamType(up), up.body, false)
  {
  }

  /**
    Whatever is cached is what is sent: the upstream bytes when they are passed through, the
    codec's output otherwise; and the original bytes are only ever sent under the upstream type.
  */
  lemma CachedIsSent(env: Env, a: Validation.Accepted, mimeType: string, up: Upstream)
    ensures match Deliver(env, a, mimeType, up)
      case Send(t, body, cached) =>
        (body == up.body && t == UpstreamType(up)) ||
        (cached && Some(body) == Encoded(env, t, a, up.body))
      case Refuse(status, message) => status == 400 && message == NOT_AN_IMAGE
  {
  }

  /**
    The squoosh codec has no format for GIF or SVG, so a still GIF asked for as GIF is never
    re-encoded: it is sent back as it came and not cached.
  */
  lemma SquooshKeepsStillGif(env: Env, a: Validation.Accepted, up: Upstream)
    requires env.codec.Squoosh? && env.db == Mime.ImageDb
    requires UpstreamType(up) == Mime.GIF && !env.isAnimated(up.body)
    ensures Deliver(env, a, "", up) == Send(Mime.GIF, up.body, false)
  {
    Transform.OutputTypePriority(Mime.GIF, "", env.db);
  }

  /** A declared non-image type that the bytes do not contradict is refused with a 400. */
  lemma NonImageIsRefused(env: Env, a: Validation.Accepted, mimeType: string, up: Upstream)
    requires ContentSniff.DetectContentType(up.body).None?
    requires up.contentType != "" && !StartsWith(up.contentType, "image/")
    ensures Deliver(env, a, mimeType, up) == Refuse(400, NOT_AN_IMAGE)
  {
    Transform.NonImageIsRefused(up.contentType, mimeType,
      Transform.IsAnimatable(up.contentType) && env.isAnimated(up.body), env.db);
  }

  /** Bytes that sniff as an image are never refused, whatever type was declared. */
  lemma SniffedImageIsNotRefused(env: Env, a: Validation.Accepted, mimeType: string, up: Upstream)
    requires ContentSniff.DetectContentType(up.body).Some?
    ensures Deliver(env, a, mimeType, up).Send?
  {
  }

  /**
    A relative URL is never refused with the upstream's own status: a failing internal dispatch
    becomes a 500, and a network error cannot occur.
  */
  lemma RelativeFetchFailureIs500(env: Env, a: Validation.Accepted)
    requires !a.isAbsolute
    ensures FetchUpstream(env, a).Failure? ==> FetchUpstream(env, a).error == Refused(500)
  {
  }

  // ---------------------------------------------------------------------------------------------
  // The pipeline

  /** The cache entry name of a delivery: max-age, expiry, fingerprint of the bytes, extension. */
  function DeliveredEntryName(env: Env, config: Validation.Config, up: Upstream, contentType: string, body: seq<byte>)
    : string
  {
    var maxAge := CacheControl.MaxAgeOf(up.cacheControl);
    DiskCache.EntryName(maxAge, CacheControl.ExpireAt(maxAge, config.minimumCacheTTL, env.now),
                        Fingerprint.ContentHash(env.sha, body), Mime.ExtensionText(env.db, contentType))
  }

  /**
    The steps after a successful fetch: the status of the upstream response, then the
    delivery: a refusal, or the headers and bytes of `sendResponse`, preceded by
    `writeToCacheDir` when the delivery is cached.
  */
  method Respond(req: Request, res: HttpResponse.Response, store: DiskCache.CacheStore, env: Env,
                 config: Validation.Config, a: Validation.Accepted, mimeType: string, key: string, up: Upstream)
    requires store.Valid()
    modifies res, store
    ensures store.Valid()
    ensures match Deliver(env, a, mimeType, up)
      case Refuse(status, message) =>
        && res.statusCode == status && res.body == Some(HttpResponse.Message(message))
        && store.dirs == old(store.dirs) && store.contents == old(store.contents)
      case Send(contentType, body, cached) =>
        var etag := Fingerprint.ContentHash(env.sha, body);
        var isFresh := Fresh.IsFresh(req.headers, etag, "", env.parseDate);
        && res.statusCode == (if isFresh then 304 else up.status)
        && res.body == Some(if isFresh then HttpResponse.NoBody else HttpResponse.Bytes(body))
        && res.headers == HttpResponse.HeadersAfter(old(res.headers), a.url, etag,
             Some(CacheControl.MaxAgeOf(up.cacheControl)), contentType, env.isDev, isFresh, env.db, env.disposition)
        && (cached ==> store.contents == old(store.contents)[(key, DeliveredEntryName(env, config, up, contentType, body)) := body])
        && (cached ==> key in store.dirs && DeliveredEntryName(env, config, up, contentType, body) in store.dirs[key])
        && (!cached ==> store.dirs == old(store.dirs) && store.contents == old(store.contents))
    ensures forall dir :: dir != key && dir in old(store.dirs) ==> dir in store.dirs && store.dirs[dir] == old(store.dirs)[dir]
  {
    res.statusCode := up.status;
    var upstreamType := UpstreamType(up);
    var maxAge := CacheControl.GetMaxAge(up.cacheControl);
    var animated := Transform.IsAnimatable(upstreamType) && env.isAnimated(up.body);
    var decision := Transform.Decide(upstreamType, mimeType, animated, env.db);
    match decision {
      case PassThrough =>
        CacheAndSend(req, res, store, env, config, a, key, up, maxAge, upstreamType, up.body, true);
      case NotAnImage =>
        res.Reject(400, NOT_AN_IMAGE);
      case Optimize(contentType) =>
        var optimized := Encoded(env, contentType, a, up.body);
        if optimized.Some? {
          CacheAndSend(req, res, store, env, config, a, key, up, maxAge, contentType, optimized.value, true);
        } else {
          CacheAndSend(req, res, store, env, config, a, key, up, maxAge, upstreamType, up.body, false);
        }
    }
  }

  /**
    `writeToCacheDir` (when `cached`) followed by `sendResponse`, for the bytes `body` of type
    `contentType`.
  */
  method CacheAndSend(req: Request, res: HttpResponse.Response, store: DiskCache.CacheStore, env: Env,
                      config: Validation.Config, a: Validation.Accepted, key: string, up: Upstream, maxAge: int,
                      contentType: string, body: seq<byte>, cached: bool)
    requires store.Valid() && maxAge == CacheControl.MaxAgeOf(up.cacheControl)
    modifies res, store
    ensures store.Valid()
    ensures var etag := Fingerprint.ContentHash(env.sha, body);
      var isFresh := Fresh.IsFresh(req.headers, etag, "", env.parseDate);
      var name := DeliveredEntryName(env, config, up, contentType, body);
      && res.statusCode == (if isFresh then 304 else old(res.statusCode))
      && res.body == Some(if isFresh then HttpResponse.NoBody else HttpResponse.Bytes(body))
      && res.headers == HttpResponse.HeadersAfter(old(res.headers), a.url, etag, Some(maxAge), contentType,
           env.isDev, isFresh, env.db, env.disposition)
      && (cached ==> store.contents == old(store.contents)[(key, name) := body])
      && (cached ==> key in store.dirs && name in store.dirs[key])
      && (!cached ==> store.dirs == old(store.dirs) && store.contents == old(store.contents))
    ensures forall dir :: dir != key && dir in old(store.dirs) ==> dir in store.dirs && store.dirs[dir] == old(store.dirs)[dir]
  {
    if cached {
      var expireAt := CacheControl.ExpireAt(maxAge, config.minimumCacheTTL, env.now);
      DiskCache.WriteToCacheDir(store, key, contentType, maxAge, expireAt, body, env.sha, env.db);
    }
    HttpResponse.SendResponse(req.headers, res, a.url, maxAge, contentType, body, env.isDev,
                              env.sha, env.parseDate, env.db, env.disposition);
  }

  /**
    A cache hit: the headers for the entry's tag, max-age and type, then the file itself unless
    the client's copy is still fresh.
  */
  method ServeHit(req: Request, res: HttpResponse.Response, env: Env, a: Validation.Accepted, key: string, name: string)
    modifies res
    ensures var entry := DiskCache.ParseEntryName(name, env.db);
      var isFresh := Fresh.IsFresh(req.headers, entry.etag, "", env.parseDate);
      && res.headers == HttpResponse.HeadersAfter(old(res.headers), a.url, entry.etag, entry.maxAge,
           entry.contentType, env.isDev, isFresh, env.db, env.disposition)
      && res.statusCode == (if isFresh then 304 else old(res.statusCode))
      && res.body == Some(if isFresh then HttpResponse.NoBody else HttpResponse.CacheFile(key, name))
  {
    var entry := DiskCache.ParseEntryName(name, env.db);
    var finished := HttpResponse.SetResponseHeaders(req.headers, res, a.url, entry.etag, entry.maxAge,
      entry.contentType, env.isDev, env.parseDate, env.db, env.disposition);
    if !finished {
      res.End(HttpResponse.CacheFile(key, name));
    }
  }

  /**
    The fetch and what follows it, on a cache miss: a thrown fetch error propagates, an
    upstream error is answered with its status, and a fetched image is delivered.
  */
  method FetchAndRespond(req: Request, res: HttpResponse.Response, config: Validation.Config, env: Env,
                         store: DiskCache.CacheStore, a: Validation.Accepted, mimeType: string, key: string)
    returns (exit: Exit)
    requires store.Valid()
    modifies res, store
    ensures store.Valid()
    ensures match FetchUpstream(env, a)
      case Failure(Thrown(reason)) => exit == Threw(reason) && store.dirs == old(store.dirs)
      case Failure(Refused(status)) =>
        && exit == Answered && store.dirs == old(store.dirs)
        && res.statusCode == status && res.body == Some(HttpResponse.Message(UPSTREAM_INVALID))
      case Success(up) =>
        && exit == Answered
        && match Deliver(env, a, mimeType, up)
           case Refuse(status, message) => res.statusCode == status && res.body == Some(HttpResponse.Message(message))
           case Send(contentType, body, cached) =>
             && res.body in {Some(HttpResponse.Bytes(body)), Some(HttpResponse.NoBody)}
             && (cached ==> key in store.dirs && DeliveredEntryName(env, config, up, contentType, body) in store.dirs[key])
             && (!cached ==> store.dirs == old(store.dirs))
    ensures forall dir :: dir != key && dir in old(store.dirs) ==> dir in store.dirs && store.dirs[dir] == old(store.dirs)[dir]
  {
    var fetched := FetchUpstream(env, a);
    match fetched {
      case Failure(Thrown(reason)) =>
        return Threw(reason);
      case Failure(Refused(status)) =>
        res.Reject(status, UPSTREAM_INVALID);
        return Answered;
      case Success(up) =>
        Respond(req, res, store, env, config, a, mimeType, key, up);
        return Answered;
    }
  }

  /**
    How the `try` block of a request with key `key` ended, given the cache directory it found:
    an error of `stat` is thrown with the response untouched; a fresh entry is answered from the
    cache after the expired entries before it are unlinked, and nothing is fetched; on a miss the
    source is fetched, a thrown fetch propagates, an upstream error is answered with its status
    and a fetched image is answered with its bytes (or a 304).
  */
  twostate predicate Served(res: HttpResponse.Response, store: DiskCache.CacheStore, env: Env,
                            a: Validation.Accepted, mimeType: string, key: string, exit: Exit)
    reads res, store
  {
    var probe := old(DiskCache.FileExists(store.Probe(key), DiskCache.DirectoryKind));
    var names := old(if key in store.dirs then store.dirs[key] else []);
    var k := DiskCache.FirstFresh(names, env.now);
    && (probe.Failure? ==> exit == Threw(probe.error) && store.dirs == old(store.dirs) && res.body == old(res.body))
    && (probe == Success(true) && k < |names| ==>
          && exit == Answered
          && store.dirs == old(store.dirs)[key := names[k..]]
          && res.body in {Some(HttpResponse.CacheFile(key, names[k])), Some(HttpResponse.NoBody)})
    && (probe.Success? && (probe.value ==> k == |names|) ==>
          match FetchUpstream(env, a)
          case Failure(Thrown(reason)) => exit == Threw(reason)
          case Failure(Refused(status)) => exit == Answered && res.statusCode == status
          case Success(up) =>
            && exit == Answered
            && match Deliver(env, a, mimeType, up)
               case Refuse(status, message) => res.statusCode == status && res.body == Some(HttpResponse.Message(message))
               case Send(_, body, _) => res.body in {Some(HttpResponse.Bytes(body)), Some(HttpResponse.NoBody)})
  }

  /**
    The body of the `try` block: the cache lookup, then on a miss the fetch and the delivery.
    An error of `stat` is thrown; a fresh cache entry is answered without fetching, after the
    expired entries before it are unlinked.
  */
  method Serve(req: Request, res: HttpResponse.Response, config: Validation.Config, env: Env,
               store: DiskCache.CacheStore, a: Validation.Accepted, mimeType: string, key: string)
    returns (exit: Exit)
    requires store.Valid()
    modifies res, store
    ensures store.Valid()
    ensures exit.Answered? ==> res.body.Some?
    ensures Served(res, store, env, a, mimeType, key, exit)
    ensures forall dir :: dir != key && dir in old(store.dirs) ==> dir in store.dirs && store.dirs[dir] == old(store.dirs)[dir]
  {
    var probe := DiskCache.FileExists(store.Probe(key), DiskCache.DirectoryKind);
    if probe.Failure? {
      return Threw(probe.error);
    }
    if probe.value {
      var hit := DiskCache.ScanCache(store, key, env.now);
      if hit.Some? {
        ServeHit(req, res, env, a, key, hit.value);
        return Answered;
      }
    }
    exit := FetchAndRespond(req, res, config, env, store, a, mimeType, key);
  }

  /**
    An accepted request: the negotiated type, the fingerprint, and the marker set around the
    `try` block and removed in its `finally`, whatever way the block is left.
  */
  method ServeAccepted(req: Request, res: HttpResponse.Response, config: Validation.Config, env: Env,
                       store: DiskCache.CacheStore, inflight: Inflight.InflightRequests, a: Validation.Accepted)
    returns (exit: Exit)
    requires store.Valid()
    modifies res, store, inflight
    ensures store.Valid()
    ensures exit.Answered? ==> res.body.Some?
    ensures var mimeType := HttpResponse.SupportedMimeType(env.negotiate, config.formats, req.headers.accept);
      var key := RequestKey(env, a, mimeType);
      && inflight.pending == old(inflight.pending) - {key}
      && Served(res, store, env, a, mimeType, key, exit)
      && (forall dir :: dir != key && dir in old(store.dirs) ==> dir in store.dirs && store.dirs[dir] == old(store.dirs)[dir])
  {
    var mimeType := HttpResponse.SupportedMimeType(env.negotiate, config.formats, req.headers.accept);
    var key := Fingerprint.GetHash(env.sha, Fingerprint.RequestItemsAsWritten(a.href, a.width, a.quality, mimeType));
    inflight.Begin(key);
    exit := Serve(req, res, config, env, store, a, mimeType, key);
    inflight.Complete(key);
  }

  /**
    `imageOptimizer(req, res, ...)`. A rejected request is answered before the fingerprint is
    computed and touches neither the cache nor the in-flight markers. An accepted one sets its
    marker and, on every way out (cache hit, upstream error, refusal, pass-through, codec
    fallback or thrown error), removes it again; it changes no cache directory but its own; and
    it ends as `Served` says: from the cache without fetching on a hit, through the fetch on a
    miss.
  */
  method ImageOptimizer(req: Request, res: HttpResponse.Response, config: Validation.Config, env: Env,
                        store: DiskCache.CacheStore, inflight: Inflight.InflightRequests)
    returns (exit: Exit)
    requires store.Valid()
    modifies res, store, inflight
    ensures store.Valid()
    ensures exit.Answered? ==> res.body.Some?
    ensures match Validation.Validate(config, req.query, env.parseUrl, env.isDev)
      case Failure(e) =>
        && exit == Answered
        && res.statusCode == e.status && res.body == Some(HttpResponse.Message(e.message))
        && res.headers == old(res.headers)
        && store.dirs == old(store.dirs) && store.contents == old(store.contents)
        && inflight.pending == old(inflight.pending)
      case Success(a) =>
        var mimeType := HttpResponse.SupportedMimeType(env.negotiate, config.formats, req.headers.accept);
        var key := RequestKey(env, a, mimeType);
        && inflight.pending == old(inflight.pending) - {key}
        && Served(res, store, env, a, mimeType, key, exit)
        && (forall dir :: dir != key && dir in old(store.dirs) ==> dir in store.dirs && store.dirs[dir] == old(store.dirs)[dir])
  {
    var validated := Validation.Validate(config, req.query, env.parseUrl, env.isDev);
    if validated.Failure? {
      res.Reject(validated.error.status, validated.error.message);
      return Answered;
    }
    exit := ServeAccepted(req, res, config, env, store, inflight, validated.value);
  }
}
