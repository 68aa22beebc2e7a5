/**
  The response side of the optimiser: the server response object it writes to, the conditional
  reply `sendEtagResponse`, the header block `setResponseHeaders` with its download file name
  (`getFileNameWithExtension`), `sendResponse`, and the format negotiation
  `getSupportedMimeType`.
*/
module HttpResponse {
  import opened Wrappers
  import opened JsText
  import Mime
  import Fresh
  import CacheControl
  import Fingerprint

  /**
    What the response was ended with: a text message, the bytes of an image, nothing (a 304),
    or the cache file `name` of directory `dir` piped into it.
  */
  datatype Body = Message(text: string) | Bytes(data: seq<byte>) | NoBody | CacheFile(dir: string, name: string)

  type Headers = map<string, string>

  /** `contentDisposition(fileName, { type: 'inline' })`, supplied by the caller. */
  type Disposition = string -> string

  /** `mediaType(accept, options)` of `@hapi/accept`, supplied by the caller. */
  type Negotiator = (string, seq<string>) -> string

  const CONTENT_SECURITY_POLICY: string := "script-src 'none'; sandbox;"

  /** A Node `ServerResponse`: status, header table and, once `end` was called, the body. */
  class Response {
    var statusCode: int
    var headers: Headers
    var body: Option<Body>

    constructor ()
      ensures statusCode == 200 && headers == map[] && body == None
    {
      statusCode := 200;
      headers := map[];
      body := None;
    }

    /** `res.setHeader(name, value)`. */
    method SetHeader(name: string, value: string)
      modifies this
      ensures headers == old(headers)[name := value]
      ensures statusCode == old(statusCode) && body == old(body)
    {
      headers := headers[name := value];
    }

    /** `res.end(...)`. */
    method End(b: Body)
      modifies this
      ensures body == Some(b)
      ensures statusCode == old(statusCode) && headers == old(headers)
    {
      body := Some(b);
    }

    /** `res.statusCode = status; res.end(message)`: how every rejection is answered. */
    method Reject(status: int, message: string)
      modifies this
      ensures statusCode == status && body == Some(Message(message))
      ensures headers == old(headers)
    {
      statusCode := status;
      body := Some(Message(message));
    }
  }

  // ---------------------------------------------------------------------------------------------
  // getSupportedMimeType

  /**
    `getSupportedMimeType(options, accept)`: the negotiated type, kept only when the Accept
    header names it literally.
  */
  function SupportedMimeType(negotiate: Negotiator, options: seq<string>, accept: string): (r: string)
    ensures r != "" <==> negotiate(accept, options) != "" && Contains(accept, negotiate(accept, options))
    ensures r != "" ==> r == negotiate(accept, options)
  {
    var mimeType := negotiate(accept, options);
    if Contains(accept, mimeType) then mimeType else ""
  }

  /** A negotiator that only ever picks one of the options yields one of them or nothing. */
  lemma SupportedMimeTypeIsAnOption(negotiate: Negotiator, options: seq<string>, accept: string)
    requires negotiate(accept, options) == "" || negotiate(accept, options) in options
    ensures SupportedMimeType(negotiate, options, accept) == "" ||
      SupportedMimeType(negotiate, options, accept) in options
  {
  }

  /** A client whose Accept header spells out the negotiated type gets that type. */
  lemma ListedTypeIsSupported(negotiate: Negotiator, options: seq<string>, accept: string,
                              before: string, after: string)
    requires negotiate(accept, options) != ""
    requires accept == before + negotiate(accept, options) + after
    ensures SupportedMimeType(negotiate, options, accept) == negotiate(accept, options)
  {
    var m := negotiate(accept, options);
    assert accept[|before|..|before| + |m|] == m;
    ContainsAt(accept, m, |before|);
  }

  // ---------------------------------------------------------------------------------------------
  // getFileNameWithExtension

  /** The last `/`-separated segment of the URL once the query is dropped. */
  function LastSegment(url: string): (r: string)
    ensures '/' !in r
  {
    var path := Split(url, '?')[0];
    var segments := Split(path, '/');
    SplitShape(path, '/');
    segments[|segments| - 1]
  }

  /**
    `getFileNameWithExtension(url, contentType)`: the text of the last path segment before its
    first `.`, with the extension of the content type. Nothing when the content type is null or
    the segment is empty.
  */
  function GetFileNameWithExtension(url: string, contentType: string, db: Mime.MimeDb): (r: Option<string>)
    ensures r.Some? <==> contentType != "" && LastSegment(url) != ""
  {
    var name := LastSegment(url);
    if contentType == "" || name == "" then None
    else Some(Split(name, '.')[0] + "." + Mime.ExtensionText(db, contentType))
  }

  /**
    For `dir/stem.any.suffixes?query` the file name is `stem` with the extension of the type:
    the query is dropped, only the last segment counts, and everything from its first `.` on is
    replaced.
  */
  lemma FileNameOfUrl(dir: string, stem: string, suffix: string, query: string,
                      contentType: string, db: Mime.MimeDb)
    requires '?' !in dir && '?' !in stem && '?' !in suffix
    requires '/' !in stem && '/' !in suffix && '.' !in stem && stem != ""
    requires suffix == "" || suffix[0] == '.'
    requires query == "" || query[0] == '?'
    requires contentType != ""
    ensures GetFileNameWithExtension(dir + "/" + stem + suffix + query, contentType, db) ==
      Some(stem + "." + Mime.ExtensionText(db, contentType))
  {
    var name := stem + suffix;
    var path := dir + "/" + name;
    NoQueryInPath(dir, name);
    HeadBeforeSeparator(path, '?', query);
    NoSlashInName(stem, suffix);
    SplitConcat(dir, '/', name);
    SplitNoSeparator(name, '/');
    assert LastSegment(path + query) == name;
    HeadBeforeSeparator(stem, '.', suffix);
    assert dir + "/" + stem + suffix + query == path + query;
  }

  lemma NoQueryInPath(dir: string, name: string)
    requires '?' !in dir && '?' !in name
    ensures '?' !in dir + "/" + name
  {
    var path := dir + "/" + name;
    assert forall i :: 0 <= i < |path| ==> path[i] == if i < |dir| + 1 then (dir + "/")[i] else name[i - |dir| - 1];
  }

  /** The text before the first `sep` is `head` when `head` has none and what follows is empty or starts with it. */
  lemma HeadBeforeSeparator(head: string, sep: char, rest: string)
    requires sep !in head
    requires rest == "" || rest[0] == sep
    ensures Split(head + rest, sep)[0] == head
  {
    if rest == "" {
      SplitNoSeparator(head, sep);
      assert head + rest == head;
    } else {
      assert head + rest == head + [sep] + rest[1..];
      SplitFirst(head, sep, rest[1..]);
    }
  }

  lemma NoSlashInName(stem: string, suffix: string)
    requires '/' !in stem && '/' !in suffix
    ensures '/' !in stem + suffix
  {
    var name := stem + suffix;
    assert forall i :: 0 <= i < |name| ==> name[i] == if i < |stem| then stem[i] else suffix[i - |stem|];
  }

  /** A URL whose path ends in `/` names no file. */
  lemma DirectoryUrlHasNoFileName(dir: string, contentType: string, db: Mime.MimeDb)
    requires '?' !in dir
    ensures GetFileNameWithExtension(dir + "/", contentType, db) == None
  {
    var url := dir + "/";
    SplitNoSeparator(url, '?');
    assert url == dir + ['/'] + "";
    SplitConcat(dir, '/', "");
    assert LastSegment(url) == "";
  }

  // ---------------------------------------------------------------------------------------------
  // sendEtagResponse and setResponseHeaders

  /** The headers after `sendEtagResponse`: an `ETag` exactly when the tag is non-empty. */
  function WithEtag(headers: Headers, etag: string): (r: Headers)
    ensures etag != "" ==> "ETag" in r && r["ETag"] == etag
    ensures etag == "" ==> r == headers
    ensures forall name :: name != "ETag" && name in headers ==> name in r && r[name] == headers[name]
  {
    if etag != "" then headers["ETag" := etag] else headers
  }

  /** `sendEtagResponse(req, res, etag)`: the response has no Last-Modified, so `fresh` sees only the tag. */
  method SendEtagResponse(req: Fresh.RequestHeaders, res: Response, etag: string, parseDate: Fresh.DateParser)
    returns (finished: bool)
    modifies res
    ensures finished == Fresh.IsFresh(req, etag, "", parseDate)
    ensures res.headers == WithEtag(old(res.headers), etag)
    ensures finished ==> res.statusCode == 304 && res.body == Some(NoBody)
    ensures !finished ==> res.statusCode == old(res.statusCode) && res.body == old(res.body)
  {
    if etag != "" {
      res.SetHeader("ETag", etag);
    }
    finished := Fresh.Fresh(req, etag, "", parseDate);
    if finished {
      res.statusCode := 304;
      res.End(NoBody);
    }
  }

  /** The headers `setResponseHeaders` may set. */
  const SET_BY_RESPONSE: set<string> :=
    {"Vary", "Cache-Control", "ETag", "Content-Type", "Content-Disposition", "Content-Security-Policy"}

  /** The `Cache-Control` value: max-age 0 in dev mode, otherwise the (possibly NaN) max-age. */
  function CacheControlValue(maxAge: Option<int>, isDev: bool): string {
    CacheControl.ResponseCacheControl(NumberText(if isDev then Some(0) else maxAge))
  }

  /** The headers `setResponseHeaders` leaves, for the verdict `finished` of the conditional reply. */
  function HeadersAfter(headers: Headers, url: string, etag: string, maxAge: Option<int>,
                        contentType: string, isDev: bool, finished: bool,
                        db: Mime.MimeDb, disposition: Disposition): (r: Headers)
    ensures "Vary" in r && r["Vary"] == "Accept"
    ensures "Cache-Control" in r && r["Cache-Control"] == CacheControlValue(maxAge, isDev)
    ensures etag != "" ==> "ETag" in r && r["ETag"] == etag
    ensures !finished ==> "Content-Security-Policy" in r && r["Content-Security-Policy"] == CONTENT_SECURITY_POLICY
    ensures !finished && contentType != "" ==> "Content-Type" in r && r["Content-Type"] == contentType
    ensures forall name :: name in headers && name !in SET_BY_RESPONSE ==> name in r && r[name] == headers[name]
  {
    var common := WithEtag(headers["Vary" := "Accept"]["Cache-Control" := CacheControlValue(maxAge, isDev)], etag);
    if finished then common
    else
      var typed := if contentType != "" then common["Content-Type" := contentType] else common;
      var named := match GetFileNameWithExtension(url, contentType, db)
        case Some(f) => typed["Content-Disposition" := disposition(f)]
        case None => typed;
      named["Content-Security-Policy" := CONTENT_SECURITY_POLICY]
  }

  /**
    `setResponseHeaders(req, res, url, etag, maxAge, contentType, isDev)`: the common headers,
    then the conditional reply, then (when not already answered) the content headers.
  */
  method SetResponseHeaders(req: Fresh.RequestHeaders, res: Response, url: string, etag: string,
                            maxAge: Option<int>, contentType: string, isDev: bool,
                            parseDate: Fresh.DateParser, db: Mime.MimeDb, disposition: Disposition)
    returns (finished: bool)
    modifies res
    ensures finished == Fresh.IsFresh(req, etag, "", parseDate)
    ensures res.headers == HeadersAfter(old(res.headers), url, etag, maxAge, contentType, isDev, finished, db, disposition)
    ensures finished ==> res.statusCode == 304 && res.body == Some(NoBody)
    ensures !finished ==> res.statusCode == old(res.statusCode) && res.body == old(res.body)
  {
    res.SetHeader("Vary", "Accept");
    res.SetHeader("Cache-Control", CacheControlValue(maxAge, isDev));
    finished := SendEtagResponse(req, res, etag, parseDate);
    if finished {
      return;
    }
    if contentType != "" {
      res.SetHeader("Content-Type", contentType);
    }
    var fileName := GetFileNameWithExtension(url, contentType, db);
    if fileName.Some? {
      res.SetHeader("Content-Disposition", disposition(fileName.value));
    }
    res.SetHeader("Content-Security-Policy", CONTENT_SECURITY_POLICY);
  }

  /**
    `sendResponse(req, res, url, maxAge, contentType, buffer, isDev)`: the headers for the tag
    of the bytes, and the bytes themselves unless the client's copy is still fresh.
  */
  method SendResponse(req: Fresh.RequestHeaders, res: Response, url: string, maxAge: int,
                      contentType: string, buffer: seq<byte>, isDev: bool,
                      sha: Fingerprint.Digest, parseDate: Fresh.DateParser, db: Mime.MimeDb,
                      disposition: Disposition)
    modifies res
    ensures var isFresh := Fresh.IsFresh(req, Fingerprint.ContentHash(sha, buffer), "", parseDate);
      && res.headers == HeadersAfter(old(res.headers), url, Fingerprint.ContentHash(sha, buffer), Some(maxAge),
                                     contentType, isDev, isFresh, db, disposition)
      && res.statusCode == (if isFresh then 304 else old(res.statusCode))
      && res.body == Some(if isFresh then NoBody else Bytes(buffer))
  {
    var etag := Fingerprint.GetHash(sha, [Fingerprint.Data(buffer)]);
    var finished := SetResponseHeaders(req, res, url, etag, Some(maxAge), contentType, isDev, parseDate, db, disposition);
    if !finished {
      res.End(Bytes(buffer));
    }
  }

  // ---------------------------------------------------------------------------------------------
  // Properties of the header block

  /** `Vary: Accept` and the Cache-Control value are always set, whatever the verdict. */
  lemma CommonHeadersAlwaysSet(headers: Headers, url: string, etag: string, maxAge: Option<int>,
                               contentType: string, isDev: bool, finished: bool,
                               db: Mime.MimeDb, disposition: Disposition)
    ensures var r := HeadersAfter(headers, url, etag, maxAge, contentType, isDev, finished, db, disposition);
      && "Vary" in r && r["Vary"] == "Accept"
      && "Cache-Control" in r && r["Cache-Control"] == CacheControlValue(maxAge, isDev)
      && (etag != "" ==> "ETag" in r && r["ETag"] == etag)
  {
  }

  /**
    The Cache-Control header read back by `getMaxAge` gives the entry's max-age, or 0 in dev
    mode: a second optimiser fetching from this one inherits the expiry.
  */
  lemma CacheControlReadsBack(maxAge: int, isDev: bool)
    ensures CacheControl.MaxAgeOf(CacheControlValue(Some(maxAge), isDev)) == if isDev then 0 else maxAge
  {
    CacheControl.ResponseCacheControlRoundTrip(if isDev then 0 else maxAge);
  }

  /** A fresh request is answered with the common headers only: no Content-Type and no CSP are added. */
  lemma FreshReplyHasNoContentHeaders(headers: Headers, url: string, etag: string, maxAge: Option<int>,
                                      contentType: string, isDev: bool,
                                      db: Mime.MimeDb, disposition: Disposition)
    requires "Content-Type" !in headers && "Content-Security-Policy" !in headers
    requires "Content-Disposition" !in headers
    ensures var r := HeadersAfter(headers, url, etag, maxAge, contentType, isDev, true, db, disposition);
      "Content-Type" !in r && "Content-Security-Policy" !in r && "Content-Disposition" !in r
  {
  }

  /**
    A full reply always carries the CSP; it carries the content type exactly when there is one,
    and a Content-Disposition exactly when the URL names a file.
  */
  lemma FullReplyHeaders(headers: Headers, url: string, etag: string, maxAge: Option<int>,
                         contentType: string, isDev: bool, db: Mime.MimeDb, disposition: Disposition)
    requires "Content-Type" !in headers && "Content-Disposition" !in headers
    ensures var r := HeadersAfter(headers, url, etag, maxAge, contentType, isDev, false, db, disposition);
      && "Content-Security-Policy" in r && r["Content-Security-Policy"] == CONTENT_SECURITY_POLICY
      && ("Content-Type" in r <==> contentType != "")
      && (contentType != "" ==> r["Content-Type"] == contentType)
      && ("Content-Disposition" in r <==> GetFileNameWithExtension(url, contentType, db).Some?)
  {
  }

  /**
    With a 32-byte digest every body sent gets a 44-character entity tag, so `sendResponse`
    always sets `ETag`.
  */
  lemma SentBodiesAreTagged(sha: Fingerprint.Digest, buffer: seq<byte>)
    requires |sha(Fingerprint.HashInput([Fingerprint.Data(buffer)]))| == 32
    ensures |Fingerprint.ContentHash(sha, buffer)| == 44
    ensures '.' !in Fingerprint.ContentHash(sha, buffer) && '/' !in Fingerprint.ContentHash(sha, buffer)
  {
    Fingerprint.DigestLength(sha, [Fingerprint.Data(buffer)]);
    Fingerprint.FingerprintIsFileSafe(sha, [Fingerprint.Data(buffer)]);
  }
}
