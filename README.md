# Image optimiser and image component, modelled in Dafny

This project models the image pipeline of the SvelteKit image packages. It has two parts.

The server side is the `imageOptimizer` request handler of the Node adapter and of the dev server:

- the query checks (`url`, `w`, `q`, the loader, the domain and width allow-lists);
- the request fingerprint (`getHash`) that names the cache directory and the in-flight marker;
- the disk cache scan and `writeToCacheDir`;
- the upstream fetch (absolute URLs over the network, relative ones through the server's own handler);
- content sniffing (`detectContentType`) and the pass-through / refuse / re-encode decision;
- the sharp and squoosh codec plans, and the fall-back to the original bytes when a codec throws;
- the response headers: `setResponseHeaders`, `sendResponse`, `sendEtagResponse`, with the conditional-request test `fresh` and its `parseTokenList` scanner;
- `Cache-Control` parsing (`parseCacheControl`, `getMaxAge`).

The dev server's `getFileNameWithExtension`, `setResponseHeaders`, `sendResponse`, `getSupportedMimeType` and `getMaxAge` are the same code as the Node adapter's, so each is modelled once and the table cites the Node adapter copy.

The client side is the image component's helpers:

- the `default`, `cloudinary` and `akamai` URL loaders and `normalizeSrc`;
- `getInt`;
- the sorted size lists built at module load;
- `getWidths` and `generateImgAttrs`;
- `execOnce`.

Mutable server state is modelled as classes whose methods carry `modifies` clauses:

- the HTTP response (`HttpResponse.Response`);
- the cache directories (`DiskCache.CacheStore`);
- the in-flight map (`Inflight.InflightRequests`);
- the `execOnce` closure (`ExecOnce.Once`).

Sorting the size lists works in place on an `array`. Pure logic is functions over datatypes, with lemmas.

Collaborators whose code is not part of this model are parameters of `Optimizer.Env` (function values), so every property holds for all of them:

- the URL parser and the `Accept` negotiation;
- SHA-256;
- `isAnimated` and `getOrientation`;
- sharp's metadata and the encoders;
- `fetch` and the internal dispatch;
- `content-disposition`, `Date.parse` and `Date.now`;
- the MIME database.

In the model, `""` stands for a JavaScript `null` or `undefined` string, because the source only tests those for truthiness. `None` stands for `NaN`, or for an `undefined` width.

## Model

| member | source | states |
|---|---|---|
| ContentSniff.DetectContentType | packages/adapter-node/src/image-optimizer/helper.ts:17-43 | the sniffed type is one of the six image types or none |
| ContentSniff.DetectIsFirstMatch | packages/adapter-node/src/image-optimizer/helper.ts:17-43 | signatures are tried in the order JPEG, PNG, GIF, WEBP, SVG, AVIF and the first match decides |
| ContentSniff.JpegPrefixIsJpeg | packages/adapter-node/src/image-optimizer/helper.ts:18-20 | any buffer starting FF D8 FF is JPEG |
| ContentSniff.ShortBufferIsUnknown | packages/adapter-node/src/image-optimizer/helper.ts:17-43 | a buffer of fewer than three bytes is never recognised |
| ContentSniff.WebpSizeBytesAreWildcards | packages/adapter-node/src/image-optimizer/helper.ts:30-32 | `RIFF`, any four bytes, `WEBP` is WEBP whatever the size bytes |
| ContentSniff.AvifSizeBytesAreWildcards | packages/adapter-node/src/image-optimizer/helper.ts:38-40 | any size bytes followed by `ftypavif` are AVIF unless they start a JPEG or GIF signature |
| ContentSniff.AvifWithJpegLikeSizeIsJpeg | packages/adapter-node/src/image-optimizer/helper.ts:18-40 | an AVIF box whose size starts FF D8 FF is sniffed as JPEG |
| ContentSniff.SignaturesAreRecognised | packages/adapter-node/src/image-optimizer/helper.ts:17-43 | each format's signature followed by anything is recognised as that format |
| Mime.ExtensionText | packages/node-adapter/src/image-optimizer/server.ts:469 | a missing extension prints as `null` in the file name |
| Mime.GetExtension | packages/adapter-node/src/image-optimizer/helper.ts:45-47 | the database's extension for the type, `null` when it has none |
| Mime.GetContentType | packages/adapter-node/src/image-optimizer/helper.ts:49-51 | the database's type for the extension, `null` when it has none |
| Fresh.TokenList | packages/adapter-node/src/optimizer/fresh/index.ts:97-124 | the tokens are the comma-separated pieces without their outer spaces |
| Fresh.ParseTokenList | packages/adapter-node/src/optimizer/fresh/index.ts:97-124 | the character scan returns exactly `TokenList` of its input |
| Fresh.TokenListShape | packages/adapter-node/src/optimizer/fresh/index.ts:97-124 | one more token than commas, and no token holds a comma |
| Fresh.TwoTokens | packages/adapter-node/src/optimizer/fresh/index.ts:97-124 | one comma gives the two trimmed pieces around it |
| Fresh.TokenListExample | packages/adapter-node/src/optimizer/fresh/index.ts:97-124 | tokens keep their inner spaces and lose their outer ones |
| Fresh.SingleToken | packages/adapter-node/src/optimizer/fresh/index.ts:97-124 | a comma-free, unpadded list is one token, itself |
| Fresh.Fresh | packages/adapter-node/src/optimizer/fresh/index.ts:23-76 | the method's verdict equals the branch chain of `fresh`, with the scan that clears `etagStale` on the first matching token |
| Fresh.IsFresh | packages/adapter-node/src/optimizer/fresh/index.ts:23-76 | the verdict of `fresh`: a validator is required, `no-cache` wins, the tag must match, and an If-Modified-Since, when sent, needs a Last-Modified no later than it |
| Fresh.NoCacheRequested | packages/adapter-node/src/optimizer/fresh/index.ts:33-39 | the request Cache-Control holds `no-cache` as a whole comma-separated token, spaces around it allowed |
| Fresh.UnconditionalIsStale | packages/adapter-node/src/optimizer/fresh/index.ts:28-31 | no validator at all is never fresh |
| Fresh.NoCacheIsStale | packages/adapter-node/src/optimizer/fresh/index.ts:33-39 | a standalone `no-cache` request directive wins over every validator |
| Fresh.IfNoneMatchOnly | packages/adapter-node/src/optimizer/fresh/index.ts:23-76 | with only If-None-Match, fresh iff no `no-cache` and the header is `*` or lists a token weakly matching the non-empty tag |
| Fresh.ModifiedSinceWithoutLastModifiedIsStale | packages/adapter-node/src/optimizer/fresh/index.ts:65-75 | If-Modified-Since without Last-Modified always makes the response stale, even after a matching tag |
| Fresh.SameEntityTagIsFresh | packages/adapter-node/src/optimizer/fresh/index.ts:42-62 | the same tag is fresh |
| Fresh.WeakEntityTagIsFresh | packages/adapter-node/src/optimizer/fresh/index.ts:42-62 | `W/<tag>` matches the strong tag |
| Fresh.ListedEntityTagIsFresh | packages/adapter-node/src/optimizer/fresh/index.ts:42-62 | a list holding the tag is fresh; the other tag alone is not |
| CacheControl.Directives | packages/node-adapter/src/image-optimizer/server.ts:569-583 | no map for a missing header, else the fold over its comma pieces |
| CacheControl.ParseCacheControl | packages/node-adapter/src/image-optimizer/server.ts:569-583 | the loop builds exactly `Directives` of the header |
| CacheControl.FoldKeys | packages/node-adapter/src/image-optimizer/server.ts:569-583 | a key is in the map iff some directive has it |
| CacheControl.FoldLastWins | packages/node-adapter/src/image-optimizer/server.ts:569-583 | a key's value is that of the last directive carrying it |
| CacheControl.LaterDirectiveOverrides | packages/node-adapter/src/image-optimizer/server.ts:569-583 | a later duplicate directive overrides an earlier one |
| CacheControl.AgeText | packages/node-adapter/src/image-optimizer/server.ts:585-598 | `s-maxage`, else `max-age`, else empty |
| CacheControl.Unquote | packages/node-adapter/src/image-optimizer/server.ts:585-598 | one pair of surrounding quotes is removed |
| CacheControl.GetMaxAge | packages/node-adapter/src/image-optimizer/server.ts:585-598 | the method returns the announced age, or 0 when it is not a number |
| CacheControl.MaxAgeOf | packages/node-adapter/src/image-optimizer/server.ts:585-598 | the age the loop of `getMaxAge` returns: `parseInt` of the unquoted age text, 0 when that is NaN; `ResponseCacheControlRoundTrip` reads a written age back |
| CacheControl.SharedMaxAgeWins | packages/node-adapter/src/image-optimizer/server.ts:585-598 | for any comma-separated header, the last `s-maxage` directive with a value gives the age, whatever the `max-age` directives say |
| CacheControl.MaxAgeFallback | packages/node-adapter/src/image-optimizer/server.ts:585-598 | for any comma-separated header with no `s-maxage` value, the last `max-age` directive gives the age |
| CacheControl.QuotedAge | packages/node-adapter/src/image-optimizer/server.ts:585-598 | a quoted age reads like the unquoted one |
| CacheControl.NonNumericAgeIsZero | packages/node-adapter/src/image-optimizer/server.ts:585-598 | an age not starting with a digit reads as 0 |
| CacheControl.MissingHeaderIsZero | packages/node-adapter/src/image-optimizer/server.ts:585-598 | no header, no max-age |
| CacheControl.ExpireAt | packages/node-adapter/src/image-optimizer/server.ts:343 | the expiry is `now` plus the larger of `maxAge` and `minimumCacheTTL` seconds, in milliseconds |
| CacheControl.ResponseDirectiveMap | packages/node-adapter/src/image-optimizer/server.ts:491-526 | the header the optimiser writes parses to a map whose `max-age` is the digits and has no `s-maxage` |
| CacheControl.ResponseCacheControlRoundTrip | packages/node-adapter/src/image-optimizer/server.ts:491-526 | `getMaxAge` of the written header gives back the same age |
| Fingerprint.Base64 | packages/node-adapter/src/image-optimizer/server.ts:557-567 | three bytes become four Base64 characters |
| Fingerprint.FileSafe | packages/node-adapter/src/image-optimizer/server.ts:557-567 | every `/` is replaced by `-`, nothing else changes |
| Fingerprint.GetHash | packages/node-adapter/src/image-optimizer/server.ts:557-567 | the method's loop feeds the items one after another and returns `Fingerprint` of them |
| Fingerprint.Fingerprint | packages/node-adapter/src/image-optimizer/server.ts:557-567 | the digest of the items in file-safe Base64, four characters per three digest bytes, rounded up |
| Fingerprint.ContentHash | packages/node-adapter/src/image-optimizer/server.ts:537 | the entity tag of a body, `getHash([buffer])`, holds neither `/` nor `.` |
| Fingerprint.RequestItems | packages/node-adapter/src/image-optimizer/server.ts:194-197 | the corrected items of a request, with `\|` between them; `RequestItemsInjective` is proved about it |
| Fingerprint.FingerprintIsFileSafe | packages/node-adapter/src/image-optimizer/server.ts:557-567 | a fingerprint holds neither `/` nor `.` |
| Fingerprint.DigestLength | packages/node-adapter/src/image-optimizer/server.ts:557-567 | a 32-byte digest prints as 44 characters |
| Fingerprint.HashInputOfText | packages/node-adapter/src/image-optimizer/server.ts:557-567 | the bytes hashed for strings and numbers are the UTF-8 of their concatenated text |
| Fingerprint.RequestItemsAsWritten | packages/node-adapter/src/image-optimizer/server.ts:194-197 | the items hashed for a request, as written |
| Fingerprint.AsWrittenRequestsCollide | packages/node-adapter/src/image-optimizer/server.ts:194-197 | `url=/p20&w=48` and `url=/p&w=2048` feed the same bytes to the hash |
| Fingerprint.RequestItemsInjective | packages/node-adapter/src/image-optimizer/server.ts:194-197 | with `\|` between the items, different requests feed different bytes |
| DiskCache.FileExists | packages/adapter-node/src/image-optimizer/helper.ts:53-73 | ENOENT and ENAMETOOLONG are "does not exist", other errors are re-thrown, otherwise the kind test decides |
| DiskCache.ParseEntryName | packages/node-adapter/src/image-optimizer/server.ts:217-221 | an entry name is read as max-age, expiry, tag and content type |
| DiskCache.EntryName | packages/node-adapter/src/image-optimizer/server.ts:458-472 | the file name `maxAge.expireAt.etag.extension`; `EntryNameRoundTrip` reads its fields back |
| DiskCache.EntryExpiryOfName | packages/node-adapter/src/image-optimizer/server.ts:458-472 | a written name reads back its expiry |
| DiskCache.EntryNameRoundTrip | packages/node-adapter/src/image-optimizer/server.ts:458-472 | the four fields are recovered when the tag has no `.` and the type round-trips |
| DiskCache.WrittenEntryReadsBack | packages/node-adapter/src/image-optimizer/server.ts:212-243 | a cache hit sends the same tag, max-age and type as the first response |
| DiskCache.ServedUntilExpiry | packages/node-adapter/src/image-optimizer/server.ts:226 | an entry is served exactly while less than `max(maxAge, minimumCacheTTL)` seconds have passed |
| DiskCache.FirstFresh | packages/node-adapter/src/image-optimizer/server.ts:216-242 | the position of the first unexpired entry, every entry before it expired |
| DiskCache.ScanCache | packages/node-adapter/src/image-optimizer/server.ts:212-243 | the hit is the first unexpired entry; every entry before it is unlinked and later ones stay |
| DiskCache.ExpiredPrefixIsSkipped | packages/node-adapter/src/image-optimizer/server.ts:212-243 | expired entries in front of a fresh one are passed over |
| DiskCache.WriteToCacheDir | packages/node-adapter/src/image-optimizer/server.ts:458-472 | the directory then holds the bytes under the name recording max-age, expiry, fingerprint and extension; other directories are unchanged |
| DiskCache.CacheStore.Unlink | packages/node-adapter/src/image-optimizer/server.ts:240 | only the named file of the named directory is removed |
| DiskCache.CacheStore.Write | packages/node-adapter/src/image-optimizer/server.ts:458-472 | the directory is created if needed and the file holds the bytes |
| HttpResponse.Response.SetHeader | packages/node-adapter/src/image-optimizer/server.ts:491-526 | the header is set, everything else is unchanged |
| HttpResponse.Response.End | packages/node-adapter/src/image-optimizer/server.ts:528-550 | the body is sent and the response is finished |
| HttpResponse.Response.Reject | packages/node-adapter/src/image-optimizer/server.ts:94-189 | status and message, response finished |
| HttpResponse.SupportedMimeType | packages/node-adapter/src/image-optimizer/server.ts:552-555 | the negotiated type when the Accept header names it literally, else empty |
| HttpResponse.SupportedMimeTypeIsAnOption | packages/node-adapter/src/image-optimizer/server.ts:552-555 | the result is one of the options or nothing |
| HttpResponse.ListedTypeIsSupported | packages/node-adapter/src/image-optimizer/server.ts:552-555 | a client spelling out the negotiated type gets it |
| HttpResponse.GetFileNameWithExtension | packages/node-adapter/src/image-optimizer/server.ts:474-489 | nothing for a null type or empty segment, else the stem with the type's extension |
| HttpResponse.FileNameOfUrl | packages/node-adapter/src/image-optimizer/server.ts:474-489 | the query is dropped, the last segment counts, everything from its first `.` is replaced |
| HttpResponse.DirectoryUrlHasNoFileName | packages/node-adapter/src/image-optimizer/server.ts:474-489 | a path ending in `/` names no file |
| HttpResponse.SendEtagResponse | packages/adapter-node/src/image-optimizer/helper.ts:86-104 | an `ETag` header exactly when the tag is non-empty; 304 and an empty end exactly when `fresh` holds |
| HttpResponse.SetResponseHeaders | packages/node-adapter/src/image-optimizer/server.ts:491-526 | the common headers, the conditional reply, then the content headers unless already answered |
| HttpResponse.HeadersAfter | packages/node-adapter/src/image-optimizer/server.ts:491-526 | `Vary: Accept`, the Cache-Control of the age and the tag always; the CSP and the content type only for a full reply; every other header unchanged |
| HttpResponse.SendResponse | packages/node-adapter/src/image-optimizer/server.ts:528-550 | the headers for the bytes' tag, and the bytes unless the client's copy is fresh |
| HttpResponse.CommonHeadersAlwaysSet | packages/node-adapter/src/image-optimizer/server.ts:491-526 | `Vary: Accept` and Cache-Control are always set |
| HttpResponse.CacheControlReadsBack | packages/node-adapter/src/image-optimizer/server.ts:491-526 | the Cache-Control written reads back as the entry's max-age, or 0 in dev mode |
| HttpResponse.FreshReplyHasNoContentHeaders | packages/node-adapter/src/image-optimizer/server.ts:491-526 | a fresh request gets no Content-Type and no CSP |
| HttpResponse.FullReplyHeaders | packages/node-adapter/src/image-optimizer/server.ts:491-526 | a full reply carries the CSP, the content type iff there is one, a disposition iff the URL names a file |
| HttpResponse.SentBodiesAreTagged | packages/node-adapter/src/image-optimizer/server.ts:528-550 | every body sent gets a 44-character entity tag |
| Validation.ValidateIsAcceptable | packages/node-adapter/src/image-optimizer/server.ts:94-189 | a request is accepted iff it is acceptable, with an allowed non-zero width and a quality in [1, 100] |
| Validation.Validate | packages/node-adapter/src/image-optimizer/server.ts:94-189 | a rejection is 404 for a non-`default` loader and 400 otherwise; an accepted request has the one `url` given, a non-zero allowed width, a quality in [1, 100], and is absolute iff the `url` does not start with `/` |
| Validation.Target | packages/node-adapter/src/image-optimizer/server.ts:118-145 | a relative `url` is kept as it is; an absolute one parses as http(s) on a listed host and is replaced by its normalised `href`; the only failures are an invalid or a disallowed `url` |
| Validation.Acceptable | packages/node-adapter/src/image-optimizer/server.ts:94-189 | the conditions each check imposes in turn: the `default` loader, one non-empty `url` with an allowed target, one `w` and one `q`, a width that is a non-zero number in the allow-list, a quality in [1, 100] |
| Validation.RejectionStatus | packages/node-adapter/src/image-optimizer/server.ts:94-189 | every rejection is 400 except the loader's 404 |
| Validation.LoaderCheckedFirst | packages/node-adapter/src/image-optimizer/server.ts:94-99 | a loader other than `default` is refused before the query is read |
| Validation.RelativeUrlIsKept | packages/node-adapter/src/image-optimizer/server.ts:118-121 | a relative `url` is fetched as it is, without consulting `domains` |
| Validation.AbsoluteUrlRules | packages/node-adapter/src/image-optimizer/server.ts:121-145 | an absolute `url` is accepted iff it parses as http(s) on a listed host |
| Validation.NoDomainsMeansRelativeOnly | packages/node-adapter/src/image-optimizer/server.ts:140-144 | with no domains no absolute URL is accepted |
| Validation.PresenceBeforeParsing | packages/node-adapter/src/image-optimizer/server.ts:147-165 | a missing `q` is reported whatever `w` holds |
| Validation.NegativeWidthReachesAllowList | packages/node-adapter/src/image-optimizer/server.ts:167-181 | a negative width passes the "> 0" test and is refused by the allow-list |
| Validation.QualityDecides | packages/node-adapter/src/image-optimizer/server.ts:183-189 | otherwise in order, accepted iff `parseInt(q)` is in [1, 100] |
| Validation.BlurWidthOnlyInDev | packages/dev-server/server.dev.ts:182-192 | dev mode adds exactly the blur width to the allow-list |
| Validation.BlurWidthNeedsDev | packages/dev-server/server.dev.ts:182-192 | width 8 is served only in dev mode with the default widths |
| Validation.DevServerRejectsEverything | packages/dev-server/server.dev.ts:90-105 | the dev server's configuration has no loader, so every request gets 404 |
| Validation.DevConfigServesBlurWidth | packages/dev-server/server.dev.ts:90-192 | with a `default` loader, a blur-sized local request is served in dev mode |
| Inflight.InflightRequests.Begin | packages/node-adapter/src/image-optimizer/server.ts:207-210 | the key's marker is added |
| Inflight.InflightRequests.Complete | packages/node-adapter/src/image-optimizer/server.ts:451-455 | the key's marker is removed |
| Transform.SquooshFormat | packages/dev-server/server.dev.ts:373-381 | a codec format exactly for AVIF, WebP, PNG and JPEG |
| Transform.SquooshPlan | packages/dev-server/server.dev.ts:356-391 | a plan exists exactly when there is a format |
| Transform.VectorIsPassedThrough | packages/node-adapter/src/image-optimizer/server.ts:345-367 | vector images are always passed through |
| Transform.AnimatedIsPassedThrough | packages/node-adapter/src/image-optimizer/server.ts:345-367 | an animatable type is passed through iff the image is animated |
| Transform.NonImageIsRefused | packages/node-adapter/src/image-optimizer/server.ts:369-372 | a declared non-image type is refused |
| Transform.OutputTypePriority | packages/node-adapter/src/image-optimizer/server.ts:375-387 | the negotiated type, else the upstream image type with a known extension, else JPEG; never empty |
| Transform.OutputType | packages/node-adapter/src/image-optimizer/server.ts:375-387 | never empty; the negotiated type, or without one the upstream type or JPEG |
| Transform.Decide | packages/node-adapter/src/image-optimizer/server.ts:345-387 | pass-through only for a vector or an animated animatable type; refusal only for a declared non-image type; a re-encoding never of an animated image and always to a named type |
| Transform.UnknownTypeIsOptimized | packages/node-adapter/src/image-optimizer/server.ts:369-387 | with no type at all the image is still re-encoded |
| Transform.SharpPlanShape | packages/node-adapter/src/image-optimizer/server.ts:389-425 | rotate first, resize only when wider, at most one encode at a quality in [0, q] |
| Transform.SharpPlan | packages/node-adapter/src/image-optimizer/server.ts:389-425 | one to three steps: the auto-rotation, then only resizes and encodes |
| Transform.SharpAvifQuality | packages/node-adapter/src/image-optimizer/server.ts:402-418 | AVIF at 15 points less (not below 0), WebP without AVIF support |
| Transform.SquooshPlanShape | packages/dev-server/server.dev.ts:356-391 | at most one rotation, then the resize, then the encode named by the type's extension |
| Transform.RotationTable | packages/dev-server/server.dev.ts:358-372 | 1, 2 or 3 quarter turns for three orientations, none for the others |
| Transform.Rotations | packages/dev-server/server.dev.ts:358-372 | at most one step, a rotation of 1, 2 or 3 quarter turns |
| Optimizer.Deliver | packages/node-adapter/src/image-optimizer/server.ts:345-448 | refuse, send as is, or send the encoded bytes; what is cached is what is sent |
| Optimizer.CodecFailureFallsBack | packages/node-adapter/src/image-optimizer/server.ts:443-448 | a codec failure sends the original bytes under the upstream type and caches nothing |
| Optimizer.CachedIsSent | packages/node-adapter/src/image-optimizer/server.ts:345-448 | the cached bytes are the sent bytes; original bytes only go out under the upstream type |
| Optimizer.SquooshKeepsStillGif | packages/dev-server/server.dev.ts:373-391 | a still GIF asked for as GIF is sent back as it came and not cached |
| Optimizer.NonImageIsRefused | packages/node-adapter/src/image-optimizer/server.ts:369-372 | a declared non-image the bytes do not contradict is refused with 400 |
| Optimizer.SniffedImageIsNotRefused | packages/node-adapter/src/image-optimizer/server.ts:263-265 | bytes that sniff as an image are never refused |
| Optimizer.RelativeFetchFailureIs500 | packages/node-adapter/src/image-optimizer/server.ts:266-341 | a failing internal dispatch is a 500 and never throws |
| Optimizer.FetchUpstream | packages/node-adapter/src/image-optimizer/server.ts:249-341 | only an absolute fetch can throw; an absolute fetch answers only an `ok` response; a failing relative dispatch is a 500 |
| Optimizer.UpstreamType | packages/node-adapter/src/image-optimizer/server.ts:263-265 | the sniffed image type when the bytes have one, else the declared Content-Type |
| Optimizer.RequestKey | packages/node-adapter/src/image-optimizer/server.ts:194-197 | the fingerprint `getHash` computes as written, which names a directory and holds neither `/` nor `.` |
| Optimizer.CollidingRequestsShareKey | packages/node-adapter/src/image-optimizer/server.ts:194-197 | two different accepted requests, `/p20` at width 48 and `/p` at width 2048, get the same key |
| Optimizer.CacheAndSend | packages/node-adapter/src/image-optimizer/server.ts:351-365 | the entry written exactly when the bytes are cached, then the bytes sent with their tag, or 304 when fresh |
| Optimizer.Respond | packages/node-adapter/src/image-optimizer/server.ts:343-448 | status and body per `Deliver`, the cache entry written exactly when the delivery is cached |
| Optimizer.ServeHit | packages/node-adapter/src/image-optimizer/server.ts:226-238 | the entry's tag, max-age and type headers, then the file unless fresh |
| Optimizer.FetchAndRespond | packages/node-adapter/src/image-optimizer/server.ts:249-448 | a thrown fetch propagates, an upstream error is answered with its status, an image is delivered |
| Optimizer.Serve | packages/node-adapter/src/image-optimizer/server.ts:212-448 | a stat error throws with nothing changed; a fresh entry is answered (304 or the file) and the expired entries before it are unlinked; a miss fetches and answers with the upstream's status, a refusal, or the bytes `Deliver` chooses, or throws when the fetch throws |
| Optimizer.ServeAccepted | packages/node-adapter/src/image-optimizer/server.ts:199-455 | the request's key is the fingerprint of `getHash` as written; the outcome is that of `Serve` under this key, its marker is removed on every way out and no other directory changes |
| Optimizer.ImageOptimizer | packages/node-adapter/src/image-optimizer/server.ts:77-456 | a rejection answers its status and message and touches neither cache nor markers; an accepted request is served as `Serve` describes under the key `getHash` computes as written, and leaves no marker behind |
| Loaders.QualityOr | packages/image/.svelte-kit/output/server/chunks/index-fcf6c3ae.js:48 | the quality unless undefined, NaN or 0 |
| Loaders.NormalizeSrc | packages/image/.svelte-kit/output/server/chunks/index-fcf6c3ae.js:12-14 | the input, or the input is `/` followed by the result |
| Loaders.NormalizeSrcRemovesOneSlash | packages/image/.svelte-kit/output/server/chunks/index-fcf6c3ae.js:12-14 | exactly one leading `/` is removed |
| Loaders.EncodeUriComponent | packages/image/.svelte-kit/output/server/chunks/index-fcf6c3ae.js:66 | the result is made of unreserved characters and escapes |
| Loaders.EncodeUriComponentDecodes | packages/image/.svelte-kit/output/server/chunks/index-fcf6c3ae.js:66 | percent-decoding the result gives back the UTF-8 bytes of the input |
| Loaders.EncodeUriComponentInjective | packages/image/.svelte-kit/output/server/chunks/index-fcf6c3ae.js:66 | different paths encode differently |
| Loaders.EncodeUnreservedIsIdentity | packages/image/.svelte-kit/output/server/chunks/index-fcf6c3ae.js:66 | unreserved paths are unchanged |
| Loaders.DefaultLoaderQuery | packages/image/.svelte-kit/output/server/chunks/index-fcf6c3ae.js:60-69 | the URL splits into root and the `url`, `w`, `q` parameters, reading back as width and quality (75 when unset) |
| Loaders.DefaultLoader | packages/image/.svelte-kit/output/server/chunks/index-fcf6c3ae.js:60-69 | the root, then `?url=` with the encoded source, `&w=` and `&q=`; `DefaultLoaderQuery` reads the parameters back |
| Loaders.CloudinaryLoader | packages/image/.svelte-kit/output/server/chunks/index-fcf6c3ae.js:38-52 | root, directives, `/`, path without leading `/` |
| Loaders.CloudinaryLoaderParts | packages/image/.svelte-kit/output/server/chunks/index-fcf6c3ae.js:38-52 | the directives split back at commas and the width reads back |
| Loaders.AkamaiLoader | packages/image/.svelte-kit/output/server/chunks/index-fcf6c3ae.js:31-37 | the path without leading `/`, then `?imwidth=` |
| Loaders.AkamaiLoaderQuery | packages/image/.svelte-kit/output/server/chunks/index-fcf6c3ae.js:31-37 | one query parameter `imwidth` reading back as the width |
| Widths.Insert | packages/image/.svelte-kit/output/server/chunks/index-fcf6c3ae.js:91-92 | one insertion step: the prefix grows sorted, elements unchanged as a multiset |
| Widths.SortAscending | packages/image/.svelte-kit/output/server/chunks/index-fcf6c3ae.js:91-92 | the array ends sorted and a permutation of its old contents |
| Widths.InitSizes | packages/image/.svelte-kit/output/server/chunks/index-fcf6c3ae.js:83-92 | both lists sorted, `allSizes` a permutation of device plus image sizes |
| Widths.SortedPermutationIsUnique | packages/image/.svelte-kit/output/server/chunks/index-fcf6c3ae.js:91-92 | sorting has one possible outcome |
| Widths.DefaultSizes | packages/image/.svelte-kit/output/server/chunks/index-fcf6c3ae.js:83-92 | the default configuration yields the listed sorted constants |
| Widths.GetInt | packages/image/.svelte-kit/output/server/chunks/index-fcf6c3ae.js:100-108 | the result is a number or undefined |
| Widths.GetIntReadsText | packages/image/.svelte-kit/output/server/chunks/index-fcf6c3ae.js:100-108 | a width written as text reads back; `getInt` is idempotent |
| Widths.FirstAtLeast | packages/image/.svelte-kit/output/server/chunks/index-fcf6c3ae.js:152 | the index of the first size at least `x`, none when none is |
| Widths.MinOf | packages/image/.svelte-kit/output/server/chunks/index-fcf6c3ae.js:139-140 | an element at most every element |
| Widths.AtLeastPercent | packages/image/.svelte-kit/output/server/chunks/index-fcf6c3ae.js:140-142 | exactly the sizes at least the percentage of the first device size, in order |
| Widths.SizeForIsSmallestFit | packages/image/.svelte-kit/output/server/chunks/index-fcf6c3ae.js:151-153 | the smallest size at least the target, or the largest |
| Widths.FixedWidthsShape | packages/image/.svelte-kit/output/server/chunks/index-fcf6c3ae.js:151-154 | one or two configured sizes, non-decreasing, the second dropped when equal |
| Widths.FixedWidths | packages/image/.svelte-kit/output/server/chunks/index-fcf6c3ae.js:151-154 | one or two different configured sizes |
| Widths.SizeFor | packages/image/.svelte-kit/output/server/chunks/index-fcf6c3ae.js:151-153 | always one of the configured sizes |
| Widths.GetWidths | packages/image/.svelte-kit/output/server/chunks/index-fcf6c3ae.js:132-155 | width descriptors, or density descriptors for one or two sizes of a fixed width; every width offered is a configured size |
| Widths.SizesWithoutPercentGiveAllSizes | packages/image/.svelte-kit/output/server/chunks/index-fcf6c3ae.js:133-146 | no percentage offers every size with width descriptors |
| Widths.AllLargeEnoughAreKept | packages/image/.svelte-kit/output/server/chunks/index-fcf6c3ae.js:140-142 | once a size is large enough every later one is kept |
| Widths.PercentWidthsAreATail | packages/image/.svelte-kit/output/server/chunks/index-fcf6c3ae.js:133-146 | with a percentage the sizes offered are a tail of the sorted sizes |
| Widths.ImgAttrsAgree | packages/image/.svelte-kit/output/server/chunks/index-fcf6c3ae.js:109-131 | one srcset entry per width, the last one is `src`, `sizes` defaults to `100vw` for width descriptors, unoptimised left alone |
| Widths.GenerateImgAttrs | packages/image/.svelte-kit/output/server/chunks/index-fcf6c3ae.js:109-131 | an unoptimised image keeps only `src`; otherwise there is a srcset, and a non-empty `sizes` is kept |
| Widths.FixedWidthDensities | packages/image/.svelte-kit/output/server/chunks/index-fcf6c3ae.js:109-131 | a fixed width lists `1x` and, when larger, `2x` |
| Widths.DefaultFixedWidthExample | packages/image/.svelte-kit/output/server/chunks/index-fcf6c3ae.js:132-155 | a 100-pixel fixed image is offered at 128 and 256 |
| ExecOnce.Once.Call | packages/image/src/lib/_internal/utils.ts:4-17 | the function is invoked on the first call only, after `used` is set; the first call returns or throws what it does; later calls return the stored result, which is `undefined` when the first invocation threw |
| JsText.SplitJoin | packages/node-adapter/src/image-optimizer/server.ts:569-583 | separator-free pieces joined split back into themselves |
| JsText.ParseIntOfIntToString | packages/node-adapter/src/image-optimizer/server.ts:167 | in the model's unbounded integers, `parseInt` of `String(n)` reads back `n` |
| JsText.JsNumberOfIntToString | packages/node-adapter/src/image-optimizer/server.ts:219-220 | in the model's unbounded integers, `Number` of `String(n)` reads back `n` |
| JsText.ParseInt | packages/node-adapter/src/image-optimizer/server.ts:167 | `parseInt`: leading white space skipped, an optional sign, the leading digits (hexadecimal after `0x` when no radix is given), NaN when there are none |
| JsText.IntToString | packages/node-adapter/src/image-optimizer/server.ts:560 | `String(n)` of an integer: never empty, a `-` before the digits of a negative number |
| JsText.JsNumber | packages/node-adapter/src/image-optimizer/server.ts:219-220 | `Number(s)`: 0 for blank text, the value of trimmed decimal-integer text with an optional sign, NaN otherwise |
| JsText.Trim | packages/node-adapter/src/image-optimizer/server.ts:575 | the string without leading and trailing white space |
| JsText.Split | packages/node-adapter/src/image-optimizer/server.ts:574-575 | the pieces between the separators, at least one |
| JsText.Utf8Injective | packages/node-adapter/src/image-optimizer/server.ts:557-567 | different strings have different UTF-8 encodings |

## Left out

- The dev server's `isStatic` is not declared in the source (server.dev.ts passes it where `isDev` goes); the model passes `isDev`.
- The relative-URL dispatch as written: the call into the server's handler (server.ts:321-325) is commented out, so `isStreamFinished` never settles. The request then never finishes, its `finally` never runs, and its in-flight marker stays set, so every later request with the same key waits forever. The model gives the handler as the `dispatch` parameter. So `Optimizer.ServeAccepted` and `Optimizer.ImageOptimizer` show that no marker is left behind for a relative URL only when the dispatch is wired in as intended.
- Concurrency: waiting on another request's in-flight marker is left out, so each request is modelled as run alone. The markers are modelled as a set of keys.
- SHA-256, the `mime` database, `@hapi/accept`, sharp, squoosh, `get-orientation`, `is-animated`, `content-disposition` and `Date.parse` are parameters: their code is not part of this model.
- JsText.ParseIntOfIntToString, JsText.JsNumberOfIntToString: JavaScript numbers are doubles, but the model's numbers are unbounded integers. Rounding above 2^53, exponent printing from 1e21, `Infinity` and fractions are not modelled. `CacheControl.ResponseCacheControlRoundTrip`, `DiskCache.EntryNameRoundTrip` and `Loaders.DefaultLoaderQuery` rest on these two and share the limit.
- JsText.JsNumber: only the decimal-integer forms of `Number(s)` are modelled. Exponents, hexadecimal, `Infinity` and fractions are not, because every number the pipeline reads back is one it printed.
- JsText.AsciiLower: only ASCII letters are lower-cased. The directive keys compared are ASCII, so the lookups decide the same way.
- Widths.GetWidths: the `vw` pattern scan is an input (`viewportPercents`), and the `* 0.01` float ratio is restated over integers. It requires a non-empty `allSizes`, which the module always builds.
- imgixLoader, customLoader and the `defaultImageLoader` dispatch are not modelled: they build URLs through `URL`/`searchParams` or return `src` unchanged.
- toBase64 and the Svelte component rendering are not modelled.
- Errors from `unlink` and `writeFile` are not modelled; a sharp metadata failure is folded into the codec's failure.
- ExecOnce.Once.Call: the variadic arguments are one value of a type parameter.
- Once the config defaults are applied, only the fields the handler reads are modelled.

## Findings

| source | as written | input that shows it | evidently intended | confidence | as-written member | corrected member |
|---|---|---|---|---|---|---|
| packages/node-adapter/src/image-optimizer/server.ts:194-197 | `getHash` feeds version, href, width, quality and type to the hash with nothing between them | `url=/p20&w=48` and `url=/p&w=2048` (same `q` and type) hash the same bytes, so they share a cache directory and in-flight marker | distinct requests get distinct fingerprints | not executed | Optimizer.CollidingRequestsShareKey | Fingerprint.RequestItemsInjective |
| packages/dev-server/server.dev.ts:90-105 | the dev server validates against `imageConfigDefault`, which has no `loader`, and then requires `loader === 'default'` | any request, e.g. `url=/a.png&w=8&q=75` | the dev server serves images with the `default` loader | not executed | Validation.DevServerRejectsEverything | Validation.DevConfigServesBlurWidth |
