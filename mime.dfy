/**
  The MIME-type constants of the image optimiser and the two lookups of the `mime` package it
  uses (`getExtension`, `getContentType`), as tables.
*/
module Mime {
  import opened Wrappers

  const AVIF: string := "image/avif"
  const WEBP: string := "image/webp"
  const PNG: string := "image/png"
  const JPEG: string := "image/jpeg"
  const GIF: string := "image/gif"
  const SVG: string := "image/svg+xml"

  /** Types that may hold an animation, which the optimiser never re-encodes when it does. */
  const ANIMATABLE_TYPES: seq<string> := [WEBP, PNG, GIF]
  /** Types that are never re-encoded. */
  const VECTOR_TYPES: seq<string> := [SVG]

  /** Width of the blur placeholder, allowed in addition to the configured widths in dev mode. */
  const BLUR_IMG_SIZE: int := 8

  /**
    The `mime` database: `extensionOf` answers `getExtension(type)` and `typeOf` answers
    `getContentType(ext)`; a missing key is the package's `null`.
  */
  datatype MimeDb = MimeDb(extensionOf: map<string, string>, typeOf: map<string, string>)

  function GetExtension(db: MimeDb, contentType: string): Option<string> {
    if contentType in db.extensionOf then Some(db.extensionOf[contentType]) else None
  }

  /** `getContentType(ext)`; `""` stands for `null`. */
  function GetContentType(db: MimeDb, ext: string): string {
    if ext in db.typeOf then db.typeOf[ext] else ""
  }

  /** `${getExtension(contentType)}`: a template literal prints a `null` extension as "null". */
  function ExtensionText(db: MimeDb, contentType: string): string {
    match GetExtension(db, contentType)
    case Some(e) => e
    case None => "null"
  }

  /**
    What the cache file names need of the database for type `t`: `t` has an extension, the
    extension has no `.`, and looking the extension up gives `t` back.
  */
  predicate RoundTrips(db: MimeDb, t: string) {
    t in db.extensionOf && '.' !in db.extensionOf[t] &&
    db.extensionOf[t] in db.typeOf && db.typeOf[db.extensionOf[t]] == t
  }

  /** The entries of the `mime` package for the six image types the optimiser names. */
  const ImageDb: MimeDb := MimeDb(
    map[AVIF := "avif", WEBP := "webp", PNG := "png", JPEG := "jpeg", GIF := "gif", SVG := "svg"],
    map["avif" := AVIF, "webp" := WEBP, "png" := PNG, "jpeg" := JPEG, "jpg" := JPEG,
        "gif" := GIF, "svg" := SVG])

  lemma ImageDbRoundTrips(t: string)
    requires t in {AVIF, WEBP, PNG, JPEG, GIF, SVG}
    ensures RoundTrips(ImageDb, t)
  {
  }

  /** A type the database round-trips is recovered from the extension text written for it. */
  lemma ContentTypeOfExtensionText(db: MimeDb, t: string)
    requires RoundTrips(db, t)
    ensures GetContentType(db, ExtensionText(db, t)) == t
    ensures '.' !in ExtensionText(db, t)
  {
  }
}
