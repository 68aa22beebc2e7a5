/**
  What the optimiser does with the upstream image: pass it through untouched, refuse it, or
  re-encode it to a chosen type; and the codec instructions for the re-encoding, for the sharp
  codec of the production server and the squoosh codec of the dev server.
*/
module Transform {
  import opened Wrappers
  import opened JsText
  import Mime

  /** The three outcomes of the type decision. */
  datatype Decision = PassThrough | NotAnImage | Optimize(contentType: string)

  /** `ANIMATABLE_TYPES.includes(upstreamType)`. */
  predicate IsAnimatable(upstreamType: string) {
    upstreamType in Mime.ANIMATABLE_TYPES
  }

  /**
    The output type when the image is re-encoded: the negotiated type, else the upstream type
    when it is an image type with a known extension, else JPEG.
  */
  function OutputType(upstreamType: string, mimeType: string, db: Mime.MimeDb): (t: string)
    ensures t != ""
    ensures t == mimeType || (mimeType == "" && t in {upstreamType, Mime.JPEG})
  {
    if mimeType != "" then mimeType
    else if StartsWith(upstreamType, "image/") && Mime.GetExtension(db, upstreamType).Some?
         && Mime.GetExtension(db, upstreamType).value != "" then upstreamType
    else Mime.JPEG
  }

  /**
    The decision of `imageOptimizer` for an upstream type (`""` when neither sniffed nor
    declared): vector images and animated images are passed through, a declared type outside
    `image/` is refused, anything else is re-encoded. `animated` is `isAnimated(upstreamBuffer)`.
  */
  function Decide(upstreamType: string, mimeType: string, animated: bool, db: Mime.MimeDb): (d: Decision)
    ensures d.PassThrough? ==> upstreamType == Mime.SVG || (IsAnimatable(upstreamType) && animated)
    ensures d.NotAnImage? ==> upstreamType != "" && !StartsWith(upstreamType, "image/")
    ensures d.Optimize? ==> d.contentType != "" && !(IsAnimatable(upstreamType) && animated)
  {
    if upstreamType != "" && (upstreamType in Mime.VECTOR_TYPES || (IsAnimatable(upstreamType) && animated)) then
      PassThrough
    else if upstreamType != "" && !StartsWith(upstreamType, "image/") then NotAnImage
    else Optimize(OutputType(upstreamType, mimeType, db))
  }

  // ---------------------------------------------------------------------------------------------
  // Codec instructions

  /**
    One codec instruction: turn the image upright from its EXIF orientation, rotate it by
    quarter turns, resize it to a width (keeping its aspect), or encode it in a format at a
    quality.
  */
  datatype Op = AutoRotate | Rotate(quarterTurns: nat) | Resize(width: int) | Encode(format: string, quality: int)

  /**
    The sharp pipeline: auto-rotate, shrink when the image is wider than asked, then encode.
    AVIF is encoded 15 quality points lower (not below 0), or as WebP when the installed sharp
    has no AVIF support; a type that is none of the four keeps the input format.
  */
  function SharpPlan(contentType: string, width: int, quality: int, metaWidth: Option<int>, avifSupported: bool)
    : (plan: seq<Op>)
    ensures 1 <= |plan| <= 3 && plan[0] == AutoRotate
    ensures forall i :: 1 <= i < |plan| ==> plan[i].Resize? || plan[i].Encode?
  {
    var resize := if metaWidth.Some? && metaWidth.value != 0 && metaWidth.value > width then [Resize(width)] else [];
    var encode :=
      if contentType == Mime.AVIF then
        (if avifSupported then [Encode("avif", if quality - 15 > 0 then quality - 15 else 0)]
         else [Encode("webp", quality)])
      else if contentType == Mime.WEBP then [Encode("webp", quality)]
      else if contentType == Mime.PNG then [Encode("png", quality)]
      else if contentType == Mime.JPEG then [Encode("jpeg", quality)]
      else [];
    [AutoRotate] + resize + encode
  }

  /** The EXIF orientations `getOrientation` reports. */
  datatype Orientation =
    | TopLeft | TopRight | BottomRight | BottomLeft | LeftTop | RightTop | RightBottom | LeftBottom

  /** The quarter turns the dev server applies: only three orientations are corrected. */
  function Rotations(orientation: Orientation): (ops: seq<Op>)
    ensures |ops| <= 1
    ensures forall i :: 0 <= i < |ops| ==> ops[i].Rotate? && 1 <= ops[i].quarterTurns <= 3
  {
    match orientation
    case RightTop => [Rotate(1)]
    case BottomRight => [Rotate(2)]
    case LeftBottom => [Rotate(3)]
    case _ => []
  }

  /** The squoosh format for a content type; `None` leaves the optimised buffer undefined. */
  function SquooshFormat(contentType: string): Option<string> {
    if contentType == Mime.AVIF then Some("avif")
    else if contentType == Mime.WEBP then Some("webp")
    else if contentType == Mime.PNG then Some("png")
    else if contentType == Mime.JPEG then Some("jpeg")
    else None
  }

  /**
    The squoosh pipeline: the rotation, then a resize to the requested width in every case, then
    `processBuffer` in the format of the type. `None` is the case that throws and falls back to
    the original bytes.
  */
  function SquooshPlan(contentType: string, width: int, quality: int, orientation: Orientation): Option<seq<Op>> {
    match SquooshFormat(contentType)
    case None => None
    case Some(format) => Some(Rotations(orientation) + [Resize(width)] + [Encode(format, quality)])
  }

  // ---------------------------------------------------------------------------------------------
  // Properties of the decision

  /** Vector images are always passed through, whatever was negotiated. */
  lemma VectorIsPassedThrough(mimeType: string, animated: bool, db: Mime.MimeDb)
    ensures Decide(Mime.SVG, mimeType, animated, db) == PassThrough
  {
  }

  /**
    An animatable type is passed through exactly when the image is animated; a still WebP, PNG
    or GIF is re-encoded.
  */
  lemma AnimatedIsPassedThrough(upstreamType: string, mimeType: string, animated: bool, db: Mime.MimeDb)
    requires IsAnimatable(upstreamType)
    ensures Decide(upstreamType, mimeType, animated, db) == PassThrough <==> animated
  {
  }

  /** A declared type outside `image/` that is neither vector nor animatable is refused. */
  lemma NonImageIsRefused(upstreamType: string, mimeType: string, animated: bool, db: Mime.MimeDb)
    requires upstreamType != "" && !StartsWith(upstreamType, "image/")
    ensures Decide(upstreamType, mimeType, animated, db) == NotAnImage
  {
    assert upstreamType !in Mime.VECTOR_TYPES && !IsAnimatable(upstreamType) by {
      if upstreamType in Mime.VECTOR_TYPES || IsAnimatable(upstreamType) {
        assert StartsWith(upstreamType, "image/");
      }
    }
  }

  /**
    Re-encoding targets the negotiated type when there is one; otherwise the upstream type if it
    is an image type with a known extension; otherwise JPEG. The result is never empty.
  */
  lemma OutputTypePriority(upstreamType: string, mimeType: string, db: Mime.MimeDb)
    ensures mimeType != "" ==> OutputType(upstreamType, mimeType, db) == mimeType
    ensures mimeType == "" ==> OutputType(upstreamType, mimeType, db) in {upstreamType, Mime.JPEG}
    ensures (mimeType == "" && db == Mime.ImageDb &&
             upstreamType in {Mime.AVIF, Mime.WEBP, Mime.PNG, Mime.JPEG, Mime.GIF, Mime.SVG}) ==>
      OutputType(upstreamType, mimeType, db) == upstreamType
    ensures mimeType == "" && Mime.GetExtension(db, upstreamType).None? ==> OutputType(upstreamType, mimeType, db) == Mime.JPEG
    ensures OutputType(upstreamType, mimeType, db) != ""
  {
  }

  /** With no type at all (nothing sniffed or declared), the image is still re-encoded. */
  lemma UnknownTypeIsOptimized(mimeType: string, animated: bool, db: Mime.MimeDb)
    ensures Decide("", mimeType, animated, db) == Optimize(if mimeType != "" then mimeType else Mime.JPEG)
  {
    assert !StartsWith("", "image/");
  }

  // ---------------------------------------------------------------------------------------------
  // Properties of the codec plans

  /**
    The sharp plan always starts by turning the image upright, resizes only images wider than
    the requested width, and ends with at most one encode step, at a quality in [0, q].
  */
  lemma SharpPlanShape(contentType: string, width: int, quality: int, metaWidth: Option<int>, avifSupported: bool)
    requires 1 <= quality <= 100
    ensures var plan := SharpPlan(contentType, width, quality, metaWidth, avifSupported);
      && plan[0] == AutoRotate
      && (Resize(width) in plan <==> metaWidth.Some? && metaWidth.value > width && metaWidth.value != 0)
      && (forall i :: 0 <= i < |plan| && plan[i].Encode? ==> i == |plan| - 1 && 0 <= plan[i].quality <= quality)
      && (plan[|plan| - 1].Encode? <==> contentType in [Mime.AVIF, Mime.WEBP, Mime.PNG, Mime.JPEG])
  {
  }

  /** AVIF asks for 15 quality points less, clamped at 0, and falls back to WebP without AVIF support. */
  lemma SharpAvifQuality(width: int, quality: int, metaWidth: Option<int>, avifSupported: bool)
    ensures var plan := SharpPlan(Mime.AVIF, width, quality, metaWidth, avifSupported);
      plan[|plan| - 1] ==
        if avifSupported then Encode("avif", if quality > 15 then quality - 15 else 0)
        else Encode("webp", quality)
  {
  }

  /**
    The squoosh plan exists exactly for AVIF, WebP, PNG and JPEG, and is: at most one rotation
    (1, 2 or 3 quarter turns for RIGHT_TOP, BOTTOM_RIGHT and LEFT_BOTTOM), then the resize,
    then the encode in the format whose name is the type's file extension.
  */
  lemma SquooshPlanShape(contentType: string, width: int, quality: int, orientation: Orientation)
    ensures SquooshPlan(contentType, width, quality, orientation).Some? <==>
      contentType in [Mime.AVIF, Mime.WEBP, Mime.PNG, Mime.JPEG]
    ensures SquooshPlan(contentType, width, quality, orientation).Some? ==>
      var plan := SquooshPlan(contentType, width, quality, orientation).value;
      && |plan| == |Rotations(orientation)| + 2
      && plan[|plan| - 2] == Resize(width)
      && plan[|plan| - 1] == Encode(Mime.ExtensionText(Mime.ImageDb, contentType), quality)
      && (forall i :: 0 <= i < |plan| - 2 ==> plan[i].Rotate?)
  {
  }

  /** The rotation table: a quarter-turn count for three orientations, nothing for the others. */
  lemma RotationTable(orientation: Orientation)
    ensures |Rotations(orientation)| <= 1
    ensures Rotations(orientation) == [] <==> orientation !in {RightTop, BottomRight, LeftBottom}
    ensures orientation == RightTop ==> Rotations(orientation) == [Rotate(1)]
    ensures orientation == BottomRight ==> Rotations(orientation) == [Rotate(2)]
    ensures orientation == LeftBottom ==> Rotations(orientation) == [Rotate(3)]
  {
  }
}
