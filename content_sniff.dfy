/**
  `detectContentType`: the magic-number sniffer of the image optimiser's helper module. Each
  signature is compared with the start of the buffer; a zero byte in the WEBP and AVIF signatures
  is a wildcard, and a signature byte past the end of the buffer never matches (JavaScript reads
  `undefined` there).
*/
module ContentSniff {
  import opened Wrappers
  import opened JsText
  import opened Mime

  const JPEG_SIGNATURE: seq<byte> := [0xff, 0xd8, 0xff]
  const PNG_SIGNATURE: seq<byte> := [0x89, 0x50, 0x4e, 0x47, 0x0d, 0x0a, 0x1a, 0x0a]
  const GIF_SIGNATURE: seq<byte> := [0x47, 0x49, 0x46, 0x38]
  const WEBP_SIGNATURE: seq<byte> := [0x52, 0x49, 0x46, 0x46, 0, 0, 0, 0, 0x57, 0x45, 0x42, 0x50]
  const SVG_SIGNATURE: seq<byte> := [0x3c, 0x3f, 0x78, 0x6d, 0x6c]
  const AVIF_SIGNATURE: seq<byte> := [0, 0, 0, 0, 0x66, 0x74, 0x79, 0x70, 0x61, 0x76, 0x69, 0x66]

  /** `sig.every((b, i) => buffer[i] === b)`. */
  predicate MatchesExactly(sig: seq<byte>, buffer: seq<byte>) {
    forall i :: 0 <= i < |sig| ==> i < |buffer| && buffer[i] == sig[i]
  }

  /** `sig.every((b, i) => !b || buffer[i] === b)`: zero bytes of the signature match anything. */
  predicate MatchesWithWildcards(sig: seq<byte>, buffer: seq<byte>) {
    forall i :: 0 <= i < |sig| ==> sig[i] == 0 || (i < |buffer| && buffer[i] == sig[i])
  }

  /** The sniffed type of the buffer: the first signature that matches, or `None` for `null`. */
  function DetectContentType(buffer: seq<byte>): (r: Option<string>)
    ensures r.Some? ==> r.value in {JPEG, PNG, GIF, WEBP, SVG, AVIF}
    ensures r.Some? ==> StartsWith(r.value, "image/")
  {
    if MatchesExactly(JPEG_SIGNATURE, buffer) then Some(JPEG)
    else if MatchesExactly(PNG_SIGNATURE, buffer) then Some(PNG)
    else if MatchesExactly(GIF_SIGNATURE, buffer) then Some(GIF)
    else if MatchesWithWildcards(WEBP_SIGNATURE, buffer) then Some(WEBP)
    else if MatchesExactly(SVG_SIGNATURE, buffer) then Some(SVG)
    else if MatchesWithWildcards(AVIF_SIGNATURE, buffer) then Some(AVIF)
    else None
  }

  /** The signatures are tried in the order JPEG, PNG, GIF, WEBP, SVG, AVIF and the first match wins. */
  lemma DetectIsFirstMatch(buffer: seq<byte>)
    ensures DetectContentType(buffer) == Some(JPEG) <==> MatchesExactly(JPEG_SIGNATURE, buffer)
    ensures DetectContentType(buffer) == Some(PNG) <==>
      !MatchesExactly(JPEG_SIGNATURE, buffer) && MatchesExactly(PNG_SIGNATURE, buffer)
    ensures DetectContentType(buffer) == Some(GIF) <==>
      !MatchesExactly(JPEG_SIGNATURE, buffer) && !MatchesExactly(PNG_SIGNATURE, buffer) &&
      MatchesExactly(GIF_SIGNATURE, buffer)
    ensures DetectContentType(buffer) == Some(WEBP) <==>
      !MatchesExactly(JPEG_SIGNATURE, buffer) && !MatchesExactly(PNG_SIGNATURE, buffer) &&
      !MatchesExactly(GIF_SIGNATURE, buffer) && MatchesWithWildcards(WEBP_SIGNATURE, buffer)
    ensures DetectContentType(buffer) == Some(SVG) <==>
      !MatchesExactly(JPEG_SIGNATURE, buffer) && !MatchesExactly(PNG_SIGNATURE, buffer) &&
      !MatchesExactly(GIF_SIGNATURE, buffer) && !MatchesWithWildcards(WEBP_SIGNATURE, buffer) &&
      MatchesExactly(SVG_SIGNATURE, buffer)
    ensures DetectContentType(buffer) == Some(AVIF) <==>
      !MatchesExactly(JPEG_SIGNATURE, buffer) && !MatchesExactly(PNG_SIGNATURE, buffer) &&
      !MatchesExactly(GIF_SIGNATURE, buffer) && !MatchesWithWildcards(WEBP_SIGNATURE, buffer) &&
      !MatchesExactly(SVG_SIGNATURE, buffer) && MatchesWithWildcards(AVIF_SIGNATURE, buffer)
    ensures DetectContentType(buffer) == None <==>
      !MatchesExactly(JPEG_SIGNATURE, buffer) && !MatchesExactly(PNG_SIGNATURE, buffer) &&
      !MatchesExactly(GIF_SIGNATURE, buffer) && !MatchesWithWildcards(WEBP_SIGNATURE, buffer) &&
      !MatchesExactly(SVG_SIGNATURE, buffer) && !MatchesWithWildcards(AVIF_SIGNATURE, buffer)
  {
    assert JPEG != PNG && JPEG != GIF && JPEG != WEBP && JPEG != SVG && JPEG != AVIF;
    assert PNG != GIF && PNG != WEBP && PNG != SVG && PNG != AVIF;
    assert GIF != WEBP && GIF != SVG && GIF != AVIF;
    assert WEBP != SVG && WEBP != AVIF && SVG != AVIF;
  }

  /** Any buffer that starts FF D8 FF is JPEG, whatever follows. */
  lemma JpegPrefixIsJpeg(buffer: seq<byte>)
    requires |buffer| >= 3 && buffer[0] == 0xff && buffer[1] == 0xd8 && buffer[2] == 0xff
    ensures DetectContentType(buffer) == Some(JPEG)
  {
  }

  /** Every signature needs a non-wildcard byte at index 2 or later, so a buffer of fewer than three bytes is never recognised. */
  lemma ShortBufferIsUnknown(buffer: seq<byte>)
    requires |buffer| < 3
    ensures DetectContentType(buffer) == None
  {
    assert !MatchesExactly(JPEG_SIGNATURE, buffer) by { assert JPEG_SIGNATURE[2] != 0; }
    assert !MatchesExactly(PNG_SIGNATURE, buffer) by { assert PNG_SIGNATURE[2] != 0; }
    assert !MatchesExactly(GIF_SIGNATURE, buffer) by { assert GIF_SIGNATURE[2] != 0; }
    assert !MatchesWithWildcards(WEBP_SIGNATURE, buffer) by { assert WEBP_SIGNATURE[2] != 0; }
    assert !MatchesExactly(SVG_SIGNATURE, buffer) by { assert SVG_SIGNATURE[2] != 0; }
    assert !MatchesWithWildcards(AVIF_SIGNATURE, buffer) by { assert AVIF_SIGNATURE[4] != 0; }
  }

  /** The WEBP test accepts `RIFF`, any four size bytes, then `WEBP`. */
  lemma WebpSizeBytesAreWildcards(size: seq<byte>, rest: seq<byte>)
    requires |size| == 4
    ensures var buffer := [0x52, 0x49, 0x46, 0x46] + size + [0x57, 0x45, 0x42, 0x50] + rest;
      DetectContentType(buffer) == Some(WEBP)
  {
    var buffer := [0x52, 0x49, 0x46, 0x46] + size + [0x57, 0x45, 0x42, 0x50] + rest;
    assert buffer[0] == 0x52 && buffer[8] == 0x57;
    assert MatchesWithWildcards(WEBP_SIGNATURE, buffer);
  }

  /**
    The AVIF test accepts any four size bytes followed by `ftypavif`, unless those size bytes
    already begin a JPEG or GIF signature (the other signatures disagree with `ftypavif`).
  */
  lemma AvifSizeBytesAreWildcards(size: seq<byte>, rest: seq<byte>)
    requires |size| == 4
    requires !(size[0] == 0xff && size[1] == 0xd8 && size[2] == 0xff)
    requires size != [0x47, 0x49, 0x46, 0x38]
    ensures var buffer := size + [0x66, 0x74, 0x79, 0x70, 0x61, 0x76, 0x69, 0x66] + rest;
      DetectContentType(buffer) == Some(AVIF)
  {
    var buffer := size + [0x66, 0x74, 0x79, 0x70, 0x61, 0x76, 0x69, 0x66] + rest;
    assert buffer[..4] == size;
    assert buffer[4] == 0x66 && buffer[8] == 0x61;
    assert !MatchesExactly(JPEG_SIGNATURE, buffer) by {
      assert buffer[0] == size[0] && buffer[1] == size[1] && buffer[2] == size[2];
    }
    assert !MatchesExactly(PNG_SIGNATURE, buffer) by { assert PNG_SIGNATURE[4] != buffer[4]; }
    assert !MatchesExactly(GIF_SIGNATURE, buffer) by {
      var k :| 0 <= k < 4 && size[k] != GIF_SIGNATURE[k];
      assert buffer[k] == size[k];
    }
    assert !MatchesWithWildcards(WEBP_SIGNATURE, buffer) by { assert WEBP_SIGNATURE[8] != buffer[8]; }
    assert !MatchesExactly(SVG_SIGNATURE, buffer) by { assert SVG_SIGNATURE[4] != buffer[4]; }
    assert MatchesWithWildcards(AVIF_SIGNATURE, buffer);
  }

  /** An AVIF box whose size field happens to start FF D8 FF is sniffed as JPEG: the first match wins. */
  lemma AvifWithJpegLikeSizeIsJpeg()
    ensures DetectContentType([0xff, 0xd8, 0xff, 0x00, 0x66, 0x74, 0x79, 0x70, 0x61, 0x76, 0x69, 0x66])
      == Some(JPEG)
  {
  }

  /** Each format's signature, followed by anything, is recognised as that format. */
  lemma SignaturesAreRecognised(rest: seq<byte>)
    ensures DetectContentType(JPEG_SIGNATURE + rest) == Some(JPEG)
    ensures DetectContentType(PNG_SIGNATURE + rest) == Some(PNG)
    ensures DetectContentType(GIF_SIGNATURE + rest) == Some(GIF)
    ensures DetectContentType(SVG_SIGNATURE + rest) == Some(SVG)
  {
    var png := PNG_SIGNATURE + rest;
    assert png[0] == 0x89 && !MatchesExactly(JPEG_SIGNATURE, png);
    assert MatchesExactly(PNG_SIGNATURE, png);
    var gif := GIF_SIGNATURE + rest;
    assert gif[0] == 0x47 && !MatchesExactly(JPEG_SIGNATURE, gif) && !MatchesExactly(PNG_SIGNATURE, gif);
    assert MatchesExactly(GIF_SIGNATURE, gif);
    var svg := SVG_SIGNATURE + rest;
    assert svg[0] == 0x3c;
    assert !MatchesExactly(JPEG_SIGNATURE, svg) && !MatchesExactly(PNG_SIGNATURE, svg);
    assert !MatchesExactly(GIF_SIGNATURE, svg) && !MatchesWithWildcards(WEBP_SIGNATURE, svg);
    assert MatchesExactly(SVG_SIGNATURE, svg);
  }
}
