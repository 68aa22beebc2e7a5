/**
  The client-side loaders of the image component: each turns a source path, a width and a
  quality into the URL of an image of that width. The default loader targets the optimiser
  endpoint; the Cloudinary and Akamai loaders target those services' URL schemes.

  Numbers that may be `undefined` (or NaN) are `Option<int>`; the templates print them as
  JavaScript does.
*/
module Loaders {
  import opened Wrappers
  import opened JsText

  /** `${x}` for a width that is `undefined` (`None`) when no width was chosen. */
  function WidthText(width: Option<int>): string {
    match width
    case Some(n) => IntToString(n)
    case None => "undefined"
  }

  /** `quality || fallback`: the quality unless it is undefined, NaN (`None`) or 0. */
  function QualityOr(quality: Option<int>, fallback: string): string {
    if quality.Some? && quality.value != 0 then IntToString(quality.value) else fallback
  }

  /** The quality the default loader asks for when none is given. */
  const DEFAULT_QUALITY: int := 75

  /** `quality || 75` as a number. */
  function QualityOrDefault(quality: Option<int>): int {
    if quality.Some? && quality.value != 0 then quality.value else DEFAULT_QUALITY
  }

  // ---------------------------------------------------------------------------------------------
  // normalizeSrc

  /** `normalizeSrc(src)`: the path without its leading `/`. */
  function NormalizeSrc(src: string): (r: string)
    ensures src == r || src == "/" + r
    ensures |r| >= |src| - 1
  {
    if |src| > 0 && src[0] == '/' then src[1..] else src
  }

  /** Exactly one leading `/` is removed; a path without one is left as it is. */
  lemma NormalizeSrcRemovesOneSlash(s: string)
    ensures NormalizeSrc("/" + s) == s
    ensures !StartsWith(s, "/") ==> NormalizeSrc(s) == s
    ensures NormalizeSrc("//" + s) == "/" + s
  {
    assert ("/" + s)[1..] == s;
    assert ("//" + s)[1..] == "/" + s;
  }

  // ---------------------------------------------------------------------------------------------
  // encodeURIComponent

  /** The characters `encodeURIComponent` leaves as they are. */
  predicate Unreserved(c: char) {
    ('A' <= c <= 'Z') || ('a' <= c <= 'z') || IsDigit(c) ||
    c == '-' || c == '_' || c == '.' || c == '!' || c == '~' || c == '*' || c == '\'' || c == '(' || c == ')'
  }

  /** An upper-case hexadecimal digit. */
  function HexChar(d: nat): (c: char)
    requires d < 16
    ensures IsHexDigit(c) && HexValue(c) == d
  {
    if d < 10 then DigitChar(d) else ((d - 10 + 'A' as int) as char)
  }

  /** The characters an encoded component is made of. */
  predicate EncodedText(t: string) {
    forall i :: 0 <= i < |t| ==> Unreserved(t[i]) || t[i] == '%' || IsHexDigit(t[i])
  }

  /** `%XX` for one byte. */
  function PercentByte(b: byte): string {
    ['%', HexChar(b / 16), HexChar(b % 16)]
  }

  /** The escapes of a run of bytes. */
  function PercentBytes(bytes: seq<byte>): (r: string)
    ensures EncodedText(r)
  {
    if bytes == [] then "" else PercentByte(bytes[0]) + PercentBytes(bytes[1..])
  }

  /** One character as `encodeURIComponent` writes it: itself, or its UTF-8 bytes escaped. */
  function EncodeChar(c: char): (r: string)
    ensures EncodedText(r)
  {
    if Unreserved(c) then [c] else PercentBytes(Utf8Char(c))
  }

  /**
    `encodeURIComponent(s)`. Dafny strings hold Unicode scalar values, so the lone surrogates
    for which JavaScript throws do not arise.
  */
  function EncodeUriComponent(s: string): (r: string)
    ensures EncodedText(r)
  {
    if s == [] then "" else EncodeChar(s[0]) + EncodeUriComponent(s[1..])
  }

  /**
    Percent-decoding to bytes, as `decodeURIComponent` does before it reads UTF-8: an escape
    gives its byte, an ASCII character gives its own code; anything else is malformed.
  */
  function PercentDecode(t: string): Option<seq<byte>> {
    if t == [] then Some([])
    else if t[0] == '%' then
      if |t| >= 3 && IsHexDigit(t[1]) && IsHexDigit(t[2]) then
        match PercentDecode(t[3..])
        case None => None
        case Some(rest) => Some([HexValue(t[1]) * 16 + HexValue(t[2])] + rest)
      else None
    else if (t[0] as int) < 0x80 then
      match PercentDecode(t[1..])
      case None => None
      case Some(rest) => Some([t[0] as int] + rest)
    else None
  }

  /** One escape decodes to its byte. */
  lemma DecodeOneEscape(b: byte, rest: string)
    requires PercentDecode(rest).Some?
    ensures PercentDecode(PercentByte(b) + rest) == Some([b] + PercentDecode(rest).value)
  {
    var t := PercentByte(b) + rest;
    assert t[0] == '%' && t[1] == HexChar(b / 16) && t[2] == HexChar(b % 16);
    assert t[3..] == rest;
  }

  lemma {:induction false} PercentBytesDecode(bytes: seq<byte>, tail: string)
    requires PercentDecode(tail).Some?
    ensures PercentDecode(PercentBytes(bytes) + tail) == Some(bytes + PercentDecode(tail).value)
  {
    var d := PercentDecode(tail).value;
    if bytes == [] {
      assert PercentBytes(bytes) + tail == tail;
      assert bytes + d == d;
    } else {
      var rest := PercentBytes(bytes[1..]) + tail;
      PercentBytesDecode(bytes[1..], tail);
      DecodeOneEscape(bytes[0], rest);
      assert PercentBytes(bytes) + tail == PercentByte(bytes[0]) + rest;
      assert [bytes[0]] + (bytes[1..] + d) == bytes + d;
    }
  }

  /**
    Decoding the escapes of `encodeURIComponent(s)` gives back exactly the UTF-8 bytes of `s`:
    the encoding loses nothing.
  */
  lemma {:induction false} EncodeUriComponentDecodes(s: string)
    ensures PercentDecode(EncodeUriComponent(s)) == Some(Utf8(s))
  {
    if s != [] {
      EncodeUriComponentDecodes(s[1..]);
      var c := s[0];
      var rest := EncodeUriComponent(s[1..]);
      if Unreserved(c) {
        assert (c as int) < 0x80;
        var t := [c] + rest;
        assert t[1..] == rest;
        assert Utf8Char(c) == [c as int];
      } else {
        PercentBytesDecode(Utf8Char(c), rest);
      }
    }
  }

  /** Different paths are encoded differently. */
  lemma EncodeUriComponentInjective(a: string, b: string)
    requires EncodeUriComponent(a) == EncodeUriComponent(b)
    ensures a == b
  {
    EncodeUriComponentDecodes(a);
    EncodeUriComponentDecodes(b);
    Utf8Injective(a, b);
  }

  /** A path made of unreserved characters is not changed by the encoding. */
  lemma {:induction false} EncodeUnreservedIsIdentity(s: string)
    requires forall i :: 0 <= i < |s| ==> Unreserved(s[i])
    ensures EncodeUriComponent(s) == s
  {
    if s != [] {
      EncodeUnreservedIsIdentity(s[1..]);
      assert s == [s[0]] + s[1..];
    }
  }

  // ---------------------------------------------------------------------------------------------
  // The loaders

  /** The three parameters of the default loader's query string. */
  function DefaultParams(src: string, width: Option<int>, quality: Option<int>): seq<string> {
    ["url=" + EncodeUriComponent(src), "w=" + WidthText(width), "q=" + IntToString(QualityOrDefault(quality))]
  }

  /** `defaultLoader({ root, src, width, quality })`: the optimiser URL, quality 75 when unset. */
  function DefaultLoader(root: string, src: string, width: Option<int>, quality: Option<int>): string {
    root + "?" + Join(DefaultParams(src, width, quality), "&")
  }

  /** The four comma-separated directives of a Cloudinary URL. */
  function CloudinaryDirectives(width: Option<int>, quality: Option<int>): seq<string> {
    ["f_auto", "c_limit", "w_" + WidthText(width), "q_" + QualityOr(quality, "auto")]
  }

  /**
    `cloudinaryLoader`: the transformation `f_auto,c_limit,w_<width>,q_<quality or auto>/`
    between the root and the path without its leading `/`.
  */
  function CloudinaryLoader(root: string, src: string, width: Option<int>, quality: Option<int>): string {
    root + Join(CloudinaryDirectives(width, quality), ",") + "/" + NormalizeSrc(src)
  }

  /** `akamaiLoader`: the path without its leading `/`, then `?imwidth=<width>`. */
  function AkamaiLoader(root: string, src: string, width: Option<int>): string {
    root + NormalizeSrc(src) + "?imwidth=" + WidthText(width)
  }

  // ---------------------------------------------------------------------------------------------
  // Reading the URLs back

  lemma NumberTextsHaveNoSeparator(width: int, quality: Option<int>, fallback: string, c: char)
    requires !IsDigit(c) && c != '-' && c !in fallback
    ensures c !in IntToString(width) && c !in QualityOr(quality, fallback)
  {
    IntToStringNoSeparators(width, c);
    if quality.Some? && quality.value != 0 {
      IntToStringNoSeparators(quality.value, c);
    }
  }

  lemma JoinThree(a: string, b: string, c: string, sep: string)
    ensures Join([a, b, c], sep) == a + sep + b + sep + c
  {
    assert [a, b, c][1..] == [b, c];
    assert [b, c][1..] == [c];
    assert Join([b, c], sep) == b + sep + c;
    assert Join([a, b, c], sep) == a + sep + (b + sep + c);
  }

  /** An encoded component holds none of the characters that delimit a URL's query. */
  lemma EncodedComponentIsPlain(src: string)
    ensures var enc := EncodeUriComponent(src);
      '&' !in enc && '=' !in enc && '?' !in enc && '#' !in enc && '/' !in enc
  {
    var enc := EncodeUriComponent(src);
    EncodedTextExcludes(enc, '&');
    EncodedTextExcludes(enc, '=');
    EncodedTextExcludes(enc, '?');
    EncodedTextExcludes(enc, '#');
    EncodedTextExcludes(enc, '/');
  }

  /** A character that is neither unreserved, `%` nor a hexadecimal digit never appears in encoded text. */
  lemma EncodedTextExcludes(t: string, c: char)
    requires EncodedText(t) && !Unreserved(c) && c != '%' && !IsHexDigit(c)
    ensures c !in t
  {
  }

  /** The query of the default loader splits at `&` into its three parameters and holds no `?`. */
  lemma DefaultParamsSplit(src: string, width: int, quality: Option<int>)
    ensures var params := DefaultParams(src, Some(width), quality);
      Split(Join(params, "&"), '&') == params && '?' !in Join(params, "&")
  {
    var params := DefaultParams(src, Some(width), quality);
    EncodedComponentIsPlain(src);
    IntToStringNoSeparators(width, '&');
    IntToStringNoSeparators(width, '?');
    IntToStringNoSeparators(QualityOrDefault(quality), '&');
    IntToStringNoSeparators(QualityOrDefault(quality), '?');
    assert forall i :: 0 <= i < 3 ==> '&' !in params[i] && '?' !in params[i];
    SplitJoin(params, '&');
    JoinThree(params[0], params[1], params[2], "&");
    assert params == [params[0], params[1], params[2]];
  }

  /**
    The default loader's URL (for a root without `?`) splits at `?` into the root and the query,
    and the query splits at `&` into exactly the `url`, `w` and `q` parameters. The width and
    quality texts read back with `parseInt`, the quality as 75 when it is unset.
  */
  lemma DefaultLoaderQuery(root: string, src: string, width: int, quality: Option<int>)
    requires '?' !in root
    ensures var params := DefaultParams(src, Some(width), quality);
      && Split(DefaultLoader(root, src, Some(width), quality), '?') == [root, Join(params, "&")]
      && Split(Join(params, "&"), '&') == params
      && ParseInt(params[1][2..], false) == Some(width)
      && ParseInt(params[2][2..], false) == Some(QualityOrDefault(quality))
  {
    var params := DefaultParams(src, Some(width), quality);
    var query := Join(params, "&");
    DefaultParamsSplit(src, width, quality);
    SplitNoSeparator(root, '?');
    SplitNoSeparator(query, '?');
    SplitConcat(root, '?', query);
    ParseIntOfIntToString(width);
    assert params[1][2..] == IntToString(width);
    ParseIntOfIntToString(QualityOrDefault(quality));
    assert params[2][2..] == IntToString(QualityOrDefault(quality));
  }

  /**
    The Cloudinary URL is the root, then the four directives joined by commas, a `/`, and the
    path without its leading `/`; the directives split back at the commas, and the width
    directive reads back with `parseInt`.
  */
  lemma CloudinaryLoaderParts(width: int, quality: Option<int>)
    ensures var directives := CloudinaryDirectives(Some(width), quality);
      && Split(Join(directives, ","), ',') == directives
      && ParseInt(directives[2][2..], false) == Some(width)
  {
    var directives := CloudinaryDirectives(Some(width), quality);
    NumberTextsHaveNoSeparator(width, quality, "auto", ',');
    assert forall i :: 0 <= i < 4 ==> ',' !in directives[i];
    SplitJoin(directives, ',');
    ParseIntOfIntToString(width);
    assert directives[2][2..] == IntToString(width);
  }

  /**
    The Akamai URL (for a root and a path without `?`) carries one query parameter, `imwidth`,
    whose value reads back as the width.
  */
  lemma AkamaiLoaderQuery(root: string, src: string, width: int)
    requires '?' !in root && '?' !in src
    ensures Split(AkamaiLoader(root, src, Some(width)), '?') == [root + NormalizeSrc(src), "imwidth=" + IntToString(width)]
    ensures ParseInt(("imwidth=" + IntToString(width))[8..], false) == Some(width)
  {
    var path := root + NormalizeSrc(src);
    PathWithoutQuery(root, src);
    NamedNumber("imwidth=", width);
    OneQuery(path, "imwidth=" + IntToString(width));
    AkamaiShape(root, src, width);
  }

  lemma PathWithoutQuery(root: string, src: string)
    requires '?' !in root && '?' !in src
    ensures '?' !in root + NormalizeSrc(src)
  {
  }

  lemma AkamaiShape(root: string, src: string, width: int)
    ensures AkamaiLoader(root, src, Some(width)) ==
      (root + NormalizeSrc(src)) + ['?'] + ("imwidth=" + IntToString(width))
  {
    var path := root + NormalizeSrc(src);
    var digits := IntToString(width);
    assert AkamaiLoader(root, src, Some(width)) == path + "?imwidth=" + digits;
    QueryPrefix(path, "imwidth=", digits);
  }

  /** `path + "?" + name + value`, read as the path, the separator and the parameter. */
  lemma QueryPrefix(path: string, name: string, value: string)
    ensures path + (['?'] + name) + value == path + ['?'] + (name + value)
  {
  }

  /** A URL with one `?` splits there into the path and the query. */
  lemma OneQuery(path: string, query: string)
    requires '?' !in path && '?' !in query
    ensures Split(path + ['?'] + query, '?') == [path, query]
  {
    SplitNoSeparator(path, '?');
    SplitNoSeparator(query, '?');
    SplitConcat(path, '?', query);
  }

  /** `name` followed by the digits of `n` holds no `?` when `name` holds none, and its digits read back as `n`. */
  lemma NamedNumber(name: string, n: int)
    requires '?' !in name
    ensures '?' !in name + IntToString(n)
    ensures ParseInt((name + IntToString(n))[|name|..], false) == Some(n)
  {
    IntToStringNoSeparators(n, '?');
    assert (name + IntToString(n))[|name|..] == IntToString(n);
    ParseIntOfIntToString(n);
  }
}
