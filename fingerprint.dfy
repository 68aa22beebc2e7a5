/**
  `getHash`: the SHA-256 digest of a list of items, printed in Base64 with `/` replaced by `-` so
  that it can name a directory and sit inside a dot-separated file name. It is the cache
  directory of a request (hashing the version, URL, width, quality and negotiated type) and the
  entity tag of a body (hashing the bytes).
*/
module Fingerprint {
  import opened JsText

  /** SHA-256 itself is not modelled: any function from bytes to bytes stands in for it. */
  type Digest = seq<byte> -> seq<byte>

  /** What `hash.update` receives: numbers go through `String`, strings are encoded as UTF-8. */
  datatype HashItem = Num(n: int) | Text(s: string) | Data(bytes: seq<byte>)

  function ItemBytes(item: HashItem): seq<byte> {
    match item
    case Num(n) => Utf8(IntToString(n))
    case Text(s) => Utf8(s)
    case Data(b) => b
  }

  /** All the bytes fed to the hash, in order, with nothing between items. */
  function HashInput(items: seq<HashItem>): seq<byte> {
    if items == [] then [] else HashInput(items[..|items| - 1]) + ItemBytes(items[|items| - 1])
  }

  // ---------------------------------------------------------------------------------------------
  // Base64

  /** The 64 characters of the standard Base64 alphabet. */
  predicate IsBase64Char(c: char) {
    ('A' <= c <= 'Z') || ('a' <= c <= 'z') || ('0' <= c <= '9') || c == '+' || c == '/'
  }

  /** The character for a six-bit value: `A`-`Z`, `a`-`z`, `0`-`9`, `+`, `/`. */
  function Sextet(v: int): (c: char)
    requires 0 <= v < 64
    ensures IsBase64Char(c)
  {
    if v < 26 then ('A' as int + v) as char
    else if v < 52 then ('a' as int + v - 26) as char
    else if v < 62 then ('0' as int + v - 52) as char
    else if v == 62 then '+'
    else '/'
  }

  /** Padded standard Base64 (`digest('base64')`): three bytes become four characters. */
  function Base64(b: seq<byte>): (r: string)
    ensures |r| == (|b| + 2) / 3 * 4
    ensures forall i :: 0 <= i < |r| ==> IsBase64Char(r[i]) || r[i] == '='
  {
    if |b| == 0 then ""
    else if |b| == 1 then [Sextet(b[0] / 4), Sextet(b[0] % 4 * 16), '=', '=']
    else if |b| == 2 then
      [Sextet(b[0] / 4), Sextet(b[0] % 4 * 16 + b[1] / 16), Sextet(b[1] % 16 * 4), '=']
    else
      [Sextet(b[0] / 4), Sextet(b[0] % 4 * 16 + b[1] / 16), Sextet(b[1] % 16 * 4 + b[2] / 64),
       Sextet(b[2] % 64)] + Base64(b[3..])
  }

  /** `.replace(/\//g, '-')`. */
  function FileSafe(s: string): (r: string)
    ensures |r| == |s|
    ensures forall i :: 0 <= i < |s| ==> r[i] == if s[i] == '/' then '-' else s[i]
  {
    if s == [] then "" else [if s[0] == '/' then '-' else s[0]] + FileSafe(s[1..])
  }

  /** The fingerprint of the items: the file-safe Base64 of their digest. */
  function Fingerprint(sha: Digest, items: seq<HashItem>): (f: string)
    ensures |f| == (|sha(HashInput(items))| + 2) / 3 * 4
  {
    FileSafe(Base64(sha(HashInput(items))))
  }

  /** `getHash([buffer])`: the entity tag of a body, and the tag part of its cache file name. */
  function ContentHash(sha: Digest, buffer: seq<byte>): (etag: string)
    ensures '/' !in etag && '.' !in etag
  {
    FingerprintIsFileSafe(sha, [Data(buffer)]);
    Fingerprint(sha, [Data(buffer)])
  }

  /** `getHash(items)`: the items are fed to the hash one after another, then the digest is printed. */
  method GetHash(sha: Digest, items: seq<HashItem>) returns (hash: string)
    ensures hash == Fingerprint(sha, items)
  {
    var fed: seq<byte> := [];
    for i := 0 to |items|
      invariant fed == HashInput(items[..i])
    {
      fed := fed + ItemBytes(items[i]);
      assert items[..i + 1][..i] == items[..i];
    }
    assert items[..|items|] == items;
    hash := FileSafe(Base64(sha(fed)));
  }

  /** A fingerprint is built from letters, digits, `+`, `-` and `=`: never `/` nor `.`. */
  lemma FingerprintIsFileSafe(sha: Digest, items: seq<HashItem>)
    ensures '/' !in Fingerprint(sha, items) && '.' !in Fingerprint(sha, items)
    ensures |Fingerprint(sha, items)| == (|sha(HashInput(items))| + 2) / 3 * 4
  {
    var b := Base64(sha(HashInput(items)));
    var f := Fingerprint(sha, items);
    forall i | 0 <= i < |f| ensures f[i] != '/' && f[i] != '.' {
      assert IsBase64Char(b[i]) || b[i] == '=';
    }
  }

  /** A SHA-256 digest (32 bytes) prints as 44 characters. */
  lemma DigestLength(sha: Digest, items: seq<HashItem>)
    requires |sha(HashInput(items))| == 32
    ensures |Fingerprint(sha, items)| == 44
  {
    FingerprintIsFileSafe(sha, items);
  }

  lemma HashInputSnoc(items: seq<HashItem>, item: HashItem)
    ensures HashInput(items + [item]) == HashInput(items) + ItemBytes(item)
  {
    assert (items + [item])[..|items|] == items;
  }

  /** The bytes fed for a list of strings and numbers are the UTF-8 encoding of their concatenated text. */
  lemma {:induction false} HashInputOfText(items: seq<HashItem>)
    requires forall i :: 0 <= i < |items| ==> !items[i].Data?
    ensures HashInput(items) == Utf8(ItemsText(items))
  {
    if items != [] {
      var front := items[..|items| - 1];
      HashInputOfText(front);
      Utf8Concat(ItemsText(front), ItemText(items[|items| - 1]));
    }
  }

  /** The text of a number or string item (raw bytes have none). */
  function ItemText(item: HashItem): string {
    match item
    case Num(n) => IntToString(n)
    case Text(s) => s
    case Data(_) => ""
  }

  function ItemsText(items: seq<HashItem>): string {
    if items == [] then "" else ItemsText(items[..|items| - 1]) + ItemText(items[|items| - 1])
  }

  // ---------------------------------------------------------------------------------------------
  // The request fingerprint

  /** The items `imageOptimizer` hashes for a request, as the source lists them. */
  function RequestItemsAsWritten(href: string, width: int, quality: int, mimeType: string): seq<HashItem> {
    [Num(CACHE_VERSION), Text(href), Num(width), Num(quality), Text(mimeType)]
  }

  /** Version tag hashed into every request fingerprint. */
  const CACHE_VERSION: int := 3

  /**
    Because nothing separates the items, `url=/p20&w=48` and `url=/p&w=2048` (both widths are in
    the default allow-list) feed the same bytes, so they share one cache directory and one
    in-flight marker, and one can be served the other's image.
  */
  lemma AsWrittenRequestsCollide(mimeType: string)
    ensures RequestItemsAsWritten("/p20", 48, 75, mimeType) != RequestItemsAsWritten("/p", 2048, 75, mimeType)
    ensures HashInput(RequestItemsAsWritten("/p20", 48, 75, mimeType)) ==
            HashInput(RequestItemsAsWritten("/p", 2048, 75, mimeType))
  {
    assert RequestItemsAsWritten("/p20", 48, 75, mimeType)[1] != RequestItemsAsWritten("/p", 2048, 75, mimeType)[1];
    CollidingTexts();
    RunTogetherCollide("/p20", 48, "/p", 2048, 75, mimeType);
  }

  /** Two requests whose version, path and width texts run together the same way feed the same bytes. */
  lemma RunTogetherCollide(href: string, width: int, href': string, width': int, quality: int, mimeType: string)
    requires "3" + href + IntToString(width) == "3" + href' + IntToString(width')
    ensures HashInput(RequestItemsAsWritten(href, width, quality, mimeType)) ==
            HashInput(RequestItemsAsWritten(href', width', quality, mimeType))
  {
    AsWrittenText(href, width, quality, mimeType);
    AsWrittenText(href', width', quality, mimeType);
  }

  /** The text hashed as written: the items' texts run together. */
  lemma AsWrittenText(href: string, width: int, quality: int, mimeType: string)
    ensures HashInput(RequestItemsAsWritten(href, width, quality, mimeType)) ==
            Utf8("3" + href + IntToString(width) + IntToString(quality) + mimeType)
  {
    var x := RequestItemsAsWritten(href, width, quality, mimeType);
    HashInputOfText(x);
    FiveTexts(x[0], x[1], x[2], x[3], x[4]);
    assert IntToString(3) == "3";
  }

  /** The version, path and width texts of the two colliding requests run together the same way. */
  lemma CollidingTexts()
    ensures "3" + "/p20" + IntToString(48) == "3" + "/p" + IntToString(2048)
  {
    assert IntToString(48) == "48" by {
      assert NatToString(4) == "4";
    }
    assert IntToString(2048) == "2048" by {
      assert NatToString(204) == NatToString(20) + "4";
      assert NatToString(20) == "2" + "0";
    }
  }

  /**
    The items hashed for a request with `|` between them: the text is
    `3|href|width|quality|mimeType`.
  */
  function RequestItems(href: string, width: int, quality: int, mimeType: string): seq<HashItem> {
    [Num(CACHE_VERSION), Text("|"), Text(href), Text("|"), Num(width), Text("|"), Num(quality),
     Text("|"), Text(mimeType)]
  }

  function RequestText(href: string, width: int, quality: int, mimeType: string): string {
    "3" + "|" + href + "|" + IntToString(width) + "|" + IntToString(quality) + "|" + mimeType
  }

  lemma RequestItemsText(href: string, width: int, quality: int, mimeType: string)
    ensures HashInput(RequestItems(href, width, quality, mimeType)) ==
            Utf8(RequestText(href, width, quality, mimeType))
  {
    var items := RequestItems(href, width, quality, mimeType);
    HashInputOfText(items);
    assert IntToString(3) == "3";
    NineTexts(items[0], items[1], items[2], items[3], items[4], items[5], items[6], items[7], items[8]);
    assert items == [items[0], items[1], items[2], items[3], items[4], items[5], items[6], items[7], items[8]];
    assert ItemText(items[0]) == "3";
  }

  lemma ItemsTextSnoc(items: seq<HashItem>, item: HashItem)
    ensures ItemsText(items + [item]) == ItemsText(items) + ItemText(item)
  {
    assert (items + [item])[..|items|] == items;
  }

  lemma OneText(a: HashItem)
    ensures ItemsText([a]) == ItemText(a)
  {
    assert [a][..0] == [];
  }

  lemma TwoTexts(a: HashItem, b: HashItem)
    ensures ItemsText([a, b]) == ItemText(a) + ItemText(b)
  {
    OneText(a);
    ItemsTextSnoc([a], b);
    assert [a] + [b] == [a, b];
  }

  lemma ThreeTexts(a: HashItem, b: HashItem, c: HashItem)
    ensures ItemsText([a, b, c]) == ItemText(a) + ItemText(b) + ItemText(c)
  {
    TwoTexts(a, b);
    ItemsTextSnoc([a, b], c);
    assert [a, b] + [c] == [a, b, c];
  }

  lemma FourTexts(a: HashItem, b: HashItem, c: HashItem, d: HashItem)
    ensures ItemsText([a, b, c, d]) == ItemText(a) + ItemText(b) + ItemText(c) + ItemText(d)
  {
    ThreeTexts(a, b, c);
    ItemsTextSnoc([a, b, c], d);
    assert [a, b, c] + [d] == [a, b, c, d];
  }

  lemma FiveTexts(a: HashItem, b: HashItem, c: HashItem, d: HashItem, e: HashItem)
    ensures ItemsText([a, b, c, d, e]) ==
      ItemText(a) + ItemText(b) + ItemText(c) + ItemText(d) + ItemText(e)
  {
    FourTexts(a, b, c, d);
    ItemsTextSnoc([a, b, c, d], e);
    assert [a, b, c, d] + [e] == [a, b, c, d, e];
  }

  lemma SixTexts(a: HashItem, b: HashItem, c: HashItem, d: HashItem, e: HashItem, f: HashItem)
    ensures ItemsText([a, b, c, d, e, f]) ==
      ItemText(a) + ItemText(b) + ItemText(c) + ItemText(d) + ItemText(e) + ItemText(f)
  {
    FiveTexts(a, b, c, d, e);
    ItemsTextSnoc([a, b, c, d, e], f);
    assert [a, b, c, d, e] + [f] == [a, b, c, d, e, f];
  }

  lemma SevenTexts(a: HashItem, b: HashItem, c: HashItem, d: HashItem, e: HashItem, f: HashItem,
                   g: HashItem)
    ensures ItemsText([a, b, c, d, e, f, g]) ==
      ItemText(a) + ItemText(b) + ItemText(c) + ItemText(d) + ItemText(e) + ItemText(f) + ItemText(g)
  {
    SixTexts(a, b, c, d, e, f);
    ItemsTextSnoc([a, b, c, d, e, f], g);
    assert [a, b, c, d, e, f] + [g] == [a, b, c, d, e, f, g];
  }

  lemma EightTexts(a: HashItem, b: HashItem, c: HashItem, d: HashItem, e: HashItem, f: HashItem,
                   g: HashItem, h: HashItem)
    ensures ItemsText([a, b, c, d, e, f, g, h]) ==
      ItemText(a) + ItemText(b) + ItemText(c) + ItemText(d) + ItemText(e) + ItemText(f) +
      ItemText(g) + ItemText(h)
  {
    SevenTexts(a, b, c, d, e, f, g);
    ItemsTextSnoc([a, b, c, d, e, f, g], h);
    assert [a, b, c, d, e, f, g] + [h] == [a, b, c, d, e, f, g, h];
  }

  lemma NineTexts(a: HashItem, b: HashItem, c: HashItem, d: HashItem, e: HashItem,
                  f: HashItem, g: HashItem, h: HashItem, k: HashItem)
    ensures ItemsText([a, b, c, d, e, f, g, h, k]) ==
      ItemText(a) + ItemText(b) + ItemText(c) + ItemText(d) + ItemText(e) +
      ItemText(f) + ItemText(g) + ItemText(h) + ItemText(k)
  {
    EightTexts(a, b, c, d, e, f, g, h);
    ItemsTextSnoc([a, b, c, d, e, f, g, h], k);
    assert [a, b, c, d, e, f, g, h] + [k] == [a, b, c, d, e, f, g, h, k];
  }

  lemma NoSeparatorAfter(a: string, b: string, c: char, k: nat)
    requires c !in b && |a| < k < |a| + 1 + |b|
    ensures (a + [c] + b)[k] != c
  {
    assert (a + [c] + b)[k] == b[k - |a| - 1];
  }

  /** Splitting at the last separator: the text after it and before it are both determined. */
  lemma LastSeparator(a: string, b: string, a': string, b': string, c: char)
    requires a + [c] + b == a' + [c] + b'
    requires c !in b && c !in b'
    ensures a == a' && b == b'
  {
    var s := a + [c] + b;
    if |a| < |a'| {
      NoSeparatorAfter(a, b, c, |a'|);
      assert false;
    } else if |a'| < |a| {
      NoSeparatorAfter(a', b', c, |a|);
      assert false;
    }
    assert b == s[|s| - |b|..] == b';
    assert a == s[..|a|] == a';
  }

  /**
    With the separators, different requests always feed different bytes to the hash (as long as
    the negotiated type holds no `|`, which none of the image types does).
  */
  lemma RequestItemsInjective(h1: string, w1: int, q1: int, m1: string,
                              h2: string, w2: int, q2: int, m2: string)
    requires '|' !in m1 && '|' !in m2
    requires HashInput(RequestItems(h1, w1, q1, m1)) == HashInput(RequestItems(h2, w2, q2, m2))
    ensures h1 == h2 && w1 == w2 && q1 == q2 && m1 == m2
  {
    RequestItemsText(h1, w1, q1, m1);
    RequestItemsText(h2, w2, q2, m2);
    Utf8Injective(RequestText(h1, w1, q1, m1), RequestText(h2, w2, q2, m2));
    IntToStringNoSeparators(w1, '|');
    IntToStringNoSeparators(w2, '|');
    IntToStringNoSeparators(q1, '|');
    IntToStringNoSeparators(q2, '|');
    var p1, p2 := "3" + "|" + h1, "3" + "|" + h2;
    var s1, s2 := IntToString(w1), IntToString(w2);
    var t1, t2 := IntToString(q1), IntToString(q2);
    assert RequestText(h1, w1, q1, m1) == p1 + ['|'] + s1 + ['|'] + t1 + ['|'] + m1;
    assert RequestText(h2, w2, q2, m2) == p2 + ['|'] + s2 + ['|'] + t2 + ['|'] + m2;
    LastSeparator(p1 + ['|'] + s1 + ['|'] + t1, m1, p2 + ['|'] + s2 + ['|'] + t2, m2, '|');
    LastSeparator(p1 + ['|'] + s1, t1, p2 + ['|'] + s2, t2, '|');
    LastSeparator(p1, s1, p2, s2, '|');
    assert h1 == p1[2..] && h2 == p2[2..];
    if w1 < 0 || w2 < 0 {
      IntToStringInjective(w1, w2);
    } else {
      NatToStringInjective(w1, w2);
    }
    IntToStringInjective(q1, q2);
  }

  lemma IntToStringInjective(a: int, b: int)
    requires IntToString(a) == IntToString(b)
    ensures a == b
  {
    ParseIntOfIntToString(a);
    ParseIntOfIntToString(b);
  }
}
