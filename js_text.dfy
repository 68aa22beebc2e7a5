/**
  The JavaScript string and number primitives the image optimiser relies on, written out with
  their ECMAScript semantics: `String.prototype.split` with a one-character separator, `trim`,
  `startsWith`/`endsWith`/`includes`, ASCII `toLowerCase`, `String(n)` for integers, `parseInt`
  and `Number` for the decimal forms the cache file names use, and the UTF-8 encoding that
  `hash.update(string)` and `encodeURIComponent` apply.
*/
module JsText {
  import opened Wrappers

  type byte = x: int | 0 <= x < 256

  /** The characters matched by `\s` in a JavaScript regular expression and removed by `trim()`. */
  predicate IsJsWhitespace(c: char) {
    c == '\t' || c == '\n' || c == '\U{000B}' || c == '\U{000C}' || c == '\r' || c == ' ' ||
    c == '\U{00A0}' || c == '\U{1680}' || ('\U{2000}' <= c <= '\U{200A}') ||
    c == '\U{2028}' || c == '\U{2029}' || c == '\U{202F}' || c == '\U{205F}' ||
    c == '\U{3000}' || c == '\U{FEFF}'
  }

  predicate IsDigit(c: char) { '0' <= c <= '9' }

  function DigitValue(c: char): (v: nat)
    requires IsDigit(c)
    ensures v < 10
  {
    (c as int) - ('0' as int)
  }

  function DigitChar(d: nat): (c: char)
    requires d < 10
    ensures IsDigit(c) && DigitValue(c) == d
  {
    ((d + '0' as int) as char)
  }

  // ---------------------------------------------------------------------------------------------
  // Prefix, suffix and substring tests

  predicate StartsWith(s: string, prefix: string) {
    |prefix| <= |s| && s[..|prefix|] == prefix
  }

  predicate EndsWith(s: string, suffix: string) {
    |suffix| <= |s| && s[|s| - |suffix|..] == suffix
  }

  /** `s.includes(sub)`. */
  predicate Contains(s: string, sub: string)
    decreases |s|
  {
    StartsWith(s, sub) || (|s| > 0 && Contains(s[1..], sub))
  }

  lemma {:induction false} ContainsAt(s: string, sub: string, i: nat)
    requires i + |sub| <= |s| && s[i..i + |sub|] == sub
    ensures Contains(s, sub)
    decreases i
  {
    if i > 0 {
      assert s[1..][i - 1..i - 1 + |sub|] == s[i..i + |sub|];
      ContainsAt(s[1..], sub, i - 1);
    }
  }

  // ---------------------------------------------------------------------------------------------
  // trim, trimStart, toLowerCase

  function TrimStart(s: string): (r: string)
    ensures |r| <= |s|
    ensures r != [] ==> !IsJsWhitespace(r[0])
    ensures forall i :: 0 <= i < |s| - |r| ==> IsJsWhitespace(s[i])
  {
    if |s| > 0 && IsJsWhitespace(s[0]) then TrimStart(s[1..]) else s
  }

  function TrimEnd(s: string): (r: string)
    ensures |r| <= |s|
    ensures r != [] ==> !IsJsWhitespace(r[|r| - 1])
    ensures forall i :: |r| <= i < |s| ==> IsJsWhitespace(s[i])
  {
    if |s| > 0 && IsJsWhitespace(s[|s| - 1]) then TrimEnd(s[..|s| - 1]) else s
  }

  /** `s.trim()`. */
  function Trim(s: string): string {
    TrimEnd(TrimStart(s))
  }

  /** Trimming a string padded with white space on both sides gives the trimmed inner string. */
  lemma TrimPadded(w: string, c: char, d: char)
    requires IsJsWhitespace(c) && IsJsWhitespace(d)
    requires w != [] && !IsJsWhitespace(w[0]) && !IsJsWhitespace(w[|w| - 1])
    ensures Trim([c] + w + [d]) == w
  {
    var padded := [c] + w + [d];
    assert padded[1..] == w + [d];
    assert TrimStart(padded) == TrimStart(w + [d]);
    assert (w + [d])[0] == w[0];
    assert TrimStart(w + [d]) == w + [d];
    assert (w + [d])[..|w|] == w;
    assert TrimEnd(w + [d]) == TrimEnd(w);
  }

  /** A string without white space at either end is its own trim. */
  lemma TrimUnpadded(s: string)
    requires s != [] ==> !IsJsWhitespace(s[0]) && !IsJsWhitespace(s[|s| - 1])
    ensures Trim(s) == s
  {
    assert TrimStart(s) == s;
  }

  /** One leading white-space character is trimmed away. */
  lemma TrimLeadingPad(c: char, w: string)
    requires IsJsWhitespace(c)
    requires w != [] && !IsJsWhitespace(w[0]) && !IsJsWhitespace(w[|w| - 1])
    ensures Trim([c] + w) == w
  {
    assert ([c] + w)[1..] == w;
    assert TrimStart([c] + w) == TrimStart(w);
    TrimUnpadded(w);
  }

  function LowerChar(c: char): char {
    if 'A' <= c <= 'Z' then (c as int + 32) as char else c
  }

  /**
    `s.toLowerCase()` on the characters it can matter for here; see the README for why
    lower-casing the ASCII letters only decides the same directive lookups.
  */
  function AsciiLower(s: string): (r: string)
    ensures |r| == |s|
    ensures forall i :: 0 <= i < |s| ==> r[i] == LowerChar(s[i])
  {
    if s == [] then [] else [LowerChar(s[0])] + AsciiLower(s[1..])
  }

  /** Lower-casing changes nothing in a string without upper-case ASCII letters. */
  lemma AsciiLowerUnchanged(s: string)
    requires forall i :: 0 <= i < |s| ==> !('A' <= s[i] <= 'Z')
    ensures AsciiLower(s) == s
  {
  }

  // ---------------------------------------------------------------------------------------------
  // split on a one-character separator

  /** `s.split(sep)` for a one-character `sep`: the pieces between separators, in order. */
  function Split(s: string, sep: char): (r: seq<string>)
    ensures |r| >= 1
  {
    if s == [] then [""]
    else
      var rest := Split(s[1..], sep);
      if s[0] == sep then [""] + rest else [[s[0]] + rest[0]] + rest[1..]
  }

  /** The number of occurrences of `c` in `s`. */
  function Count(s: string, c: char): nat {
    if s == [] then 0 else (if s[0] == c then 1 else 0) + Count(s[1..], c)
  }

  /** Joining the pieces with the separator gives back the string. */
  function Join(pieces: seq<string>, sep: string): string {
    if |pieces| == 0 then ""
    else if |pieces| == 1 then pieces[0]
    else pieces[0] + sep + Join(pieces[1..], sep)
  }

  lemma {:induction false} SplitShape(s: string, sep: char)
    ensures |Split(s, sep)| == Count(s, sep) + 1
    ensures forall i :: 0 <= i < |Split(s, sep)| ==> sep !in Split(s, sep)[i]
    ensures Join(Split(s, sep), [sep]) == s
  {
    if s != [] {
      SplitShape(s[1..], sep);
      var rest := Split(s[1..], sep);
      if s[0] == sep {
        assert Split(s, sep) == [""] + rest;
        assert Split(s, sep)[1..] == rest;
      } else {
        var r := Split(s, sep);
        assert r == [[s[0]] + rest[0]] + rest[1..];
        forall i | 0 <= i < |r| ensures sep !in r[i] {
          if i > 0 { assert r[i] == rest[i]; }
        }
        if |rest| == 1 {
          assert Join(rest, [sep]) == rest[0];
        } else {
          assert r[1..] == rest[1..];
          assert Join(rest, [sep]) == rest[0] + [sep] + Join(rest[1..], [sep]);
        }
      }
    }
  }

  lemma {:induction false} SplitNoSeparator(s: string, sep: char)
    requires sep !in s
    ensures Split(s, sep) == [s]
  {
    if s != [] {
      SplitNoSeparator(s[1..], sep);
      assert [s[0]] + s[1..] == s;
    }
  }

  /** A separator-free first piece is split off as it is. */
  lemma {:induction false} SplitFirst(a: string, sep: char, b: string)
    requires sep !in a
    ensures Split(a + [sep] + b, sep) == [a] + Split(b, sep)
  {
    if a == [] {
      assert a + [sep] + b == [sep] + b;
      assert ([sep] + b)[1..] == b;
    } else {
      assert (a + [sep] + b)[1..] == a[1..] + [sep] + b;
      SplitFirst(a[1..], sep, b);
      assert [a[0]] + a[1..] == a;
    }
  }

  /** Splitting at a separator the string holds splits both sides independently. */
  lemma {:induction false} SplitConcat(a: string, sep: char, b: string)
    ensures Split(a + [sep] + b, sep) == Split(a, sep) + Split(b, sep)
  {
    if a == [] {
      assert a + [sep] + b == [sep] + b;
      assert ([sep] + b)[1..] == b;
    } else {
      assert (a + [sep] + b)[1..] == a[1..] + [sep] + b;
      SplitConcat(a[1..], sep, b);
    }
  }

  /** Pieces free of the separator, joined with it, split back into themselves. */
  lemma {:induction false} SplitJoin(pieces: seq<string>, sep: char)
    requires |pieces| >= 1
    requires forall i :: 0 <= i < |pieces| ==> sep !in pieces[i]
    ensures Split(Join(pieces, [sep]), sep) == pieces
  {
    if |pieces| == 1 {
      SplitNoSeparator(pieces[0], sep);
    } else {
      SplitJoin(pieces[1..], sep);
      SplitFirst(pieces[0], sep, Join(pieces[1..], [sep]));
      assert [pieces[0]] + pieces[1..] == pieces;
    }
  }

  /** The pieces after one more character `x` is appended to the split string. */
  function AppendChar(p: seq<string>, x: char, sep: char): (r: seq<string>)
    requires |p| >= 1
    ensures |r| >= 1
  {
    if x == sep then p + [""] else p[..|p| - 1] + [p[|p| - 1] + [x]]
  }

  lemma AppendCharEmptyHead(p: seq<string>, x: char, sep: char)
    requires |p| >= 1
    ensures AppendChar([""] + p, x, sep) == [""] + AppendChar(p, x, sep)
  {
    var n := |p|;
    if x != sep {
      assert ([""] + p)[..n] == [""] + p[..n - 1];
    }
  }

  lemma AppendCharConsHead(c: char, p: seq<string>, x: char, sep: char)
    requires |p| >= 1
    ensures var q := AppendChar(p, x, sep);
      AppendChar([[c] + p[0]] + p[1..], x, sep) == [[c] + q[0]] + q[1..]
  {
    var n := |p|;
    var q := AppendChar(p, x, sep);
    var l := [[c] + p[0]] + p[1..];
    if x == sep {
      assert q[0] == p[0] && q[1..] == p[1..] + [""];
    } else if n == 1 {
      assert q[0] == p[0] + [x] && q[1..] == [];
      assert [c] + (p[0] + [x]) == ([c] + p[0]) + [x];
      assert l[..|l| - 1] == [] && l[|l| - 1] == [c] + p[0];
    } else {
      assert q[0] == p[0];
      assert q[1..] == p[1..n - 1] + [p[n - 1] + [x]];
      assert l[..|l| - 1] == [[c] + p[0]] + p[1..n - 1];
    }
  }

  /** How splitting reacts to one more character at the end (the view a left-to-right scan needs). */
  lemma {:induction false} SplitSnoc(s: string, x: char, sep: char)
    ensures Split(s + [x], sep) == AppendChar(Split(s, sep), x, sep)
  {
    if s == [] {
      assert s + [x] == [x] && [x][1..] == [];
      assert Split(s, sep) == [""];
      if x != sep {
        assert Split([x][1..], sep) == [""];
        assert [x] + "" == [x] && "" + [x] == [x];
        assert Split([x], sep) == [[x]];
        assert [""][..0] == [];
        assert AppendChar([""], x, sep) == [[x]];
      }
    } else {
      assert (s + [x])[0] == s[0];
      assert (s + [x])[1..] == s[1..] + [x];
      SplitSnoc(s[1..], x, sep);
      var p' := Split(s[1..], sep);
      if s[0] == sep {
        AppendCharEmptyHead(p', x, sep);
      } else {
        AppendCharConsHead(s[0], p', x, sep);
      }
    }
  }

  // ---------------------------------------------------------------------------------------------
  // String(n) for integers

  /** `String(n)` for a non-negative integer. */
  function NatToString(n: nat): (r: string)
    ensures |r| >= 1
    ensures forall i :: 0 <= i < |r| ==> IsDigit(r[i])
  {
    if n < 10 then [DigitChar(n)] else NatToString(n / 10) + [DigitChar(n % 10)]
  }

  /** `String(n)` for an integer. */
  function IntToString(n: int): (r: string)
    ensures |r| >= 1
  {
    if n < 0 then "-" + NatToString(-n) else NatToString(n)
  }

  /** `String(x)` for a number that may be NaN (`None`). */
  function NumberText(x: Option<int>): string {
    match x
    case Some(n) => IntToString(n)
    case None => "NaN"
  }

  /** The value of a run of decimal digits, most significant first. */
  function DecimalValue(d: string): nat
    requires forall i :: 0 <= i < |d| ==> IsDigit(d[i])
  {
    if d == [] then 0 else DecimalValue(d[..|d| - 1]) * 10 + DigitValue(d[|d| - 1])
  }

  lemma {:induction false} DecimalValueOfNatToString(n: nat)
    ensures DecimalValue(NatToString(n)) == n
  {
    if n >= 10 {
      DecimalValueOfNatToString(n / 10);
      var s := NatToString(n);
      assert s[..|s| - 1] == NatToString(n / 10);
    }
  }

  lemma {:induction false} NatToStringInjective(a: nat, b: nat)
    requires NatToString(a) == NatToString(b)
    ensures a == b
  {
    DecimalValueOfNatToString(a);
    DecimalValueOfNatToString(b);
  }

  lemma IntToStringNoSeparators(n: int, c: char)
    requires !IsDigit(c) && c != '-'
    ensures c !in IntToString(n)
  {
    var s := IntToString(n);
    if n < 0 {
      assert forall i :: 1 <= i < |s| ==> s[i] == NatToString(-n)[i - 1];
    }
  }

  // ---------------------------------------------------------------------------------------------
  // parseInt and Number

  predicate IsHexDigit(c: char) {
    IsDigit(c) || ('a' <= c <= 'f') || ('A' <= c <= 'F')
  }

  function HexValue(c: char): (v: nat)
    requires IsHexDigit(c)
    ensures v < 16
  {
    if IsDigit(c) then DigitValue(c)
    else if 'a' <= c <= 'f' then (c as int) - ('a' as int) + 10
    else (c as int) - ('A' as int) + 10
  }

  predicate IsRadixDigit(c: char, hex: bool) {
    if hex then IsHexDigit(c) else IsDigit(c)
  }

  /** The longest prefix of `s` made of digits of the radix. */
  function DigitRun(s: string, hex: bool): (r: string)
    ensures |r| <= |s|
    ensures forall i :: 0 <= i < |r| ==> IsRadixDigit(r[i], hex)
    ensures |r| < |s| ==> !IsRadixDigit(s[|r|], hex)
  {
    if |s| > 0 && IsRadixDigit(s[0], hex) then [s[0]] + DigitRun(s[1..], hex) else ""
  }

  function RadixDigitValue(c: char, hex: bool): nat
    requires IsRadixDigit(c, hex)
  {
    if hex then HexValue(c) else DigitValue(c)
  }

  function RadixValue(d: string, hex: bool): nat
    requires forall i :: 0 <= i < |d| ==> IsRadixDigit(d[i], hex)
  {
    if d == [] then 0
    else
      var last := d[|d| - 1];
      assert IsRadixDigit(last, hex);
      RadixValue(d[..|d| - 1], hex) * (if hex then 16 else 10) + RadixDigitValue(last, hex)
  }

  /**
    `parseInt(s, 10)` (when `detectHex` is false) and `parseInt(s)` (when it is true, so that a
    `0x`/`0X` prefix switches to base 16). `None` is NaN.
  */
  function ParseInt(s: string, detectHex: bool): (r: Option<int>)
  {
    ParseSigned(TrimStart(s), detectHex)
  }

  /** `parseInt` once leading white space is gone: an optional sign, then the digits. */
  function ParseSigned(t: string, detectHex: bool): (r: Option<int>)
  {
    if |t| > 0 && (t[0] == '-' || t[0] == '+') then
      match ParseUnsigned(t[1..], detectHex)
      case None => None
      case Some(v) => Some(if t[0] == '-' then 0 - v else v)
    else
      match ParseUnsigned(t, detectHex)
      case None => None
      case Some(v) => Some(v as int)
  }

  /** The digits after the sign; with `detectHex`, a `0x`/`0X` prefix selects base 16. */
  function ParseUnsigned(u: string, detectHex: bool): (r: Option<nat>)
  {
    var hex := detectHex && |u| >= 2 && u[0] == '0' && (u[1] == 'x' || u[1] == 'X');
    var digits := DigitRun(if hex then u[2..] else u, hex);
    if digits == [] then None else Some(RadixValue(digits, hex))
  }

  lemma {:induction false} DigitRunOfDigits(s: string)
    requires forall i :: 0 <= i < |s| ==> IsDigit(s[i])
    ensures DigitRun(s, false) == s
  {
    if s != [] {
      DigitRunOfDigits(s[1..]);
      assert [s[0]] + s[1..] == s;
    }
  }

  lemma {:induction false} RadixValueIsDecimalValue(d: string)
    requires forall i :: 0 <= i < |d| ==> IsDigit(d[i])
    ensures RadixValue(d, false) == DecimalValue(d)
  {
    if d != [] {
      RadixValueIsDecimalValue(d[..|d| - 1]);
    }
  }

  /** `parseInt(String(n), 10) === n`. */
  lemma ParseIntOfNatToString(n: nat)
    ensures ParseInt(NatToString(n), false) == Some(n)
  {
    var s := NatToString(n);
    assert IsDigit(s[0]);
    assert TrimStart(s) == s;
    DigitRunOfDigits(s);
    RadixValueIsDecimalValue(s);
    DecimalValueOfNatToString(n);
    assert ParseUnsigned(s, false) == Some(n);
  }

  /**
    `Number(s)` for the decimal integer forms: surrounding white space is ignored, the empty
    string is 0, an optional sign is followed by one or more decimal digits; `None` is NaN.
  */
  function JsNumber(s: string): (r: Option<int>)
  {
    var t := Trim(s);
    if t == [] then Some(0)
    else if t[0] == '-' || t[0] == '+' then
      match DecimalDigits(t[1..])
      case None => None
      case Some(v) => Some(if t[0] == '-' then 0 - v else v)
    else
      match DecimalDigits(t)
      case None => None
      case Some(v) => Some(v as int)
  }

  /** The value of a non-empty, all-digit string, or NaN. */
  function DecimalDigits(u: string): (r: Option<nat>)
  {
    if u != [] && forall i :: 0 <= i < |u| ==> IsDigit(u[i]) then Some(DecimalValue(u)) else None
  }

  /** `Number(String(n)) === n` for every integer `n`. */
  lemma JsNumberOfIntToString(n: int)
    ensures JsNumber(IntToString(n)) == Some(n)
  {
    var s := IntToString(n);
    if n < 0 {
      var d := NatToString(-n);
      assert s == "-" + d;
      assert !IsJsWhitespace(s[0]);
      assert TrimStart(s) == s;
      assert IsDigit(s[|s| - 1]) by { assert s[|s| - 1] == d[|d| - 1]; }
      assert TrimEnd(s) == s;
      assert s[1..] == d;
      DecimalValueOfNatToString(-n);
      assert DecimalDigits(d) == Some(-n);
    } else {
      assert IsDigit(s[0]) && IsDigit(s[|s| - 1]);
      assert TrimStart(s) == s;
      assert TrimEnd(s) == s;
      DecimalValueOfNatToString(n);
      assert DecimalDigits(s) == Some(n);
    }
  }

  /** `parseInt(String(n), 10) === n` for every integer `n`, negative ones included. */
  lemma ParseIntOfIntToString(n: int)
    ensures ParseInt(IntToString(n), false) == Some(n)
  {
    if n < 0 {
      var d := NatToString(-n);
      var s := IntToString(n);
      assert s == "-" + d && s[1..] == d;
      assert TrimStart(s) == s;
      DigitRunOfDigits(d);
      RadixValueIsDecimalValue(d);
      DecimalValueOfNatToString(-n);
      assert ParseUnsigned(d, false) == Some(-n);
    } else {
      ParseIntOfNatToString(n);
    }
  }

  // ---------------------------------------------------------------------------------------------
  // UTF-8

  /** The UTF-8 encoding of one Unicode scalar value. */
  function Utf8Char(c: char): (r: seq<byte>)
    ensures 1 <= |r| <= 4
  {
    var n := c as int;
    if n < 0x80 then [n]
    else if n < 0x800 then [0xC0 + n / 0x40, 0x80 + n % 0x40]
    else if n < 0x10000 then [0xE0 + n / 0x1000, 0x80 + (n / 0x40) % 0x40, 0x80 + n % 0x40]
    else [0xF0 + n / 0x40000, 0x80 + (n / 0x1000) % 0x40, 0x80 + (n / 0x40) % 0x40, 0x80 + n % 0x40]
  }

  /** The UTF-8 encoding of a string, as Node's `Buffer.from(s)` and `hash.update(s)` produce it. */
  function Utf8(s: string): (r: seq<byte>)
    ensures |r| >= |s|
  {
    if s == [] then [] else Utf8Char(s[0]) + Utf8(s[1..])
  }

  lemma {:induction false} Utf8Concat(a: string, b: string)
    ensures Utf8(a + b) == Utf8(a) + Utf8(b)
  {
    if a != [] {
      assert (a + b)[0] == a[0];
      assert (a + b)[1..] == a[1..] + b;
      Utf8Concat(a[1..], b);
      calc {
        Utf8(a + b);
        Utf8Char(a[0]) + Utf8(a[1..] + b);
        Utf8Char(a[0]) + (Utf8(a[1..]) + Utf8(b));
        (Utf8Char(a[0]) + Utf8(a[1..])) + Utf8(b);
        Utf8(a) + Utf8(b);
      }
    } else {
      assert a + b == b;
    }
  }

  /** The length of an encoded character, read from its first byte. */
  function LeadLength(b: byte): nat {
    if b < 0x80 then 1 else if b < 0xE0 then 2 else if b < 0xF0 then 3 else 4
  }

  /** The scalar value carried by the bytes of one encoded character. */
  function DecodeValue(bytes: seq<byte>): int
    requires 1 <= |bytes| <= 4
  {
    if |bytes| == 1 then bytes[0]
    else if |bytes| == 2 then (bytes[0] as int - 0xC0) * 0x40 + (bytes[1] as int - 0x80)
    else if |bytes| == 3 then
      (bytes[0] as int - 0xE0) * 0x1000 + (bytes[1] as int - 0x80) * 0x40 + (bytes[2] as int - 0x80)
    else
      (bytes[0] as int - 0xF0) * 0x40000 + (bytes[1] as int - 0x80) * 0x1000 + (bytes[2] as int - 0x80) * 0x40 + (bytes[3] as int - 0x80)
  }

  /** The first byte tells how many bytes the character takes, and the bytes give the character back. */
  lemma Utf8CharDecodes(c: char)
    ensures LeadLength(Utf8Char(c)[0]) == |Utf8Char(c)|
    ensures DecodeValue(Utf8Char(c)) == c as int
  {
    var n := c as int;
    var a := n / 0x40;
    assert n == a * 0x40 + n % 0x40;
    if n >= 0x800 {
      var b := a / 0x40;
      assert a == b * 0x40 + a % 0x40;
      assert n / 0x1000 == b;
      if n >= 0x10000 {
        assert n <= 0x10FFFF;
        assert b == (b / 0x40) * 0x40 + b % 0x40;
        assert n / 0x40000 == b / 0x40;
        assert (n / 0x1000) % 0x40 == b % 0x40;
      }
    }
  }

  lemma {:induction false} Utf8Injective(a: string, b: string)
    requires Utf8(a) == Utf8(b)
    ensures a == b
  {
    if a == [] {
      assert |b| <= |Utf8(b)| == 0;
    } else {
      assert b != [];
      var ca, cb := Utf8Char(a[0]), Utf8Char(b[0]);
      Utf8CharDecodes(a[0]);
      Utf8CharDecodes(b[0]);
      assert Utf8(a)[0] == ca[0] && Utf8(b)[0] == cb[0];
      assert |ca| == |cb|;
      assert ca == Utf8(a)[..|ca|] && cb == Utf8(b)[..|cb|];
      assert a[0] as int == b[0] as int;
      assert Utf8(a[1..]) == Utf8(a)[|ca|..] == Utf8(b)[|cb|..] == Utf8(b[1..]);
      Utf8Injective(a[1..], b[1..]);
      assert a == [a[0]] + a[1..] && b == [b[0]] + b[1..];
    }
  }
}
