/**
  The upstream `Cache-Control` header as the optimiser reads it (`parseCacheControl`,
  `getMaxAge`) and writes it (`public, max-age=N, must-revalidate`), and the expiry time of a
  cache entry.
*/
module CacheControl {
  import opened Wrappers
  import opened JsText

  /**
    One directive: `directive.trim().split('=')`, the first part lower-cased as the key and the
    second, when present and non-empty, lower-cased as the value. `""` stands for `undefined`;
    both are falsy, which is all the lookups test.
  */
  function KeyOf(directive: string): string {
    AsciiLower(Split(Trim(directive), '=')[0])
  }

  function ValueOf(directive: string): string {
    var parts := Split(Trim(directive), '=');
    if |parts| >= 2 then AsciiLower(parts[1]) else ""
  }

  /** The map built from the directives in order: each `map.set` overrides an earlier key. */
  function Fold(directives: seq<string>): map<string, string> {
    if directives == [] then map[]
    else
      var last := directives[|directives| - 1];
      Fold(directives[..|directives| - 1])[KeyOf(last) := ValueOf(last)]
  }

  /** `parseCacheControl(str)`: nothing for a missing header, else the fold over its comma pieces. */
  function Directives(str: string): map<string, string> {
    if str == "" then map[] else Fold(Split(str, ','))
  }

  /** The loop of `parseCacheControl`. */
  method ParseCacheControl(str: string) returns (m: map<string, string>)
    ensures m == Directives(str)
  {
    m := map[];
    if str == "" {
      return;
    }
    var directives := Split(str, ',');
    for i := 0 to |directives|
      invariant m == Fold(directives[..i])
    {
      var directive := directives[i];
      var key := KeyOf(directive);
      var value := ValueOf(directive);
      m := m[key := value];
      assert directives[..i + 1][..i] == directives[..i];
    }
    assert directives[..|directives|] == directives;
  }

  /** A key is in the map exactly when some directive has it. */
  lemma {:induction false} FoldKeys(directives: seq<string>, key: string)
    ensures key in Fold(directives) <==> exists i :: 0 <= i < |directives| && KeyOf(directives[i]) == key
  {
    if directives != [] {
      var front := directives[..|directives| - 1];
      FoldKeys(front, key);
      if key in Fold(front) {
        var i :| 0 <= i < |front| && KeyOf(front[i]) == key;
        assert directives[i] == front[i];
      }
      if exists i :: 0 <= i < |directives| && KeyOf(directives[i]) == key {
        var i :| 0 <= i < |directives| && KeyOf(directives[i]) == key;
        if i < |front| {
          assert front[i] == directives[i];
        }
      }
    }
  }

  /** The value of a key is that of the last directive carrying it. */
  lemma {:induction false} FoldLastWins(directives: seq<string>, i: nat)
    requires i < |directives|
    requires forall j :: i < j < |directives| ==> KeyOf(directives[j]) != KeyOf(directives[i])
    ensures KeyOf(directives[i]) in Fold(directives)
    ensures Fold(directives)[KeyOf(directives[i])] == ValueOf(directives[i])
  {
    if i < |directives| - 1 {
      var front := directives[..|directives| - 1];
      assert front[i] == directives[i];
      FoldLastWins(front, i);
    }
  }

  /** `map.get('s-maxage') || map.get('max-age') || ''`. */
  function AgeText(m: map<string, string>): string {
    if "s-maxage" in m && m["s-maxage"] != "" then m["s-maxage"]
    else if "max-age" in m && m["max-age"] != "" then m["max-age"]
    else ""
  }

  /** One pair of surrounding double quotes removed (`slice(1, -1)`; a lone `"` gives ""). */
  function Unquote(age: string): (r: string)
    ensures StartsWith(age, "\"") && EndsWith(age, "\"") ==> |r| == if |age| >= 2 then |age| - 2 else 0
    ensures !(StartsWith(age, "\"") && EndsWith(age, "\"")) ==> r == age
  {
    if StartsWith(age, "\"") && EndsWith(age, "\"") then
      (if |age| >= 2 then age[1..|age| - 1] else "")
    else age
  }

  /** The max-age in seconds the header announces: the parsed age, or 0 when it is not a number. */
  function MaxAgeOf(header: string): int {
    match ParseInt(Unquote(AgeText(Directives(header))), false)
    case Some(n) => n
    case None => 0
  }

  /** `getMaxAge(str)`. */
  method GetMaxAge(header: string) returns (age: int)
    ensures age == MaxAgeOf(header)
  {
    var m := ParseCacheControl(header);
    var text := AgeText(m);
    if StartsWith(text, "\"") && EndsWith(text, "\"") {
      text := if |text| >= 2 then text[1..|text| - 1] else "";
    }
    var n := ParseInt(text, false);
    if n.Some? {
      return n.value;
    }
    return 0;
  }

  /** `Math.max(maxAge, minimumCacheTTL) * 1000 + now`: milliseconds since the epoch. */
  function ExpireAt(maxAge: int, minimumCacheTTL: int, now: int): (r: int)
    ensures r >= now + minimumCacheTTL * 1000
    ensures r >= now + maxAge * 1000
    ensures r == now + minimumCacheTTL * 1000 || r == now + maxAge * 1000
  {
    (if maxAge > minimumCacheTTL then maxAge else minimumCacheTTL) * 1000 + now
  }

  /**
    The `Cache-Control` value the optimiser sends, `public, max-age=${age}, must-revalidate`, for
    the printed age `ageText`.
  */
  function ResponseCacheControl(ageText: string): string {
    PUBLIC + "," + MAX_AGE_PREFIX + ageText + "," + MUST_REVALIDATE
  }

  const PUBLIC := "public"
  const MAX_AGE_PREFIX := " max-age="
  const MUST_REVALIDATE := " must-revalidate"

  // ---------------------------------------------------------------------------------------------
  // Properties

  lemma DirectiveOfWord(pad: string, w: string)
    requires pad == "" || pad == " "
    requires w != [] && '=' !in w && !IsJsWhitespace(w[0]) && !IsJsWhitespace(w[|w| - 1])
    requires forall i :: 0 <= i < |w| ==> !('A' <= w[i] <= 'Z')
    ensures KeyOf(pad + w) == w && ValueOf(pad + w) == ""
  {
    if pad == "" {
      assert pad + w == w;
      TrimUnpadded(w);
    } else {
      assert pad + w == [' '] + w;
      TrimLeadingPad(' ', w);
    }
    SplitNoSeparator(w, '=');
    AsciiLowerUnchanged(w);
  }

  lemma DirectiveOfAssignment(k: string, v: string)
    requires k != [] && '=' !in k && !IsJsWhitespace(k[0])
    requires forall i :: 0 <= i < |k| ==> !('A' <= k[i] <= 'Z')
    requires v != [] && '=' !in v && !IsJsWhitespace(v[|v| - 1])
    requires forall i :: 0 <= i < |v| ==> !('A' <= v[i] <= 'Z')
    ensures KeyOf(" " + k + "=" + v) == k && ValueOf(" " + k + "=" + v) == v
  {
    var w := k + "=" + v;
    assert " " + k + "=" + v == [' '] + w;
    assert w[0] == k[0] && w[|w| - 1] == v[|v| - 1];
    TrimLeadingPad(' ', w);
    assert w == k + ['='] + v;
    SplitFirst(k, '=', v);
    SplitNoSeparator(v, '=');
    AsciiLowerUnchanged(k);
    AsciiLowerUnchanged(v);
  }

  /** The digits of an integer hold no upper-case letter, `=`, white space at the end, or comma. */
  lemma IntToStringPlain(n: int)
    ensures '=' !in IntToString(n) && ',' !in IntToString(n)
    ensures forall i :: 0 <= i < |IntToString(n)| ==> !('A' <= IntToString(n)[i] <= 'Z')
    ensures !IsJsWhitespace(IntToString(n)[|IntToString(n)| - 1])
  {
    IntToStringNoSeparators(n, '=');
    IntToStringNoSeparators(n, ',');
    var s := IntToString(n);
    if n < 0 {
      assert forall i :: 1 <= i < |s| ==> s[i] == NatToString(-n)[i - 1];
    }
  }

  lemma ThreePieces(a: string, b: string, c: string)
    requires ',' !in a && ',' !in b && ',' !in c
    ensures Split(a + [','] + b + [','] + c, ',') == [a, b, c]
  {
    SplitNoSeparator(c, ',');
    SplitFirst(b, ',', c);
    assert a + [','] + b + [','] + c == a + [','] + (b + [','] + c);
    SplitFirst(a, ',', b + [','] + c);
  }

  /** The three directives of the header the optimiser writes. */
  lemma ResponseDirectives(maxAge: int)
    ensures Split(ResponseCacheControl(IntToString(maxAge)), ',') ==
      [PUBLIC, MAX_AGE_PREFIX + IntToString(maxAge), MUST_REVALIDATE]
  {
    var digits := IntToString(maxAge);
    IntToStringPlain(maxAge);
    var d1 := MAX_AGE_PREFIX + digits;
    assert ',' !in d1 by {
      assert forall i :: |MAX_AGE_PREFIX| <= i < |d1| ==> d1[i] == digits[i - |MAX_AGE_PREFIX|];
    }
    assert ResponseCacheControl(digits) == PUBLIC + [','] + d1 + [','] + MUST_REVALIDATE;
    ThreePieces(PUBLIC, d1, MUST_REVALIDATE);
  }

  lemma PublicDirective()
    ensures KeyOf(PUBLIC) == "public"
  {
    assert "" + PUBLIC == PUBLIC;
    DirectiveOfWord("", PUBLIC);
  }

  lemma MustRevalidateDirective()
    ensures KeyOf(MUST_REVALIDATE) == "must-revalidate"
  {
    var w := "must-revalidate";
    assert MUST_REVALIDATE == " " + w;
    DirectiveOfWord(" ", w);
  }

  lemma MaxAgeDirective(digits: string)
    requires digits != [] && '=' !in digits && !IsJsWhitespace(digits[|digits| - 1])
    requires forall i :: 0 <= i < |digits| ==> !('A' <= digits[i] <= 'Z')
    ensures KeyOf(MAX_AGE_PREFIX + digits) == "max-age" && ValueOf(MAX_AGE_PREFIX + digits) == digits
  {
    assert " " + "max-age" + "=" + digits == MAX_AGE_PREFIX + digits;
    DirectiveOfAssignment("max-age", digits);
  }

  /** Three directives of which only the middle one has key `k`, and none has key `absent`. */
  lemma FoldOfThree(d0: string, d1: string, d2: string, k: string, absent: string)
    requires KeyOf(d2) != k
    requires KeyOf(d0) != absent && KeyOf(d1) != absent && KeyOf(d2) != absent
    ensures k == KeyOf(d1) ==> k in Fold([d0, d1, d2]) && Fold([d0, d1, d2])[k] == ValueOf(d1)
    ensures absent !in Fold([d0, d1, d2])
  {
    var ds := [d0, d1, d2];
    if k == KeyOf(d1) {
      FoldLastWins(ds, 1);
    }
    FoldKeys(ds, absent);
  }

  /** The directive map of that header: `max-age` holds the digits and there is no `s-maxage`. */
  lemma ResponseDirectiveMap(maxAge: int)
    ensures var m := Directives(ResponseCacheControl(IntToString(maxAge)));
      "max-age" in m && m["max-age"] == IntToString(maxAge) && "s-maxage" !in m
  {
    var digits := IntToString(maxAge);
    IntToStringPlain(maxAge);
    ResponseDirectives(maxAge);
    PublicDirective();
    MaxAgeDirective(digits);
    MustRevalidateDirective();
    FoldOfThree(PUBLIC, MAX_AGE_PREFIX + digits, MUST_REVALIDATE, "max-age", "s-maxage");
  }

  /**
    The header the optimiser writes reads back as the same max-age: an optimiser fetching from
    another one keeps its expiry.
  */
  lemma ResponseCacheControlRoundTrip(maxAge: int)
    ensures MaxAgeOf(ResponseCacheControl(IntToString(maxAge))) == maxAge
  {
    var digits := IntToString(maxAge);
    ResponseDirectiveMap(maxAge);
    assert digits != "";
    assert AgeText(Directives(ResponseCacheControl(IntToString(maxAge)))) == digits;
    assert !StartsWith(digits, "\"") by {
      if maxAge >= 0 {
        assert IsDigit(digits[0]);
      }
    }
    ParseIntOfIntToString(maxAge);
  }

  /** A value in the map is the value of some directive carrying its key. */
  lemma {:induction false} FoldValueFrom(directives: seq<string>, key: string)
    requires key in Fold(directives)
    ensures exists j :: 0 <= j < |directives| && KeyOf(directives[j]) == key && Fold(directives)[key] == ValueOf(directives[j])
  {
    var last := directives[|directives| - 1];
    var front := directives[..|directives| - 1];
    if KeyOf(last) != key {
      FoldValueFrom(front, key);
      var j :| 0 <= j < |front| && KeyOf(front[j]) == key && Fold(front)[key] == ValueOf(front[j]);
      assert directives[j] == front[j];
    }
  }

  /** The header made of comma-free directives is read back as those directives. */
  lemma HeaderOfDirectives(directives: seq<string>, i: nat)
    requires |directives| >= 1 && forall j :: 0 <= j < |directives| ==> ',' !in directives[j]
    requires i < |directives| && KeyOf(directives[i]) != ""
    ensures Directives(Join(directives, ",")) == Fold(directives)
  {
    SplitJoin(directives, ',');
    EmptyDirectiveHasNoKey();
  }

  lemma EmptyDirectiveHasNoKey()
    ensures KeyOf("") == ""
  {
    assert Trim("") == "";
  }

  /**
    `s-maxage` takes precedence: when the last `s-maxage` directive of a header carries a value,
    that value is the age read, whatever `max-age` directives the header holds.
  */
  lemma SharedMaxAgeWins(directives: seq<string>, i: nat)
    requires |directives| >= 1 && forall j :: 0 <= j < |directives| ==> ',' !in directives[j]
    requires i < |directives| && KeyOf(directives[i]) == "s-maxage" && ValueOf(directives[i]) != ""
    requires forall j :: i < j < |directives| ==> KeyOf(directives[j]) != "s-maxage"
    ensures AgeText(Directives(Join(directives, ","))) == ValueOf(directives[i])
  {
    HeaderOfDirectives(directives, i);
    FoldLastWins(directives, i);
  }

  /**
    Without an `s-maxage` value (no `s-maxage` directive, or only valueless ones), the age read
    is the value of the last `max-age` directive.
  */
  lemma MaxAgeFallback(directives: seq<string>, i: nat)
    requires |directives| >= 1 && forall j :: 0 <= j < |directives| ==> ',' !in directives[j]
    requires forall j :: 0 <= j < |directives| && KeyOf(directives[j]) == "s-maxage" ==> ValueOf(directives[j]) == ""
    requires i < |directives| && KeyOf(directives[i]) == "max-age"
    requires forall j :: i < j < |directives| ==> KeyOf(directives[j]) != "max-age"
    ensures AgeText(Directives(Join(directives, ","))) == ValueOf(directives[i])
  {
    HeaderOfDirectives(directives, i);
    FoldLastWins(directives, i);
    if "s-maxage" in Fold(directives) {
      FoldValueFrom(directives, "s-maxage");
    }
  }

  /** A quoted age is read like the unquoted one. */
  lemma QuotedAge(n: nat)
    ensures ParseInt(Unquote("\"" + NatToString(n) + "\""), false) == Some(n)
  {
    var d := NatToString(n);
    var q := "\"" + d + "\"";
    assert StartsWith(q, "\"") && EndsWith(q, "\"");
    assert q[1..|q| - 1] == d;
    ParseIntOfNatToString(n);
  }

  /** An age that does not start with a digit (after white space and a sign) reads as 0. */
  lemma NonNumericAgeIsZero(header: string)
    requires var t := TrimStart(Unquote(AgeText(Directives(header))));
      t == [] || (!IsDigit(t[0]) && t[0] != '-' && t[0] != '+')
    ensures MaxAgeOf(header) == 0
  {
  }

  /** No header, no max-age. */
  lemma MissingHeaderIsZero()
    ensures MaxAgeOf("") == 0
  {
    assert TrimStart("") == "";
  }

  /** A later duplicate directive overrides an earlier one. */
  lemma LaterDirectiveOverrides(directives: seq<string>, d: string)
    ensures Fold(directives + [d])[KeyOf(d)] == ValueOf(d)
    ensures forall k :: k != KeyOf(d) && k in Fold(directives) ==>
      k in Fold(directives + [d]) && Fold(directives + [d])[k] == Fold(directives)[k]
  {
    assert (directives + [d])[..|directives|] == directives;
  }
}
