/** `clean_google_url` and `normalize_website`, with the ASCII part of the library calls the
    first one makes: `urlparse` (only as far as locating the query and refusing a malformed
    bracketed host), `parse_qs` (Python 3.10 and later: `&` is the only separator, blank
    values are dropped) and `unquote` (percent-decoding, section 2.1 of RFC 3986). */
module Urls {
  import opened Wrappers
  import opened Text

  // ---------- Searching ----------

  /** The first position of `c` in `s` (what `str.find` gives, as an option). */
  function IndexOf(s: string, c: char): (r: Option<nat>)
    ensures r.None? ==> NoChar(s, c)
    ensures r.Some? ==> r.value < |s| && s[r.value] == c && NoChar(s[..r.value], c)
  {
    if |s| == 0 then None
    else if s[0] == c then Some(0)
    else match IndexOf(s[1..], c)
      case None => None
      case Some(i) =>
        assert s[..i + 1] == [s[0]] + s[1..][..i];
        Some(i + 1)
  }

  /** The first occurrence is determined by the character there and the ones before it. */
  lemma IndexOfIs(s: string, c: char, i: nat)
    requires i < |s| && s[i] == c && NoChar(s[..i], c)
    ensures IndexOf(s, c) == Some(i)
  {
  }

  /** The characters that end the network location. */
  predicate IsNetlocEnd(c: char) { c == '/' || c == '?' || c == '#' }

  /** The first position of `s` holding `/`, `?` or `#`. */
  function NetlocEnd(s: string): (r: Option<nat>)
    ensures r.None? ==> forall k :: 0 <= k < |s| ==> !IsNetlocEnd(s[k])
    ensures r.Some? ==> r.value < |s| && IsNetlocEnd(s[r.value])
    ensures r.Some? ==> forall k :: 0 <= k < r.value ==> !IsNetlocEnd(s[k])
  {
    if |s| == 0 then None
    else if IsNetlocEnd(s[0]) then Some(0)
    else match NetlocEnd(s[1..])
      case None => None
      case Some(i) => Some(i + 1)
  }

  lemma NetlocEndIs(s: string, i: nat)
    requires i < |s| && IsNetlocEnd(s[i]) && forall k :: 0 <= k < i ==> !IsNetlocEnd(s[k])
    ensures NetlocEnd(s) == Some(i)
  {
  }

  /** Python's `s.split(sep)` for a one-character separator. */
  function SplitOn(s: string, sep: char): (parts: seq<string>)
    ensures |parts| >= 1
    decreases |s|
  {
    match IndexOf(s, sep)
    case None => [s]
    case Some(i) => [s[..i]] + SplitOn(s[i + 1..], sep)
  }

  /** No piece contains the separator. */
  lemma {:induction false} SplitOnPartsLackSep(s: string, sep: char)
    ensures forall k :: 0 <= k < |SplitOn(s, sep)| ==> NoChar(SplitOn(s, sep)[k], sep)
    decreases |s|
  {
    match IndexOf(s, sep)
    case None =>
    case Some(i) =>
      SplitOnPartsLackSep(s[i + 1..], sep);
  }

  /** `"&".join(SplitOn(s, "&"))`: splitting loses nothing. */
  function Join(parts: seq<string>, sep: char): string {
    if |parts| <= 1 then (if parts == [] then "" else parts[0])
    else parts[0] + [sep] + Join(parts[1..], sep)
  }

  lemma {:induction false} SplitOnJoin(s: string, sep: char)
    ensures Join(SplitOn(s, sep), sep) == s
    decreases |s|
  {
    match IndexOf(s, sep)
    case None =>
    case Some(i) =>
      var rest := s[i + 1..];
      SplitOnJoin(rest, sep);
      JoinCons(s[..i], SplitOn(rest, sep), sep);
      assert s == s[..i] + [sep] + rest;
  }

  lemma JoinCons(part: string, parts: seq<string>, sep: char)
    requires |parts| >= 1
    ensures Join([part] + parts, sep) == part + [sep] + Join(parts, sep)
  {
    assert ([part] + parts)[1..] == parts;
  }

  // ---------- Percent-decoding ----------

  predicate IsHexDigit(c: char) {
    '0' <= c <= '9' || 'a' <= c <= 'f' || 'A' <= c <= 'F'
  }

  function HexValue(c: char): (v: nat)
    requires IsHexDigit(c)
    ensures v < 16
  {
    if '0' <= c <= '9' then c as int - '0' as int
    else if 'a' <= c <= 'f' then c as int - 'a' as int + 10
    else c as int - 'A' as int + 10
  }

  /** The character a `%XX` escape stands for. A byte below 0x80 is the ASCII character
      with that code; any other byte, decoded on its own as UTF-8 with errors replaced,
      is U+FFFD. */
  function DecodedChar(hi: char, lo: char): char
    requires IsHexDigit(hi) && IsHexDigit(lo)
  {
    var b := 16 * HexValue(hi) + HexValue(lo);
    if b < 128 then b as char else '\U{FFFD}'
  }

  /** Python's `unquote`: each `%` followed by two hex digits becomes the byte they name; a
      `%` without them stays as it is and scanning resumes right after it. */
  function Unquote(s: string): (r: string)
    ensures |r| <= |s|
    ensures NoChar(s, '%') ==> r == s
    decreases |s|
  {
    if |s| == 0 then ""
    else if s[0] == '%' && |s| >= 3 && IsHexDigit(s[1]) && IsHexDigit(s[2]) then
      [DecodedChar(s[1], s[2])] + Unquote(s[3..])
    else
      [s[0]] + Unquote(s[1..])
  }

  predicate IsAscii(s: string) {
    forall k :: 0 <= k < |s| ==> s[k] as int < 128
  }

  /** The upper-case hex digit for `n` (the digits `urllib.parse.quote` writes). */
  function HexDigit(n: nat): (c: char)
    requires n < 16
    ensures IsHexDigit(c) && HexValue(c) == n
  {
    if n < 10 then ('0' as int + n) as char else ('A' as int + n - 10) as char
  }

  /** Escapes every character of an ASCII string as `%XX`. */
  function PercentEncode(s: string): (r: string)
    requires IsAscii(s)
    ensures |r| == 3 * |s|
    ensures IsAscii(r)
    ensures forall k :: 0 <= k < |r| ==> r[k] == '%' || IsHexDigit(r[k])
    ensures |s| > 0 ==> IsHexDigit(r[|r| - 1])
  {
    if s == [] then ""
    else
      var c := s[0] as int;
      ['%', HexDigit(c / 16), HexDigit(c % 16)] + PercentEncode(s[1..])
  }

  /** Percent-decoding undoes percent-encoding. */
  lemma {:induction false} UnquotePercentEncode(s: string)
    requires IsAscii(s)
    ensures Unquote(PercentEncode(s)) == s
  {
    if s != [] {
      var c := s[0] as int;
      var e := PercentEncode(s);
      assert e[3..] == PercentEncode(s[1..]);
      assert DecodedChar(e[1], e[2]) == s[0];
      UnquotePercentEncode(s[1..]);
    }
  }

  // ---------- urlparse / parse_qs ----------

  /** The characters `urlsplit` removes from the front (C0 controls and space). */
  predicate IsC0OrSpace(c: char) { c as int <= 32 }

  function LStripC0(s: string): (r: string)
    ensures |r| <= |s|
    ensures r == [] || !IsC0OrSpace(r[0])
  {
    if |s| > 0 && IsC0OrSpace(s[0]) then LStripC0(s[1..]) else s
  }

  /** `urlsplit` deletes tab, carriage return and line feed wherever they occur. */
  predicate IsUnsafe(c: char) { c == '\t' || c == '\r' || c == '\n' }

  function RemoveUnsafe(s: string): (r: string)
    ensures |r| <= |s|
    ensures forall k :: 0 <= k < |r| ==> !IsUnsafe(r[k])
    ensures (forall k :: 0 <= k < |s| ==> !IsUnsafe(s[k])) ==> r == s
  {
    if s == [] then ""
    else if IsUnsafe(s[0]) then RemoveUnsafe(s[1..])
    else [s[0]] + RemoveUnsafe(s[1..])
  }

  /** The string `urlsplit` actually parses. */
  function Prepared(url: string): string {
    RemoveUnsafe(LStripC0(url))
  }

  predicate IsAsciiLetter(c: char) { 'a' <= c <= 'z' || 'A' <= c <= 'Z' }

  predicate IsSchemeChar(c: char) {
    IsAsciiLetter(c) || '0' <= c <= '9' || c == '+' || c == '-' || c == '.'
  }

  /** What follows the scheme: everything after the first `:` when the text before it is a
      letter followed by scheme characters, else the whole string. */
  function AfterScheme(u: string): string {
    match IndexOf(u, ':')
    case None => u
    case Some(i) =>
      if i > 0 && IsAsciiLetter(u[0]) && forall k :: 0 <= k < i ==> IsSchemeChar(u[k]) then u[i + 1..]
      else u
  }

  /** The network location: after a leading `//`, up to the first `/`, `?` or `#`. */
  function Netloc(rest: string): string {
    if !StartsWith(rest, "//") then ""
    else match NetlocEnd(rest[2..])
      case None => rest[2..]
      case Some(j) => rest[2..2 + j]
  }

  /** `urlparse` raises `ValueError("Invalid IPv6 URL")` when the network location has an
      opening bracket without a closing one, or the reverse. */
  predicate UrlParseFails(url: string) {
    var n := Netloc(AfterScheme(Prepared(url)));
    ('[' in n) != (']' in n)
  }

  /** `urlparse(url).query`: the text after the first `?`, ignoring any fragment. Neither
      the scheme nor the network location can contain `?` or `#`, so both are found in the
      prepared string as a whole. */
  function Query(url: string): string {
    var u := Prepared(url);
    var beforeFragment := match IndexOf(u, '#') case None => u case Some(h) => u[..h];
    match IndexOf(beforeFragment, '?')
    case None => ""
    case Some(q) => beforeFragment[q + 1..]
  }

  /** `unquote(s.replace("+", " "))`, how `parse_qs` decodes names and values. */
  function FormDecode(s: string): string {
    Unquote(ReplaceChar(s, '+', ' '))
  }

  /** The first value `parse_qs` lists for `key`: fields without `=` and fields with an empty
      value are dropped, names and values are form-decoded. */
  function FirstValue(fields: seq<string>, key: string): Option<string> {
    if fields == [] then None
    else
      var f := fields[0];
      match IndexOf(f, '=')
      case None => FirstValue(fields[1..], key)
      case Some(i) =>
        if f[i + 1..] != "" && FormDecode(f[..i]) == key then Some(FormDecode(f[i + 1..]))
        else FirstValue(fields[1..], key)
  }

  /** `parse_qs(query).get(key, [""])[0]`. */
  function QueryParam(query: string, key: string): string {
    FirstValue(SplitOn(query, '&'), key).GetOr("")
  }

  // ---------- clean_google_url ----------

  /** The body of the `try` in `clean_google_url`: the `q` parameter of the redirect,
      decoded a second time; on a parse error the URL is kept. */
  function RedirectTarget(u: string): string {
    if UrlParseFails(u) then u else Unquote(QueryParam(Query(u), "q"))
  }

  /** `clean_google_url`: an empty URL gives ""; otherwise the stripped URL, unwrapped when it
      is a Google redirect, loses every trailing `/`. */
  function CleanGoogleUrl(url: string): (r: string)
    ensures url == "" ==> r == ""
  {
    if url == "" then "" else RStripChar(Unwrapped(Strip(url)), '/')
  }

  /** The stripped URL, or the target of the redirect it is. */
  function Unwrapped(u: string): string {
    if Contains(u, "google.com/url") then RedirectTarget(u) else u
  }

  /** A URL that is not a Google redirect is only stripped and loses its trailing slashes. */
  lemma CleanGoogleUrlPassThrough(url: string)
    requires !Contains(Strip(url), "google.com/url")
    ensures CleanGoogleUrl(url) == RStripChar(Strip(url), '/')
  {
  }

  /** A redirect that parses but has no non-empty `q` parameter gives "". */
  lemma CleanGoogleUrlMissingTarget(url: string)
    requires Contains(Strip(url), "google.com/url") && !UrlParseFails(Strip(url))
    requires FirstValue(SplitOn(Query(Strip(url)), '&'), "q") == None
    ensures CleanGoogleUrl(url) == ""
  {
  }

  /** A redirect that parses and has a non-empty `q` value, in whichever field, gives that
      value (already decoded once by `parse_qs`) decoded again, without trailing slashes. */
  lemma CleanGoogleUrlRedirect(url: string, w: string)
    requires Contains(Strip(url), "google.com/url") && !UrlParseFails(Strip(url))
    requires FirstValue(SplitOn(Query(Strip(url)), '&'), "q") == Some(w)
    ensures CleanGoogleUrl(url) == RStripChar(Unquote(w), '/')
  {
  }

  /** Whatever the URL and whichever path it takes, the result never ends in `/`. */
  lemma CleanGoogleUrlNoTrailingSlash(url: string)
    ensures var r := CleanGoogleUrl(url); r == [] || r[|r| - 1] != '/'
  {
    if url != "" {
      var r := RStripChar(Unwrapped(Strip(url)), '/');
      assert CleanGoogleUrl(url) == r;
    }
  }

  /** A redirect that `urlparse` refuses falls back to the stripped URL. */
  lemma CleanGoogleUrlParseError(url: string)
    requires Contains(Strip(url), "google.com/url") && UrlParseFails(Strip(url))
    ensures CleanGoogleUrl(url) == RStripChar(Strip(url), '/')
  {
  }

  // ---------- normalize_website ----------

  /** Removes one leading `http://`, or else one leading `https://`. */
  function DropScheme(u: string): (r: string)
    ensures |r| <= |u|
  {
    if StartsWith(u, "http://") then u[7..]
    else if StartsWith(u, "https://") then u[8..]
    else u
  }

  function NormalizeWebsite(url: string): (r: string)
    ensures url == "" ==> r == ""
    ensures r == [] || r[|r| - 1] != '/'
  {
    if url == "" then "" else RStripChar(DropScheme(Strip(Lower(url))), '/')
  }

  /** A normalized website is in lower case. */
  lemma NormalizedHasNoUpper(url: string)
    ensures NoUpper(NormalizeWebsite(url))
  {
    if url != "" {
      var u := Strip(Lower(url));
      StripLowerHasNoUpper(url);
      var d := DropScheme(u);
      assert d == u[|u| - |d|..];
      NoUpperSlice(u, |u| - |d|, |u|);
      NoUpperSlice(d, 0, |NormalizeWebsite(url)|);
    }
  }

  lemma StripLowerHasNoUpper(url: string)
    ensures NoUpper(Strip(Lower(url)))
  {
    var u := Strip(Lower(url));
    LowerIdempotent(url);
    StripKeeps(Lower(url), c => !IsUpper(c));
  }

  lemma NoUpperSlice(u: string, a: nat, b: nat)
    requires NoUpper(u) && a <= b <= |u|
    ensures NoUpper(u[a..b])
  {
    forall k | 0 <= k < b - a ensures !IsUpper(u[a..b][k]) {
      assert u[a..b][k] == u[a + k];
    }
  }

  /** Lower-casing and stripping in front of a scheme prefix that has no upper case and
      does not end in whitespace only touches what follows it. */
  lemma {:induction false} NormalizedAfterPrefix(p: string, h: string)
    requires |p| > 0 && NoUpper(p) && !IsSpace(p[0]) && !IsSpace(p[|p| - 1])
    ensures Strip(Lower(p + h)) == p + RStrip(Lower(h))
  {
    assert Lower(p + h) == p + Lower(h);
    assert LStrip(p + Lower(h)) == p + Lower(h);
    RStripAfter(p, Lower(h));
  }

  lemma {:induction false} RStripAfter(p: string, s: string)
    requires |p| > 0 && !IsSpace(p[|p| - 1])
    ensures RStrip(p + s) == p + RStrip(s)
    decreases |s|
  {
    if |s| > 0 {
      assert (p + s)[..|p + s| - 1] == p + s[..|s| - 1];
      RStripAfter(p, s[..|s| - 1]);
    }
  }

  lemma DropHttp(rest: string)
    ensures DropScheme("http://" + rest) == rest
  {
    assert ("http://" + rest)[..7] == "http://";
    assert ("http://" + rest)[7..] == rest;
  }

  lemma DropHttps(rest: string)
    ensures DropScheme("https://" + rest) == rest
  {
    var u := "https://" + rest;
    assert u[..7] != "http://" by { assert u[..7][4] == 's'; }
    assert u[..8] == "https://";
    assert u[8..] == rest;
  }

  lemma NormalizeHttp(h: string)
    ensures NormalizeWebsite("http://" + h) == RStripChar(RStrip(Lower(h)), '/')
  {
    var rest := RStrip(Lower(h));
    NormalizedAfterPrefix("http://", h);
    DropHttp(rest);
  }

  lemma NormalizeHttps(h: string)
    ensures NormalizeWebsite("https://" + h) == RStripChar(RStrip(Lower(h)), '/')
  {
    var rest := RStrip(Lower(h));
    NormalizedAfterPrefix("https://", h);
    DropHttps(rest);
  }

  /** For duplicate detection `http://` and `https://` are the same site. */
  lemma NormalizeWebsiteIgnoresScheme(h: string)
    ensures NormalizeWebsite("http://" + h) == NormalizeWebsite("https://" + h)
  {
    NormalizeHttp(h);
    NormalizeHttps(h);
  }

  /** A host part as normalization leaves it: non-empty, lower case, trimmed, no trailing `/`. */
  predicate PlainHost(h: string) {
    h != "" && NoUpper(h) && Trimmed(h) && h[|h| - 1] != '/'
  }

  lemma PlainHostFixed(h: string)
    requires PlainHost(h)
    ensures RStripChar(RStrip(Lower(h)), '/') == h
  {
    LowerOfNoUpper(h);
  }

  lemma PlainHostAfterHttp(h: string)
    requires PlainHost(h)
    ensures PlainHost("http://" + h)
  {
    var u := "http://" + h;
    assert u[0] == 'h';
    assert u[|u| - 1] == h[|h| - 1];
    forall k | 0 <= k < |u| ensures !IsUpper(u[k]) {
      if k >= 7 { assert u[k] == h[k - 7]; }
    }
  }

  /** Only one scheme prefix is removed: `https://http://h` normalizes to `http://h`, */
  lemma NormalizeWebsiteRemovesOneScheme(h: string)
    requires PlainHost(h)
    ensures NormalizeWebsite("https://" + ("http://" + h)) == "http://" + h
  {
    NormalizeHttps("http://" + h);
    PlainHostAfterHttp(h);
    PlainHostFixed("http://" + h);
  }

  /** which normalizes once more to `h`, */
  lemma NormalizeWebsitePlainHttp(h: string)
    requires PlainHost(h)
    ensures NormalizeWebsite("http://" + h) == h
  {
    NormalizeHttp(h);
    PlainHostFixed(h);
  }

  /** so normalization is not idempotent. */
  lemma NormalizeWebsiteNotIdempotent(h: string)
    requires PlainHost(h)
    ensures var once := NormalizeWebsite("https://" + ("http://" + h)); NormalizeWebsite(once) != once
  {
    NormalizeWebsiteRemovesOneScheme(h);
    NormalizeWebsitePlainHttp(h);
    assert |"http://" + h| != |h|;
  }

  /** A normalized website that is trimmed and no longer starts with a scheme is a fixed point. */
  lemma NormalizeWebsiteStable(url: string)
    requires Trimmed(NormalizeWebsite(url))
    requires !StartsWith(NormalizeWebsite(url), "http://")
    requires !StartsWith(NormalizeWebsite(url), "https://")
    ensures NormalizeWebsite(NormalizeWebsite(url)) == NormalizeWebsite(url)
  {
    var r := NormalizeWebsite(url);
    NormalizedHasNoUpper(url);
    LowerOfNoUpper(r);
    StripOfTrimmed(r);
  }

  // ---------- Unwrapping a redirect ----------

  const REDIRECT: string := "https://www.google.com/url?q="

  /** A `q` value as the redirect carries it: non-empty, and free of the characters that
      would end the field (`&`), start the fragment (`#`), be read as a space (`+`) or be
      deleted by `urlsplit`. */
  predicate QValue(v: string) {
    v != "" && forall k :: 0 <= k < |v| ==> !IsQueryBreak(v[k])
  }

  predicate IsQueryBreak(c: char) { c == '&' || c == '#' || c == '+' || IsUnsafe(c) }

  predicate IsTailBreak(c: char) { c == '#' || IsUnsafe(c) }

  /** What may follow the `q` field: nothing, or further `&` fields with no fragment and
      nothing `urlsplit` deletes, not ending in whitespace. */
  predicate Tail(t: string) {
    t == [] ||
    (t[0] == '&' && !IsSpace(t[|t| - 1]) && forall k :: 0 <= k < |t| ==> !IsTailBreak(t[k]))
  }

  lemma RedirectChars()
    ensures |REDIRECT| == 29 && REDIRECT[0] == 'h' && REDIRECT[28] == '='
    ensures forall k :: 0 <= k < 29 ==> !IsQueryBreak(REDIRECT[k])
  {
  }

  lemma RedirectLayout()
    ensures REDIRECT[5] == ':' && NoChar(REDIRECT[..5], ':') && IsAsciiLetter(REDIRECT[0])
    ensures forall k :: 0 <= k < 5 ==> IsSchemeChar(REDIRECT[k])
    ensures REDIRECT[6..8] == "//" && REDIRECT[22] == '/'
    ensures forall k :: 8 <= k < 22 ==> !IsNetlocEnd(REDIRECT[k]) && REDIRECT[k] != '[' && REDIRECT[k] != ']'
    ensures REDIRECT[26] == '?' && NoChar(REDIRECT[..26], '?')
    ensures REDIRECT[12..26] == "google.com/url"
    ensures REDIRECT[27..] == "q="
  {
    RedirectSchemePart();
    RedirectHostPart();
    RedirectQueryMarkPart();
    RedirectTailPart();
  }

  /** The scheme `https`, then `:`. */
  lemma RedirectSchemePart()
    ensures REDIRECT[5] == ':' && NoChar(REDIRECT[..5], ':') && IsAsciiLetter(REDIRECT[0])
    ensures forall k :: 0 <= k < 5 ==> IsSchemeChar(REDIRECT[k])
  {
  }

  /** `//`, then a host without brackets that the `/` at 22 ends. */
  lemma RedirectHostPart()
    ensures REDIRECT[6..8] == "//" && REDIRECT[22] == '/'
    ensures forall k :: 8 <= k < 22 ==> !IsNetlocEnd(REDIRECT[k]) && REDIRECT[k] != '[' && REDIRECT[k] != ']'
  {
    assert REDIRECT[6] == '/' && REDIRECT[7] == '/';
    assert |REDIRECT[6..8]| == 2;
    var host := "www.google.com";
    assert REDIRECT[8..22] == host;
    forall k | 8 <= k < 22
      ensures !IsNetlocEnd(REDIRECT[k]) && REDIRECT[k] != '[' && REDIRECT[k] != ']'
    {
      assert REDIRECT[k] == host[k - 8];
    }
  }

  /** The first `?` is at 26. */
  lemma RedirectQueryMarkPart()
    ensures REDIRECT[26] == '?' && NoChar(REDIRECT[..26], '?')
  {
  }

  /** The marker the source looks for, and the `q=` field name. */
  lemma RedirectTailPart()
    ensures REDIRECT[12..26] == "google.com/url"
    ensures REDIRECT[27..] == "q="
  {
  }

  lemma RedirectIsTrimmed(url: string, v: string, tail: string)
    requires QValue(v) && Tail(tail) && url == REDIRECT + v + tail
    requires tail == [] ==> !IsSpace(v[|v| - 1])
    ensures Strip(url) == url
  {
    RedirectChars();
    StripOfTrimmed(url);
  }

  lemma RedirectIsPrepared(url: string, v: string, tail: string)
    requires QValue(v) && Tail(tail) && url == REDIRECT + v + tail
    ensures Prepared(url) == url
    ensures '#' !in url
  {
    RedirectChars();
    assert LStripC0(url) == url;
    forall k | 0 <= k < |url| ensures !IsTailBreak(url[k]) {
      if k < 29 {
      } else if k < 29 + |v| {
        assert url[k] == v[k - 29];
      } else {
        assert url[k] == tail[k - 29 - |v|];
      }
    }
  }

  /** The redirect URL begins with the fixed prefix. */
  lemma RedirectPrefix(url: string, v: string, tail: string)
    requires url == REDIRECT + v + tail
    ensures |url| >= 29 && forall k :: 0 <= k < 29 ==> url[k] == REDIRECT[k]
  {
  }

  lemma RedirectScheme(url: string, v: string, tail: string)
    requires url == REDIRECT + v + tail
    ensures AfterScheme(url) == url[6..]
  {
    RedirectPrefix(url, v, tail);
    RedirectLayout();
    assert url[..5] == REDIRECT[..5];
    IndexOfIs(url, ':', 5);
  }

  lemma RedirectNetloc(url: string, v: string, tail: string)
    requires url == REDIRECT + v + tail
    ensures Netloc(url[6..]) == url[8..22]
    ensures '[' !in url[8..22] && ']' !in url[8..22]
  {
    RedirectPrefix(url, v, tail);
    RedirectLayout();
    var rest := url[6..];
    assert rest[..2] == REDIRECT[6..8];
    forall k | 0 <= k < 14 ensures !IsNetlocEnd(rest[2..][k]) {
      assert rest[2..][k] == REDIRECT[8 + k];
    }
    NetlocEndIs(rest[2..], 14);
    forall k | 0 <= k < 14 ensures url[8..22][k] != '[' && url[8..22][k] != ']' {
      assert url[8..22][k] == REDIRECT[8 + k];
    }
  }

  lemma RedirectParses(url: string, v: string, tail: string)
    requires QValue(v) && Tail(tail) && url == REDIRECT + v + tail
    ensures !UrlParseFails(url)
  {
    RedirectIsPrepared(url, v, tail);
    RedirectScheme(url, v, tail);
    RedirectNetloc(url, v, tail);
  }

  lemma RedirectQueryPart(url: string, v: string, tail: string)
    requires QValue(v) && Tail(tail) && url == REDIRECT + v + tail
    ensures Query(url) == "q=" + v + tail
  {
    RedirectIsPrepared(url, v, tail);
    RedirectQuestionMark(url, v, tail);
    RedirectAfterQuestionMark(url, v, tail);
  }

  lemma RedirectQuestionMark(url: string, v: string, tail: string)
    requires url == REDIRECT + v + tail
    ensures IndexOf(url, '?') == Some(26)
  {
    RedirectPrefix(url, v, tail);
    RedirectLayout();
    assert url[..26] == REDIRECT[..26];
    IndexOfIs(url, '?', 26);
  }

  lemma RedirectAfterQuestionMark(url: string, v: string, tail: string)
    requires url == REDIRECT + v + tail
    ensures url[27..] == "q=" + v + tail
  {
    RedirectLayout();
    AppendDrop(REDIRECT + v, tail, 27);
    AppendDrop(REDIRECT, v, 27);
  }

  lemma AppendDrop(a: string, b: string, n: nat)
    requires n <= |a|
    ensures (a + b)[n..] == a[n..] + b
  {
  }

  lemma RedirectIsGoogle(url: string, v: string, tail: string)
    requires url == REDIRECT + v + tail
    ensures Contains(url, "google.com/url")
  {
    RedirectLayout();
    assert url[12..][..14] == "google.com/url";
    ContainsAt(url, "google.com/url", 12);
  }

  lemma RedirectQuery(v: string, tail: string)
    requires QValue(v) && Tail(tail)
    ensures QueryParam("q=" + v + tail, "q") == Unquote(v)
  {
    var query := "q=" + v + tail;
    var field := "q=" + v;
    assert '&' !in field by {
      forall k | 0 <= k < |field| ensures field[k] != '&' {
        if k >= 2 { assert field[k] == v[k - 2]; }
      }
    }
    if tail == [] {
      assert query == field;
      assert SplitOn(query, '&') == [field];
    } else {
      IndexOfIs(query, '&', |field|);
      assert query[..|field|] == field;
      assert SplitOn(query, '&')[0] == field;
    }
    IndexOfIs(field, '=', 1);
    assert field[..1] == "q";
    assert field[2..] == v;
    assert FormDecode("q") == "q";
    assert ReplaceChar(v, '+', ' ') == v;
  }

  /** Unwrapping a Google redirect: the `q` value is percent-decoded twice (once by
      `parse_qs`, once by `unquote`) and loses its trailing slashes; other fields after it
      do not matter. */
  lemma CleanGoogleUrlUnwraps(v: string, tail: string)
    requires QValue(v) && Tail(tail)
    requires tail == [] ==> !IsSpace(v[|v| - 1])
    ensures CleanGoogleUrl(REDIRECT + v + tail) == RStripChar(Unquote(Unquote(v)), '/')
  {
    UnwrapsAt(REDIRECT + v + tail, v, tail);
  }

  lemma UnwrapsAt(url: string, v: string, tail: string)
    requires QValue(v) && Tail(tail) && url == REDIRECT + v + tail
    requires tail == [] ==> !IsSpace(v[|v| - 1])
    ensures CleanGoogleUrl(url) == RStripChar(Unquote(Unquote(v)), '/')
  {
    RedirectIsTrimmed(url, v, tail);
    RedirectParses(url, v, tail);
    RedirectQueryPart(url, v, tail);
    RedirectIsGoogle(url, v, tail);
    RedirectQuery(v, tail);
  }

  /** The same with nothing after the `q` field. */
  lemma UnwrapsAlone(v: string, target: string)
    requires QValue(v) && !IsSpace(v[|v| - 1]) && Unquote(Unquote(v)) == target
    ensures CleanGoogleUrl(REDIRECT + v) == RStripChar(target, '/')
  {
    var url := REDIRECT + v;
    assert url == REDIRECT + v + [];
    UnwrapsAt(url, v, []);
  }

  lemma EncodedIsQValue(s: string)
    requires IsAscii(s) && s != ""
    ensures QValue(PercentEncode(s)) && !IsSpace(PercentEncode(s)[|PercentEncode(s)| - 1])
  {
    var e := PercentEncode(s);
    forall k | 0 <= k < |e| ensures !IsQueryBreak(e[k]) {
      EscapeCharIsPlain(e[k]);
    }
    EscapeCharIsPlain(e[|e| - 1]);
  }

  lemma EscapeCharIsPlain(c: char)
    requires c == '%' || IsHexDigit(c)
    ensures !IsQueryBreak(c) && !IsSpace(c)
  {
  }

  /** A target percent-encoded twice comes back exactly, bar trailing slashes. */
  lemma CleanGoogleUrlDoublyEncoded(target: string)
    requires IsAscii(target) && target != ""
    ensures CleanGoogleUrl(REDIRECT + PercentEncode(PercentEncode(target))) ==
            RStripChar(target, '/')
  {
    var once := PercentEncode(target);
    UnquotePercentEncode(target);
    EncodedUnwraps(once, target);
  }

  /** A value percent-encoded once more, whose two decodings give `target`, unwraps to it. */
  lemma EncodedUnwraps(once: string, target: string)
    requires IsAscii(once) && once != "" && Unquote(once) == target
    ensures CleanGoogleUrl(REDIRECT + PercentEncode(once)) == RStripChar(target, '/')
  {
    EncodedIsQValue(once);
    UnquotePercentEncode(once);
    UnwrapsAlone(PercentEncode(once), target);
  }
}
