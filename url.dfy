/**
 * The URL functions: `su::isUrl` (an anchored recogniser for scheme, host and path),
 * `su::normalizeUrl` (prepend a default scheme), and `su::beautifyUrl` (percent-decode, drop
 * the scheme, shorten the path), together with PHP's `rawurldecode`.
 */
module Url {
  import opened Wrappers
  import opened Chars
  import opened MbString
  import opened Truncate

  /** `[a-z0-9]+://` occupies `s[a..i]`, or is empty (`i == a`). */
  predicate SchemeAt(s: string, a: nat, i: nat)
    requires a <= i <= |s|
  {
    i == a ||
    (a + 4 <= i && s[i - 3] == ':' && s[i - 2] == '/' && s[i - 1] == '/' &&
     forall k :: a <= k < i - 3 ==> IsSchemeChar(s[k]))
  }

  /** `(\w+|\w[\w\.-]*\w)` occupies `s[i..j]`: host characters, beginning and ending with a
      word character. */
  predicate HostAt(s: string, i: nat, j: nat)
    requires i <= j <= |s|
  {
    i < j && IsWord(s[i]) && IsWord(s[j - 1]) && forall k :: i <= k < j ==> IsHostChar(s[k])
  }

  /** `(\/\S*|)` occupies `s[j..e]`: nothing, or a slash followed by non-whitespace. */
  predicate PathAt(s: string, j: nat, e: nat)
    requires j <= e <= |s|
  {
    j == e || (s[j] == '/' && forall k :: j < k < e ==> !IsSpace(s[k]))
  }

  /** The language of `^([a-z0-9]+:\/\/|)(\w+|\w[\w\.-]*\w)(\/\S*|)` up to the end: `s`
      splits into a scheme, a host and a path. */
  ghost predicate UrlShape(s: string) {
    exists i: nat, j: nat :: i <= j <= |s| && SchemeAt(s, 0, i) && HostAt(s, i, j) && PathAt(s, j, |s|)
  }

  /** The length of a `[a-z0-9]+://` that starts at `a`, or 0 when there is none there. A
      shorter run of scheme characters cannot be followed by `:`, so the greedy run is the
      only candidate. */
  function SchemeLenAt(s: string, a: nat): (n: nat)
    requires a <= |s|
    ensures a + n <= |s| && SchemeAt(s, a, a + n)
  {
    var r := RunEnd(s, a, IsSchemeChar);
    if a < r && r + 3 <= |s| && s[r] == ':' && s[r + 1] == '/' && s[r + 2] == '/' then r + 3 - a
    else 0
  }

  /** A scheme that is there is found. */
  lemma SchemeLenOfScheme(s: string, a: nat, i: nat)
    requires a < i <= |s| && SchemeAt(s, a, i)
    ensures SchemeLenAt(s, a) == i - a
  {
    RunEndIs(s, a, i - 3, IsSchemeChar);
  }

  /** A scheme followed by a run of host characters that stops at neither a scheme
      character nor `:` is found by `SchemeLenAt`; without a scheme nothing is found. */
  lemma SchemeLenOfSplit(s: string, a: nat, i: nat, j: nat)
    requires a <= i < j <= |s| && SchemeAt(s, a, i)
    requires forall k :: i <= k < j ==> IsHostChar(s[k])
    requires j < |s| ==> !IsSchemeChar(s[j]) && s[j] != ':'
    ensures SchemeLenAt(s, a) == i - a
  {
    if i > a {
      SchemeLenOfScheme(s, a, i);
    } else {
      var r := RunEnd(s, a, IsSchemeChar);
      if r < j {
        assert IsHostChar(s[r]);
      } else {
        assert r == j;
      }
    }
  }

  /** A split into scheme, host and path is the one the greedy scan finds. */
  lemma SplitFound(s: string, i: nat, j: nat)
    requires i <= j <= |s| && SchemeAt(s, 0, i) && HostAt(s, i, j) && PathAt(s, j, |s|)
    ensures SchemeLenAt(s, 0) == i && RunEnd(s, i, IsHostChar) == j
  {
    SchemeLenOfSplit(s, 0, i, j);
    RunEndIs(s, i, j, IsHostChar);
  }

  /** A string of the pattern's language passes the greedy scan. */
  lemma ShapeFound(s: string)
    ensures UrlShape(s) ==>
              var n := SchemeLenAt(s, 0);
              var h := RunEnd(s, n, IsHostChar);
              HostAt(s, n, h) && PathAt(s, h, |s|)
  {
    if UrlShape(s) {
      var i: nat, j: nat :| i <= j <= |s| && SchemeAt(s, 0, i) && HostAt(s, i, j) && PathAt(s, j, |s|);
      SplitFound(s, i, j);
    }
  }

  /** The recogniser: the scheme if one is there, then the longest run of host characters,
      which must be a host, then a path. It accepts exactly the strings of the pattern's
      language. */
  function UrlBody(s: string): (r: bool)
    ensures r <==> UrlShape(s)
  {
    ShapeFound(s);
    var n := SchemeLenAt(s, 0);
    var h := RunEnd(s, n, IsHostChar);
    HostAt(s, n, h) && PathAt(s, h, |s|)
  }

  /** A split into scheme, host and path is the one the recogniser finds. */
  lemma UrlBodyOfSplit(s: string, i: nat, j: nat)
    requires i <= j <= |s| && SchemeAt(s, 0, i) && HostAt(s, i, j) && PathAt(s, j, |s|)
    ensures SchemeLenAt(s, 0) == i && RunEnd(s, i, IsHostChar) == j
    ensures UrlBody(s)
  {
    SplitFound(s, i, j);
  }

  /** `su::isUrl($s)`: the whole string is in the pattern's language, or, because without
      the `D` modifier `$` also matches before a final newline, all of it but a final
      newline is. */
  function IsUrl(s: string): (r: bool)
    ensures r <==> UrlShape(s) || (|s| > 0 && s[|s| - 1] == '\n' && UrlShape(s[..|s| - 1]))
  {
    UrlBody(s) || (|s| > 0 && s[|s| - 1] == '\n' && UrlBody(s[..|s| - 1]))
  }

  /** A host without a scheme is accepted. */
  lemma IsUrlAcceptsHost()
    ensures IsUrl("example.com")
  {
    UrlBodyOfSplit("example.com", 0, 11);
  }

  /** A single word is accepted. */
  lemma IsUrlAcceptsWord()
    ensures IsUrl("justword")
  {
    UrlBodyOfSplit("justword", 0, 8);
  }

  /** An underscore is accepted in a host. */
  lemma IsUrlAcceptsUnderscore()
    ensures IsUrl("a_b")
  {
    UrlBodyOfSplit("a_b", 0, 3);
  }

  /** A scheme, a host and a path. */
  lemma IsUrlAcceptsFull()
    ensures IsUrl("http://x.ru/a?b")
  {
    UrlBodyOfSplit("http://x.ru/a?b", 7, 11);
  }

  /** An upper-case scheme is not a scheme. */
  lemma IsUrlRejectsUpperScheme()
    ensures !IsUrl("HTTP://x.com")
  {
    RunEndIs("HTTP://x.com", 0, 0, IsSchemeChar);
    RunEndIs("HTTP://x.com", 0, 4, IsHostChar);
  }

  /** Whitespace ends the host. */
  lemma IsUrlRejectsSpace()
    ensures !IsUrl("has space")
  {
    RunEndIs("has space", 0, 3, IsSchemeChar);
    RunEndIs("has space", 0, 3, IsHostChar);
  }

  /** `[a-z0-9]+:\/\/` somewhere in `s`, the unanchored test of `su::normalizeUrl`. */
  predicate HasSchemeMarker(s: string) {
    exists k :: 0 < k && k + 3 <= |s| && IsSchemeChar(s[k - 1]) && s[k] == ':' && s[k + 1] == '/' && s[k + 2] == '/'
  }

  /** A name usable as the default scheme: `[a-z0-9]+`. */
  predicate IsSchemeName(scheme: string) {
    scheme != [] && forall k :: 0 <= k < |scheme| ==> IsSchemeChar(scheme[k])
  }

  /** `su::normalizeUrl($s, $scheme)` as written: null for a non-URL; the string itself exactly
      when `[a-z0-9]+://` occurs anywhere in it; otherwise the scheme and `://` in front. With a
      scheme name as default, the result is a URL that holds a scheme marker. */
  function NormalizeUrl(s: string, scheme: string := "http"): (r: Option<string>)
    ensures r.None? <==> !IsUrl(s)
    ensures r.Some? ==> r.value == s || r.value == scheme + "://" + s
    ensures r.Some? ==> (r.value == s <==> HasSchemeMarker(s))
    ensures r.Some? && IsSchemeName(scheme) ==> IsUrl(r.value) && HasSchemeMarker(r.value)
  {
    if !IsUrl(s) then None
    else if HasSchemeMarker(s) then Some(s)
    else
      LeadingSchemeIsMarker(s);
      PrependGivesMarker(scheme, s);
      Some(scheme + "://" + s)
  }

  /** `su::normalizeUrl` as its documentation describes it: the scheme is prepended when the
      URL does not begin with one. With a scheme name as default, the result is a URL that
      begins with a scheme. */
  function NormalizeUrlAnchored(s: string, scheme: string := "http"): (r: Option<string>)
    ensures r.None? <==> !IsUrl(s)
    ensures r.Some? ==> r.value == s || r.value == scheme + "://" + s
    ensures r.Some? ==> (r.value == s <==> SchemeLenAt(s, 0) > 0)
    ensures r.Some? && IsSchemeName(scheme) ==> IsUrl(r.value) && SchemeLenAt(r.value, 0) > 0
  {
    if !IsUrl(s) then None
    else if SchemeLenAt(s, 0) > 0 then Some(s)
    else
      PrependGivesMarker(scheme, s);
      Some(scheme + "://" + s)
  }

  /** A URL without a leading scheme gets one, and so a marker, from a scheme name. */
  lemma PrependGivesMarker(scheme: string, s: string)
    ensures IsSchemeName(scheme) && IsUrl(s) && SchemeLenAt(s, 0) == 0 ==>
              var t := scheme + "://" + s;
              IsUrl(t) && SchemeLenAt(t, 0) > 0 && HasSchemeMarker(t)
  {
    if IsSchemeName(scheme) && IsUrl(s) && SchemeLenAt(s, 0) == 0 {
      PrependKeepsUrl(scheme, s);
      LeadingSchemeIsMarker(scheme + "://" + s);
    }
  }

  /** A leading scheme is in particular a scheme somewhere. */
  lemma LeadingSchemeIsMarker(s: string)
    ensures SchemeLenAt(s, 0) > 0 ==> HasSchemeMarker(s)
  {
    if SchemeLenAt(s, 0) > 0 {
      var k := SchemeLenAt(s, 0) - 3;
      assert IsSchemeChar(s[k - 1]) && s[k] == ':';
    }
  }

  /** A host and a path stay a host and a path behind any prefix. */
  lemma HostPathAfter(pre: string, b: string, h: nat)
    requires h <= |b| && HostAt(b, 0, h) && PathAt(b, h, |b|)
    ensures HostAt(pre + b, |pre|, |pre| + h) && PathAt(pre + b, |pre| + h, |pre + b|)
  {
    var t := pre + b;
    assert forall k :: |pre| <= k < |t| ==> t[k] == b[k - |pre|];
  }

  /** A scheme name and `://` in front of anything are a scheme. */
  lemma SchemeInFront(scheme: string, b: string)
    requires IsSchemeName(scheme)
    ensures SchemeAt(scheme + "://" + b, 0, |scheme| + 3)
  {
    var t := scheme + "://" + b;
    assert forall k :: 0 <= k < |scheme| ==> t[k] == scheme[k];
  }

  /** A URL without a scheme stays one with a scheme in front, and that scheme is found. */
  lemma PrependScheme(scheme: string, b: string)
    requires IsSchemeName(scheme) && UrlBody(b) && SchemeLenAt(b, 0) == 0
    ensures var t := scheme + "://" + b; UrlBody(t) && SchemeLenAt(t, 0) == |scheme| + 3
  {
    var pre := scheme + "://";
    var h := RunEnd(b, 0, IsHostChar);
    HostPathAfter(pre, b, h);
    SchemeInFront(scheme, b);
    assert pre + b == scheme + "://" + b;
    UrlBodyOfSplit(pre + b, |pre|, |pre| + h);
  }

  /** A newline after a URL does not change the scheme that is found. */
  lemma SchemeBeforeNewline(b: string)
    requires UrlBody(b)
    ensures SchemeLenAt(b + "\n", 0) == SchemeLenAt(b, 0)
  {
    var s := b + "\n";
    var n := SchemeLenAt(b, 0);
    var h := RunEnd(b, n, IsHostChar);
    assert forall k :: 0 <= k < |b| ==> s[k] == b[k];
    assert SchemeAt(s, 0, n);
    SchemeLenOfSplit(s, 0, n, h);
  }

  /** Prepending a scheme to a URL that does not start with one gives a URL that does. */
  lemma PrependKeepsUrl(scheme: string, s: string)
    requires IsSchemeName(scheme) && IsUrl(s) && SchemeLenAt(s, 0) == 0
    ensures IsUrl(scheme + "://" + s) && SchemeLenAt(scheme + "://" + s, 0) == |scheme| + 3
  {
    if UrlBody(s) {
      PrependScheme(scheme, s);
    } else {
      PrependBeforeNewline(scheme, s);
    }
  }

  /** The same for a URL followed by the newline that `$` lets through. */
  lemma PrependBeforeNewline(scheme: string, s: string)
    requires IsSchemeName(scheme) && |s| > 0 && s[|s| - 1] == '\n'
    requires UrlBody(s[..|s| - 1]) && SchemeLenAt(s, 0) == 0
    ensures var t := scheme + "://" + s; IsUrl(t) && SchemeLenAt(t, 0) == |scheme| + 3
  {
    var b := s[..|s| - 1];
    assert s == b + "\n";
    SchemeBeforeNewline(b);
    PrependScheme(scheme, b);
    var tb := scheme + "://" + b;
    var t := scheme + "://" + s;
    assert t == tb + "\n";
    assert t[..|t| - 1] == tb;
    SchemeBeforeNewline(tb);
  }

  /** `su::normalizeUrl` as written answers null exactly for non-URLs, and with a scheme name
      as default its result is a URL that contains a scheme and that normalises to itself. */
  lemma NormalizeUrlProperties(s: string, scheme: string)
    requires IsSchemeName(scheme)
    ensures NormalizeUrl(s, scheme).None? <==> !IsUrl(s)
    ensures NormalizeUrl(s, scheme).Some? ==>
              var t := NormalizeUrl(s, scheme).value;
              IsUrl(t) && HasSchemeMarker(t) && NormalizeUrl(t, scheme) == Some(t)
  {
    if IsUrl(s) && !HasSchemeMarker(s) {
      NormalizeUrlPrepends(s, scheme);
    }
  }

  /** A URL without a scheme marker gets the scheme in front, and the result has one. */
  lemma NormalizeUrlPrepends(s: string, scheme: string)
    requires IsSchemeName(scheme) && IsUrl(s) && !HasSchemeMarker(s)
    ensures var t := scheme + "://" + s;
            NormalizeUrl(s, scheme) == Some(t) && IsUrl(t) && HasSchemeMarker(t) &&
            NormalizeUrl(t, scheme) == Some(t)
  {
    LeadingSchemeIsMarker(s);
    PrependKeepsUrl(scheme, s);
    MarkedIsFixed(scheme + "://" + s, scheme);
  }

  /** A URL beginning with a scheme holds a marker, so normalising it changes nothing. */
  lemma MarkedIsFixed(t: string, scheme: string)
    requires IsUrl(t) && SchemeLenAt(t, 0) > 0
    ensures HasSchemeMarker(t) && NormalizeUrl(t, scheme) == Some(t)
  {
    LeadingSchemeIsMarker(t);
  }

  /** The documented behaviour: null exactly for non-URLs; otherwise a URL that begins with
      a scheme, is the input when that already did, and normalises to itself. */
  lemma NormalizeUrlAnchoredProperties(s: string, scheme: string)
    requires IsSchemeName(scheme)
    ensures NormalizeUrlAnchored(s, scheme).None? <==> !IsUrl(s)
    ensures NormalizeUrlAnchored(s, scheme).Some? ==>
              var t := NormalizeUrlAnchored(s, scheme).value;
              IsUrl(t) && SchemeLenAt(t, 0) > 0 &&
              (SchemeLenAt(s, 0) > 0 ==> t == s) &&
              (SchemeLenAt(s, 0) == 0 ==> t == scheme + "://" + s) &&
              NormalizeUrlAnchored(t, scheme) == Some(t)
  {
    if IsUrl(s) && SchemeLenAt(s, 0) == 0 {
      PrependKeepsUrl(scheme, s);
    }
  }

  /** The URL of the example below: a host and a path whose query holds `a://`. */
  lemma SchemeInQueryShape(s: string)
    requires s == "x.com/?u=a://b"
    ensures IsUrl(s) && SchemeLenAt(s, 0) == 0 && HasSchemeMarker(s)
  {
    SchemeInQueryIsUrl(s);
    SchemeInQueryMarker(s);
  }

  lemma SchemeInQueryIsUrl(s: string)
    requires s == "x.com/?u=a://b"
    ensures IsUrl(s) && SchemeLenAt(s, 0) == 0
  {
    assert HostAt(s, 0, 5);
    assert PathAt(s, 5, |s|);
    UrlBodyOfSplit(s, 0, 5);
  }

  lemma SchemeInQueryMarker(s: string)
    requires s == "x.com/?u=a://b"
    ensures HasSchemeMarker(s)
  {
    assert IsSchemeChar(s[9]) && s[10] == ':' && s[11] == '/' && s[12] == '/';
  }

  /** The unanchored test as written: a `://` in the query string counts as a scheme, so a
      URL without a scheme is returned without one. */
  lemma NormalizeUrlSchemeInQuery(s: string)
    requires s == "x.com/?u=a://b"
    ensures NormalizeUrl(s) == Some(s) && SchemeLenAt(s, 0) == 0
  {
    SchemeInQueryShape(s);
  }

  /** The documented behaviour puts the default scheme in front of the same URL. */
  lemma NormalizeUrlAnchoredSchemeInQuery(s: string)
    requires s == "x.com/?u=a://b"
    ensures NormalizeUrlAnchored(s) == Some("http" + "://" + s)
  {
    SchemeInQueryShape(s);
  }

  /** The value of the escape `%XY`. */
  function EscapeValue(x: char, y: char): (c: char)
    requires IsHexDigit(x) && IsHexDigit(y)
    ensures c as int < 256
  {
    (16 * HexValue(x) + HexValue(y)) as char
  }

  /** PHP's `rawurldecode`: each `%` followed by two hexadecimal digits becomes the
      character of that code; everything else, `+` included, is kept. */
  function RawUrlDecode(s: string): (r: string)
    ensures |r| <= |s|
    decreases |s|
  {
    if |s| == 0 then []
    else if s[0] == '%' && 3 <= |s| && IsHexDigit(s[1]) && IsHexDigit(s[2]) then
      [EscapeValue(s[1], s[2])] + RawUrlDecode(s[3..])
    else [s[0]] + RawUrlDecode(s[1..])
  }

  /** Text without `%` is decoded to itself. */
  lemma {:induction false} DecodeKeepsPlain(a: string, b: string)
    requires '%' !in a
    ensures RawUrlDecode(a + b) == a + RawUrlDecode(b)
    decreases |a|
  {
    if a == [] {
      assert a + b == b;
    } else {
      var c, t := a[0], a[1..];
      assert a == [c] + t;
      assert a + b == [c] + (t + b);
      DecodeCons(c, t + b);
      DecodeKeepsPlain(t, b);
      var x := RawUrlDecode(b);
      assert [c] + (t + x) == a + x;
    }
  }

  lemma DecodeCons(c: char, t: string)
    requires c != '%'
    ensures RawUrlDecode([c] + t) == [c] + RawUrlDecode(t)
  {
    assert ([c] + t)[1..] == t;
  }

  /** The upper-case hexadecimal digit of `n`, as `rawurlencode` writes it. */
  function HexDigitOf(n: nat): (c: char)
    requires n < 16
    ensures IsHexDigit(c) && HexValue(c) == n
  {
    if n < 10 then ('0' as int + n) as char else ('A' as int + n - 10) as char
  }

  /** The characters `rawurlencode` leaves alone: `[A-Za-z0-9_.~-]`. */
  predicate IsUnreserved(c: char) {
    ('a' <= c <= 'z') || ('A' <= c <= 'Z') || ('0' <= c <= '9') || c == '_' || c == '.' || c == '~' || c == '-'
  }

  /** PHP's `rawurlencode` on a string of bytes: the inverse `rawurldecode` undoes. */
  function RawUrlEncode(s: string): string
    requires forall k :: 0 <= k < |s| ==> s[k] as int < 256
  {
    if s == [] then []
    else
      var c := s[0];
      (if IsUnreserved(c) then [c] else ['%', HexDigitOf(c as int / 16), HexDigitOf(c as int % 16)])
      + RawUrlEncode(s[1..])
  }

  /** Decoding an encoded string of bytes gives the string back. */
  lemma {:induction false} DecodeEncode(s: string)
    requires forall k :: 0 <= k < |s| ==> s[k] as int < 256
    ensures RawUrlDecode(RawUrlEncode(s)) == s
  {
    if s != [] {
      var c := s[0];
      var rest := RawUrlEncode(s[1..]);
      DecodeEncode(s[1..]);
      if IsUnreserved(c) {
        assert RawUrlEncode(s) == [c] + rest;
        assert ([c] + rest)[1..] == rest;
      } else {
        var e := ['%', HexDigitOf(c as int / 16), HexDigitOf(c as int % 16)];
        assert RawUrlEncode(s) == e + rest;
        assert (e + rest)[3..] == rest;
        assert EscapeValue(e[1], e[2]) == c;
      }
    }
  }

  /** `[^\/]`. */
  predicate NotSlash(c: char) { c != '/' }

  /** `.` without the `s` modifier: anything but a newline. */
  predicate NotNewline(c: char) { c != '\n' }

  /** What the callback of `su::beautifyUrl` puts in place of the rest after the host: nothing
      when it is a single character, otherwise the rest shortened to `len` by the library's
      `shorten`, or, when `fixed` is set, by the corrected `Truncate.ShortenFixed`. */
  function BeautifyTail(rest: string, len: int, fixed: bool): (r: string)
    ensures |rest| == 1 ==> r == []
    ensures |rest| != 1 && |rest| <= Widen(len, 3) ==> r == rest
    ensures fixed && 0 <= len ==> |r| <= Widen(len, 3)
  {
    if |rest| == 1 then [] else if fixed then ShortenFixed(rest, len) else Shorten(rest, len)
  }

  /** The global replacement `/([a-z0-9]+:\/\/|)([^\/]+)(.*)/` of `su::beautifyUrl` from
      position `i` on. At each position the scheme alternative is tried first and given up
      when no `[^\/]` follows it; `[^\/]+` and `.*` are greedy and never need to give back
      characters; where the pattern does not match the character is kept and the search
      moves on by one. Each match is replaced by its host followed by `BeautifyTail`. */
  function BeautifyFrom(d: string, i: nat, len: int, fixed: bool): string
    requires i <= |d|
    decreases |d| - i
  {
    if i == |d| then []
    else
      var n := SchemeLenAt(d, i);
      var start := if n > 0 && i + n < |d| && d[i + n] != '/' then i + n else i;
      if d[start] == '/' then [d[i]] + BeautifyFrom(d, i + 1, len, fixed)
      else
        var h := RunEnd(d, start, NotSlash);
        var e := RunEnd(d, h, NotNewline);
        d[start..h] + BeautifyTail(d[h..e], len, fixed) + BeautifyFrom(d, e, len, fixed)
  }

  /** `su::beautifyUrl($s, $len)`: null for a non-URL, otherwise the decoded URL with its
      scheme removed and its path shortened. With `fixed` the path is shortened by the
      corrected `shorten`. */
  function BeautifyUrl(s: string, len: int := 15, fixed: bool := false): (r: Option<string>)
    ensures r.None? <==> !IsUrl(s)
  {
    if !IsUrl(s) then None else Some(BeautifyFrom(RawUrlDecode(s), 0, len, fixed))
  }

  /** On a decoded URL whose path holds no newline the replacement matches once, from the
      start to the end: the scheme alternative, the host up to the first `/`, the rest. */
  lemma BeautifyFromUrl(d: string, i: nat, j: nat, len: int, fixed: bool)
    requires i < j <= |d| && SchemeAt(d, 0, i)
    requires forall k :: i <= k < j ==> IsHostChar(d[k])
    requires j < |d| ==> d[j] == '/'
    requires forall k :: j <= k < |d| ==> d[k] != '\n'
    ensures BeautifyFrom(d, 0, len, fixed) == d[i..j] + BeautifyTail(d[j..], len, fixed)
  {
    SchemeLenOfSplit(d, 0, i, j);
    RunEndIs(d, i, j, NotSlash);
    RunEndIs(d, j, |d|, NotNewline);
    assert NotSlash(d[i]);
    BeautifyFromOnce(d, i, j, len, fixed);
  }

  /** The single match, once its three boundaries are known. */
  lemma BeautifyFromOnce(d: string, i: nat, j: nat, len: int, fixed: bool)
    requires i < j <= |d| && SchemeLenAt(d, 0) == i && d[i] != '/'
    requires RunEnd(d, i, NotSlash) == j && RunEnd(d, j, NotNewline) == |d|
    ensures BeautifyFrom(d, 0, len, fixed) == d[i..j] + BeautifyTail(d[j..], len, fixed)
  {
    var x, y := d[i..j], BeautifyTail(d[j..|d|], len, fixed);
    assert d[j..|d|] == d[j..];
    assert BeautifyFrom(d, 0, len, fixed) == x + y + BeautifyFrom(d, |d|, len, fixed);
    assert x + y + [] == x + y;
  }

  /** Scheme and host hold no `%`, so decoding a URL decodes its path only; a path still
      begins with `/` after decoding. */
  lemma DecodeUrl(s: string, j: nat)
    requires j <= |s| && PathAt(s, j, |s|)
    requires forall k :: 0 <= k < j ==> s[k] != '%'
    ensures RawUrlDecode(s) == s[..j] + RawUrlDecode(s[j..])
    ensures j < |s| ==> RawUrlDecode(s[j..]) != [] && RawUrlDecode(s[j..])[0] == '/'
  {
    assert s == s[..j] + s[j..];
    assert '%' !in s[..j];
    DecodeKeepsPlain(s[..j], s[j..]);
    if j < |s| {
      assert s[j..][0] == '/';
    }
  }

  /** Scheme and host hold no `%`. */
  lemma SchemeHostPlain(s: string, i: nat, j: nat)
    requires i <= j <= |s| && SchemeAt(s, 0, i) && HostAt(s, i, j)
    ensures forall k :: 0 <= k < j ==> s[k] != '%'
  {
  }

  /** A scheme depends only on the characters up to its end. */
  lemma SchemeAtPrefix(s: string, d: string, i: nat, j: nat)
    requires i <= j <= |s| && j <= |d| && s[..j] == d[..j] && SchemeAt(s, 0, i)
    ensures SchemeAt(d, 0, i)
  {
    assert forall k :: 0 <= k < j ==> d[k] == s[k] by {
      forall k | 0 <= k < j ensures d[k] == s[k] {
        assert d[..j][k] == s[..j][k];
      }
    }
  }

  /** The decoded URL meets the conditions of `BeautifyFromUrl`. */
  lemma DecodedUrlShape(s: string, i: nat, j: nat)
    requires i <= j <= |s| && SchemeAt(s, 0, i) && HostAt(s, i, j) && PathAt(s, j, |s|)
    requires forall k :: 0 <= k < |RawUrlDecode(s[j..])| ==> RawUrlDecode(s[j..])[k] != '\n'
    ensures var d := RawUrlDecode(s);
            j <= |d| && SchemeAt(d, 0, i) && (forall k :: i <= k < j ==> IsHostChar(d[k])) &&
            (j < |d| ==> d[j] == '/') && (forall k :: j <= k < |d| ==> d[k] != '\n') &&
            d[i..j] == s[i..j] && d[j..] == RawUrlDecode(s[j..])
  {
    SchemeHostPlain(s, i, j);
    DecodeUrl(s, j);
    var p := RawUrlDecode(s[j..]);
    var d := RawUrlDecode(s);
    assert d[..j] == s[..j];
    SchemeAtPrefix(s, d, i, j);
    assert forall k :: i <= k < j ==> d[k] == s[k] by {
      forall k | i <= k < j ensures d[k] == s[k] {
        assert d[..j][k] == s[..j][k];
      }
    }
    assert d[j..] == p;
    assert forall k :: j <= k < |d| ==> d[k] == p[k - j];
  }

  /** For a URL `scheme + host + path` whose decoded path holds no newline the result is the
      host in full followed by the shortened decoded path; the scheme is gone, and a path of
      exactly `/` is dropped. With the corrected `shorten` the path part is at most `len`
      long (or the widened limit). */
  lemma BeautifyUrlParts(s: string, len: int, i: nat, j: nat, fixed: bool)
    requires i <= j <= |s| && SchemeAt(s, 0, i) && HostAt(s, i, j) && PathAt(s, j, |s|)
    requires forall k :: 0 <= k < |RawUrlDecode(s[j..])| ==> RawUrlDecode(s[j..])[k] != '\n'
    ensures BeautifyUrl(s, len, fixed) == Some(s[i..j] + BeautifyTail(RawUrlDecode(s[j..]), len, fixed))
    ensures fixed && 0 <= len ==> |BeautifyTail(RawUrlDecode(s[j..]), len, fixed)| <= Widen(len, 3)
  {
    UrlBodyOfSplit(s, i, j);
    DecodedUrlShape(s, i, j);
    BeautifyFromUrl(RawUrlDecode(s), i, j, len, fixed);
  }

  /** With a limit of 2, 3 or at least 5 (the default 15 among them) the library's `shorten`
      and the corrected one shorten the path alike, so the two versions of `beautifyUrl`
      agree, and the path part stays within the widened limit. */
  lemma BeautifyUrlFixedAgrees(s: string, len: int, i: nat, j: nat)
    requires i <= j <= |s| && SchemeAt(s, 0, i) && HostAt(s, i, j) && PathAt(s, j, |s|)
    requires forall k :: 0 <= k < |RawUrlDecode(s[j..])| ==> RawUrlDecode(s[j..])[k] != '\n'
    requires len == 2 || len == 3 || len >= 5
    ensures BeautifyUrl(s, len) == BeautifyUrl(s, len, true)
    ensures |BeautifyTail(RawUrlDecode(s[j..]), len, false)| <= Widen(len, 3)
  {
    BeautifyUrlParts(s, len, i, j, false);
    BeautifyUrlParts(s, len, i, j, true);
    var p := RawUrlDecode(s[j..]);
    if |p| != 1 {
      ShortenFixedAgrees(p, len, "...");
    }
  }

  /** How `scheme://host/` splits. */
  lemma SchemeHostSlash(scheme: string, host: string)
    requires IsSchemeName(scheme) && HostAt(host, 0, |host|)
    ensures var s := scheme + "://" + host + "/"; var m := |scheme| + 3;
            m + |host| < |s| && SchemeAt(s, 0, m) && HostAt(s, m, m + |host|) &&
            PathAt(s, m + |host|, |s|) && s[m + |host|..] == "/" && s[m..m + |host|] == host
  {
    var pre := scheme + "://";
    var s := pre + host + "/";
    var m := |pre|;
    assert forall k :: 0 <= k < |host| ==> s[m + k] == host[k];
    SchemeInFront(scheme, host + "/");
    assert pre + (host + "/") == s;
    assert s[m..m + |host|] == host;
  }

  /** So `scheme://host/` becomes `host`: the scheme is removed and a lone `/` dropped, with
      either `shorten`. */
  lemma BeautifyUrlDropsSchemeAndSlash(scheme: string, host: string, len: int, fixed: bool)
    requires IsSchemeName(scheme) && HostAt(host, 0, |host|)
    ensures BeautifyUrl(scheme + "://" + host + "/", len, fixed) == Some(host)
  {
    var s := scheme + "://" + host + "/";
    var m := |scheme| + 3;
    SchemeHostSlash(scheme, host);
    var t := RawUrlDecode(s[m + |host|..]);
    assert RawUrlDecode("/") == "/";
    assert t == "/";
    assert BeautifyTail(t, len, fixed) == [];
    BeautifyUrlParts(s, len, m, m + |host|, fixed);
    assert BeautifyUrl(s, len, fixed) == Some(s[m..m + |host|] + BeautifyTail(t, len, fixed));
    assert s[m..m + |host|] + BeautifyTail(t, len, fixed) == host;
  }

  /** A bare host is returned as it is (with the default limit), with either `shorten`. */
  lemma BeautifyUrlKeepsHost(host: string, fixed: bool)
    requires HostAt(host, 0, |host|)
    ensures BeautifyUrl(host, 15, fixed) == Some(host)
  {
    var t := RawUrlDecode(host[|host|..]);
    assert host[|host|..] == [];
    assert t == [];
    assert BeautifyTail(t, 15, fixed) == [];
    BeautifyUrlParts(host, 15, 0, |host|, fixed);
    assert BeautifyUrl(host, 15, fixed) == Some(host[0..|host|] + BeautifyTail(t, 15, fixed));
    assert host[0..|host|] + BeautifyTail(t, 15, fixed) == host;
  }

  /** With a limit of 4 the library's `shorten` has a budget of one and keeps the whole path
      after the glue, so a URL whose decoded path is longer than 4 comes out longer than
      host and path together; the corrected `shorten` keeps `/...`. */
  lemma BeautifyUrlLimitFourOvershoots(s: string, i: nat, j: nat)
    requires i <= j <= |s| && SchemeAt(s, 0, i) && HostAt(s, i, j) && PathAt(s, j, |s|)
    requires forall k :: 0 <= k < |RawUrlDecode(s[j..])| ==> RawUrlDecode(s[j..])[k] != '\n'
    requires |RawUrlDecode(s[j..])| > 4
    ensures BeautifyUrl(s, 4) == Some(s[i..j] + ("/..." + RawUrlDecode(s[j..])))
    ensures BeautifyUrl(s, 4, true) == Some(s[i..j] + "/...")
  {
    DecodedPathAtFour(s, i, j);
    BeautifyUrlParts(s, 4, i, j, false);
    BeautifyUrlParts(s, 4, i, j, true);
  }

  /** The decoded path of such a URL begins with `/`, so it is shortened as below. */
  lemma DecodedPathAtFour(s: string, i: nat, j: nat)
    requires i <= j <= |s| && SchemeAt(s, 0, i) && HostAt(s, i, j) && PathAt(s, j, |s|)
    requires |RawUrlDecode(s[j..])| > 4
    ensures BeautifyTail(RawUrlDecode(s[j..]), 4, false) == "/..." + RawUrlDecode(s[j..])
    ensures BeautifyTail(RawUrlDecode(s[j..]), 4, true) == "/..."
  {
    assert RawUrlDecode([]) == [];
    assert j < |s|;
    SchemeHostPlain(s, i, j);
    DecodeUrl(s, j);
    PathShortenedAtFour(RawUrlDecode(s[j..]));
  }

  /** A budget of one: `shorten` keeps `/`, the glue and the whole path again. */
  lemma PathShortenedAtFour(p: string)
    requires |p| > 4 && p[0] == '/'
    ensures BeautifyTail(p, 4, false) == "/..." + p
    ensures BeautifyTail(p, 4, true) == "/..."
  {
    ShortenBudgetOne(p);
    assert p[..1] + "..." == "/...";
  }
}
