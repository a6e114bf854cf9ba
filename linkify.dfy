/**
 * `su::parseUrls`: a global search and replace over free text with the pattern
 *   (?<=\s|^)([a-z0-9]+:\/\/|)([\w\.-]+\.\w+)(\/\S*[^\.\!\?\,\s]|)(?!@)(?=[\s\.\!\?\,\s]|$)
 * (Unicode mode), each match handed to a callback. The matcher below tries the pattern's
 * alternatives and quantifier lengths in the order a backtracking engine does. The default
 * callback turns a match into an HTML link.
 */
module Linkify {
  import opened Wrappers
  import opened Chars
  import opened MbString
  import opened Url

  /** `(?!@)(?=[\s\.\!\?\,\s]|$)` at `e`. The negative lookahead adds nothing: `@` is not in the
      class. `$` before a final newline is covered by `\s`. */
  predicate TailOk(s: string, e: nat)
    requires e <= |s|
  {
    e == |s| || IsSpace(s[e]) || IsPunct(s[e])
  }

  /** `\S`. */
  predicate NotSpace(c: char) { !IsSpace(c) }

  /** `[^\.\!\?\,\s]`, the last character of a path. */
  predicate IsPathEnd(c: char) { !IsSpace(c) && !IsPunct(c) }

  /** `(\/\S*[^\.\!\?\,\s]|)` occupies `s[j..e]`. */
  predicate LinkPathAt(s: string, j: nat, e: nat)
    requires j <= e <= |s|
  {
    j == e || (j + 2 <= e && s[j] == '/' && (forall k :: j < k < e ==> !IsSpace(s[k])) && IsPathEnd(s[e - 1]))
  }

  /** The end of a host from its last dot on: `\.\w+` at `dot`, ending at `hostEnd`, then a
      path up to `end`, then the lookaheads. */
  predicate DotWordPath(s: string, dot: nat, hostEnd: nat, end: nat) {
    dot + 2 <= hostEnd <= end <= |s| && s[dot] == '.' &&
    (forall k :: dot < k < hostEnd ==> IsWord(s[k])) &&
    LinkPathAt(s, hostEnd, end) && TailOk(s, end)
  }

  /** Where a match's parts lie: it runs from `start` to `end`, its host from `host` to
      `hostEnd`, and `dot` is the dot the `\.\w+` of the pattern matched. */
  datatype Span = Span(start: nat, host: nat, dot: nat, hostEnd: nat, end: nat)

  /** Everything the pattern demands of a match at `m`. */
  predicate ValidMatch(s: string, m: Span) {
    m.start <= m.host < m.dot && DotWordPath(s, m.dot, m.hostEnd, m.end) &&
    (m.start == 0 || IsSpace(s[m.start - 1])) &&
    SchemeAt(s, m.start, m.host) &&
    (forall k :: m.host <= k < m.dot ==> IsHostChar(s[k]))
  }

  /** `\S*[^\.\!\?\,\s]` after the slash at `w` and then the lookaheads, with `\S*` ending at
      `m` and giving back one character at a time. */
  function PathSearch(s: string, w: nat, m: nat): (e: Option<nat>)
    requires w < m <= |s| && s[w] == '/'
    requires forall k :: w < k < m ==> !IsSpace(s[k])
    ensures e.Some? ==> w + 2 <= e.value <= m + 1 && e.value <= |s| && LinkPathAt(s, w, e.value) && TailOk(s, e.value)
    decreases m
  {
    if m < |s| && IsPathEnd(s[m]) && TailOk(s, m + 1) then Some(m + 1)
    else if m == w + 1 then None
    else PathSearch(s, w, m - 1)
  }

  /** After the host ends at `w`: the path alternative, then the empty one. */
  function AfterHost(s: string, w: nat): (e: Option<nat>)
    requires w <= |s|
    ensures e.Some? ==> w <= e.value <= |s| && LinkPathAt(s, w, e.value) && TailOk(s, e.value)
  {
    var path := if w < |s| && s[w] == '/' then PathSearch(s, w, RunEnd(s, w + 1, NotSpace)) else None;
    if path.Some? then path
    else if TailOk(s, w) then Some(w)
    else None
  }

  /** What is matched from the last dot on. */
  datatype HostMatch = HostMatch(dot: nat, hostEnd: nat, end: nat)

  /** `\w+` after the dot at `d`, ending at `w` and giving back one character at a time,
      then the rest of the pattern. */
  function WordSearch(s: string, d: nat, w: nat): (r: Option<HostMatch>)
    requires d + 2 <= w <= |s| && s[d] == '.'
    requires forall k :: d < k < w ==> IsWord(s[k])
    ensures r.Some? ==> r.value.dot == d && r.value.hostEnd <= w &&
                        DotWordPath(s, d, r.value.hostEnd, r.value.end)
    decreases w
  {
    match AfterHost(s, w)
    case Some(e) => Some(HostMatch(d, w, e))
    case None => if w == d + 2 then None else WordSearch(s, d, w - 1)
  }

  /** `[\w\.-]+` from `h`, ending at `k` and giving back one character at a time, then
      `\.\w+` and the rest of the pattern. */
  function DotSearch(s: string, h: nat, k: nat): (r: Option<HostMatch>)
    requires h < k <= |s|
    ensures r.Some? ==> h < r.value.dot <= k && DotWordPath(s, r.value.dot, r.value.hostEnd, r.value.end)
    decreases k
  {
    var found :=
      if k + 1 < |s| && s[k] == '.' && IsWord(s[k + 1]) then WordSearch(s, k, RunEnd(s, k + 1, IsWord))
      else None;
    if found.Some? then found
    else if k == h + 1 then None
    else DotSearch(s, h, k - 1)
  }

  /** `([\w\.-]+\.\w+)(\/\S*[^\.\!\?\,\s]|)(?!@)(?=...)` from `h`. */
  function HostSearch(s: string, h: nat): (r: Option<HostMatch>)
    requires h <= |s|
    ensures r.Some? ==> DotWordPath(s, r.value.dot, r.value.hostEnd, r.value.end) && h < r.value.dot &&
                        (forall i :: h <= i < r.value.dot ==> IsHostChar(s[i]))
  {
    var k := RunEnd(s, h, IsHostChar);
    if k == h then None else DotSearch(s, h, k)
  }

  /** The pattern at `q`: the lookbehind, then the scheme alternative, and the empty one when
      the rest of the pattern fails after a scheme. A shorter run of scheme characters is
      never followed by `:`, so `[a-z0-9]+` has nothing to give back. */
  function MatchAt(s: string, q: nat): (r: Option<Span>)
    requires q <= |s|
    ensures r.Some? ==> r.value.start == q && ValidMatch(s, r.value)
  {
    if q > 0 && !IsSpace(s[q - 1]) then None
    else
      var n := SchemeLenAt(s, q);
      var withScheme := if n > 0 then HostSearch(s, q + n) else None;
      if withScheme.Some? then
        var hm := withScheme.value;
        Some(Span(q, q + n, hm.dot, hm.hostEnd, hm.end))
      else
        match HostSearch(s, q)
        case Some(hm) => Some(Span(q, q, hm.dot, hm.hostEnd, hm.end))
        case None => None
  }

  /** The search for the end of a path misses no end that the pattern allows. */
  lemma {:induction false} PathSearchComplete(s: string, w: nat, m: nat, e: nat)
    requires w < m <= |s| && s[w] == '/'
    requires forall k :: w < k < m ==> !IsSpace(s[k])
    requires w + 2 <= e <= m + 1 && e <= |s| && IsPathEnd(s[e - 1]) && TailOk(s, e)
    ensures PathSearch(s, w, m).Some?
    decreases m
  {
    if e <= m && !(m < |s| && IsPathEnd(s[m]) && TailOk(s, m + 1)) {
      PathSearchComplete(s, w, m - 1, e);
    }
  }

  /** Whenever a path (or none) and the lookaheads fit after the host, one is found. */
  lemma AfterHostComplete(s: string, w: nat, e: nat)
    requires w <= e <= |s| && LinkPathAt(s, w, e) && TailOk(s, e)
    ensures AfterHost(s, w).Some?
  {
    if e > w {
      var m := RunEnd(s, w + 1, NotSpace);
      RunEndCovers(s, w + 1, e, NotSpace);
      PathSearchComplete(s, w, m, e);
    }
  }

  /** A fitting `\.\w+` tail at `d` is found by the first length tried: what follows `\w+` is
      a slash, whitespace, punctuation or the end, so the greedy run stops at `hostEnd`. */
  lemma WordAtDot(s: string, d: nat, hostEnd: nat, end: nat)
    requires DotWordPath(s, d, hostEnd, end)
    ensures d + 1 < |s| && IsWord(s[d + 1])
    ensures WordSearch(s, d, RunEnd(s, d + 1, IsWord)).Some?
  {
    assert hostEnd < |s| ==> !IsWord(s[hostEnd]) by {
      if hostEnd < |s| {
        assert s[hostEnd] == '/' || IsSpace(s[hostEnd]) || IsPunct(s[hostEnd]);
      }
    }
    RunEndIs(s, d + 1, hostEnd, IsWord);
    AfterHostComplete(s, hostEnd, end);
  }

  /** The search over the lengths of `[\w\.-]+` misses no dot after which the rest fits. */
  lemma {:induction false} DotSearchComplete(s: string, h: nat, k: nat, d: nat, hostEnd: nat, end: nat)
    requires h < d <= k <= |s| && DotWordPath(s, d, hostEnd, end)
    ensures DotSearch(s, h, k).Some?
    decreases k
  {
    if k == d {
      WordAtDot(s, d, hostEnd, end);
    } else {
      DotSearchComplete(s, h, k - 1, d, hostEnd, end);
    }
  }

  /** A host and the rest of the pattern that fit at `h` are found. */
  lemma HostSearchComplete(s: string, h: nat, d: nat, hostEnd: nat, end: nat)
    requires h < d && DotWordPath(s, d, hostEnd, end)
    requires forall i :: h <= i < d ==> IsHostChar(s[i])
    ensures HostSearch(s, h).Some?
  {
    RunEndCovers(s, h, d + 1, IsHostChar);
    DotSearchComplete(s, h, RunEnd(s, h, IsHostChar), d, hostEnd, end);
  }

  /** The matcher misses no match: wherever the pattern can match, `MatchAt` finds a match
      (the one of highest priority). */
  lemma MatchAtComplete(s: string, m: Span)
    requires ValidMatch(s, m)
    ensures MatchAt(s, m.start).Some?
  {
    HostSearchComplete(s, m.host, m.dot, m.hostEnd, m.end);
    if m.host > m.start {
      SchemeLenOfScheme(s, m.start, m.host);
    }
    MatchAtFound(s, m.start, m.host);
  }

  /** The matcher finds a match at `q` when the lookbehind holds and a host search from the
      end of the scheme there (or from `q` itself) succeeds. */
  lemma MatchAtFound(s: string, q: nat, h: nat)
    requires q <= h <= |s| && (q == 0 || IsSpace(s[q - 1]))
    requires h == q || SchemeLenAt(s, q) == h - q
    requires HostSearch(s, h).Some?
    ensures MatchAt(s, q).Some?
  {
  }

  /** A piece of the scanned text: a character kept as it is, or a match. */
  datatype Piece = Copy(at: nat) | Link(span: Span)

  /** The piece lies inside `s`. */
  predicate Fits(s: string, p: Piece) {
    match p
    case Copy(at) => at < |s|
    case Link(m) => m.start < m.end <= |s|
  }

  /** The pieces tile `s[i..]` from left to right: each starts where the one before it ends. */
  predicate Tiles(ps: seq<Piece>, i: nat, n: nat)
    decreases |ps|
  {
    if ps == [] then i == n
    else match ps[0]
      case Copy(at) => at == i && Tiles(ps[1..], i + 1, n)
      case Link(m) => m.start == i && i < m.end && Tiles(ps[1..], m.end, n)
  }

  /** `preg_replace_callback`'s search from position `i`: at each position the match of
      highest priority is taken and the search resumes at its end; where nothing matches one
      character is kept. The lookbehind looks at the original text, as PCRE does. */
  function Scan(s: string, i: nat): (ps: seq<Piece>)
    requires i <= |s|
    ensures forall k :: 0 <= k < |ps| ==> Fits(s, ps[k])
    decreases |s| - i
  {
    if i == |s| then []
    else match MatchAt(s, i)
      case Some(m) => [Link(m)] + Scan(s, m.end)
      case None => [Copy(i)] + Scan(s, i + 1)
  }

  /** The replacement text: kept characters as they are, each match replaced by what the
      callback returns for it. */
  function Render(s: string, ps: seq<Piece>, callback: string -> string): string
    requires forall k :: 0 <= k < |ps| ==> Fits(s, ps[k])
  {
    if ps == [] then []
    else
      assert Fits(s, ps[0]);
      (match ps[0]
       case Copy(at) => [s[at]]
       case Link(m) => callback(s[m.start..m.end]))
      + Render(s, ps[1..], callback)
  }

  /** `su::parseUrls($s, $callback)` with a pure callback. Only the matches are handed to
      the callback, so one that returns its argument changes nothing. */
  function ParseUrls(s: string, callback: string -> string): (r: string)
    ensures (forall t :: callback(t) == t) ==> r == s
  {
    IdentityCallbackKeeps(s, callback);
    Render(s, Scan(s, 0), callback)
  }

  lemma IdentityCallbackKeeps(s: string, callback: string -> string)
    ensures (forall t :: callback(t) == t) ==> Render(s, Scan(s, 0), callback) == s
  {
    if forall t :: callback(t) == t {
      ScanProperties(s, 0);
      RenderIdentity(s, Scan(s, 0), 0, callback);
    }
  }

  /** The scan tiles the text; every match it reports is a match of the pattern; and no match
      of the pattern starts at a character it keeps, so the matches are the leftmost ones. */
  lemma {:induction false} ScanProperties(s: string, i: nat)
    requires i <= |s|
    ensures Tiles(Scan(s, i), i, |s|)
    ensures forall p :: p in Scan(s, i) && p.Link? ==> ValidMatch(s, p.span)
    ensures forall p, m: Span :: p in Scan(s, i) && p.Copy? && m.start == p.at ==> !ValidMatch(s, m)
    decreases |s| - i
  {
    if i < |s| {
      match MatchAt(s, i)
      case Some(m) =>
        ScanProperties(s, m.end);
        assert ([Link(m)] + Scan(s, m.end))[1..] == Scan(s, m.end);
      case None =>
        ScanProperties(s, i + 1);
        assert ([Copy(i)] + Scan(s, i + 1))[1..] == Scan(s, i + 1);
        forall m: Span | m.start == i && ValidMatch(s, m)
          ensures false
        {
          MatchAtComplete(s, m);
        }
    }
  }

  /** Text between matches is copied verbatim, so over pieces that tile `s[i..]` a callback
      that returns its argument gives the text back. */
  lemma {:induction false} RenderIdentity(s: string, ps: seq<Piece>, i: nat, callback: string -> string)
    requires i <= |s| && Tiles(ps, i, |s|)
    requires forall k :: 0 <= k < |ps| ==> Fits(s, ps[k])
    requires forall t :: callback(t) == t
    ensures Render(s, ps, callback) == s[i..]
    decreases |ps|
  {
    if ps != [] {
      var rest := Render(s, ps[1..], callback);
      match ps[0]
      case Copy(at) =>
        RenderIdentity(s, ps[1..], i + 1, callback);
        assert Render(s, ps, callback) == [s[i]] + rest;
        SplitSlice(s, i, i + 1);
        assert s[i..i + 1] == [s[i]];
      case Link(m) =>
        RenderIdentity(s, ps[1..], m.end, callback);
        assert Render(s, ps, callback) == callback(s[i..m.end]) + rest;
        assert callback(s[i..m.end]) == s[i..m.end];
        SplitSlice(s, i, m.end);
    }
  }

  lemma SplitSlice(s: string, i: nat, e: nat)
    requires i <= e <= |s|
    ensures s[i..e] + s[e..] == s[i..]
  {
  }

  lemma SchemeAtSlice(s: string, a: nat, i: nat, e: nat)
    requires a <= i <= e <= |s| && SchemeAt(s, a, i)
    ensures SchemeAt(s[a..e], 0, i - a)
  {
    var u := s[a..e];
    if i > a {
      assert u[i - a - 3] == ':' && u[i - a - 2] == '/' && u[i - a - 1] == '/';
      assert forall k :: 0 <= k < i - a - 3 ==> u[k] == s[a + k];
    }
  }

  lemma HostSlice(s: string, a: nat, i: nat, d: nat, he: nat, e: nat)
    requires a <= i < d && d + 2 <= he <= e <= |s| && s[d] == '.'
    requires forall k :: i <= k < d ==> IsHostChar(s[k])
    requires forall k :: d < k < he ==> IsWord(s[k])
    ensures var u := s[a..e];
            (forall k :: i - a <= k < he - a ==> IsHostChar(u[k])) && IsWord(u[he - a - 1]) &&
            u[i - a] == s[i]
  {
    var u := s[a..e];
    assert forall k :: i - a <= k < he - a ==> u[k] == s[a + k];
  }

  lemma PathSlice(s: string, a: nat, j: nat, e: nat)
    requires a <= j <= e <= |s| && LinkPathAt(s, j, e)
    ensures var u := s[a..e];
            PathAt(u, j - a, e - a) && (j < e ==> u[j - a] == '/' && !IsSpace(u[e - a - 1]))
  {
    var u := s[a..e];
    assert forall k :: j - a < k < e - a ==> u[k] == s[a + k];
  }

  /** What the two patterns share, seen from inside the match `u`: the positions of the
      match's parts relative to its start. */
  lemma MatchShape(s: string, m: Span)
    requires ValidMatch(s, m)
    ensures var u := s[m.start..m.end]; var i := m.host - m.start;
            var he := m.hostEnd - m.start;
            i + 3 <= he <= |u| && SchemeAt(u, 0, i) &&
            (forall k :: i <= k < he ==> IsHostChar(u[k])) && IsWord(u[he - 1]) &&
            u[i] == s[m.host] && PathAt(u, he, |u|) && (he < |u| ==> u[he] == '/') &&
            !IsSpace(u[|u| - 1])
  {
    MatchSchemePart(s, m);
    MatchHostPart(s, m);
    MatchPathPart(s, m);
  }

  lemma MatchSchemePart(s: string, m: Span)
    requires ValidMatch(s, m)
    ensures var u := s[m.start..m.end]; var i := m.host - m.start;
            var he := m.hostEnd - m.start;
            i + 3 <= he <= |u| && SchemeAt(u, 0, i)
  {
    SchemeAtSlice(s, m.start, m.host, m.end);
  }

  lemma MatchHostPart(s: string, m: Span)
    requires ValidMatch(s, m)
    ensures var u := s[m.start..m.end]; var i := m.host - m.start;
            var he := m.hostEnd - m.start;
            i + 3 <= he <= |u| &&
            (forall k :: i <= k < he ==> IsHostChar(u[k])) && IsWord(u[he - 1]) &&
            u[i] == s[m.host]
  {
    HostSlice(s, m.start, m.host, m.dot, m.hostEnd, m.end);
  }

  lemma MatchPathPart(s: string, m: Span)
    requires ValidMatch(s, m)
    ensures var u := s[m.start..m.end]; var he := m.hostEnd - m.start;
            1 <= he <= |u| && IsWord(u[he - 1]) &&
            PathAt(u, he, |u|) && (he < |u| ==> u[he] == '/') && !IsSpace(u[|u| - 1])
  {
    HostSlice(s, m.start, m.host, m.dot, m.hostEnd, m.end);
    PathSlice(s, m.start, m.hostEnd, m.end);
  }

  /** A scheme, a host from `i` to `he` ending in a word character, a path: this is a URL
      exactly when the host begins with a word character. */
  lemma UrlIffHostWord(u: string, i: nat, he: nat)
    requires i + 3 <= he <= |u| && SchemeAt(u, 0, i)
    requires forall k :: i <= k < he ==> IsHostChar(u[k])
    requires IsWord(u[he - 1]) && PathAt(u, he, |u|) && (he < |u| ==> u[he] == '/')
    requires !IsSpace(u[|u| - 1])
    ensures IsUrl(u) <==> IsWord(u[i])
  {
    if IsWord(u[i]) {
      assert HostAt(u, i, he);
      UrlBodyOfSplit(u, i, he);
    }
    if UrlBody(u) {
      if i > 0 {
        SchemeLenOfScheme(u, 0, i);
      } else {
        SchemeLenOfSplit(u, 0, 0, he);
      }
    }
  }

  /** The two grammars reconciled: a match of the search pattern is a URL in the sense of
      `su::isUrl` exactly when its host begins with a word character; hosts that begin with
      `.` or `-` are found by the search but refused by the check. */
  lemma MatchIsUrlIff(s: string, m: Span)
    requires ValidMatch(s, m)
    ensures IsUrl(s[m.start..m.end]) <==> IsWord(s[m.host])
  {
    MatchShape(s, m);
    UrlIffHostWord(s[m.start..m.end], m.host - m.start, m.hostEnd - m.start);
  }

  /** No character of `t` can end an attribute value or open or close a tag. */
  predicate IsInert(t: string) {
    forall k :: 0 <= k < |t| ==> t[k] != '<' && t[k] != '>' && t[k] != '"'
  }

  /** `htmlspecialchars` on one character, with the default quote handling of the PHP
      versions before 8.1 (double quotes only). What it writes holds no markup character. */
  function EscapeChar(c: char): (r: string)
    ensures r != [] && IsInert(r)
  {
    if c == '&' then assert "&amp;" == ['&', 'a', 'm', 'p', ';']; "&amp;"
    else if c == '<' then assert "&lt;" == ['&', 'l', 't', ';']; "&lt;"
    else if c == '>' then assert "&gt;" == ['&', 'g', 't', ';']; "&gt;"
    else if c == '"' then assert "&quot;" == ['&', 'q', 'u', 'o', 't', ';']; "&quot;"
    else [c]
  }

  /** `htmlspecialchars($s)`: `htmlspecialchars_decode` gives the text back. */
  function HtmlEscape(s: string): (r: string)
    ensures HtmlUnescape(r) == s
  {
    if s == [] then []
    else
      UnescapeChar(s[0], HtmlEscape(s[1..]));
      assert [s[0]] + s[1..] == s;
      EscapeChar(s[0]) + HtmlEscape(s[1..])
  }

  /** `htmlspecialchars_decode($s)` for the same four entities: the inverse of `HtmlEscape`. */
  function HtmlUnescape(s: string): string
    decreases |s|
  {
    if s == [] then []
    else if "&amp;" <= s then "&" + HtmlUnescape(s[5..])
    else if "&lt;" <= s then "<" + HtmlUnescape(s[4..])
    else if "&gt;" <= s then ">" + HtmlUnescape(s[4..])
    else if "&quot;" <= s then "\"" + HtmlUnescape(s[6..])
    else [s[0]] + HtmlUnescape(s[1..])
  }

  lemma UnescapeChar(c: char, rest: string)
    ensures HtmlUnescape(EscapeChar(c) + rest) == [c] + HtmlUnescape(rest)
  {
    if c == '&' || c == '<' || c == '>' || c == '"' {
      UnescapeEntity(c, rest);
    } else {
      var t := [c] + rest;
      assert t[0] == c && t[1..] == rest;
    }
  }

  /** Each of the four entities decodes to its character. */
  lemma UnescapeEntity(c: char, rest: string)
    requires c == '&' || c == '<' || c == '>' || c == '"'
    ensures HtmlUnescape(EscapeChar(c) + rest) == [c] + HtmlUnescape(rest)
  {
    var e := EscapeChar(c);
    var t := e + rest;
    assert t[..|e|] == e && t[|e|..] == rest;
    if c == '&' {
      assert "&amp;" <= t;
    } else if c == '<' {
      assert t[1] == 'l';
      assert "&lt;" <= t;
    } else if c == '>' {
      assert t[1] == 'g';
      assert "&gt;" <= t;
    } else {
      assert t[1] == 'q';
      assert "&quot;" <= t;
    }
  }

  /** The escaped text holds no `<`, `>` or `"`, so it cannot end the attribute or open a
      tag. */
  lemma {:induction false} EscapedIsInert(s: string)
    ensures IsInert(HtmlEscape(s))
  {
    if s != [] {
      EscapedIsInert(s[1..]);
      var e := EscapeChar(s[0]);
      var t := HtmlEscape(s[1..]);
      assert HtmlEscape(s) == e + t;
      InertConcat(e, t);
    }
  }

  lemma InertConcat(e: string, t: string)
    requires IsInert(e) && IsInert(t)
    ensures IsInert(e + t)
  {
    assert forall k :: 0 <= k < |e + t| ==> (e + t)[k] == if k < |e| then e[k] else t[k - |e|];
  }

  /** The default callback of `su::parseUrls`: a match that is not a URL is kept, any other
      becomes an `<a href="...">` element linking to its normalised form and showing its
      beautified form. */
  function DefaultLink(u: string): (r: string)
    ensures !IsUrl(u) ==> r == u
    ensures IsUrl(u) ==> "<a href=\"" <= r
    ensures IsUrl(u) ==> IsLink(r, NormalizeUrl(u).value, BeautifyUrl(u).value)
  {
    if !IsUrl(u) then u
    else LinkTag(NormalizeUrl(u).value, BeautifyUrl(u).value)
  }

  /** The default callback built on the corrected `normalizeUrl` and `shorten`. */
  function DefaultLinkFixed(u: string): (r: string)
    ensures !IsUrl(u) ==> r == u
    ensures IsUrl(u) ==> "<a href=\"" <= r
    ensures IsUrl(u) ==> IsLink(r, NormalizeUrlAnchored(u).value, BeautifyUrl(u, 15, true).value)
  {
    if !IsUrl(u) then u
    else LinkTag(NormalizeUrlAnchored(u).value, BeautifyUrl(u, 15, true).value)
  }

  /** `<a href="a">b</a>` around an attribute value and a label that are already escaped. */
  function Element(a: string, b: string): (r: string)
    ensures "<a href=\"" <= r
  {
    var rest := a + "\">" + b + "</a>";
    PrefixOfConcat("<a href=\"", rest);
    "<a href=\"" + rest
  }

  lemma PrefixOfConcat(p: string, q: string)
    ensures p <= p + q
  {
  }

  /** `r` is a link element whose attribute value decodes to `href` and whose label decodes to
      `text`, and neither of them can end its attribute or open a tag. */
  ghost predicate IsLink(r: string, href: string, text: string) {
    exists a, b :: r == Element(a, b) && IsInert(a) && IsInert(b)
                   && HtmlUnescape(a) == href && HtmlUnescape(b) == text
  }

  /** `'<a href="'.htmlspecialchars($href).'">'.htmlspecialchars($text).'</a>'`: a link to
      `href` labelled `text`. */
  function LinkTag(href: string, text: string): (r: string)
    ensures "<a href=\"" <= r
    ensures IsLink(r, href, text)
  {
    EscapedIsInert(href);
    EscapedIsInert(text);
    Element(HtmlEscape(href), HtmlEscape(text))
  }

  /** Where the attribute value and the label sit in the element. */
  lemma ElementParts(a: string, b: string)
    ensures var r := Element(a, b);
            && |r| == |a| + |b| + 15 && r[9 + |a|] == '"'
            && r[9..9 + |a|] == a && r[11 + |a|..11 + |a| + |b|] == b
  {
  }

  /** An inert attribute value ends at the first `"`, so the element determines both of its
      parts. */
  lemma ElementInjective(a1: string, b1: string, a2: string, b2: string)
    requires IsInert(a1) && IsInert(a2) && Element(a1, b1) == Element(a2, b2)
    ensures a1 == a2 && b1 == b2
  {
    var r := Element(a1, b1);
    ElementParts(a1, b1);
    ElementParts(a2, b2);
  }

  /** A link element is read back unambiguously: whoever parses it finds the one target and
      the one label it was built from. */
  lemma LinkDeterminesParts(r: string, href1: string, text1: string, href2: string, text2: string)
    requires IsLink(r, href1, text1) && IsLink(r, href2, text2)
    ensures href1 == href2 && text1 == text2
  {
    var a1, b1 :| r == Element(a1, b1) && IsInert(a1) && IsInert(b1)
                 && HtmlUnescape(a1) == href1 && HtmlUnescape(b1) == text1;
    var a2, b2 :| r == Element(a2, b2) && IsInert(a2) && IsInert(b2)
                 && HtmlUnescape(a2) == href2 && HtmlUnescape(b2) == text2;
    ElementInjective(a1, b1, a2, b2);
  }

  /** A string that does not begin with `<` is kept by either callback exactly when it is not
      a URL; a URL becomes a link. */
  lemma CallbackKeepsOrLinks(u: string)
    requires u != [] && u[0] != '<'
    ensures (DefaultLink(u) == u <==> !IsUrl(u)) && (IsUrl(u) ==> "<a href=\"" <= DefaultLink(u))
    ensures (DefaultLinkFixed(u) == u <==> !IsUrl(u)) && (IsUrl(u) ==> "<a href=\"" <= DefaultLinkFixed(u))
  {
  }

  /** The default callback leaves a match alone exactly when its host begins with `.` or `-`
      (or another non-word character); every other match becomes a link. The corrected
      callback does the same. */
  lemma DefaultLinkOfMatch(s: string, m: Span)
    requires ValidMatch(s, m)
    ensures var u := s[m.start..m.end];
            (DefaultLink(u) == u <==> !IsWord(s[m.host])) &&
            (IsWord(s[m.host]) ==> "<a href=\"" <= DefaultLink(u))
    ensures var u := s[m.start..m.end];
            (DefaultLinkFixed(u) == u <==> !IsWord(s[m.host])) &&
            (IsWord(s[m.host]) ==> "<a href=\"" <= DefaultLinkFixed(u))
  {
    MatchIsUrlIff(s, m);
    MatchOpensPlain(s, m);
    CallbackKeepsOrLinks(s[m.start..m.end]);
  }

  /** A match begins with a scheme or host character, never with `<`. */
  lemma MatchOpensPlain(s: string, m: Span)
    requires ValidMatch(s, m)
    ensures var u := s[m.start..m.end]; u != [] && u[0] != '<'
  {
    var u := s[m.start..m.end];
    MatchShape(s, m);
    if m.host == m.start {
      assert IsHostChar(u[0]);
    } else {
      assert IsSchemeChar(u[0]);
    }
  }
}
