/**
 * The PHP string primitives the library is built on, on code-point strings:
 * `mb_substr`, `mb_strpos`, `rtrim`/`ltrim` with their default character list,
 * `implode`, and the library's own `startsWith`/`endsWith`.
 */
module MbString {
  import opened Wrappers
  import opened Chars

  function Min(a: int, b: int): int { if a <= b then a else b }

  /** Where `mb_substr` starts for a given `$start`: a negative start counts from the end
      and is clamped at 0. */
  function StartIndex(n: nat, start: int): nat {
    if start >= 0 then start else if -start < n then n + start else 0
  }

  /** `mb_substr($s, $start)`: with a non-negative start the rest of the string from there;
      with a negative one the last `-start` characters, or all of them when the string is
      shorter. So `mb_substr($s, -0)` is the whole string, not an empty one. */
  function SubstrFrom(s: string, start: int): (r: string)
    ensures start >= 0 ==> r == s[Min(start, |s|)..]
    ensures start < 0 ==> r == s[|s| - Min(-start, |s|)..]
  {
    var f := StartIndex(|s|, start);
    if f >= |s| then [] else s[f..]
  }

  /** `mb_substr($s, $start, $length)`. A negative start counts from the end; a negative
      length leaves that many characters off the end. With non-negative arguments it is the
      slice they name, cut at the end of the string; from 0 with a negative length it is the
      string without that many characters at the end. */
  function Substr(s: string, start: int, length: int): (r: string)
    ensures 0 <= start && 0 <= length ==> r == s[Min(start, |s|)..Min(start + length, |s|)]
    ensures start == 0 && length < 0 ==> r == s[..if |s| + length < 0 then 0 else |s| + length]
  {
    var n := |s|;
    var f := StartIndex(n, start);
    var l := if length >= 0 then length
             else if f < n && -length < n - f then n - f + length
             else 0;
    if f >= n then [] else s[f..Min(f + l, n)]
  }

  /** `mb_strpos($s, $c, $offset)` for an offset inside the string (PHP 8 throws for one
      beyond it): the first position at or after `offset` holding `c`. */
  function StrPos(s: string, c: char, offset: nat): (r: Option<nat>)
    requires offset <= |s|
    ensures r.Some? ==> offset <= r.value < |s| && s[r.value] == c
    ensures r.Some? ==> forall k :: offset <= k < r.value ==> s[k] != c
    ensures r.None? ==> forall k :: offset <= k < |s| ==> s[k] != c
    decreases |s| - offset
  {
    if offset == |s| then None
    else if s[offset] == c then Some(offset)
    else StrPos(s, c, offset + 1)
  }

  /** The position of the first `c` at or after `offset`, or the length when there is none. */
  function IndexOrEnd(s: string, c: char, offset: nat): (r: nat)
    requires offset <= |s|
    ensures offset <= r <= |s| && (r < |s| ==> s[r] == c)
    ensures forall k :: offset <= k < r ==> s[k] != c
  {
    match StrPos(s, c, offset)
    case Some(k) => k
    case None => |s|
  }

  /** Where the kept part of `rtrim` ends when the scan starts at `n`: the trimmed
      characters just before `n` are stepped over. */
  function TrimEnd(s: string, n: nat): (m: nat)
    requires n <= |s|
    ensures m <= n
  {
    if n > 0 && IsTrimmed(s[n - 1]) then TrimEnd(s, n - 1) else n
  }

  /** Where the kept part of `ltrim` starts when the scan starts at `i`. */
  function TrimStart(s: string, i: nat): (j: nat)
    requires i <= |s|
    ensures i <= j <= |s|
    decreases |s| - i
  {
    if i < |s| && IsTrimmed(s[i]) then TrimStart(s, i + 1) else i
  }

  lemma {:induction false} TrimEndStops(s: string, n: nat)
    requires n <= |s|
    requires TrimmedFrom(s, n)
    ensures var m := TrimEnd(s, n); (m == 0 || !IsTrimmed(s[m - 1])) && TrimmedFrom(s, m)
  {
    if n > 0 && IsTrimmed(s[n - 1]) {
      TrimEndStops(s, n - 1);
    }
  }

  lemma {:induction false} TrimStartStops(s: string, i: nat)
    requires i <= |s|
    requires TrimmedBelow(s, i)
    ensures var j := TrimStart(s, i); (j == |s| || !IsTrimmed(s[j])) && TrimmedBelow(s, j)
    decreases |s| - i
  {
    if i < |s| && IsTrimmed(s[i]) {
      TrimStartStops(s, i + 1);
    }
  }

  /** Every character of `s` from position `i` on is one that `rtrim` removes. */
  predicate TrimmedFrom(s: string, i: nat)
    decreases |s| - i
  {
    i >= |s| || (IsTrimmed(s[i]) && TrimmedFrom(s, i + 1))
  }

  /** Every character of `s` before position `n` is one that `ltrim` removes. */
  predicate TrimmedBelow(s: string, n: nat)
    requires n <= |s|
  {
    n == 0 || (IsTrimmed(s[n - 1]) && TrimmedBelow(s, n - 1))
  }

  /** `rtrim($s)` with PHP's default character list " \t\n\r\0\x0B". It removes exactly the
      final run of trimmed characters: the result is a prefix, does not end in a trimmed
      character, and everything removed is one. */
  function RTrim(s: string): (r: string)
    ensures |r| <= |s| && r == s[..|r|]
    ensures r == [] || !IsTrimmed(r[|r| - 1])
    ensures TrimmedFrom(s, |r|)
  {
    TrimEndStops(s, |s|);
    s[..TrimEnd(s, |s|)]
  }

  /** `ltrim($s)` with PHP's default character list: it removes exactly the leading run of
      trimmed characters. */
  function LTrim(s: string): (r: string)
    ensures |r| <= |s| && r == s[|s| - |r|..]
    ensures r == [] || !IsTrimmed(r[0])
    ensures TrimmedBelow(s, |s| - |r|)
  {
    TrimStartStops(s, 0);
    s[TrimStart(s, 0)..]
  }

  /** A string that does not end in a trimmed character is its own `rtrim`. */
  lemma RTrimKeeps(x: string)
    requires x != [] && !IsTrimmed(x[|x| - 1])
    ensures RTrim(x) == x
  {
    assert TrimEnd(x, |x|) == |x|;
  }

  /** A string that does not begin with a trimmed character is its own `ltrim`. */
  lemma LTrimKeeps(x: string)
    requires x != [] && !IsTrimmed(x[0])
    ensures LTrim(x) == x
  {
    assert TrimStart(x, 0) == 0;
  }

  /** The library's `startsWith`: `mb_substr($s, 0, mb_strlen($p)) === $p`, which is the
      prefix relation. */
  function StartsWith(s: string, p: string): (b: bool)
    ensures b <==> p <= s
  {
    Substr(s, 0, |p|) == p
  }

  /** The library's `endsWith`: `mb_substr($s, -mb_strlen($p)) === $p`. Because `-0` is `0`,
      an empty `p` is a suffix only of the empty string. */
  function EndsWith(s: string, p: string): (b: bool)
    ensures b <==> if p == [] then s == [] else |p| <= |s| && s[|s| - |p|..] == p
  {
    SubstrFrom(s, -|p|) == p
  }

  /** The characters of `s` that satisfy `keep`, in order (a `preg_replace` deleting a class). */
  function Filter(s: string, keep: char -> bool): (r: string)
    ensures |r| <= |s|
    ensures forall k :: 0 <= k < |r| ==> keep(r[k])
    ensures (forall k :: 0 <= k < |s| ==> keep(s[k])) ==> r == s
  {
    if s == [] then [] else (if keep(s[0]) then [s[0]] else []) + Filter(s[1..], keep)
  }

  lemma {:induction false} FilterConcat(a: string, b: string, keep: char -> bool)
    ensures Filter(a + b, keep) == Filter(a, keep) + Filter(b, keep)
  {
    if a != [] {
      assert (a + b)[1..] == a[1..] + b;
      FilterConcat(a[1..], b, keep);
    } else {
      assert a + b == b;
    }
  }

  /** One character is kept exactly when it satisfies `keep`. */
  lemma FilterChar(c: char, keep: char -> bool)
    ensures Filter([c], keep) == if keep(c) then [c] else []
  {
    assert [c][1..] == [];
  }

  /** Filtering one more character appends it when it is kept and nothing otherwise, so the
      kept characters come out in their order in `s`. */
  lemma FilterSnoc(s: string, c: char, keep: char -> bool)
    ensures Filter(s + [c], keep) == Filter(s, keep) + if keep(c) then [c] else []
  {
    FilterConcat(s, [c], keep);
    FilterChar(c, keep);
  }

  /** Where a greedy run of characters satisfying `p` that starts at `i` ends: what a
      regular expression `[...]*` consumes before it has to backtrack. */
  function RunEnd(s: string, i: nat, p: char -> bool): (j: nat)
    requires i <= |s|
    ensures i <= j <= |s|
    ensures forall k :: i <= k < j ==> p(s[k])
    ensures j < |s| ==> !p(s[j])
    decreases |s| - i
  {
    if i < |s| && p(s[i]) then RunEnd(s, i + 1, p) else i
  }

  /** The run reaches past every stretch of characters satisfying `p`. */
  lemma RunEndCovers(s: string, i: nat, j: nat, p: char -> bool)
    requires i <= j <= |s|
    requires forall k :: i <= k < j ==> p(s[k])
    ensures j <= RunEnd(s, i, p)
  {
  }

  /** The run is determined by where it stops. */
  lemma RunEndIs(s: string, i: nat, j: nat, p: char -> bool)
    requires i <= j <= |s|
    requires forall k :: i <= k < j ==> p(s[k])
    requires j < |s| ==> !p(s[j])
    ensures RunEnd(s, i, p) == j
  {
  }

  /** `implode($sep, $parts)`. */
  function Join(sep: string, parts: seq<string>): (r: string)
    ensures parts == [] ==> r == []
    ensures |parts| == 1 ==> r == parts[0]
  {
    if parts == [] then [] else if |parts| == 1 then parts[0] else parts[0] + sep + Join(sep, parts[1..])
  }

  /** PHP's decimal rendering of a non-negative integer: digits without a leading zero. */
  function DecimalString(n: nat): (r: string)
    ensures r != []
    ensures forall k :: 0 <= k < |r| ==> IsAsciiDigit(r[k])
    ensures r[0] == '0' ==> n == 0 && r == "0"
    ensures DigitsValue(r) == n
  {
    var d := ['0' + (n % 10) as char];
    if n < 10 then d
    else
      var r := DecimalString(n / 10);
      assert (r + d)[..|r + d| - 1] == r;
      r + d
  }

  /** The number a string of decimal digits denotes, most significant digit first. */
  function DigitsValue(r: string): nat
    requires forall k :: 0 <= k < |r| ==> IsAsciiDigit(r[k])
  {
    if r == [] then 0
    else
      var last := r[|r| - 1];
      assert IsAsciiDigit(last);
      10 * DigitsValue(r[..|r| - 1]) + (last as int - '0' as int)
  }
}
