/**
 * The truncation primitives: `su::shorten` (cut out the middle and join the two ends with a
 * glue string) and `su::cutOnSpace` (cut at the first space at or after a position and
 * append a marker). Lengths and positions are in code points.
 */
module Truncate {
  import opened Wrappers
  import opened MbString
  import opened Chars

  /** `shorten`: a limit not above the glue's length is widened by that length. */
  function Widen(len: int, glen: nat): int {
    if len <= glen then len + glen else len
  }

  /** PHP's `round($n / 2)` for an integer `$n`: a half rounds away from zero, so a
      non-negative `n` gives the ceiling of `n / 2`. */
  function RoundHalf(n: int): (r: int)
    ensures n >= 0 ==> n <= 2 * r <= n + 1 && 0 <= n - r <= r <= n
    ensures n < 0 ==> n - 1 <= 2 * r <= n
  {
    if n >= 0 then (n + 1) / 2 else -((1 - n) / 2)
  }

  /** The result of `shorten`: the right-trimmed first `left` characters, the glue and the left-trimmed
      `mb_substr($s, -$right)`. */
  function Splice(s: string, left: int, right: int, glue: string): string {
    RTrim(Substr(s, 0, left)) + glue + LTrim(SubstrFrom(s, -right))
  }

  /** The corrected result of `shorten`: no right part when `right` is 0. */
  function SpliceFixed(s: string, left: int, right: int, glue: string): string {
    if right == 0 then RTrim(Substr(s, 0, left)) + glue else Splice(s, left, right, glue)
  }

  /** The ends `shorten` keeps: the first `left` characters right-trimmed, the glue, and the
      last `right` characters left-trimmed. */
  function KeepEnds(s: string, left: nat, right: nat, glue: string): string
    requires left + right <= |s|
  {
    RTrim(s[..left]) + glue + LTrim(s[|s| - right..])
  }

  /** The kept ends are no longer than the characters asked for, plus the glue. */
  lemma KeepEndsLength(s: string, left: nat, right: nat, glue: string)
    requires left + right <= |s|
    ensures |KeepEnds(s, left, right, glue)| <= left + right + |glue|
  {
  }

  /** The result of `shorten` as written keeps both ends, except that a `right` of 0 makes
      `mb_substr($s, -0)` the whole string. */
  lemma SpliceKeepsEnds(s: string, left: nat, right: nat, glue: string)
    requires left + right <= |s|
    ensures right > 0 ==> Splice(s, left, right, glue) == KeepEnds(s, left, right, glue)
    ensures right == 0 ==> Splice(s, left, right, glue) == RTrim(s[..left]) + glue + LTrim(s)
  {
  }

  /** The corrected result keeps exactly the two ends, and so at most `left + right`
      characters besides the glue. */
  lemma SpliceFixedKeepsEnds(s: string, left: nat, right: nat, glue: string)
    requires left + right <= |s|
    ensures SpliceFixed(s, left, right, glue) == KeepEnds(s, left, right, glue)
    ensures |KeepEnds(s, left, right, glue)| <= left + right + |glue|
  {
    if right == 0 {
      assert s[|s| - right..] == [];
    }
  }

  /** The budget `shorten` shares between the two ends: the widened limit less the glue. */
  function Budget(len: int, glen: nat): (b: int)
    ensures 0 <= len ==> 0 <= b <= Widen(len, glen)
  {
    Widen(len, glen) - glen
  }

  /** The left end's share, `round($budget / 2)`. */
  function LeftPart(len: int, glen: nat): int {
    RoundHalf(Budget(len, glen))
  }

  /** The right end's share: what the left end leaves of the budget. */
  function RightPart(len: int, glen: nat): int {
    Budget(len, glen) - LeftPart(len, glen)
  }

  /** `su::shorten($s, $len, $glue)` as written. A string within the (widened) limit comes
      back unchanged. Otherwise the ends around a budget of limit - glue length are kept;
      when floor(budget/2) is 0, `mb_substr($s, -0)` keeps the WHOLE string on the right
      (see ShortenBudgetOneOvershoots). */
  function Shorten(s: string, len: int, glue: string := "..."): (r: string)
    ensures |s| <= Widen(len, |glue|) ==> r == s
    ensures 0 <= len && |s| > Widen(len, |glue|) && RightPart(len, |glue|) == 0 ==>
              r == RTrim(s[..LeftPart(len, |glue|)]) + glue + LTrim(s)
    ensures 0 <= len && |s| > Widen(len, |glue|) && RightPart(len, |glue|) != 0 ==>
              r == KeepEnds(s, LeftPart(len, |glue|), RightPart(len, |glue|), glue)
  {
    var slen := |s|;
    var glen := |glue|;
    var limit := Widen(len, glen);
    if slen <= limit then s
    else
      var left := LeftPart(len, glen);
      var right := RightPart(len, glen);
      if 0 <= len then SpliceKeepsEnds(s, left, right, glue); Splice(s, left, right, glue)
      else Splice(s, left, right, glue)
  }

  /** `su::shorten` with its evident intent: an empty right part when the budget
      leaves nothing for it. The result never exceeds the widened limit. */
  function ShortenFixed(s: string, len: int, glue: string := "..."): (r: string)
    ensures |s| <= Widen(len, |glue|) ==> r == s
    ensures 0 <= len && |s| > Widen(len, |glue|) ==>
              r == KeepEnds(s, LeftPart(len, |glue|), RightPart(len, |glue|), glue)
    ensures 0 <= len ==> |r| <= Widen(len, |glue|)
  {
    var slen := |s|;
    var glen := |glue|;
    var limit := Widen(len, glen);
    if slen <= limit then s
    else
      var left := LeftPart(len, glen);
      var right := RightPart(len, glen);
      if 0 <= len then
        KeepEndsLength(s, left, right, glue);
        KeepEnds(s, left, right, glue)
      else SpliceFixed(s, left, right, glue)
  }

  /** The two agree whenever the right part is not empty: short input, or a budget of at
      least two. In particular with the library's default limits. */
  lemma ShortenFixedAgrees(s: string, len: int, glue: string)
    requires 0 <= len
    requires |s| <= Widen(len, |glue|) || Budget(len, |glue|) >= 2
    ensures ShortenFixed(s, len, glue) == Shorten(s, len, glue)
    ensures |Shorten(s, len, glue)| <= Widen(len, |glue|)
  {
  }

  /** The discrepancy: a limit one above the glue's length leaves a budget of one, and the
      "shortened" string is longer than the input. */
  lemma ShortenBudgetOneOvershoots()
    ensures Shorten("abcdefgh", 4) == "a...abcdefgh"
    ensures |Shorten("abcdefgh", 4)| > |"abcdefgh"|
    ensures ShortenFixed("abcdefgh", 4) == "a..."
  {
    var s := "abcdefgh";
    ShortenBudgetOne(s);
    assert s[..1] == "a";
  }

  /** With a limit of 4 and the default glue the budget is 1: as written the whole string
      follows the glue, corrected nothing does. */
  lemma ShortenBudgetOne(s: string)
    requires |s| > 4 && !IsTrimmed(s[0])
    ensures Shorten(s, 4) == s[..1] + "..." + s
    ensures ShortenFixed(s, 4) == s[..1] + "..."
  {
    assert Widen(4, 3) == 4 && LeftPart(4, 3) == 1 && RightPart(4, 3) == 0;
    RTrimKeeps(s[..1]);
    LTrimKeeps(s);
    assert s[|s| - 0..] == [];
  }

  /** `su::cutOnSpace($s, $len, $append)`. A string within `len` comes back unchanged.
      Otherwise the result is the input up to the first space at or after `len` (or all of it
      when there is none), followed by `append`. */
  function CutOnSpace(s: string, len: nat, append: string := "..."): (r: string)
    ensures |s| <= len ==> r == s
    ensures |s| > len ==>
              var kept := |r| - |append|;
              && len <= kept <= |s|
              && r == s[..kept] + append
              && (kept < |s| ==> s[kept] == ' ')
              && (forall k :: len <= k < kept ==> s[k] != ' ')
  {
    var slen := |s|;
    if slen <= len then s
    else
      var pos := match StrPos(s, ' ', len) case Some(p) => p case None => slen;
      Substr(s, 0, pos) + append
  }
}
