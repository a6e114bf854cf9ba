/**
 * The contact checks: `su::isEmail` (a word-ish name, one `@`, a word-ish domain) and
 * `su::isPhone`, which counts what is left of a phone number once `su::preparePhone` has
 * removed whitespace, plus signs, parentheses and dashes.
 */
module Contact {
  import opened MbString
  import opened Chars

  /** Every character is in `[\w\.-]`. */
  predicate AllHostChars(s: string) {
    forall k :: 0 <= k < |s| ==> IsHostChar(s[k])
  }

  /** `[\w\.-]+@[\w\.-]+` matched against the whole of `s`: the first `@` splits `s` into
      two non-empty runs of `[\w\.-]`. The scan at the first `@` recognises exactly the
      language of the pattern. */
  function EmailBody(s: string): (r: bool)
    ensures r <==> EmailShape(s)
  {
    EmailShapeSplits(s);
    var at := IndexOrEnd(s, '@', 0);
    assert 0 < at && at + 1 < |s| ==> s == s[..at] + "@" + s[at + 1..];
    0 < at && at + 1 < |s| && AllHostChars(s[..at]) && AllHostChars(s[at + 1..])
  }

  /** The language of the pattern: a name, `@`, a domain. */
  ghost predicate EmailShape(s: string) {
    exists a: string, b: string ::
      s == a + "@" + b && a != [] && b != [] && AllHostChars(a) && AllHostChars(b)
  }

  /** A string of the pattern's shape splits at its first `@`, since the name holds no `@`. */
  lemma EmailShapeSplits(s: string)
    ensures EmailShape(s) ==>
              var at := IndexOrEnd(s, '@', 0);
              0 < at && at + 1 < |s| && AllHostChars(s[..at]) && AllHostChars(s[at + 1..])
  {
    if EmailShape(s) {
      var a: string, b: string :|
        s == a + "@" + b && a != [] && b != [] && AllHostChars(a) && AllHostChars(b);
      assert s[|a|] == '@';
      assert forall k :: 0 <= k < |a| ==> s[k] == a[k] && s[k] != '@';
      var at := IndexOrEnd(s, '@', 0);
      assert at == |a|;
      assert s[..at] == a;
      assert s[at + 1..] == b;
    }
  }

  /** `su::isEmail($s)`: `/^[\w\.-]+@[\w\.-]+$/u`. Without the `D` modifier `$` also matches
      before a final newline, so one trailing "\n" is accepted. An address is accepted exactly
      when it is name `@` domain, optionally followed by one newline; in particular it holds
      exactly one `@` and no whitespace other than that newline. */
  function IsEmail(s: string): (r: bool)
    ensures r <==> EmailShape(s) || (|s| > 0 && s[|s| - 1] == '\n' && EmailShape(s[..|s| - 1]))
  {
    EmailBody(s) || (|s| > 0 && s[|s| - 1] == '\n' && EmailBody(s[..|s| - 1]))
  }

  lemma IsEmailAccepts()
    ensures IsEmail("a.b@c")
    ensures IsEmail("x@y\n")
  {
    assert IndexOrEnd("a.b@c", '@', 0) == 3;
    assert "a.b@c"[..3] == "a.b" && "a.b@c"[4..] == "c";
    assert "x@y\n"[..3] == "x@y";
    assert IndexOrEnd("x@y", '@', 0) == 1;
    assert "x@y"[..1] == "x" && "x@y"[2..] == "y";
  }

  lemma IsEmailRejects()
    ensures !IsEmail("@y")
    ensures !IsEmail("x@")
    ensures !IsEmail("a b@c")
  {
    assert IndexOrEnd("@y", '@', 0) == 0;
    assert IndexOrEnd("x@", '@', 0) == 1;
    assert IndexOrEnd("a b@c", '@', 0) == 3;
    assert "a b@c"[..3][1] == ' ';
  }

  /** `[\s\+\(\)-]`: what `preparePhone` removes. */
  predicate IsPhonePunct(c: char) {
    IsSpace(c) || c == '+' || c == '(' || c == ')' || c == '-'
  }

  predicate IsPhoneKept(c: char) { !IsPhonePunct(c) }

  /** `su::preparePhone($s)`: `preg_replace('/[\s\+\(\)-]+/u', '', $s)`. Deleting runs of the
      class is deleting each of its characters: the result is no longer than `s`, holds none
      of them, and is `s` itself when `s` holds none. */
  function PreparePhone(s: string): (r: string)
    ensures |r| <= |s|
    ensures forall k :: 0 <= k < |r| ==> !IsPhonePunct(r[k])
    ensures (forall k :: 0 <= k < |s| ==> !IsPhonePunct(s[k])) ==> r == s
  {
    Filter(s, IsPhoneKept)
  }

  /** Digits are never removed. */
  lemma DigitsKept(s: string)
    ensures (forall k :: 0 <= k < |s| ==> IsAsciiDigit(s[k])) ==> PreparePhone(s) == s
  {
    if forall k :: 0 <= k < |s| ==> IsAsciiDigit(s[k]) {
      assert forall k :: 0 <= k < |s| ==> !IsPhonePunct(s[k]);
    }
  }

  /** `su::isPhone($s, $minLen, $maxLen)`: the prepared number has between `minLen` and
      `maxLen` characters. So an accepted number has at least `minLen` characters, and a
      number written with digits only is accepted exactly when its length is in range. */
  function IsPhone(s: string, minLen: int := 7, maxLen: int := 11): (r: bool)
    ensures r ==> minLen <= |s|
    ensures (forall k :: 0 <= k < |s| ==> IsAsciiDigit(s[k])) ==>
              (r <==> minLen <= |s| <= maxLen)
  {
    DigitsKept(s);
    minLen <= |PreparePhone(s)| <= maxLen
  }

  lemma {:induction false} FilterDropsAll(s: string, keep: char -> bool)
    requires forall k :: 0 <= k < |s| ==> !keep(s[k])
    ensures Filter(s, keep) == []
  {
    if s != [] {
      FilterDropsAll(s[1..], keep);
    }
  }

  /** Preparing a prepared number again changes nothing. */
  lemma PreparePhoneIdempotent(s: string)
    ensures PreparePhone(PreparePhone(s)) == PreparePhone(s)
  {
  }

  /** Punctuation inserted anywhere into a number does not change its prepared form, and so
      not whether it is a phone number. */
  lemma PreparePhoneIgnoresPunct(a: string, p: string, b: string)
    requires forall k :: 0 <= k < |p| ==> IsPhonePunct(p[k])
    ensures PreparePhone(a + p + b) == PreparePhone(a + b)
    ensures IsPhone(a + p + b) == IsPhone(a + b)
  {
    FilterConcat(a + p, b, IsPhoneKept);
    FilterConcat(a, p, IsPhoneKept);
    FilterConcat(a, b, IsPhoneKept);
    FilterDropsAll(p, IsPhoneKept);
    calc {
      PreparePhone(a + p + b);
      Filter(a + p, IsPhoneKept) + Filter(b, IsPhoneKept);
      Filter(a, IsPhoneKept) + Filter(p, IsPhoneKept) + Filter(b, IsPhoneKept);
      Filter(a, IsPhoneKept) + [] + Filter(b, IsPhoneKept);
      { assert Filter(a, IsPhoneKept) + [] == Filter(a, IsPhoneKept); }
      PreparePhone(a + b);
    }
  }

  /** Too few characters remain for the default bounds: a short number with a dash, and a long
      string of punctuation only. */
  lemma IsPhoneRejectsShort()
    ensures !IsPhone("12-34")
    ensures !IsPhone("+(--) --")
  {
    FilterDropsAll("+(--) --", IsPhoneKept);
  }
}
