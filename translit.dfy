/**
 * Transliteration of Russian text into Latin letters (`su::translit`) and the web-safe file
 * name built on it (`su::fileName`). The replacement table lives in static state that the
 * first call extends, once, with the capitalised pairs; a `Transliterator` object holds that
 * state.
 */
module Translit {
  import opened MbString
  import opened Chars

  /** An ordered PHP array from search strings (here single letters) to replacements. */
  type Table = seq<(char, string)>

  /** The lower-case table of `$translit` (su.php:51-84), in its order. */
  const LowerTable: Table := [
    ('а', "a"), ('б', "b"), ('в', "v"), ('г', "g"), ('д', "d"), ('е', "e"), ('ё', "e"),
    ('ж', "zh"), ('з', "z"), ('и', "i"), ('й', "j"), ('к', "k"), ('л', "l"), ('м', "m"),
    ('н', "n"), ('о', "o"), ('п', "p"), ('р', "r"), ('с', "s"), ('т', "t"), ('у', "u"),
    ('ф', "f"), ('х', "h"), ('ц', "ts"), ('ч', "ch"), ('ш', "sh"), ('щ', "sh"), ('ъ', ""),
    ('ы', "i"), ('ь', ""), ('э', "e"), ('ю', "ju"), ('я', "ya")
  ]

  /** A letter of the Cyrillic block, where every search key lies. */
  predicate IsCyrillic(c: char) { '\U{0400}' <= c <= '\U{04FF}' }

  predicate IsAscii(c: char) { c < '\U{80}' }

  predicate AsciiString(v: string) { forall k :: 0 <= k < |v| ==> IsAscii(v[k]) }

  /** Every key is a Cyrillic letter and every replacement is ASCII, so no replacement
      contains a key. */
  predicate LatinOverCyrillic(t: Table) {
    forall i :: 0 <= i < |t| ==> IsCyrillic(t[i].0) && AsciiString(t[i].1)
  }

  /** `mb_strtoupper` on a lower-case Russian letter: а-я move down by 0x20, ё becomes Ё. */
  function UpperLetter(c: char): (u: char)
    ensures IsCyrillic(c) ==> IsCyrillic(u)
  {
    if 'а' <= c <= 'я' then (c as int - 0x20) as char
    else if c == 'ё' then 'Ё'
    else c
  }

  /** PHP's `ucfirst` on an ASCII replacement: an initial a-z becomes A-Z, the rest stays. */
  function UcFirst(v: string): (u: string)
    ensures |u| == |v| && (v != [] ==> u[1..] == v[1..])
    ensures v != [] && IsAsciiLower(v[0]) ==> u[0] == (v[0] as int - 32) as char
    ensures AsciiString(v) ==> AsciiString(u)
  {
    if v != [] && IsAsciiLower(v[0]) then [(v[0] as int - 32) as char] + v[1..] else v
  }

  /** One pair of `$upper`: the upper-cased key and the capitalised replacement. */
  function UpperEntry(e: (char, string)): (char, string) {
    (UpperLetter(e.0), UcFirst(e.1))
  }

  /** The `$upper` array the loop at su.php:313-315 builds, in the table's order. */
  function UpperEntries(t: Table): (u: Table)
    ensures |u| == |t|
    ensures forall k :: 0 <= k < |t| ==> u[k] == UpperEntry(t[k])
  {
    if t == [] then [] else UpperEntries(t[..|t| - 1]) + [UpperEntry(t[|t| - 1])]
  }

  /** One more entry of the table adds its upper-case entry at the end. */
  lemma UpperEntriesStep(t: Table, k: nat)
    requires k < |t|
    ensures UpperEntries(t[..k + 1]) == UpperEntries(t[..k]) + [UpperEntry(t[k])]
  {
    assert t[..k + 1][..k] == t[..k];
  }

  /** The position of the first pair whose key is `key`, or `|t|` when there is none. */
  function FirstKey(t: Table, key: char): (i: nat)
    ensures i <= |t| && (i < |t| ==> t[i].0 == key)
    ensures forall j :: 0 <= j < i ==> t[j].0 != key
  {
    if t == [] then 0 else if t[0].0 == key then 0 else 1 + FirstKey(t[1..], key)
  }

  /** The value at `key` is set: the pair holding the key gets the new value in place, the
      other pairs and their order stay; a missing key is appended as a new last pair. */
  function Assign(t: Table, key: char, value: string): (r: Table)
    ensures FirstKey(t, key) < |t| ==> r == t[FirstKey(t, key) := (key, value)]
    ensures FirstKey(t, key) == |t| ==> r == t + [(key, value)]
    ensures LatinOverCyrillic(t) && IsCyrillic(key) && AsciiString(value) ==>
              LatinOverCyrillic(r)
  {
    if t == [] then [(key, value)]
    else if t[0].0 == key then
      assert [(key, value)] + t[1..] == t[0 := (key, value)];
      [(key, value)] + t[1..]
    else
      var r' := Assign(t[1..], key, value);
      assert FirstKey(t, key) < |t| ==> [t[0]] + r' == t[FirstKey(t, key) := (key, value)];
      assert FirstKey(t, key) == |t| ==> [t[0]] + r' == t + [(key, value)];
      [t[0]] + r'
  }

  /** `array_merge($t, $u)` for string keys: the pairs of `u` in order, each overwriting an
      equal key of `t` in place or appended after it. Merging two Latin-over-Cyrillic tables
      gives one. */
  function Merge(t: Table, u: Table): (r: Table)
    ensures LatinOverCyrillic(t) && LatinOverCyrillic(u) ==> LatinOverCyrillic(r)
    decreases |u|
  {
    if u == [] then t else Merge(Assign(t, u[0].0, u[0].1), u[1..])
  }

  function Keys(t: Table): set<char> { set i | 0 <= i < |t| :: t[i].0 }

  /** `str_replace($search, $replace, $s)` for one search string of one character: every
      occurrence of `key` becomes `value`. */
  function ReplaceChar(s: string, key: char, value: string): string {
    if s == [] then [] else (if s[0] == key then value else [s[0]]) + ReplaceChar(s[1..], key, value)
  }

  /** After the assignment `key` is looked up to `value`, and every other character to what
      it was looked up to before. */
  lemma {:induction false} AssignLookup(t: Table, key: char, value: string, c: char)
    ensures Lookup(Assign(t, key, value), c) == if c == key then value else Lookup(t, c)
  {
    if t != [] && t[0].0 != key {
      AssignLookup(t[1..], key, value, c);
      var r := Assign(t, key, value);
      assert r[1..] == Assign(t[1..], key, value);
    }
  }

  /** `str_replace` with arrays: the pairs are applied one after another, each to the result
      of the previous ones. With a table of one-letter keys whose replacements contain no key
      this is the independent per-character map, whatever the order of the pairs. */
  function StrReplace(t: Table, s: string): (r: string)
    ensures LatinOverCyrillic(t) ==> r == MapChars(t, s)
    decreases |t|
  {
    if t == [] then
      MapCharsEmptyTable(s);
      s
    else
      ReplaceThenMap(t, s);
      StrReplace(t[1..], ReplaceChar(s, t[0].0, t[0].1))
  }

  /** The replacement of the first pair whose key is `c`, or `c` itself. */
  function Lookup(t: Table, c: char): string {
    if t == [] then [c] else if t[0].0 == c then t[0].1 else Lookup(t[1..], c)
  }

  /** The reference definition: every character replaced by its entry, independently. A
      string holding no key of the table is left as it is. */
  function MapChars(t: Table, s: string): (r: string)
    ensures (forall k :: 0 <= k < |s| ==> s[k] !in Keys(t)) ==> r == s
  {
    if s == [] then []
    else
      LookupAbsent(t, s[0]);
      Lookup(t, s[0]) + MapChars(t, s[1..])
  }

  lemma {:induction false} MapCharsConcat(t: Table, a: string, b: string)
    ensures MapChars(t, a + b) == MapChars(t, a) + MapChars(t, b)
  {
    if a != [] {
      var c, rest := a[0], a[1..];
      assert a == [c] + rest;
      assert a + b == [c] + (rest + b);
      MapCharsCons(t, c, rest + b);
      MapCharsCons(t, c, rest);
      MapCharsConcat(t, rest, b);
      var x, y, z := Lookup(t, c), MapChars(t, rest), MapChars(t, b);
      assert x + (y + z) == (x + y) + z;
    } else {
      assert a + b == b;
    }
  }

  lemma MapCharsCons(t: Table, c: char, s: string)
    ensures MapChars(t, [c] + s) == Lookup(t, c) + MapChars(t, s)
  {
    assert ([c] + s)[1..] == s;
  }

  /** A string without Cyrillic letters passes through a Latin-over-Cyrillic table unchanged. */
  lemma {:induction false} MapCharsKeepsOthers(t: Table, s: string)
    requires LatinOverCyrillic(t)
    requires forall k :: 0 <= k < |s| ==> !IsCyrillic(s[k])
    ensures MapChars(t, s) == s
  {
    if s != [] {
      LookupMissing(t, s[0]);
      MapCharsKeepsOthers(t, s[1..]);
    }
  }

  lemma {:induction false} LookupMissing(t: Table, c: char)
    requires LatinOverCyrillic(t) && !IsCyrillic(c)
    ensures Lookup(t, c) == [c]
  {
    if t != [] {
      LookupMissing(t[1..], c);
    }
  }

  lemma {:induction false} LookupIsAsciiOrSelf(t: Table, c: char)
    requires LatinOverCyrillic(t)
    ensures Lookup(t, c) == [c] || AsciiString(Lookup(t, c))
  {
    if t != [] && t[0].0 != c {
      LookupIsAsciiOrSelf(t[1..], c);
    }
  }

  /** Replacing one key first and then the rest of the table is the same as looking every
      character up in the whole table, because the replacement holds no key. */
  lemma {:induction false} ReplaceThenMap(t: Table, s: string)
    requires t != []
    ensures LatinOverCyrillic(t) ==>
              MapChars(t[1..], ReplaceChar(s, t[0].0, t[0].1)) == MapChars(t, s)
  {
    if s != [] && LatinOverCyrillic(t) {
      var key, value := t[0].0, t[0].1;
      var piece := if s[0] == key then value else [s[0]];
      assert ReplaceChar(s, key, value) == piece + ReplaceChar(s[1..], key, value);
      MapCharsConcat(t[1..], piece, ReplaceChar(s[1..], key, value));
      ReplaceThenMap(t, s[1..]);
      if s[0] == key {
        forall k | 0 <= k < |value| ensures !IsCyrillic(value[k]) {
          assert IsAscii(value[k]);
        }
        MapCharsKeepsOthers(t[1..], value);
      } else {
        assert MapChars(t[1..], [s[0]]) == Lookup(t[1..], s[0]) + [];
      }
    }
  }

  lemma {:induction false} MapCharsEmptyTable(s: string)
    ensures MapChars([], s) == s
  {
    if s != [] {
      MapCharsEmptyTable(s[1..]);
    }
  }

  /** The table after the first call: `array_merge` of the pairs and their upper-case
      versions. Upper-casing keeps keys Cyrillic and replacements ASCII, so extending a
      Latin-over-Cyrillic table gives one. */
  function Extend(t: Table): (r: Table)
    ensures LatinOverCyrillic(t) ==> LatinOverCyrillic(r)
  {
    Merge(t, UpperEntries(t))
  }

  /** The keys of the lower-case table are Russian lower-case letters. */
  lemma LowerKeysRussian()
    ensures forall i :: 0 <= i < |LowerTable| ==> 'а' <= LowerTable[i].0 <= 'я' || LowerTable[i].0 == 'ё'
  {
  }

  /** The replacements of the lower-case table are ASCII. */
  lemma LowerValuesAscii()
    ensures forall i :: 0 <= i < |LowerTable| ==> AsciiString(LowerTable[i].1)
  {
  }

  lemma LowerTableShape()
    ensures LatinOverCyrillic(LowerTable)
  {
    LowerKeysRussian();
    LowerValuesAscii();
  }

  /** Transliteration leaves no key of the table behind. */
  lemma {:induction false} MapCharsLeavesNoKey(t: Table, s: string)
    requires LatinOverCyrillic(t)
    ensures forall k :: 0 <= k < |MapChars(t, s)| ==> MapChars(t, s)[k] !in Keys(t)
  {
    if s != [] {
      MapCharsLeavesNoKey(t, s[1..]);
      LookupHit(t, s[0]);
      var r := MapChars(t, s);
      var head := Lookup(t, s[0]);
      forall k | 0 <= k < |r| ensures r[k] !in Keys(t) {
        if k >= |head| {
          assert r[k] == MapChars(t, s[1..])[k - |head|];
        } else if s[0] in Keys(t) {
          assert IsAscii(head[k]);
          NonCyrillicIsNoKey(t, head[k]);
        } else {
          LookupAbsent(t, s[0]);
        }
      }
    }
  }

  lemma NonCyrillicIsNoKey(t: Table, c: char)
    requires LatinOverCyrillic(t) && !IsCyrillic(c)
    ensures c !in Keys(t)
  {
    forall i | 0 <= i < |t| ensures t[i].0 != c {
      assert IsCyrillic(t[i].0);
    }
  }

  /** A key of the table is always replaced, by an ASCII string. */
  lemma {:induction false} LookupHit(t: Table, c: char)
    requires LatinOverCyrillic(t)
    ensures c in Keys(t) ==> AsciiString(Lookup(t, c))
  {
    if t != [] && t[0].0 != c {
      LookupHit(t[1..], c);
      if c in Keys(t) {
        var i :| 0 <= i < |t| && t[i].0 == c;
        assert t[1..][i - 1].0 == c;
      }
    }
  }

  /** Transliterating twice is transliterating once. */
  lemma MapCharsIdempotent(t: Table, s: string)
    requires LatinOverCyrillic(t)
    ensures MapChars(t, MapChars(t, s)) == MapChars(t, s)
  {
    MapCharsLeavesNoKey(t, s);
  }

  lemma {:induction false} LookupAbsent(t: Table, c: char)
    ensures c !in Keys(t) ==> Lookup(t, c) == [c]
  {
    if t != [] && c !in Keys(t) {
      assert t[0].0 in Keys(t);
      assert Keys(t[1..]) <= Keys(t) by {
        forall d | d in Keys(t[1..]) ensures d in Keys(t) {
          var i :| 0 <= i < |t[1..]| && t[1..][i].0 == d;
          assert t[i + 1].0 == d;
        }
      }
      LookupAbsent(t[1..], c);
    }
  }

  /** `preg_replace('/\s+/', '-', $s)` without the Unicode modifier: every maximal run of
      ASCII whitespace becomes one dash, scanning from `i`. */
  function DashRuns(s: string, i: nat): (r: string)
    requires i <= |s|
    ensures forall k :: 0 <= k < |r| ==> !IsAsciiSpace(r[k])
    decreases |s| - i
  {
    if i == |s| then []
    else if IsAsciiSpace(s[i]) then ['-'] + DashRuns(s, SkipSpaces(s, i))
    else [s[i]] + DashRuns(s, i + 1)
  }

  /** The end of the run of ASCII whitespace starting at `i`. */
  function SkipSpaces(s: string, i: nat): (j: nat)
    requires i < |s| && IsAsciiSpace(s[i])
    ensures i < j <= |s| && (j == |s| || !IsAsciiSpace(s[j]))
    ensures forall k :: i <= k < j ==> IsAsciiSpace(s[k])
    decreases |s| - i
  {
    if i + 1 < |s| && IsAsciiSpace(s[i + 1]) then SkipSpaces(s, i + 1) else i + 1
  }

  /** A string without ASCII whitespace has no run to replace. */
  lemma {:induction false} DashRunsKeepsPlain(s: string, i: nat)
    requires i <= |s|
    requires forall k :: i <= k < |s| ==> !IsAsciiSpace(s[k])
    ensures DashRuns(s, i) == s[i..]
    decreases |s| - i
  {
    if i < |s| {
      DashRunsKeepsPlain(s, i + 1);
      assert s[i..] == [s[i]] + s[i + 1..];
    }
  }

  /** A stretch without whitespace is copied as it is. */
  lemma {:induction false} DashRunsCopies(s: string, i: nat, j: nat)
    requires i <= j <= |s|
    requires forall k :: i <= k < j ==> !IsAsciiSpace(s[k])
    ensures DashRuns(s, i) == s[i..j] + DashRuns(s, j)
    decreases j - i
  {
    if i < j {
      DashRunsCopies(s, i + 1, j);
      var c, x := s[i], DashRuns(s, j);
      assert DashRuns(s, i) == [c] + DashRuns(s, i + 1);
      assert s[i..j] == [c] + s[i + 1..j];
      assert [c] + (s[i + 1..j] + x) == ([c] + s[i + 1..j]) + x;
    }
  }

  /** A maximal run of whitespace from `i` to `j` becomes a single dash. */
  lemma DashRunsRun(s: string, i: nat, j: nat)
    requires i < j <= |s|
    requires forall k :: i <= k < j ==> IsAsciiSpace(s[k])
    requires j < |s| ==> !IsAsciiSpace(s[j])
    ensures DashRuns(s, i) == "-" + DashRuns(s, j)
  {
  }

  /** The scan from `i` depends only on the characters from `i` on. */
  lemma {:induction false} DashRunsSuffix(s: string, i: nat)
    requires i <= |s|
    ensures DashRuns(s, i) == DashRuns(s[i..], 0)
    decreases |s| - i
  {
    var t := s[i..];
    if i < |s| {
      if IsAsciiSpace(s[i]) {
        var e := SkipSpaces(s, i);
        DashRunsRun(t, 0, e - i);
        DashRunsSuffix(s, e);
        DashRunsSuffix(t, e - i);
        assert t[e - i..] == s[e..];
      } else {
        DashRunsSuffix(s, i + 1);
        DashRunsSuffix(t, 1);
        assert t[1..] == s[i + 1..];
      }
    }
  }

  /** So a whitespace run `w` between a stretch `a` without whitespace and a rest `b` that
      does not begin with whitespace becomes one dash, with `a` kept as it is. Together with
      `DashRunsKeepsPlain` this determines `DashRuns` on every string. */
  lemma DashRunsConcat(a: string, w: string, b: string)
    requires forall k :: 0 <= k < |a| ==> !IsAsciiSpace(a[k])
    requires w != [] && forall k :: 0 <= k < |w| ==> IsAsciiSpace(w[k])
    requires b == [] || !IsAsciiSpace(b[0])
    ensures DashRuns(a + w + b, 0) == a + ("-" + DashRuns(b, 0))
  {
    var s := a + w + b;
    var m := |a| + |w|;
    assert forall k :: 0 <= k < |a| ==> s[k] == a[k];
    assert forall k :: |a| <= k < m ==> s[k] == w[k - |a|];
    assert m < |s| ==> s[m] == b[0];
    DashRunsCopies(s, 0, |a|);
    DashRunsRun(s, |a|, m);
    DashRunsSuffix(s, m);
    assert s[0..|a|] == a;
    assert s[m..] == b;
  }

  /** `[a-z0-9._-]` under the `i` flag: the characters a file name keeps. */
  predicate IsSafe(c: char) {
    ('a' <= c <= 'z') || ('A' <= c <= 'Z') || ('0' <= c <= '9') || c == '.' || c == '_' || c == '-'
  }

  /** The two replacements of `su::fileName` on an already transliterated string. A safe
      name keeps only safe characters, and a string made of them is its own safe name. */
  function SafeName(s: string): (r: string)
    ensures forall k :: 0 <= k < |r| ==> IsSafe(r[k])
    ensures (forall k :: 0 <= k < |s| ==> IsSafe(s[k])) ==> r == s
  {
    SafePassesDashRuns(s);
    Filter(DashRuns(s, 0), IsSafe)
  }

  /** A dash is safe and whitespace is not, so a string of safe characters has no run to
      replace. */
  lemma SafePassesDashRuns(s: string)
    ensures (forall k :: 0 <= k < |s| ==> IsSafe(s[k])) ==> DashRuns(s, 0) == s
  {
    if forall k :: 0 <= k < |s| ==> IsSafe(s[k]) {
      DashRunsKeepsPlain(s, 0);
      assert s[0..] == s;
    }
  }

  /** Building a safe name twice changes nothing the second time. */
  lemma SafeNameIdempotent(s: string)
    ensures SafeName(SafeName(s)) == SafeName(s)
  {
  }

  /** The static state of `su`: the replacement table and whether it has been extended. */
  class Transliterator {
    /** The table the class starts with. */
    const initial: Table
    var table: Table
    var parsed: bool

    /** Before the first call the table is the initial one; after it, the extended one. */
    ghost predicate Valid()
      reads this
    {
      && LatinOverCyrillic(initial)
      && table == if parsed then Extend(initial) else initial
    }

    constructor()
      ensures Valid() && !parsed && initial == LowerTable
    {
      initial := LowerTable;
      table := LowerTable;
      parsed := false;
      LowerTableShape();
    }

    /** `su::translit($s)`. The first call appends to the table the upper-case key and the
        capitalised replacement of every pair (su.php:311-319); every call then runs
        `str_replace` with the table, which is the per-character map. */
    method Translit(s: string) returns (r: string)
      requires Valid()
      modifies this
      ensures Valid() && parsed
      ensures r == StrReplace(Extend(initial), s) == MapChars(Extend(initial), s)
    {
      if !parsed {
        var t := table;
        var upper: Table := [];
        for k := 0 to |t|
          invariant upper == UpperEntries(t[..k])
        {
          UpperEntriesStep(t, k);
          upper := upper + [UpperEntry(t[k])];
        }
        assert t[..|t|] == t;
        table := Merge(t, upper);
        parsed := true;
      }
      r := StrReplace(table, s);
    }

    /** `su::fileName($s)`: transliterate, turn runs of whitespace into a dash, and drop every
        character outside `[A-Za-z0-9._-]`. */
    method FileName(s: string) returns (r: string)
      requires Valid()
      modifies this
      ensures Valid() && parsed
      ensures r == SafeName(MapChars(Extend(initial), s))
    {
      var t := Translit(s);
      r := Filter(DashRuns(t, 0), IsSafe);
    }
  }
}
