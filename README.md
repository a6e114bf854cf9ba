# php-su string utilities, modelled in Dafny

This project models the class `su` of the php-su library (su.php). `su` is a set of
deterministic string and integer helpers for Russian-language web sites:

- joining path segments (`glue`), with `startsWith`/`endsWith`;
- shortening a string by cutting out its middle (`shorten`), or cutting it at a space
  (`cutOnSpace`);
- picking the Russian plural form for a number (`caseForNumber`) and rendering a time
  interval (`duration`);
- transliterating Russian text into Latin letters (`translit`) and making a safe file name
  (`fileName`);
- checking e-mail addresses and phone numbers (`isEmail`, `preparePhone`, `isPhone`);
- recognising, normalising and beautifying URLs (`isUrl`, `normalizeUrl`, `beautifyUrl`);
- turning the URLs in plain text into HTML links (`parseUrls`).

Strings are sequences of code points, as the library's `mb_*` calls treat them. Each fixed
regular expression is replaced by a hand-written recogniser or matcher. The module for a
pattern proves that its recogniser accepts exactly the language of the pattern (`isUrl`,
`isEmail`), or that its matcher is sound and complete for the pattern (`parseUrls`).

Modules, in dependency order:

- `Wrappers`: the `Option` type.
- `Chars`: the character classes `\w`, `\s` and those of the patterns.
- `MbString`: the PHP primitives (`mb_substr`, `mb_strpos`, `rtrim`/`ltrim`, `implode`),
  plus the library's `startsWith` and `endsWith`.
- `Joiner`: `glue`, as a method that reassigns its result step by step.
- `Truncate`: `shorten` and `cutOnSpace`.
- `Plural`: `caseForNumber`, and `duration` as a method with a loop proved against the
  specification function `Decompose`.
- `Translit`: `translit` and `fileName`, as methods of a `Transliterator` class. The class
  holds the static replacement table that the first call extends with upper-case pairs.
- `Contact`: `isEmail`, `preparePhone` and `isPhone`.
- `Url`: `isUrl`, `normalizeUrl`, `rawurldecode` (with an encoder as its inverse) and
  `beautifyUrl`.
- `Linkify`: the backtracking matcher for the pattern of `parseUrls`, the scan, the
  rendering, `htmlspecialchars` and the default callback.

Points where the behaviour of the code differs from what its comments suggest. The model
follows the code:

- The scheme of `isUrl`, `normalizeUrl` and `parseUrls` is lowercase only, because no
  pattern has the `i` flag: `HTTP://x.com` is not a URL.
- The host of `isUrl` may contain `_`, because `\w` does (the FIXME at su.php:416).
- The host found by `parseUrls` may begin with `.` or `-`. Such a match is not a URL for
  `isUrl`, and the default callback returns it unchanged (`Linkify.DefaultLinkOfMatch`).
- `endsWith($s, '')` is false for every non-empty `$s`, because `mb_substr($s, -0)` is the
  whole string.
- The scheme test of `normalizeUrl` is not anchored (Finding 2 below).
- `glue` drops one copy of `p` from each side, not all of them: `glue("/", "a//", "b")` is
  `a//b`, although the doc comment at su.php:114 promises exactly one `p` at the joint
  (`Joiner.JointKeepsFurtherCopies`).
- `shorten` overshoots when the budget left for the two ends is 0 or 1, that is for the
  limits 0, 1 and 4 with the default glue (Finding 1 below).
- Without the `D` modifier, `$` also matches before a final newline. `isUrl` and `isEmail`
  therefore accept one trailing `"\n"`, and the model does too.

## Model

| member | source | states |
|---|---|---|
| MbString.SubstrFrom | su.php:108 | `mb_substr($s, $start)` is the suffix from a non-negative start (empty past the end), or the last `-start` characters (all of them if there are fewer); so `-0` gives the whole string |
| MbString.Substr | su.php:136 | `mb_substr` with a non-negative start and length is the slice clamped to the string; from 0 with a negative length it drops that many characters at the end, or all of them |
| MbString.StrPos | su.php:272 | `mb_strpos` finds the first occurrence at or after the offset, and finds none exactly when there is none |
| MbString.RTrim | su.php:170 | `rtrim` returns a prefix of the string that is empty or ends in a character outside the default set, and every character it removed is in that set |
| MbString.LTrim | su.php:170 | `ltrim` returns a suffix that is empty or begins with a character outside the default set, and every character it removed is in that set |
| MbString.RTrimKeeps | su.php:170 | a string that ends in a character outside the set is unchanged by `rtrim` |
| MbString.LTrimKeeps | su.php:170 | a string that begins with a character outside the set is unchanged by `ltrim` |
| MbString.StartsWith | su.php:94-97 | `startsWith` holds exactly when `p` is a prefix of `s` |
| MbString.EndsWith | su.php:106-109 | `endsWith` holds exactly when `p` is a non-empty suffix of `s`, or both are empty |
| MbString.Filter | su.php:445 | deleting a character class never lengthens the string, leaves only characters outside the class, and leaves a string without class characters unchanged |
| MbString.FilterChar | su.php:445 | a single character is kept exactly when it is outside the deleted class |
| MbString.FilterSnoc | su.php:445 | a further character at the end is kept at the end exactly when it is outside the class, so the kept characters stay in their order |
| MbString.FilterConcat | su.php:445 | deleting a class distributes over concatenation, so deleting runs equals deleting single characters |
| MbString.Join | su.php:399 | `implode` of no parts is empty and of one part is that part |
| MbString.DecimalString | su.php:395 | the decimal rendering of a count is a non-empty string of digits without a leading zero, except `"0"` for 0, and the digits read back as the count |
| Joiner.Glue | su.php:130-144 | the result is `s1` without one trailing `p`, then `p`, then `s2` without one leading `p`; with `start`/`end` it also begins/ends with `p` |
| Joiner.JointHoldsOneSeparator | su.php:132-139 | each of the three cases (both sides, one side, neither side carries `p`) gives `s1` without one trailing `p`, `p`, and `s2` without one leading `p` |
| Joiner.JointKeepsFurtherCopies | su.php:132-139 | `glue("/", "a//", "b")` is `a//b`: further copies of `p` stay at the joint |
| Joiner.SeparatorsAtEnds | su.php:141-142 | the leading and trailing separator are added only when missing, and adding the trailing one keeps the leading one |
| Joiner.LeadingSeparator | su.php:141 | after the leading step the string is the optional `p` followed by the joint, and begins with `p` when `start` is set |
| Joiner.TrailingSeparator | su.php:142 | after the trailing step the string is the one before it followed by `p` only if `end` is set and it did not end with `p`; a leading `p` stays, and with `end` it ends with `p` |
| Joiner.EmptySeparatorTests | su.php:94-109 | `startsWith($s, '')` always holds, `endsWith($s, '')` only for an empty `$s`, and dropping an empty separator changes nothing |
| Joiner.EmptySeparatorJoint | su.php:132-138 | with an empty separator the two strings are concatenated |
| Joiner.BothSidesJoint | su.php:136 | when both sides carry `p`, cutting it from `s1` gives `s1` without it, `p`, and `s2` without its `p` |
| Joiner.OneSideJoint | su.php:138 | when exactly one side carries `p`, plain concatenation is `s1` without one trailing `p`, `p`, and `s2` without one leading `p` |
| Joiner.LeftSideJoint | su.php:138 | when only `s1` ends with `p`, plain concatenation is `s1` without it, `p`, and `s2` |
| Joiner.RightSideJoint | su.php:138 | when only `s2` starts with `p`, plain concatenation is `s1`, `p`, and `s2` without it |
| Truncate.RoundHalf | su.php:167 | `round($n / 2)` is the ceiling of `n / 2` for `n >= 0`, and rounds away from zero for a negative `n` |
| Truncate.Budget | su.php:163-166 | the budget shared by the two ends, the widened limit less the glue, lies between 0 and the widened limit |
| Truncate.Shorten | su.php:158-171 | a string within the widened limit is unchanged; otherwise the right-trimmed first `round(budget/2)` characters, the glue and the left-trimmed last `budget - round(budget/2)` characters, except that a right part of 0 keeps the whole string on the right |
| Truncate.SpliceKeepsEnds | su.php:170 | the splice keeps the first `left` and last `right` characters, except that `right = 0` keeps everything |
| Truncate.SpliceFixedKeepsEnds | su.php:170 | the corrected splice keeps exactly the two ends, at most `left + right` characters besides the glue |
| Truncate.ShortenFixed | su.php:158-171 | the corrected `shorten`: unchanged within the limit, otherwise exactly the two trimmed ends, and never longer than the widened limit |
| Truncate.KeepEndsLength | su.php:170 | the two kept ends plus the glue are no longer than the two budgets plus the glue |
| Truncate.ShortenFixedAgrees | su.php:160-170 | the code and the correction agree, and stay within the limit, whenever the budget is at least two or the string is short |
| Truncate.ShortenBudgetOne | su.php:166-170 | with limit 4 and the default glue, a longer string whose first character `rtrim` keeps gives its first character, `...` and the whole string; the correction gives the first character and `...` |
| Truncate.ShortenBudgetOneOvershoots | su.php:166-170 | `shorten("abcdefgh", 4)` is `"a...abcdefgh"`, longer than its input; the correction gives `"a..."` |
| Truncate.CutOnSpace | su.php:264-278 | a short string is unchanged; otherwise the input up to the first space at or after `len` (or all of it) followed by `append` |
| Plural.PhpRem | su.php:295 | PHP's `%` is below the divisor in magnitude, differs from the dividend by a multiple of the divisor, and takes the dividend's sign |
| Plural.MagnitudeRem | su.php:295 | a non-negative number and its Euclidean remainder differ by a multiple of the divisor |
| Plural.MultipleOfDivisor | su.php:295 | a multiple of the divisor leaves no remainder |
| Plural.AbsPhpRem | su.php:295 | `abs($n % $b)` is the remainder of `abs($n)` |
| Plural.CaseIndex | su.php:295-300 | the form index is always 0, 1 or 2 |
| Plural.CaseForNumber | su.php:293-301 | 11-19 (mod 100 of the magnitude) take the third form; otherwise last digit 1 the first, 2-4 the second, 0 and 5-9 the third |
| Plural.LastDigitOfLastTwo | su.php:296-298 | the last digit of the number mod 100 is the number's own last digit |
| Plural.CaseForNumberIgnoresSign | su.php:295 | the sign of the number does not change the form |
| Plural.CaseForNumberExamples | su.php:293-301 | 1 and 21 take the first form, -3 the second, 11, 112 and 0 the third |
| Plural.UnitSize | su.php:29-34 | every unit is at least one second long |
| Plural.Decompose | su.php:389-397 | the components name units from the current one on |
| Plural.DivideByUnit | su.php:393-394 | a unit the interval reaches gives a count of at least one, a remainder below the unit, and they add back up |
| Plural.DecomposeWellFormed | su.php:389-397 | components come in the order d, h, m, s, each unit at most once, each count at least one |
| Plural.DecomposeSums | su.php:393-396 | count times unit size, summed over the components, is the interval |
| Plural.CountBelowRatio | su.php:393-394 | a count taken below the previous unit is below the ratio of the two sizes |
| Plural.DecomposeBounded | su.php:389-397 | after the first unit, each count is below the ratio to the unit before it |
| Plural.DecomposeNonPositive | su.php:390 | a non-positive interval gives no components |
| Plural.DurationParts | su.php:381-400 | hours below 24, minutes and seconds below 60, counts at least one, units in order, summing to the interval; nothing for `interval <= 0` |
| Plural.RenderParts | su.php:395 | one rendered piece per component |
| Plural.DecomposeStep | su.php:390-396 | one loop step moves the whole count of a unit the interval reaches and continues with the remainder |
| Plural.DecomposeTake | su.php:393-394 | the count the loop computes is non-negative and is the head of the decomposition, the remainder its rest |
| Plural.RenderCons | su.php:395 | rendering a component in front renders it first |
| Plural.MovePiece | su.php:395 | moving the first piece of the rest to the end of the result keeps the whole |
| Plural.MoveRendered | su.php:395 | moving the first rendered component of the rest to the result keeps the whole |
| Plural.RenderSkip | su.php:390 | a unit the remaining interval does not reach is skipped and the loop invariant still holds |
| Plural.RenderTake | su.php:393-396 | a unit the remaining interval reaches moves its whole count, rendered, into the result, and the loop invariant still holds |
| Plural.LoopDone | su.php:397-399 | after the last unit the gathered pieces are the whole rendering |
| Plural.DurationWith | su.php:388-399 | the loop's result joins with spaces exactly the rendered components of `Decompose`; empty for `interval <= 0` |
| Plural.Duration | su.php:381-400 | `duration` with the short or full unit names is that join |
| Translit.UpperLetter | su.php:314 | upper-casing keeps a Cyrillic letter Cyrillic |
| Translit.UcFirst | su.php:314 | `ucfirst` changes only an initial a-z to A-Z, and keeps an ASCII string ASCII |
| Translit.UpperEntries | su.php:312-315 | the upper-case array holds one upper-cased pair per pair of the table, in order |
| Translit.UpperEntriesStep | su.php:311-319 | each further pair of the table adds its upper-case pair at the end of the added entries |
| Translit.FirstKey | su.php:317 | the position of the first pair with the key, or the table's length when no pair has it |
| Translit.Assign | su.php:317 | setting a key overwrites its first pair in place or appends a new last pair, and keeps a Latin-over-Cyrillic table one |
| Translit.AssignLookup | su.php:317 | after setting, the key is looked up to the new value and every other character as before |
| Translit.Merge | su.php:317 | `array_merge` of two Latin-over-Cyrillic tables is one |
| Translit.Extend | su.php:311-319 | the table extended with its upper-case pairs is still Latin over Cyrillic |
| Translit.LowerKeysRussian | su.php:51-84 | every key of the table is a lower-case Russian letter |
| Translit.LowerValuesAscii | su.php:51-84 | every replacement in the table is ASCII |
| Translit.LowerTableShape | su.php:51-84 | the table is Latin over Cyrillic |
| Translit.StrReplace | su.php:321-326 | `str_replace` with the arrays of a Latin-over-Cyrillic table equals the independent per-character map, whatever the order of the pairs |
| Translit.MapChars | su.php:321-326 | text holding no key of the table is unchanged |
| Translit.MapCharsConcat | su.php:321-326 | the per-character map distributes over concatenation |
| Translit.MapCharsCons | su.php:321-326 | a character in front is replaced by its entry in front |
| Translit.LookupMissing | su.php:321-326 | a non-Cyrillic character has no replacement |
| Translit.MapCharsKeepsOthers | su.php:321-326 | text without Cyrillic letters is unchanged |
| Translit.LookupIsAsciiOrSelf | su.php:321-326 | a character is replaced by ASCII text or kept |
| Translit.ReplaceThenMap | su.php:321-326 | replacing the first key and then mapping with the rest of the table is mapping with the whole table |
| Translit.MapCharsEmptyTable | su.php:321-326 | an empty table changes nothing |
| Translit.NonCyrillicIsNoKey | su.php:321-326 | a non-Cyrillic character is no key |
| Translit.LookupHit | su.php:321-326 | a key is always replaced by ASCII text |
| Translit.LookupAbsent | su.php:321-326 | a character that is no key is kept |
| Translit.MapCharsLeavesNoKey | su.php:321-326 | transliterated text holds no key of the table |
| Translit.MapCharsIdempotent | su.php:321-326 | transliterating twice is transliterating once |
| Translit.DashRuns | su.php:365-366 | after replacing whitespace runs by `-` no ASCII whitespace remains |
| Translit.SkipSpaces | su.php:365 | the whitespace run extends to the first non-space character |
| Translit.DashRunsKeepsPlain | su.php:365-366 | text without whitespace is unchanged by that replacement |
| Translit.DashRunsCopies | su.php:365-366 | a stretch without whitespace is copied as it is |
| Translit.DashRunsRun | su.php:365 | a maximal whitespace run becomes a single dash |
| Translit.DashRunsSuffix | su.php:365-366 | the replacement from a position depends only on the text from there on |
| Translit.DashRunsConcat | su.php:365-366 | a stretch without whitespace, a whitespace run and a rest become the stretch, one dash and the replaced rest |
| Translit.SafeName | su.php:363-368 | a file name holds only `[A-Za-z0-9._-]`, and a string of those is its own file name |
| Translit.SafePassesDashRuns | su.php:365-366 | a string of file-name characters has no whitespace run to replace |
| Translit.SafeNameIdempotent | su.php:363-368 | making a file name twice is making it once |
| Translit.Transliterator.constructor | su.php:50-84 | the static state starts with the lower-case table, not yet extended |
| Translit.Transliterator.Translit | su.php:309-327 | the first call extends the table once; every call returns `str_replace` with the extended table, which is the per-character map |
| Translit.Transliterator.FileName | su.php:361-369 | `fileName` is the safe name of the transliteration |
| Contact.EmailBody | su.php:436 | the scan at the first `@` accepts exactly name `@` domain over `[\w.-]` |
| Contact.EmailShapeSplits | su.php:436 | a string of that shape splits at its first `@` into the name and the domain |
| Contact.IsEmail | su.php:434-437 | `isEmail` holds exactly for name `@` domain, optionally followed by one newline |
| Contact.IsEmailAccepts | su.php:436 | `a.b@c` and `x@y` plus a newline are accepted |
| Contact.IsEmailRejects | su.php:436 | `@y`, `x@` and `a b@c` are rejected |
| Contact.PreparePhone | su.php:443-446 | the prepared number is no longer than the input, holds none of the removed characters, and is the input itself when it holds none |
| Contact.PreparePhoneIdempotent | su.php:443-446 | preparing twice is preparing once |
| Contact.FilterDropsAll | su.php:445 | a string made only of removed characters vanishes |
| Contact.PreparePhoneIgnoresPunct | su.php:443-464 | punctuation inserted anywhere changes neither the prepared number nor `isPhone` |
| Contact.DigitsKept | su.php:445 | a string of digits is unchanged by preparation |
| Contact.IsPhone | su.php:459-464 | an accepted number has at least `minLen` characters, and a string of digits is a phone number exactly when its length is in range |
| Contact.IsPhoneRejectsShort | su.php:459-464 | `12-34` and a string of punctuation only are too short |
| Url.SchemeLenAt | su.php:423 | the recognised scheme is empty or `[a-z0-9]+://` at the start |
| Url.SchemeLenOfScheme | su.php:423 | a scheme in front of the host is the one recognised |
| Url.SchemeLenOfSplit | su.php:423 | with no scheme, a host that stops before a scheme character or `:` gives an empty scheme |
| Url.SplitFound | su.php:423 | for every split into scheme, host and path, the greedy scan finds that scheme and that host end |
| Url.ShapeFound | su.php:423 | a string of the pattern's language splits where the greedy scan says |
| Url.UrlBody | su.php:423 | the recogniser accepts exactly scheme + host + path, the language of the pattern |
| Url.UrlBodyOfSplit | su.php:423 | every split into scheme, host and path is recognised |
| Url.IsUrl | su.php:421-424 | `isUrl` holds exactly for the pattern's language, optionally followed by one newline |
| Url.IsUrlAcceptsHost | su.php:416-423 | `example.com` is a URL |
| Url.IsUrlAcceptsWord | su.php:416-423 | `justword` is a URL |
| Url.IsUrlAcceptsUnderscore | su.php:416-423 | `a_b` is a URL |
| Url.IsUrlAcceptsFull | su.php:416-423 | `http://x.ru/a?b` is a URL |
| Url.IsUrlRejectsUpperScheme | su.php:423 | `HTTP://x.com` is not a URL |
| Url.IsUrlRejectsSpace | su.php:423 | `has space` is not a URL |
| Url.NormalizeUrl | su.php:477-483 | null exactly for non-URLs; otherwise the input itself exactly when `[a-z0-9]+://` occurs anywhere in it, and `scheme://` and the input when it does not; with a scheme name as default the result is a URL holding a scheme marker |
| Url.NormalizeUrlAnchored | su.php:477-483 | the corrected `normalizeUrl`: null exactly for non-URLs; otherwise the input itself exactly when it begins with a scheme, and `scheme://` and the input when it does not; the result is a URL that begins with a scheme |
| Url.PrependGivesMarker | su.php:481 | prepending a scheme name and `://` to a URL without a leading scheme gives a URL that begins with a scheme and holds a marker |
| Url.LeadingSchemeIsMarker | su.php:481 | a leading scheme is a scheme marker |
| Url.HostPathAfter | su.php:481 | a host and path stay a host and path behind a prefix |
| Url.SchemeInFront | su.php:481 | a prepended scheme name is recognised as the scheme |
| Url.PrependScheme | su.php:481 | prepending `scheme://` to a scheme-less URL gives a URL with that scheme |
| Url.SchemeBeforeNewline | su.php:481 | a final newline does not change the recognised scheme |
| Url.PrependKeepsUrl | su.php:481 | prepending a scheme keeps a URL a URL |
| Url.PrependBeforeNewline | su.php:481 | the same for a URL followed by the newline that `$` lets through |
| Url.MarkedIsFixed | su.php:481 | a URL that starts with a scheme holds a marker and is left as it is |
| Url.NormalizeUrlPrepends | su.php:481 | a URL without a marker gets the default scheme and `://` in front, and the result is left as it is when normalised again |
| Url.NormalizeUrlProperties | su.php:477-483 | null exactly for non-URLs; a result is a URL holding a scheme marker, and normalising it again changes nothing |
| Url.NormalizeUrlAnchoredProperties | su.php:477-483 | null exactly for non-URLs; a URL with a scheme is unchanged, one without gets `scheme://`; the result has a scheme and is stable |
| Url.SchemeInQueryShape | su.php:481 | `x.com/?u=a://b` has host `x.com` and the rest as path |
| Url.SchemeInQueryIsUrl | su.php:481 | `x.com/?u=a://b` is a URL |
| Url.SchemeInQueryMarker | su.php:481 | `x.com/?u=a://b` holds a scheme marker in its path |
| Url.NormalizeUrlSchemeInQuery | su.php:481 | the code returns `x.com/?u=a://b` unchanged, without a scheme |
| Url.NormalizeUrlAnchoredSchemeInQuery | su.php:481 | the correction returns `http://x.com/?u=a://b` |
| Url.EscapeValue | su.php:501 | a `%XX` escape decodes to a code below 256 |
| Url.RawUrlDecode | su.php:501 | decoding never lengthens the text |
| Url.DecodeCons | su.php:501 | a character other than `%` in front is kept in front |
| Url.DecodeKeepsPlain | su.php:501 | text without `%` passes through `rawurldecode` unchanged, in front of whatever follows |
| Url.HexDigitOf | su.php:501 | the hex digit written for a value is read back as that value |
| Url.DecodeEncode | su.php:501 | `rawurldecode(rawurlencode(s)) == s` for byte-range text |
| Url.DecodeUrl | su.php:501 | decoding leaves scheme and host alone and keeps the path's leading slash |
| Url.DecodedUrlShape | su.php:501-503 | the decoded URL still splits into scheme, host and slash-led rest |
| Url.SchemeHostPlain | su.php:501 | the scheme and host of a URL hold no `%`, so decoding leaves them alone |
| Url.SchemeAtPrefix | su.php:503 | a scheme is recognised from a prefix alone, so a string with the same prefix has it too |
| Url.BeautifyTail | su.php:504 | a one-character rest is dropped, a rest within the widened limit is kept, and with the corrected `shorten` the tail never exceeds the widened limit |
| Url.BeautifyFromUrl | su.php:503-504 | on a decoded URL whose path holds no newline the replacement matches once: the host followed by the callback's tail of the rest, the scheme dropped |
| Url.BeautifyFromOnce | su.php:503-504 | once scheme, host end and match end are known, the replacement is the host followed by the tail |
| Url.BeautifyUrl | su.php:497-506 | null exactly for non-URLs |
| Url.BeautifyUrlParts | su.php:497-506 | on a URL whose decoded path holds no newline, `beautifyUrl` is the host followed by the tail of the decoded path, shortened by `shorten` as written or by the correction; the corrected tail stays within the widened limit |
| Url.BeautifyUrlFixedAgrees | su.php:497-506 | for the limits 2, 3 and 5 and above, on a URL whose decoded path holds no newline, the code and the correction give the same result, and the code's tail stays within the widened limit |
| Url.DecodedPathAtFour | su.php:501-504 | with limit 4 a decoded path longer than 4 becomes `/...` followed by the whole path; the correction gives `/...` |
| Url.PathShortenedAtFour | su.php:504 | with limit 4 a slash-led rest longer than 4 becomes `/...` and the whole rest; the correction gives `/...` |
| Url.BeautifyUrlLimitFourOvershoots | su.php:497-506 | `beautifyUrl($s, 4)` on a URL whose decoded path is longer than 4 and holds no newline is the host, `/...` and the whole path; the correction gives the host and `/...` |
| Url.SchemeHostSlash | su.php:497-506 | `scheme://host/` splits into scheme, host and a lone slash |
| Url.BeautifyUrlDropsSchemeAndSlash | su.php:497-506 | `scheme://host/` beautifies to `host`, as written and corrected |
| Url.BeautifyUrlKeepsHost | su.php:497-506 | a bare host beautifies to itself, as written and corrected |
| Linkify.PathSearch | su.php:527 | a path found after the slash is a path of the pattern followed by the lookaheads |
| Linkify.AfterHost | su.php:527 | what follows the host is a path or nothing, followed by the lookaheads |
| Linkify.WordSearch | su.php:527 | a found `\.\w+` tail with what follows it fits the pattern |
| Linkify.DotSearch | su.php:527 | a found dot starts a `\.\w+` tail that fits the pattern |
| Linkify.HostSearch | su.php:527 | a found host is host characters ending in a fitting `\.\w+` tail |
| Linkify.MatchAt | su.php:527 | a match found at a position starts there and is a match of the pattern |
| Linkify.PathSearchComplete | su.php:527 | every fitting path end below the bound is found |
| Linkify.AfterHostComplete | su.php:527 | if the host end admits a path or nothing, the search succeeds |
| Linkify.DotSearchComplete | su.php:527 | every fitting dot is found |
| Linkify.WordAtDot | su.php:527 | a dot that the pattern can use is followed by a word character, and the host search from there succeeds |
| Linkify.HostSearchComplete | su.php:527 | every fitting host is found |
| Linkify.MatchAtComplete | su.php:527 | wherever a match of the pattern starts, the matcher finds one |
| Linkify.MatchAtFound | su.php:527 | a fitting lookbehind, an optional scheme and a host found after it make a match |
| Linkify.Scan | su.php:527-529 | every piece of the scan lies inside the text |
| Linkify.ScanProperties | su.php:527-529 | the pieces tile the text; every link is a match of the pattern; no match starts at a kept character |
| Linkify.RenderIdentity | su.php:527-529 | over pieces that tile the text, rendering with a callback that returns its argument gives the text back |
| Linkify.IdentityCallbackKeeps | su.php:527-529 | the scan rendered with such a callback is the text |
| Linkify.ParseUrls | su.php:518-530 | `parseUrls` with a callback that returns its argument changes nothing |
| Linkify.SchemeAtSlice | su.php:527 | a scheme in the text is a scheme of the match |
| Linkify.HostSlice | su.php:527 | the host of a match is host characters ending in a word character |
| Linkify.PathSlice | su.php:527 | the path of a match is a path for `isUrl` |
| Linkify.MatchSchemePart | su.php:527 | the scheme of a match is a scheme of the matched text, followed by at least three host characters |
| Linkify.MatchHostPart | su.php:527 | the host of a match, seen inside the matched text, is host characters ending in a word character |
| Linkify.MatchPathPart | su.php:527 | the rest of a match is a path for `isUrl` that starts with `/` and does not end in white space |
| Linkify.MatchShape | su.php:527 | a match splits into a scheme, a host and a path as `isUrl` sees them |
| Linkify.UrlIffHostWord | su.php:423 | such a split is a URL exactly when the host begins with a word character |
| Linkify.MatchIsUrlIff | su.php:522 | a match passes the callback's `isUrl` test exactly when its host begins with a word character |
| Linkify.EscapeChar | su.php:523 | an escaped character is non-empty and holds no `<`, `>` or `"` |
| Linkify.HtmlEscape | su.php:523 | `htmlspecialchars_decode(htmlspecialchars(s)) == s` |
| Linkify.UnescapeChar | su.php:523 | unescaping one escaped character in front gives it back in front |
| Linkify.UnescapeEntity | su.php:523 | each of `&`, `<`, `>` and `"`, escaped in front of any text, decodes back to itself in front of that text's decoding |
| Linkify.EscapedIsInert | su.php:523 | escaped text holds no `<`, `>` or `"`, so it cannot leave the attribute |
| Linkify.InertConcat | su.php:523 | two pieces without markup characters make a string without them |
| Linkify.Element | su.php:523 | the element around an escaped value and label starts with `<a href="` |
| Linkify.LinkTag | su.php:523 | the result is `<a href="a">b</a>` where neither `a` nor `b` holds `<`, `>` or `"`, `a` decodes to the target and `b` to the label |
| Linkify.ElementParts | su.php:523 | the value sits at offset 9 and is followed by `"`; the label follows the `">` after it |
| Linkify.ElementInjective | su.php:523 | with an inert value, the element determines its value and its label |
| Linkify.LinkDeterminesParts | su.php:523 | a link element has one target and one label: any two readings of it agree |
| Linkify.DefaultLink | su.php:521-524 | the default callback returns a non-URL unchanged; a URL becomes a link element whose escaped target decodes to `normalizeUrl(u)` and whose escaped label decodes to `beautifyUrl(u)` |
| Linkify.DefaultLinkFixed | su.php:521-524 | the callback built on the corrections returns a non-URL unchanged; a URL becomes a link element whose target decodes to the anchored `normalizeUrl(u)` and whose label to `beautifyUrl(u)` with the corrected `shorten` |
| Linkify.CallbackKeepsOrLinks | su.php:521-524 | a string that does not begin with `<` is kept by either callback exactly when it is not a URL; a URL becomes a link |
| Linkify.MatchOpensPlain | su.php:527 | a match is non-empty and does not begin with `<` |
| Linkify.DefaultLinkOfMatch | su.php:521-524 | either callback keeps a match exactly when its host does not begin with a word character, and otherwise makes a link |

## Left out

- `ucfirst`, `lcfirst`, `ucwords`, `lcwords`, `isLowercase` and `isUppercase` are not part of
  this model: they wrap the Unicode case tables of `mb_strtoupper`/`mb_strtolower`.
- `fileSize` is not part of this model: it uses float division, rounding and float
  formatting.
- The exact Unicode extent of `\w` is not modelled. `IsWord` is the ASCII word characters
  plus the Russian alphabet (U+0410–U+044F, Ё and ё); other Cyrillic letters such as і or є
  are not word characters here. `\s` is the Unicode white-space set plus U+180E, which PCRE2
  keeps in `\h`.
- MbString.Filter: its own ensures bound the result and say what it holds, but not that the
  kept characters keep their order. `MbString.FilterChar`, `MbString.FilterSnoc` and
  `MbString.FilterConcat` state that, character by character.
- Truncate.Shorten: the contract is stated for `len >= 0` only. A negative `len` reaches the
  negative-offset rules of `mb_substr`, which the function models but no lemma describes.
- Truncate.CutOnSpace: `len` is a natural number. A negative `len` reaches `mb_strpos` with
  a negative offset.
- MbString.StrPos: an offset beyond the string (PHP 8 throws) is excluded by its `requires`.
  `cutOnSpace` never passes one.
- Url.RawUrlDecode: its own ensures only bound the length. An escape that decodes to a byte
  of 0x80 or above yields the character with that code, not a byte of a UTF-8 sequence, and
  invalid UTF-8 is not modelled. That text without `%` passes unchanged is stated by
  `Url.DecodeKeepsPlain` and `Url.DecodeCons`, and the round trip by `Url.DecodeEncode`.
- Url.BeautifyFrom: the global `preg_replace_callback` of `beautifyUrl` has no contract of its
  own. `Url.BeautifyFromUrl`, `Url.BeautifyFromOnce` and `Url.BeautifyUrlParts` describe it on
  decoded URLs whose path holds no newline; the function handles a decoded newline, but no
  lemma describes that case.
- Url.BeautifyUrlParts: requires that the decoded path holds no newline, for the reason above.
- Url.DecodeEncode: the encoder is a partner of `rawurldecode` for the round trip. The
  library does not call `rawurlencode`.
- Linkify.Render: the splicing of replaced and copied pieces has no contract of its own. It is
  described by `Linkify.RenderIdentity` over any tiling, and `Linkify.ParseUrls` and
  `Linkify.DefaultLinkOfMatch` describe what it does with the scan.
- Linkify.EscapeChar: `htmlspecialchars` escapes `&`, `<`, `>` and `"`. Whether it also
  escapes `'`, and what it does with invalid UTF-8, depends on the PHP version.
- Linkify.ParseUrls: the callback is a pure function. A PHP callable with side effects is
  not modelled.
- Linkify.DefaultLink: the default callback as written, with `normalizeUrl` and `shorten` as
  the code has them. `Linkify.DefaultLinkFixed` is the same callback built on the
  corrections of both findings below; `Linkify.ParseUrls` takes either.
- Url.BeautifyUrl: with `fixed` false it uses `shorten` as written; with `fixed` true, the
  corrected `Truncate.ShortenFixed` (Finding 1). The two agree for the limits 2, 3 and 5 and
  above (`Url.BeautifyUrlFixedAgrees`), the default 15 included; they differ for the limits
  0, 1 and 4 (`Url.BeautifyUrlLimitFourOvershoots` shows 4).
- Contact.PreparePhone: deleting runs of the class is modelled as deleting each character
  of it, which gives the same string (`MbString.FilterConcat`).
- Plural.Duration: a PHP integer larger than 64 bits, or a float interval, is not
  modelled. `interval` is an unbounded integer.

## Findings

| source | as written | input that shows it | evidently intended | confidence | as-written member | corrected member |
|---|---|---|---|---|---|---|
| su.php:166-170 | with a budget `len - glen` of 1, `$right` is 0 and `mb_substr($s, -0)` returns the whole string | `shorten("abcdefgh", 4)` gives `"a...abcdefgh"`, longer than the input; `beautifyUrl` with limit 4 inherits it | an empty right part, so the result fits the limit: `"a..."` | not executed | Truncate.ShortenBudgetOneOvershoots | Truncate.ShortenFixed |
| su.php:481 | the scheme test is not anchored, so `[a-z0-9]+://` anywhere in the URL suppresses the prepended scheme | `normalizeUrl("x.com/?u=a://b")` returns `"x.com/?u=a://b"`, which has no scheme | test for a scheme at the start only, giving `"http://x.com/?u=a://b"` | not executed | Url.NormalizeUrlSchemeInQuery | Url.NormalizeUrlAnchoredProperties |
