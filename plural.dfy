/**
 * Russian plural forms (`su::caseForNumber`) and the human-readable rendering of a time
 * interval in seconds (`su::duration`), which picks a plural form for each count.
 */
module Plural {
  import opened MbString

  /** The three word forms a caller passes as `$cases`: for 1 ("штука"), for 2-4 ("штуки")
      and for 0 and 5-9 ("штук"). */
  datatype WordForms = WordForms(one: string, few: string, many: string)

  function Abs(n: int): nat { if n < 0 then -n else n }

  /** PHP's `%` on integers: the remainder of division truncated toward zero, so it differs
      from `a` by a multiple of `b`, is smaller than `b` in magnitude and takes the sign of
      the dividend. */
  function PhpRem(a: int, b: int): (r: int)
    requires b > 0
    ensures -b < r < b
    ensures (a - r) % b == 0
    ensures a >= 0 ==> r >= 0
    ensures a <= 0 ==> r <= 0
  {
    var m := if a >= 0 then a else -a;
    MagnitudeRem(m, b);
    if a >= 0 then m % b else -(m % b)
  }

  /** The remainder of a magnitude `m` differs from `m`, and its negation from `-m`, by a
      multiple of `b`. */
  lemma MagnitudeRem(m: nat, b: int)
    requires b > 0
    ensures (m - m % b) % b == 0 && (m % b - m) % b == 0
  {
    var q := m / b;
    assert m - m % b == b * q;
    assert m % b - m == b * -q;
    MultipleOfDivisor(b, q);
    MultipleOfDivisor(b, -q);
  }

  /** A multiple of `b` leaves no remainder: the quotient can be off from `q` only by a
      multiple of `b` that fits in `[0, b)`. */
  lemma MultipleOfDivisor(b: int, q: int)
    requires b > 0
    ensures (b * q) % b == 0
  {
    var x := b * q;
    var d := q - x / b;
    assert x == b * (x / b) + x % b;
    assert b * d == x % b;
  }

  /** Taking `abs` after PHP's `%` gives the Euclidean remainder of the magnitude. */
  lemma AbsPhpRem(n: int, b: int)
    requires b > 0
    ensures Abs(PhpRem(n, b)) == Abs(n) % b
  {
  }

  /** Which of the three forms `caseForNumber` picks, as the index into `$cases`. */
  function CaseIndex(n: int): (i: nat)
    ensures i < 3
  {
    var m := Abs(PhpRem(n, 100));
    if 10 < m < 20 then 2
    else
      var d := m % 10;
      (if d != 1 then 1 else 0) + (if d >= 5 || d == 0 then 1 else 0)
  }

  function Pick(forms: WordForms, i: nat): string
    requires i < 3
  {
    if i == 0 then forms.one else if i == 1 then forms.few else forms.many
  }

  /** `su::caseForNumber($number, $cases)`. The forms follow the rule stated on the last two
      decimal digits of |n|: 11-19 take the "many" form; otherwise a last digit 1 takes
      "one", 2-4 "few", and 0 or 5-9 "many". */
  function CaseForNumber(n: int, forms: WordForms): (r: string)
    ensures var t, d := Abs(n) % 100, Abs(n) % 10;
            r == if 11 <= t <= 19 then forms.many
                 else if d == 1 then forms.one
                 else if 2 <= d <= 4 then forms.few
                 else forms.many
  {
    AbsPhpRem(n, 100);
    LastDigitOfLastTwo(Abs(n));
    Pick(forms, CaseIndex(n))
  }

  /** The last digit of the last two digits is the last digit. */
  lemma LastDigitOfLastTwo(x: nat)
    ensures x % 100 % 10 == x % 10
  {
    var q, r := x / 100, x % 100;
    assert x == 10 * (10 * q) + r;
    assert (10 * (10 * q) + r) % 10 == r % 10;
  }

  /** The sign of the number does not matter. */
  lemma CaseForNumberIgnoresSign(n: int, forms: WordForms)
    ensures CaseForNumber(-n, forms) == CaseForNumber(n, forms)
  {
    AbsPhpRem(n, 100);
    AbsPhpRem(-n, 100);
  }

  lemma CaseForNumberExamples(forms: WordForms)
    ensures CaseForNumber(1, forms) == forms.one
    ensures CaseForNumber(21, forms) == forms.one
    ensures CaseForNumber(-3, forms) == forms.few
    ensures CaseForNumber(11, forms) == forms.many
    ensures CaseForNumber(112, forms) == forms.many
    ensures CaseForNumber(0, forms) == forms.many
  {
  }

  /** The number of units `duration` walks through. */
  const UnitCount: nat := 4

  /** The size in seconds of the unit at `i`, largest first: a day, an hour, a minute, a
      second (the keys of `$intervalSuffixes`, su.php:29-34). */
  function UnitSize(i: nat): (size: nat)
    requires i < UnitCount
    ensures size >= 1
  {
    if i == 0 then 86400 else if i == 1 then 3600 else if i == 2 then 60 else 1
  }

  /** How a unit is named after its count: by a plural form of a word (the full names, with
      a leading space) or by a fixed abbreviation (the short names). */
  datatype UnitName = Forms(forms: WordForms) | Fixed(text: string)

  const FullNames: seq<UnitName> := [
    Forms(WordForms(" день", " дня", " дней")),
    Forms(WordForms(" час", " часа", " часов")),
    Forms(WordForms(" минута", " минуты", " минут")),
    Forms(WordForms(" секунда", " секунды", " секунд"))
  ]

  const ShortNames: seq<UnitName> := [Fixed("д"), Fixed("ч"), Fixed("м"), Fixed("с")]

  /** One rendered component: `count` of the unit at `unit`. */
  datatype Part = Part(unit: nat, count: nat)

  /** The components `duration` emits for `interval` seconds from unit `i` on: each unit the
      remaining interval reaches takes the whole number of such units, and the rest goes on. */
  function Decompose(interval: int, i: nat): (parts: seq<Part>)
    requires i <= UnitCount
    ensures forall k :: 0 <= k < |parts| ==> i <= parts[k].unit < UnitCount
    decreases UnitCount - i
  {
    if i == UnitCount then []
    else if interval < UnitSize(i) then Decompose(interval, i + 1)
    else [Part(i, interval / UnitSize(i))] + Decompose(interval % UnitSize(i), i + 1)
  }

  /** The seconds a list of components stands for. */
  function Value(parts: seq<Part>): int
    requires forall k :: 0 <= k < |parts| ==> parts[k].unit < UnitCount
  {
    if parts == [] then 0 else parts[0].count * UnitSize(parts[0].unit) + Value(parts[1..])
  }

  /** Every component names a unit at `from` or later, counts at least one of it, and the
      units that follow come strictly later, so each unit appears at most once and in order
      of decreasing size. */
  predicate WellFormed(parts: seq<Part>, from: nat)
  {
    parts == [] ||
    (&& from <= parts[0].unit < UnitCount
     && parts[0].count >= 1
     && WellFormed(parts[1..], parts[0].unit + 1))
  }

  /** Whole units and remainder of `x` seconds at a unit it reaches: at least one unit, a
      remainder below the unit, and the two add back up to `x`. */
  lemma DivideByUnit(x: int, i: nat)
    requires i < UnitCount && x >= UnitSize(i)
    ensures var q, r := x / UnitSize(i), x % UnitSize(i);
            q >= 1 && 0 <= r < UnitSize(i) && q * UnitSize(i) + r == x && (x - r) / UnitSize(i) == q
  {
    if i == 0 {
      assert UnitSize(i) == 86400;
    } else if i == 1 {
      assert UnitSize(i) == 3600;
    } else if i == 2 {
      assert UnitSize(i) == 60;
    } else {
      assert UnitSize(i) == 1;
    }
  }

  lemma {:induction false} DecomposeWellFormed(interval: int, i: nat)
    requires i <= UnitCount
    ensures WellFormed(Decompose(interval, i), i)
    decreases UnitCount - i
  {
    if i < UnitCount {
      if interval < UnitSize(i) {
        DecomposeWellFormed(interval, i + 1);
      } else {
        var r := interval % UnitSize(i);
        DecomposeWellFormed(r, i + 1);
        DivideByUnit(interval, i);
        var parts := Decompose(interval, i);
        assert parts == [Part(i, interval / UnitSize(i))] + Decompose(r, i + 1);
        assert parts[1..] == Decompose(r, i + 1);
      }
    }
  }

  /** The components add back up to the interval: count times unit size, summed. */
  lemma {:induction false} DecomposeSums(interval: int, i: nat)
    requires i < UnitCount && interval >= 0
    ensures Value(Decompose(interval, i)) == interval
    decreases UnitCount - i
  {
    if i == UnitCount - 1 {
      assert UnitSize(i) == 1;
      if interval >= 1 {
        assert Decompose(interval, i) == [Part(i, interval)] + [];
      }
    } else if interval < UnitSize(i) {
      DecomposeSums(interval, i + 1);
    } else {
      var q, r := interval / UnitSize(i), interval % UnitSize(i);
      DivideByUnit(interval, i);
      DecomposeSums(r, i + 1);
      var parts := Decompose(interval, i);
      assert parts == [Part(i, q)] + Decompose(r, i + 1);
      assert parts[1..] == Decompose(r, i + 1);
    }
  }

  /** Once a unit is passed, what remains is below its size, so the count of each smaller
      unit stays below the ratio of sizes: fewer than 24 hours, 60 minutes and 60 seconds. */
  lemma {:induction false} DecomposeBounded(interval: int, i: nat)
    requires 0 < i <= UnitCount && interval < UnitSize(i - 1)
    ensures forall k :: 0 <= k < |Decompose(interval, i)| ==>
              var p := Decompose(interval, i)[k];
              0 < p.unit < UnitCount && p.count < UnitSize(p.unit - 1) / UnitSize(p.unit)
    decreases UnitCount - i
  {
    if i < UnitCount {
      if interval < UnitSize(i) {
        DecomposeBounded(interval, i + 1);
      } else {
        DivideByUnit(interval, i);
        DecomposeBounded(interval % UnitSize(i), i + 1);
        CountBelowRatio(interval, i);
        var tail := Decompose(interval % UnitSize(i), i + 1);
        assert Decompose(interval, i) == [Part(i, interval / UnitSize(i))] + tail;
      }
    }
  }

  /** A count taken below the previous unit stays below the ratio of the two sizes. */
  lemma CountBelowRatio(interval: int, i: nat)
    requires 0 < i < UnitCount && UnitSize(i) <= interval < UnitSize(i - 1)
    ensures interval / UnitSize(i) < UnitSize(i - 1) / UnitSize(i)
  {
    if i == 1 {
      assert UnitSize(0) == 86400 && UnitSize(1) == 3600;
    } else if i == 2 {
      assert UnitSize(1) == 3600 && UnitSize(2) == 60;
    } else {
      assert UnitSize(2) == 60 && UnitSize(3) == 1;
    }
  }

  /** A non-positive interval renders nothing. */
  lemma {:induction false} DecomposeNonPositive(interval: int, i: nat)
    requires i <= UnitCount && interval <= 0
    ensures Decompose(interval, i) == []
    decreases UnitCount - i
  {
    if i < UnitCount {
      DecomposeNonPositive(interval, i + 1);
    }
  }

  /** The hour, minute and second counts stay below 24, 60 and 60; the counts are at least
      one; the units come in order d, h, m, s; and they add up to the interval. */
  lemma DurationParts(interval: int)
    ensures var parts := Decompose(interval, 0);
            && WellFormed(parts, 0)
            && (interval <= 0 ==> parts == [])
            && (interval >= 0 ==> Value(parts) == interval)
            && forall k :: 0 <= k < |parts| ==>
                 (parts[k].unit == 1 ==> parts[k].count < 24)
                 && (parts[k].unit == 2 ==> parts[k].count < 60)
                 && (parts[k].unit == 3 ==> parts[k].count < 60)
  {
    DecomposeWellFormed(interval, 0);
    if interval <= 0 {
      DecomposeNonPositive(interval, 0);
    }
    if interval >= 0 {
      DecomposeSums(interval, 0);
    }
    var parts := Decompose(interval, 0);
    var tail := if interval < UnitSize(0) then interval else interval % UnitSize(0);
    DecomposeBounded(tail, 1);
    assert UnitSize(0) / UnitSize(1) == 24 && UnitSize(1) / UnitSize(2) == 60 && UnitSize(2) / UnitSize(3) == 60;
    if interval < UnitSize(0) {
      assert parts == Decompose(tail, 1);
    } else {
      assert parts == [Part(0, interval / UnitSize(0))] + Decompose(tail, 1);
      forall k | 0 < k < |parts|
        ensures parts[k] == Decompose(tail, 1)[k - 1]
      {
      }
    }
  }

  /** `$current.$name` for one component; a unit missing from the table reads as null in
      PHP and adds nothing after the count. */
  function RenderPart(p: Part, names: seq<UnitName>): string
  {
    DecimalString(p.count) +
      if p.unit < |names| then
        match names[p.unit]
        case Forms(forms) => CaseForNumber(p.count, forms)
        case Fixed(text) => text
      else []
  }

  /** The `$result` array of the loop: one rendered piece per component, in order. */
  function RenderParts(parts: seq<Part>, names: seq<UnitName>): (r: seq<string>)
    ensures |r| == |parts|
  {
    if parts == [] then [] else [RenderPart(parts[0], names)] + RenderParts(parts[1..], names)
  }

  /** One step of the loop: a unit the rest reaches contributes its whole count, and the
      remainder goes on to the next unit. */
  lemma DecomposeStep(rest: int, i: nat)
    requires i < UnitCount && rest >= UnitSize(i)
    ensures var left := rest % UnitSize(i);
            && (rest - left) / UnitSize(i) == rest / UnitSize(i)
            && Decompose(rest, i) == [Part(i, rest / UnitSize(i))] + Decompose(left, i + 1)
  {
    DivideByUnit(rest, i);
  }

  lemma AppendAssociates<T>(a: seq<T>, b: seq<T>, c: seq<T>)
    ensures (a + b) + c == a + (b + c)
  {
  }

  /** What the loop of `duration` keeps: the pieces gathered so far followed by the rendering
      of what remains are the rendering of the whole interval. */
  predicate LoopInvariant(result: seq<string>, rest: int, i: nat, names: seq<UnitName>, interval: int)
    requires i <= UnitCount
  {
    result + RenderParts(Decompose(rest, i), names) == RenderParts(Decompose(interval, 0), names)
  }

  /** A unit the rest does not reach is skipped. */
  lemma RenderSkip(result: seq<string>, rest: int, i: nat, names: seq<UnitName>, interval: int)
    requires i < UnitCount == |names| && rest < UnitSize(i)
    requires LoopInvariant(result, rest, i, names, interval)
    ensures LoopInvariant(result, rest, i + 1, names, interval)
  {
  }

  /** A unit the rest reaches moves its whole count, rendered, into the pieces. */
  lemma RenderTake(result: seq<string>, rest: int, i: nat, names: seq<UnitName>, interval: int,
                    left: int, current: int)
    requires i < UnitCount == |names| && rest >= UnitSize(i)
    requires LoopInvariant(result, rest, i, names, interval)
    requires left == rest % UnitSize(i) && current == (rest - left) / UnitSize(i)
    ensures current >= 0
    ensures LoopInvariant(result + [RenderPart(Part(i, current), names)], left, i + 1, names, interval)
  {
    DecomposeTake(rest, i, left, current);
    MoveRendered(result, Part(i, current), Decompose(left, i + 1), names,
                 RenderParts(Decompose(interval, 0), names));
  }

  /** The unit's whole count is taken, and the rest decomposes from the next unit. */
  lemma DecomposeTake(rest: int, i: nat, left: int, current: int)
    requires i < UnitCount && rest >= UnitSize(i)
    requires left == rest % UnitSize(i) && current == (rest - left) / UnitSize(i)
    ensures current >= 0 && Decompose(rest, i) == [Part(i, current)] + Decompose(left, i + 1)
  {
    DecomposeStep(rest, i);
  }

  /** The first rendered component of the rest moves to the end of the result. */
  lemma MoveRendered(result: seq<string>, p: Part, tail: seq<Part>, names: seq<UnitName>,
                     whole: seq<string>)
    requires result + RenderParts([p] + tail, names) == whole
    ensures (result + [RenderPart(p, names)]) + RenderParts(tail, names) == whole
  {
    RenderCons(p, tail, names);
    MovePiece(result, RenderPart(p, names), RenderParts(tail, names),
              RenderParts([p] + tail, names), whole);
  }

  /** Moving the first rendered piece of the rest to the end of the result keeps the whole. */
  lemma MovePiece(result: seq<string>, piece: string, tail: seq<string>, rest: seq<string>,
                  whole: seq<string>)
    requires result + rest == whole && rest == [piece] + tail
    ensures (result + [piece]) + tail == whole
  {
    AppendAssociates(result, [piece], tail);
  }

  /** Rendering a component in front renders it first. */
  lemma RenderCons(p: Part, tail: seq<Part>, names: seq<UnitName>)
    ensures RenderParts([p] + tail, names) == [RenderPart(p, names)] + RenderParts(tail, names)
  {
    assert ([p] + tail)[1..] == tail;
  }

  /** After the last unit nothing remains, so the pieces are the whole rendering. */
  lemma LoopDone(result: seq<string>, rest: int, names: seq<UnitName>, interval: int)
    requires LoopInvariant(result, rest, UnitCount, names, interval)
    ensures result == RenderParts(Decompose(interval, 0), names)
  {
    assert Decompose(rest, UnitCount) == [];
    assert result + [] == result;
  }

  /** The loop of `su::duration` at su.php:389-397 and the `implode(' ', ...)` after it,
      for a table of unit names: the result joins, with single spaces, the rendering of
      exactly the components Decompose describes. */
  method DurationWith(interval: int, names: seq<UnitName>) returns (r: string)
    requires |names| == UnitCount
    ensures r == Join(" ", RenderParts(Decompose(interval, 0), names))
    ensures interval <= 0 ==> r == []
  {
    var result: seq<string> := [];
    var rest := interval;
    for i := 0 to UnitCount
      invariant LoopInvariant(result, rest, i, names, interval)
    {
      var size := UnitSize(i);
      if rest < size {
        RenderSkip(result, rest, i, names, interval);
        continue;
      }
      var left := rest % size;
      var current := (rest - left) / size;
      RenderTake(result, rest, i, names, interval, left, current);
      result := result + [RenderPart(Part(i, current), names)];
      rest := left;
    }
    LoopDone(result, rest, names, interval);
    r := Join(" ", result);
    if interval <= 0 {
      DecomposeNonPositive(interval, 0);
    }
  }

  /** `su::duration($interval, $short)`: the short or the full unit names (su.php:383-386),
      then the loop. */
  method Duration(interval: int, short: bool := false) returns (r: string)
    ensures r == Join(" ", RenderParts(Decompose(interval, 0), if short then ShortNames else FullNames))
    ensures interval <= 0 ==> r == []
  {
    var names := if short then ShortNames else FullNames;
    r := DurationWith(interval, names);
  }
}
