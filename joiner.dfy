/**
 * `su::glue`: joining two strings (typically path segments) with a separator. One trailing
 * separator of the first string and one leading separator of the second are dropped, and one
 * separator is put between what remains; further copies on either side stay, so the joint of
 * `a//` and `b` under `/` is `//`.
 */
module Joiner {
  import opened MbString

  /** `s` without one trailing `p`, when it ends with `p`. */
  function DropSuffix(s: string, p: string): string {
    if EndsWith(s, p) then s[..|s| - |p|] else s
  }

  /** `s` without one leading `p`, when it starts with `p`. */
  function DropPrefix(s: string, p: string): string {
    if StartsWith(s, p) then s[|p|..] else s
  }

  /** `su::glue($p, $s1, $s2, $start, $end)`. The joint is `s1` without one trailing `p`,
      then `p`, then `s2` without one leading `p`; with `start`/`end` the result also starts
      (ends) with `p`. */
  method Glue(p: string, s1: string, s2: string, start: bool := false, end: bool := false)
    returns (s: string)
    ensures var joint := DropSuffix(s1, p) + p + DropPrefix(s2, p);
            var lead := if start && !StartsWith(joint, p) then p else [];
            var trail := if end && !EndsWith(lead + joint, p) then p else [];
            s == lead + joint + trail
    ensures !start && !end ==> s == DropSuffix(s1, p) + p + DropPrefix(s2, p)
    ensures start ==> p <= s
    ensures end && p != [] ==> |p| <= |s| && s[|s| - |p|..] == p
  {
    if EndsWith(s1, p) && StartsWith(s2, p) {
      s := Substr(s1, 0, -|p|) + s2;
    } else {
      s := s1 + (if EndsWith(s1, p) || StartsWith(s2, p) then [] else p) + s2;
    }
    JointHoldsOneSeparator(p, s1, s2, s);
    ghost var joint := s;
    if start && !StartsWith(s, p) {
      s := p + s;
    }
    ghost var led := s;
    if end && !EndsWith(s, p) {
      s := s + p;
    }
    SeparatorsAtEnds(p, joint, start, end, led, s);
  }

  /** The optional leading and trailing separator of `glue` are added only when missing, and
      adding the trailing one keeps the leading one. */
  lemma SeparatorsAtEnds(p: string, joint: string, start: bool, end: bool, led: string, s: string)
    requires led == if start && !StartsWith(joint, p) then p + joint else joint
    requires s == if end && !EndsWith(led, p) then led + p else led
    ensures var lead := if start && !StartsWith(joint, p) then p else [];
            var trail := if end && !EndsWith(lead + joint, p) then p else [];
            s == lead + joint + trail
    ensures start ==> p <= s
    ensures end && p != [] ==> |p| <= |s| && s[|s| - |p|..] == p
  {
    var lead: string := if start && !StartsWith(joint, p) then p else [];
    LeadingSeparator(p, joint, start, led, lead);
    TrailingSeparator(p, led, end, s);
  }

  /** The leading separator is added only when missing, so afterwards it is there. */
  lemma LeadingSeparator(p: string, joint: string, start: bool, led: string, lead: string)
    requires led == if start && !StartsWith(joint, p) then p + joint else joint
    requires lead == if start && !StartsWith(joint, p) then p else []
    ensures led == lead + joint && (start ==> p <= led)
  {
    if !(start && !StartsWith(joint, p)) {
      assert [] + joint == joint;
    }
  }

  /** The trailing separator is added only when missing, so afterwards it is there, and the
      string before it is kept. */
  lemma TrailingSeparator(p: string, led: string, end: bool, s: string)
    requires s == if end && !EndsWith(led, p) then led + p else led
    ensures s == led + (if end && !EndsWith(led, p) then p else [])
    ensures p <= led ==> p <= s
    ensures end && p != [] ==> |p| <= |s| && s[|s| - |p|..] == p
  {
    if end && !EndsWith(led, p) {
      assert s[|s| - |p|..] == p;
    } else {
      assert led + [] == led;
    }
  }

  /** The three cases of `glue` (both sides carry `p`, one side does, neither does) all put
      one `p` between `s1` and `s2`, each stripped of at most one copy of `p`. */
  lemma JointHoldsOneSeparator(p: string, s1: string, s2: string, s: string)
    requires s == if EndsWith(s1, p) && StartsWith(s2, p) then Substr(s1, 0, -|p|) + s2
                  else s1 + (if EndsWith(s1, p) || StartsWith(s2, p) then [] else p) + s2
    ensures s == DropSuffix(s1, p) + p + DropPrefix(s2, p)
  {
    var e, b := EndsWith(s1, p), StartsWith(s2, p);
    if p == [] {
      EmptySeparatorJoint(s1, s2);
    } else if e && b {
      BothSidesJoint(p, s1, s2);
    } else if e || b {
      OneSideJoint(p, s1, s2, s);
    } else {
      assert DropSuffix(s1, p) == s1 && DropPrefix(s2, p) == s2;
    }
  }

  /** Exactly one side carries the separator: `glue` concatenates the two as they are. */
  lemma OneSideJoint(p: string, s1: string, s2: string, s: string)
    requires p != [] && EndsWith(s1, p) != StartsWith(s2, p)
    requires s == s1 + [] + s2
    ensures s == DropSuffix(s1, p) + p + DropPrefix(s2, p)
  {
    assert s1 + [] + s2 == s1 + s2;
    if EndsWith(s1, p) {
      LeftSideJoint(p, s1, s2);
    } else {
      RightSideJoint(p, s1, s2);
    }
  }

  /** Only one copy of `p` is dropped from each side, so further copies stay at the joint:
      `glue("/", "a//", "b")` is `a//b`. */
  lemma JointKeepsFurtherCopies()
    ensures DropSuffix("a//", "/") + "/" + DropPrefix("b", "/") == "a//b"
  {
    assert "/"[0] != "b"[0];
    assert EndsWith("a//", "/") && !StartsWith("b", "/");
    assert "a//"[..2] == "a/";
  }

  /** An empty separator: `endsWith($s1, '')` holds only for an empty `s1`, and then
      `mb_substr('', 0, -0)` is empty too; either way the parts are concatenated. */
  lemma EmptySeparatorJoint(s1: string, s2: string)
    ensures (if EndsWith(s1, []) && StartsWith(s2, []) then Substr(s1, 0, 0) + s2
             else s1 + (if EndsWith(s1, []) || StartsWith(s2, []) then [] else []) + s2)
            == DropSuffix(s1, []) + [] + DropPrefix(s2, [])
  {
    EmptySeparatorTests(s1, s2);
    if s1 == [] {
      assert [] + s2 == s2 && s1 + [] + s2 == s2;
    } else {
      assert s1 + [] + s2 == s1 + s2;
    }
  }

  lemma EmptySeparatorTests(s1: string, s2: string)
    ensures StartsWith(s2, []) && (EndsWith(s1, []) <==> s1 == [])
    ensures DropSuffix(s1, []) == s1 && DropPrefix(s2, []) == s2
    ensures s1 == [] ==> Substr(s1, 0, 0) == []
  {
  }

  /** Both sides carry the separator: `glue` cuts the one at the end of `s1` with
      `mb_substr`. */
  lemma BothSidesJoint(p: string, s1: string, s2: string)
    requires p != [] && EndsWith(s1, p) && StartsWith(s2, p)
    ensures Substr(s1, 0, -|p|) + s2 == DropSuffix(s1, p) + p + DropPrefix(s2, p)
  {
    assert s2 == p + s2[|p|..];
  }

  /** Only `s1` ends with the separator: `glue` concatenates the two as they are. */
  lemma LeftSideJoint(p: string, s1: string, s2: string)
    requires p != [] && EndsWith(s1, p) && !StartsWith(s2, p)
    ensures s1 + s2 == DropSuffix(s1, p) + p + DropPrefix(s2, p)
  {
    assert s1 == s1[..|s1| - |p|] + p;
  }

  /** Only `s2` starts with the separator: `glue` concatenates the two as they are. */
  lemma RightSideJoint(p: string, s1: string, s2: string)
    requires p != [] && !EndsWith(s1, p) && StartsWith(s2, p)
    ensures s1 + s2 == DropSuffix(s1, p) + p + DropPrefix(s2, p)
  {
    assert s2 == p + s2[|p|..];
  }
}
