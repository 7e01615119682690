/**
 * Facts about two of the follow-up rules of
 * frontend/src/utils/extractFollowUps.js, worked out on their `Re` terms:
 * the shape of every match of the line-5 "follow up" rule, and a text that
 * the line-5 and line-13 rules both report, so that the result lists it
 * twice.
 */
module FollowUpRuleFacts {
  import opened Chars
  import opened JsRegex
  import opened FollowUpPatterns
  import opened FollowUpExtraction

  /** The words the unit group accepts. */
  const UnitWords: seq<string> := ["day", "days", "week", "weeks", "month", "months"]

  /** `t` ends with one of the unit words, in any ASCII case. */
  predicate EndsWithUnit(t: string) {
    exists u :: 0 <= u < |UnitWords| && |UnitWords[u]| <= |t| && FoldEq(t[|t| - |UnitWords[u]|..], UnitWords[u])
  }

  // The shape of a line-5 match ---------------------------------------------

  /** `day`, `week` or `month` followed by an optional `s`. */
  lemma UnitPartEnds(w: string, s: string, j: nat, e: nat)
    requires j <= |s| && e in Ends(Cat(Word(w), Opt(Word("s"))), s, j)
    ensures || (e == j + |w| && FoldEq(s[j..e], w))
            || (e == j + |w| + 1 && FoldEq(s[j..e], w + "s"))
  {
    CatSplit(Word(w), Opt(Word("s")), s, j, e);
    var m :| m in Ends(Word(w), s, j) && e in Ends(Opt(Word("s")), s, m);
    WordEnds(w, s, j, m);
    if e != m {
      PluralEnds(s, m, e);
      JoinFolded(s, j, m, e, w, "s");
    }
  }

  /** `s?` either matches nothing or one `s` in any case. */
  lemma PluralEnds(s: string, m: nat, e: nat)
    requires m <= |s| && e in Ends(Opt(Word("s")), s, m) && e != m
    ensures e == m + 1 && FoldEq(s[m..e], "s")
  {
    assert Ends(Opt(Word("s")), s, m) == Ends(Word("s"), s, m) + [m];
    WordEnds("s", s, m, e);
  }

  /** Two adjacent pieces of text equal to `v` and `t` up to case form one
      equal to `v + t`. */
  lemma JoinFolded(s: string, j: nat, m: nat, e: nat, v: string, t: string)
    requires j <= m <= e <= |s| && FoldEq(s[j..m], v) && FoldEq(s[m..e], t)
    ensures FoldEq(s[j..e], v + t)
  {
    FoldEqConcat(s[j..m], s[m..e], v, t);
    assert s[j..m] + s[m..e] == s[j..e];
  }

  /** Every match of the unit group is one of the unit words. */
  lemma UnitWordEnds(s: string, j: nat, e: nat)
    requires j <= |s| && e in Ends(UnitWord, s, j)
    ensures exists u :: 0 <= u < |UnitWords| && e == j + |UnitWords[u]| && FoldEq(s[j..e], UnitWords[u])
  {
    var u := UnitIndex(s, j, e);
  }

  /** The unit word a match of the unit group spells. */
  lemma UnitIndex(s: string, j: nat, e: nat) returns (u: nat)
    requires j <= |s| && e in Ends(UnitWord, s, j)
    ensures u < |UnitWords| && e == j + |UnitWords[u]| && FoldEq(s[j..e], UnitWords[u])
  {
    var k := UnitPart(s, j, e);
    u := PartIndex(k, s, j, e);
  }

  /** The alternative of the unit group a match comes from, named
      by the index of its singular word. */
  lemma UnitPart(s: string, j: nat, e: nat) returns (k: nat)
    requires j <= |s| && e in Ends(UnitWord, s, j)
    ensures k % 2 == 0 && k < |UnitWords| && e in Ends(Cat(Word(UnitWords[k]), Opt(Word("s"))), s, j)
  {
    var dayPart, weekPart, monthPart :=
      Cat(Word("day"), Opt(Word("s"))), Cat(Word("week"), Opt(Word("s"))), Cat(Word("month"), Opt(Word("s")));
    assert Ends(UnitWord, s, j) == Ends(dayPart, s, j) + (Ends(weekPart, s, j) + Ends(monthPart, s, j));
    assert UnitWords[0] == "day" && UnitWords[2] == "week" && UnitWords[4] == "month";
    k := if e in Ends(dayPart, s, j) then 0 else if e in Ends(weekPart, s, j) then 2 else 4;
  }

  /** A match of one part `w s?` of the group spells `w` or its plural,
      which follows `w` in the list of unit words. */
  lemma PartIndex(k: nat, s: string, j: nat, e: nat) returns (u: nat)
    requires k % 2 == 0 && k < |UnitWords|
    requires j <= |s| && e in Ends(Cat(Word(UnitWords[k]), Opt(Word("s"))), s, j)
    ensures u < |UnitWords| && e == j + |UnitWords[u]| && FoldEq(s[j..e], UnitWords[u])
  {
    UnitWordsPaired();
    UnitPartEnds(UnitWords[k], s, j, e);
    u := if e == j + |UnitWords[k]| then k else k + 1;
  }

  /** Each singular unit word is followed by its plural. */
  lemma UnitWordsPaired()
    ensures forall k :: 0 <= k < |UnitWords| && k % 2 == 0 ==> k + 1 < |UnitWords| && UnitWords[k + 1] == UnitWords[k] + "s"
  {
    assert UnitWords[1] == UnitWords[0] + "s";
    assert UnitWords[3] == UnitWords[2] + "s";
    assert UnitWords[5] == UnitWords[4] + "s";
  }

  /** The unit word at the end of a match, seen from the end. */
  lemma UnitTail(s: string, f: nat, j: nat, e: nat, u: nat)
    requires u < |UnitWords| && f <= j <= e <= |s| && e == j + |UnitWords[u]| && FoldEq(s[j..e], UnitWords[u])
    ensures exists v :: 0 <= v < |UnitWords| && f <= e - |UnitWords[v]| && FoldEq(s[e - |UnitWords[v]|..e], UnitWords[v])
  {
    assert e - |UnitWords[u]| == j;
  }

  /** A match behind `\b` starts at a word boundary. */
  lemma BoundaryCatEnds(x: Re, s: string, i: nat, e: nat)
    requires i <= |s| && e in Ends(Cat(Boundary, x), s, i)
    ensures WordBefore(s, i) != WordAt(s, i) && e in Ends(x, s, i)
  {
    CatSplit(Boundary, x, s, i, e);
  }

  /** A match of the "follow up" piece begins with "follow". */
  lemma FollowUpEnds(s: string, i: nat, f: nat)
    requires i <= |s| && f in Ends(FollowUp, s, i)
    ensures i + 6 <= f && FoldEq(s[i..i + 6], "follow")
  {
    CatSplit(Word("follow"), Cat(Opt(Class(HyphenOrSpace)), Word("up")), s, i, f);
    var g :| g in Ends(Word("follow"), s, i) && f in Ends(Cat(Opt(Class(HyphenOrSpace)), Word("up")), s, g);
    WordEnds("follow", s, i, g);
    InEndsBounds(Cat(Opt(Class(HyphenOrSpace)), Word("up")), s, g, f);
  }

  /** A match of the common tail of lines 5-9 ends with a unit word. */
  lemma VerbOffsetEnds(s: string, f: nat, e: nat)
    requires f <= |s| && e in Ends(VerbOffset, s, f)
    ensures exists u :: 0 <= u < |UnitWords| && f <= e - |UnitWords[u]| && FoldEq(s[e - |UnitWords[u]|..e], UnitWords[u])
  {
    var j := UnitStart(s, f, e);
    var u := UnitIndex(s, j, e);
    UnitTail(s, f, j, e, u);
  }

  /** Where the unit word of a match of the verb's offset part begins. */
  lemma UnitStart(s: string, f: nat, e: nat) returns (j: nat)
    requires f <= |s| && e in Ends(VerbOffset, s, f)
    ensures f <= j <= e <= |s| && e in Ends(UnitWord, s, j)
  {
    var o := OffsetStart(s, f, e);
    j := OffsetUnit(s, o, e);
  }

  /** Where the offset part of a match of an optional space and the offset begins. */
  lemma OffsetStart(s: string, f: nat, e: nat) returns (o: nat)
    requires f <= |s| && e in Ends(VerbOffset, s, f)
    ensures f <= o <= |s| && e in Ends(Offset, s, o)
  {
    CatSplit(OptSp, Offset, s, f, e);
    o :| o in Ends(OptSp, s, f) && e in Ends(Offset, s, o);
    InEndsBounds(OptSp, s, f, o);
  }

  /** Where the unit word of a match of the offset begins. */
  lemma OffsetUnit(s: string, o: nat, e: nat) returns (j: nat)
    requires o <= |s| && e in Ends(Offset, s, o)
    ensures o <= j <= e <= |s| && e in Ends(UnitWord, s, j)
  {
    ChainLast([Opt(InOrAfter), OptSp, Digits, OptSp, UnitWord], s, o, e);
    j :| o <= j <= e && e in Ends(UnitWord, s, j);
    InEndsBounds(UnitWord, s, j, e);
  }

  /** A match of the line-5 rule starting at `i` starts at a word boundary
      with "follow" and ends with a unit word. */
  lemma FollowUpRuleEnds(s: string, i: nat, e: nat)
    requires i <= |s| && e in Ends(FollowUpRule, s, i)
    ensures WordBefore(s, i) != WordAt(s, i)
    ensures i + 6 <= e && FoldEq(s[i..i + 6], "follow")
    ensures exists u :: 0 <= u < |UnitWords| && i + 6 <= e - |UnitWords[u]| && FoldEq(s[e - |UnitWords[u]|..e], UnitWords[u])
  {
    BoundaryCatEnds(Cat(FollowUp, VerbOffset), s, i, e);
    CatSplit(FollowUp, VerbOffset, s, i, e);
    var f :| f in Ends(FollowUp, s, i) && e in Ends(VerbOffset, s, f);
    FollowUpEnds(s, i, f);
    VerbOffsetEnds(s, f, e);
  }

  /** Every string the line-5 rule contributes to the result starts with
      "follow" and ends with day, days, week, weeks, month or months, in any
      case. */
  lemma FollowUpMatchShape(s: string)
    ensures forall k :: 0 <= k < |Contribution(FollowUpRule, s)| ==>
      var t := Contribution(FollowUpRule, s)[k];
      |t| >= 6 && FoldEq(t[..6], "follow") && EndsWithUnit(t)
  {
    var sp := MatchAll(FollowUpRule, s);
    var ts := Contribution(FollowUpRule, s);
    MatchFromReported(Firsts(FollowUpRule, s), 0);
    ContributionSize(FollowUpRule, s);
    forall k | 0 <= k < |ts| ensures |ts[k]| >= 6 && FoldEq(ts[k][..6], "follow") && EndsWithUnit(ts[k]) {
      var i, e := sp[k].start, sp[k].end;
      assert ts[k] == s[i..e];
      assert e in Ends(FollowUpRule, s, i);
      FollowUpRuleEnds(s, i, e);
      assert ts[k][..6] == s[i..i + 6];
      var u :| 0 <= u < |UnitWords| && i + 6 <= e - |UnitWords[u]| && FoldEq(s[e - |UnitWords[u]|..e], UnitWords[u]);
      assert ts[k][|ts[k]| - |UnitWords[u]|..] == s[e - |UnitWords[u]|..e];
    }
  }

  // A text that two rules report ----------------------------------------------

  /** "days" at `j`, in any case. */
  predicate DaysAt(s: string, j: nat) {
    j + 4 <= |s| && FoldEq(s[j..j + 4], "days")
  }

  lemma FirstUnitDays(s: string, j: nat)
    requires DaysAt(s, j)
    ensures FirstEnd(UnitWord, s, j) == Some(j + 4)
  {
    FoldEqSplit(s[j..j + 4], "days", 3);
    assert s[j..j + 4][..3] == s[j..j + 3] && s[j..j + 4][3..] == s[j + 3..j + 4];
    assert "days"[..3] == "day" && "days"[3..] == "s";
    FirstWord("day", s, j);
    FirstWord("s", s, j + 3);
    FirstOptTaken(Word("s"), s, j + 3, j + 4);
    FirstCat(Word("day"), Opt(Word("s")), s, j, j + 3, j + 4);
    FirstAltLeft(Cat(Word("day"), Opt(Word("s"))), Alt(Cat(Word("week"), Opt(Word("s"))), Cat(Word("month"), Opt(Word("s")))), s, j, j + 4);
  }

  /** A space and then "days": the space at `j`, the word at `u`, the end at `e`. */
  lemma FirstSpaceDays(s: string, j: nat, u: nat, e: nat)
    requires u == j + 1 && e == u + 4
    requires j < |s| && IsSpace(s[j]) && DaysAt(s, u)
    ensures FirstEnd(Cat(OptSp, UnitWord), s, j) == Some(e)
  {
    FirstUnitDays(s, u);
    FirstOptTaken(Sp, s, j, u);
    FirstCat(OptSp, UnitWord, s, j, u, e);
  }

  /** Digits from `d` to `m`, a space at `m`, and "days" after it. */
  lemma FirstDigitsDays(s: string, d: nat, m: nat, e: nat)
    requires d < m && m + 1 < |s| && e == m + 5
    requires AllDigits(s[d..m]) && IsSpace(s[m]) && DaysAt(s, m + 1)
    ensures FirstEnd(Cat(Digits, Cat(OptSp, UnitWord)), s, d) == Some(e)
  {
    FirstDigits(s, d, m);
    FirstSpaceDays(s, m, m + 1, e);
    FirstCat(Digits, Cat(OptSp, UnitWord), s, d, m, e);
  }

  /** `\d+` takes the whole run of digits. */
  lemma FirstDigits(s: string, d: nat, m: nat)
    requires d < m < |s| && AllDigits(s[d..m]) && IsSpace(s[m])
    ensures FirstEnd(Digits, s, d) == Some(m)
  {
    assert forall j :: d <= j < m ==> s[j] == s[d..m][j - d];
    RunExact(Digit, s, d, |s| - d, m - d);
  }

  /** A space at `j`, then digits from `d` to `m`, a space and "days". */
  lemma FirstSpaceDigitsDays(s: string, j: nat, d: nat, m: nat, e: nat)
    requires d == j + 1 && d < m && m + 1 < |s| && e == m + 5
    requires IsSpace(s[j]) && AllDigits(s[d..m]) && IsSpace(s[m]) && DaysAt(s, m + 1)
    ensures FirstEnd(Cat(OptSp, Cat(Digits, Cat(OptSp, UnitWord))), s, j) == Some(e)
  {
    FirstDigitsDays(s, d, m, e);
    FirstOptTaken(Sp, s, j, d);
    FirstCat(OptSp, Cat(Digits, Cat(OptSp, UnitWord)), s, j, d, e);
  }

  /** At "in <digits> days" the offset part of the rules matches all of it:
      "in" at `i`, the digits up to `m`, the end at `e`. */
  lemma FirstOffsetInDays(s: string, i: nat, m: nat, e: nat)
    requires i + 3 < m && m + 1 < |s| && e == m + 5
    requires FoldEq(s[i..i + 2], "in") && IsSpace(s[i + 2])
    requires AllDigits(s[i + 3..m]) && IsSpace(s[m]) && DaysAt(s, m + 1)
    ensures FirstEnd(Offset, s, i) == Some(e)
  {
    FirstSpaceDigitsDays(s, i + 2, i + 3, m, e);
    FirstWord("in", s, i);
    FirstAltLeft(Word("in"), Word("after"), s, i, i + 2);
    FirstOptTaken(InOrAfter, s, i, i + 2);
    FirstCat(Opt(InOrAfter), Cat(OptSp, Cat(Digits, Cat(OptSp, UnitWord))), s, i, i + 2, e);
    OffsetNested();
  }

  const Example: string := "follow up in 10 days"

  lemma ExampleOffset()
    ensures FirstEnd(Offset, Example, 10) == Some(20)
  {
    var s := Example;
    assert s[10..12] == "in" && s[13..15] == "10" && s[16..20] == "days";
    FirstOffsetInDays(s, 10, 15, 20);
  }

  lemma ExampleFollowUp()
    ensures FirstEnd(FollowUp, Example, 0) == Some(9)
  {
    var s := Example;
    assert s[0..6] == "follow" && s[7..9] == "up";
    FirstWord("follow", s, 0);
    assert InClass(s[6], HyphenOrSpace);
    FirstOptTaken(Class(HyphenOrSpace), s, 6, 7);
    FirstWord("up", s, 7);
    FirstCat(Opt(Class(HyphenOrSpace)), Word("up"), s, 6, 7, 9);
    FirstCat(Word("follow"), Cat(Opt(Class(HyphenOrSpace)), Word("up")), s, 0, 6, 9);
  }

  /** The line-5 rule reports the whole example at its start. */
  lemma ExampleRuleFive()
    ensures FirstEnd(FollowUpRule, Example, 0) == Some(20)
  {
    var s := Example;
    ExampleOffset();
    ExampleFollowUp();
    assert IsSpace(s[9]);
    FirstOptTaken(Sp, s, 9, 10);
    FirstCat(OptSp, Offset, s, 9, 10, 20);
    FirstCat(FollowUp, VerbOffset, s, 0, 9, 20);
    assert WordAt(s, 0) && !WordBefore(s, 0);
    FirstCat(Boundary, Cat(FollowUp, VerbOffset), s, 0, 0, 20);
  }

  /** The verbs tried before "follow up" in the line-13 rule fail on the example. */
  lemma ExampleVerbsBeforeFollowUp()
    ensures FirstEnd(Chain([Word("come"), Sp, Word("back")]), Example, 0) == None
    ensures FirstEnd(Word("return"), Example, 0) == None
    ensures FirstEnd(Word("revisit"), Example, 0) == None
    ensures FirstEnd(CheckUp, Example, 0) == None
  {
    var s := Example;
    assert s[0..4][0] == 'f' && s[0..6][0] == 'f' && s[0..7][0] == 'f' && s[0..5][0] == 'f';
    assert Upper(s[0..4][0]) != Upper("come"[0]);
    FirstCatFails(Word("come"), Chain([Word("come"), Sp, Word("back")][1..]), s, 0);
    assert Upper(s[0..6][0]) != Upper("return"[0]);
    assert Upper(s[0..7][0]) != Upper("revisit"[0]);
    assert Upper(s[0..5][0]) != Upper("check"[0]);
    FirstCatFails(Word("check"), Cat(Opt(Class(HyphenOrSpace)), Word("up")), s, 0);
  }

  /** The line-13 verb alternatives reach "follow up" and match it. */
  lemma ExampleVisitVerb()
    ensures FirstEnd(VisitVerb, Example, 0) == Some(9)
  {
    var s := Example;
    ExampleFollowUp();
    ExampleVerbsBeforeFollowUp();
    var seeUs := Chain([Word("see"), Sp, Alt(Word("us"), Alt(Word("me"), Chain([Word("a"), Sp, Word("doctor")])))]);
    FirstAltLeft(FollowUp, seeUs, s, 0, 9);
    FirstAltRight(CheckUp, Alt(FollowUp, seeUs), s, 0, 9);
    FirstAltRight(Word("revisit"), Alt(CheckUp, Alt(FollowUp, seeUs)), s, 0, 9);
    FirstAltRight(Word("return"), Alt(Word("revisit"), Alt(CheckUp, Alt(FollowUp, seeUs))), s, 0, 9);
    FirstAltRight(Chain([Word("come"), Sp, Word("back")]), Alt(Word("return"), Alt(Word("revisit"), Alt(CheckUp, Alt(FollowUp, seeUs)))), s, 0, 9);
  }

  /** The line-13 rule reports the whole example at its start too. */
  lemma ExampleRuleThirteen()
    ensures FirstEnd(VerbListRule, Example, 0) == Some(20)
  {
    var s := Example;
    ExampleVisitVerb();
    ExampleOffset();
    assert IsSpace(s[9]);
    FirstCat(Sp, Offset, s, 9, 10, 20);
    FirstCat(VisitVerb, Cat(Sp, Offset), s, 0, 9, 20);
    assert WordAt(s, 0) && !WordBefore(s, 0);
    FirstCat(Boundary, Cat(VisitVerb, Cat(Sp, Offset)), s, 0, 0, 20);
    VerbListNested();
  }

  /** A rule that matches the whole example at its start contributes the
      example as its first string. */
  lemma ExampleFirstContribution(r: Re)
    requires FirstEnd(r, Example, 0) == Some(|Example|)
    ensures Contribution(r, Example) != [] && Contribution(r, Example)[0] == Example
  {
    MatchAllHead(r, Example, |Example|);
    assert Example[0..|Example|] == Example;
  }

  /** No deduplication: "follow up in 10 days" is reported by the line-5
      rule and again by the line-13 rule, so it appears at least twice. */
  lemma DuplicatesKept()
    ensures var r := AllMatches(Patterns, Example);
      exists j :: 0 < j < |r| && r[0] == Example && r[j] == Example
  {
    var s := Example;
    ExampleRuleFive();
    ExampleFirstContribution(Patterns[0]);
    ExampleRuleThirteen();
    ExampleFirstContribution(Patterns[6]);
    var thirteen := Contribution(Patterns[6], s);
    RuleOrder(Patterns, s, 6);
    var before := AllMatches(Patterns[..6], s);
    RuleOrder(Patterns[..6], s, 0);
    assert Patterns[..6][0] == Patterns[0];
    assert Patterns[..6][..0] == [];
    AllMatchesEmpty(s);
    assert before[0] == s;
    var r := AllMatches(Patterns, s);
    assert r == before + thirteen + AllMatches(Patterns[7..], s);
    assert r[0] == s && r[|before|] == s;
  }
}
