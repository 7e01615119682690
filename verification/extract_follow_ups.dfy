/**
 * `extractFollowUps` (frontend/src/utils/extractFollowUps.js): run every
 * follow-up rule over the summary text, in declaration order, and append
 * every whole match of each to one result list.
 */
module FollowUpExtraction {
  import opened Chars
  import opened JsRegex
  import opened FollowUpPatterns

  /** What one rule adds to the result: the strings of `s.match(r)`, and
      nothing when `match` returns null. */
  function Contribution(r: Re, s: string): seq<string> {
    match StringMatch(r, s)
    case None => []
    case Some(found) => found
  }

  /** Lists of strings joined end to end, in order. */
  function Flatten(xss: seq<seq<string>>): seq<string>
    decreases |xss|
  {
    if xss == [] then [] else Flatten(xss[..|xss| - 1]) + xss[|xss| - 1]
  }

  /** What each rule adds, rule by rule. */
  function Contributions(rules: seq<Re>, s: string): (cs: seq<seq<string>>)
    ensures |cs| == |rules|
  {
    seq(|rules|, k requires 0 <= k < |rules| => Contribution(rules[k], s))
  }

  /** The matches of the rules `rules`, rule by rule in order. */
  function AllMatches(rules: seq<Re>, s: string): seq<string> {
    Flatten(Contributions(rules, s))
  }

  /** The source's function: a result list built in place, one `push` of all
      of a rule's matches per rule. */
  method ExtractFollowUps(summaryText: string) returns (followUps: seq<string>)
    ensures followUps == AllMatches(Patterns, summaryText)
  {
    ghost var cs := Contributions(Patterns, summaryText);
    followUps := [];
    var k := 0;
    while k < |Patterns|
      invariant 0 <= k <= |Patterns|
      invariant followUps == Flatten(cs[..k])
    {
      var matches := StringMatch(Patterns[k], summaryText);
      if matches.Some? {
        followUps := followUps + matches.value;
      }
      FlattenPush(cs, k);
      k := k + 1;
    }
    assert cs[..k] == cs;
  }

  /** One more rule's contribution goes at the end. */
  lemma FlattenPush(cs: seq<seq<string>>, k: nat)
    requires k < |cs|
    ensures Flatten(cs[..k + 1]) == Flatten(cs[..k]) + cs[k]
  {
    assert cs[..k + 1][..k] == cs[..k];
  }

  // ---------------------------------------------------------------------
  // Order, size and content of the result
  // ---------------------------------------------------------------------

  lemma {:induction false} FlattenAppend(a: seq<seq<string>>, b: seq<seq<string>>)
    ensures Flatten(a + b) == Flatten(a) + Flatten(b)
    decreases |b|
  {
    if b == [] {
      assert a + b == a;
    } else {
      var b' := b[..|b| - 1];
      assert (a + b)[..|a + b| - 1] == a + b';
      assert (a + b)[|a + b| - 1] == b[|b| - 1];
      FlattenAppend(a, b');
    }
  }

  lemma ContributionsAppend(a: seq<Re>, b: seq<Re>, s: string)
    ensures Contributions(a + b, s) == Contributions(a, s) + Contributions(b, s)
  {
    var ab, ca, cb := Contributions(a + b, s), Contributions(a, s), Contributions(b, s);
    forall k | 0 <= k < |ab| ensures ab[k] == (ca + cb)[k] {
      if k < |a| {
        assert (a + b)[k] == a[k];
      } else {
        assert (a + b)[k] == b[k - |a|];
      }
    }
  }

  /** Running the rules of `a` and then those of `b` is running `a + b`. */
  lemma AllMatchesAppend(a: seq<Re>, b: seq<Re>, s: string)
    ensures AllMatches(a + b, s) == AllMatches(a, s) + AllMatches(b, s)
  {
    ContributionsAppend(a, b, s);
    FlattenAppend(Contributions(a, s), Contributions(b, s));
  }

  lemma AllMatchesEmpty(s: string)
    ensures AllMatches([], s) == []
  {
    assert Contributions([], s) == [];
  }

  lemma AllMatchesOne(r: Re, s: string)
    ensures AllMatches([r], s) == Contribution(r, s)
  {
    var one := Contributions([r], s);
    assert one == [Contribution(r, s)];
    assert one[..|one| - 1] == [];
    assert Flatten(one) == Flatten([]) + one[0];
  }

  /** Adding a rule at the end adds its matches at the end. */
  lemma AllMatchesSnoc(rules: seq<Re>, s: string)
    requires rules != []
    ensures AllMatches(rules, s) == AllMatches(rules[..|rules| - 1], s) + Contribution(rules[|rules| - 1], s)
  {
    assert rules == rules[..|rules| - 1] + [rules[|rules| - 1]];
    AllMatchesAppend(rules[..|rules| - 1], [rules[|rules| - 1]], s);
    AllMatchesOne(rules[|rules| - 1], s);
  }

  /** All matches of rule `j` come after all matches of the rules declared
      before it and before all matches of the rules declared after it,
      whatever their positions in the text. */
  lemma RuleOrder(rules: seq<Re>, s: string, j: nat)
    requires j < |rules|
    ensures AllMatches(rules, s)
         == AllMatches(rules[..j], s) + Contribution(rules[j], s) + AllMatches(rules[j + 1..], s)
  {
    assert rules == rules[..j] + [rules[j]] + rules[j + 1..];
    AllMatchesAppend(rules[..j] + [rules[j]], rules[j + 1..], s);
    AllMatchesAppend(rules[..j], [rules[j]], s);
    AllMatchesOne(rules[j], s);
  }

  /** The number of matches of each rule, summed. */
  function MatchCount(rules: seq<Re>, s: string): nat {
    if rules == [] then 0
    else MatchCount(rules[..|rules| - 1], s) + |MatchAll(rules[|rules| - 1], s)|
  }

  lemma ContributionSize(r: Re, s: string)
    ensures |Contribution(r, s)| == |MatchAll(r, s)|
  {
  }

  /** Nothing is dropped or merged: the result has one entry per match. */
  lemma {:induction false} CountIsSum(rules: seq<Re>, s: string)
    ensures |AllMatches(rules, s)| == MatchCount(rules, s)
    decreases |rules|
  {
    if rules != [] {
      var init := rules[..|rules| - 1];
      var r := rules[|rules| - 1];
      AllMatchesSnoc(rules, s);
      ContributionSize(r, s);
      CountIsSum(init, s);
    }
  }

  lemma {:induction false} FlattenEmptyIff(xss: seq<seq<string>>)
    ensures Flatten(xss) == [] <==> forall k :: 0 <= k < |xss| ==> xss[k] == []
    decreases |xss|
  {
    if xss != [] {
      var init := xss[..|xss| - 1];
      FlattenEmptyIff(init);
      assert forall k :: 0 <= k < |init| ==> init[k] == xss[k];
    }
  }

  /** The result is empty (never null) exactly when no rule matches. */
  lemma EmptyIff(rules: seq<Re>, s: string)
    ensures AllMatches(rules, s) == [] <==> forall k :: 0 <= k < |rules| ==> MatchAll(rules[k], s) == []
  {
    var cs := Contributions(rules, s);
    FlattenEmptyIff(cs);
    forall k | 0 <= k < |rules| ensures cs[k] == [] <==> MatchAll(rules[k], s) == [] {
      ContributionSize(rules[k], s);
    }
  }

  predicate IsSubstring(t: string, s: string) {
    exists a, b :: 0 <= a <= b <= |s| && s[a..b] == t
  }

  /** Every string of `xs` is a contiguous piece of `s`. */
  predicate AllSubstrings(xs: seq<string>, s: string) {
    forall k :: 0 <= k < |xs| ==> IsSubstring(xs[k], s)
  }

  /** Every entry is a contiguous piece of the text: a whole match. */
  lemma {:induction false} MatchesAreSubstrings(rules: seq<Re>, s: string)
    ensures AllSubstrings(AllMatches(rules, s), s)
    decreases |rules|
  {
    if rules != [] {
      AllMatchesSnoc(rules, s);
      MatchesAreSubstrings(rules[..|rules| - 1], s);
      ContributionSubstrings(rules[|rules| - 1], s);
      SubstringsAppend(AllMatches(rules[..|rules| - 1], s), Contribution(rules[|rules| - 1], s), s);
    }
  }

  /** What one rule adds are pieces of the text. */
  lemma ContributionSubstrings(r: Re, s: string)
    ensures AllSubstrings(Contribution(r, s), s)
  {
    var c := Contribution(r, s);
    forall k | 0 <= k < |c| ensures IsSubstring(c[k], s) {
      var sp := MatchAll(r, s)[k];
      assert c[k] == s[sp.start..sp.end];
    }
  }

  lemma SubstringsAppend(xs: seq<string>, ys: seq<string>, s: string)
    requires AllSubstrings(xs, s) && AllSubstrings(ys, s)
    ensures AllSubstrings(xs + ys, s)
  {
    forall k | 0 <= k < |xs + ys| ensures IsSubstring((xs + ys)[k], s) {
      if k < |xs| {
        assert (xs + ys)[k] == xs[k];
      } else {
        assert (xs + ys)[k] == ys[k - |xs|];
      }
    }
  }

  /** Every rule needs a decimal digit to match. */
  lemma PatternsNeedDigits()
    ensures forall k :: 0 <= k < |Patterns| ==> NeedsDigit(Patterns[k])
  {
    EnglishRulesNeedDigits();
    HindiRulesNeedDigits();
  }

  lemma EnglishRulesNeedDigits()
    ensures NeedsDigit(FollowUpRule) && NeedsDigit(ComeBackRule) && NeedsDigit(ReturnRule)
    ensures NeedsDigit(RevisitRule) && NeedsDigit(CheckUpRule) && NeedsDigit(LooseSeeRule)
    ensures NeedsDigit(VerbListRule) && NeedsDigit(OffsetPurposeRule)
  {
    ChainNeedsDigit([Opt(InOrAfter), OptSp, Digits, OptSp, UnitWord], 2);
    assert NeedsDigit(Offset);
    assert NeedsDigit(VerbOffset);
    assert NeedsDigit(FollowUpRule) && NeedsDigit(ComeBackRule) && NeedsDigit(ReturnRule);
    assert NeedsDigit(RevisitRule) && NeedsDigit(CheckUpRule);
    ChainNeedsDigit([Boundary, Alt(Word("we"), Word("you")), UpTo(Dot, 20, true),
      Alt(Word("check"), Alt(FollowUp, Alt(Word("see"), Word("visit")))),
      UpTo(Dot, 20, true), InOrAfter, Sp, Digits, Sp, UnitWord], 7);
    assert NeedsDigit(LooseSeeRule);
    ChainNeedsDigit([Boundary, VisitVerb, Sp, Offset], 3);
    assert NeedsDigit(VerbListRule);
    ChainNeedsDigit([
      Boundary, Offset, Sp, Alt(Word("to"), Word("for")), Sp,
      Alt(CheckUp, Alt(FollowUp, Alt(Word("appointment"), Alt(Word("monitoring"),
        Alt(Word("progress"), Word("visit"))))))], 1);
    assert NeedsDigit(OffsetPurposeRule);
  }

  lemma HindiRulesNeedDigits()
    ensures NeedsDigit(HindiAfterRule) && NeedsDigit(HindiPleaseRule) && NeedsDigit(HindiAgainRule)
    ensures NeedsDigit(HindiPatientRule) && NeedsDigit(HindiAdviceRule)
  {
    ChainNeedsDigit([
      Digits, OptSp, HindiUnitFive, OptSp, Opt(Word("के बाद")), OptSp,
      Alt(Word("जाँच"), Alt(FolloAp, Word("मुलाकात")))], 0);
    assert NeedsDigit(HindiAfterRule);
    ChainNeedsDigit([
      Alt(Word("कृपया"), Alt(Word("आपको"), Word("आप"))), Sp, Digits, OptSp, HindiUnitThree,
      OptSp, Opt(Word("बाद")), OptSp,
      Alt(Word("जांच"), Alt(Word("मुलाकात"), Alt(Word("आना"), FolloAp)))], 2);
    assert NeedsDigit(HindiPleaseRule);
    ChainNeedsDigit([
      Digits, OptSp, HindiUnitThree, UpTo(Dot, 15, false),
      Alt(Chain([Word("फिर"), OptSp, Word("से"), OptSp, Word("आएं")]), Word("जांच"))], 0);
    assert NeedsDigit(HindiAgainRule);
    ChainNeedsDigit([
      Boundary, HindiAddress, UpTo(Dot, 20, false), Digits, OptSp, HindiUnitFive, OptSp,
      Opt(Word("बाद")), OptSp, Opt(Chain([Word("फिर"), OptSp, Word("से"), OptSp])),
      Alt(Word("देखने"), Alt(Word("मुलाकात"), Alt(Word("जांच"), Alt(Word("आने"), Word("आना"))))),
      UpTo(NoneOf("।\n"), 20, false)], 3);
    assert NeedsDigit(HindiPatientRule);
    ChainNeedsDigit([
      Boundary, HindiAddress, UpTo(Dot, 25, true), Digits, OptSp, HindiUnitFour, OptSp,
      Opt(Chain([Word("के"), Sp, Word("लिए")])), OptSp,
      Alt(FolloAp, Alt(Word("जांच"), Word("मुलाकात"))), UpTo(Dot, 30, true),
      Alt(Chain([Word("वापस"), OptSp, Word("आने")]), Alt(Word("मुलाकात"), Alt(Word("जांच"), Word("देखने")))),
      OptSp, Word("की"), OptSp, Alt(Word("सलाह"), Word("अनुरोध"))], 3);
    assert NeedsDigit(HindiAdviceRule);
  }

  /** A summary without a decimal digit, the empty one included, yields an
      empty list. */
  lemma NoDigitNoFollowUps(s: string)
    requires !HasDigit(s)
    ensures AllMatches(Patterns, s) == []
  {
    PatternsNeedDigits();
    forall k | 0 <= k < |Patterns| ensures MatchAll(Patterns[k], s) == [] {
      NoDigitNoMatch(Patterns[k], s);
    }
    EmptyIff(Patterns, s);
  }
}
