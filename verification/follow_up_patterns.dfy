/**
 * The thirteen follow-up rules of frontend/src/utils/extractFollowUps.js, in
 * declaration order, as `JsRegex.Re` terms: eight English rules and five
 * Hindi ones. Every rule carries the `g` and `i` flags.
 */
module FollowUpPatterns {
  import opened Chars
  import opened JsRegex

  // Shared pieces ----------------------------------------------------------

  const Sp: Re := Class(Space)
  const OptSp: Re := Opt(Class(Space))
  const Digits: Re := Plus(Digit)
  /** A hyphen or a white-space character (the class is written in either
      order in the rules: the same set). */
  const HyphenOrSpace: CharClass := Either(OneOf("-"), Space)

  /** "in" or "after". */
  const InOrAfter: Re := Alt(Word("in"), Word("after"))

  /** The unit group: day, week or month, each with an optional plural "s". */
  const UnitWord: Re :=
    Alt(Cat(Word("day"), Opt(Word("s"))),
    Alt(Cat(Word("week"), Opt(Word("s"))),
        Cat(Word("month"), Opt(Word("s")))))

  /** "follow", an optional hyphen or space, "up". */
  const FollowUp: Re := Cat(Word("follow"), Cat(Opt(Class(HyphenOrSpace)), Word("up")))
  /** "check", an optional hyphen or space, "up". */
  const CheckUp: Re := Cat(Word("check"), Cat(Opt(Class(HyphenOrSpace)), Word("up")))

  /** The offset: an optional "in" or "after", an optional space, digits, an
      optional space and a unit word. */
  const Offset: Re := Chain([Opt(InOrAfter), OptSp, Digits, OptSp, UnitWord])
  /** `Offset` written out as nested concatenations. */
  lemma OffsetNested()
    ensures Offset == Cat(Opt(InOrAfter), Cat(OptSp, Cat(Digits, Cat(OptSp, UnitWord))))
  {
    var rs := [Opt(InOrAfter), OptSp, Digits, OptSp, UnitWord];
    assert rs[1..] == [OptSp, Digits, OptSp, UnitWord];
    assert rs[1..][1..] == [Digits, OptSp, UnitWord];
    assert rs[1..][1..][1..] == [OptSp, UnitWord];
    assert rs[1..][1..][1..][1..] == [UnitWord];
    assert Chain(rs[1..][1..][1..]) == Cat(OptSp, UnitWord);
    assert Chain(rs[1..][1..]) == Cat(Digits, Cat(OptSp, UnitWord));
    assert Chain(rs[1..]) == Cat(OptSp, Cat(Digits, Cat(OptSp, UnitWord)));
  }

  /** An optional space and then the offset: the tail of the rules of lines 5-9. */
  const VerbOffset: Re := Cat(OptSp, Offset)

  /** The Devanagari "follow up", with an optional hyphen or space inside. */
  const FolloAp: Re := Cat(Word("फॉलो"), Cat(Opt(Class(HyphenOrSpace)), Word("अप")))
  /** Five Hindi unit words: day (two words), week (two words), month. */
  const HindiUnitFive: Re :=
    Alt(Word("दिन"), Alt(Word("दिवस"), Alt(Word("हफ्ते"), Alt(Word("सप्ताह"), Word("महीने")))))
  /** Three Hindi unit words: day, week, month. */
  const HindiUnitThree: Re := Alt(Word("दिन"), Alt(Word("हफ्ते"), Word("महीने")))
  /** Four Hindi unit words: day, week (two words), month. */
  const HindiUnitFour: Re := Alt(Word("दिन"), Alt(Word("हफ्ते"), Alt(Word("सप्ताह"), Word("महीने"))))
  /** How the Hindi advice addresses its reader: patient, you, please. */
  const HindiAddress: Re := Alt(Word("रोगी"), Alt(Word("आपको"), Word("कृपया")))

  // The rules, one per source line ----------------------------------------

  /** Line 5: at a word boundary, "follow up" and then the offset. */
  const FollowUpRule: Re := Cat(Boundary, Cat(FollowUp, VerbOffset))
  /** Line 6: at a word boundary, "come back" and then the offset. */
  const ComeBackRule: Re := Cat(Boundary, Cat(Word("come back"), VerbOffset))
  /** Line 7: at a word boundary, "return" and then the offset. */
  const ReturnRule: Re := Cat(Boundary, Cat(Word("return"), VerbOffset))
  /** Line 8: at a word boundary, "revisit" and then the offset. */
  const RevisitRule: Re := Cat(Boundary, Cat(Word("revisit"), VerbOffset))
  /** Line 9: at a word boundary, "check up" and then the offset. */
  const CheckUpRule: Re := Cat(Boundary, Cat(CheckUp, VerbOffset))

  /** Line 12: at a word boundary, "we" or "you", up to 20 characters taken
      lazily, a visit verb, up to 20 more taken lazily, then "in" or "after",
      a space, digits, a space and a unit word. */
  const LooseSeeRule: Re := Chain([
    Boundary, Alt(Word("we"), Word("you")), UpTo(Dot, 20, true),
    Alt(Word("check"), Alt(FollowUp, Alt(Word("see"), Word("visit")))),
    UpTo(Dot, 20, true), InOrAfter, Sp, Digits, Sp, UnitWord])

  /** Line 13: at a word boundary, one of the visit verbs, a space and the
      offset. */
  const VerbListRule: Re := Chain([Boundary, VisitVerb, Sp, Offset])

  /** The visit verbs of line 13: come back, return, revisit, check up,
      follow up, and see us, see me or see a doctor. */
  const VisitVerb: Re :=
    Alt(Chain([Word("come"), Sp, Word("back")]),
    Alt(Word("return"),
    Alt(Word("revisit"),
    Alt(CheckUp,
    Alt(FollowUp,
        Chain([Word("see"), Sp, Alt(Word("us"), Alt(Word("me"), Chain([Word("a"), Sp, Word("doctor")])))]))))))

  /** The line-13 rule written out as nested concatenations. */
  lemma VerbListNested()
    ensures VerbListRule == Cat(Boundary, Cat(VisitVerb, Cat(Sp, Offset)))
  {
    var rs := [Boundary, VisitVerb, Sp, Offset];
    assert rs[1..] == [VisitVerb, Sp, Offset];
    assert rs[1..][1..] == [Sp, Offset];
    assert rs[1..][1..][1..] == [Offset];
    assert Chain(rs[1..][1..]) == Cat(Sp, Offset);
    assert Chain(rs[1..]) == Cat(VisitVerb, Cat(Sp, Offset));
  }

  /** Line 14: at a word boundary, the offset, a space, "to" or "for", a
      space and what the visit is for. */
  const OffsetPurposeRule: Re := Chain([
    Boundary, Offset, Sp, Alt(Word("to"), Word("for")), Sp,
    Alt(CheckUp, Alt(FollowUp, Alt(Word("appointment"), Alt(Word("monitoring"),
      Alt(Word("progress"), Word("visit"))))))])

  /** Line 19: digits, a Hindi unit word, an optional "after", and the
      Hindi word for a check-up, a follow-up or a visit. */
  const HindiAfterRule: Re := Chain([
    Digits, OptSp, HindiUnitFive, OptSp, Opt(Word("के बाद")), OptSp,
    Alt(Word("जाँच"), Alt(FolloAp, Word("मुलाकात")))])

  /** Line 20: "please" or "you", a space, digits, a Hindi unit word, an
      optional "after", and a check-up, a visit, "come" or a follow-up. */
  const HindiPleaseRule: Re := Chain([
    Alt(Word("कृपया"), Alt(Word("आपको"), Word("आप"))), Sp, Digits, OptSp, HindiUnitThree,
    OptSp, Opt(Word("बाद")), OptSp,
    Alt(Word("जांच"), Alt(Word("मुलाकात"), Alt(Word("आना"), FolloAp)))])

  /** Line 21: digits and a Hindi unit word, up to 15 characters taken
      greedily, then "come again" or a check-up. */
  const HindiAgainRule: Re := Chain([
    Digits, OptSp, HindiUnitThree, UpTo(Dot, 15, false),
    Alt(Chain([Word("फिर"), OptSp, Word("से"), OptSp, Word("आएं")]), Word("जांच"))])

  /** Line 22: at a word boundary, the address, up to 20 characters taken
      greedily, digits, a Hindi unit word, an optional "after" and "again",
      a verb of visiting, and up to 20 characters that are neither a danda
      nor a line feed. */
  const HindiPatientRule: Re := Chain([
    Boundary, HindiAddress, UpTo(Dot, 20, false), Digits, OptSp, HindiUnitFive, OptSp,
    Opt(Word("बाद")), OptSp, Opt(Chain([Word("फिर"), OptSp, Word("से"), OptSp])),
    Alt(Word("देखने"), Alt(Word("मुलाकात"), Alt(Word("जांच"), Alt(Word("आने"), Word("आना"))))),
    UpTo(NoneOf("।\n"), 20, false)])

  /** Line 23: at a word boundary, the address, up to 25 characters taken
      lazily, digits, a Hindi unit word, an optional "for", a follow-up,
      check-up or visit, up to 30 characters taken lazily, a verb of coming
      back or visiting, and the Hindi for "is advised" or "is requested". */
  const HindiAdviceRule: Re := Chain([
    Boundary, HindiAddress, UpTo(Dot, 25, true), Digits, OptSp, HindiUnitFour, OptSp,
    Opt(Chain([Word("के"), Sp, Word("लिए")])), OptSp,
    Alt(FolloAp, Alt(Word("जांच"), Word("मुलाकात"))), UpTo(Dot, 30, true),
    Alt(Chain([Word("वापस"), OptSp, Word("आने")]), Alt(Word("मुलाकात"), Alt(Word("जांच"), Word("देखने")))),
    OptSp, Word("की"), OptSp, Alt(Word("सलाह"), Word("अनुरोध"))])

  /** The rule table, in declaration order (lines 5-23). */
  const Patterns: seq<Re> := [
    FollowUpRule, ComeBackRule, ReturnRule, RevisitRule, CheckUpRule,
    LooseSeeRule, VerbListRule, OffsetPurposeRule,
    HindiAfterRule, HindiPleaseRule, HindiAgainRule, HindiPatientRule, HindiAdviceRule]
}
