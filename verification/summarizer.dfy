/**
 * The pure helpers of backend/summarizer.py: `clean_summary`, which drops
 * the `**` markers of bold text, `build_multilingual_prompt`, which picks
 * the summary prompt by language, and the test that sends a question-and-
 * answer reply to the web-search fallback.
 */
module Summarizer {
  import opened Chars

  // clean_summary -----------------------------------------------------------

  /** Where the closing `**` of a pair starts in `t`, the text after an
      opening `**`: the first `**`, provided no line feed comes before it
      (`.` does not match a line feed). */
  function Close(t: string): (o: Option<nat>)
    ensures o.Some? ==> o.value + 2 <= |t|
  {
    if |t| < 2 then None
    else if t[0] == '*' && t[1] == '*' then Some(0)
    else if t[0] == '\n' then None
    else match Close(t[1..])
      case None => None
      case Some(k) => Some(k + 1)
  }

  /** A pair starts at the front of `s`: an opening `**` that closes. */
  predicate PairAtFront(s: string) {
    |s| >= 2 && s[0] == '*' && s[1] == '*' && Close(s[2..]).Some?
  }

  /** `clean_summary(s)`: scanning from the left, each `**…**` pair with the
      shortest content is replaced by its content, and the scan goes on
      after the closing marker. */
  function CleanSummary(s: string): (r: string)
    decreases |s|
  {
    if s == [] then []
    else if PairAtFront(s) then
      var k := Close(s[2..]).value;
      s[2..2 + k] + CleanSummary(s[4 + k..])
    else [s[0]] + CleanSummary(s[1..])
  }

  /** The number of pairs `clean_summary` replaces. */
  function Pairs(s: string): nat
    decreases |s|
  {
    if s == [] then 0
    else if PairAtFront(s) then 1 + Pairs(s[4 + Close(s[2..]).value..])
    else Pairs(s[1..])
  }

  /** A `**` marker starts at position `k` of `t`. */
  predicate MarkerAt(t: string, k: nat) {
    k + 2 <= |t| && t[k] == '*' && t[k + 1] == '*'
  }

  /** What `Close` finds is the leftmost marker, with no line feed before
      it; when it finds none, every marker has a line feed before it. */
  lemma {:induction false} CloseLeftmost(t: string)
    ensures Close(t).Some? ==> var k := Close(t).value;
      MarkerAt(t, k) && forall j: nat :: j < k ==> t[j] != '\n' && !MarkerAt(t, j)
    ensures Close(t).None? ==> forall k: nat :: MarkerAt(t, k) ==> exists j: nat :: j < k && t[j] == '\n'
  {
    if |t| >= 2 && !MarkerAt(t, 0) && t[0] != '\n' {
      var u := t[1..];
      CloseLeftmost(u);
      ShiftMarker(t);
      if Close(t).None? {
        forall k: nat | MarkerAt(t, k)
          ensures exists j: nat :: j < k && t[j] == '\n'
        {
          assert k != 0 && MarkerAt(u, k - 1);
          var j: nat :| j < k - 1 && u[j] == '\n';
          assert t[j + 1] == '\n';
        }
      }
    } else if |t| >= 2 && t[0] == '\n' {
      assert forall k: nat :: MarkerAt(t, k) ==> k > 0 && t[0] == '\n';
    }
  }

  /** The markers of `t` past its first character are those of `t[1..]`. */
  lemma ShiftMarker(t: string)
    requires t != []
    ensures forall k: nat :: MarkerAt(t, k + 1) <==> MarkerAt(t[1..], k)
  {
  }

  /** Each replacement removes exactly the four asterisks of one pair, so
      the result is never longer than the text. */
  lemma {:induction false} CleanLength(s: string)
    ensures |CleanSummary(s)| == |s| - 4 * Pairs(s)
    ensures |CleanSummary(s)| <= |s|
    decreases |s|
  {
    if s != [] {
      if PairAtFront(s) {
        CleanLength(s[4 + Close(s[2..]).value..]);
      } else {
        CleanLength(s[1..]);
      }
    }
  }

  /** Text with no `**` in it. */
  predicate NoMarker(s: string) {
    forall k: nat :: k < |s| ==> !MarkerAt(s, k)
  }

  /** Text with no `**` is returned unchanged, and no pair is counted. */
  lemma {:induction false} NoMarkerUnchanged(s: string)
    requires NoMarker(s)
    ensures CleanSummary(s) == s && Pairs(s) == 0
    decreases |s|
  {
    if s != [] {
      assert !MarkerAt(s, 0);
      ShiftMarker(s);
      NoMarkerUnchanged(s[1..]);
    }
  }

  predicate NoStar(s: string) {
    forall i :: 0 <= i < |s| ==> s[i] != '*'
  }

  predicate NoLineFeed(s: string) {
    forall i :: 0 <= i < |s| ==> s[i] != '\n'
  }

  /** The first `**` after a run with no asterisk and no line feed closes
      right after the run. */
  lemma {:induction false} CloseAfterPlain(a: string, rest: string)
    requires NoStar(a) && NoLineFeed(a)
    ensures Close(a + "**" + rest) == Some(|a|)
    decreases |a|
  {
    var t := a + "**" + rest;
    if a == [] {
      assert t[0] == '*' && t[1] == '*';
    } else {
      assert t[0] == a[0] && t[1..] == a[1..] + "**" + rest;
      CloseAfterPlain(a[1..], rest);
    }
  }

  /** A pair around text with no asterisk and no line feed loses its
      markers. */
  lemma BoldRemoved(s: string)
    requires NoStar(s) && NoLineFeed(s)
    ensures CleanSummary("**" + s + "**") == s
  {
    var w := "**" + s + "**";
    assert w[2..] == s + "**" + [];
    CloseAfterPlain(s, []);
    assert w[2..2 + |s|] == s && w[4 + |s|..] == [];
  }

  /** A run with no asterisk followed by a pair around plain text. */
  lemma {:induction false} PlainThenPair(a: string, b: string)
    requires NoStar(a) && NoStar(b) && NoLineFeed(b)
    ensures CleanSummary(a + "**" + b + "**") == a + b
    decreases |a|
  {
    var s := a + "**" + b + "**";
    if a == [] {
      assert s == "**" + b + "**";
      BoldRemoved(b);
    } else {
      assert s[0] == a[0] && s[0] != '*' && !PairAtFront(s);
      assert s[1..] == a[1..] + "**" + b + "**";
      PlainThenPair(a[1..], b);
    }
  }

  /** Pairs are taken left to right and without overlap: two bold words
      with plain text between them keep the three texts and lose all eight
      asterisks. */
  lemma ConsecutivePairs(a: string, b: string, c: string)
    requires NoStar(a) && NoLineFeed(a) && NoStar(b) && NoStar(c) && NoLineFeed(c)
    ensures CleanSummary("**" + a + "**" + b + "**" + c + "**") == a + b + c
  {
    var rest := b + "**" + c + "**";
    assert "**" + a + "**" + b + "**" + c + "**" == "**" + a + "**" + rest;
    PairThenRest(a, rest);
    PlainThenPair(b, c);
  }

  /** A leading pair around plain text is replaced and the scan goes on
      right after it. */
  lemma PairThenRest(a: string, rest: string)
    requires NoStar(a) && NoLineFeed(a)
    ensures CleanSummary("**" + a + "**" + rest) == a + CleanSummary(rest)
  {
    var s := "**" + a + "**" + rest;
    assert s[2..] == a + "**" + rest;
    CloseAfterPlain(a, rest);
    assert s[2..2 + |a|] == a && s[4 + |a|..] == rest;
  }

  /** With no asterisk before it, a line feed stops the search for the
      closing marker. */
  lemma {:induction false} CloseBlockedByLineFeed(a: string, rest: string)
    requires NoStar(a)
    ensures Close(a + "\n" + rest) == None
    decreases |a|
  {
    var t := a + "\n" + rest;
    if a == [] {
      assert t[0] == '\n';
    } else {
      assert t[0] == a[0] && t[1..] == a[1..] + "\n" + rest;
      CloseBlockedByLineFeed(a[1..], rest);
    }
  }

  /** Text with no asterisk and then a lone `**` at the end is unchanged:
      that `**` has nothing after it to close it. */
  lemma {:induction false} PlainThenMarker(a: string)
    requires NoStar(a)
    ensures CleanSummary(a + "**") == a + "**"
    decreases |a|
  {
    var s := a + "**";
    if a == [] {
      assert s == "**" && s[2..] == [] && s[1..] == "*";
      assert CleanSummary("*") == "*" by { assert "*"[1..] == []; }
    } else {
      assert s[0] == a[0] && s[1..] == a[1..] + "**";
      PlainThenMarker(a[1..]);
    }
  }

  /** A pair with a line feed between its markers is left as it is. */
  lemma NewlineKeepsMarkers(a: string, b: string)
    requires NoStar(a) && NoStar(b)
    ensures CleanSummary("**" + a + "\n" + b + "**") == "**" + a + "\n" + b + "**"
  {
    var body := a + "\n" + b;
    NoStarJoin(a, b);
    CloseBlockedByLineFeed(a, b + "**");
    assert body + "**" == a + "\n" + (b + "**");
    assert (body + "**")[0] == body[0];
    UnclosedPair(body + "**");
    PlainThenMarker(body);
    Regroup("**", a, "\n", b, "**");
  }

  lemma Regroup(p: string, a: string, n: string, b: string, q: string)
    ensures p + a + n + b + q == p + (a + n + b + q)
  {
  }

  /** An opening `**` that nothing closes stays, and the scan goes on after it. */
  lemma UnclosedPair(t: string)
    requires Close(t).None? && (t == [] || t[0] != '*')
    ensures CleanSummary("**" + t) == "**" + CleanSummary(t)
  {
    var s := "**" + t;
    assert s[2..] == t && s[1..] == "*" + t;
    LoneStar(t);
  }

  /** A single asterisk not followed by another is kept. */
  lemma LoneStar(t: string)
    requires t == [] || t[0] != '*'
    ensures CleanSummary("*" + t) == "*" + CleanSummary(t)
  {
    var s := "*" + t;
    assert s[1..] == t;
  }

  lemma NoStarJoin(a: string, b: string)
    requires NoStar(a) && NoStar(b)
    ensures NoStar(a + "\n" + b)
  {
    var body := a + "\n" + b;
    assert forall i :: 0 <= i < |body| ==> body[i] == (if i < |a| then a[i] else if i == |a| then '\n' else b[i - |a| - 1]);
  }

  // build_multilingual_prompt -----------------------------------------------

  /** `str.lower()` for one character, as far as the comparisons here can
      tell: ASCII capitals and the Kelvin sign, which lowers to an ASCII `k`.
      The capital I with a dot above lowers to an `i` followed by a
      combining dot; this model keeps it as it is, which gives the same
      outcome, since the names are compared whole and every `i` of a bad
      phrase is followed by a letter or an apostrophe. */
  function LowerChar(c: char): (l: char)
  {
    if c == 'K' then 'k' else Lower(c)
  }

  function LowerText(s: string): (r: string)
    ensures |r| == |s| && forall i :: 0 <= i < |s| ==> r[i] == LowerChar(s[i])
  {
    seq(|s|, i requires 0 <= i < |s| => LowerChar(s[i]))
  }

  /** Lower-casing leaves no ASCII capital and no Kelvin sign, changes
      nothing a second time, and keeps every other character. */
  lemma LowerTextLowers(s: string)
    ensures forall i :: 0 <= i < |s| ==> !('A' <= LowerText(s)[i] <= 'Z') && LowerText(s)[i] != 'K'
    ensures LowerText(LowerText(s)) == LowerText(s)
    ensures forall i :: 0 <= i < |s| && !('A' <= s[i] <= 'Z') && s[i] != 'K' ==> LowerText(s)[i] == s[i]
  {
  }

  const HindiPrompt: string :=
    "निम्नलिखित चिकित्सा नोट को सरल, रोगी-अनुकूल हिंदी में संक्षेप करें। "
    + "सभी अनुभाग शीर्षकों और सामग्री को देवनागरी लिपि में अनुवादित करें।"
  const SpanishPrompt: string :=
    "Escribe un resumen de la siguiente nota clínica utilizando un lenguaje sencillo y comprensible para el paciente. "
    + "Asegúrate de traducir todos los títulos y secciones al español. Responde solo en español."
  const FrenchPrompt: string :=
    "Rédigez un résumé de la note clinique suivante en utilisant un langage clair et facile à comprendre pour le patient. "
    + "Veuillez traduire tous les titres et sections en français. Répondez uniquement en français."
  const EnglishLead: string :=
    "Summarize the following clinical note in simple, patient-friendly English. "
    + "Translate all section headings and content into "

  /** The languages with instructions of their own. */
  datatype Language = Hindi | Spanish | French | Other

  /** The branch `build_multilingual_prompt` takes: the lower-cased name
      compared with the three names it knows. */
  function Choice(targetLang: string): (l: Language)
    ensures l == Other <==> LowerText(targetLang) !in {"hindi", "spanish", "french"}
  {
    var lang := LowerText(targetLang);
    if lang == "hindi" then Hindi
    else if lang == "spanish" then Spanish
    else if lang == "french" then French
    else Other
  }

  /** The instructions for the target language, before the note. */
  function Instructions(targetLang: string): string {
    match Choice(targetLang)
    case Hindi => HindiPrompt
    case Spanish => SpanishPrompt
    case French => FrenchPrompt
    case Other => EnglishLead + targetLang + "."
  }

  /** `build_multilingual_prompt(text, target_lang)`. */
  function BuildMultilingualPrompt(text: string, targetLang: string): (p: string)
  {
    Instructions(targetLang) + "\n\n" + text
  }

  /** Every prompt ends with a blank line and then the note, unchanged. */
  lemma PromptEndsWithNote(text: string, targetLang: string)
    ensures var p := BuildMultilingualPrompt(text, targetLang);
      |p| >= |text| + 2 && p[|p| - |text|..] == text && p[|p| - |text| - 2..|p| - |text|] == "\n\n"
  {
    var i := Instructions(targetLang);
    var p := BuildMultilingualPrompt(text, targetLang);
    assert p == i + ("\n\n" + text);
    assert p[|i|..] == "\n\n" + text;
  }

  /** The branch depends on the language's lower-case form only: names that
      lower alike give the same prompt, except in the English branch, which
      quotes the name as given. */
  lemma LanguageCaseIgnored(text: string, a: string, b: string)
    requires LowerText(a) == LowerText(b)
    requires LowerText(a) in {"hindi", "spanish", "french"}
    ensures BuildMultilingualPrompt(text, a) == BuildMultilingualPrompt(text, b)
  {
    assert Choice(a) == Choice(b) != Other;
  }

  /** "Hindi", "HINDI" and "hindi" all choose the Hindi prompt. */
  lemma HindiAnyCase(text: string)
    ensures Choice("Hindi") == Choice("HINDI") == Choice("hindi") == Hindi
  {
    assert LowerText("Hindi") == "hindi";
    assert LowerText("HINDI") == "hindi";
    assert LowerText("hindi") == "hindi";
  }

  /** Any other language takes the English instructions, which name the
      language verbatim just before the final full stop. */
  lemma OtherLanguageNamed(text: string, targetLang: string)
    requires LowerText(targetLang) !in {"hindi", "spanish", "french"}
    ensures var p := BuildMultilingualPrompt(text, targetLang);
      var n := |EnglishLead|;
      |p| >= n + |targetLang| && p[..n] == EnglishLead && p[n..n + |targetLang|] == targetLang
  {
    assert Choice(targetLang) == Other;
    LeadingParts(EnglishLead, targetLang, ".", "\n\n", text);
  }

  lemma LeadingParts(a: string, b: string, c: string, d: string, e: string)
    ensures var p := a + b + c + d + e;
      |p| >= |a| + |b| && p[..|a|] == a && p[|a|..|a| + |b|] == b
  {
    var p := a + b + c + d + e;
    assert forall i :: 0 <= i < |a| ==> p[i] == a[i];
    assert forall i :: 0 <= i < |b| ==> p[|a| + i] == b[i];
  }

  // The fallback test of ask_with_snowflake ---------------------------------

  /** The replies that send the question to the web search instead. */
  const BadPhrases: seq<string> := [
    "webmd", "check online", "i'm not sure",
    "consult your doctor", "not provided", "not mentioned",
    "john's wort", "over the counter", "drug interaction", "interact"
  ]

  /** Python's `needle in haystack`, scanning from position `from`. */
  function ContainsFrom(haystack: string, needle: string, from: nat): bool
    requires from <= |haystack|
    decreases |haystack| - from
  {
    if from + |needle| > |haystack| then false
    else if haystack[from..from + |needle|] == needle then true
    else ContainsFrom(haystack, needle, from + 1)
  }

  /** `needle` occurs in `haystack` at position `i`. */
  predicate OccursAt(haystack: string, needle: string, i: nat) {
    i + |needle| <= |haystack| && haystack[i..i + |needle|] == needle
  }

  /** `needle` occurs somewhere in `haystack`. */
  predicate Occurs(haystack: string, needle: string) {
    exists i: nat :: i <= |haystack| && OccursAt(haystack, needle, i)
  }

  /** The scan finds the needle exactly when it occurs from `from` on. */
  lemma {:induction false} ContainsFromIff(haystack: string, needle: string, from: nat)
    requires from <= |haystack|
    ensures ContainsFrom(haystack, needle, from) <==> exists i: nat :: from <= i && OccursAt(haystack, needle, i)
    decreases |haystack| - from
  {
    if from + |needle| <= |haystack| {
      if haystack[from..from + |needle|] == needle {
        assert OccursAt(haystack, needle, from);
      } else {
        ContainsFromIff(haystack, needle, from + 1);
        if exists i: nat :: from <= i && OccursAt(haystack, needle, i) {
          var i: nat :| from <= i && OccursAt(haystack, needle, i);
          assert i != from;
        }
      }
    }
  }

  /** Whether any of `phrases` occurs in `lowered`, tried in order. */
  function AnyPhrase(lowered: string, phrases: seq<string>): bool {
    if phrases == [] then false
    else ContainsFrom(lowered, phrases[0], 0) || AnyPhrase(lowered, phrases[1..])
  }

  lemma {:induction false} AnyPhraseIff(lowered: string, phrases: seq<string>)
    ensures AnyPhrase(lowered, phrases) <==> exists k :: 0 <= k < |phrases| && Occurs(lowered, phrases[k])
  {
    if phrases != [] {
      ContainsFromIff(lowered, phrases[0], 0);
      AnyPhraseIff(lowered, phrases[1..]);
      if exists k :: 0 <= k < |phrases| && Occurs(lowered, phrases[k]) {
        var k :| 0 <= k < |phrases| && Occurs(lowered, phrases[k]);
        if k > 0 {
          assert phrases[1..][k - 1] == phrases[k];
        }
      }
    }
  }

  /** The reply is empty or its lower-case form holds one of the bad phrases:
      the reply (already stripped) is not used. */
  predicate NeedsFallback(answer: string) {
    answer == [] || AnyPhrase(LowerText(answer), BadPhrases)
  }

  /** The fallback is taken exactly when the reply is empty or its
      lower-case form contains one of the ten phrases. */
  lemma FallbackIff(answer: string)
    ensures NeedsFallback(answer) <==>
      answer == [] || exists k :: 0 <= k < |BadPhrases| && Occurs(LowerText(answer), BadPhrases[k])
  {
    AnyPhraseIff(LowerText(answer), BadPhrases);
  }

  /** The phrases are matched in any case: a reply naming "WebMD" is not
      used. */
  lemma WebMdInAnyCase(answer: string)
    requires answer == "See WebMD."
    ensures NeedsFallback(answer)
  {
    var lowered := LowerText(answer);
    assert lowered[4..9] == "webmd";
    assert OccursAt(lowered, BadPhrases[0], 4);
    FallbackIff(answer);
  }

  /** A reply with none of the phrases is used. */
  lemma PlainAnswerKept(answer: string)
    requires answer == "Take 2 tablets."
    ensures !NeedsFallback(answer)
  {
    var lowered := LowerText(answer);
    assert lowered == "take 2 tablets.";
    assert Avoids(lowered, PhraseInitials);
    PhraseInitialsCover();
    FallbackIff(answer);
    forall k | 0 <= k < |BadPhrases|
      ensures !Occurs(lowered, BadPhrases[k])
    {
      InitialAbsent(lowered, BadPhrases[k], PhraseInitials);
    }
  }

  /** The first letters of the ten phrases. */
  const PhraseInitials: string := "wcinjod"

  lemma PhraseInitialsCover()
    ensures forall k :: 0 <= k < |BadPhrases| ==> BadPhrases[k] != [] && BadPhrases[k][0] in PhraseInitials
  {
  }

  /** No character of `h` is one of `cs`. */
  predicate Avoids(h: string, cs: string) {
    forall i :: 0 <= i < |h| ==> h[i] !in cs
  }

  /** A text without the first letter of a word does not contain it. */
  lemma InitialAbsent(h: string, n: string, cs: string)
    requires n != [] && n[0] in cs && Avoids(h, cs)
    ensures !Occurs(h, n)
  {
    forall i: nat | i <= |h|
      ensures !OccursAt(h, n, i)
    {
      if i < |h| {
        assert h[i] !in cs;
      }
    }
  }
}
