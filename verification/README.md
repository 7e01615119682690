# medihelper core in Dafny

A Dafny model of the three pieces of logic in medihelper that are not I/O, with proofs about each.

- **The follow-up extractor** (`extractFollowUps`). It runs thirteen case-insensitive global regular expressions over a visit summary:
  - eight English rules and five Hindi rules, in declaration order;
  - every whole match is appended to one list, with duplicates kept.

  The model has these layers:
  - `JsRegex` gives a small semantics of the ECMAScript regular expressions involved. A pattern denotes the end positions a backtracking matcher tries, in order. `Exec` finds the leftmost position with a match, and `MatchAll` is the global loop of `String.prototype.match`.
  - `FollowUpPatterns` writes all thirteen rules as terms of that semantics.
  - `FollowUpExtraction.ExtractFollowUps` is the loop of the source, proved equal to the rule-by-rule concatenation `AllMatches`.
- **The calendar-link builder** (`generateCalendarLink`):
  - It finds the first "in N day/week/month" phrase.
  - It moves a `Date` forward in place with `setDate` or `setMonth`, using the ECMAScript civil calendar (`JsDates`).
  - It formats two timestamps 30 minutes apart and assembles the Google Calendar link. The link's text parameters are percent-encoded as `encodeURIComponent` does (`UriComponent`).
  - It returns `"#"` when there is no phrase.
  - The current instant is a parameter, in milliseconds since the epoch.
- **Three string helpers of the summarizer backend** (`Summarizer`):
  - `clean_summary` removes the `**` markers of bold text;
  - `build_multilingual_prompt` chooses the prompt by language name, in any case;
  - the test in `ask_with_snowflake` that sends an empty or evasive answer to the web-search fallback.

Where the written description of the system and the code disagree, the model follows the code:
- **Timestamps.** A timestamp is the 18 characters `YYYYMMDDTHHMMSS00Z`. The seconds are kept and "00Z" is appended, because the code keeps 15 characters of the stripped ISO string. It is not a 16-character form truncated to the minute.
- **Window start.** The start instant keeps the seconds and milliseconds of "now".
- **Adding months.** Adding one month to 31 January rolls over into March, as `setMonth` does. It does not clamp to the end of February.
- **What is scanned.** The offset phrase is searched for in whatever text the caller passes, not in a re-parsed match.

## Model

| member | source | states |
|---|---|---|
| FollowUpExtraction.AllMatches | frontend/src/utils/extractFollowUps.js:27-32 | the matches of each rule in turn, concatenated; RuleOrder, CountIsSum and AllMatchesAppend state what it gives |
| FollowUpExtraction.ExtractFollowUps | frontend/src/utils/extractFollowUps.js:27-32 | the list built in place, one push of a rule's matches per rule (nothing when `match` gives null), equals the concatenation of every rule's matches in declaration order |
| FollowUpExtraction.RuleOrder | frontend/src/utils/extractFollowUps.js:3-32 | the result is the matches of the rules before rule j, then all matches of rule j, then those of the rules after it, whatever their positions in the text |
| FollowUpExtraction.AllMatchesAppend | frontend/src/utils/extractFollowUps.js:27-30 | running the rules of a and then those of b gives the matches of a followed by those of b |
| FollowUpExtraction.FlattenAppend | frontend/src/utils/extractFollowUps.js:27-30 | appending per-rule lists is associative over any split of the rule list |
| FollowUpExtraction.CountIsSum | frontend/src/utils/extractFollowUps.js:27-32 | the result length is the sum of the per-rule match counts: nothing is merged or dropped |
| FollowUpExtraction.ContributionSize | frontend/src/utils/extractFollowUps.js:28-29 | a rule adds exactly as many strings as its global match loop finds spans |
| FollowUpExtraction.EmptyIff | frontend/src/utils/extractFollowUps.js:2-32 | the result is the empty list (never null) exactly when no rule matches anywhere |
| FollowUpExtraction.MatchesAreSubstrings | frontend/src/utils/extractFollowUps.js:28 | every returned string is a contiguous piece of the summary text: the whole match, not a group |
| FollowUpExtraction.PatternsNeedDigits | frontend/src/utils/extractFollowUps.js:5-23 | every one of the thirteen rules needs an ASCII digit to match |
| FollowUpExtraction.NoDigitNoFollowUps | frontend/src/utils/extractFollowUps.js:2-32 | a summary with no decimal digit, the empty one included, yields the empty list |
| JsRegex.Ends | frontend/src/utils/extractFollowUps.js:5-23 | every position where a match of a pattern starting at i can end, in the order the backtracking engine tries them; CatSplit, CatJoin, WordEnds and RunExact state it for each construct |
| JsRegex.Exec | frontend/src/utils/extractFollowUps.js:28 | one search step of the global loop; ExecLeftmost states which match it reports |
| JsRegex.MatchAll | frontend/src/utils/extractFollowUps.js:28 | the spans of the global loop; MatchFromOrdered, MatchFromReported and MatchAllEmptyIff state them |
| JsRegex.StringMatchReports | frontend/src/utils/extractFollowUps.js:28 | a global `match` gives null exactly when the pattern matches at no position; otherwise it gives one string per span of the global loop, the spans in increasing order without overlap, each string the text of the match the engine reports at that span's start |
| JsRegex.ExecLeftmost | frontend/src/utils/extractFollowUps.js:28 | one search step reports the leftmost position with a match and the match the engine prefers there, and finds nothing only when no position from `lastIndex` on has a match |
| JsRegex.MatchFromOrdered | frontend/src/utils/extractFollowUps.js:5-23 | within one rule's contribution the matches come in increasing order of start and do not overlap |
| JsRegex.MatchFromReported | frontend/src/utils/extractFollowUps.js:28 | each span of the global loop is the match the engine reports at its start |
| JsRegex.MatchFromAfter | frontend/src/utils/extractFollowUps.js:28 | every span of the global loop starts at or after the position it was started from |
| JsRegex.MatchAllEmptyIff | frontend/src/utils/extractFollowUps.js:28-29 | the global loop finds nothing exactly when the pattern matches at no position |
| JsRegex.MatchAllHead | frontend/src/utils/extractFollowUps.js:28 | a match at position 0 is the first string `match` reports |
| JsRegex.NoDigitNoMatch | frontend/src/utils/extractFollowUps.js:5-23 | a pattern that needs a digit has no match in a text without digits |
| JsRegex.CatSplit | frontend/src/utils/extractFollowUps.js:5 | a match of a concatenation splits into a match of each part at a common middle position |
| JsRegex.CatJoin | frontend/src/utils/extractFollowUps.js:5 | matches of two parts at a common middle position join into a match of their concatenation |
| JsRegex.ChainLast | frontend/src/utils/extractFollowUps.js:5 | every match of a chain of parts ends with a match of its last part |
| JsRegex.WordEnds | frontend/src/utils/extractFollowUps.js:5 | a literal matches only its own length of text equal to it up to ASCII case |
| JsRegex.RunExact | frontend/src/utils/extractFollowUps.js:5 | a greedy class run takes exactly the characters of the class up to its bound |
| JsRegex.FirstCat | frontend/src/utils/extractFollowUps.js:5 | the preferred match of a concatenation continues from the preferred match of its first part when the second part matches there |
| FollowUpRuleFacts.FollowUpRuleEnds | frontend/src/utils/extractFollowUps.js:5 | a match of the line-5 rule starts at a word boundary with "follow" in any case and ends with a unit word |
| FollowUpRuleFacts.FollowUpMatchShape | frontend/src/utils/extractFollowUps.js:5 | every string the line-5 rule contributes starts with "follow" and ends with day, days, week, weeks, month or months, in any case |
| FollowUpRuleFacts.UnitWordEnds | frontend/src/utils/extractFollowUps.js:5 | every match of the unit group spells one of the six unit words |
| FollowUpRuleFacts.VerbOffsetEnds | frontend/src/utils/extractFollowUps.js:5-9 | every match of the offset tail shared by lines 5-9 ends with a unit word |
| FollowUpRuleFacts.FollowUpEnds | frontend/src/utils/extractFollowUps.js:5 | a match of the "follow up" piece begins with "follow" |
| FollowUpRuleFacts.ExampleRuleFive | frontend/src/utils/extractFollowUps.js:5 | the line-5 rule matches the whole of "follow up in 10 days" at its start |
| FollowUpRuleFacts.ExampleRuleThirteen | frontend/src/utils/extractFollowUps.js:13 | the line-13 rule matches the whole of "follow up in 10 days" at its start too |
| FollowUpRuleFacts.DuplicatesKept | frontend/src/utils/extractFollowUps.js:27-29 | no deduplication: "follow up in 10 days" is in the result at least twice, first from line 5 and again from line 13 |
| CalendarLinks.UnitAt | frontend/src/utils/generateCalendarLink.js:3 | the unit group at a position; UnitAtComplete states it |
| CalendarLinks.MatchAt | frontend/src/utils/generateCalendarLink.js:3 | the offset phrase at one position; MatchAtSound and MatchAtComplete state it |
| CalendarLinks.FindOffset | frontend/src/utils/generateCalendarLink.js:3 | the scan for the leftmost offset phrase; FindOffsetLeftmost states it |
| CalendarLinks.DaysAfter | frontend/src/utils/generateCalendarLink.js:11-12 | the date moved on by a number of days; DaysLater states it |
| CalendarLinks.MonthsAfter | frontend/src/utils/generateCalendarLink.js:13 | the date moved on by a number of months; MonthsOn and MonthsLater state it |
| CalendarLinks.ReminderTime | frontend/src/utils/generateCalendarLink.js:7-13 | the reminder instant for each unit word, and the unchanged instant for any other; MoveDate and CapitalisedUnitKeepsNow state it |
| CalendarLinks.Stamp | frontend/src/utils/generateCalendarLink.js:15-19 | a timestamp written from a valid instant; StampShape states it |
| CalendarLinks.Url | frontend/src/utils/generateCalendarLink.js:21-25 | the link between two timestamps; UrlLiteral spells it out |
| CalendarLinks.Schedule | frontend/src/utils/generateCalendarLink.js:1-19 | the plan settled on before any text is written; HashIffNoPhrase and HalfHourWindow state it |
| CalendarLinks.CalendarLink | frontend/src/utils/generateCalendarLink.js:1-26 | the link, "#" or the RangeError as a function of the text and the current instant; GenerateCalendarLink and LinkFrom state it |
| CalendarLinks.TitleEncoded | frontend/src/utils/generateCalendarLink.js:22 | the title encodes as `Follow-up%20Appointment`: the space is escaped, the hyphen is not |
| CalendarLinks.DetailsEncoded | frontend/src/utils/generateCalendarLink.js:21 | the details encode as `HealthSnap%20follow-up%20reminder` |
| CalendarLinks.PlaceEncoded | frontend/src/utils/generateCalendarLink.js:23 | the place encodes as `Clinic%20or%20Telehealth` |
| CalendarLinks.UrlLiteral | frontend/src/utils/generateCalendarLink.js:21-25 | the link is the fixed Google Calendar address with `action=TEMPLATE`, the encoded title, `dates=` the start timestamp, a slash and the end timestamp, then the encoded details and place |
| CalendarLinks.DigitRun | frontend/src/utils/generateCalendarLink.js:3 | the digit group takes the maximal run of ASCII digits at a position |
| CalendarLinks.MatchAtSound | frontend/src/utils/generateCalendarLink.js:3 | a reported phrase is "in", a space, the digits, a space and a unit word, with the groups holding the digits and the unit as written |
| CalendarLinks.MatchAtComplete | frontend/src/utils/generateCalendarLink.js:3 | conversely, such a phrase at a position is what the scan reports there |
| CalendarLinks.UnitAtComplete | frontend/src/utils/generateCalendarLink.js:3 | a unit word in any case is what the unit group takes |
| CalendarLinks.FindOffsetLeftmost | frontend/src/utils/generateCalendarLink.js:3-5 | the scan reports the leftmost phrase and reports none only when no position holds one |
| CalendarLinks.WithinCounts | frontend/src/utils/generateCalendarLink.js:3 | there is no word boundary: "within 3 days" yields the phrase "in 3 day" at position 4 |
| CalendarLinks.HashIffNoPhrase | frontend/src/utils/generateCalendarLink.js:3-5 | the result is "#" exactly when the text holds no phrase anywhere |
| CalendarLinks.HashOnlyWithoutPhrase | frontend/src/utils/generateCalendarLink.js:5 | only the no-phrase case renders as "#"; a link never equals "#" |
| CalendarLinks.UrlIsNotHash | frontend/src/utils/generateCalendarLink.js:25 | the assembled URL is never "#" |
| CalendarLinks.GenerateCalendarLink | frontend/src/utils/generateCalendarLink.js:1-26 | the step-by-step function returns what the plan of the text at `now` renders to: "#", a RangeError, or the link |
| CalendarLinks.MoveDate | frontend/src/utils/generateCalendarLink.js:10-13 | the copied `Date` ends at the reminder instant: days, seven times as many days, or calendar months by the unit as written, and `now` for any other spelling |
| CalendarLinks.DaysLater | frontend/src/utils/generateCalendarLink.js:11-12 | `setDate(getDate() + n)` moves the date exactly n whole days, across month and year ends |
| CalendarLinks.DatePlusShifts | frontend/src/utils/generateCalendarLink.js:11-12 | replacing the date of the month by the date plus n is the instant n days later |
| CalendarLinks.MonthsOn | frontend/src/utils/generateCalendarLink.js:13 | `setMonth(getMonth() + n)` sets the date to the same date and time of day n months on |
| CalendarLinks.MonthsLater | frontend/src/utils/generateCalendarLink.js:13 | n months on keeps the date when the target month has it; otherwise the surplus days roll into the month after; the time of day is kept |
| CalendarLinks.DateInMonth | frontend/src/utils/generateCalendarLink.js:13 | the date d of a month is itself when the month has it, otherwise early in the month after |
| CalendarLinks.MakeDayNormal | frontend/src/utils/generateCalendarLink.js:13 | a month index past December is carried into the year first |
| CalendarLinks.RollOver | frontend/src/utils/generateCalendarLink.js:13 | a date past the end of its month lands that many days into the next month, across the year end too |
| CalendarLinks.JanuaryThirtyFirstPlusOneMonth | frontend/src/utils/generateCalendarLink.js:13 | one month after 31 January is 3 March, or 2 March in a leap year, at the same time of day |
| CalendarLinks.OneMonthAfterJanuary | frontend/src/utils/generateCalendarLink.js:13 | on 31 January `setMonth` asks for 31 February of the same year |
| CalendarLinks.RollIntoMarch | frontend/src/utils/generateCalendarLink.js:13 | 31 February is 2 or 3 March by leap year |
| CalendarLinks.CapitalisedUnitKeepsNow | frontend/src/utils/generateCalendarLink.js:3-13 | the scan ignores case but the unit test does not: "in 3 Weeks" is found, and the window starts at `now` itself |
| CalendarLinks.HalfHourWindow | frontend/src/utils/generateCalendarLink.js:15-19 | when a phrase is found, the window ends exactly 1,800,000 ms after its start, or the function throws because an instant leaves the range of dates |
| CalendarLinks.LinkFrom | frontend/src/utils/generateCalendarLink.js:15-25 | the two timestamps, 30 minutes apart, and the link between them, or a RangeError for an invalid date |
| CalendarLinks.TimeStamp | frontend/src/utils/generateCalendarLink.js:15 | a timestamp exists exactly when the date is valid, and it is the stripped, cut and suffixed ISO string |
| CalendarLinks.StripIso | frontend/src/utils/generateCalendarLink.js:15 | the replacement never lengthens the text |
| CalendarLinks.StrippedIso | frontend/src/utils/generateCalendarLink.js:15 | for years 0 to 9999 the stripped ISO string is `YYYYMMDDTHHmmssZ`, the fields of the instant padded with zeros |
| CalendarLinks.StripTime | frontend/src/utils/generateCalendarLink.js:15 | the time of day loses its colons and its milliseconds |
| CalendarLinks.StripDate | frontend/src/utils/generateCalendarLink.js:15 | the date loses its hyphens and keeps the `T` |
| CalendarLinks.SliceBeforeZ | frontend/src/utils/generateCalendarLink.js:15 | the 15-character slice stops before the `Z`, and "00Z" follows the seconds |
| CalendarLinks.StampShape | frontend/src/utils/generateCalendarLink.js:15-19 | for years 0 to 9999 a timestamp is the 18 characters `YYYYMMDDTHHmmss00Z`, with the seconds kept |
| JsDates.MakeDay | frontend/src/utils/generateCalendarLink.js:11-13 | the day number of a year, a month index (carried into the year first) and a date; CivilFieldsOfMakeDay and DateInMonth state it |
| JsDates.MakeDate | frontend/src/utils/generateCalendarLink.js:11-13 | the time value of a day number and a time of day; ShiftByDays states it |
| JsDates.YearFromTime | frontend/src/utils/generateCalendarLink.js:11-13 | the year of an instant; YearOfDayUnique and CivilRoundTrip state it |
| JsDates.MonthFromTime | frontend/src/utils/generateCalendarLink.js:13 | the month index of an instant, from 0 to 11, within its year |
| JsDates.DateFromTime | frontend/src/utils/generateCalendarLink.js:11-12 | the date of the month of an instant, from 1 to the length of its month |
| JsDates.IsoString | frontend/src/utils/generateCalendarLink.js:15-17 | the date-time string of an instant; IsoStringFields states it |
| JsDates.ShiftByDays | frontend/src/utils/generateCalendarLink.js:11-12 | replacing the date by the date plus n moves the time value by n times 86,400,000 ms |
| JsDates.CivilRoundTrip | frontend/src/utils/generateCalendarLink.js:11-13 | the year, month and date of a time value make its day again |
| JsDates.CivilFieldsOfMakeDay | frontend/src/utils/generateCalendarLink.js:11-13 | a valid date of a month, taken apart again, gives back its year, month, date and time of day |
| JsDates.DayFromYearStep | frontend/src/utils/generateCalendarLink.js:11-13 | consecutive years start 365 or 366 days apart, by the Gregorian leap rule |
| JsDates.YearOfDayUnique | frontend/src/utils/generateCalendarLink.js:11-13 | a day lies in exactly one year |
| JsDates.CarryTwice | frontend/src/utils/generateCalendarLink.js:13 | carrying whole years out of a month index a second time changes nothing |
| JsDates.JsDate.constructor | frontend/src/utils/generateCalendarLink.js:10 | `new Date(now)` holds the time value of `now` |
| JsDates.JsDate.SetDate | frontend/src/utils/generateCalendarLink.js:11-12 | `setDate` keeps the year, month and time of day and replaces the date; an invalid date stays invalid |
| JsDates.JsDate.SetMonth | frontend/src/utils/generateCalendarLink.js:13 | `setMonth` keeps the year, date and time of day and replaces the month; an invalid date stays invalid |
| JsDates.JsDate.GetDate | frontend/src/utils/generateCalendarLink.js:11-12 | `getDate` is a date of the month from 1 to 31 |
| JsDates.JsDate.GetMonth | frontend/src/utils/generateCalendarLink.js:13 | `getMonth` is a month index from 0 to 11 |
| JsDates.IsoStringFields | frontend/src/utils/generateCalendarLink.js:15-17 | for years 0 to 9999 `toISOString` writes 24 characters with `-`, `-`, `T`, `:`, `:`, `.` and `Z` at fixed places, and each field, read as a decimal number, is the year, month, date, hour, minute, second or millisecond of the instant |
| JsDates.IsoYear | frontend/src/utils/generateCalendarLink.js:15 | years 0 to 9999 are written as four digits |
| Chars.PadDigitsValue | frontend/src/utils/generateCalendarLink.js:15 | a number below 10^w, written as w digits with leading zeros, reads back as itself |
| UriComponent.EncodeUriComponent | frontend/src/utils/generateCalendarLink.js:21-23 | `encodeURIComponent`; EncodeAppend, DecodeEncode and EncodedIsSafe state it |
| UriComponent.EncodeAppend | frontend/src/utils/generateCalendarLink.js:21-23 | encoding works character by character, so it distributes over concatenation |
| UriComponent.DecodeEncode | frontend/src/utils/generateCalendarLink.js:21-23 | decoding an encoded ASCII text gives it back |
| UriComponent.EncodedIsSafe | frontend/src/utils/generateCalendarLink.js:21-25 | an encoded text holds only unreserved characters and `%` escapes, so none of the characters that separate query parameters |
| UriComponent.EncodeUnescaped | frontend/src/utils/generateCalendarLink.js:21-23 | text of unreserved characters is its own encoding |
| UriComponent.EncodeWords | frontend/src/utils/generateCalendarLink.js:21-23 | words joined by a space encode as the words joined by `%20` |
| UriComponent.SpaceEscape | frontend/src/utils/generateCalendarLink.js:21-23 | a space is escaped as `%20` |
| UriComponent.HexDigitValue | frontend/src/utils/generateCalendarLink.js:21-23 | every escape digit is an upper-case hexadecimal digit that reads back as its value |
| Summarizer.CleanSummary | backend/summarizer.py:10-12 | `clean_summary`: each shortest bold pair on one line replaced by its text, left to right; CleanLength, NoMarkerUnchanged, CloseLeftmost and the worked cases state it |
| Summarizer.CleanLength | backend/summarizer.py:10-12 | each replacement removes exactly the four asterisks of one pair: the output length is the input length minus four per pair, never more |
| Summarizer.NoMarkerUnchanged | backend/summarizer.py:12 | text containing no `**` is returned unchanged, with no pair replaced |
| Summarizer.CloseLeftmost | backend/summarizer.py:12 | the closing marker is the nearest `**` with no line feed before it; when none is found, every later `**` has a line feed before it |
| Summarizer.BoldRemoved | backend/summarizer.py:12 | a pair around text with no asterisk and no line feed is replaced by that text |
| Summarizer.PairThenRest | backend/summarizer.py:12 | a leading pair around plain text is replaced and the scan goes on right after its closing marker |
| Summarizer.PlainThenPair | backend/summarizer.py:12 | plain text followed by a pair loses only the pair's asterisks |
| Summarizer.ConsecutivePairs | backend/summarizer.py:12 | pairs are taken left to right, shortest first and without overlap: two bold words around plain text keep the three texts and lose all eight asterisks |
| Summarizer.CloseBlockedByLineFeed | backend/summarizer.py:12 | a line feed before any asterisk stops the search for the closing marker |
| Summarizer.NewlineKeepsMarkers | backend/summarizer.py:12 | a pair with a line feed between its markers is left untouched |
| Summarizer.PlainThenMarker | backend/summarizer.py:12 | a lone trailing `**` with nothing to close it is kept |
| Summarizer.Instructions | backend/summarizer.py:15-33 | the instructions for the lower-cased language name; Choice and OtherLanguageNamed state which |
| Summarizer.BuildMultilingualPrompt | backend/summarizer.py:14-34 | the instructions, a blank line, then the note; PromptEndsWithNote and LanguageCaseIgnored state it |
| Summarizer.LowerTextLowers | backend/summarizer.py:15 | lower-casing leaves no ASCII capital and no Kelvin sign, changes nothing when done again, and keeps every other character |
| Summarizer.Choice | backend/summarizer.py:15-30 | the English branch is taken exactly when the lower-cased name is none of hindi, spanish or french |
| Summarizer.LanguageCaseIgnored | backend/summarizer.py:15-29 | two names that lower alike to a known language give the same prompt |
| Summarizer.HindiAnyCase | backend/summarizer.py:15 | "Hindi", "HINDI" and "hindi" all choose the Hindi prompt |
| Summarizer.OtherLanguageNamed | backend/summarizer.py:30-34 | any other language gets the English instructions, which name the language verbatim |
| Summarizer.PromptEndsWithNote | backend/summarizer.py:14-34 | every prompt ends with a blank line followed by the note, unchanged |
| Summarizer.NeedsFallback | backend/summarizer.py:147-153 | whether the answer goes to the web-search fallback; FallbackIff states when |
| Summarizer.ContainsFromIff | backend/summarizer.py:153 | the substring scan finds a phrase exactly when it occurs in the text |
| Summarizer.AnyPhraseIff | backend/summarizer.py:153 | the scan over a phrase list succeeds exactly when one of the phrases occurs |
| Summarizer.FallbackIff | backend/summarizer.py:147-153 | the answer goes to the web-search fallback exactly when it is empty or its lower-case form contains one of the ten listed phrases |
| Summarizer.WebMdInAnyCase | backend/summarizer.py:147-153 | phrases are found in any case: an answer naming "WebMD" falls back |
| Summarizer.PlainAnswerKept | backend/summarizer.py:147-157 | an example: the answer "Take 2 tablets." holds none of the phrases in any case and is used (FallbackIff states the general case) |
| Summarizer.InitialAbsent | backend/summarizer.py:153 | a text missing the first letter of a phrase does not contain the phrase |

## Left out

- I/O of the repository is not modelled:
  - the FastAPI endpoints of backend/app.py and backend/voice_api.py;
  - the Deepgram, Snowflake and SerpAPI calls (`summarize_with_snowflake`, the query in `ask_with_snowflake`, `search_google_fallback`);
  - the `print` calls;
  - the file readers of backend/extractor.py;
  - the script backend/test_summary.py;
  - the React components.
- The ambient clock (`new Date()`): the current instant is a parameter of `GenerateCalendarLink`.
- Local time zones and daylight saving time: the local zone is UTC, so `setDate` and `setMonth` act on the same calendar as `toISOString`.
- JavaScript doubles: time values and amounts are unbounded integers, and an instant outside the range of dates becomes NaN through TimeClip. `parseInt` losing precision above 2^53 is not modelled. Any amount that large already gives an invalid date, so the function throws either way.
- GenerateCalendarLink: requires the current instant to be a valid time value, which `new Date()` always is.
- JsDates.JsDate.GetDate, JsDates.JsDate.GetMonth: require a valid date, where JavaScript gives NaN. The function only calls them on the current instant, which is valid.
- UTF-16: JavaScript strings are UTF-16 code units, while a Dafny string here is a sequence of code points. A summary character outside the Basic Multilingual Plane counts as one character for the bounded `.` repetitions of lines 12 and 21-23, where JavaScript counts two. Every character the rules name lies in that plane.
- JsRegex: only the regular-expression features the thirteen rules use are modelled: literals, classes, `\b`, concatenation, alternation, `?`, `+` and bounded greedy and lazy repetition. Capture groups are not tracked, because only whole matches are returned. The case folding of the `i` flag is ASCII-only, which is exact for these patterns without the `u` flag.
- UriComponent.DecodeEncode: the round trip is proved for ASCII text only. The strings the function encodes are ASCII.
- CalendarLinks.StampShape, CalendarLinks.StrippedIso: the shape is stated for years 0 to 9999 only. Outside that range `toISOString` writes a sign and six year digits, which `IsoYear` models; the stamp is then not of the stated form.
- Summarizer.LowerText: `str.lower()` is modelled for ASCII letters and the Kelvin sign, which lowers to an ASCII `k`. Other characters are kept as they are. The one other character whose lower-case form holds an ASCII letter is the capital I with a dot above, which Python lowers to an `i` followed by a combining dot. Keeping it gives the same outcome: language names are compared whole, and every `i` of a bad phrase is followed by a letter or an apostrophe, never by the combining dot.
- Summarizer.NeedsFallback: takes the already stripped answer. The `strip()` and the null check at backend/summarizer.py:145 belong to the database code, which is not modelled.
- Besides "follow up in 10 days", the concrete rule matches are worked out for the line-5 rule's match shape only. The other rules are modelled as terms of the semantics, and the general results (order, count, emptiness, substrings, digits needed) cover all thirteen.
