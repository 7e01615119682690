/**
 * `generateCalendarLink` (frontend/src/utils/generateCalendarLink.js): find
 * the first "in <digits> <day|week|month>" phrase of a reminder, move the
 * current instant forward by that much, and build a Google Calendar link for
 * a 30-minute appointment at the new instant; "#" when there is no phrase.
 *
 * The current instant is a parameter (a time value in milliseconds).
 */
module CalendarLinks {
  import opened Chars
  import opened JsDates
  import opened UriComponent

  // The offset phrase: "in", digits, a unit word, in any case --------------

  /** The first match of the phrase: where it starts and its two groups, the
      digits and the unit as written in the text. */
  datatype OffsetMatch = OffsetMatch(at: nat, digits: DigitString, unit: string)

  /** A string of decimal digits, as `parseInt` reads it. */
  type DigitString = s: string | AllDigits(s)

  /** The number of decimal digits from position `i` on. */
  function DigitRun(s: string, i: nat): (n: nat)
    requires i <= |s|
    ensures i + n <= |s|
    ensures forall j :: i <= j < i + n ==> IsDigit(s[j])
    ensures i + n == |s| || !IsDigit(s[i + n])
    decreases |s| - i
  {
    if i < |s| && IsDigit(s[i]) then 1 + DigitRun(s, i + 1) else 0
  }

  /** The unit words of the unit group, in the order tried. */
  const Units: seq<string> := ["day", "week", "month"]

  /** The unit group at `q`, as the text writes it. */
  function UnitAt(s: string, q: nat): (o: Option<string>)
    requires q <= |s|
  {
    if q + 3 <= |s| && FoldEq(s[q..q + 3], "day") then Some(s[q..q + 3])
    else if q + 4 <= |s| && FoldEq(s[q..q + 4], "week") then Some(s[q..q + 4])
    else if q + 5 <= |s| && FoldEq(s[q..q + 5], "month") then Some(s[q..q + 5])
    else None
  }

  /** The phrase tried at position `p` only. The digit group always takes
      the whole run of digits, since a shorter run is followed by a digit
      and not by the space the pattern needs next; the optional trailing "s"
      does not change the groups. */
  function MatchAt(s: string, p: nat): (o: Option<OffsetMatch>)
    requires p <= |s|
  {
    if p + 3 <= |s| && FoldEq(s[p..p + 2], "in") && s[p + 2] == ' ' then AfterDigits(s, p, DigitRun(s, p + 3))
    else None
  }

  /** The rest of the phrase at `p`, once `in ` is read and `n` digits
      follow it. */
  function AfterDigits(s: string, p: nat, n: nat): (o: Option<OffsetMatch>)
    requires p + 3 + n <= |s| && forall j :: p + 3 <= j < p + 3 + n ==> IsDigit(s[j])
  {
    if n > 0 && p + 3 + n < |s| && s[p + 3 + n] == ' ' then
      var ds := s[p + 3..p + 3 + n];
      assert forall j :: 0 <= j < n ==> ds[j] == s[p + 3 + j];
      match UnitAt(s, p + 4 + n)
      case None => None
      case Some(u) => Some(OffsetMatch(p, ds, u))
    else None
  }

  /** The first match of the offset phrase, as a non-global `match` reports
      it: the leftmost one from `from` on. */
  function FindOffset(s: string, from: nat): (o: Option<OffsetMatch>)
    requires from <= |s|
    decreases |s| - from
  {
    match MatchAt(s, from)
    case Some(m) => Some(m)
    case None => if from == |s| then None else FindOffset(s, from + 1)
  }

  /** The text of the phrase at `p`, with digits `ds` and unit `u`: "in", a
      space, the digits, a space and a unit word, in any case for the
      letters, and no digit right after `ds`. */
  predicate PhraseAt(s: string, p: nat, ds: string, u: string) {
    && p + 4 + |ds| + |u| <= |s|
    && FoldEq(s[p..p + 2], "in") && s[p + 2] == ' '
    && ds != [] && s[p + 3..p + 3 + |ds|] == ds && AllDigits(ds)
    && s[p + 3 + |ds|] == ' '
    && s[p + 4 + |ds|..p + 4 + |ds| + |u|] == u
    && (exists k :: 0 <= k < |Units| && FoldEq(u, Units[k]))
  }

  lemma UnitAtSound(s: string, q: nat)
    requires q <= |s| && UnitAt(s, q).Some?
    ensures var u := UnitAt(s, q).value;
      q + |u| <= |s| && s[q..q + |u|] == u && exists k :: 0 <= k < |Units| && FoldEq(u, Units[k])
  {
    var u := UnitAt(s, q).value;
    if FoldEq(u, "day") {
      assert FoldEq(u, Units[0]);
    } else if FoldEq(u, "week") {
      assert FoldEq(u, Units[1]);
    } else {
      assert FoldEq(u, Units[2]);
    }
  }

  /** What `MatchAt` reports is a phrase at that position. */
  lemma MatchAtSound(s: string, p: nat)
    requires p <= |s| && MatchAt(s, p).Some?
    ensures var m := MatchAt(s, p).value; m.at == p && PhraseAt(s, p, m.digits, m.unit)
  {
    AfterDigitsSound(s, p, DigitRun(s, p + 3));
  }

  lemma AfterDigitsSound(s: string, p: nat, n: nat)
    requires p + 3 + n <= |s| && forall j :: p + 3 <= j < p + 3 + n ==> IsDigit(s[j])
    requires AfterDigits(s, p, n).Some?
    ensures var m := AfterDigits(s, p, n).value;
      m.at == p && |m.digits| == n && m.digits == s[p + 3..p + 3 + n] && s[p + 3 + n] == ' ' &&
      p + 4 + n + |m.unit| <= |s| && s[p + 4 + n..p + 4 + n + |m.unit|] == m.unit &&
      exists k :: 0 <= k < |Units| && FoldEq(m.unit, Units[k])
  {
    UnitAtSound(s, p + 4 + n);
  }

  /** A run of digits, cut out of the text, is a digit string. */
  lemma RunIsDigits(s: string, i: nat, n: nat)
    requires i + n <= |s| && forall j :: i <= j < i + n ==> IsDigit(s[j])
    ensures AllDigits(s[i..i + n])
  {
    var r := s[i..i + n];
    assert forall j :: 0 <= j < n ==> r[j] == s[i + j];
  }

  /** A unit word at `q` is what the unit group takes there. */
  lemma UnitAtComplete(s: string, q: nat, r: nat, u: string)
    requires r == q + |u| && r <= |s| && s[q..r] == u
    requires exists k :: 0 <= k < |Units| && FoldEq(u, Units[k])
    ensures UnitAt(s, q) == Some(u)
  {
    var k :| 0 <= k < |Units| && FoldEq(u, Units[k]);
    assert Upper(u[0]) == Upper(Units[k][0]);
    if k == 1 {
      assert s[q..q + 3][0] == u[0];
      assert !FoldEq(s[q..q + 3], "day") by { assert Upper(s[q..q + 3][0]) != Upper("day"[0]); }
    } else if k == 2 {
      assert s[q..q + 3][0] == u[0] && s[q..q + 4][0] == u[0];
      assert !FoldEq(s[q..q + 3], "day") by { assert Upper(s[q..q + 3][0]) != Upper("day"[0]); }
      assert !FoldEq(s[q..q + 4], "week") by { assert Upper(s[q..q + 4][0]) != Upper("week"[0]); }
    }
  }

  /** A phrase at `p` is what `MatchAt` reports there. */
  lemma MatchAtComplete(s: string, p: nat, ds: string, u: string)
    requires p <= |s| && PhraseAt(s, p, ds, u)
    ensures MatchAt(s, p) == Some(OffsetMatch(p, ds, u))
  {
    DigitsAt(s, p + 3, p + 3 + |ds|, ds);
    UnitAtComplete(s, p + 4 + |ds|, p + 4 + |ds| + |u|, u);
    assert MatchAt(s, p) == AfterDigits(s, p, |ds|);
  }

  /** The digits of a phrase are the whole run of digits where they start. */
  lemma DigitsAt(s: string, i: nat, j: nat, ds: string)
    requires j == i + |ds| && j < |s| && s[i..j] == ds && AllDigits(ds) && s[j] == ' '
    ensures DigitRun(s, i) == |ds|
  {
    assert forall j :: i <= j < i + |ds| ==> s[j] == ds[j - i];
    DigitRunExact(s, i, |ds|);
  }

  lemma {:induction false} DigitRunExact(s: string, i: nat, n: nat)
    requires i + n < |s| && (forall j :: i <= j < i + n ==> IsDigit(s[j])) && !IsDigit(s[i + n])
    ensures DigitRun(s, i) == n
    decreases n
  {
    if n > 0 {
      DigitRunExact(s, i + 1, n - 1);
    }
  }

  /** `match` reports the leftmost phrase, and `null` only when there is none. */
  lemma {:induction false} FindOffsetLeftmost(s: string, from: nat)
    requires from <= |s|
    ensures FindOffset(s, from).Some? ==> var m := FindOffset(s, from).value;
      from <= m.at <= |s| && MatchAt(s, m.at) == Some(m) && forall p :: from <= p < m.at ==> MatchAt(s, p).None?
    ensures FindOffset(s, from).None? ==> forall p :: from <= p <= |s| ==> MatchAt(s, p).None?
    decreases |s| - from
  {
    if MatchAt(s, from).Some? {
      MatchAtSound(s, from);
    } else if from < |s| {
      FindOffsetLeftmost(s, from + 1);
    }
  }

  /** The phrase need not start a word: "within 3 days" holds "in 3 days". */
  lemma WithinCounts()
    ensures FindOffset("within 3 days", 0) == Some(OffsetMatch(4, "3", "day"))
  {
    var s := "within 3 days";
    NothingBeforeIn(s);
    PhraseInWithin(s);
    MatchAtComplete(s, 4, "3", "day");
  }

  lemma NothingBeforeIn(s: string)
    requires s == "within 3 days"
    ensures MatchAt(s, 0) == None && MatchAt(s, 1) == None && MatchAt(s, 2) == None && MatchAt(s, 3) == None
  {
    assert !FoldEq(s[0..2], "in") by { assert Upper(s[0..2][0]) != Upper("in"[0]); }
    assert !FoldEq(s[1..3], "in") by { assert Upper(s[1..3][1]) != Upper("in"[1]); }
    assert !FoldEq(s[2..4], "in") by { assert Upper(s[2..4][0]) != Upper("in"[0]); }
    assert !FoldEq(s[3..5], "in") by { assert Upper(s[3..5][1]) != Upper("in"[1]); }
  }

  lemma PhraseInWithin(s: string)
    requires s == "within 3 days"
    ensures PhraseAt(s, 4, "3", "day")
  {
    assert s[4..6] == "in" && s[7..8] == "3" && s[9..12] == "day";
    assert FoldEq("day", Units[0]);
  }

  // The reminder instant ----------------------------------------------------------

  /** Where the reminder lands: `amount` days, `7 * amount` days or `amount`
      calendar months after `now`, by the unit as the text writes it; a unit
      written with any upper-case letter leaves `now` as it is. */
  function ReminderTime(now: int, amount: nat, unit: string): (v: TimeValue)
    requires InRange(now)
  {
    if unit == "day" then DaysAfter(now, amount)
    else if unit == "week" then DaysAfter(now, amount * 7)
    else if unit == "month" then MonthsAfter(now, amount)
    else Valid(now)
  }

  /** `n` whole days after `t`. */
  function DaysAfter(t: int, n: int): (v: TimeValue) {
    TimeClip(t + n * MsPerDay)
  }

  /** The same date and time of day `n` months after the month of `t`. */
  function MonthsAfter(t: int, n: nat): (v: TimeValue) {
    WithMonth(t, MonthPlus(MonthFromTime(t), n))
  }

  /** The month index `getMonth() + n` handed to `setMonth`; it may lie
      beyond December. */
  function MonthPlus(month: int, n: nat): int {
    month + n
  }

  /** Adding months to year `y`, month `m`, date `d` (the fields of the
      current instant, with the months added) keeps the date of the month
      when the target month has it; otherwise the surplus days roll over
      into the month after. */
  lemma MonthsLater(y: int, m: nat, d: int, w: int)
    requires 1 <= d <= 31 && 0 <= w < MsPerDay
    ensures var ym, mn := CarryYear(y, m), CarryMonth(m);
      var t := MakeDate(MakeDay(y, m, d), w);
      TimeWithinDay(t) == w &&
      (d <= DaysInMonth(ym, mn) ==> YearFromTime(t) == ym && MonthFromTime(t) == mn && DateFromTime(t) == d) &&
      (d > DaysInMonth(ym, mn) ==>
        var ny, nm := if mn == 11 then ym + 1 else ym, if mn == 11 then 0 else mn + 1;
        YearFromTime(t) == ny && MonthFromTime(t) == nm && DateFromTime(t) == d - DaysInMonth(ym, mn))
  {
    MakeDayNormal(y, m, d);
    DateInMonth(CarryYear(y, m), CarryMonth(m), d, w);
  }

  /** Date `d` of month `mn` (0..11) of year `ym`: itself when the month
      has it, otherwise early in the month after. */
  lemma DateInMonth(ym: int, mn: int, d: int, w: int)
    requires 0 <= mn < 12 && 1 <= d <= 31 && 0 <= w < MsPerDay
    ensures var t := MakeDate(MakeDay(ym, mn, d), w);
      TimeWithinDay(t) == w &&
      (d <= DaysInMonth(ym, mn) ==> YearFromTime(t) == ym && MonthFromTime(t) == mn && DateFromTime(t) == d) &&
      (d > DaysInMonth(ym, mn) ==>
        var ny, nm := if mn == 11 then ym + 1 else ym, if mn == 11 then 0 else mn + 1;
        YearFromTime(t) == ny && MonthFromTime(t) == nm && DateFromTime(t) == d - DaysInMonth(ym, mn))
  {
    if d <= DaysInMonth(ym, mn) {
      CivilFieldsOfMakeDay(ym, mn, d, w);
    } else {
      RollOver(ym, mn, d, w);
    }
  }

  /** MakeDay carries the months beyond December into the year first. */
  lemma MakeDayNormal(y: int, m: int, d: int)
    ensures MakeDay(y, m, d) == MakeDay(CarryYear(y, m), CarryMonth(m), d)
  {
    CarryTwice(y, m);
  }

  /** A date past the end of its month is a date early in the next month. */
  lemma RollOver(ym: int, mn: int, d: int, w: int)
    requires 0 <= mn < 12 && DaysInMonth(ym, mn) < d <= 31 && 0 <= w < MsPerDay
    ensures var t := MakeDate(MakeDay(ym, mn, d), w);
      var ny, nm := if mn == 11 then ym + 1 else ym, if mn == 11 then 0 else mn + 1;
      YearFromTime(t) == ny && MonthFromTime(t) == nm && DateFromTime(t) == d - DaysInMonth(ym, mn)
        && TimeWithinDay(t) == w
  {
    var ny, nm := if mn == 11 then ym + 1 else ym, if mn == 11 then 0 else mn + 1;
    var nd := d - DaysInMonth(ym, mn);
    MakeDayInYear(ym, mn, d);
    MakeDayInYear(ny, nm, nd);
    if mn == 11 {
      DayFromYearStep(ym);
      DaysBeforeMonthFacts(InLeapYear(ym));
    }
    assert MakeDay(ym, mn, d) == MakeDay(ny, nm, nd);
    CivilFieldsOfMakeDay(ny, nm, nd, w);
  }

  // The timestamp -------------------------------------------------------------------

  /** The global replacement of the timestamp: drop every `-` and `:` and every `.`
      followed by three digits together with those digits. */
  function StripIso(s: string): (r: string)
    ensures |r| <= |s|
  {
    if s == [] then []
    else if s[0] == '-' || s[0] == ':' then StripIso(s[1..])
    else if s[0] == '.' && |s| >= 4 && AllDigits(s[1..4]) then StripIso(s[4..])
    else [s[0]] + StripIso(s[1..])
  }

  /** `.slice(0, n)`. */
  function Slice(s: string, n: nat): (r: string)
    ensures |r| == if |s| < n then |s| else n
  {
    if |s| <= n then s else s[..n]
  }

  /** One timestamp of the link, built from the time value `t` as the code
      builds it. */
  function Stamp(t: int): string {
    Slice(StripIso(IsoString(t)), 15) + "00Z"
  }

  lemma StripKeep(c: char, rest: string)
    requires c != '-' && c != ':' && c != '.'
    ensures StripIso([c] + rest) == [c] + StripIso(rest)
  {
    assert ([c] + rest)[1..] == rest;
  }

  lemma StripDrop(c: char, rest: string)
    requires c == '-' || c == ':'
    ensures StripIso([c] + rest) == StripIso(rest)
  {
    assert ([c] + rest)[1..] == rest;
  }

  lemma {:induction false} StripDigits(ds: string, rest: string)
    requires AllDigits(ds)
    ensures StripIso(ds + rest) == ds + StripIso(rest)
    decreases |ds|
  {
    if ds == [] {
      assert ds + rest == rest;
    } else {
      assert ds + rest == [ds[0]] + (ds[1..] + rest);
      assert ds[0] != '-' && ds[0] != ':' && ds[0] != '.' by { assert IsDigit(ds[0]); }
      StripKeep(ds[0], ds[1..] + rest);
      StripDigits(ds[1..], rest);
      assert [ds[0]] + (ds[1..] + StripIso(rest)) == ds + StripIso(rest);
    }
  }

  lemma StripMillis(ms: string, rest: string)
    requires |ms| == 3 && AllDigits(ms)
    ensures StripIso("." + (ms + rest)) == StripIso(rest)
  {
    var s := "." + (ms + rest);
    assert s[1..4] == ms && s[4..] == rest;
  }

  /** The stripped ISO string of a year from 0 to 9999:
      `YYYYMMDDTHHmmssZ`. */
  lemma StrippedIso(t: int)
    requires 0 <= YearFromTime(t) <= 9999
    ensures StripIso(IsoString(t)) ==
      PadDigits(YearFromTime(t), 4) + (PadDigits(MonthFromTime(t) + 1, 2) + (PadDigits(DateFromTime(t), 2)
        + ("T" + (PadDigits(HourFromTime(t), 2) + (PadDigits(MinFromTime(t), 2) + (PadDigits(SecFromTime(t), 2) + "Z"))))))
  {
    var y, mo, d := PadDigits(YearFromTime(t), 4), PadDigits(MonthFromTime(t) + 1, 2), PadDigits(DateFromTime(t), 2);
    var h, mi, se, ms := PadDigits(HourFromTime(t), 2), PadDigits(MinFromTime(t), 2), PadDigits(SecFromTime(t), 2), PadDigits(MsFromTime(t), 3);
    StripTime(h, mi, se, ms);
    StripDate(y, mo, d, h + (":" + (mi + (":" + (se + ("." + (ms + "Z")))))));
  }

  /** The time of day loses its colons and its milliseconds. */
  lemma StripTime(h: string, mi: string, se: string, ms: string)
    requires AllDigits(h) && AllDigits(mi) && AllDigits(se) && AllDigits(ms) && |ms| == 3
    ensures StripIso(h + (":" + (mi + (":" + (se + ("." + (ms + "Z"))))))) == h + (mi + (se + "Z"))
  {
    var tail := "." + (ms + "Z");
    StripMillis(ms, "Z");
    StripKeep('Z', []);
    StripDigits(se, tail);
    StripDrop(':', se + tail);
    StripDigits(mi, ":" + (se + tail));
    StripDrop(':', mi + (":" + (se + tail)));
    StripDigits(h, ":" + (mi + (":" + (se + tail))));
  }

  /** The date loses its hyphens; the `T` stays. */
  lemma StripDate(y: string, mo: string, d: string, rest: string)
    requires AllDigits(y) && AllDigits(mo) && AllDigits(d)
    ensures StripIso(y + ("-" + (mo + ("-" + (d + ("T" + rest)))))) == y + (mo + (d + ("T" + StripIso(rest))))
  {
    StripKeep('T', rest);
    StripDigits(d, "T" + rest);
    StripDrop('-', d + ("T" + rest));
    StripDigits(mo, "-" + (d + ("T" + rest)));
    StripDrop('-', mo + ("-" + (d + ("T" + rest))));
    StripDigits(y, "-" + (mo + ("-" + (d + ("T" + rest)))));
  }

  /** For a year from 0 to 9999 the timestamp is the 18 characters
      `YYYYMMDDTHHmmss00Z`: the seconds are kept and "00Z" follows them. */
  lemma StampShape(t: int)
    requires 0 <= YearFromTime(t) <= 9999
    ensures Stamp(t) ==
      PadDigits(YearFromTime(t), 4) + PadDigits(MonthFromTime(t) + 1, 2) + PadDigits(DateFromTime(t), 2)
        + "T" + PadDigits(HourFromTime(t), 2) + PadDigits(MinFromTime(t), 2) + PadDigits(SecFromTime(t), 2) + "00Z"
    ensures |Stamp(t)| == 18
  {
    var y, mo, d := PadDigits(YearFromTime(t), 4), PadDigits(MonthFromTime(t) + 1, 2), PadDigits(DateFromTime(t), 2);
    var h, mi, se := PadDigits(HourFromTime(t), 2), PadDigits(MinFromTime(t), 2), PadDigits(SecFromTime(t), 2);
    StrippedIso(t);
    SliceBeforeZ(y, mo, d, h, mi, se);
  }

  lemma SliceBeforeZ(y: string, mo: string, d: string, h: string, mi: string, se: string)
    requires |y| == 4 && |mo| == 2 && |d| == 2 && |h| == 2 && |mi| == 2 && |se| == 2
    ensures Slice(y + (mo + (d + ("T" + (h + (mi + (se + "Z")))))), 15) + "00Z" == y + mo + d + "T" + h + mi + se + "00Z"
  {
    var p := y + mo + d + "T" + h + mi + se;
    assert y + (mo + (d + ("T" + (h + (mi + (se + "Z")))))) == p + "Z";
    assert (p + "Z")[..15] == p;
  }

  // The link ------------------------------------------------------------------------

  /** What the function does: return a string, or throw a RangeError. */
  datatype Outcome = Returned(value: string) | RangeError

  const Title: string := "Follow-up Appointment"
  const Details: string := "HealthSnap follow-up reminder"
  const Place: string := "Clinic or Telehealth"

  /** The link for an appointment from `start` to `end` (two timestamps). */
  function Url(start: string, end: string): (u: string)
    ensures |u| > 1
  {
    "https://www.google.com/calendar/render?action=TEMPLATE&text=" + EncodeUriComponent(Title)
      + "&dates=" + start + "/" + end + "&details=" + EncodeUriComponent(Details)
      + "&location=" + EncodeUriComponent(Place)
  }

  /** Every character of `s` is unreserved. */
  predicate AllUnescaped(s: string) {
    forall k :: 0 <= k < |s| ==> Unescaped(s[k])
  }

  /** The words of the title hold only unreserved characters. */
  lemma TitleWordsUnescaped()
    ensures AllUnescaped("Follow-up") && AllUnescaped("Appointment")
  {
    HyphenUnescaped();
  }

  /** The words of the details hold only unreserved characters. */
  lemma DetailsWordsUnescaped()
    ensures AllUnescaped("HealthSnap") && AllUnescaped("follow-up") && AllUnescaped("reminder")
  {
    HyphenUnescaped();
  }

  /** The words of the place hold only unreserved characters. */
  lemma PlaceWordsUnescaped()
    ensures AllUnescaped("Clinic") && AllUnescaped("or") && AllUnescaped("Telehealth")
  {
  }

  /** The title's one space becomes `%20`; its hyphen is left as it is. */
  lemma TitleEncoded()
    ensures EncodeUriComponent(Title) == "Follow-up" + "%20" + "Appointment"
  {
    assert "Follow-up" + " " == "Follow-up ";
    assert "Follow-up " + "Appointment" == Title;
    TitleWordsUnescaped();
    EncodeUnescaped("Follow-up");
    EncodeWords("Follow-up", "Appointment");
  }

  /** Each of the details' two spaces becomes `%20`. */
  lemma DetailsEncoded()
    ensures EncodeUriComponent(Details) == "HealthSnap" + "%20" + "follow-up" + "%20" + "reminder"
  {
    assert "HealthSnap" + " " == "HealthSnap ";
    assert "HealthSnap " + "follow-up" == "HealthSnap follow-up";
    assert "HealthSnap follow-up" + " " == "HealthSnap follow-up ";
    assert "HealthSnap follow-up " + "reminder" == Details;
    DetailsWordsUnescaped();
    EncodeUnescaped("HealthSnap");
    EncodeWords("HealthSnap", "follow-up");
    EncodeWords("HealthSnap" + " " + "follow-up", "reminder");
  }

  /** Each of the place's two spaces becomes `%20`. */
  lemma PlaceEncoded()
    ensures EncodeUriComponent(Place) == "Clinic" + "%20" + "or" + "%20" + "Telehealth"
  {
    assert "Clinic" + " " == "Clinic ";
    assert "Clinic " + "or" == "Clinic or";
    assert "Clinic or" + " " == "Clinic or ";
    assert "Clinic or " + "Telehealth" == Place;
    PlaceWordsUnescaped();
    EncodeUnescaped("Clinic");
    EncodeWords("Clinic", "or");
    EncodeWords("Clinic" + " " + "or", "Telehealth");
  }

  /** The link spelled out: the fixed parameters with their spaces escaped,
      and the two timestamps, unescaped, joined by a slash. */
  lemma UrlLiteral(start: string, end: string)
    ensures Url(start, end) == "https://www.google.com/calendar/render?action=TEMPLATE&text=" + ("Follow-up" + "%20" + "Appointment")
      + "&dates=" + start + "/" + end + "&details=" + ("HealthSnap" + "%20" + "follow-up" + "%20" + "reminder")
      + "&location=" + ("Clinic" + "%20" + "or" + "%20" + "Telehealth")
  {
    TitleEncoded();
    DetailsEncoded();
    PlaceEncoded();
  }

  lemma UrlIsNotHash(start: string, end: string)
    ensures Url(start, end) != "#"
  {
    assert |Url(start, end)| > 1;
  }

  /** The half hour from the start of the appointment to its end. */
  const HalfHour: int := 30 * MsPerMinute

  /** What the function settles on before it writes any text: no phrase, a
      RangeError from `toISOString`, or an appointment window between two
      time values. */
  datatype Plan = NoPhrase | Thrown | Window(start: int, end: int)

  /** The plan of `generateCalendarLink(text)` at the instant `now`. */
  function Schedule(text: string, now: int): Plan
    requires InRange(now)
  {
    match FindOffset(text, 0)
    case None => NoPhrase
    case Some(m) => WindowFrom(ReminderTime(now, DecimalValue(m.digits), m.unit))
  }

  /** The window that starts at the reminder instant, or a throw when it or
      the half hour after it is not a date. */
  function WindowFrom(reminder: TimeValue): Plan {
    match reminder
    case NaN => Thrown
    case Valid(start) =>
      match TimeClip(start + HalfHour)
      case NaN => Thrown
      case Valid(end) => Window(start, end)
  }

  /** The text the function returns for a plan. */
  function Render(p: Plan): Outcome {
    match p
    case NoPhrase => Returned("#")
    case Thrown => RangeError
    case Window(start, end) => Returned(Url(Stamp(start), Stamp(end)))
  }

  /** What `generateCalendarLink(text)` gives at the instant `now`. */
  function CalendarLink(text: string, now: int): Outcome
    requires InRange(now)
  {
    Render(Schedule(text, now))
  }

  /** The source's function, step by step: a `Date` for the reminder, moved
      in place by `setDate` or `setMonth`, then the two timestamps and the
      link. */
  method GenerateCalendarLink(reminderText: string, nowMs: int) returns (link: Outcome)
    requires InRange(nowMs)
    ensures link == CalendarLink(reminderText, nowMs)
  {
    var now := new JsDate(Valid(nowMs));
    var found := FindOffset(reminderText, 0);
    if found.None? {
      return Returned("#");
    }
    var amount := DecimalValue(found.value.digits);
    var unit := found.value.unit;
    var reminderDate := MoveDate(now, nowMs, amount, unit);
    link := LinkFrom(reminderDate);
  }

  /** The two timestamps, 30 minutes apart, and the link between them. */
  method LinkFrom(reminderDate: JsDate) returns (link: Outcome)
    ensures link == Render(WindowFrom(reminderDate.time))
  {
    var start := TimeStamp(reminderDate);
    if start.None? {
      return RangeError;
    }
    var endDate := new JsDate(TimeClip(reminderDate.GetTime() + 30 * MsPerMinute));
    var end := TimeStamp(endDate);
    if end.None? {
      return RangeError;
    }
    assert WindowFrom(reminderDate.time) == Window(reminderDate.time.ms, endDate.time.ms);
    link := Returned(Url(start.value, end.value));
  }

  /** `new Date(now)`, then `setDate` or `setMonth` by the unit. */
  method MoveDate(now: JsDate, nowMs: int, amount: nat, unit: string) returns (reminderDate: JsDate)
    requires InRange(nowMs) && now.time == Valid(nowMs)
    ensures fresh(reminderDate) && reminderDate.time == ReminderTime(nowMs, amount, unit)
  {
    reminderDate := new JsDate(now.time);
    if unit == "day" {
      DaysLater(reminderDate, nowMs, amount, now.GetDate());
    }
    if unit == "week" {
      DaysLater(reminderDate, nowMs, amount * 7, now.GetDate());
    }
    if unit == "month" {
      MonthsOn(reminderDate, nowMs, amount, now.GetMonth());
    }
  }

  /** The timestamp written from `d.toISOString()`: hyphens, colons and
      milliseconds removed, cut to 15 characters, "00Z" appended; `None`
      when `toISOString` throws. */
  method TimeStamp(d: JsDate) returns (stamp: Option<string>)
    ensures stamp.Some? <==> d.time.Valid?
    ensures d.time.Valid? ==> stamp == Some(Stamp(d.time.ms))
  {
    var iso := d.ToIsoString();
    if iso.None? {
      return None;
    }
    stamp := Some(Slice(StripIso(iso.value), 15) + "00Z");
  }

  /** `setDate(getDate() + n)` on a date holding `t` moves it `n` days on. */
  method DaysLater(d: JsDate, t: int, n: int, date: int)
    requires d.time == Valid(t) && date == DateFromTime(t)
    modifies d
    ensures d.time == DaysAfter(t, n)
  {
    DatePlusShifts(t, n, date);
    d.SetDate(DatePlus(date, n));
  }

  /** The day of the month `getDate() + n` handed to `setDate`; it may lie
      outside the month. */
  function DatePlus(date: int, n: int): int { date + n }

  lemma DatePlusShifts(t: int, n: int, date: int)
    requires date == DateFromTime(t)
    ensures WithDate(t, DatePlus(date, n)) == DaysAfter(t, n)
  {
    ShiftByDays(t, n);
  }

  /** `setMonth(getMonth() + n)` on a date holding `t`. */
  method MonthsOn(d: JsDate, t: int, n: nat, month: int)
    requires d.time == Valid(t) && month == MonthFromTime(t)
    modifies d
    ensures d.time == MonthsAfter(t, n)
  {
    d.SetMonth(MonthPlus(month, n));
  }

  // Properties of the link ---------------------------------------------------------

  /** "#" exactly when the text holds no phrase anywhere. */
  lemma HashIffNoPhrase(text: string, now: int)
    requires InRange(now)
    ensures CalendarLink(text, now) == Returned("#") <==> forall p :: 0 <= p <= |text| ==> MatchAt(text, p).None?
  {
    FindOffsetLeftmost(text, 0);
    HashOnlyWithoutPhrase(Schedule(text, now));
  }

  /** Only the plan with no phrase renders as "#": a link is longer. */
  lemma HashOnlyWithoutPhrase(p: Plan)
    ensures Render(p) == Returned("#") <==> p == NoPhrase
  {
    match p
    case NoPhrase =>
    case Thrown =>
    case Window(start, end) => UrlIsNotHash(Stamp(start), Stamp(end));
  }

  /** Whenever a phrase is found the function either throws (the reminder
      instant or the half hour after it leaves the range of dates) or plans
      a window that ends exactly 30 minutes after the reminder instant. */
  lemma HalfHourWindow(text: string, now: int)
    requires InRange(now) && FindOffset(text, 0).Some?
    ensures var m := FindOffset(text, 0).value;
      match ReminderTime(now, DecimalValue(m.digits), m.unit)
      case NaN => Schedule(text, now) == Thrown
      case Valid(start) =>
        Schedule(text, now) == if InRange(start + HalfHour) then Window(start, start + HalfHour) else Thrown
  {
  }

  /** The unit test is case-sensitive: "in 3 Weeks" is found, yet the
      reminder is `now` itself. */
  lemma CapitalisedUnitKeepsNow(text: string, now: int)
    requires text == "in 3 Weeks" && InRange(now)
    ensures FindOffset(text, 0) == Some(OffsetMatch(0, "3", "Week"))
    ensures Schedule(text, now) == if InRange(now + HalfHour) then Window(now, now + HalfHour) else Thrown
  {
    assert text[0..2] == "in" && text[3..4] == "3" && text[5..9] == "Week";
    assert PhraseAt(text, 0, "3", "Week") by {
      assert FoldEq("Week", Units[1]);
    }
    MatchAtComplete(text, 0, "3", "Week");
    assert DecimalValue("3") == 3;
    assert ReminderTime(now, 3, "Week") == Valid(now);
  }

  /** One month after 31 January is 3 March, or 2 March in a leap year, at
      the same time of day: February is too short, and the surplus days
      roll over. */
  lemma JanuaryThirtyFirstPlusOneMonth(t: int)
    requires InRange(t) && MonthFromTime(t) == 0 && DateFromTime(t) == 31
    ensures var r := ReminderTime(t, 1, "month");
      r.Valid? ==>
        YearFromTime(r.ms) == YearFromTime(t) && MonthFromTime(r.ms) == 2 &&
        DateFromTime(r.ms) == (if InLeapYear(YearFromTime(t)) then 2 else 3) &&
        TimeWithinDay(r.ms) == TimeWithinDay(t)
  {
    OneMonthAfterJanuary(t);
    RollIntoMarch(YearFromTime(t), TimeWithinDay(t));
  }

  /** `setMonth(0 + 1)` on 31 January asks for 31 February. */
  lemma OneMonthAfterJanuary(t: int)
    requires InRange(t) && MonthFromTime(t) == 0 && DateFromTime(t) == 31
    ensures ReminderTime(t, 1, "month") == TimeClip(MakeDate(MakeDay(YearFromTime(t), 1, 31), TimeWithinDay(t)))
  {
    assert MonthPlus(0, 1) == 1;
  }

  /** The fields of 31 February of year `y` at time of day `w`. */
  lemma RollIntoMarch(y: int, w: int)
    requires 0 <= w < MsPerDay
    ensures var v := MakeDate(MakeDay(y, 1, 31), w);
      YearFromTime(v) == y && MonthFromTime(v) == 2 &&
      DateFromTime(v) == (if InLeapYear(y) then 2 else 3) && TimeWithinDay(v) == w
  {
    FebruaryLength(y);
    MonthsLater(y, 1, 31, w);
  }

  lemma FebruaryLength(y: int)
    ensures DaysInMonth(y, 1) == if InLeapYear(y) then 29 else 28
  {
  }
}
