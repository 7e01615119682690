/**
 * The part of ECMAScript regular-expression matching that the follow-up
 * rules use, with the `g` and `i` flags and without the `u` flag.
 *
 * A pattern denotes, at each start position, the list of positions where a
 * match could end, in the order a backtracking matcher tries them; the
 * match the engine reports at that position is the first of them. On top of
 * that, `Exec` finds the leftmost position with a match and `MatchAll` is
 * the loop of `String.prototype.match` for a global pattern.
 */
module JsRegex {
  import opened Chars

  /** A set of characters matched by one pattern atom. */
  datatype CharClass =
    | Digit                                 // \d
    | Space                                 // \s
    | Dot                                   // .
    | OneOf(cs: string)                     // [abc]
    | Either(a: CharClass, b: CharClass)    // [-\s]
    | NoneOf(cs: string)                    // [^abc]

  predicate InClass(c: char, k: CharClass) {
    match k
    case Digit => IsDigit(c)
    case Space => IsSpace(c)
    case Dot => !IsLineTerminator(c)
    case OneOf(cs) => c in cs
    case Either(a, b) => InClass(c, a) || InClass(c, b)
    case NoneOf(cs) => c !in cs
  }

  datatype Re =
    | Word(w: string)                       // a literal, compared up to ASCII case
    | Class(k: CharClass)                   // one character of a class
    | Boundary                              // \b
    | Cat(a: Re, b: Re)                     // a b
    | Alt(a: Re, b: Re)                     // a|b
    | Opt(a: Re)                            // a? (greedy)
    | Plus(k: CharClass)                    // k+ (greedy)
    | UpTo(k: CharClass, max: nat, lazy: bool)  // k{0,max} or k{0,max}?

  /** The right-nested concatenation of a non-empty list of patterns. */
  function Chain(rs: seq<Re>): Re
    requires |rs| > 0
  {
    if |rs| == 1 then rs[0] else Cat(rs[0], Chain(rs[1..]))
  }

  /** How many characters of class `k`, at most `max`, follow position `i`. */
  function Run(k: CharClass, s: string, i: nat, max: nat): (n: nat)
    requires i <= |s|
    ensures n <= max && i + n <= |s|
    ensures forall j :: i <= j < i + n ==> InClass(s[j], k)
    ensures n < max && i + n < |s| ==> !InClass(s[i + n], k)
    decreases max
  {
    if max == 0 || i == |s| || !InClass(s[i], k) then 0
    else 1 + Run(k, s, i + 1, max - 1)
  }

  /** A run of exactly `n` characters of `k`, stopped by `max`, by the end
      of the text or by a character outside `k`, is what `Run` counts. */
  lemma {:induction false} RunExact(k: CharClass, s: string, i: nat, max: nat, n: nat)
    requires i + n <= |s| && n <= max
    requires forall j :: i <= j < i + n ==> InClass(s[j], k)
    requires n == max || i + n == |s| || !InClass(s[i + n], k)
    ensures Run(k, s, i, max) == n
    decreases n
  {
    if n > 0 {
      RunExact(k, s, i + 1, max - 1, n - 1);
    }
  }

  /** `hi, hi - 1, ..., lo`. */
  function Down(hi: nat, lo: nat): (es: seq<nat>)
    requires lo <= hi + 1
    ensures |es| == hi + 1 - lo
    ensures forall j :: 0 <= j < |es| ==> es[j] == hi - j
    decreases hi + 1 - lo
  {
    if lo == hi + 1 then [] else [hi] + (if hi == lo then [] else Down(hi - 1, lo))
  }

  /** `lo, lo + 1, ..., hi`. */
  function Up(lo: nat, hi: nat): (es: seq<nat>)
    requires lo <= hi + 1
    ensures |es| == hi + 1 - lo
    ensures forall j :: 0 <= j < |es| ==> es[j] == lo + j
    decreases hi + 1 - lo
  {
    if lo == hi + 1 then [] else [lo] + Up(lo + 1, hi)
  }

  predicate WordBefore(s: string, i: nat)
    requires i <= |s|
  {
    i > 0 && IsWordChar(s[i - 1])
  }

  predicate WordAt(s: string, i: nat)
    requires i <= |s|
  {
    i < |s| && IsWordChar(s[i])
  }

  /** Every end position at which `r`, started at `i`, can match `s`, in the
      order the backtracking matcher tries them. */
  function Ends(r: Re, s: string, i: nat): (es: seq<nat>)
    requires i <= |s|
    ensures forall j :: 0 <= j < |es| ==> i <= es[j] <= |s|
    decreases r, 0
  {
    match r
    case Word(w) =>
      if i + |w| <= |s| && FoldEq(s[i..i + |w|], w) then [i + |w|] else []
    case Class(k) =>
      if i < |s| && InClass(s[i], k) then [i + 1] else []
    case Boundary =>
      if WordBefore(s, i) != WordAt(s, i) then [i] else []
    case Cat(a, b) =>
      CatEnds(Ends(a, s, i), b, s, i)
    case Alt(a, b) =>
      Ends(a, s, i) + Ends(b, s, i)
    case Opt(a) =>
      Ends(a, s, i) + [i]
    case Plus(k) =>
      var n := Run(k, s, i, |s| - i);
      if n == 0 then [] else Down(i + n, i + 1)
    case UpTo(k, max, lazy) =>
      var n := Run(k, s, i, max);
      if lazy then Up(i, i + n) else Down(i + n, i)
  }

  /** The ends of `b` started at each of `ms` in turn: the continuation of a
      concatenation. */
  function CatEnds(ms: seq<nat>, b: Re, s: string, lo: nat): (es: seq<nat>)
    requires forall j :: 0 <= j < |ms| ==> lo <= ms[j] <= |s|
    ensures forall j :: 0 <= j < |es| ==> lo <= es[j] <= |s|
    decreases b, |ms| + 1
  {
    if ms == [] then [] else Ends(b, s, ms[0]) + CatEnds(ms[1..], b, s, lo)
  }

  /** The end of the match the engine reports when `r` is tried at `i` only. */
  function FirstEnd(r: Re, s: string, i: nat): (o: Option<nat>)
    requires i <= |s|
    ensures o.Some? ==> i <= o.value <= |s|
  {
    var es := Ends(r, s, i);
    if es == [] then None else Some(es[0])
  }

  /** What the engine reports when `r` is tried at each position of `s` from
      0 to `|s|` in turn. */
  function Firsts(r: Re, s: string): (t: seq<Option<nat>>)
    ensures |t| == |s| + 1 && EndsAhead(t)
    ensures forall i :: 0 <= i <= |s| ==> t[i] == FirstEnd(r, s, i)
  {
    seq(|s| + 1, i requires 0 <= i <= |s| => FirstEnd(r, s, i))
  }

  /** A table of first ends, one per position: each end lies at or after
      its position and inside the text. */
  predicate EndsAhead(t: seq<Option<nat>>) {
    forall i :: 0 <= i < |t| && t[i].Some? ==> i <= t[i].value < |t|
  }

  datatype Span = Span(start: nat, end: nat)

  /** `RegExpBuiltinExec` from `lastIndex == from`: try each position in
      turn, given what the engine reports at each. */
  function Exec(t: seq<Option<nat>>, from: nat): (o: Option<Span>)
    requires EndsAhead(t) && from < |t|
    ensures o.Some? ==> from <= o.value.start <= o.value.end < |t|
    decreases |t| - from
  {
    match t[from]
    case Some(e) => Some(Span(from, e))
    case None => if from == |t| - 1 then None else Exec(t, from + 1)
  }

  /** `Exec` reports the leftmost position at which the pattern matches,
      with the match the engine reports there, and `None` only when no
      position from `from` on has a match. */
  lemma ExecLeftmost(t: seq<Option<nat>>, from: nat)
    requires EndsAhead(t) && from < |t|
    ensures Exec(t, from).Some? ==> t[Exec(t, from).value.start] == Some(Exec(t, from).value.end)
    ensures Exec(t, from).Some? ==> forall p :: from <= p < Exec(t, from).value.start ==> t[p] == None
    ensures Exec(t, from).None? ==> forall p :: from <= p < |t| ==> t[p] == None
  {
    if Exec(t, from).Some? {
      ExecReports(t, from);
    }
    forall p | from <= p < |t| && t[p].Some?
      ensures Exec(t, from).Some? && Exec(t, from).value.start <= p
    {
      ExecReaches(t, from, p);
    }
  }

  /** What `Exec` reports is the match the engine reports at its start. */
  lemma {:induction false} ExecReports(t: seq<Option<nat>>, from: nat)
    requires EndsAhead(t) && from < |t| && Exec(t, from).Some?
    ensures t[Exec(t, from).value.start] == Some(Exec(t, from).value.end)
    decreases |t| - from
  {
    if t[from].None? {
      ExecReports(t, from + 1);
    }
  }

  /** A match at `p` stops the search at `p` at the latest. */
  lemma {:induction false} ExecReaches(t: seq<Option<nat>>, from: nat, p: nat)
    requires EndsAhead(t) && from <= p < |t| && t[p].Some?
    ensures Exec(t, from).Some? && Exec(t, from).value.start <= p
    decreases p - from
  {
    if t[from].None? {
      ExecReaches(t, from + 1, p);
    }
  }

  /** Spans that lie at or after `from` and end at or before `n`, in
      increasing order of start, each ending before the next begins. */
  predicate Ordered(sp: seq<Span>, from: nat, n: nat) {
    && (forall k :: 0 <= k < |sp| ==> from <= sp[k].start <= sp[k].end <= n)
    && (forall k, l :: 0 <= k < l < |sp| ==> sp[k].end <= sp[l].start && sp[k].start < sp[l].start)
  }

  /** The loop of `String.prototype.match` for a global pattern, from
      `lastIndex == from`: after an empty match `lastIndex` moves one further. */
  function MatchFrom(t: seq<Option<nat>>, from: nat): (sp: seq<Span>)
    requires EndsAhead(t) && from <= |t|
    ensures forall k :: 0 <= k < |sp| ==> sp[k].start <= sp[k].end < |t|
    decreases |t| - from
  {
    if from == |t| then []
    else
      match Exec(t, from)
      case None => []
      case Some(m) =>
        [m] + MatchFrom(t, Resume(m))
  }

  /** Where `lastIndex` stands after the match `m`: its end, or one further
      when it is empty. */
  function Resume(m: Span): nat {
    if m.end == m.start then m.end + 1 else m.end
  }

  /** The spans `s.match(r)` reports for a global pattern. */
  function MatchAll(r: Re, s: string): (sp: seq<Span>)
    ensures forall k :: 0 <= k < |sp| ==> sp[k].start <= sp[k].end <= |s|
  {
    MatchFrom(Firsts(r, s), 0)
  }

  /** Every span of the global loop from `from` starts at or after `from`. */
  lemma MatchFromAfter(t: seq<Option<nat>>, from: nat)
    requires EndsAhead(t) && from <= |t|
    ensures forall k :: 0 <= k < |MatchFrom(t, from)| ==> from <= MatchFrom(t, from)[k].start
  {
    forall k | 0 <= k < |MatchFrom(t, from)| ensures from <= MatchFrom(t, from)[k].start {
      MatchFromSpan(t, from, k);
    }
  }

  /** Each span of the global loop is the match the engine reports at its start. */
  lemma MatchFromReported(t: seq<Option<nat>>, from: nat)
    requires EndsAhead(t) && from <= |t|
    ensures forall k :: 0 <= k < |MatchFrom(t, from)| ==>
      t[MatchFrom(t, from)[k].start] == Some(MatchFrom(t, from)[k].end)
  {
    forall k | 0 <= k < |MatchFrom(t, from)|
      ensures t[MatchFrom(t, from)[k].start] == Some(MatchFrom(t, from)[k].end)
    {
      MatchFromSpan(t, from, k);
    }
  }

  /** The spans of the global loop come in increasing order of start, each
      ending before the next begins. */
  lemma MatchFromOrdered(t: seq<Option<nat>>, from: nat)
    requires EndsAhead(t) && from <= |t| && |t| > 0
    ensures Ordered(MatchFrom(t, from), from, |t| - 1)
  {
    var sp := MatchFrom(t, from);
    MatchFromAfter(t, from);
    forall k, l | 0 <= k < l < |sp| ensures sp[k].end <= sp[l].start && sp[k].start < sp[l].start {
      MatchFromPair(t, from, k, l);
    }
  }

  /** The first span of the loop and the position the loop goes on from. */
  lemma MatchFromHead(t: seq<Option<nat>>, from: nat)
    requires EndsAhead(t) && from <= |t| && MatchFrom(t, from) != []
    ensures from < |t| && Exec(t, from).Some?
    ensures var m := Exec(t, from).value;
      m.start < Resume(m) <= |t| && m.end <= Resume(m) &&
      MatchFrom(t, from) == [m] + MatchFrom(t, Resume(m))
  {
  }

  /** The `k`-th span starts at or after `from` and is what the engine
      reports at its start. */
  lemma {:induction false} MatchFromSpan(t: seq<Option<nat>>, from: nat, k: nat)
    requires EndsAhead(t) && from <= |t| && k < |MatchFrom(t, from)|
    ensures from <= MatchFrom(t, from)[k].start
    ensures t[MatchFrom(t, from)[k].start] == Some(MatchFrom(t, from)[k].end)
    decreases |t| - from
  {
    MatchFromHead(t, from);
    var m := Exec(t, from).value;
    var next := Resume(m);
    if k == 0 {
      ExecReports(t, from);
    } else {
      MatchFromSpan(t, next, k - 1);
      ConsIndex(m, MatchFrom(t, next), k);
    }
  }

  /** An earlier span ends before a later one begins. */
  lemma {:induction false} MatchFromPair(t: seq<Option<nat>>, from: nat, k: nat, l: nat)
    requires EndsAhead(t) && from <= |t| && k < l < |MatchFrom(t, from)|
    ensures MatchFrom(t, from)[k].end <= MatchFrom(t, from)[l].start
    ensures MatchFrom(t, from)[k].start < MatchFrom(t, from)[l].start
    decreases |t| - from
  {
    MatchFromHead(t, from);
    var m := Exec(t, from).value;
    var next := Resume(m);
    var rest := MatchFrom(t, next);
    ConsIndex(m, rest, l);
    if k == 0 {
      MatchFromSpan(t, next, l - 1);
    } else {
      MatchFromPair(t, next, k - 1, l - 1);
      ConsIndex(m, rest, k);
    }
  }

  lemma ConsIndex<T>(x: T, xs: seq<T>, k: nat)
    requires 0 < k <= |xs|
    ensures ([x] + xs)[k] == xs[k - 1]
  {
  }

  /** The text of each span. */
  function Texts(s: string, sp: seq<Span>): (ts: seq<string>)
    requires forall k :: 0 <= k < |sp| ==> sp[k].start <= sp[k].end <= |s|
    ensures |ts| == |sp|
    ensures forall k :: 0 <= k < |sp| ==> ts[k] == s[sp[k].start .. sp[k].end]
  {
    seq(|sp|, k requires 0 <= k < |sp| => s[sp[k].start .. sp[k].end])
  }

  /** `s.match(r)` for a global pattern: the whole-match strings (no capture
      groups), or `null` (here `None`) when there is none. */
  function StringMatch(r: Re, s: string): (o: Option<seq<string>>)
    ensures o.None? <==> MatchAll(r, s) == []
    ensures o.Some? ==> |o.value| == |MatchAll(r, s)|
  {
    var sp := MatchAll(r, s);
    if sp == [] then None else Some(Texts(s, sp))
  }

  // ---------------------------------------------------------------------
  // Facts about the semantics
  // ---------------------------------------------------------------------

  /** The global loop finds nothing exactly when no position has a match. */
  lemma MatchAllEmptyIff(r: Re, s: string)
    ensures MatchAll(r, s) == [] <==> forall p :: 0 <= p <= |s| ==> FirstEnd(r, s, p) == None
  {
    var t := Firsts(r, s);
    ExecLeftmost(t, 0);
    if Exec(t, 0).Some? {
      var m := Exec(t, 0).value;
      assert t[m.start].Some?;
    }
  }

  /** What `s.match(r)` reports for a global pattern: null exactly when the
      pattern matches at no position; otherwise the texts of spans in
      increasing order of start, none overlapping the next, each the match
      the engine prefers at its start. */
  lemma StringMatchReports(r: Re, s: string)
    ensures StringMatch(r, s).None? <==> forall p :: 0 <= p <= |s| ==> FirstEnd(r, s, p) == None
    ensures StringMatch(r, s).Some? ==>
      var sp, found := MatchAll(r, s), StringMatch(r, s).value;
      Ordered(sp, 0, |s|) && |found| == |sp| &&
      forall k :: 0 <= k < |sp| ==>
        FirstEnd(r, s, sp[k].start) == Some(sp[k].end) && found[k] == s[sp[k].start..sp[k].end]
  {
    var t := Firsts(r, s);
    MatchAllEmptyIff(r, s);
    MatchFromOrdered(t, 0);
    MatchFromReported(t, 0);
  }

  lemma {:induction false} CatEndsMember(ms: seq<nat>, b: Re, s: string, lo: nat, e: nat)
    requires forall j :: 0 <= j < |ms| ==> lo <= ms[j] <= |s|
    requires e in CatEnds(ms, b, s, lo)
    ensures exists m :: m in ms && e in Ends(b, s, m)
    decreases |ms|
  {
    if e in Ends(b, s, ms[0]) {
      assert ms[0] in ms;
    } else {
      CatEndsMember(ms[1..], b, s, lo, e);
      var m :| m in ms[1..] && e in Ends(b, s, m);
      assert m in ms;
    }
  }

  lemma {:induction false} CatEndsIntro(ms: seq<nat>, b: Re, s: string, lo: nat, m: nat, e: nat)
    requires forall j :: 0 <= j < |ms| ==> lo <= ms[j] <= |s|
    requires m in ms && e in Ends(b, s, m)
    ensures e in CatEnds(ms, b, s, lo)
    decreases |ms|
  {
    if ms[0] != m {
      CatEndsIntro(ms[1..], b, s, lo, m, e);
    }
  }

  /** A match of a concatenation splits into a match of each part. */
  lemma CatSplit(a: Re, b: Re, s: string, i: nat, e: nat)
    requires i <= |s|
    requires e in Ends(Cat(a, b), s, i)
    ensures exists m :: m in Ends(a, s, i) && e in Ends(b, s, m)
  {
    CatEndsMember(Ends(a, s, i), b, s, i, e);
  }

  /** A match of each part joins into a match of a concatenation. */
  lemma CatJoin(a: Re, b: Re, s: string, i: nat, m: nat, e: nat)
    requires i <= |s|
    requires m in Ends(a, s, i) && m <= |s| && e in Ends(b, s, m)
    ensures e in Ends(Cat(a, b), s, i)
  {
    CatEndsIntro(Ends(a, s, i), b, s, i, m, e);
  }

  /** Patterns that cannot match without consuming an ASCII digit. */
  predicate NeedsDigit(r: Re) {
    match r
    case Class(k) => k == Digit
    case Plus(k) => k == Digit
    case Cat(a, b) => NeedsDigit(a) || NeedsDigit(b)
    case Alt(a, b) => NeedsDigit(a) && NeedsDigit(b)
    case _ => false
  }

  /** A pattern that needs a digit has no match in a text without digits. */
  lemma {:induction false} NoDigitNoEnds(r: Re, s: string, i: nat)
    requires i <= |s| && NeedsDigit(r) && !HasDigit(s)
    ensures Ends(r, s, i) == []
    decreases r, 0
  {
    match r
    case Class(k) =>
      if i < |s| { assert !IsDigit(s[i]); }
    case Plus(k) =>
      if i < |s| { assert !IsDigit(s[i]); }
    case Alt(a, b) =>
      NoDigitNoEnds(a, s, i);
      NoDigitNoEnds(b, s, i);
    case Cat(a, b) =>
      if NeedsDigit(a) {
        NoDigitNoEnds(a, s, i);
      } else {
        NoDigitNoCatEnds(Ends(a, s, i), b, s, i);
      }
  }

  lemma {:induction false} NoDigitNoCatEnds(ms: seq<nat>, b: Re, s: string, lo: nat)
    requires forall j :: 0 <= j < |ms| ==> lo <= ms[j] <= |s|
    requires NeedsDigit(b) && !HasDigit(s)
    ensures CatEnds(ms, b, s, lo) == []
    decreases b, |ms| + 1
  {
    if ms != [] {
      NoDigitNoEnds(b, s, ms[0]);
      NoDigitNoCatEnds(ms[1..], b, s, lo);
    }
  }

  lemma NoDigitNoMatch(r: Re, s: string)
    requires NeedsDigit(r) && !HasDigit(s)
    ensures MatchAll(r, s) == [] && StringMatch(r, s) == None
  {
    forall p | 0 <= p <= |s| ensures FirstEnd(r, s, p) == None {
      NoDigitNoEnds(r, s, p);
    }
    MatchAllEmptyIff(r, s);
  }

  /** What a literal matches: itself, up to ASCII case. */
  lemma WordEnds(w: string, s: string, i: nat, e: nat)
    requires i <= |s| && e in Ends(Word(w), s, i)
    ensures e == i + |w| && FoldEq(s[i..e], w)
  {
  }

  lemma {:induction false} ChainNeedsDigit(rs: seq<Re>, k: nat)
    requires |rs| > 0 && k < |rs| && NeedsDigit(rs[k])
    ensures NeedsDigit(Chain(rs))
  {
    if |rs| > 1 && k > 0 {
      ChainNeedsDigit(rs[1..], k - 1);
    }
  }

  // The match the engine reports, computed piece by piece ------------------

  lemma FirstCat(a: Re, b: Re, s: string, i: nat, m: nat, e: nat)
    requires i <= |s| && m <= |s|
    requires FirstEnd(a, s, i) == Some(m) && FirstEnd(b, s, m) == Some(e)
    ensures FirstEnd(Cat(a, b), s, i) == Some(e)
  {
    var ms := Ends(a, s, i);
    assert ms[0] == m;
    assert CatEnds(ms, b, s, i) == Ends(b, s, m) + CatEnds(ms[1..], b, s, i);
  }

  lemma FirstWord(w: string, s: string, i: nat)
    requires i + |w| <= |s| && FoldEq(s[i..i + |w|], w)
    ensures FirstEnd(Word(w), s, i) == Some(i + |w|)
  {
  }

  lemma FirstAltLeft(a: Re, b: Re, s: string, i: nat, e: nat)
    requires i <= |s| && FirstEnd(a, s, i) == Some(e)
    ensures FirstEnd(Alt(a, b), s, i) == Some(e)
  {
  }

  lemma FirstAltRight(a: Re, b: Re, s: string, i: nat, e: nat)
    requires i <= |s| && FirstEnd(a, s, i) == None && FirstEnd(b, s, i) == Some(e)
    ensures FirstEnd(Alt(a, b), s, i) == Some(e)
  {
  }

  lemma FirstOptTaken(a: Re, s: string, i: nat, e: nat)
    requires i <= |s| && FirstEnd(a, s, i) == Some(e)
    ensures FirstEnd(Opt(a), s, i) == Some(e)
  {
  }

  lemma FirstOptSkipped(a: Re, s: string, i: nat)
    requires i <= |s| && FirstEnd(a, s, i) == None
    ensures FirstEnd(Opt(a), s, i) == Some(i)
  {
  }

  lemma FirstCatFails(a: Re, b: Re, s: string, i: nat)
    requires i <= |s| && FirstEnd(a, s, i) == None
    ensures FirstEnd(Cat(a, b), s, i) == None
  {
    assert CatEnds([], b, s, i) == [];
  }

  /** A match found at the very start is the first one `match` reports. */
  lemma MatchAllHead(r: Re, s: string, e: nat)
    requires FirstEnd(r, s, 0) == Some(e)
    ensures MatchAll(r, s) != [] && MatchAll(r, s)[0] == Span(0, e)
    ensures StringMatch(r, s).Some? && StringMatch(r, s).value[0] == s[0..e]
  {
  }

  lemma InEndsBounds(r: Re, s: string, i: nat, e: nat)
    requires i <= |s| && e in Ends(r, s, i)
    ensures i <= e <= |s|
  {
    var es := Ends(r, s, i);
    var j :| 0 <= j < |es| && es[j] == e;
  }

  function LastPart(rs: seq<Re>): Re
    requires |rs| > 0
  {
    rs[|rs| - 1]
  }

  /** Every match of a concatenation chain ends with a match of its last part. */
  lemma {:induction false} ChainLast(rs: seq<Re>, s: string, i: nat, e: nat)
    requires |rs| > 0 && i <= |s| && e in Ends(Chain(rs), s, i)
    ensures exists m :: i <= m <= e && e in Ends(LastPart(rs), s, m)
    decreases |rs|
  {
    if |rs| > 1 {
      assert LastPart(rs[1..]) == LastPart(rs);
      CatSplit(rs[0], Chain(rs[1..]), s, i, e);
      var m :| m in Ends(rs[0], s, i) && e in Ends(Chain(rs[1..]), s, m);
      InEndsBounds(rs[0], s, i, m);
      ChainLast(rs[1..], s, m, e);
      var m' :| m <= m' <= e && e in Ends(LastPart(rs[1..]), s, m');
      assert i <= m' <= e && e in Ends(LastPart(rs), s, m');
    } else {
      InEndsBounds(rs[0], s, i, e);
      assert i <= i <= e && e in Ends(LastPart(rs), s, i);
    }
  }
}
