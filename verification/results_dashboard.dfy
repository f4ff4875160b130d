/**
 * The admin results dashboard (src/app/admin/page.tsx): the configured
 * unlock time, parsed from text as local wall-clock fields; the gate that
 * compares it with the current time; the guard in front of the results
 * request; and, per post, the candidates ordered by votes with their total.
 *
 * The accepted text is `YYYY-MM-DDTH[H]:MM[:SS][.frac][Z|±HH[:]MM]`, with
 * `t` and `z` also accepted because the pattern is case-insensitive. A
 * `Layout` records one concrete spelling; the language of the pattern is
 * exactly the set of `LayoutText(l)` for valid layouts `l`, and the parser
 * below is proved to recover the layout from its text.
 */
module ResultsDashboard {
  import opened Common

  // ---------------------------------------------------------------------
  // The accepted spelling of an unlock time
  // ---------------------------------------------------------------------

  predicate IsTwoDigits(s: string) {
    |s| == 2 && AllDigits(s)
  }

  /** The optional suffix after the time, which the parser accepts and then ignores. */
  datatype Zone =
    | Floating                                                  // no suffix
    | Utc(letter: char)                                         // `Z` or `z`
    | Offset(sign: char, hours: string, colon: bool, minutes: string)

  /** Everything after the `T`. */
  datatype Clock = Clock(hour: string, minute: string, second: Option<string>, fraction: Option<string>, zone: Zone)

  datatype Layout = Layout(year: string, month: string, day: string, separator: char, clock: Clock)

  predicate ValidZone(z: Zone) {
    match z
    case Floating => true
    case Utc(c) => c == 'Z' || c == 'z'
    case Offset(sign, h, _, m) => (sign == '+' || sign == '-') && IsTwoDigits(h) && IsTwoDigits(m)
  }

  predicate ValidClock(c: Clock) {
    && 1 <= |c.hour| <= 2 && AllDigits(c.hour)
    && IsTwoDigits(c.minute)
    && (c.second.Some? ==> IsTwoDigits(c.second.value))
    && (c.fraction.Some? ==> IsDigitString(c.fraction.value))
    && ValidZone(c.zone)
  }

  predicate ValidLayout(l: Layout) {
    && |l.year| == 4 && AllDigits(l.year)
    && IsTwoDigits(l.month) && IsTwoDigits(l.day)
    && (l.separator == 'T' || l.separator == 't')
    && ValidClock(l.clock)
  }

  function ZoneText(z: Zone): string {
    match z
    case Floating => ""
    case Utc(c) => [c]
    case Offset(sign, h, colon, m) => [sign] + h + (if colon then ":" else "") + m
  }

  /** An optional group of the pattern: its marker and digits when present, nothing otherwise. */
  function GroupText(marker: string, part: Option<string>): string {
    if part.Some? then marker + part.value else ""
  }

  function DateText(l: Layout): string {
    l.year + "-" + l.month + "-" + l.day + [l.separator]
  }

  function TailText(c: Clock): string {
    GroupText(":", c.second) + (GroupText(".", c.fraction) + ZoneText(c.zone))
  }

  function ClockText(c: Clock): string {
    c.hour + ":" + c.minute + TailText(c)
  }

  /** The text a layout spells. */
  function LayoutText(l: Layout): string {
    DateText(l) + ClockText(l.clock)
  }

  // ---------------------------------------------------------------------
  // Parsing, one group at a time
  // ---------------------------------------------------------------------

  /** The zone suffix, which must run to the end of the text. */
  function ParseZone(s: string): (r: Option<Zone>)
    ensures r.Some? ==> ValidZone(r.value) && ZoneText(r.value) == s
  {
    if |s| == 0 then Some(Floating)
    else if |s| == 1 && (s[0] == 'Z' || s[0] == 'z') then Some(Utc(s[0]))
    else if |s| == 5 && (s[0] == '+' || s[0] == '-') && IsTwoDigits(s[1..3]) && IsTwoDigits(s[3..5]) then
      assert s == [s[0]] + s[1..3] + "" + s[3..5];
      Some(Offset(s[0], s[1..3], false, s[3..5]))
    else if |s| == 6 && (s[0] == '+' || s[0] == '-') && IsTwoDigits(s[1..3]) && s[3] == ':' && IsTwoDigits(s[4..6]) then
      assert s == [s[0]] + s[1..3] + ":" + s[4..6];
      Some(Offset(s[0], s[1..3], true, s[4..6]))
    else None
  }

  /** `(?:\.\d+)?`, greedy: a dot must be followed by at least one digit. */
  function ParseFraction(s: string): (r: Option<(Option<string>, string)>)
    ensures r.Some? ==>
              && (r.value.0.Some? ==> IsDigitString(r.value.0.value))
              && s == GroupText(".", r.value.0) + r.value.1
  {
    if |s| > 0 && s[0] == '.' then
      var n := DigitRun(s[1..]);
      if n == 0 then None
      else
        assert s == "." + s[1..][..n] + s[1 + n..];
        Some((Some(s[1..][..n]), s[1 + n..]))
    else Some((None, s))
  }

  /** `(?::(\d{2}))?`: a colon after the minutes must introduce two digits. */
  function ParseSeconds(s: string): (r: Option<(Option<string>, string)>)
    ensures r.Some? ==>
              && (r.value.0.Some? ==> IsTwoDigits(r.value.0.value))
              && s == GroupText(":", r.value.0) + r.value.1
  {
    if |s| > 0 && s[0] == ':' then
      if |s| >= 3 && IsTwoDigits(s[1..3]) then
        assert s == ":" + s[1..3] + s[3..];
        Some((Some(s[1..3]), s[3..]))
      else None
    else Some((None, s))
  }

  /** `(\d{1,2}):(\d{2})`: hour, minute and the rest of the text. */
  function ParseClock(s: string): (r: Option<(string, string, string)>)
    ensures r.Some? ==>
              && 1 <= |r.value.0| <= 2 && AllDigits(r.value.0) && IsTwoDigits(r.value.1)
              && s == r.value.0 + ":" + r.value.1 + r.value.2
  {
    var n := if |s| >= 2 && IsDigit(s[1]) then 2 else 1;
    if |s| >= n + 3 && IsDigit(s[0]) && s[n] == ':' && IsTwoDigits(s[n + 1..n + 3]) then
      assert s == s[..n] + ":" + s[n + 1..n + 3] + s[n + 3..];
      Some((s[..n], s[n + 1..n + 3], s[n + 3..]))
    else None
  }

  /** The fixed-width date and the `T`. */
  predicate DatePrefixOk(s: string) {
    && |s| >= 11
    && AllDigits(s[..4]) && s[4] == '-' && IsTwoDigits(s[5..7]) && s[7] == '-' && IsTwoDigits(s[8..10])
    && (s[10] == 'T' || s[10] == 't')
  }

  /** The part after the `T`, up to the end of the text. */
  function ParseClockPart(s: string): (r: Option<Clock>)
    ensures r.Some? ==> ValidClock(r.value) && ClockText(r.value) == s
  {
    match ParseClock(s)
    case None => None
    case Some((h, m, rest)) =>
      match ParseSeconds(rest)
      case None => None
      case Some((sec, rest')) =>
        match ParseFraction(rest')
        case None => None
        case Some((frac, rest'')) =>
          match ParseZone(rest'')
          case None => None
          case Some(z) => Some(Clock(h, m, sec, frac, z))
  }

  /** The whole pattern, anchored at both ends. */
  function ParseLayout(s: string): (r: Option<Layout>)
    ensures r.Some? ==> ValidLayout(r.value) && LayoutText(r.value) == s
  {
    if !DatePrefixOk(s) then None
    else
      match ParseClockPart(s[11..])
      case None => None
      case Some(c) =>
        var l := Layout(s[..4], s[5..7], s[8..10], s[10], c);
        assert DateText(l) == s[..11];
        assert s == s[..11] + s[11..];
        Some(l)
  }

  // ---------------------------------------------------------------------
  // The parser accepts every valid layout, and only its own
  // ---------------------------------------------------------------------

  lemma ParseZoneComplete(z: Zone)
    requires ValidZone(z)
    ensures ParseZone(ZoneText(z)) == Some(z)
  {
    match z
    case Floating =>
    case Utc(c) =>
    case Offset(sign, h, colon, m) =>
      var s := ZoneText(z);
      if colon {
        assert s[1..3] == h && s[4..6] == m;
      } else {
        assert s[1..3] == h && s[3..5] == m;
      }
  }

  lemma ParseFractionComplete(frac: Option<string>, rest: string)
    requires frac.Some? ==> IsDigitString(frac.value) && (rest == [] || !IsDigit(rest[0]))
    requires frac.None? ==> rest == [] || rest[0] != '.'
    ensures ParseFraction(GroupText(".", frac) + rest) == Some((frac, rest))
  {
    var s := GroupText(".", frac) + rest;
    if frac.Some? {
      var d := frac.value;
      assert s[1..] == d + rest;
      DigitRunOfDigits(d, rest);
      assert s[1..][..|d|] == d;
      assert s[1 + |d|..] == rest;
    } else {
      assert s == rest;
    }
  }

  lemma ParseSecondsComplete(sec: Option<string>, rest: string)
    requires sec.Some? ==> IsTwoDigits(sec.value)
    requires sec.None? ==> rest == [] || rest[0] != ':'
    ensures ParseSeconds(GroupText(":", sec) + rest) == Some((sec, rest))
  {
    var s := GroupText(":", sec) + rest;
    if sec.Some? {
      assert s[1..3] == sec.value && s[3..] == rest;
    } else {
      assert s == rest;
    }
  }

  lemma ParseClockComplete(h: string, m: string, rest: string)
    requires 1 <= |h| <= 2 && AllDigits(h) && IsTwoDigits(m)
    ensures ParseClock(h + ":" + m + rest) == Some((h, m, rest))
  {
    var s := h + ":" + m + rest;
    var n := |h|;
    assert s[n] == ':' && s[..n] == h && s[n + 1..n + 3] == m && s[n + 3..] == rest;
    assert s[0] == h[0];
    assert n == 1 ==> s[1] == ':';
  }

  lemma ParseClockPartComplete(c: Clock)
    requires ValidClock(c)
    ensures ParseClockPart(ClockText(c)) == Some(c)
  {
    var zone := ZoneText(c.zone);
    var afterSeconds := GroupText(".", c.fraction) + zone;
    ParseClockComplete(c.hour, c.minute, TailText(c));
    assert afterSeconds != [] ==> afterSeconds[0] != ':' by {
      if c.fraction.None? {
        assert afterSeconds == zone;
      }
    }
    ParseSecondsComplete(c.second, afterSeconds);
    ParseFractionComplete(c.fraction, zone);
    ParseZoneComplete(c.zone);
  }

  /** Every valid layout is parsed back from its text. */
  lemma ParseLayoutComplete(l: Layout)
    requires ValidLayout(l)
    ensures ParseLayout(LayoutText(l)) == Some(l)
  {
    var s := LayoutText(l);
    var date := DateText(l);
    assert |date| == 11;
    assert s[..11] == date && s[11..] == ClockText(l.clock);
    assert s[..4] == date[..4] == l.year;
    assert s[5..7] == date[5..7] == l.month;
    assert s[8..10] == date[8..10] == l.day;
    assert s[4] == '-' && s[7] == '-' && s[10] == l.separator;
    assert DatePrefixOk(s);
    ParseClockPartComplete(l.clock);
  }

  /** The text of a valid layout determines the layout. */
  lemma LayoutTextInjective(l: Layout, l': Layout)
    requires ValidLayout(l) && ValidLayout(l') && LayoutText(l) == LayoutText(l')
    ensures l == l'
  {
    ParseLayoutComplete(l);
    ParseLayoutComplete(l');
  }

  /** The parser accepts exactly the language of the pattern. */
  lemma ParseLayoutExact(s: string)
    ensures ParseLayout(s).Some? <==> exists l :: ValidLayout(l) && LayoutText(l) == s
  {
    if l :| ValidLayout(l) && LayoutText(l) == s {
      ParseLayoutComplete(l);
    }
  }

  /** A spelling starts with a digit and ends with a digit or the `Z` of UTC, so trimming leaves it alone. */
  lemma LayoutTextIsTrimmed(l: Layout)
    requires ValidLayout(l)
    ensures Trim(LayoutText(l)) == LayoutText(l)
  {
    var s := LayoutText(l);
    var c := ClockText(l.clock);
    ClockTextEnd(l.clock);
    assert s[0] == l.year[0];
    assert s[|s| - 1] == c[|c| - 1];
    assert IsDigit(s[0]);
    TrimOfTrimmed(s);
  }

  /** The last character of the text after the `T`. */
  lemma ClockTextEnd(k: Clock)
    requires ValidClock(k)
    ensures var t := ClockText(k); |t| > 0 && (IsDigit(t[|t| - 1]) || t[|t| - 1] == 'Z' || t[|t| - 1] == 'z')
  {
    var seconds, fraction, zone := GroupText(":", k.second), GroupText(".", k.fraction), ZoneText(k.zone);
    var rest := fraction + zone;
    var tail := seconds + rest;
    assert tail == TailText(k);
    if |tail| == 0 {
      LastOfJoin(k.hour + ":", k.minute);
    } else if |rest| == 0 {
      LastOfJoin(seconds, rest);
      LastOfJoin(":", k.second.value);
    } else if |zone| == 0 {
      LastOfJoin(seconds, rest);
      LastOfJoin(fraction, zone);
      LastOfJoin(".", k.fraction.value);
    } else {
      LastOfJoin(seconds, rest);
      LastOfJoin(fraction, zone);
      if k.zone.Offset? {
        LastOfJoin([k.zone.sign] + k.zone.hours + (if k.zone.colon then ":" else ""), k.zone.minutes);
      }
    }
    LastOfJoin(k.hour + ":" + k.minute, tail);
  }

  // ---------------------------------------------------------------------
  // parseUnlockAt
  // ---------------------------------------------------------------------

  /** The arguments of `new Date(year, month, day, hour, min, sec)`: local wall-clock fields, month counted from 0. */
  datatype LocalTime = LocalTime(year: int, month: int, day: int, hour: int, minute: int, second: int)

  /** The fields a layout denotes; the fraction and the zone play no part. */
  function FieldsOf(l: Layout): LocalTime
    requires ValidLayout(l)
  {
    LocalTime(
      DigitsValue(l.year), DigitsValue(l.month) - 1, DigitsValue(l.day),
      DigitsValue(l.clock.hour), DigitsValue(l.clock.minute),
      if l.clock.second.Some? then DigitsValue(l.clock.second.value) else 0)
  }

  /** `parseUnlockAt`: the local fields of the trimmed text when it matches the pattern. */
  function ParseUnlockAt(value: string): (r: Option<LocalTime>)
    ensures r.Some? ==> exists l :: ValidLayout(l) && LayoutText(l) == Trim(value) && r.value == FieldsOf(l)
    ensures r.None? ==> forall l :: ValidLayout(l) ==> LayoutText(l) != Trim(value)
  {
    ParseLayoutExact(Trim(value));
    match ParseLayout(Trim(value))
    case Some(l) => Some(FieldsOf(l))
    case None => None
  }

  /** The text of any valid layout, with any surrounding whitespace, parses to that layout's fields. */
  lemma ParseUnlockAtOfLayout(l: Layout, value: string)
    requires ValidLayout(l) && Trim(value) == LayoutText(l)
    ensures ParseUnlockAt(value) == Some(FieldsOf(l))
  {
    ParseLayoutComplete(l);
  }

  /** The text of a valid layout, as written, parses to that layout's fields. */
  lemma ParseUnlockAtOfText(l: Layout)
    requires ValidLayout(l)
    ensures ParseUnlockAt(LayoutText(l)) == Some(FieldsOf(l))
  {
    LayoutTextIsTrimmed(l);
    ParseUnlockAtOfLayout(l, LayoutText(l));
  }

  /** The zone suffix is accepted and ignored: the same wall-clock time in any zone gives the same fields. */
  lemma ZoneIgnored(l: Layout, z: Zone)
    requires ValidLayout(l) && ValidZone(z)
    ensures ParseUnlockAt(LayoutText(l)).Some?
    ensures ParseUnlockAt(LayoutText(l)) == ParseUnlockAt(LayoutText(l.(clock := l.clock.(zone := z))))
  {
    var l' := l.(clock := l.clock.(zone := z));
    assert ValidClock(l'.clock);
    assert FieldsOf(l') == FieldsOf(l);
    ParseUnlockAtOfText(l);
    ParseUnlockAtOfText(l');
  }

  /** Without a seconds group the seconds are 0, and the month is one less than written. */
  lemma MissingSecondsAreZero(l: Layout)
    requires ValidLayout(l) && l.clock.second.None?
    ensures ParseUnlockAt(LayoutText(l)) == Some(FieldsOf(l))
    ensures FieldsOf(l).second == 0 && FieldsOf(l).month == DigitsValue(l.month) - 1
  {
    ParseUnlockAtOfText(l);
  }

  /** A trimmed text shorter than the shortest spelling, or without the date separator, is refused. */
  lemma ParseUnlockAtRejects(value: string)
    requires |Trim(value)| < 15 || (|Trim(value)| > 10 && Trim(value)[10] != 'T' && Trim(value)[10] != 't')
    ensures ParseUnlockAt(value).None?
  {
    var s := Trim(value);
    forall l | ValidLayout(l) ensures LayoutText(l) != s {
      LayoutTextShape(l);
    }
  }

  /** Every spelling has at least 15 characters, with the separator at index 10. */
  lemma LayoutTextShape(l: Layout)
    requires ValidLayout(l)
    ensures |LayoutText(l)| >= 15 && LayoutText(l)[10] == l.separator
  {
    var d := DateText(l);
    assert |d| == 11 && d[10] == l.separator;
    assert |ClockText(l.clock)| >= 4;
    assert LayoutText(l)[10] == d[10];
  }

  // Zero-padded printing, to state the round trip from fields.

  function Pow10(n: nat): (r: nat)
    ensures r >= 1
  {
    if n == 0 then 1 else 10 * Pow10(n - 1)
  }

  /** `n` in exactly `width` decimal digits, with leading zeros. */
  function Pad(n: nat, width: nat): (r: string)
    requires n < Pow10(width)
    ensures |r| == width && AllDigits(r) && DigitsValue(r) == n
  {
    if width == 0 then ""
    else
      var r := Pad(n / 10, width - 1) + [DigitChar(n % 10)];
      assert r[..|r| - 1] == Pad(n / 10, width - 1);
      r
  }

  /** Local fields in the canonical spelling `YYYY-MM-DDTHH:MM:SS`. */
  function FormatUnlockAt(t: LocalTime): string
    requires 0 <= t.year < 10000 && 0 <= t.month + 1 < 100 && 0 <= t.day < 100
    requires 0 <= t.hour < 100 && 0 <= t.minute < 100 && 0 <= t.second < 100
  {
    var date := Pad(t.year, 4) + "-" + Pad(t.month + 1, 2) + "-" + Pad(t.day, 2);
    var time := Pad(t.hour, 2) + ":" + Pad(t.minute, 2) + ":" + Pad(t.second, 2);
    date + "T" + time
  }

  /** Every canonical spelling parses back to the fields it was printed from. */
  lemma UnlockAtRoundTrip(t: LocalTime)
    requires 0 <= t.year < 10000 && 0 <= t.month + 1 < 100 && 0 <= t.day < 100
    requires 0 <= t.hour < 100 && 0 <= t.minute < 100 && 0 <= t.second < 100
    ensures ParseUnlockAt(FormatUnlockAt(t)) == Some(t)
  {
    var hh, mm, ss := Pad(t.hour, 2), Pad(t.minute, 2), Pad(t.second, 2);
    var k := Clock(hh, mm, Some(ss), None, Floating);
    var l := Layout(Pad(t.year, 4), Pad(t.month + 1, 2), Pad(t.day, 2), 'T', k);
    assert ValidLayout(l);
    assert FieldsOf(l) == t;
    assert TailText(k) == ":" + ss;
    assert ClockText(k) == hh + ":" + mm + ":" + ss;
    assert LayoutText(l) == FormatUnlockAt(t);
    LayoutTextIsTrimmed(l);
    ParseUnlockAtOfLayout(l, FormatUnlockAt(t));
  }

  // ---------------------------------------------------------------------
  // isResultsUnlocked
  // ---------------------------------------------------------------------

  datatype UnlockState = UnlockState(unlocked: bool, formatted: string)

  /**
   * `isResultsUnlocked`. The setting is `NEXT_PUBLIC_RESULTS_UNLOCK_AT`
   * (`None` when undefined), `now` is `Date.now()`, `epoch` stands for
   * `new Date(...).getTime()` and `format` for `toLocaleString`.
   */
  function IsResultsUnlocked(setting: Option<string>, now: int, epoch: LocalTime -> int, format: LocalTime -> string): (r: UnlockState)
    ensures setting.None? || Trim(setting.value) == "" ==> r == UnlockState(false, "")
    ensures setting.Some? && Trim(setting.value) != "" && ParseUnlockAt(setting.value).None? ==>
              r == UnlockState(false, setting.value)
    ensures r.unlocked ==> setting.Some? && ParseUnlockAt(setting.value).Some?
    ensures setting.Some? && ParseUnlockAt(setting.value).Some? ==>
              var t := ParseUnlockAt(setting.value).value;
              r == UnlockState(now >= epoch(t), format(t))
  {
    if setting.None? || setting.value == "" || Trim(setting.value) == "" then UnlockState(false, "")
    else
      match ParseUnlockAt(setting.value)
      case None => UnlockState(false, setting.value)
      case Some(t) => UnlockState(now >= epoch(t), format(t))
  }

  /** Once unlocked, the results stay unlocked at every later time. */
  lemma UnlockIsMonotone(setting: Option<string>, now: int, later: int, epoch: LocalTime -> int, format: LocalTime -> string)
    requires now <= later
    ensures IsResultsUnlocked(setting, now, epoch, format).unlocked ==> IsResultsUnlocked(setting, later, epoch, format).unlocked
  {
  }

  /** A valid setting unlocks exactly from its own instant on. */
  lemma UnlockThreshold(l: Layout, now: int, epoch: LocalTime -> int, format: LocalTime -> string)
    requires ValidLayout(l)
    ensures IsResultsUnlocked(Some(LayoutText(l)), now, epoch, format).unlocked <==> now >= epoch(FieldsOf(l))
  {
    LayoutTextIsTrimmed(l);
    ParseUnlockAtOfLayout(l, LayoutText(l));
  }

  // ---------------------------------------------------------------------
  // handleLoadResults
  // ---------------------------------------------------------------------

  datatype CandidateResult = CandidateResult(candidateId: int, name: string, votes: int)

  datatype PostResult = PostResult(postId: int, title: string, candidates: seq<CandidateResult>)

  datatype ResultsPage = ResultsPage(password: string, data: Option<seq<PostResult>>, loading: bool, error: Option<string>)

  const LoadFailedMessage: string := "Failed to load results. Check the password."

  /**
   * The synchronous part of `handleLoadResults`: the new state and the
   * password sent to `getResults`, if a request is made at all.
   */
  function BeginLoad(p: ResultsPage): (r: (ResultsPage, Option<string>))
    ensures r.1.None? <==> Trim(p.password) == ""
    ensures r.1.None? ==> r.0 == p
    ensures r.1.Some? ==> r.1.value == Trim(p.password) && r.1.value != ""
    ensures r.1.Some? ==> r.0.loading && r.0.error.None? && r.0.data == p.data && r.0.password == p.password
  {
    var pwd := Trim(p.password);
    if pwd == "" then (p, None)
    else (p.(loading := true, error := None), Some(pwd))
  }

  /** The rest of `handleLoadResults`, once `getResults` resolves or throws (with its `message`, if any). */
  function FinishLoad(p: ResultsPage, outcome: Result<seq<PostResult>, Option<string>>): (r: ResultsPage)
    ensures !r.loading && r.password == p.password
    ensures outcome.Success? ==> r.data == Some(outcome.value) && r.error == p.error
    ensures outcome.Failure? ==> r.data == p.data && r.error.Some? && r.error.value != ""
    ensures outcome.Failure? && outcome.error.Some? && outcome.error.value != "" ==> r.error == outcome.error
    ensures outcome.Failure? && (outcome.error.None? || outcome.error.value == "") ==> r.error == Some(LoadFailedMessage)
  {
    match outcome
    case Success(results) => p.(data := Some(results), loading := false)
    case Failure(message) => p.(error := Some(OrElse(message, LoadFailedMessage)), loading := false)
  }

  /** A whole load: a blank password changes nothing; otherwise the page ends idle with fresh data or a message. */
  lemma LoadCycle(p: ResultsPage, outcome: Result<seq<PostResult>, Option<string>>)
    ensures var (started, request) := BeginLoad(p);
            request.Some? ==>
              var q := FinishLoad(started, outcome);
              && !q.loading
              && (outcome.Success? ==> q.data == Some(outcome.value) && q.error.None?)
              && (outcome.Failure? ==> q.data == p.data && q.error.Some?)
  {
  }

  // ---------------------------------------------------------------------
  // Per-post ordering and total
  // ---------------------------------------------------------------------

  predicate NonIncreasing(s: seq<CandidateResult>) {
    forall i, j :: 0 <= i < j < |s| ==> s[i].votes >= s[j].votes
  }

  /** Places `c` before the first candidate with no more votes than it. */
  function InsertByVotes(c: CandidateResult, s: seq<CandidateResult>): (r: seq<CandidateResult>)
    ensures multiset(r) == multiset(s) + multiset{c}
    ensures r[0] == c || (|s| > 0 && r[0] == s[0])
  {
    if |s| == 0 || s[0].votes <= c.votes then [c] + s
    else
      assert s == [s[0]] + s[1..];
      [s[0]] + InsertByVotes(c, s[1..])
  }

  lemma {:induction false} InsertKeepsOrder(c: CandidateResult, s: seq<CandidateResult>)
    requires NonIncreasing(s)
    ensures NonIncreasing(InsertByVotes(c, s))
  {
    if |s| > 0 && s[0].votes > c.votes {
      var rest := InsertByVotes(c, s[1..]);
      InsertKeepsOrder(c, s[1..]);
      var r := [s[0]] + rest;
      assert s[0].votes >= rest[0].votes;
      assert forall k :: 1 <= k < |r| ==> r[k] == rest[k - 1];
    }
  }

  /**
   * `candidates.slice().sort((a, b) => b.votes - a.votes)`: a new sequence
   * holding the same candidates, most votes first. The argument is a value,
   * so the caller's array is untouched.
   */
  function SortByVotes(cs: seq<CandidateResult>): (r: seq<CandidateResult>)
    ensures multiset(r) == multiset(cs) && |r| == |cs|
    ensures NonIncreasing(r)
  {
    if |cs| == 0 then []
    else
      assert cs == [cs[0]] + cs[1..];
      InsertKeepsOrder(cs[0], SortByVotes(cs[1..]));
      InsertByVotes(cs[0], SortByVotes(cs[1..]))
  }

  /** The candidates with exactly `v` votes, in order. */
  function WithVotes(s: seq<CandidateResult>, v: int): seq<CandidateResult> {
    if |s| == 0 then [] else (if s[0].votes == v then [s[0]] else []) + WithVotes(s[1..], v)
  }

  lemma {:induction false} InsertKeepsTies(c: CandidateResult, s: seq<CandidateResult>, v: int)
    ensures WithVotes(InsertByVotes(c, s), v) == (if c.votes == v then [c] else []) + WithVotes(s, v)
  {
    var mine := if c.votes == v then [c] else [];
    if |s| == 0 || s[0].votes <= c.votes {
      var r := [c] + s;
      assert r[0] == c && r[1..] == s;
      assert WithVotes(r, v) == mine + WithVotes(s, v);
    } else {
      var rest := InsertByVotes(c, s[1..]);
      var r := [s[0]] + rest;
      assert r[0] == s[0] && r[1..] == rest;
      var theirs := if s[0].votes == v then [s[0]] else [];
      assert WithVotes(r, v) == theirs + WithVotes(rest, v);
      assert WithVotes(s, v) == theirs + WithVotes(s[1..], v);
      InsertKeepsTies(c, s[1..], v);
      assert mine == [] || theirs == [];
      assert theirs + (mine + WithVotes(s[1..], v)) == mine + (theirs + WithVotes(s[1..], v));
    }
  }

  /** The sort is stable: candidates with equal votes keep their original order. */
  lemma {:induction false} SortKeepsTies(cs: seq<CandidateResult>, v: int)
    ensures WithVotes(SortByVotes(cs), v) == WithVotes(cs, v)
  {
    if |cs| > 0 {
      SortKeepsTies(cs[1..], v);
      InsertKeepsTies(cs[0], SortByVotes(cs[1..]), v);
    }
  }

  /** `candidates.reduce((s, c) => s + c.votes, 0)`. */
  function TotalVotes(cs: seq<CandidateResult>): int {
    if |cs| == 0 then 0 else cs[0].votes + TotalVotes(cs[1..])
  }

  lemma {:induction false} TotalOfInsert(c: CandidateResult, s: seq<CandidateResult>)
    ensures TotalVotes(InsertByVotes(c, s)) == c.votes + TotalVotes(s)
  {
    if |s| == 0 || s[0].votes <= c.votes {
      var r := [c] + s;
      assert r[1..] == s;
    } else {
      var r := [s[0]] + InsertByVotes(c, s[1..]);
      assert r[1..] == InsertByVotes(c, s[1..]);
      TotalOfInsert(c, s[1..]);
    }
  }

  /** The total shown under a post is the same whichever order its rows are in. */
  lemma {:induction false} TotalUnchangedBySort(cs: seq<CandidateResult>)
    ensures TotalVotes(SortByVotes(cs)) == TotalVotes(cs)
  {
    if |cs| > 0 {
      TotalUnchangedBySort(cs[1..]);
      TotalOfInsert(cs[0], SortByVotes(cs[1..]));
    }
  }

  /** With no negative counts, the total bounds every row from above. */
  lemma {:induction false} TotalBoundsEachRow(cs: seq<CandidateResult>, i: int)
    requires forall k :: 0 <= k < |cs| ==> cs[k].votes >= 0
    requires 0 <= i < |cs|
    ensures 0 <= cs[i].votes <= TotalVotes(cs)
  {
    if i > 0 {
      TotalBoundsEachRow(cs[1..], i - 1);
    } else {
      TotalNonNegative(cs[1..]);
    }
  }

  lemma {:induction false} TotalNonNegative(cs: seq<CandidateResult>)
    requires forall k :: 0 <= k < |cs| ==> cs[k].votes >= 0
    ensures TotalVotes(cs) >= 0
  {
    if |cs| > 0 {
      TotalNonNegative(cs[1..]);
    }
  }
}
