/**
  What `typecast_timestamp` makes of well-formed text. The lemmas here fix the
  layout `YYYY-MM-DD HH:MM:SS[.f…][±HH[sep]MM]` position by position and show
  that the parser reads back exactly the fields written there; `Format` is the
  canonical rendering (six fraction digits, `±HH:MM` offset) and `ParseFormat`
  its round trip.
 */
module TimestampText {
  import opened Wrappers
  import opened CString
  import opened Scanf
  import opened Clock
  import opened Values
  import opened Timestamp

  /** `w` digits at position `i`. */
  predicate DigitsAt(s: string, i: nat, w: nat) {
    i + w <= |s| && AllDigits(s[i..i + w])
  }

  /** The value of the `w` digits at position `i` (0 when they are not all digits). */
  function ValueAt(s: string, i: nat, w: nat): nat {
    if DigitsAt(s, i, w) then DigitsValue(s[i..i + w]) else 0
  }

  /** `YYYY-MM-DD` at the start. */
  predicate DateLayout(s: string) {
    && |s| >= 10 && DigitsAt(s, 0, 4) && s[4] == '-' && DigitsAt(s, 5, 2) && s[7] == '-' && DigitsAt(s, 8, 2)
  }

  /** `YYYY-MM-DD HH:MM:SS` at the start. */
  predicate PrefixLayout(s: string) {
    && DateLayout(s) && |s| >= 19 && s[10] == ' '
    && DigitsAt(s, 11, 2) && s[13] == ':' && DigitsAt(s, 14, 2) && s[16] == ':' && DigitsAt(s, 17, 2)
  }

  /** The three date fields the prefix scan assigns. */
  function DateFields(s: string): seq<Field>
    requires DateLayout(s)
  {
    [IntField(ValueAt(s, 0, 4)), IntField(ValueAt(s, 5, 2)), IntField(ValueAt(s, 8, 2))]
  }

  /** The three time-of-day fields. */
  function TimeFields(s: string): seq<Field>
    requires PrefixLayout(s)
  {
    [IntField(ValueAt(s, 11, 2)), IntField(ValueAt(s, 14, 2)), IntField(ValueAt(s, 17, 2))]
  }

  // ---------------------------------------------------------------------------
  // The sscanf prefix

  /** The date half of the prefix format: three numbers and two dashes. */
  lemma DateScan(s: string, acc: Scan)
    requires DateLayout(s) && |acc.fields| == 0
    ensures Run(s, PrefixFormat, 0, acc) == Run(s, PrefixFormat[5..], 10, acc.(fields := DateFields(s)))
  {
    DateSteps(s, PrefixFormat, acc);
  }

  lemma DateSteps(s: string, f: seq<Directive>, acc: Scan)
    requires DateLayout(s) && |acc.fields| == 0
    requires |f| >= 5 && f[0] == Int(4) && f[1] == Lit('-') && f[2] == Int(2) && f[3] == Lit('-') && f[4] == Int(2)
    ensures Run(s, f, 0, acc) == Run(s, f[5..], 10, acc.(fields := DateFields(s)))
  {
    assert f[2..][0] == Int(2) && f[2..][1] == Lit('-') && f[2..][2..] == f[4..];
    assert f[4..][0] == Int(2) && f[4..][1..] == f[5..];
    var a1 := acc.(fields := [IntField(ValueAt(s, 0, 4))]);
    var a2 := acc.(fields := a1.fields + [IntField(ValueAt(s, 5, 2))]);
    var a3 := acc.(fields := a2.fields + [IntField(ValueAt(s, 8, 2))]);
    RunIntLit(s, f, 0, acc);
    assert acc.fields + [IntField(ValueAt(s, 0, 4))] == a1.fields;
    assert Run(s, f, 0, acc) == Run(s, f[2..], 5, a1);
    RunIntLit(s, f[2..], 5, a1);
    assert Run(s, f[2..], 5, a1) == Run(s, f[4..], 8, a2);
    RunIntDigits(s, f[4..], 8, a2);
    assert Run(s, f[4..], 8, a2) == Run(s, f[5..], 10, a3);
    assert a3 == acc.(fields := DateFields(s));
  }

  /** The time half: a blank over the single space, three numbers, two colons, then `%n`. */
  lemma TimeScan(s: string, acc: Scan)
    requires PrefixLayout(s)
    ensures Run(s, PrefixFormat[5..], 10, acc) == Scan(acc.fields + TimeFields(s), 19)
  {
    TimeSteps(s, PrefixFormat[5..], acc);
  }

  lemma TimeSteps(s: string, f: seq<Directive>, acc: Scan)
    requires PrefixLayout(s)
    requires |f| == 7 && f[0] == Spaces && f[1] == Int(2) && f[2] == Lit(':') && f[3] == Int(2)
    requires f[4] == Lit(':') && f[5] == Int(2) && f[6] == Count
    ensures Run(s, f, 10, acc) == Scan(acc.fields + TimeFields(s), 19)
  {
    assert f[1..][0] == Int(2) && f[1..][1] == Lit(':') && f[1..][2..] == f[3..];
    assert f[3..][0] == Int(2) && f[3..][1] == Lit(':') && f[3..][2..] == f[5..];
    assert f[5..][0] == Int(2) && f[5..][1..] == f[6..] && f[6..][0] == Count && f[6..][1..] == [];
    var a1 := acc.(fields := acc.fields + [IntField(ValueAt(s, 11, 2))]);
    var a2 := a1.(fields := a1.fields + [IntField(ValueAt(s, 14, 2))]);
    var a3 := a2.(fields := a2.fields + [IntField(ValueAt(s, 17, 2))]);
    assert !IsSpace(At(s, 11)) by { assert s[11..13][0] == s[11]; }
    RunSpacesSkipOne(s, f, 10, acc);
    assert Run(s, f, 10, acc) == Run(s, f[1..], 11, acc);
    RunIntLit(s, f[1..], 11, acc);
    assert Run(s, f[1..], 11, acc) == Run(s, f[3..], 14, a1);
    RunIntLit(s, f[3..], 14, a1);
    assert Run(s, f[3..], 14, a1) == Run(s, f[5..], 17, a2);
    RunIntDigits(s, f[5..], 17, a2);
    assert Run(s, f[5..], 17, a2) == Run(s, f[6..], 19, a3);
    RunCountStep(s, f[6..], 19, a3);
    RunDone(s, [], 19, a3.(count := 19));
    assert Run(s, f[6..], 19, a3) == a3.(count := 19);
    assert a3.fields == acc.fields + TimeFields(s);
  }

  /** Over `YYYY-MM-DD HH:MM:SS` the prefix scan assigns all six numbers and `%n` reaches 19. */
  lemma PrefixScan(s: string)
    requires PrefixLayout(s)
    ensures Sscanf(s, PrefixFormat) == Scan(DateFields(s) + TimeFields(s), 19)
  {
    DateScan(s, Scan([], -1));
    TimeScan(s, Scan(DateFields(s), -1));
  }

  /** With `T` between date and time (ISO 8601), the scan stops after the day:
      the blank matches no characters and `%02d` cannot read a `T`. */
  lemma IsoScan(s: string)
    requires DateLayout(s) && |s| > 10 && s[10] == 'T'
    ensures Sscanf(s, PrefixFormat) == Scan(DateFields(s), -1)
  {
    var f := PrefixFormat[5..];
    assert f[1..][0] == Int(2);
    DateScan(s, Scan([], -1));
    RunSpacesStep(s, f, 10, Scan(DateFields(s), -1));
    ScanIntRejects(s, 10, 2);
    RunIntStop(s, f[1..], 10, Scan(DateFields(s), -1));
  }

  // ---------------------------------------------------------------------------
  // Fraction and suffix

  /** `k` fraction digits ended by a non-digit are exactly the digits copied. */
  lemma FractionIs(s: string, from: nat, k: nat)
    requires 0 < k < MaxFractionDigits && DigitsAt(s, from, k) && !IsDigit(At(s, from + k))
    ensures FractionDigits(s, from) == s[from..from + k]
  {
    DigitRunStops(s, from, MaxFractionDigits, k);
  }

  /** A sign, two hour digits, `gap` separator characters and two minute digits. */
  predicate SuffixLayout(s: string, p: nat, gap: nat) {
    && p < |s| && IsSign(s[p]) && DigitsAt(s, p + 1, 2)
    && p + 3 + gap <= |s|
    && (forall k :: p + 3 <= k < p + 3 + gap ==> s[k] != NUL && !IsDigit(s[k]))
    && DigitsAt(s, p + 3 + gap, 2)
  }

  /** The suffix scan over `±HHMM` (gap 0), `±HH:MM` or `±HH MM` (gap 1), and so on. */
  lemma ScanSuffixAt(s: string, p: nat, gap: nat)
    requires SuffixLayout(s, p, gap)
    ensures ScanSuffix(s, p) == Some(Suffix(s[p], ValueAt(s, p + 1, 2), ValueAt(s, p + 3 + gap, 2)))
  {
    assert FindSign(s, p) == Some(p);
    assert IsDigit(s[p + 1..p + 3][0]);
    DigitRunExact(s, p + 1, 2);
    RunValueExact(s, p + 1, 2);
    var q := p + 3 + gap;
    assert DigitsAt(s, q, 2);
    assert IsDigit(s[q..q + 2][0]);
    SkipNonDigitsOver(s, p + 3, gap);
    RunValueExact(s, q, 2);
  }

  /** A sign and two hour digits at the very end: the minutes stay 0. */
  lemma ScanSuffixHourOnly(s: string, p: nat)
    requires p + 3 == |s| && IsSign(s[p]) && DigitsAt(s, p + 1, 2)
    ensures ScanSuffix(s, p) == Some(Suffix(s[p], ValueAt(s, p + 1, 2), 0))
  {
    assert FindSign(s, p) == Some(p);
    assert IsDigit(s[p + 1..p + 3][0]);
    DigitRunExact(s, p + 1, 2);
    RunValueExact(s, p + 1, 2);
    assert SkipNonDigits(s, p + 3) == p + 3;
  }

  lemma {:induction false} SkipNonDigitsOver(s: string, p: nat, gap: nat)
    requires p + gap < |s| && IsDigit(s[p + gap])
    requires forall k :: p <= k < p + gap ==> s[k] != NUL && !IsDigit(s[k])
    ensures SkipNonDigits(s, p) == p + gap
    decreases gap
  {
    if gap > 0 {
      SkipNonDigitsOver(s, p + 1, gap - 1);
    }
  }

  /** The full layout: the prefix, `.`, `k` fraction digits (1 to 6), and a suffix. */
  predicate FullLayout(s: string, k: nat, gap: nat) {
    && PrefixLayout(s) && |s| > 19 && s[19] == '.'
    && 0 < k <= 6 && DigitsAt(s, 20, k)
    && SuffixLayout(s, 20 + k, gap)
  }

  /** What `Parse` reads from text in the full layout: every field as written,
      the fraction digits, and the suffix; the fraction is worth its value
      scaled to microseconds. */
  lemma ParseFullLayout(s: string, k: nat, gap: nat)
    requires FullLayout(s, k, gap)
    ensures Parse(s) == Parsed(
      ValueAt(s, 0, 4), ValueAt(s, 5, 2), ValueAt(s, 8, 2),
      ValueAt(s, 11, 2), ValueAt(s, 14, 2), ValueAt(s, 17, 2),
      s[20..20 + k],
      Some(Suffix(s[20 + k], ValueAt(s, 20 + k + 1, 2), ValueAt(s, 20 + k + 3 + gap, 2))))
    ensures Micros(Parse(s).fraction) == ValueAt(s, 20, k) * Pow10(6 - k)
  {
    FullLayoutStages(s, k, gap);
    ParseStages(s, DateFields(s) + TimeFields(s), 19, s[20..20 + k],
      Some(Suffix(s[20 + k], ValueAt(s, 20 + k + 1, 2), ValueAt(s, 20 + k + 3 + gap, 2))));
    MicrosExact(s[20..20 + k]);
  }

  /** The three stages of `Parse` over the full layout. */
  lemma FullLayoutStages(s: string, k: nat, gap: nat)
    requires FullLayout(s, k, gap)
    ensures Sscanf(s, PrefixFormat) == Scan(DateFields(s) + TimeFields(s), 19)
    ensures FractionDigits(s, 20) == s[20..20 + k]
    ensures ScanSuffix(s, 20 + k) == Some(Suffix(s[20 + k], ValueAt(s, 20 + k + 1, 2), ValueAt(s, 20 + k + 3 + gap, 2)))
  {
    PrefixScan(s);
    FractionIs(s, 20, k);
    ScanSuffixAt(s, 20 + k, gap);
  }

  /** Exactly `YYYY-MM-DD HH:MM:SS`: no fraction and no suffix. */
  lemma ParsePrefixOnly(s: string)
    requires PrefixLayout(s) && |s| == 19
    ensures Parse(s) == Parsed(
      ValueAt(s, 0, 4), ValueAt(s, 5, 2), ValueAt(s, 8, 2),
      ValueAt(s, 11, 2), ValueAt(s, 14, 2), ValueAt(s, 17, 2), "", None)
  {
    PrefixScan(s);
  }

  /** `YYYY-MM-DD HH:MM:SS±HH[sep]MM`, as PostgreSQL writes `2012-06-15
      14:30:00+02:00`: no fraction, and the suffix starts right after the seconds. */
  lemma ParseSuffixNoFraction(s: string, gap: nat)
    requires PrefixLayout(s) && SuffixLayout(s, 19, gap)
    ensures Parse(s) == Parsed(
      ValueAt(s, 0, 4), ValueAt(s, 5, 2), ValueAt(s, 8, 2),
      ValueAt(s, 11, 2), ValueAt(s, 14, 2), ValueAt(s, 17, 2),
      "", Some(Suffix(s[19], ValueAt(s, 20, 2), ValueAt(s, 22 + gap, 2))))
  {
    PrefixScan(s);
    ScanSuffixAt(s, 19, gap);
  }

  /** `YYYY-MM-DD HH:MM:SS±HH` at the end: the offset has hours only. */
  lemma ParseHourSuffix(s: string)
    requires PrefixLayout(s) && |s| == 22 && IsSign(s[19]) && DigitsAt(s, 20, 2)
    ensures Parse(s) == Parsed(
      ValueAt(s, 0, 4), ValueAt(s, 5, 2), ValueAt(s, 8, 2),
      ValueAt(s, 11, 2), ValueAt(s, 14, 2), ValueAt(s, 17, 2),
      "", Some(Suffix(s[19], ValueAt(s, 20, 2), 0)))
  {
    PrefixScan(s);
    ScanSuffixHourOnly(s, 19);
  }

  /** `YYYY-MM-DD HH:MM:SS.f…` with 1 to 6 fraction digits and no sign anywhere
      after them: the fraction is read and there is no suffix. */
  lemma ParseFractionNoSuffix(s: string, k: nat)
    requires PrefixLayout(s) && |s| > 19 && s[19] == '.'
    requires 0 < k <= 6 && DigitsAt(s, 20, k) && !IsDigit(At(s, 20 + k))
    requires forall j :: 20 + k <= j < |s| ==> !IsSign(s[j])
    ensures Parse(s) == Parsed(
      ValueAt(s, 0, 4), ValueAt(s, 5, 2), ValueAt(s, 8, 2),
      ValueAt(s, 11, 2), ValueAt(s, 14, 2), ValueAt(s, 17, 2),
      s[20..20 + k], None)
    ensures Micros(Parse(s).fraction) == ValueAt(s, 20, k) * Pow10(6 - k)
  {
    PrefixScan(s);
    FractionIs(s, 20, k);
    NoSignNoSuffix(s, 20 + k);
    MicrosExact(s[20..20 + k]);
  }

  /** ISO 8601 text with a `T` separator loses its time of day, fraction and
      offset: the scan stops after the day and `%n` is never reached. */
  lemma IsoSeparatorDropsTime(s: string)
    requires DateLayout(s) && |s| > 10 && s[10] == 'T'
    ensures Parse(s) == Parsed(ValueAt(s, 0, 4), ValueAt(s, 5, 2), ValueAt(s, 8, 2), 0, 0, 0, "", None)
  {
    IsoScan(s);
  }

  // ---------------------------------------------------------------------------
  // The canonical rendering and its round trip

  /** A timestamp with a fixed UTC offset, every field within its printed width. */
  datatype Stamp = Stamp(
    year: nat, month: nat, day: nat, hour: nat, minute: nat, second: nat, usec: nat,
    sign: char, offsetHour: nat, offsetMinute: nat)

  predicate ValidStamp(st: Stamp) {
    && st.year < 10000 && st.month < 100 && st.day < 100
    && st.hour < 100 && st.minute < 100 && st.second < 100
    && st.usec < MicrosPerSecond && IsSign(st.sign)
    && st.offsetHour < 100 && st.offsetMinute < 100
  }

  function DateText(st: Stamp): (t: string)
    requires ValidStamp(st)
    ensures |t| == 10
  {
    Digits(st.year, 4) + "-" + Digits(st.month, 2) + "-" + Digits(st.day, 2)
  }

  function TimeText(st: Stamp): (t: string)
    requires ValidStamp(st)
    ensures |t| == 8
  {
    Digits(st.hour, 2) + ":" + Digits(st.minute, 2) + ":" + Digits(st.second, 2)
  }

  function OffsetText(st: Stamp): (t: string)
    requires ValidStamp(st)
    ensures |t| == 6
  {
    [st.sign] + Digits(st.offsetHour, 2) + ":" + Digits(st.offsetMinute, 2)
  }

  /** `YYYY-MM-DD HH:MM:SS.ffffff±HH:MM` */
  function Format(st: Stamp): (t: string)
    requires ValidStamp(st)
    ensures |t| == 32
  {
    assert Pow10(6) == MicrosPerSecond;
    DateText(st) + " " + TimeText(st) + "." + Digits(st.usec, 6) + OffsetText(st)
  }

  lemma DateTextLayout(st: Stamp, s: string)
    requires ValidStamp(st) && |s| >= 10 && s[..10] == DateText(st)
    ensures DateLayout(s)
    ensures ValueAt(s, 0, 4) == st.year && ValueAt(s, 5, 2) == st.month && ValueAt(s, 8, 2) == st.day
  {
    var t := DateText(st);
    assert s[0..4] == t[0..4] == Digits(st.year, 4);
    assert s[5..7] == t[5..7] == Digits(st.month, 2);
    assert s[8..10] == t[8..10] == Digits(st.day, 2);
    assert s[4] == t[4] && s[7] == t[7];
  }

  lemma TimeTextLayout(st: Stamp, s: string)
    requires ValidStamp(st) && |s| >= 19 && s[11..19] == TimeText(st)
    ensures DigitsAt(s, 11, 2) && s[13] == ':' && DigitsAt(s, 14, 2) && s[16] == ':' && DigitsAt(s, 17, 2)
    ensures ValueAt(s, 11, 2) == st.hour && ValueAt(s, 14, 2) == st.minute && ValueAt(s, 17, 2) == st.second
  {
    var t := TimeText(st);
    assert s[11..13] == t[0..2] == Digits(st.hour, 2);
    assert t[3..5] == Digits(st.minute, 2) by {
      var m := Digits(st.minute, 2);
      assert t[3] == m[0] && t[4] == m[1];
    }
    assert s[14..16] == t[3..5];
    assert s[17..19] == t[6..8] == Digits(st.second, 2);
    assert s[13] == t[2] && s[16] == t[5];
  }

  lemma OffsetTextLayout(st: Stamp, s: string)
    requires ValidStamp(st) && |s| == 32 && s[26..] == OffsetText(st)
    ensures SuffixLayout(s, 26, 1)
    ensures s[26] == st.sign && ValueAt(s, 27, 2) == st.offsetHour && ValueAt(s, 30, 2) == st.offsetMinute
  {
    var t := OffsetText(st);
    assert s[27..29] == t[1..3] == Digits(st.offsetHour, 2);
    assert s[30..32] == t[4..6] == Digits(st.offsetMinute, 2);
    assert s[26] == t[0] && s[29] == t[3];
  }

  /** `Format` lays the stamp out position by position. */
  lemma FormatLayout(st: Stamp)
    requires ValidStamp(st)
    ensures FullLayout(Format(st), 6, 1)
    ensures var s := Format(st);
      && ValueAt(s, 0, 4) == st.year && ValueAt(s, 5, 2) == st.month && ValueAt(s, 8, 2) == st.day
      && ValueAt(s, 11, 2) == st.hour && ValueAt(s, 14, 2) == st.minute && ValueAt(s, 17, 2) == st.second
      && ValueAt(s, 20, 6) == st.usec
      && s[26] == st.sign && ValueAt(s, 27, 2) == st.offsetHour && ValueAt(s, 30, 2) == st.offsetMinute
  {
    var s := Format(st);
    assert Pow10(6) == MicrosPerSecond;
    var f := Digits(st.usec, 6);
    assert s == DateText(st) + " " + TimeText(st) + "." + f + OffsetText(st);
    assert s[..10] == DateText(st);
    assert s[11..19] == TimeText(st);
    assert s[20..26] == f;
    assert ValueAt(s, 20, 6) == st.usec;
    assert s[26..] == OffsetText(st);
    assert s[10] == ' ' && s[19] == '.';
    DateTextLayout(st, s);
    TimeTextLayout(st, s);
    OffsetTextLayout(st, s);
  }

  /** Parsing the canonical rendering gives back every field of the stamp. */
  lemma ParseFormat(st: Stamp)
    requires ValidStamp(st)
    ensures Parse(Format(st)) == Parsed(
      st.year, st.month, st.day, st.hour, st.minute, st.second, Digits(st.usec, 6),
      Some(Suffix(st.sign, st.offsetHour, st.offsetMinute)))
    ensures Micros(Parse(Format(st)).fraction) == st.usec
  {
    assert Pow10(6) == MicrosPerSecond;
    var fields := [IntField(st.year), IntField(st.month), IntField(st.day),
                   IntField(st.hour), IntField(st.minute), IntField(st.second)];
    FormatStages(st);
    ParseStages(Format(st), fields, 19, Digits(st.usec, 6), Some(Suffix(st.sign, st.offsetHour, st.offsetMinute)));
    MicrosExact(Digits(st.usec, 6));
  }

  /** The three stages of `Parse` over the canonical rendering. */
  lemma FormatStages(st: Stamp)
    requires ValidStamp(st)
    ensures var s := Format(st);
      && Sscanf(s, PrefixFormat) == Scan([IntField(st.year), IntField(st.month), IntField(st.day),
                                         IntField(st.hour), IntField(st.minute), IntField(st.second)], 19)
      && FractionDigits(s, 20) == Digits(st.usec, 6)
      && ScanSuffix(s, 26) == Some(Suffix(st.sign, st.offsetHour, st.offsetMinute))
      && |s| == 32 && s[19] == '.'
  {
    assert Pow10(6) == MicrosPerSecond;
    FormatLayout(st);
    StampStages(Format(st), st);
    FormatFraction(st);
  }

  lemma StampStages(s: string, st: Stamp)
    requires ValidStamp(st) && |s| == 32 && FullLayout(s, 6, 1)
    requires && ValueAt(s, 0, 4) == st.year && ValueAt(s, 5, 2) == st.month && ValueAt(s, 8, 2) == st.day
      && ValueAt(s, 11, 2) == st.hour && ValueAt(s, 14, 2) == st.minute && ValueAt(s, 17, 2) == st.second
      && s[26] == st.sign && ValueAt(s, 27, 2) == st.offsetHour && ValueAt(s, 30, 2) == st.offsetMinute
    ensures Sscanf(s, PrefixFormat) == Scan([IntField(st.year), IntField(st.month), IntField(st.day),
                                            IntField(st.hour), IntField(st.minute), IntField(st.second)], 19)
    ensures FractionDigits(s, 20) == s[20..26]
    ensures ScanSuffix(s, 26) == Some(Suffix(st.sign, st.offsetHour, st.offsetMinute))
  {
    FullLayoutStages(s, 6, 1);
  }

  lemma FormatFraction(st: Stamp)
    requires ValidStamp(st)
    ensures Pow10(6) == MicrosPerSecond && Format(st)[20..26] == Digits(st.usec, 6)
  {
    assert Pow10(6) == MicrosPerSecond;
    FormatLayout(st);
  }

  /** Decoding the canonical rendering of a stamp with a positive day gives the
      microseconds written, and seconds equal to `mktime`'s epoch for the fields
      plus the client offset minus the written offset, whatever the caller zone.
      `DecodeFormatInstant` turns this into the instant the text names. */
  lemma DecodeFormat(st: Stamp, zone: Option<string>, clock: Clock)
    requires ValidStamp(st) && st.day > 0
    ensures var p := Parse(Format(st));
      Decode(Format(st), zone, clock)
        == Time(LocalEpoch(p, clock).epoch + ClientAdjust(p, clock)
                  - SignedOffset(st.sign, st.offsetHour, st.offsetMinute), st.usec)
  {
    ParseFormat(st);
  }

  /** Under a process zone whose daylight-saving shift is `shift` seconds, text
      with a suffix decodes to its fields read as UTC minus the written offset,
      except that on DST fields it lands `3600 - shift` seconds late: the client
      offset always adds a whole hour. A half-hour shift, as on Lord Howe
      Island, puts the result 30 minutes late. */
  lemma SuffixUnderShiftedDstClock(s: string, zone: Option<string>, clock: Clock, utc: Tm -> int, east: int, dst: Tm -> bool, shift: int)
    requires Parse(s).day > 0 && Parse(s).suffix.Some?
    requires DstZone(clock, ProcessZone, utc, east, dst, shift)
    ensures var p := Parse(s); var x := p.suffix.value;
      Decode(s, zone, clock)
        == Time(utc(ToTm(p)) - SignedOffset(x.sign, x.hour, x.minute) + (if dst(ToTm(p)) then HourSeconds - shift else 0),
                Micros(p.fraction))
  {
    var p := Parse(s);
    var t := ToTm(p);
    assert clock.mktime(ProcessZone, t).epoch == utc(t) - east - (if dst(t) then shift else 0);
    ClientOffsetOfShiftedDst(clock, ProcessZone, utc, east, dst, shift, t);
    assert ClientAdjust(p, clock) == east + (if dst(t) then HourSeconds else 0);
    SuffixOverridesZone(s, zone, None, clock);
  }

  /** Under a process zone with a one-hour daylight-saving rule, text with a
      suffix decodes to its fields read as UTC, minus the written offset, in
      summer and winter alike. */
  lemma SuffixUnderDstClock(s: string, zone: Option<string>, clock: Clock, utc: Tm -> int, east: int, dst: Tm -> bool)
    requires Parse(s).day > 0 && Parse(s).suffix.Some?
    requires HourDstZone(clock, ProcessZone, utc, east, dst)
    ensures var p := Parse(s); var x := p.suffix.value;
      Decode(s, zone, clock) == Time(utc(ToTm(p)) - SignedOffset(x.sign, x.hour, x.minute), Micros(p.fraction))
  {
    SuffixUnderShiftedDstClock(s, zone, clock, utc, east, dst, HourSeconds);
  }

  /** Under a process zone with a one-hour daylight-saving rule, decoding the
      canonical rendering gives the instant it names: its fields read as UTC,
      minus the written offset. The process zone, its DST and the caller zone
      all cancel out. */
  lemma DecodeFormatInstant(st: Stamp, zone: Option<string>, clock: Clock, utc: Tm -> int, east: int, dst: Tm -> bool)
    requires ValidStamp(st) && st.day > 0
    requires HourDstZone(clock, ProcessZone, utc, east, dst)
    ensures Decode(Format(st), zone, clock)
      == Time(utc(Tm(st.year - 1900, st.month - 1, st.day, st.hour, st.minute, st.second, -1))
                - SignedOffset(st.sign, st.offsetHour, st.offsetMinute), st.usec)
  {
    var s := Format(st);
    ParseFormat(st);
    var p := Parse(s);
    assert ToTm(p) == Tm(st.year - 1900, st.month - 1, st.day, st.hour, st.minute, st.second, -1);
    SuffixUnderDstClock(s, zone, clock, utc, east, dst);
  }

  /** The all-zero date is not a date: the text comes back as it was. */
  lemma ZeroDateFallsBack(zone: Option<string>, clock: Clock)
    ensures Decode("0000-00-00 00:00:00", zone, clock) == Binary("0000-00-00 00:00:00")
  {
    var s := "0000-00-00 00:00:00";
    assert s[8..10] == "00" && DigitsValue("00") == 0;
    assert AllDigits(s[0..4]) && AllDigits(s[5..7]) && AllDigits(s[11..13]);
    assert AllDigits(s[14..16]) && AllDigits(s[17..19]);
    ParsePrefixOnly(s);
  }

  /** Plain `YYYY-MM-DD HH:MM:SS` with no caller zone is client-local time. */
  lemma PlainTextIsLocal(s: string, clock: Clock)
    requires PrefixLayout(s) && |s| == 19 && ValueAt(s, 8, 2) > 0
    ensures Decode(s, None, clock) == Time(LocalEpoch(Parse(s), clock).epoch, 0)
  {
    ParsePrefixOnly(s);
  }
}
