/**
  `typecast_timestamp`: the hand-written parser for
  `YYYY-MM-DD HH:MM:SS[.fraction][suffix]` and the offset arithmetic that turns
  the parsed fields into an instant.

  Decoding happens in two steps. `Parse` is pure syntax: what the `sscanf`
  prefix, the fraction loop and the suffix scan pick up. `Decode` then picks
  the UTC offset by a fixed priority (explicit suffix, caller zone, client
  offset) and returns `epoch + adjust - offset`, or the raw text when the day
  of the month is not positive.
 */
module Timestamp {
  import opened Wrappers
  import opened CString
  import opened Scanf
  import opened Clock
  import opened Values

  /** `"%04d-%02d-%02d %02d:%02d:%02d%n"` */
  const PrefixFormat: seq<Directive> :=
    [Int(4), Lit('-'), Int(2), Lit('-'), Int(2), Spaces, Int(2), Lit(':'), Int(2), Lit(':'), Int(2), Count]

  /** `"%c%02d%02d"` */
  const PackedZoneFormat: seq<Directive> := [Char, Int(2), Int(2)]

  /** `"%c%02d:%02d"` */
  const ColonZoneFormat: seq<Directive> := [Char, Int(2), Lit(':'), Int(2)]

  /** The fraction buffer holds 32 characters, so at most 31 digits are read. */
  const MaxFractionDigits := 31

  const MicrosPerSecond := 1000000

  /** `atoll` saturates at `LLONG_MAX`. */
  const LLongMax := 0x7fff_ffff_ffff_ffff

  predicate IsSign(c: char) {
    c == '+' || c == '-'
  }

  /** An explicit UTC offset found after the seconds. */
  datatype Suffix = Suffix(sign: char, hour: nat, minute: nat)

  /** A run of decimal digits. */
  type DigitText = d: string | AllDigits(d) witness ""

  /** The fields as written (year and month not yet shifted for `struct tm`), the
      fraction digits copied after a `.` (empty when there is none), and the suffix. */
  datatype Parsed = Parsed(
    year: int, month: int, day: int, hour: int, minute: int, second: int,
    fraction: DigitText, suffix: Option<Suffix>)

  /** The digits the fraction loop copies: a run of digits starting at `from`, at most 31. */
  function FractionDigits(s: string, from: nat): (d: string)
    requires from <= |s|
    ensures |d| <= MaxFractionDigits && from + |d| <= |s|
    ensures d == s[from..from + |d|] && AllDigits(d)
    ensures |d| < MaxFractionDigits ==> !IsDigit(At(s, from + |d|))
  {
    var n := DigitRun(s, from, MaxFractionDigits);
    DigitRunDigits(s, from, MaxFractionDigits);
    s[from..from + n]
  }

  /** `atoll` over a digit string. */
  function Atoll(d: string): (v: nat)
    requires AllDigits(d)
    ensures v <= LLongMax
    ensures DigitsValue(d) <= LLongMax ==> v == DigitsValue(d)
  {
    if DigitsValue(d) <= LLongMax then DigitsValue(d) else LLongMax
  }

  /** `round(atoll(d) * (1000000 / pow(10, |d|)))`, rounding the exact quotient
      half up: the result is the integer nearest to `atoll(d) * 10^6 / 10^|d|`,
      and a value exactly halfway goes up. */
  function Micros(d: string): (us: nat)
    requires AllDigits(d)
    ensures 2 * Pow10(|d|) * us <= 2 * MicrosPerSecond * Atoll(d) + Pow10(|d|)
    ensures 2 * MicrosPerSecond * Atoll(d) < 2 * Pow10(|d|) * us + Pow10(|d|)
  {
    var scale := Pow10(|d|);
    var twice: nat := Atoll(d) * 2000000 + scale;
    Quot(twice, 2 * scale)
  }

  /** The first `+` or `-` at or after `from` and before the terminating NUL. */
  function FindSign(s: string, from: nat): (r: Option<nat>)
    requires from <= |s|
    ensures r.Some? ==> from <= r.value < |s| && IsSign(s[r.value])
    decreases |s| - from
  {
    if from == |s| || s[from] == NUL then None
    else if IsSign(s[from]) then Some(from) else FindSign(s, from + 1)
  }

  /** `FindSign` finds the first sign of the C string starting at `from`, and
      reports none exactly when that C string holds no sign. */
  lemma {:induction false} FindSignFirst(s: string, from: nat)
    requires from <= |s|
    ensures var r := FindSign(s, from);
      && (r.Some? ==> from <= r.value < from + |CStr(s[from..])|)
      && (r.Some? ==> forall k :: from <= k < r.value ==> !IsSign(s[k]))
      && (r.None? ==> forall k :: from <= k < from + |CStr(s[from..])| ==> !IsSign(s[k]))
    decreases |s| - from
  {
    if from < |s| && s[from] != NUL {
      assert s[from..][1..] == s[from + 1..];
      FindSignFirst(s, from + 1);
    }
  }

  /** The first position at or after `p` holding a digit or the terminator. */
  function SkipNonDigits(s: string, p: nat): (q: nat)
    ensures p <= q
    ensures At(s, q) == NUL || IsDigit(At(s, q))
    decreases |s| - p
  {
    if p < |s| && s[p] != NUL && !IsDigit(s[p]) then SkipNonDigits(s, p + 1) else p
  }

  /** The suffix scan: find a sign, then at most two hour digits, skip anything
      that is not a digit, then at most two minute digits. No sign before the
      terminator means no suffix. */
  function ScanSuffix(s: string, from: nat): (r: Option<Suffix>)
    requires from <= |s|
    ensures r.Some? ==> IsSign(r.value.sign) && r.value.hour < 100 && r.value.minute < 100
  {
    match FindSign(s, from)
    case None => None
    case Some(p) =>
      var hour := RunValue(s, p + 1, 2);
      var minute := if DigitRun(s, p + 1, 2) == 0 then 0 else RunValue(s, SkipNonDigits(s, p + 1 + DigitRun(s, p + 1, 2)), 2);
      assert hour < 100 && minute < 100 by {
        Pow10Monotone(DigitRun(s, p + 1, 2), 2);
        Pow10Monotone(DigitRun(s, SkipNonDigits(s, p + 1 + DigitRun(s, p + 1, 2)), 2), 2);
      }
      Some(Suffix(s[p], hour, minute))
  }

  /** No suffix exactly when no sign comes before the terminating NUL. */
  lemma NoSignNoSuffix(s: string, from: nat)
    requires from <= |s|
    ensures ScanSuffix(s, from).None? <==> forall k :: from <= k < from + |CStr(s[from..])| ==> !IsSign(s[k])
  {
    FindSignFirst(s, from);
  }

  /** What the parsing half of `typecast_timestamp` picks up from `s`. Fields
      the `sscanf` prefix never reached stay 0, because `tm` is zeroed first. */
  function Parse(s: string): (p: Parsed)
    ensures |p.fraction| <= MaxFractionDigits
    ensures Sscanf(s, PrefixFormat).count <= 0 ==> p.fraction == "" && p.suffix.None?
    ensures |Sscanf(s, PrefixFormat).fields| < 3 ==> p.day == 0
    ensures |Sscanf(s, PrefixFormat).fields| < 6 ==> p.second == 0
    ensures p.suffix.Some? ==> IsSign(p.suffix.value.sign) && p.suffix.value.hour < 100 && p.suffix.value.minute < 100
  {
    var sc := Sscanf(s, PrefixFormat);
    var last := sc.count;
    var hasFraction := 0 < last < |s| && s[last] == '.';
    var digits := if hasFraction then FractionDigits(s, last + 1) else "";
    var end := if hasFraction then last + 1 + |digits| else last;
    Parsed(
      IntOr(sc, 0, 0), IntOr(sc, 1, 0), IntOr(sc, 2, 0), IntOr(sc, 3, 0), IntOr(sc, 4, 0), IntOr(sc, 5, 0),
      digits,
      if 0 < end < |s| then ScanSuffix(s, end) else None)
  }

  /** `Parse` is fixed by its three stages: what the prefix scan assigns and
      where `%n` lands, the fraction digits after a `.` there, and the suffix
      scan from the end of those digits. */
  lemma ParseStages(s: string, fields: seq<Field>, last: int, digits: string, suffix: Option<Suffix>)
    requires Sscanf(s, PrefixFormat) == Scan(fields, last)
    requires 0 < last < |s| && s[last] == '.'
    requires FractionDigits(s, last + 1) == digits
    requires 0 < last + 1 + |digits| < |s| && ScanSuffix(s, last + 1 + |digits|) == suffix
    ensures AllDigits(digits)
    ensures var sc := Scan(fields, last);
      Parse(s) == Parsed(IntOr(sc, 0, 0), IntOr(sc, 1, 0), IntOr(sc, 2, 0),
                         IntOr(sc, 3, 0), IntOr(sc, 4, 0), IntOr(sc, 5, 0), digits, suffix)
  {
  }

  /** The `struct tm` handed to `mktime`: years since 1900, months from 0, DST unknown. */
  function ToTm(p: Parsed): (tm: Tm)
    ensures tm.year + 1900 == p.year && tm.mon + 1 == p.month && tm.mday == p.day
    ensures tm.hour == p.hour && tm.min == p.minute && tm.sec == p.second && tm.isdst == -1
  {
    Tm(p.year - 1900, p.month - 1, p.day, p.hour, p.minute, p.second, -1)
  }

  /** `epoch = mktime(&tm)` under the process zone, with the fields it writes back. */
  function LocalEpoch(p: Parsed, clock: Clock): MkTime {
    clock.mktime(ProcessZone, ToTm(p))
  }

  /** `adjust = client_tzoffset(epoch, tm.tm_isdst)` */
  function ClientAdjust(p: Parsed, clock: Clock): int {
    var local := LocalEpoch(p, clock);
    ClientTzOffset(clock, ProcessZone, local.epoch, local.tm.isdst)
  }

  /** A fixed offset in seconds east of UTC: positive for `'+'`, negative for any other sign character. */
  function SignedOffset(sign: char, hour: int, minute: int): (off: int)
    ensures sign == '+' ==> off == hour * 3600 + minute * 60
    ensures sign != '+' ==> off == -(hour * 3600 + minute * 60)
  {
    if sign == '+' then hour * 3600 + minute * 60 else hour * -3600 + minute * -60
  }

  /** The largest fixed offset two-digit fields can spell: 99 hours and 99 minutes. */
  const MaxFixedOffset := 99 * 3600 + 99 * 60

  /** The offset a caller zone string stands for. The `%c%02d:%02d` form may
      assign only sign and hour; the minutes then keep the 0 they started with.
      Any zone that is not looked up by name is a fixed offset of at most
      99 hours and 99 minutes either way. */
  function ZoneOffset(zone: string, clock: Clock, tm: Tm): (off: int)
    ensures CStr(zone) == "" ==> off == ServerTzOffset(clock, tm, zone)
    ensures off == ServerTzOffset(clock, tm, zone) || -MaxFixedOffset <= off <= MaxFixedOffset
  {
    if StartsWithCaseless(zone, "UTC") || StartsWithCaseless(zone, "GMT") then 0
    else if CStr(zone) == "+00:00" || CStr(zone) == "+0000" then 0
    else
      ZoneScansSmall(zone);
      var packed := Sscanf(zone, PackedZoneFormat);
      if |packed.fields| == 3 then SignedOffset(CharOr(packed, 0), IntOr(packed, 1, 0), IntOr(packed, 2, 0))
      else
        var colon := Sscanf(zone, ColonZoneFormat);
        if |colon.fields| >= 2 then SignedOffset(CharOr(colon, 0), IntOr(colon, 1, 0), IntOr(colon, 2, 0))
        else ServerTzOffset(clock, tm, zone)
  }

  /** Both zone formats assign only integers of at most two digits. */
  lemma ZoneScansSmall(zone: string)
    ensures forall k :: -100 < IntOr(Sscanf(zone, PackedZoneFormat), k, 0) < 100
    ensures forall k :: -100 < IntOr(Sscanf(zone, ColonZoneFormat), k, 0) < 100
  {
    assert NarrowInts(PackedZoneFormat) && NarrowInts(ColonZoneFormat);
    RunKeepsSmallInts(zone, PackedZoneFormat, 0, Scan([], -1));
    RunKeepsSmallInts(zone, ColonZoneFormat, 0, Scan([], -1));
  }

  /** The offset subtracted from `epoch + adjust`: explicit suffix first, then
      the caller zone, and otherwise the client offset itself. */
  function EffectiveOffset(p: Parsed, zone: Option<string>, clock: Clock): (off: int)
    ensures p.suffix.Some? ==> off == SignedOffset(p.suffix.value.sign, p.suffix.value.hour, p.suffix.value.minute)
    ensures p.suffix.None? && zone.Some? ==> off == ZoneOffset(zone.value, clock, LocalEpoch(p, clock).tm)
    ensures p.suffix.None? && zone.None? ==> off == ClientAdjust(p, clock)
  {
    if p.suffix.Some? then SignedOffset(p.suffix.value.sign, p.suffix.value.hour, p.suffix.value.minute)
    else if zone.Some? then ZoneOffset(zone.value, clock, LocalEpoch(p, clock).tm)
    else ClientAdjust(p, clock)
  }

  /** `typecast_timestamp(s, |s|, zone)`. */
  function Decode(s: string, zone: Option<string>, clock: Clock): (v: Value)
    ensures v.Time? || v.Binary?
    ensures v.Binary? <==> Parse(s).day <= 0
    ensures v.Binary? ==> v.bytes == s
    ensures v.Time? ==> v.usec == Micros(Parse(s).fraction)
    ensures v.Time? ==> v.seconds + EffectiveOffset(Parse(s), zone, clock)
                        == LocalEpoch(Parse(s), clock).epoch + ClientAdjust(Parse(s), clock)
  {
    var p := Parse(s);
    if p.day <= 0 then Binary(s)
    else Time(LocalEpoch(p, clock).epoch + ClientAdjust(p, clock) - EffectiveOffset(p, zone, clock), Micros(p.fraction))
  }

  // ---------------------------------------------------------------------------
  // Offset selection

  /** An explicit suffix decides the offset: the caller zone plays no part. */
  lemma SuffixOverridesZone(s: string, zone1: Option<string>, zone2: Option<string>, clock: Clock)
    requires Parse(s).day > 0 && Parse(s).suffix.Some?
    ensures Decode(s, zone1, clock) == Decode(s, zone2, clock)
    ensures var p := Parse(s); var x := p.suffix.value;
      Decode(s, zone1, clock)
        == Time(LocalEpoch(p, clock).epoch + ClientAdjust(p, clock) - SignedOffset(x.sign, x.hour, x.minute), Micros(p.fraction))
  {
  }

  /** With neither suffix nor zone the text is taken as client-local time: the
      result is `mktime`'s epoch itself. */
  lemma NoSuffixNoZoneIsLocal(s: string, clock: Clock)
    requires Parse(s).day > 0 && Parse(s).suffix.None?
    ensures Decode(s, None, clock) == Time(LocalEpoch(Parse(s), clock).epoch, Micros(Parse(s).fraction))
  {
  }

  /** A zone starting with UTC or GMT (any case) means offset 0, so the
      client offset is added back to the local epoch. */
  lemma UtcZoneAddsClientOffset(s: string, zone: string, clock: Clock)
    requires Parse(s).day > 0 && Parse(s).suffix.None?
    requires StartsWithCaseless(zone, "UTC") || StartsWithCaseless(zone, "GMT")
    ensures Decode(s, Some(zone), clock)
            == Time(LocalEpoch(Parse(s), clock).epoch + ClientAdjust(Parse(s), clock), Micros(Parse(s).fraction))
  {
  }

  /** `+00:00` and `+0000` also mean offset 0. */
  lemma ZeroZonesAreUtc(zone: string, clock: Clock, tm: Tm)
    requires CStr(zone) == "+00:00" || CStr(zone) == "+0000"
    ensures ZoneOffset(zone, clock, tm) == 0
  {
  }

  /** `±HHMM` (any first character, then four digits, then anything): a fixed offset. */
  lemma PackedZoneOffset(sign: char, h: nat, m: nat, rest: string, clock: Clock, tm: Tm)
    requires sign != NUL && h < 100 && m < 100
    ensures ZoneOffset([sign] + Digits(h, 2) + Digits(m, 2) + rest, clock, tm) == SignedOffset(sign, h, m)
  {
    var hh, mm := Digits(h, 2), Digits(m, 2);
    var z := [sign] + hh + mm + rest;
    assert z[0] == sign && z[1..3] == hh && z[3..5] == mm;
    PackedZoneText(z, clock, tm);
  }

  lemma PackedZoneText(z: string, clock: Clock, tm: Tm)
    requires |z| >= 5 && z[0] != NUL && AllDigits(z[1..3]) && AllDigits(z[3..5])
    ensures ZoneOffset(z, clock, tm) == SignedOffset(z[0], DigitsValue(z[1..3]), DigitsValue(z[3..5]))
  {
    PackedScan(z);
    NotUtcWhenSecondIsDigit(z);
    DigitNotColon(z);
    if CStr(z) == "+0000" {
      ZeroFormDigits(z, "+0000", 3);
      ZeroZonesAreUtc(z, clock, tm);
    } else {
      ZoneOffsetByPacked(z, clock, tm);
    }
  }

  /** `±HH:MM`: the packed form stops at the colon after two fields, the colon form reads all three. */
  lemma ColonZoneOffset(sign: char, h: nat, m: nat, rest: string, clock: Clock, tm: Tm)
    requires sign != NUL && h < 100 && m < 100
    ensures ZoneOffset([sign] + Digits(h, 2) + ":" + Digits(m, 2) + rest, clock, tm) == SignedOffset(sign, h, m)
  {
    var hh, mm := Digits(h, 2), Digits(m, 2);
    var z := [sign] + hh + ":" + mm + rest;
    assert z[0] == sign && z[1..3] == hh && z[3] == ':' && z[4..6] == mm;
    ColonZoneText(z, clock, tm);
  }

  lemma ColonZoneText(z: string, clock: Clock, tm: Tm)
    requires |z| >= 6 && z[0] != NUL && AllDigits(z[1..3]) && z[3] == ':' && AllDigits(z[4..6])
    ensures ZoneOffset(z, clock, tm) == SignedOffset(z[0], DigitsValue(z[1..3]), DigitsValue(z[4..6]))
  {
    ColonScan(z);
    NotUtcWhenSecondIsDigit(z);
    CStrPrefix(z, "+0000");
    if CStr(z) == "+00:00" {
      ZeroFormDigits(z, "+00:00", 4);
      ZeroZonesAreUtc(z, clock, tm);
    } else {
      ZoneOffsetByColon(z, clock, tm);
    }
  }

  /** `±HH` alone: both formats assign sign and hour only, so the minutes are 0. */
  lemma HourZoneOffset(sign: char, h: nat, clock: Clock, tm: Tm)
    requires sign != NUL && h < 100
    ensures ZoneOffset([sign] + Digits(h, 2), clock, tm) == SignedOffset(sign, h, 0)
  {
    var hh := Digits(h, 2);
    var z := [sign] + hh;
    assert z[0] == sign && z[1..3] == hh && |z| == 3;
    HourScan(z);
    NotUtcWhenSecondIsDigit(z);
    ZoneOffsetByColon(z, clock, tm);
  }

  lemma ZoneOffsetByPacked(z: string, clock: Clock, tm: Tm)
    requires !StartsWithCaseless(z, "UTC") && !StartsWithCaseless(z, "GMT")
    requires CStr(z) != "+00:00" && CStr(z) != "+0000"
    requires |Sscanf(z, PackedZoneFormat).fields| == 3
    ensures var packed := Sscanf(z, PackedZoneFormat);
      ZoneOffset(z, clock, tm) == SignedOffset(CharOr(packed, 0), IntOr(packed, 1, 0), IntOr(packed, 2, 0))
  {
  }

  lemma ZoneOffsetByColon(z: string, clock: Clock, tm: Tm)
    requires !StartsWithCaseless(z, "UTC") && !StartsWithCaseless(z, "GMT")
    requires CStr(z) != "+00:00" && CStr(z) != "+0000"
    requires |Sscanf(z, PackedZoneFormat).fields| != 3
    requires |Sscanf(z, ColonZoneFormat).fields| >= 2
    ensures var colon := Sscanf(z, ColonZoneFormat);
      ZoneOffset(z, clock, tm) == SignedOffset(CharOr(colon, 0), IntOr(colon, 1, 0), IntOr(colon, 2, 0))
  {
  }

  /** A C string equal to a literal means the buffer starts with that literal. */
  lemma CStrPrefix(z: string, lit: string)
    ensures CStr(z) == lit ==> |lit| <= |z| && z[..|lit|] == lit
  {
  }

  /** A buffer whose C string is `+00:00` or `+0000` has sign `+` and hours and
      minutes worth 0, the minutes starting at `mi`. */
  lemma ZeroFormDigits(z: string, lit: string, mi: nat)
    requires (lit == "+0000" && mi == 3) || (lit == "+00:00" && mi == 4)
    requires CStr(z) == lit
    ensures |z| >= mi + 2 && z[0] == '+'
    ensures AllDigits(z[1..3]) && DigitsValue(z[1..3]) == 0
    ensures AllDigits(z[mi..mi + 2]) && DigitsValue(z[mi..mi + 2]) == 0
  {
    CStrPrefix(z, lit);
    ZeroFormPrefix(z, lit, mi);
  }

  lemma ZeroFormPrefix(z: string, lit: string, mi: nat)
    requires (lit == "+0000" && mi == 3) || (lit == "+00:00" && mi == 4)
    requires |lit| <= |z| && z[..|lit|] == lit
    ensures |z| >= mi + 2 && z[0] == '+'
    ensures AllDigits(z[1..3]) && DigitsValue(z[1..3]) == 0
    ensures AllDigits(z[mi..mi + 2]) && DigitsValue(z[mi..mi + 2]) == 0
  {
    assert lit[0] == '+' && lit[1] == '0' && lit[2] == '0' && lit[mi] == '0' && lit[mi + 1] == '0';
    assert z[0] == z[..|lit|][0];
    DoubleZero(z, 1, lit);
    DoubleZero(z, mi, lit);
  }

  /** A digit in the fourth place rules out `+00:00`. */
  lemma DigitNotColon(z: string)
    requires |z| >= 4 && IsDigit(z[3])
    ensures CStr(z) != "+00:00"
  {
    CStrPrefix(z, "+00:00");
  }

  lemma DoubleZero(z: string, i: nat, lit: string)
    requires i + 2 <= |lit| <= |z| && z[..|lit|] == lit && lit[i] == '0' && lit[i + 1] == '0'
    ensures AllDigits(z[i..i + 2]) && DigitsValue(z[i..i + 2]) == 0
  {
    var d := z[i..i + 2];
    assert d[0] == lit[i] && d[1] == lit[i + 1];
    assert d[..1] == "0";
  }

  /** Sign and four digits: the packed format reads all three fields. */
  lemma PackedScan(z: string)
    requires |z| >= 5 && z[0] != NUL && AllDigits(z[1..3]) && AllDigits(z[3..5])
    ensures Sscanf(z, PackedZoneFormat)
            == Scan([CharField(z[0]), IntField(DigitsValue(z[1..3])), IntField(DigitsValue(z[3..5]))], -1)
  {
    var h, m := DigitsValue(z[1..3]), DigitsValue(z[3..5]);
    ScanIntExact(z, 1, 2);
    ScanIntExact(z, 3, 2);
    var f := PackedZoneFormat;
    var a1 := Scan([CharField(z[0])], -1);
    var a2 := Scan([CharField(z[0]), IntField(h)], -1);
    var a3 := Scan([CharField(z[0]), IntField(h), IntField(m)], -1);
    assert f[1..][0] == Int(2) && f[1..][1..] == f[2..];
    assert f[2..][0] == Int(2) && f[2..][1..] == [];
    assert [] + a1.fields == a1.fields && a1.fields + [IntField(h)] == a2.fields && a2.fields + [IntField(m)] == a3.fields;
    RunCharStep(z, f, 0, Scan([], -1));
    assert Run(z, f, 0, Scan([], -1)) == Run(z, f[1..], 1, a1);
    RunIntStep(z, f[1..], 1, a1, h, 3);
    assert Run(z, f[1..], 1, a1) == Run(z, f[2..], 3, a2);
    RunIntStep(z, f[2..], 3, a2, m, 5);
    RunDone(z, [], 5, a3);
    assert Run(z, f[2..], 3, a2) == a3;
  }

  /** Sign, two digits, a colon and two digits: the packed format stops at the
      colon with two fields, the colon format reads three. */
  lemma ColonScan(z: string)
    requires |z| >= 6 && z[0] != NUL && AllDigits(z[1..3]) && z[3] == ':' && AllDigits(z[4..6])
    ensures |Sscanf(z, PackedZoneFormat).fields| == 2
    ensures Sscanf(z, ColonZoneFormat)
            == Scan([CharField(z[0]), IntField(DigitsValue(z[1..3])), IntField(DigitsValue(z[4..6]))], -1)
  {
    var h, m := DigitsValue(z[1..3]), DigitsValue(z[4..6]);
    ScanIntExact(z, 1, 2);
    ScanIntRejects(z, 3, 2);
    ScanIntExact(z, 4, 2);
    var f := PackedZoneFormat;
    RunCharStep(z, f, 0, Scan([], -1));
    RunIntStep(z, f[1..], 1, Scan([CharField(z[0])], -1), h, 3);
    assert f[1..][0] == Int(2) && f[1..][1..] == f[2..] && f[2..][0] == Int(2);
    RunIntStop(z, f[2..], 3, Scan([CharField(z[0]), IntField(h)], -1));
    var g := ColonZoneFormat;
    var a1 := Scan([CharField(z[0])], -1);
    var a2 := Scan([CharField(z[0]), IntField(h)], -1);
    var a3 := Scan([CharField(z[0]), IntField(h), IntField(m)], -1);
    assert g[1..][0] == Int(2) && g[1..][1..] == g[2..];
    assert g[2..][0] == Lit(':') && g[2..][1..] == g[3..];
    assert g[3..][0] == Int(2) && g[3..][1..] == [];
    assert [] + a1.fields == a1.fields && a1.fields + [IntField(h)] == a2.fields && a2.fields + [IntField(m)] == a3.fields;
    RunCharStep(z, g, 0, Scan([], -1));
    assert Run(z, g, 0, Scan([], -1)) == Run(z, g[1..], 1, a1);
    RunIntStep(z, g[1..], 1, a1, h, 3);
    assert Run(z, g[1..], 1, a1) == Run(z, g[2..], 3, a2);
    RunLitStep(z, g[2..], 3, a2);
    assert Run(z, g[2..], 3, a2) == Run(z, g[3..], 4, a2);
    RunIntStep(z, g[3..], 4, a2, m, 6);
    RunDone(z, [], 6, a3);
    assert Run(z, g[3..], 4, a2) == a3;
  }

  /** Sign and two digits, then the end: both formats read sign and hour only. */
  lemma HourScan(z: string)
    requires |z| == 3 && z[0] != NUL && AllDigits(z[1..3])
    ensures |Sscanf(z, PackedZoneFormat).fields| == 2
    ensures Sscanf(z, ColonZoneFormat) == Scan([CharField(z[0]), IntField(DigitsValue(z[1..3]))], -1)
    ensures CStr(z) != "+00:00" && CStr(z) != "+0000"
  {
    var h := DigitsValue(z[1..3]);
    ScanIntExact(z, 1, 2);
    ScanIntRejects(z, 3, 2);
    var f := PackedZoneFormat;
    RunCharStep(z, f, 0, Scan([], -1));
    RunIntStep(z, f[1..], 1, Scan([CharField(z[0])], -1), h, 3);
    assert f[1..][1..] == f[2..];
    RunIntStop(z, f[2..], 3, Scan([CharField(z[0]), IntField(h)], -1));
    var g := ColonZoneFormat;
    RunCharStep(z, g, 0, Scan([], -1));
    RunIntStep(z, g[1..], 1, Scan([CharField(z[0])], -1), h, 3);
    assert g[1..][1..] == g[2..];
    RunLitStop(z, g[2..], 3, Scan([CharField(z[0]), IntField(h)], -1));
    assert |CStr(z)| <= 3;
  }

  /** Anything else, such as `Europe/Berlin` or `EST5EDT`, is looked up as a named zone. */
  lemma NamedZoneOffset(zone: string, clock: Clock, tm: Tm)
    requires !StartsWithCaseless(zone, "UTC") && !StartsWithCaseless(zone, "GMT")
    requires var c := At(zone, 1); !IsDigit(c) && !IsSpace(c) && !IsSign(c)
    ensures ZoneOffset(zone, clock, tm) == ServerTzOffset(clock, tm, zone)
  {
    NamedScan(zone);
    CStrPrefix(zone, "+0000");
    CStrPrefix(zone, "+00:00");
    ZoneOffsetByName(zone, clock, tm);
  }

  lemma ZoneOffsetByName(z: string, clock: Clock, tm: Tm)
    requires !StartsWithCaseless(z, "UTC") && !StartsWithCaseless(z, "GMT")
    requires CStr(z) != "+00:00" && CStr(z) != "+0000"
    requires |Sscanf(z, PackedZoneFormat).fields| != 3
    requires |Sscanf(z, ColonZoneFormat).fields| < 2
    ensures ZoneOffset(z, clock, tm) == ServerTzOffset(clock, tm, z)
  {
  }

  /** A second character that `%02d` cannot start on stops both formats after the sign. */
  lemma NamedScan(z: string)
    requires var c := At(z, 1); !IsDigit(c) && !IsSpace(c) && !IsSign(c)
    ensures |Sscanf(z, PackedZoneFormat).fields| <= 1
    ensures |Sscanf(z, ColonZoneFormat).fields| <= 1
  {
    var f, g := PackedZoneFormat, ColonZoneFormat;
    if At(z, 0) == NUL {
      RunCharStop(z, f, 0, Scan([], -1));
      RunCharStop(z, g, 0, Scan([], -1));
    } else {
      var a1 := Scan([CharField(z[0])], -1);
      assert [] + a1.fields == a1.fields;
      assert f[1..][0] == Int(2) && g[1..][0] == Int(2);
      ScanIntRejects(z, 1, 2);
      RunCharStep(z, f, 0, Scan([], -1));
      RunIntStop(z, f[1..], 1, a1);
      RunCharStep(z, g, 0, Scan([], -1));
      RunIntStop(z, g[1..], 1, a1);
    }
  }

  /** A zone whose second character is a digit is neither UTC nor GMT. */
  lemma NotUtcWhenSecondIsDigit(z: string)
    requires |z| >= 2 && IsDigit(z[1])
    ensures !StartsWithCaseless(z, "UTC") && !StartsWithCaseless(z, "GMT")
  {
    if |CStr(z)| >= 3 {
      assert CStr(z)[1] == z[1];
    }
  }

  // ---------------------------------------------------------------------------
  // Fallback to the raw text

  /** When `sscanf` does not get as far as the day, the zeroed `tm_mday` sends
      the text back unchanged. */
  lemma ShortPrefixFallsBack(s: string, zone: Option<string>, clock: Clock)
    requires |Sscanf(s, PrefixFormat).fields| < 3
    ensures Decode(s, zone, clock) == Binary(s)
  {
  }

  // ---------------------------------------------------------------------------
  // Fractions

  /** Up to six fraction digits are scaled to microseconds exactly. */
  lemma MicrosExact(d: string)
    requires AllDigits(d) && |d| <= 6
    ensures Micros(d) == DigitsValue(d) * Pow10(6 - |d|)
    ensures Micros(d) < MicrosPerSecond
  {
    var p, q := Pow10(|d|), Pow10(6 - |d|);
    SixDigitScale(|d|);
    var v := DigitsValue(d);
    assert Atoll(d) == v;
    ScaledQuot(v, p, q);
    MulStrict(v, p, q);
  }

  /** `10^n * 10^(6-n)` is one second in microseconds. */
  lemma SixDigitScale(n: nat)
    requires n <= 6
    ensures Pow10(n) * Pow10(6 - n) == MicrosPerSecond
    ensures Pow10(n) <= MicrosPerSecond
  {
    Pow10Add(n, 6 - n);
    assert Pow10(6) == 1000000;
    Pow10Monotone(n, 6);
  }

  /** Rounding half up is exact when the quotient has no remainder. */
  lemma ScaledQuot(v: nat, p: nat, q: nat)
    requires p >= 1 && p * q == MicrosPerSecond
    ensures Quot(v * 2000000 + p, 2 * p) == v * q
  {
    MulRearrange(v, q, p);
    DivExact(v * q, 2 * p, p);
  }

  /** Seven or more digits are rounded, not truncated: `.9999995` and above
      become a full second's worth of microseconds. */
  lemma MicrosRoundsUpToSecond(n: nat)
    requires 9999995 <= n < 10000000
    ensures Micros(Digits(n, 7)) == MicrosPerSecond
  {
    var d := Digits(n, 7);
    assert Atoll(d) == n;
    assert Pow10(7) == 10000000;
    var num := 2 * n * MicrosPerSecond + 10000000;
    assert num == MicrosPerSecond * (2 * 10000000) + (2 * MicrosPerSecond * (n - 9999995));
    DivExact(MicrosPerSecond, 2 * 10000000, 2 * MicrosPerSecond * (n - 9999995));
  }
}
