/**
  The process time-zone machinery the decoder leans on. `mktime` and `gmtime`
  come from the C library and the time-zone database, so they are left
  abstract: a `Clock` value carries them. What ext/result.cc builds on top of
  them, `client_tzoffset` and `server_tzoffset`, is modelled exactly.
 */
module Clock {
  import opened CString

  /** `struct tm` as the source fills it: years since 1900, months from 0. */
  datatype Tm = Tm(year: int, mon: int, mday: int, hour: int, min: int, sec: int, isdst: int)

  /** The `TZ` setting `mktime` runs under: the process's own, or an explicit `TZ` value. */
  datatype TzSetting = ProcessZone | TzVariable(value: string)

  /** What `mktime(&tm)` yields: the epoch seconds, and the fields it writes back
      (normalised, with `tm_isdst` resolved). */
  datatype MkTime = MkTime(epoch: int, tm: Tm)

  datatype Clock = Clock(mktime: (TzSetting, Tm) -> MkTime, gmtime: int -> Tm)

  const HourSeconds := 3600

  /** Longest `TZ` value the 512-byte buffer of `server_tzoffset` holds. */
  const TzBufferChars := 511

  /** `client_tzoffset(local, isdst)`: the zone's offset at `local`, read by
      converting the UTC breakdown of `local` back as local time, plus one hour
      when the instant is in daylight-saving time. */
  function ClientTzOffset(c: Clock, tz: TzSetting, local: int, isdst: int): (off: int)
    ensures off + c.mktime(tz, c.gmtime(local)).epoch == local + (if isdst != 0 then HourSeconds else 0)
  {
    local + (if isdst != 0 then HourSeconds else 0) - c.mktime(tz, c.gmtime(local)).epoch
  }

  /** A zone a fixed `east` seconds ahead of UTC, measured against a calendar
      `utc` that turns broken-down fields into epoch seconds: `mktime` under the
      zone reads any fields `east` seconds before their UTC reading, and
      `gmtime` breaks an instant down to fields `utc` reads back as that instant. */
  ghost predicate FixedZone(c: Clock, tz: TzSetting, utc: Tm -> int, east: int) {
    && (forall t :: c.mktime(tz, t).epoch == utc(t) - east)
    && (forall x :: utc(c.gmtime(x)) == x)
  }

  /** In a zone a fixed `east` seconds ahead of UTC, the client offset is
      `east` at every instant, plus one hour when the instant is flagged as
      daylight-saving time. */
  lemma ClientOffsetOfFixedZone(c: Clock, tz: TzSetting, utc: Tm -> int, east: int, local: int, isdst: int)
    requires FixedZone(c, tz, utc, east)
    ensures isdst == 0 ==> ClientTzOffset(c, tz, local, isdst) == east
    ensures isdst != 0 ==> ClientTzOffset(c, tz, local, isdst) == east + HourSeconds
  {
    var t := c.gmtime(local);
    assert c.mktime(tz, t).epoch == utc(t) - east;
    assert utc(t) == local;
  }

  /** A zone `east` seconds ahead of UTC that moves `shift` seconds further
      ahead on the fields `dst` marks, as a daylight-saving zone does. Asked to
      resolve DST itself (`tm_isdst` of -1), `mktime` subtracts the shift on
      those fields and reports the flag; told DST is off (`tm_isdst` of 0), it
      reads the fields as standard time. `gmtime` breaks an instant down with
      the flag off, to fields `utc` reads back as that instant. */
  ghost predicate DstZone(c: Clock, tz: TzSetting, utc: Tm -> int, east: int, dst: Tm -> bool, shift: int) {
    && (forall t: Tm :: t.isdst == -1 ==>
          && c.mktime(tz, t).epoch == utc(t) - east - (if dst(t) then shift else 0)
          && (c.mktime(tz, t).tm.isdst != 0 <==> dst(t)))
    && (forall t: Tm :: t.isdst == 0 ==> c.mktime(tz, t).epoch == utc(t) - east)
    && (forall x :: c.gmtime(x).isdst == 0 && utc(c.gmtime(x)) == x)
  }

  /** The usual daylight-saving rule: one hour ahead in summer. */
  ghost predicate HourDstZone(c: Clock, tz: TzSetting, utc: Tm -> int, east: int, dst: Tm -> bool) {
    DstZone(c, tz, utc, east, dst, HourSeconds)
  }

  /** Whatever the zone's DST shift, the client offset taken at what `mktime`
      makes of some fields is `east`, plus one hour when those fields fall in
      DST: the correction is a fixed hour, not the zone's own shift. */
  lemma ClientOffsetOfShiftedDst(c: Clock, tz: TzSetting, utc: Tm -> int, east: int, dst: Tm -> bool, shift: int, t: Tm)
    requires DstZone(c, tz, utc, east, dst, shift) && t.isdst == -1
    ensures var local := c.mktime(tz, t);
      ClientTzOffset(c, tz, local.epoch, local.tm.isdst) == east + (if dst(t) then HourSeconds else 0)
  {
    var local := c.mktime(tz, t);
    var g := c.gmtime(local.epoch);
    assert g.isdst == 0 && utc(g) == local.epoch;
    assert c.mktime(tz, g).epoch == local.epoch - east;
  }

  /** With a one-hour rule, the client offset is the zone's true offset at those
      fields: the `+3600` correction undoes exactly the hour `mktime` took off. */
  lemma ClientOffsetOfDstZone(c: Clock, tz: TzSetting, utc: Tm -> int, east: int, dst: Tm -> bool, t: Tm)
    requires HourDstZone(c, tz, utc, east, dst) && t.isdst == -1
    ensures var local := c.mktime(tz, t);
      ClientTzOffset(c, tz, local.epoch, local.tm.isdst) == east + (if dst(t) then HourSeconds else 0)
  {
    ClientOffsetOfShiftedDst(c, tz, utc, east, dst, HourSeconds, t);
  }

  /** A clock meeting `DstZone`: fields are plain seconds, and every field with
      a positive month is in DST. */
  function SampleDstClock(east: int, shift: int): Clock {
    Clock(
      (tz: TzSetting, t: Tm) =>
        if t.isdst == -1 then
          MkTime(t.sec - east - (if t.mon > 0 then shift else 0), t.(isdst := if t.mon > 0 then 1 else 0))
        else MkTime(t.sec - east, t),
      (x: int) => Tm(0, 0, 0, 0, 0, x, 0))
  }

  /** `DstZone` can be met, in every zone setting and for every offset and shift. */
  lemma SampleDstClockIsDstZone(east: int, shift: int, tz: TzSetting)
    ensures DstZone(SampleDstClock(east, shift), tz, (t: Tm) => t.sec, east, (t: Tm) => t.mon > 0, shift)
  {
  }

  /** The `TZ` value `server_tzoffset` installs: `snprintf(buffer, 512, ":%s", zone)`. */
  function TzValue(zone: string): (v: string)
    ensures 1 <= |v| <= TzBufferChars && v[0] == ':'
    ensures |v| - 1 <= |CStr(zone)| && v[1..] == CStr(zone)[..|v| - 1]
    ensures |CStr(zone)| < TzBufferChars ==> v == ":" + CStr(zone)
    ensures |CStr(zone)| >= TzBufferChars ==> |v| == TzBufferChars
  {
    var full := ":" + CStr(zone);
    if |full| > TzBufferChars then full[..TzBufferChars] else full
  }

  /** `server_tzoffset(tm, zone)`: with `TZ` switched to `zone`, convert the
      same calendar fields (DST left to `mktime`) and take the client offset
      there. The process setting is restored afterwards, which the model gets
      for free: it is never changed. */
  function ServerTzOffset(c: Clock, tm: Tm, zone: string): (off: int)
    ensures var tz := TzVariable(TzValue(zone)); var local := c.mktime(tz, tm.(isdst := -1));
      off + c.mktime(tz, c.gmtime(local.epoch)).epoch
        == local.epoch + (if local.tm.isdst != 0 then HourSeconds else 0)
  {
    var tz := TzVariable(TzValue(zone));
    var local := c.mktime(tz, tm.(isdst := -1));
    ClientTzOffset(c, tz, local.epoch, local.tm.isdst)
  }

  /** When the named zone is a fixed `east` seconds ahead of UTC, the server
      offset is `east`, plus one hour when `mktime` under that zone flags the
      fields as daylight-saving time; the caller's own `tm_isdst` plays no part. */
  lemma ServerOffsetOfFixedZone(c: Clock, tm: Tm, zone: string, utc: Tm -> int, east: int)
    requires FixedZone(c, TzVariable(TzValue(zone)), utc, east)
    ensures var dst := c.mktime(TzVariable(TzValue(zone)), tm.(isdst := -1)).tm.isdst;
      ServerTzOffset(c, tm, zone) == east + (if dst != 0 then HourSeconds else 0)
  {
    var tz := TzVariable(TzValue(zone));
    var local := c.mktime(tz, tm.(isdst := -1));
    ClientOffsetOfFixedZone(c, tz, utc, east, local.epoch, local.tm.isdst);
  }

  /** When the named zone has a one-hour daylight-saving rule, the server
      offset is its standard offset, plus the hour exactly when the fields fall
      in DST there; the caller's own `tm_isdst` plays no part. */
  lemma ServerOffsetOfDstZone(c: Clock, tm: Tm, zone: string, utc: Tm -> int, east: int, dst: Tm -> bool)
    requires HourDstZone(c, TzVariable(TzValue(zone)), utc, east, dst)
    ensures ServerTzOffset(c, tm, zone) == east + (if dst(tm.(isdst := -1)) then HourSeconds else 0)
  {
    ClientOffsetOfDstZone(c, TzVariable(TzValue(zone)), utc, east, dst, tm.(isdst := -1));
  }

  /** The server offset depends on the process clock only through the named
      zone: two clocks that agree under that zone give the same offset, whatever
      their process zones do. */
  lemma ServerOffsetIgnoresProcessZone(c1: Clock, c2: Clock, tm: Tm, zone: string)
    requires forall t :: c1.mktime(TzVariable(TzValue(zone)), t) == c2.mktime(TzVariable(TzValue(zone)), t)
    requires forall x :: c1.gmtime(x) == c2.gmtime(x)
    ensures ServerTzOffset(c1, tm, zone) == ServerTzOffset(c2, tm, zone)
  {
    var tz := TzVariable(TzValue(zone));
    var local := c1.mktime(tz, tm.(isdst := -1));
    assert local == c2.mktime(tz, tm.(isdst := -1));
    assert c1.mktime(tz, c1.gmtime(local.epoch)) == c2.mktime(tz, c2.gmtime(local.epoch));
  }
}

/** The Ruby values a cell decodes to. */
module Values {

  datatype Value =
    | Nil
    | Bool(b: bool)
    /** `rb_cstr2inum(text, 10)`: Integer parsing is Ruby's; the model keeps its input. */
    | Integer(text: string)
    /** `rb_float_new(atof(text))` */
    | Float(text: string)
    /** `BigDecimal.new(text)` */
    | Decimal(text: string)
    /** `StringIO.new(bytes)` */
    | StringIO(bytes: string)
    /** A String tagged UTF-8 (`rb_enc_str_new`). */
    | Utf8(text: string)
    /** A String without an encoding tag (`rb_str_new`). */
    | Binary(bytes: string)
    /** `rb_time_new(seconds, usec)`. Ruby carries a `usec` of 1000000 or more into
        the seconds, so `Time(s, 1000000)` and `Time(s + 1, 0)` are the same Ruby
        value; the model keeps the two arguments as passed. */
    | Time(seconds: int, usec: int)
    /** `source.to_date`, kept as the call on `source`: its outcome is Ruby's. */
    | ToDate(source: Value)
}
