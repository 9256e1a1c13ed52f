# Swift result materialisation and transaction sequencing, in Dafny

This project models the two pieces of sequential logic in the Swift Ruby
database extension:

- **Row materialisation** (`ext/result.cc`). `result_each` walks a driver
  result and builds one hash per row, keyed by field name. `typecast_field`
  turns each cell's bytes into a Ruby value, dispatching on the column's type
  tag. `result_field_types` names the tags. `typecast_timestamp` is the
  hand-written parser for `YYYY-MM-DD HH:MM:SS[.fraction][±HH[:| ]MM]`: it
  reads the fields, chooses a UTC offset and computes
  `epoch + adjust - offset`.
- **Transaction control** (`ext/adapter.cc`). `begin`, `commit` and `rollback`
  take an optional savepoint. The scoped `transaction` block issues `begin`,
  runs the caller's block, then issues `commit` or `rollback`. `prepare`
  shuffles its arguments.

Files:

- `cstring.dfy` (`Wrappers`, `CString`): how C code sees a byte buffer. Reads
  past the end return NUL. Also digit classes, `%0Nd` text and C strings.
- `scanf.dfy` (`Scanf`): an interpreter for the part of `sscanf` the decoder
  uses: `%Nd`, `%c`, literals, blanks and `%n`.
- `clock.dfy` (`Clock`, `Values`): `client_tzoffset` and `server_tzoffset` on
  top of an abstract `mktime`/`gmtime` pair, and the Ruby values a cell
  decodes to.
- `timestamp.dfy` (`Timestamp`): `Parse` holds the syntax. `Decode` is
  `typecast_timestamp` itself: it picks the offset and falls back to the raw
  text.
- `timestamp_text.dfy` (`TimestampText`): what `Parse` reads from
  well-formed text, position by position. `Format` is a canonical rendering,
  and `ParseFormat` proves it reads back.
- `typecast.dfy` (`Typecast`): the type tags, their names and the cell
  dispatch.
- `result.dfy` (`Rows`): the row and column loop.
- `adapter.dfy` (`Adapter`): the transaction sequencer and `prepare`.

`mktime` and `gmtime` belong to the C library and the time-zone database. A
`Clock` value carries them as plain functions. The properties stated
without a zone premise hold whatever those functions do. The ones about the
instant a text names assume a coherent clock: `Clock.FixedZone` for a zone at
a fixed offset, or `Clock.DstZone` for one that moves ahead on DST fields. The caller of `transaction` also supplies some
inputs as plain values:

- the outcome of the block;
- the handle's open-transaction count after the block;
- which handle calls the driver rejects;
- the generated UUID.

The outcome of a `transaction` call is its trace of handle calls plus a
return value or a raised error.

## Model

| member | source | states |
|---|---|---|
| Timestamp.Parse | ext/result.cc:186-226 | At most 31 fraction digits are kept. If the prefix scan never reaches `%n`, there is neither fraction nor suffix. Fields the scan never reached stay 0, so a scan that stops before the day leaves the day at 0. |
| Timestamp.Micros | ext/result.cc:201 | The microseconds are the integer nearest to `atoll(digits) * 10^6 / 10^n`, and a value exactly halfway goes up. |
| Timestamp.ZoneOffset | ext/result.cc:233-247 | A zone that is not looked up by name stands for a fixed offset of at most 99 hours and 99 minutes either way, because `%02d` reads two characters at most. An empty zone matches none of the fixed forms and is looked up through `server_tzoffset`. |
| Timestamp.EffectiveOffset | ext/result.cc:228-248 | The offset follows the priority: a written suffix, then the caller zone, then the client offset, which cancels the adjustment. |
| Timestamp.Decode | ext/result.cc:179-255 | The result is raw text exactly when the parsed day is not positive, and then it is the whole input. Otherwise it is a Time whose microseconds come from the fraction digits, and whose seconds plus the chosen offset equal `mktime`'s epoch plus the client offset. |
| Timestamp.FractionDigits | ext/result.cc:191-200 | The fraction is a run of at most 31 digits taken from the text right after the `.`. It ends at a non-digit unless the 31-digit limit stops it. |
| Timestamp.MicrosExact | ext/result.cc:201 | Up to six fraction digits scale exactly: the microseconds are the digits' value times 10^(6-n), and stay below one second. |
| Timestamp.MicrosRoundsUpToSecond | ext/result.cc:201 | Seven digits from 9999995 up are rounded, not truncated, to a full second's worth of microseconds. |
| Timestamp.ScanSuffix | ext/result.cc:213-226 | A suffix always carries a sign character and hour and minute values of at most two digits each. |
| Timestamp.NoSignNoSuffix | ext/result.cc:213-228 | There is no suffix exactly when no `+` or `-` appears before the terminating NUL. |
| Timestamp.FindSignFirst | ext/result.cc:215 | The sign search stops at the first sign of the C string, and finds none only when the C string has none. |
| Timestamp.SuffixOverridesZone | ext/result.cc:228-232 | With a suffix, the caller zone plays no part. The offset is plus or minus `h*3600 + m*60`, and only `+` is positive. |
| Timestamp.NoSuffixNoZoneIsLocal | ext/result.cc:208-210 | With neither suffix nor zone, the offset is the client offset, so the seconds are `mktime`'s epoch itself. |
| Timestamp.UtcZoneAddsClientOffset | ext/result.cc:233-235 | A zone starting with UTC or GMT in any case means offset 0, so the client offset is added to the epoch. |
| Timestamp.ZeroZonesAreUtc | ext/result.cc:236-237 | A zone that is exactly `+00:00` or `+0000` means offset 0. |
| Timestamp.PackedZoneOffset | ext/result.cc:238-241 | A zone of a sign and four digits gives that fixed offset, negative unless the first character is `+`. |
| Timestamp.ColonZoneOffset | ext/result.cc:238-245 | A zone `±HH:MM` defeats the packed format and gives hours and minutes through the colon format. |
| Timestamp.HourZoneOffset | ext/result.cc:242-245 | A zone `±HH` alone assigns two fields, so the minutes stay 0. |
| Timestamp.NamedZoneOffset | ext/result.cc:246-247 | A zone whose second character cannot start `%02d` is looked up as a named zone through `server_tzoffset`. |
| Timestamp.ShortPrefixFallsBack | ext/result.cc:186-207 | If the prefix scan assigns fewer than three fields, the zeroed day sends back the raw text. |
| TimestampText.PrefixScan | ext/result.cc:187-188 | Over `YYYY-MM-DD HH:MM:SS`, the prefix scan assigns all six numbers as written and `%n` lands at 19. |
| TimestampText.IsoScan | ext/result.cc:187-188 | With a `T` between date and time, the scan stops after the day and `%n` is never reached. |
| TimestampText.ScanSuffixAt | ext/result.cc:213-226 | The suffix scan reads a sign and two hour digits, skips any non-digit separators, then reads two minute digits. |
| TimestampText.ScanSuffixHourOnly | ext/result.cc:217-225 | A sign and two hour digits at the very end leave the minutes at 0. |
| TimestampText.ParseFullLayout | ext/result.cc:186-226 | In the full layout, `Parse` returns every field as written, the fraction digits and the suffix. The microseconds are the fraction's value scaled. |
| TimestampText.ParsePrefixOnly | ext/result.cc:187-213 | Exactly `YYYY-MM-DD HH:MM:SS` parses with no fraction and no suffix. |
| TimestampText.ParseSuffixNoFraction | ext/result.cc:186-226 | `YYYY-MM-DD HH:MM:SS±HH[sep]MM`, as in `2012-06-15 14:30:00+02:00`, parses with every field as written, no fraction and the written suffix. |
| TimestampText.ParseHourSuffix | ext/result.cc:186-226 | `YYYY-MM-DD HH:MM:SS±HH` at the end parses with its hours and zero minutes. |
| TimestampText.ParseFractionNoSuffix | ext/result.cc:186-226 | A prefix followed by a `.` and one to six digits, with no sign after them, parses with that fraction and no suffix. The microseconds are the digits scaled. |
| TimestampText.IsoSeparatorDropsTime | ext/result.cc:187-191 | ISO text with a `T` loses its time of day, fraction and offset. |
| TimestampText.ParseFormat | ext/result.cc:186-226 | Parsing the canonical rendering of a stamp gives back every field, including the microseconds and the offset. |
| TimestampText.DecodeFormat | ext/result.cc:207-250 | Decoding the canonical rendering gives the microseconds written, and seconds equal to `mktime`'s epoch plus the client offset minus the written offset, whatever the caller zone. |
| TimestampText.SuffixUnderShiftedDstClock | ext/result.cc:139-144 | Under a process zone whose DST shift is any `shift`, text with a suffix decodes to its fields read as UTC minus the written offset, plus `3600 - shift` seconds on DST fields. With a half-hour shift the result is 30 minutes late. |
| TimestampText.SuffixUnderDstClock | ext/result.cc:207-250 | When the process zone is a fixed offset with a one-hour daylight-saving rule, text with a suffix decodes to its fields read as UTC minus the written offset, in and out of DST. |
| TimestampText.DecodeFormatInstant | ext/result.cc:207-250 | Under such a process zone, decoding the canonical rendering gives exactly the instant it names: its fields read as UTC minus the written offset. The process zone, its DST and the caller zone do not change the result. |
| TimestampText.ZeroDateFallsBack | ext/result.cc:207 | `0000-00-00 00:00:00` comes back as its raw text. |
| TimestampText.PlainTextIsLocal | ext/result.cc:207-250 | Plain `YYYY-MM-DD HH:MM:SS` with no zone decodes to `mktime`'s epoch with 0 microseconds. |
| Clock.ClientOffsetOfFixedZone | ext/result.cc:140-145 | In a zone a fixed `east` seconds ahead of UTC, the client offset is `east` at every instant, plus one hour under the DST flag. |
| Clock.ClientOffsetOfShiftedDst | ext/result.cc:139-145 | In a zone that moves ahead by any shift on DST fields, the client offset taken at `mktime`'s reading of some fields is the standard offset plus exactly one hour on DST fields, not plus the zone's own shift. |
| Clock.ClientOffsetOfDstZone | ext/result.cc:139-145 | In a zone with a one-hour daylight-saving rule, the client offset taken at `mktime`'s reading of some fields is the zone's standard offset, plus the hour when those fields fall in DST. The `+3600` correction undoes exactly the hour `mktime` took off. |
| Clock.ServerOffsetOfFixedZone | ext/result.cc:148-177 | When the named zone is a fixed `east` seconds ahead of UTC, the server offset is `east`, plus an hour when `mktime` flags the fields as DST. The caller's own DST flag plays no part. |
| Clock.ServerOffsetOfDstZone | ext/result.cc:147-177 | When the named zone has a one-hour daylight-saving rule, the server offset is its standard offset, plus the hour exactly when the fields fall in DST there. The caller's own DST flag plays no part. |
| Clock.TzValue | ext/result.cc:162 | The installed `TZ` value is `:` then the zone's C string, cut to the 511 characters the buffer holds. |
| Clock.ServerOffsetIgnoresProcessZone | ext/result.cc:148-177 | The server offset depends only on how the clock behaves under the named zone. The process zone plays no part, because `TZ` is set to the named zone before `mktime` runs. |
| Typecast.TypeName | ext/result.cc:106-133 | A tag is named "text" exactly when the switch has no case for it. |
| Typecast.FieldTypes | ext/result.cc:100-137 | There is one name per tag, in order. A name is "text" exactly for tags without a case, and every other name maps back to its tag. |
| Typecast.TypeNameRoundTrip | ext/result.cc:106-133 | Each switched tag's name gives back the tag. Only unswitched tags are called "text". |
| Typecast.TypeNameInjective | ext/result.cc:106-130 | Two switched tags never share a name. |
| Typecast.Cast | ext/result.cc:266-288 | A boolean is true exactly when the first byte is `t` or `1`. Timestamps go to the decoder, and dates are its result passed to `to_date`. Time, text and unknown tags give the bytes unchanged as UTF-8 text. |
| Typecast.CastFitsTypeName | ext/result.cc:266-288 | Each decoded value has the kind `result_field_types` names for the same tag. |
| Typecast.CastKeepsBytes | ext/result.cc:272-286 | Text-like and blob cells keep every byte, NULs included. |
| Typecast.CastNumericStopsAtNul | ext/result.cc:270-281 | Integer, numeric and float cells see their bytes only up to the first NUL. |
| Rows.Each | ext/result.cc:58-97 | The loop seeks to row 0 first, then yields exactly one record per row in row order. Each record goes through `scheme.load` when a scheme is set. |
| Rows.CellValue | ext/result.cc:79-89 | A cell reads as nil exactly when it has no data, because no cast of actual bytes gives nil. A cell with data holds its cast, which has the kind the column's type name promises. |
| Rows.RowRecord | ext/result.cc:77-91 | A row's record is keyed by exactly the names of its columns. |
| Rows.RecordKeys | ext/result.cc:72-90 | A record's keys are exactly its columns' field names, as C strings. |
| Rows.RecordLastWins | ext/result.cc:78-90 | Each name holds the value of the last column that carries it. |
| Rows.RowRecordColumns | ext/result.cc:78-90 | With distinct field names, a record has one entry per column, holding that column's cell, and a missing cell reads as nil. |
| Adapter.BeginCall | ext/adapter.cc:10-19 | `begin` issues the unnamed call for nil, and otherwise the named call with the argument's C string. |
| Adapter.CommitCall | ext/adapter.cc:32-41 | `commit` does the same for its call. |
| Adapter.RollbackCall | ext/adapter.cc:150-159 | `rollback` does the same for its call. |
| Adapter.DirectCallsAgree | ext/adapter.cc:16 | The unnamed variant is chosen exactly for nil, and one argument names the same savepoint in all three calls. |
| Adapter.SavePointName | ext/adapter.cc:168 | The savepoint is the caller's C string, or "SP" followed by the UUID. |
| Adapter.GeneratedNamesDiffer | ext/adapter.cc:168 | Distinct UUIDs give distinct generated names. |
| Adapter.Transaction | ext/adapter.cc:161-183 | The block runs exactly when one was given and `begin` was accepted. A normal return is always true and comes after the block. |
| Adapter.TransactionBracketed | ext/adapter.cc:161-183 | The trace is empty or starts with a named `begin` before the block. It has at most one `commit` or `rollback`, all on the same savepoint. |
| Adapter.NoBlockNoCalls | ext/adapter.cc:164-165 | Without a block, ArgumentError is raised before any handle call. |
| Adapter.RejectedBeginSkipsBlock | ext/adapter.cc:169-180 | A rejected `begin` raises the driver's error, and the block never runs. |
| Adapter.SuccessCommits | ext/adapter.cc:172-174 | If the block succeeds with a transaction open, there is one `commit` and no `rollback`. The call returns true exactly when the commit is accepted. |
| Adapter.FailureRollsBackAndReraises | ext/adapter.cc:175-178 | If the block fails with a transaction open, there is one `rollback`, then the block's failure is raised again unchanged. A rejected rollback's error replaces it. |
| Adapter.ClosedTransactionReturnsTrue | ext/adapter.cc:172-182 | With no transaction open after the block, there is neither commit nor rollback, and the call returns true even if the block failed. |
| Adapter.BlockFailureRaisedOnlyAfterRollback | ext/adapter.cc:171-178 | The block's failure reaches the caller exactly when a rollback was issued and accepted. |
| Adapter.PrepareArgs | ext/adapter.cc:129-136 | One or two arguments are accepted, and any other count raises ArgumentError. The scheme ends up nil or a class. |
| Adapter.PrepareArgsShuffle | ext/adapter.cc:132-136 | A class first makes it the scheme, with the second argument as the SQL. Anything else first is the SQL, the scheme is nil and the second argument is dropped. |

## Left out

- `mktime`, `gmtime_r`, `setenv`/`unsetenv` of `TZ` and `tzset` are not modelled. They are the C library and the time-zone database, so a `Clock` value supplies them. Restoring the saved `TZ` is not modelled either, because the model never mutates the process zone. The 511-character truncation of the saved value is not modelled.
- Timestamp.Micros: the source rounds `atoll(digits) * (1000000 / pow(10, n))` in double precision. The model rounds the exact rational half up, so the two can differ at the last unit for long fractions. The same holds for Timestamp.MicrosRoundsUpToSecond. `atoll` saturation at `LLONG_MAX` is modelled.
- Timestamp.Decode: 64-bit `time_t` arithmetic and the `int` fields of `struct tm` are unbounded integers here, so overflow on absurd years is not modelled.
- Timestamp.ScanSuffix: with no sign, `tzsign = *ptr++` reads the terminating NUL (ext/result.cc:215-216), so there is no suffix; the model keeps that. The pointer then sits past the terminator, and the digit scan that follows reads memory beyond the text. That read is undefined behaviour in C and is not modelled: the model takes it to find no digits, so `tzhour` and `tzmin` stay 0.
- Timestamp.HourZoneOffset: a `±HH` caller zone leaves `tzmin` as it was (ext/result.cc:242-245). The model takes it to be 0, which holds only when the read past the terminator described above finds no digit. If it finds one, the source adds a stale minute count.
- TimestampText.DecodeFormatInstant: proved only for zones whose DST rule is a whole hour (`Clock.HourDstZone`), because `client_tzoffset` adds a fixed 3600 seconds under DST; the source notes that this fails for half-hour shifts (ext/result.cc:142). TimestampText.SuffixUnderShiftedDstClock states what happens for any other shift: DST fields decode `3600 - shift` seconds late, 30 minutes for a half-hour shift.
- The `WARNING` line printed on a timestamp that does not parse is left out (I/O).
- Typecast.Cast: what `to_date` returns for a date column is not modelled; the model keeps the value it is called on. When the text falls back (a day that is not positive, such as `0000-00-00`), `to_date` is called on a String rather than a Time, and whether that raises depends on the Ruby libraries loaded.
- Integer, float and numeric conversions (`rb_cstr2inum`, `atof`, `BigDecimal.new`) and `StringIO.new` are Ruby or libc calls. The model keeps the text each one receives. Ruby's integer parsing is not modelled.
- The raw numeric values of the driver's type tags are defined in a driver header that is not part of this model. Tags are a datatype.
- Rows.Each: driver exceptions caught by `CATCH_DBI_EXCEPTIONS`, the block's own effects and the order of keys in a Ruby hash are not modelled. The cursor's row and column counts are taken as fixed during the loop.
- `scheme.load(tuple)` is Ruby code. The model records the tuple passed to it.
- `adapter_begin`, `adapter_commit` and `adapter_rollback` fall off the end without a `return`. The model states only which handle call they issue.
- Adapter.FailureRollsBackAndReraises: when the driver rejects the rollback, the code raises the rollback's error instead of the block's. The model follows the code: the rollback's error replaces the block's.
- Adapter.Transaction: the block can itself call the handle. The model sees only the open-transaction count it leaves behind. UUID generation is a parameter.
- The "Invalid object" raise of `adapter_handle` and `result_handle` (ext/adapter.cc:101, ext/result.cc:43) is not modelled: the handle is taken to be valid. Nor are the arity errors `rb_scan_args` raises in `begin`, `commit`, `rollback` and `transaction` (ext/adapter.cc:12, 34, 152, 164); only `prepare`'s argument count is modelled.
- `adapter_prepare`: preparing the statement on the driver and wrapping the result are not modelled. Only the argument normalisation is.
- Object lifecycle and GC glue are not modelled: `result_mark`, `result_free`, `result_alloc`, `result_wrap_handle`, clone and dup refusals, and `init_*`.
- Driver delegation is not modelled either, because it has no logic of its own: `adapter_execute`, `adapter_write`, `adapter_escape`, `adapter_initialize`, `adapter_close`, `result_insert_id`, `result_rows`, `result_columns` and `result_fields`.
- `lib/swift/attribute.rb` and `examples/resource.rb` are Ruby metaprogramming and a usage script. They are not part of this model.
- `CSTRING` is not part of this model. It is taken to give the bytes of a Ruby string up to its first NUL.
