/**
  Column type tags, their names (`result_field_types`), and the dispatch that
  turns one cell's bytes into a value (`typecast_field`).
 */
module Typecast {
  import opened Wrappers
  import opened CString
  import opened Clock
  import opened Values
  import opened Timestamp

  /** The driver's column type tags. The eight the decoder tells apart, text,
      and any other code the driver may report. */
  datatype TypeTag =
    | BooleanTag | IntTag | BlobTag | TimestampTag | DateTag | NumericTag | FloatTag | TimeTag
    | TextTag
    | OtherTag(code: int)

  /** The tags `result_field_types` has a case for. */
  predicate Switched(t: TypeTag) {
    !t.TextTag? && !t.OtherTag?
  }

  /** The name `result_field_types` reports for one tag; every tag without a case is "text". */
  function TypeName(t: TypeTag): (name: string)
    ensures name == "text" <==> !Switched(t)
  {
    match t
    case BooleanTag => "boolean"
    case IntTag => "integer"
    case BlobTag => "blob"
    case TimestampTag => "timestamp"
    case DateTag => "date"
    case NumericTag => "numeric"
    case FloatTag => "float"
    case TimeTag => "time"
    case _ => "text"
  }

  /** The tag a reported name stands for: the inverse of `TypeName` on the switched tags. */
  function TagNamed(name: string): (r: Option<TypeTag>)
    ensures r.Some? ==> Switched(r.value) && TypeName(r.value) == name
  {
    if name == "boolean" then Some(BooleanTag)
    else if name == "integer" then Some(IntTag)
    else if name == "blob" then Some(BlobTag)
    else if name == "timestamp" then Some(TimestampTag)
    else if name == "date" then Some(DateTag)
    else if name == "numeric" then Some(NumericTag)
    else if name == "float" then Some(FloatTag)
    else if name == "time" then Some(TimeTag)
    else None
  }

  /** Every switched tag has a name of its own, which gives the tag back; every
      other tag is reported as "text", a name no switched tag has. */
  lemma TypeNameRoundTrip(t: TypeTag)
    ensures Switched(t) ==> TagNamed(TypeName(t)) == Some(t)
    ensures TypeName(t) == "text" <==> !Switched(t)
    ensures !Switched(t) ==> TagNamed(TypeName(t)) == None
  {
  }

  /** Two switched tags share a name only when they are the same tag. */
  lemma TypeNameInjective(t1: TypeTag, t2: TypeTag)
    requires Switched(t1) && Switched(t2) && TypeName(t1) == TypeName(t2)
    ensures t1 == t2
  {
    TypeNameRoundTrip(t1);
    TypeNameRoundTrip(t2);
  }

  /** `result_field_types`: one name per column tag, in column order. */
  method FieldTypes(tags: seq<TypeTag>) returns (names: seq<string>)
    ensures |names| == |tags|
    ensures forall i :: 0 <= i < |tags| ==> names[i] == TypeName(tags[i])
    ensures forall i :: 0 <= i < |tags| ==> (names[i] == "text" <==> !Switched(tags[i]))
    ensures forall i :: 0 <= i < |tags| && Switched(tags[i]) ==> TagNamed(names[i]) == Some(tags[i])
  {
    names := [];
    var k := 0;
    while k < |tags|
      invariant 0 <= k <= |tags|
      invariant |names| == k
      invariant forall i :: 0 <= i < k ==> names[i] == TypeName(tags[i])
    {
      names := names + [TypeName(tags[k])];
      k := k + 1;
    }
    forall i | 0 <= i < |tags|
      ensures (names[i] == "text" <==> !Switched(tags[i]))
      ensures Switched(tags[i]) ==> TagNamed(names[i]) == Some(tags[i])
    {
      TypeNameRoundTrip(tags[i]);
    }
  }

  /** `typecast_field(type, data, length, timezone)` over the `length` bytes `s`
      of a cell that has data. Integer, numeric and float text is handed to Ruby
      and C conversions that read a C string; the model keeps that C string. */
  function Cast(t: TypeTag, s: string, zone: Option<string>, clock: Clock): (v: Value)
    ensures t.BooleanTag? ==> v.Bool? && (v.b <==> |s| > 0 && (s[0] == 't' || s[0] == '1'))
    ensures t.TimestampTag? ==> v == Decode(s, zone, clock)
    ensures t.DateTag? ==> v == ToDate(Decode(s, zone, clock))
    ensures !Switched(t) || t.TimeTag? ==> v == Utf8(s)
  {
    match t
    case BooleanTag => Bool(At(s, 0) == 't' || At(s, 0) == '1')
    case IntTag => Integer(CStr(s))
    case BlobTag => StringIO(s)
    case TimestampTag => Decode(s, zone, clock)
    case DateTag => ToDate(Decode(s, zone, clock))
    case NumericTag => Decimal(CStr(s))
    case FloatTag => Float(CStr(s))
    case _ => Utf8(s)
  }

  /** The kind of value a column of the named type decodes to. Timestamp text
      that is not a date comes back as the raw bytes; for a date column this
      says only which value `to_date` is called on, a Time or those bytes. */
  predicate KindFits(name: string, v: Value) {
    if name == "boolean" then v.Bool?
    else if name == "integer" then v.Integer?
    else if name == "blob" then v.StringIO?
    else if name == "timestamp" then v.Time? || v.Binary?
    else if name == "date" then v.ToDate? && (v.source.Time? || v.source.Binary?)
    else if name == "numeric" then v.Decimal?
    else if name == "float" then v.Float?
    else v.Utf8?
  }

  /** What `typecast_field` returns always has the kind `result_field_types`
      names for the same tag. */
  lemma CastFitsTypeName(t: TypeTag, s: string, zone: Option<string>, clock: Clock)
    ensures KindFits(TypeName(t), Cast(t, s, zone, clock))
  {
  }

  /** Text-like columns keep every byte, NULs included; blobs too. */
  lemma CastKeepsBytes(t: TypeTag, s: string, zone: Option<string>, clock: Clock)
    requires !Switched(t) || t.TimeTag? || t.BlobTag?
    ensures var v := Cast(t, s, zone, clock);
      (v.Utf8? && v.text == s) || (v.StringIO? && v.bytes == s)
  {
  }

  /** The numeric conversions see the bytes only up to the first NUL. */
  lemma CastNumericStopsAtNul(t: TypeTag, s: string, i: nat, zone: Option<string>, clock: Clock)
    requires t.IntTag? || t.NumericTag? || t.FloatTag?
    requires i < |s| && s[i] == NUL
    ensures Cast(t, s, zone, clock) == Cast(t, s[..i], zone, clock)
  {
    CStrBeforeNul(s, i);
  }

  /** A C string ends at the first NUL, so cutting the buffer at any NUL leaves it unchanged. */
  lemma {:induction false} CStrBeforeNul(s: string, i: nat)
    requires i < |s| && s[i] == NUL
    ensures CStr(s) == CStr(s[..i])
  {
    if i > 0 && s[0] != NUL {
      assert s[1..][i - 1] == NUL;
      CStrBeforeNul(s[1..], i - 1);
      assert s[..i][1..] == s[1..][..i - 1];
    }
  }
}
