/**
  The part of C's `sscanf` that the decoder relies on: `%Nd` (skip whitespace,
  optional sign, at most N characters), `%c`, literal characters, a blank in the
  format (skip any whitespace) and `%n` (record the characters consumed so far).
  Conversions are applied left to right and scanning stops at the first
  directive that does not match; the fields assigned before that point keep
  their values.
 */
module Scanf {
  import opened Wrappers
  import opened CString

  type Width = w: nat | w >= 1 witness 1

  datatype Directive = Int(width: Width) | Char | Lit(c: char) | Spaces | Count

  datatype Field = IntField(i: int) | CharField(c: char)

  /** The fields assigned, in order, and the `%n` value (-1 when never reached). */
  datatype Scan = Scan(fields: seq<Field>, count: int)

  /** The first position at or after `pos` that is not whitespace. */
  function SkipSpaces(s: string, pos: nat): (p: nat)
    ensures pos <= p
    ensures !IsSpace(At(s, p))
    ensures p == pos || p <= |s|
    decreases |s| - pos
  {
    if pos < |s| && IsSpace(s[pos]) then SkipSpaces(s, pos + 1) else pos
  }

  /** The number of consecutive digits of `s` from `start`, stopping after `room` of them. */
  function DigitRun(s: string, start: nat, room: nat): (n: nat)
    ensures n <= room
    ensures n == 0 || start + n <= |s|
    decreases room, |s|
  {
    if room > 0 && IsDigit(At(s, start)) then 1 + DigitRun(s, start + 1, room - 1) else 0
  }

  /** `DigitRun` stops at the first non-digit, or when the room is used up:
      everything it counted is a digit. */
  lemma {:induction false} DigitRunDigits(s: string, start: nat, room: nat)
    ensures var n := DigitRun(s, start, room);
      && (n > 0 ==> AllDigits(s[start..start + n]))
      && (n < room ==> !IsDigit(At(s, start + n)))
    decreases room
  {
    if room > 0 && IsDigit(At(s, start)) {
      var m := DigitRun(s, start + 1, room - 1);
      DigitRunDigits(s, start + 1, room - 1);
      if m > 0 {
        assert s[start..start + 1 + m] == [s[start]] + s[start + 1..start + 1 + m];
        AllDigitsCons(s[start], s[start + 1..start + 1 + m]);
      } else {
        assert s[start..start + 1] == [s[start]];
      }
    }
  }

  lemma AllDigitsCons(c: char, d: string)
    requires IsDigit(c) && AllDigits(d)
    ensures AllDigits([c] + d)
  {
    assert forall i :: 0 < i < |d| + 1 ==> ([c] + d)[i] == d[i - 1];
  }

  /** The value of the digits `DigitRun` finds (0 when there are none). */
  function RunValue(s: string, start: nat, room: nat): (v: nat)
    ensures v < Pow10(DigitRun(s, start, room))
  {
    var n := DigitRun(s, start, room);
    if n == 0 then 0
    else
      DigitRunDigits(s, start, room);
      DigitsValue(s[start..start + n])
  }

  /** `%Nd` at position `pos`: the value read and the position after it, or None on a mismatch. */
  function ScanInt(s: string, pos: nat, width: Width): (r: Option<(int, nat)>)
    ensures r.Some? ==> pos < r.value.1 <= |s|
    ensures r.Some? ==> -(Pow10(width) as int) < r.value.0 < Pow10(width)
  {
    var p := SkipSpaces(s, pos);
    var signed := At(s, p) == '+' || At(s, p) == '-';
    var start := if signed then p + 1 else p;
    var n := DigitRun(s, start, if signed then width - 1 else width);
    if n == 0 then None
    else
      var magnitude := RunValue(s, start, if signed then width - 1 else width);
      assert magnitude < Pow10(width) by { Pow10Monotone(n, width); }
      Some((if At(s, p) == '-' then -(magnitude as int) else magnitude as int, start + n))
  }

  lemma {:induction false} Pow10Monotone(a: nat, b: nat)
    requires a <= b
    ensures Pow10(a) <= Pow10(b)
    decreases b
  {
    if a < b {
      Pow10Monotone(a, b - 1);
    }
  }

  /** Runs the directives `fmt` on `s` from position `pos`, extending `acc`. */
  function Run(s: string, fmt: seq<Directive>, pos: nat, acc: Scan): (r: Scan)
    ensures |acc.fields| <= |r.fields| <= |acc.fields| + |fmt|
    ensures r.fields[..|acc.fields|] == acc.fields
    decreases |fmt|, |s|
  {
    if |fmt| == 0 then acc
    else match fmt[0]
      case Int(w) =>
        (match ScanInt(s, pos, w)
         case None => acc
         case Some(vp) => Run(s, fmt[1..], vp.1, acc.(fields := acc.fields + [IntField(vp.0)])))
      case Char =>
        if At(s, pos) == NUL then acc
        else Run(s, fmt[1..], pos + 1, acc.(fields := acc.fields + [CharField(s[pos])]))
      case Lit(c) =>
        if c != NUL && At(s, pos) == c then Run(s, fmt[1..], pos + 1, acc) else acc
      case Spaces => Run(s, fmt[1..], SkipSpaces(s, pos), acc)
      case Count => Run(s, fmt[1..], pos, acc.(count := pos))
  }

  /** `sscanf(s, fmt, ...)`: what it assigns, from a fresh start. */
  function Sscanf(s: string, fmt: seq<Directive>): Scan {
    Run(s, fmt, 0, Scan([], -1))
  }

  /** Every `%Nd` in the format reads at most two characters. */
  predicate NarrowInts(fmt: seq<Directive>) {
    forall k :: 0 <= k < |fmt| && fmt[k].Int? ==> fmt[k].width <= 2
  }

  /** Every integer assigned has at most two digits. */
  predicate SmallInts(fields: seq<Field>) {
    forall k :: 0 <= k < |fields| && fields[k].IntField? ==> -100 < fields[k].i < 100
  }

  /** A format whose conversions are at most two characters wide assigns only
      integers of at most two digits, a sign aside. */
  lemma {:induction false} RunKeepsSmallInts(s: string, fmt: seq<Directive>, pos: nat, acc: Scan)
    requires NarrowInts(fmt) && SmallInts(acc.fields)
    ensures SmallInts(Run(s, fmt, pos, acc).fields)
    decreases |fmt|
  {
    if |fmt| > 0 {
      assert NarrowInts(fmt[1..]) by {
        forall k | 0 <= k < |fmt[1..]| && fmt[1..][k].Int? ensures fmt[1..][k].width <= 2 {
          assert fmt[1..][k] == fmt[k + 1];
        }
      }
      match fmt[0]
      case Int(w) =>
        match ScanInt(s, pos, w) {
        case None =>
        case Some(vp) =>
          Pow10Monotone(w, 2);
          assert Pow10(2) == 100;
          var a := acc.(fields := acc.fields + [IntField(vp.0)]);
          assert SmallInts(a.fields) by {
            forall k | 0 <= k < |a.fields| && a.fields[k].IntField? ensures -100 < a.fields[k].i < 100 {
              if k < |acc.fields| { assert a.fields[k] == acc.fields[k]; }
            }
          }
          RunKeepsSmallInts(s, fmt[1..], vp.1, a);
        }
      case Char =>
        if At(s, pos) != NUL {
          var a := acc.(fields := acc.fields + [CharField(s[pos])]);
          assert SmallInts(a.fields) by {
            forall k | 0 <= k < |a.fields| && a.fields[k].IntField? ensures -100 < a.fields[k].i < 100 {
              assert k < |acc.fields| && a.fields[k] == acc.fields[k];
            }
          }
          RunKeepsSmallInts(s, fmt[1..], pos + 1, a);
        }
      case Lit(c) =>
        if c != NUL && At(s, pos) == c {
          RunKeepsSmallInts(s, fmt[1..], pos + 1, acc);
        }
      case Spaces => RunKeepsSmallInts(s, fmt[1..], SkipSpaces(s, pos), acc);
      case Count => RunKeepsSmallInts(s, fmt[1..], pos, acc.(count := pos));
    }
  }

  /** The integer assigned to conversion `k`, or `dflt` when it was not assigned. */
  function IntOr(sc: Scan, k: nat, dflt: int): int {
    if k < |sc.fields| && sc.fields[k].IntField? then sc.fields[k].i else dflt
  }

  /** The character assigned to conversion `k`, or NUL when it was not assigned. */
  function CharOr(sc: Scan, k: nat): char {
    if k < |sc.fields| && sc.fields[k].CharField? then sc.fields[k].c else NUL
  }

  /** `%Nd` over exactly N digits reads exactly those digits, whatever follows them. */
  lemma ScanIntExact(s: string, pos: nat, w: Width)
    requires pos + w <= |s|
    requires AllDigits(s[pos..pos + w])
    ensures ScanInt(s, pos, w) == Some((DigitsValue(s[pos..pos + w]) as int, pos + w))
  {
    assert IsDigit(s[pos..pos + w][0]);
    assert SkipSpaces(s, pos) == pos;
    DigitRunExact(s, pos, w);
  }

  /** `RunValue` over a run of exactly `room` digits is the value of those digits. */
  lemma RunValueExact(s: string, start: nat, room: nat)
    requires 0 < room && start + room <= |s|
    requires AllDigits(s[start..start + room])
    ensures RunValue(s, start, room) == DigitsValue(s[start..start + room])
  {
    DigitRunExact(s, start, room);
  }

  lemma DigitRunExact(s: string, start: nat, room: nat)
    requires start + room <= |s|
    requires AllDigits(s[start..start + room])
    ensures DigitRun(s, start, room) == room
  {
    DigitRunStops(s, start, room, room);
  }

  /** `DigitRun` finds exactly the `k` digits at `start` when a non-digit or the room limit ends them. */
  lemma {:induction false} DigitRunStops(s: string, start: nat, room: nat, k: nat)
    requires k <= room && start + k <= |s|
    requires AllDigits(s[start..start + k])
    requires k < room ==> !IsDigit(At(s, start + k))
    ensures DigitRun(s, start, room) == k
    decreases k
  {
    if k > 0 {
      assert IsDigit(s[start..start + k][0]);
      assert s[start + 1..start + 1 + (k - 1)] == s[start..start + k][1..];
      DigitRunStops(s, start + 1, room - 1, k - 1);
    }
  }

  /** `%Nd` fails on a character that is neither whitespace, a sign nor a digit. */
  lemma ScanIntRejects(s: string, pos: nat, w: Width)
    requires var c := At(s, pos); !IsSpace(c) && !IsDigit(c) && c != '+' && c != '-'
    ensures ScanInt(s, pos, w) == None
  {
    assert SkipSpaces(s, pos) == pos;
  }

  // One directive at a time: each lemma below advances `Run` by one step, so
  // that proofs about a concrete format never unfold the whole interpreter.

  lemma RunDone(s: string, fmt: seq<Directive>, pos: nat, acc: Scan)
    requires |fmt| == 0
    ensures Run(s, fmt, pos, acc) == acc
  {
  }

  lemma RunIntStep(s: string, fmt: seq<Directive>, pos: nat, acc: Scan, v: int, next: nat)
    requires |fmt| > 0 && fmt[0].Int? && ScanInt(s, pos, fmt[0].width) == Some((v, next))
    ensures Run(s, fmt, pos, acc) == Run(s, fmt[1..], next, acc.(fields := acc.fields + [IntField(v)]))
  {
  }

  /** `%Nd` over exactly N digits: one step, reading their value. */
  lemma RunIntDigits(s: string, fmt: seq<Directive>, pos: nat, acc: Scan)
    requires |fmt| > 0 && fmt[0].Int? && pos + fmt[0].width <= |s|
    requires AllDigits(s[pos..pos + fmt[0].width])
    ensures Run(s, fmt, pos, acc)
            == Run(s, fmt[1..], pos + fmt[0].width,
                   acc.(fields := acc.fields + [IntField(DigitsValue(s[pos..pos + fmt[0].width]))]))
  {
    ScanIntExact(s, pos, fmt[0].width);
    RunIntStep(s, fmt, pos, acc, DigitsValue(s[pos..pos + fmt[0].width]), pos + fmt[0].width);
  }

  /** `%Nd` over exactly N digits followed by the literal the format expects next. */
  lemma RunIntLit(s: string, fmt: seq<Directive>, pos: nat, acc: Scan)
    requires |fmt| > 1 && fmt[0].Int? && fmt[1].Lit? && fmt[1].c != NUL
    requires pos + fmt[0].width < |s| && s[pos + fmt[0].width] == fmt[1].c
    requires AllDigits(s[pos..pos + fmt[0].width])
    ensures Run(s, fmt, pos, acc)
            == Run(s, fmt[2..], pos + fmt[0].width + 1,
                   acc.(fields := acc.fields + [IntField(DigitsValue(s[pos..pos + fmt[0].width]))]))
  {
    RunIntDigits(s, fmt, pos, acc);
    assert fmt[1..][1..] == fmt[2..];
    RunLitStep(s, fmt[1..], pos + fmt[0].width, acc.(fields := acc.fields + [IntField(DigitsValue(s[pos..pos + fmt[0].width]))]));
  }

  lemma RunIntStop(s: string, fmt: seq<Directive>, pos: nat, acc: Scan)
    requires |fmt| > 0 && fmt[0].Int? && ScanInt(s, pos, fmt[0].width) == None
    ensures Run(s, fmt, pos, acc) == acc
  {
  }

  lemma RunCharStep(s: string, fmt: seq<Directive>, pos: nat, acc: Scan)
    requires |fmt| > 0 && fmt[0].Char? && pos < |s| && s[pos] != NUL
    ensures Run(s, fmt, pos, acc) == Run(s, fmt[1..], pos + 1, acc.(fields := acc.fields + [CharField(s[pos])]))
  {
  }

  lemma RunCharStop(s: string, fmt: seq<Directive>, pos: nat, acc: Scan)
    requires |fmt| > 0 && fmt[0].Char? && At(s, pos) == NUL
    ensures Run(s, fmt, pos, acc) == acc
  {
  }

  lemma RunLitStep(s: string, fmt: seq<Directive>, pos: nat, acc: Scan)
    requires |fmt| > 0 && fmt[0].Lit? && fmt[0].c != NUL && pos < |s| && s[pos] == fmt[0].c
    ensures Run(s, fmt, pos, acc) == Run(s, fmt[1..], pos + 1, acc)
  {
  }

  lemma RunLitStop(s: string, fmt: seq<Directive>, pos: nat, acc: Scan)
    requires |fmt| > 0 && fmt[0].Lit? && At(s, pos) != fmt[0].c
    ensures Run(s, fmt, pos, acc) == acc
  {
  }

  lemma RunSpacesStep(s: string, fmt: seq<Directive>, pos: nat, acc: Scan)
    requires |fmt| > 0 && fmt[0].Spaces? && !IsSpace(At(s, pos))
    ensures Run(s, fmt, pos, acc) == Run(s, fmt[1..], pos, acc)
  {
    assert SkipSpaces(s, pos) == pos;
  }

  /** A blank in the format over exactly one whitespace character. */
  lemma RunSpacesSkipOne(s: string, fmt: seq<Directive>, pos: nat, acc: Scan)
    requires |fmt| > 0 && fmt[0].Spaces? && pos < |s| && IsSpace(s[pos]) && !IsSpace(At(s, pos + 1))
    ensures Run(s, fmt, pos, acc) == Run(s, fmt[1..], pos + 1, acc)
  {
    assert SkipSpaces(s, pos + 1) == pos + 1;
  }

  lemma RunCountStep(s: string, fmt: seq<Directive>, pos: nat, acc: Scan)
    requires |fmt| > 0 && fmt[0].Count?
    ensures Run(s, fmt, pos, acc) == Run(s, fmt[1..], pos, acc.(count := pos))
  {
  }
}
