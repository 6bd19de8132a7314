/**
 * The arithmetic of playback: `MusicClient.ms_to_min`, which renders a
 * position in milliseconds as `MM:SS`, and `set_track_position`, which
 * turns the slider's value (0 to 1000) into a position in milliseconds.
 * Python's `int(x / y)` truncates toward zero, while `//` and `%` round
 * toward negative infinity; both are written out here.
 */
module Playback {
  import opened Wrappers
  import opened Text

  /** The slider runs from 0 to this value. */
  const SliderMax := 1000

  /** Milliseconds per second. */
  const MsPerSecond := 1000

  /** `int(a / b)` for a positive `b`: the quotient truncated toward zero. */
  function TruncDiv(a: int, b: int): (q: int)
    requires b > 0
    ensures 0 <= a ==> 0 <= q && q * b <= a < q * b + b
    ensures a < 0 ==> q <= 0 && q * b - b < a <= q * b
  {
    if a >= 0 then a / b else -((-a) / b)
  }

  // ----- decimal digits -----

  function DigitChar(d: nat): (c: char)
    requires d < 10
    ensures Digit.Has(c) && c as int - '0' as int == d
  {
    ('0' as int + d) as char
  }

  /** The decimal digits of `n`, without leading zeros (`str(n)`). */
  function Decimal(n: nat): (r: string)
    ensures r != [] && Within(r, Digit)
    ensures |r| == 1 <==> n < 10
    ensures |r| > 1 ==> r[0] != '0'
  {
    if n < 10 then [DigitChar(n)] else Decimal(n / 10) + [DigitChar(n % 10)]
  }

  /** The number a string of decimal digits denotes. */
  function ParseDecimal(s: string): nat
    requires Within(s, Digit)
  {
    if s == [] then 0
    else 10 * ParseDecimal(s[..|s| - 1]) + (s[|s| - 1] as int - '0' as int)
  }

  lemma {:induction false} ParseDecimalOfDecimal(n: nat)
    ensures ParseDecimal(Decimal(n)) == n
  {
    if n >= 10 {
      var r := Decimal(n);
      assert r[..|r| - 1] == Decimal(n / 10);
      ParseDecimalOfDecimal(n / 10);
    }
  }

  /** A leading zero does not change the number. */
  lemma ParseDecimalLeadingZero(d: char)
    requires Digit.Has(d)
    ensures ParseDecimal(['0', d]) == d as int - '0' as int
  {
    assert ['0', d][..1] == ['0'];
    assert ['0'][..0] == [];
  }

  /** Python's `f"{n:02}"`: at least two characters, zero-padded; a
      negative number is its sign followed by its digits (the width is
      already met). */
  function Pad2(n: int): (r: string)
    ensures |r| >= 2
    ensures 0 <= n < 100 <==> |r| == 2 && Within(r, Digit)
    ensures 0 <= n ==> Within(r, Digit)
    ensures n < 0 ==> r[0] == '-' && Within(r[1..], Digit)
  {
    if n < 0 then "-" + Decimal(-n)
    else if n < 10 then "0" + Decimal(n)
    else Decimal(n)
  }

  /** Reads back a field written by `Pad2`: an optional `-` and decimal
      digits. */
  function ParseField(f: string): Option<int> {
    if |f| > 1 && f[0] == '-' && Within(f[1..], Digit) then Some(0 - ParseDecimal(f[1..]))
    else if f != [] && Within(f, Digit) then Some(ParseDecimal(f))
    else None
  }

  lemma Pad2ReadsBack(n: int)
    ensures ParseField(Pad2(n)) == Some(n)
  {
    var r := Pad2(n);
    if n < 0 {
      assert r[1..] == Decimal(-n);
      ParseDecimalOfDecimal(-n);
    } else if n < 10 {
      assert r == ['0', DigitChar(n)];
      ParseDecimalLeadingZero(DigitChar(n));
    } else {
      ParseDecimalOfDecimal(n);
    }
  }

  /** `ms_to_min(ms)`: whole seconds `s = int(ms / 1000)`, shown as
      `f"{s // 60:02}:{s % 60:02}"`. */
  function MsToMin(ms: int): (r: string)
    ensures |r| >= 5 && r[|r| - 3] == ':'
    ensures Digit.Has(r[|r| - 2]) && Digit.Has(r[|r| - 1])
  {
    var s := TruncDiv(ms, MsPerSecond);
    Pad2(s / 60) + ":" + Pad2(s % 60)
  }

  /** Reads a clock `M:S` back into its two fields, splitting at the first
      `:`. */
  function ParseClock(t: string): Option<(int, int)> {
    var i := Find(t, ":", 0);
    if i < 0 then None
    else
      match (ParseField(t[..i]), ParseField(t[i + 1..]))
      case (Some(m), Some(sec)) => Some((m, sec))
      case _ => None
  }

  /** The clock shows the whole seconds of the position exactly: minutes
      and seconds under 60 that add back up to `int(ms / 1000)`. */
  lemma MsToMinReadsBack(ms: int)
    ensures var c := ParseClock(MsToMin(ms));
            c.Some? && 60 * c.value.0 + c.value.1 == TruncDiv(ms, MsPerSecond) &&
            0 <= c.value.1 < 60
  {
    var s := TruncDiv(ms, MsPerSecond);
    var a, b := Pad2(s / 60), Pad2(s % 60);
    var t := a + ":" + b;
    assert OccursAt(t, ":", |a|) by {
      assert t[|a|..|a| + 1] == ":";
    }
    forall j | 0 <= j < |a| ensures !OccursAt(t, ":", j) {
      assert t[j] == a[j];
      assert j + 1 <= |t| ==> t[j..j + 1][0] == t[j];
      assert j > 0 ==> a[j] == a[1..][j - 1];
    }
    FindAt(t, ":", 0, |a|);
    assert t[..|a|] == a;
    assert t[|a| + 1..] == b;
    Pad2ReadsBack(s / 60);
    Pad2ReadsBack(s % 60);
  }

  /** For a position that is not negative the clock is digits only around
      the colon, with exactly two digits of seconds and at least two of
      minutes. */
  lemma MsToMinNonNegative(ms: int)
    requires ms >= 0
    ensures var r := MsToMin(ms);
            forall k :: 0 <= k < |r| && k != |r| - 3 ==> Digit.Has(r[k])
  {
    var s := TruncDiv(ms, MsPerSecond);
    var a, b := Pad2(s / 60), Pad2(s % 60);
    var r := a + ":" + b;
    forall k | 0 <= k < |r| && k != |r| - 3 ensures Digit.Has(r[k]) {
      if k < |a| {
        assert r[k] == a[k];
      } else {
        assert r[k] == b[k - |a| - 1];
      }
    }
  }

  /** Under a second either way (including the -1 the player reports with
      no media) the clock shows `00:00`. */
  lemma MsToMinUnderASecond(ms: int)
    requires -MsPerSecond < ms < MsPerSecond
    ensures MsToMin(ms) == "00:00"
  {
    assert TruncDiv(ms, MsPerSecond) == 0;
    assert Pad2(0) == "00" by {
      assert Decimal(0) == "0";
    }
  }

  /** `set_track_position`: the seek target `int(length * pos / 1000)` for
      slider value `pos`, or None when the player reports no length. */
  function SeekTime(length: int, pos: int): (r: Option<int>)
    ensures r.Some? <==> length > 0
  {
    if length > 0 then Some(TruncDiv(length * pos, SliderMax)) else None
  }

  /** Products of non-negative numbers grow with each factor. */
  lemma MulMonotone(a: nat, x: nat, y: nat)
    requires x <= y
    ensures a * x <= a * y
  {
    var d := y - x;
    assert a * y == a * x + a * d;
  }

  /** The target is the slider's share of the track, rounded down, and
      lies within the track. */
  lemma SeekWithinTrack(length: int, pos: int)
    requires length > 0 && 0 <= pos <= SliderMax
    ensures var t := SeekTime(length, pos).value;
            0 <= t <= length &&
            t * SliderMax <= length * pos < t * SliderMax + SliderMax
  {
    MulMonotone(length, pos, SliderMax);
  }

  /** The ends of the slider are the ends of the track. */
  lemma SeekEnds(length: int)
    requires length > 0
    ensures SeekTime(length, 0) == Some(0)
    ensures SeekTime(length, SliderMax) == Some(length)
  {
  }

  /** Moving the slider further never seeks to an earlier position. */
  lemma SeekMonotone(length: int, pos1: int, pos2: int)
    requires length > 0 && 0 <= pos1 <= pos2 <= SliderMax
    ensures SeekTime(length, pos1).value <= SeekTime(length, pos2).value
  {
    var t1, t2 := SeekTime(length, pos1).value, SeekTime(length, pos2).value;
    MulMonotone(length, pos1, pos2);
    SeekWithinTrack(length, pos1);
    SeekWithinTrack(length, pos2);
  }
}
