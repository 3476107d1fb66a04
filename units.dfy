/** Unit converters between linear gain, decibels, pan position and the
    7-bit controller values sent on the wire. Floating point is modelled by
    exact reals; Python's `round` (half to even) is written out. */
module Units {

  /** The display range of the volume fader, in dB. */
  const MIN_DB: real := -60.0
  const MAX_DB: real := 12.0

  /** Gains at or below this are shown as `MIN_DB` (avoids `log10(0)`). */
  const GAIN_FLOOR: real := 0.00001

  /** The highest 7-bit controller value. */
  const MIDI_MAX: int := 127

  /** Python's `round(x)`: the nearest integer, ties going to the even one. */
  function RoundHalfEven(x: real): (n: int)
    ensures x - 0.5 <= n as real <= x + 0.5
    ensures n as real - x == 0.5 || x - n as real == 0.5 ==> n % 2 == 0
  {
    var f := x.Floor;
    var frac := x - f as real;
    if frac < 0.5 then f
    else if frac > 0.5 then f + 1
    else if f % 2 == 0 then f
    else f + 1
  }

  /** Rounding never reverses the order of two values. */
  lemma RoundHalfEvenMonotone(x: real, y: real)
    requires x <= y
    ensures RoundHalfEven(x) <= RoundHalfEven(y)
  {
    // Two results one apart would both be ties at the same point, and two
    // consecutive integers cannot both be even.
  }

  /** Python's `round(x, 6)`: the nearest multiple of one millionth, ties
      to the even multiple. The result is a whole number of millionths within
      half a millionth of `x`. */
  function Round6(x: real): (r: real)
    ensures x - 0.0000005 <= r <= x + 0.0000005
    ensures (r * 1000000.0).Floor as real == r * 1000000.0
  {
    var n := RoundHalfEven(x * 1000000.0);
    assert n as real / 1000000.0 * 1000000.0 == n as real;
    n as real / 1000000.0
  }

  /** `max(lo, min(hi, x))`. */
  function Clamp(x: real, lo: real, hi: real): (r: real)
    requires lo <= hi
    ensures lo <= r <= hi
    ensures lo <= x <= hi ==> r == x
    ensures x >= hi ==> r == hi
    ensures x <= lo ==> r == lo
  {
    var capped := if hi < x then hi else x;
    if lo > capped then lo else capped
  }

  /** The transcendental functions of Python's `math`, left uninterpreted:
      `log10(x)` and `10 ** x`. The model relies on no property of them. */
  datatype Transcendentals = Transcendentals(log10: real -> real, pow10: real -> real)

  /** `linear_to_db`: a gain in dB, with every gain at or below the floor
      shown as the bottom of the fader range. */
  function LinearToDb(math: Transcendentals, vol: real): (db: real)
    ensures vol <= GAIN_FLOOR ==> db == MIN_DB
  {
    if vol <= GAIN_FLOOR then MIN_DB else 20.0 * math.log10(vol)
  }

  /** `db_to_linear`: `10 ** (db / 20)` rounded to six decimals, so the
      written gain is a whole number of millionths within half a millionth of
      the exact power. */
  function DbToLinear(math: Transcendentals, db: real): (vol: real)
    ensures math.pow10(db / 20.0) - 0.0000005 <= vol <= math.pow10(db / 20.0) + 0.0000005
    ensures (vol * 1000000.0).Floor as real == vol * 1000000.0
  {
    Round6(math.pow10(db / 20.0))
  }

  /** `db_to_midi`: the fader range [-60, 12] dB spread linearly over the
      controller values 0..127, saturating outside it. */
  function DbToMidi(db: real): (n: int)
    ensures 0 <= n <= MIDI_MAX
    ensures db <= MIN_DB ==> n == 0
    ensures db >= MAX_DB ==> n == MIDI_MAX
    ensures MIN_DB < db < MAX_DB ==>
      var x := (db + 60.0) / 72.0 * 127.0;
      && x - 0.5 <= n as real <= x + 0.5
      && (n as real - x == 0.5 || x - n as real == 0.5 ==> n % 2 == 0)
  {
    if db <= MIN_DB then 0
    else if db >= MAX_DB then MIDI_MAX
    else RoundHalfEven((db + 60.0) / 72.0 * 127.0)
  }

  /** A louder level never shows a lower fader value. */
  lemma DbToMidiMonotone(a: real, b: real)
    requires a <= b
    ensures DbToMidi(a) <= DbToMidi(b)
  {
    if MIN_DB < a && b < MAX_DB {
      RoundHalfEvenMonotone((a + 60.0) / 72.0 * 127.0, (b + 60.0) / 72.0 * 127.0);
    }
  }

  /** `pan_to_midi`: pan positions [-1, 1] spread linearly over 0..127.
      The source does not clamp: the range holds for pans in [-1, 1]. */
  function PanToMidi(pan: real): (n: int)
    ensures -1.0 <= pan <= 1.0 ==> 0 <= n <= MIDI_MAX
    ensures pan == -1.0 ==> n == 0
    ensures pan == 1.0 ==> n == MIDI_MAX
    ensures var x := (pan + 1.0) * 63.5;
            && x - 0.5 <= n as real <= x + 0.5
            && (n as real - x == 0.5 || x - n as real == 0.5 ==> n % 2 == 0)
  {
    RoundHalfEven((pan + 1.0) * 63.5)
  }

  /** Panning further right never shows a lower pan value. */
  lemma PanToMidiMonotone(a: real, b: real)
    requires a <= b
    ensures PanToMidi(a) <= PanToMidi(b)
  {
    RoundHalfEvenMonotone((a + 1.0) * 63.5, (b + 1.0) * 63.5);
  }

  /** The tie cases round to even: centre pan and -24 dB both sit exactly
      half-way between 63 and 64 and are sent as 64. */
  lemma MidpointsRoundToEven()
    ensures PanToMidi(0.0) == 64
    ensures DbToMidi(-24.0) == 64
  {
    assert (0.0 + 1.0) * 63.5 == 63.5;
    assert (-24.0 + 60.0) / 72.0 * 127.0 == 63.5;
    assert RoundHalfEven(63.5) == 64 by {
      var n := RoundHalfEven(63.5);
      assert n == 63 || n == 64;
      assert 63 % 2 == 1;
    }
  }
}
