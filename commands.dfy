/** The command interpreter: the three inbound commands `SETVOL:<delta>`,
    `SETPAN:<delta>` and `JOG:<delta>`, each applied to the mixer state it
    touches, and the prefix dispatch that chooses among them. */
module Commands {
  import opened PyText
  import opened Units

  /** The exceptions a command can raise. */
  datatype Error =
    | IndexError         // `cmd.split(":")[1]` on a line without a colon
    | ValueError         // `int(...)` on an operand that is not an integer
    | ZeroDivisionError  // `% track_count` while the project has no tracks
    | MissingTrack       // a host call on a track index the project lacks

  datatype Result<+T> = Ok(value: T) | Err(error: Error)

  /** One host track: linear gain (`D_VOL`), pan (`D_PAN`) and name. */
  datatype Track = Track(vol: real, pan: real, name: string)

  /** What a command can change: the host's tracks and the selection. */
  datatype Mixer = Mixer(tracks: seq<Track>, selected: int)

  const SETVOL: string := "SETVOL:"
  const SETPAN: string := "SETPAN:"
  const JOG: string := "JOG:"

  /** dB added per unit of a `SETVOL` delta. */
  const VOL_STEP: real := 0.75
  /** Pan added per unit of a `SETPAN` delta. */
  const PAN_STEP: real := 0.02

  predicate HasSelection(m: Mixer) {
    0 <= m.selected < |m.tracks|
  }

  /** The state after a command: the new state, or the old one when the
      command raised before writing anything. */
  function Settle(r: Result<Mixer>, m: Mixer): Mixer {
    if r.Ok? then r.value else m
  }

  function ErrorOf<T>(r: Result<T>): Option<Error> {
    if r.Ok? then None else Some(r.error)
  }

  /** `int(cmd.split(":")[1])`. */
  function Operand(cmd: string): (r: Result<int>)
    ensures r.Err? ==> r.error == IndexError || r.error == ValueError
    ensures r == Err(IndexError) <==> ':' !in cmd
  {
    var fields := Split(cmd, ':');
    SplitFieldCount(cmd, ':');
    OccurrencesZero(cmd, ':');
    if |fields| < 2 then Err(IndexError)
    else match ParseInt(fields[1])
      case None => Err(ValueError)
      case Some(d) => Ok(d)
  }

  /** Behind a command prefix, the operand is the text up to the next colon. */
  lemma OperandAfterPrefix(cmd: string, name: string)
    requires ':' !in name
    requires StartsWith(cmd, name + ":")
    ensures Operand(cmd) == match ParseInt(Split(cmd[|name| + 1..], ':')[0])
                              case None => Err(ValueError)
                              case Some(d) => Ok(d)
  {
    var tail := cmd[|name| + 1..];
    assert cmd == name + [':'] + tail;
    SplitAfterField(name, ':', tail);
  }

  /** The level a `SETVOL` moves the selected track to: its current level in
      dB plus the step, held inside the fader range. */
  function TargetDb(math: Transcendentals, vol: real, delta: int): (db: real)
    ensures MIN_DB <= db <= MAX_DB
    ensures var raw := LinearToDb(math, vol) + delta as real * VOL_STEP;
            && (MIN_DB <= raw <= MAX_DB ==> db == raw)
            && (raw >= MAX_DB ==> db == MAX_DB)
            && (raw <= MIN_DB ==> db == MIN_DB)
    ensures vol <= GAIN_FLOOR && delta <= 0 ==> db == MIN_DB
    ensures vol <= GAIN_FLOOR && delta >= 96 ==> db == MAX_DB
  {
    Clamp(LinearToDb(math, vol) + delta as real * VOL_STEP, MIN_DB, MAX_DB)
  }

  /** `apply_setvol`: only the gain of the selected track changes, and it
      becomes the gain of a level inside [-60, 12] dB. */
  function SetVol(m: Mixer, math: Transcendentals, cmd: string): (r: Result<Mixer>)
    ensures r.Err? <==> Operand(cmd).Err? || !HasSelection(m)
    ensures r.Err? ==> r.error == (if Operand(cmd).Err? then Operand(cmd).error else MissingTrack)
    ensures r.Ok? ==> var s := m.selected;
      && r.value.selected == s
      && |r.value.tracks| == |m.tracks|
      && r.value.tracks == m.tracks[s := r.value.tracks[s]]
      && r.value.tracks[s].pan == m.tracks[s].pan
      && r.value.tracks[s].name == m.tracks[s].name
      && r.value.tracks[s].vol == DbToLinear(math, TargetDb(math, m.tracks[s].vol, Operand(cmd).value))
  {
    match Operand(cmd)
    case Err(e) => Err(e)
    case Ok(delta) =>
      if !HasSelection(m) then Err(MissingTrack)
      else
        var t := m.tracks[m.selected];
        var db := TargetDb(math, t.vol, delta);
        Ok(m.(tracks := m.tracks[m.selected := t.(vol := DbToLinear(math, db))]))
  }

  /** `apply_setpan`: only the pan of the selected track changes, and the
      pan written is always inside [-1, 1], whatever was stored before. */
  function SetPan(m: Mixer, cmd: string): (r: Result<Mixer>)
    ensures r.Err? <==> Operand(cmd).Err? || !HasSelection(m)
    ensures r.Err? ==> r.error == (if Operand(cmd).Err? then Operand(cmd).error else MissingTrack)
    ensures r.Ok? ==> var s := m.selected;
      && r.value.selected == s
      && |r.value.tracks| == |m.tracks|
      && r.value.tracks == m.tracks[s := r.value.tracks[s]]
      && r.value.tracks[s].vol == m.tracks[s].vol
      && r.value.tracks[s].name == m.tracks[s].name
      && -1.0 <= r.value.tracks[s].pan <= 1.0
      && var raw := m.tracks[s].pan + Operand(cmd).value as real * PAN_STEP;
         -1.0 <= raw <= 1.0 ==> r.value.tracks[s].pan == raw
  {
    match Operand(cmd)
    case Err(e) => Err(e)
    case Ok(delta) =>
      if !HasSelection(m) then Err(MissingTrack)
      else
        var t := m.tracks[m.selected];
        var pan := Clamp(t.pan + delta as real * PAN_STEP, -1.0, 1.0);
        Ok(m.(tracks := m.tracks[m.selected := t.(pan := pan)]))
  }

  /** With an operand and a selected track, `apply_setpan` writes the moved
      pan, held inside [-1, 1], to the selected track. */
  lemma SetPanWrites(m: Mixer, cmd: string, delta: int)
    requires Operand(cmd) == Ok(delta) && HasSelection(m)
    ensures var t := m.tracks[m.selected];
            SetPan(m, cmd)
            == Ok(m.(tracks := m.tracks[m.selected := t.(pan := Clamp(t.pan + delta as real * PAN_STEP, -1.0, 1.0))]))
  {
  }

  /** Python's `a % n` for a positive `n`. */
  function FloorMod(a: int, n: int): (r: int)
    requires n > 0
    ensures 0 <= r < n
  {
    a % n
  }

  /** `FloorMod` is the remainder of the division whose quotient is the
      floor of the exact quotient `a / n`, as Python defines `%`. */
  lemma FloorModIsPythonMod(a: int, n: int)
    requires n > 0
    ensures FloorMod(a, n) == a - n * ((a as real) / (n as real)).Floor
  {
    FloorOfQuotient(a, n);
  }

  /** Dafny's `a / n` for positive `n` is the floor of the exact quotient. */
  lemma FloorOfQuotient(a: int, n: int)
    requires n > 0
    ensures ((a as real) / (n as real)).Floor == a / n
  {
    var q, r := a / n, a % n;
    assert a == q * n + r;
    var x := (a as real) / (n as real);
    var f := (r as real) / (n as real);
    assert x == q as real + f by {
      assert (a as real) == (q as real) * (n as real) + r as real;
    }
    ProperFraction(r, n);
  }

  /** A remainder divided by its divisor lies in [0, 1). */
  lemma ProperFraction(r: int, n: int)
    requires 0 <= r < n
    ensures 0.0 <= (r as real) / (n as real) < 1.0
  {
  }

  /** `apply_jog`: the selection moves by the delta and wraps around the
      track count, whatever the sign or size of the delta; an empty project
      raises and leaves the selection where it was. */
  function Jog(m: Mixer, cmd: string): (r: Result<Mixer>)
    ensures r.Err? <==> Operand(cmd).Err? || |m.tracks| == 0
    ensures r.Err? ==> r.error == (if Operand(cmd).Err? then Operand(cmd).error else ZeroDivisionError)
    ensures r.Ok? ==>
      && r.value.tracks == m.tracks
      && HasSelection(r.value)
      && r.value.selected == FloorMod(m.selected + Operand(cmd).value, |m.tracks|)
  {
    match Operand(cmd)
    case Err(e) => Err(e)
    case Ok(delta) =>
      var count := |m.tracks|;
      if count == 0 then Err(ZeroDivisionError)
      else Ok(m.(selected := FloorMod(m.selected + delta, count)))
  }

  /** `apply_command`: the first matching prefix chooses the command; a line
      with none of the three prefixes changes nothing. */
  function ApplyCommand(m: Mixer, math: Transcendentals, cmd: string): (r: Result<Mixer>)
    ensures StartsWith(cmd, SETVOL) ==> r == SetVol(m, math, cmd)
    ensures StartsWith(cmd, SETPAN) ==> r == SetPan(m, cmd)
    ensures StartsWith(cmd, JOG) ==> r == Jog(m, cmd)
    ensures !StartsWith(cmd, SETVOL) && !StartsWith(cmd, SETPAN) && !StartsWith(cmd, JOG) ==> r == Ok(m)
    ensures r.Ok? ==> |r.value.tracks| == |m.tracks|
    ensures r.Ok? && r.value.selected != m.selected ==> r.value.tracks == m.tracks
    ensures r.Err? ==> r.error != IndexError
  {
    PrefixesExclusive(cmd);
    assert StartsWith(cmd, SETVOL) ==> cmd[6] == ':';
    assert StartsWith(cmd, SETPAN) ==> cmd[6] == ':';
    assert StartsWith(cmd, JOG) ==> cmd[3] == ':';
    if StartsWith(cmd, SETVOL) then SetVol(m, math, cmd)
    else if StartsWith(cmd, SETPAN) then SetPan(m, cmd)
    else if StartsWith(cmd, JOG) then Jog(m, cmd)
    else Ok(m)
  }

  /** No line starts with two of the prefixes, so the order of the tests
      in the dispatch does not matter. */
  lemma PrefixesExclusive(cmd: string)
    ensures !(StartsWith(cmd, SETVOL) && StartsWith(cmd, SETPAN))
    ensures !(StartsWith(cmd, SETVOL) && StartsWith(cmd, JOG))
    ensures !(StartsWith(cmd, SETPAN) && StartsWith(cmd, JOG))
  {
    assert StartsWith(cmd, SETVOL) ==> cmd[0] == 'S';
    assert StartsWith(cmd, SETPAN) ==> cmd[0] == 'S';
    assert StartsWith(cmd, JOG) ==> cmd[0] == 'J';
  }

  /** A command never moves the selection out of range when it was in range
      (the track count is not changed by any command). */
  lemma ApplyCommandKeepsSelection(m: Mixer, math: Transcendentals, cmd: string)
    requires HasSelection(m)
    ensures HasSelection(Settle(ApplyCommand(m, math, cmd), m))
  {
  }

  /** The line `JOG:<n>` moves the selection by `n`, wrapping around. */
  lemma JogLine(m: Mixer, math: Transcendentals, n: int)
    requires |m.tracks| > 0
    ensures ApplyCommand(m, math, JOG + IntToString(n))
            == Ok(m.(selected := FloorMod(m.selected + n, |m.tracks|)))
  {
    assert JOG[..3] == "JOG";
    SmallOperand(JOG, n);
    assert (JOG + IntToString(n))[..4] == JOG;
    JogDispatch(m, math, JOG + IntToString(n), n);
  }

  /** A line with the `JOG:` prefix and operand `n` jogs by `n`. */
  lemma JogDispatch(m: Mixer, math: Transcendentals, cmd: string, n: int)
    requires |m.tracks| > 0 && StartsWith(cmd, JOG) && Operand(cmd) == Ok(n)
    ensures ApplyCommand(m, math, cmd) == Ok(m.(selected := FloorMod(m.selected + n, |m.tracks|)))
  {
    JogMoves(m, cmd, n);
  }

  /** With operand `n` and at least one track, `apply_jog` moves the
      selection by `n` modulo the track count and changes nothing else. */
  lemma JogMoves(m: Mixer, cmd: string, n: int)
    requires |m.tracks| > 0 && Operand(cmd) == Ok(n)
    ensures Jog(m, cmd) == Ok(m.(selected := FloorMod(m.selected + n, |m.tracks|)))
    ensures Settle(Jog(m, cmd), m) == Mixer(m.tracks, FloorMod(m.selected + n, |m.tracks|))
    ensures ErrorOf(Jog(m, cmd)) == None
  {
  }

  /** A jog whose operand does not parse, or that finds no tracks, raises and
      leaves the selection where it was. */
  lemma JogRaises(m: Mixer, cmd: string, e: Error)
    requires Operand(cmd) == Err(e) || (Operand(cmd).Ok? && |m.tracks| == 0 && e == ZeroDivisionError)
    ensures Settle(Jog(m, cmd), m) == m && ErrorOf(Jog(m, cmd)) == Some(e)
  {
  }

  /** The jog examples: with four tracks, `JOG:-1` from track 0 selects the
      last track and `JOG:4` comes back round to track 0. The two operands are
      parameters pinned by `requires` rather than literals in the `ensures`:
      a literal inside `IntToString` there makes the verifier evaluate the
      digit text in every proof obligation of the lemma. */
  lemma JogWrapsAround(m: Mixer, math: Transcendentals, back: int, ahead: int)
    requires |m.tracks| == 4 && m.selected == 0
    requires back == -1 && ahead == 4
    ensures ApplyCommand(m, math, JOG + IntToString(back)) == Ok(m.(selected := 3))
    ensures ApplyCommand(m, math, JOG + IntToString(ahead)) == Ok(m)
  {
    JogLine(m, math, back);
    JogLine(m, math, ahead);
    assert FloorMod(m.selected + back, |m.tracks|) == 3;
    assert FloorMod(m.selected + ahead, |m.tracks|) == 0;
    assert m.(selected := 0) == m;
  }

  /** The operand of `<name>:<n>` is `n`, for the text `str(n)` writes. */
  lemma SmallOperand(prefix: string, n: int)
    requires |prefix| > 0 && prefix[|prefix| - 1] == ':' && ':' !in prefix[..|prefix| - 1]
    ensures Operand(prefix + IntToString(n)) == Ok(n)
  {
    var name := prefix[..|prefix| - 1];
    var digits := IntToString(n);
    assert forall i :: 0 <= i < |digits| ==> digits[i] != ':';
    assert prefix + digits == name + [':'] + digits;
    SplitAfterField(name, ':', digits);
    SplitNoSeparator(digits, ':');
    ParseIntOfIntToString(n);
  }
}
