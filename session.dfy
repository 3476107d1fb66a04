/** The controller script as it runs inside the host: its module-level state
    (`buffer`, `selected_track`, `last_sent_msg`, the serial connection)
    becomes the fields of a `Controller`, the host project's tracks the
    fields of a `Host`, and each function of the script that changes state
    a method that updates them in place. Every such method is proved against
    the value-level model of the same operation. */
module Session {
  import opened PyText
  import opened Units
  import opened Commands
  import opened Protocol

  /** The host's project, as the script reaches it through `RPR_GetTrack`,
      `RPR_GetMediaTrackInfo_Value` and `RPR_SetMediaTrackInfo_Value`. */
  class Host {
    var tracks: seq<Track>

    constructor (tracks: seq<Track>)
      ensures this.tracks == tracks
    {
      this.tracks := tracks;
    }
  }

  class Controller {
    /** The partial line received so far. */
    var buffer: string
    /** `selected_track`. */
    var selected: int
    /** `last_sent_msg`. */
    var lastSent: string
    /** Whether `serial_conn` has been opened. */
    var connected: bool
    /** Bytes waiting on the serial port (`in_waiting`). */
    var inbox: seq<Byte>
    /** Lines written to the serial port, oldest first. */
    var outbox: seq<string>

    const host: Host
    const math: Transcendentals

    /** What the commands change: the host's tracks and the selection. */
    function Mix(): Mixer
      reads this, host
    {
      Mixer(host.tracks, selected)
    }

    /** The whole state, as the value-level session model sees it. */
    function State(): Session
      reads this, host
    {
      Session(Reader(buffer, Mix()), lastSent, connected, inbox, outbox)
    }

    /** The session invariant, on the fields it constrains: the partial
        line holds no newline and the selection is not negative. */
    predicate Valid()
      reads this, host
    {
      NEWLINE as char !in buffer && selected >= 0
    }

    /** The script's state when the host loads it: nothing buffered, track 0
        selected, nothing sent, no connection yet. */
    constructor (host: Host, math: Transcendentals)
      ensures this.host == host && this.math == math
      ensures State() == Initial(host.tracks)
      ensures Valid()
    {
      this.host := host;
      this.math := math;
      buffer := [];
      selected := 0;
      lastSent := [];
      connected := false;
      inbox := [];
      outbox := [];
      new;
      assert State() == Initial(host.tracks);
    }

    /** Bytes arriving on the serial port. */
    method Receive(bs: seq<Byte>)
      modifies this`inbox
      ensures inbox == old(inbox) + bs
    {
      inbox := inbox + bs;
    }

    /** `apply_setvol`. */
    method ApplySetVol(cmd: string) returns (err: Option<Error>)
      requires Valid()
      modifies host
      ensures Mix() == Settle(SetVol(old(Mix()), math, cmd), old(Mix()))
      ensures err == ErrorOf(SetVol(old(Mix()), math, cmd))
      ensures Valid()
    {
      ghost var before := Mix();
      var operand := Operand(cmd);
      if operand.Err? {
        return Some(operand.error);
      }
      var delta := operand.value;
      if !(0 <= selected < |host.tracks|) {
        return Some(MissingTrack);
      }
      var track := host.tracks[selected];
      var db := LinearToDb(math, track.vol);
      db := db + delta as real * VOL_STEP;
      db := Clamp(db, MIN_DB, MAX_DB);
      assert db == TargetDb(math, track.vol, delta);
      host.tracks := host.tracks[selected := track.(vol := DbToLinear(math, db))];
      assert SetVol(before, math, cmd) == Ok(Mix());
      return None;
    }

    /** `apply_setpan`. */
    method ApplySetPan(cmd: string) returns (err: Option<Error>)
      requires Valid()
      modifies host
      ensures Mix() == Settle(SetPan(old(Mix()), cmd), old(Mix()))
      ensures err == ErrorOf(SetPan(old(Mix()), cmd))
      ensures Valid()
    {
      ghost var before := Mix();
      var operand := Operand(cmd);
      if operand.Err? {
        return Some(operand.error);
      }
      var delta := operand.value;
      if !(0 <= selected < |host.tracks|) {
        return Some(MissingTrack);
      }
      var track := host.tracks[selected];
      var pan := track.pan;
      pan := pan + delta as real * PAN_STEP;
      pan := Clamp(pan, -1.0, 1.0);
      host.tracks := host.tracks[selected := track.(pan := pan)];
      SetPanWrites(before, cmd, delta);
      assert Mix() == SetPan(before, cmd).value;
      return None;
    }

    /** `apply_jog`; the console message is not modelled. */
    method ApplyJog(cmd: string) returns (err: Option<Error>)
      requires Valid()
      modifies this`selected
      ensures Mix() == Settle(Jog(old(Mix()), cmd), old(Mix()))
      ensures err == ErrorOf(Jog(old(Mix()), cmd))
      ensures Valid()
    {
      ghost var before := Mix();
      assert before.tracks == host.tracks && before.selected == selected;
      var operand := Operand(cmd);
      if operand.Err? {
        JogRaises(before, cmd, operand.error);
        return Some(operand.error);
      }
      var delta := operand.value;
      var trackCount := |host.tracks|;
      if trackCount == 0 {
        JogRaises(before, cmd, ZeroDivisionError);
        return Some(ZeroDivisionError);
      }
      selected := FloorMod(selected + delta, trackCount);
      JogMoves(before, cmd, delta);
      assert selected == FloorMod(before.selected + delta, |before.tracks|);
      return None;
    }

    /** `apply_command`. */
    method ApplyCommand(cmd: string) returns (err: Option<Error>)
      requires Valid()
      modifies host, this`selected
      ensures Mix() == Settle(Commands.ApplyCommand(old(Mix()), math, cmd), old(Mix()))
      ensures err == ErrorOf(Commands.ApplyCommand(old(Mix()), math, cmd))
      ensures Valid()
    {
      if StartsWith(cmd, SETVOL) {
        err := ApplySetVol(cmd);
      } else if StartsWith(cmd, SETPAN) {
        err := ApplySetPan(cmd);
      } else if StartsWith(cmd, JOG) {
        err := ApplyJog(cmd);
      } else {
        err := None;
      }
    }

    /** `send_track_info`. */
    method SendTrackInfo() returns (err: Option<Error>)
      requires Valid()
      modifies this`lastSent, this`outbox
      ensures var report := Report(Mix(), math);
              && err == ErrorOf(report)
              && (report.Ok? ==> lastSent == report.value
                                 && outbox == old(outbox) + Transmission(old(lastSent), report.value))
              && (report.Err? ==> lastSent == old(lastSent) && outbox == old(outbox))
      ensures Valid()
    {
      if !(0 <= selected < |host.tracks|) {
        return Some(MissingTrack);
      }
      var track := host.tracks[selected];
      var name := AsciiOnly(track.name);
      var vol := track.vol;
      var pan := track.pan;
      var db := LinearToDb(math, vol);
      var vm, pm := DbToMidi(db), PanToMidi(pan);
      var msg := StatusLine(Status(name, vm, pm));
      if msg != lastSent {
        outbox := outbox + [msg];
        lastSent := msg;
      }
      return None;
    }

    /** The `while serial_conn.in_waiting` loop: read the waiting bytes one
        at a time, dispatching each completed line, until none is left or a
        dispatch raises. */
    method ReadWaiting() returns (err: Option<Error>)
      requires Valid()
      modifies this`buffer, this`inbox, this`selected, host
      ensures var d := Drain(old(Reader(buffer, Mix())), Interpreter(math), old(inbox));
              Reader(buffer, Mix()) == d.reader && inbox == d.rest && err == d.err
      ensures Valid()
    {
      InterpreterKeepsSelectionNatural(math);
      DrainKeepsInvariant(Reader(buffer, Mix()), Interpreter(math), inbox);
      ghost var drained := Drain(Reader(buffer, Mix()), Interpreter(math), inbox);
      while inbox != []
        invariant Valid()
        invariant Drain(Reader(buffer, Mix()), Interpreter(math), inbox) == drained
        decreases |inbox|
      {
        ghost var before := Reader(buffer, Mix());
        var c := inbox[0];
        inbox := inbox[1..];
        if c == NEWLINE {
          var line := Strip(buffer);
          if line != [] {
            err := ApplyCommand(line);
            FeedLine(before, math);
            if err.Some? {
              return err;
            }
          }
          buffer := [];
        } else {
          ExtendKeepsNoNewline(buffer, c);
          buffer := buffer + DecodeByte(c);
        }
      }
      return None;
    }

    /** One invocation of `loop`: open the port on the first call; otherwise
        read every waiting byte, then report the selected track. An exception
        stops the invocation where it was raised and is returned instead of
        logged. */
    method Poll() returns (err: Option<Error>)
      requires Valid()
      modifies this, host
      ensures Step(State(), err) == Cycle(old(State()), Interpreter(math), math)
      ensures Valid()
    {
      ghost var before := State();
      CycleKeepsInvariant(before, math);
      if !connected {
        connected := true;
        return None;
      }
      err := ReadWaiting();
      ghost var d := Drain(before.reader, Interpreter(math), before.inbox);
      assert State() == before.(reader := d.reader, inbox := d.rest);
      if err.Some? {
        return err;
      }
      err := SendTrackInfo();
    }
  }

  /** A newline ending a non-blank line feeds that line to
      `apply_command`. */
  lemma FeedLine(r: Reader, math: Transcendentals)
    requires !AllSpace(r.buffer)
    ensures var applied := Commands.ApplyCommand(r.mixer, math, Strip(r.buffer));
            Feed(r, Interpreter(math), NEWLINE)
            == if applied.Ok? then Ok(Reader([], applied.value)) else Err(applied.error)
  {
  }
}
