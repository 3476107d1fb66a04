/** The serial side of the controller, on values: the line reader that
    assembles inbound bytes into command lines, the edge-triggered status
    reporter, and one invocation of the poll loop combining them. */
module Protocol {
  import opened PyText
  import opened Units
  import opened Commands

  type Byte = b: int | 0 <= b < 256

  const NEWLINE: Byte := 10

  /** `serial_conn.read().decode('ascii', 'ignore')` for one byte: an ASCII
      byte gives its character, any other byte gives nothing. */
  function DecodeByte(b: Byte): (s: string)
    ensures b < 128 ==> s == [b as char]
    ensures b >= 128 ==> s == []
  {
    if b < 128 then [b as char] else []
  }

  /** A byte other than a newline adds no newline character to a line. */
  lemma ExtendKeepsNoNewline(line: string, b: Byte)
    requires NEWLINE as char !in line && b != NEWLINE
    ensures NEWLINE as char !in line + DecodeByte(b)
  {
  }

  /** The characters a run of bytes decodes to, one byte at a time. */
  function Decode(bs: seq<Byte>): string {
    if bs == [] then [] else DecodeByte(bs[0]) + Decode(bs[1..])
  }

  /** The state the line reader works on: the partial line received so far
      (the global `buffer`) and the mixer state its commands change. */
  datatype Reader = Reader(buffer: string, mixer: Mixer)

  /** A command interpreter: what `apply_command` does to the mixer for one
      stripped line. The line reader is stated for any interpreter. */
  type Dispatcher = (Mixer, string) -> Result<Mixer>

  /** The controller's interpreter, `apply_command`. */
  function Interpreter(math: Transcendentals): (apply: Dispatcher)
    ensures forall m, line :: apply(m, line) == ApplyCommand(m, math, line)
  {
    (m, line) => ApplyCommand(m, math, line)
  }

  /** One turn of the `while serial_conn.in_waiting` loop. A byte other than
      a newline extends the partial line. A newline ends it: a blank line is
      dropped, any other line is stripped and dispatched exactly once, and the
      partial line is reset unless the dispatch raised. */
  function Feed(r: Reader, apply: Dispatcher, b: Byte): (res: Result<Reader>)
    ensures b != NEWLINE ==> res == Ok(Reader(r.buffer + DecodeByte(b), r.mixer))
    ensures b == NEWLINE && res.Ok? ==> res.value.buffer == []
    ensures b == NEWLINE && AllSpace(r.buffer) ==> res == Ok(Reader([], r.mixer))
    ensures b == NEWLINE && !AllSpace(r.buffer) ==>
      var applied := apply(r.mixer, Strip(r.buffer));
      && (res.Ok? <==> applied.Ok?)
      && (res.Ok? ==> res.value.mixer == applied.value)
      && (res.Err? ==> res.error == applied.error)
  {
    if b == NEWLINE then
      var line := Strip(r.buffer);
      if line != [] then
        match apply(r.mixer, line)
        case Ok(m) => Ok(Reader([], m))
        case Err(e) => Err(e)
      else Ok(Reader([], r.mixer))
    else Ok(Reader(r.buffer + DecodeByte(b), r.mixer))
  }

  /** The outcome of draining the available bytes: the reader state, the
      bytes left unread, and the exception that ended the drain, if any. */
  datatype Drained = Drained(reader: Reader, rest: seq<Byte>, err: Option<Error>)

  /** The whole `while serial_conn.in_waiting` loop. Without an exception
      every byte is read. An exception is raised by the newline that ended a
      line, the bytes after it stay unread, and the failed line is still in
      the buffer: dispatching it again raises the same exception. */
  function Drain(r: Reader, apply: Dispatcher, bs: seq<Byte>): (d: Drained)
    ensures |d.rest| <= |bs|
    ensures d.err.None? ==> d.rest == []
    ensures d.err.Some? ==>
      && |d.rest| < |bs|
      && !AllSpace(d.reader.buffer)
      && apply(d.reader.mixer, Strip(d.reader.buffer)) == Err(d.err.value)
    decreases |bs|
  {
    if bs == [] then Drained(r, [], None)
    else
      match Feed(r, apply, bs[0])
      case Err(e) =>
        FeedRaises(r, apply, bs[0]);
        Drained(r, bs[1..], Some(e))
      case Ok(next) => Drain(next, apply, bs[1..])
  }

  /** Only a newline ending a non-blank line raises, with the exception the
      dispatch of the stripped line raises. */
  lemma FeedRaises(r: Reader, apply: Dispatcher, b: Byte)
    requires Feed(r, apply, b).Err?
    ensures b == NEWLINE && !AllSpace(r.buffer)
    ensures apply(r.mixer, Strip(r.buffer)) == Err(Feed(r, apply, b).error)
  {
  }

  /** Bytes without a newline only extend the partial line. */
  lemma {:induction false} DrainWithoutNewline(r: Reader, apply: Dispatcher, bs: seq<Byte>)
    requires NEWLINE !in bs
    ensures Drain(r, apply, bs) == Drained(Reader(r.buffer + Decode(bs), r.mixer), [], None)
    decreases |bs|
  {
    if bs != [] {
      assert bs[0] != NEWLINE && NEWLINE !in bs[1..];
      var next := Reader(r.buffer + DecodeByte(bs[0]), r.mixer);
      DrainWithoutNewline(next, apply, bs[1..]);
      assert next.buffer + Decode(bs[1..]) == r.buffer + Decode(bs);
    }
  }

  /** Draining two runs of bytes one after the other is draining them
      together, as long as the first run raised nothing. */
  lemma {:induction false} DrainConcat(r: Reader, apply: Dispatcher, a: seq<Byte>, b: seq<Byte>)
    requires Drain(r, apply, a).err.None?
    ensures Drain(r, apply, a + b) == Drain(Drain(r, apply, a).reader, apply, b)
    decreases |a|
  {
    if a != [] {
      assert (a + b)[0] == a[0] && (a + b)[1..] == a[1..] + b;
      var next := Feed(r, apply, a[0]);
      assert Drain(r, apply, a) == Drain(next.value, apply, a[1..]);
      DrainConcat(next.value, apply, a[1..], b);
      assert Drain(r, apply, a + b) == Drain(next.value, apply, a[1..] + b);
    } else {
      assert a + b == b;
    }
  }

  /** A drain whose first byte is read without an exception goes on from
      the reader that byte leaves. */
  lemma DrainFirstFeeds(r: Reader, apply: Dispatcher, bs: seq<Byte>)
    requires bs != [] && Feed(r, apply, bs[0]).Ok?
    ensures Drain(r, apply, bs) == Drain(Feed(r, apply, bs[0]).value, apply, bs[1..])
  {
  }

  /** A drain whose first byte raises reads only that byte, a newline. */
  lemma DrainFirstFails(r: Reader, apply: Dispatcher, bs: seq<Byte>)
    requires bs != [] && Feed(r, apply, bs[0]).Err?
    ensures bs[0] == NEWLINE
    ensures Drain(r, apply, bs) == Drained(r, bs[1..], Some(Feed(r, apply, bs[0]).error))
    ensures Drain(r, apply, bs).err.Some? ==> bs[|bs| - |Drain(r, apply, bs).rest| - 1] == NEWLINE
  {
    FeedRaises(r, apply, bs[0]);
  }

  /** `rest` is a tail of `bs`: what is left of `bs` after its first
      `|bs| - |rest|` elements. */
  predicate IsTail(rest: seq<Byte>, bs: seq<Byte>) {
    |rest| <= |bs| && rest == bs[|bs| - |rest|..]
  }

  /** The bytes a drain leaves unread are the tail of the bytes it was
      given. */
  lemma {:induction false} DrainRestIsSuffix(r: Reader, apply: Dispatcher, bs: seq<Byte>)
    ensures IsTail(Drain(r, apply, bs).rest, bs)
    decreases |bs|
  {
    if bs != [] {
      var f := Feed(r, apply, bs[0]);
      if f.Err? {
        SuffixAtFirstByte(r, apply, bs);
      } else {
        DrainRestIsSuffix(f.value, apply, bs[1..]);
        SuffixAfterFirstByte(r, apply, bs, Drain(f.value, apply, bs[1..]).rest);
      }
    }
  }

  /** `DrainRestIsSuffix` for a drain whose first byte raises. */
  lemma SuffixAtFirstByte(r: Reader, apply: Dispatcher, bs: seq<Byte>)
    requires bs != [] && Feed(r, apply, bs[0]).Err?
    ensures IsTail(Drain(r, apply, bs).rest, bs)
  {
    DrainFirstFails(r, apply, bs);
  }

  /** The step of `DrainRestIsSuffix` past a first byte that was read
      without an exception. */
  lemma SuffixAfterFirstByte(r: Reader, apply: Dispatcher, bs: seq<Byte>, tail: seq<Byte>)
    requires bs != [] && Feed(r, apply, bs[0]).Ok?
    requires tail == Drain(Feed(r, apply, bs[0]).value, apply, bs[1..]).rest
    requires IsTail(tail, bs[1..])
    ensures IsTail(Drain(r, apply, bs).rest, bs)
  {
    DrainFirstFeeds(r, apply, bs);
    TailOfTail(bs, tail);
  }

  /** A tail of `bs[1..]` is a tail of `bs`. */
  lemma TailOfTail(bs: seq<Byte>, rest: seq<Byte>)
    requires bs != [] && IsTail(rest, bs[1..])
    ensures IsTail(rest, bs)
  {
    assert bs[1..][|bs[1..]| - |rest|..] == bs[|bs| - |rest|..];
  }

  /** When an exception ended a drain, the last byte it read, just before
      the unread ones, is the newline that raised. */
  lemma {:induction false} DrainFailsAfterNewline(r: Reader, apply: Dispatcher, bs: seq<Byte>)
    ensures Drain(r, apply, bs).err.Some? ==> bs[|bs| - |Drain(r, apply, bs).rest| - 1] == NEWLINE
    decreases |bs|
  {
    if bs != [] {
      if Feed(r, apply, bs[0]).Err? {
        DrainFirstFails(r, apply, bs);
      } else {
        DrainFailsAfterNewline(Feed(r, apply, bs[0]).value, apply, bs[1..]);
        FailsAfterFirstByte(r, apply, bs);
      }
    }
  }

  /** The step of `DrainFailsAfterNewline` past a first byte that was read
      without an exception. */
  lemma FailsAfterFirstByte(r: Reader, apply: Dispatcher, bs: seq<Byte>)
    requires bs != [] && Feed(r, apply, bs[0]).Ok?
    requires Drain(Feed(r, apply, bs[0]).value, apply, bs[1..]).err.Some? ==>
             bs[1..][|bs[1..]| - |Drain(Feed(r, apply, bs[0]).value, apply, bs[1..]).rest| - 1] == NEWLINE
    ensures Drain(r, apply, bs).err.Some? ==> bs[|bs| - |Drain(r, apply, bs).rest| - 1] == NEWLINE
  {
    DrainFirstFeeds(r, apply, bs);
    FailureStep(bs, Drain(Feed(r, apply, bs[0]).value, apply, bs[1..]));
  }

  /** Counted from the end, a byte of `bs[1..]` is the same byte of `bs`. */
  lemma FailureStep(bs: seq<Byte>, d: Drained)
    requires bs != []
    requires d.err.Some? ==> |d.rest| < |bs| - 1 && bs[1..][|bs| - 1 - |d.rest| - 1] == NEWLINE
    ensures d.err.Some? ==> |d.rest| < |bs| && bs[|bs| - |d.rest| - 1] == NEWLINE
  {
  }

  /** A line whose dispatch raises stops the drain right after its newline:
      the bytes before it only filled the buffer, the failed text stays
      buffered, and every byte after the newline is left unread. */
  lemma DrainStopsAtFailure(r: Reader, apply: Dispatcher, b: seq<Byte>, c: seq<Byte>)
    requires NEWLINE !in b
    requires LineEnd(Reader(r.buffer + Decode(b), r.mixer), apply).err.Some?
    ensures Drain(r, apply, b + ([NEWLINE] + c))
            == Drained(Reader(r.buffer + Decode(b), r.mixer), c,
                       LineEnd(Reader(r.buffer + Decode(b), r.mixer), apply).err)
  {
    var filled := Reader(r.buffer + Decode(b), r.mixer);
    DrainWithoutNewline(r, apply, b);
    DrainConcat(r, apply, b, [NEWLINE] + c);
    assert ([NEWLINE] + c)[0] == NEWLINE && ([NEWLINE] + c)[1..] == c;
    assert Drain(filled, apply, [NEWLINE] + c) == Drained(filled, c, LineEnd(filled, apply).err);
  }

  /** A line that arrives in pieces, over several drains, is dispatched
      exactly once and as a whole: the earlier pieces only fill the buffer
      (`DrainWithoutNewline`), and the piece that carries the newline
      dispatches everything buffered followed by that piece. */
  lemma CompleteLine(r: Reader, apply: Dispatcher, b: seq<Byte>)
    requires NEWLINE !in b
    ensures Drain(r, apply, b + [NEWLINE]) == LineEnd(Reader(r.buffer + Decode(b), r.mixer), apply)
  {
    DrainWithoutNewline(r, apply, b);
    DrainConcat(r, apply, b, [NEWLINE]);
    DrainLineEnd(Reader(r.buffer + Decode(b), r.mixer), apply);
  }

  /** The line `SETVOL:<n>` arriving as `SETVOL:` in one poll and as `<n>`
      plus the newline in the next (whatever bytes carry them, as long as
      they decode to that text): the first poll applies nothing, the second
      applies the joined line once, moving the selected track's level by `n`
      steps. */
  lemma SetVolSplitAcrossPolls(r: Reader, math: Transcendentals, n: int, head: seq<Byte>, tail: seq<Byte>)
    requires r.buffer == [] && HasSelection(r.mixer)
    requires NEWLINE !in head && Decode(head) == SETVOL
    requires NEWLINE !in tail && Decode(tail) == IntToString(n)
    ensures var first := Drain(r, Interpreter(math), head);
            var second := Drain(first.reader, Interpreter(math), tail + [NEWLINE]);
            && first == Drained(Reader(SETVOL, r.mixer), [], None)
            && Operand(SETVOL + IntToString(n)) == Ok(n)
            && second == Drained(Reader([], SetVol(r.mixer, math, SETVOL + IntToString(n)).value), [], None)
  {
    var apply := Interpreter(math);
    DrainWithoutNewline(r, apply, head);
    assert r.buffer + SETVOL == SETVOL;
    CompleteLine(Reader(SETVOL, r.mixer), apply, tail);
    SetVolLineApplies(r.mixer, math, n);
  }

  /** The completed line `SETVOL:<n>` applies `SETVOL` with operand `n`. */
  lemma SetVolLineApplies(m: Mixer, math: Transcendentals, n: int)
    requires HasSelection(m)
    ensures Operand(SETVOL + IntToString(n)) == Ok(n)
    ensures LineEnd(Reader(SETVOL + IntToString(n), m), Interpreter(math))
            == Drained(Reader([], SetVol(m, math, SETVOL + IntToString(n)).value), [], None)
  {
    var line := SETVOL + IntToString(n);
    assert "SETVOL:"[..6] == "SETVOL";
    SmallOperand(SETVOL, n);
    StripNumberLine(SETVOL, n);
    assert StartsWith(line, SETVOL);
    LineEndApplies(Reader(line, m), Interpreter(math));
  }

  /** A line made of a word and the text `str(n)` writes has no surrounding
      whitespace to strip. */
  lemma StripNumberLine(prefix: string, n: int)
    requires prefix != [] && !IsSpace(prefix[0])
    ensures Strip(prefix + IntToString(n)) == prefix + IntToString(n)
  {
    var digits := IntToString(n);
    var line := prefix + digits;
    assert line[0] == prefix[0];
    assert line[|line| - 1] == digits[|digits| - 1];
  }

  /** A newline ending a non-blank line whose dispatch succeeds empties the
      buffer and leaves the dispatched state. */
  lemma LineEndApplies(r: Reader, apply: Dispatcher)
    requires !AllSpace(r.buffer) && apply(r.mixer, Strip(r.buffer)).Ok?
    ensures LineEnd(r, apply) == Drained(Reader([], apply(r.mixer, Strip(r.buffer)).value), [], None)
  {
  }

  /** What a newline does to a reader: the outcome of `Feed`, with the
      reader kept as it was when the dispatch raised. */
  function LineEnd(r: Reader, apply: Dispatcher): Drained {
    var f := Feed(r, apply, NEWLINE);
    if f.Ok? then Drained(f.value, [], None) else Drained(r, [], Some(f.error))
  }

  /** A lone newline ends the partial line and nothing else. */
  lemma DrainLineEnd(r: Reader, apply: Dispatcher)
    ensures Drain(r, apply, [NEWLINE]) == LineEnd(r, apply)
  {
    assert [NEWLINE][1..] == [];
  }

  /** What the reporter shows of a track: its ASCII name and the controller
      values of its level and pan. */
  datatype Status = Status(name: string, vol: int, pan: int)

  /** The values `send_track_info` reads and converts for one track. */
  function TrackStatus(t: Track, math: Transcendentals): (st: Status)
    ensures forall i :: 0 <= i < |st.name| ==> st.name[i] as int < 128
    ensures 0 <= st.vol <= MIDI_MAX
    ensures -1.0 <= t.pan <= 1.0 ==> 0 <= st.pan <= MIDI_MAX
    ensures t.vol <= GAIN_FLOOR ==> st.vol == 0
  {
    Status(AsciiOnly(t.name), DbToMidi(LinearToDb(math, t.vol)), PanToMidi(t.pan))
  }

  /** `f"NAME:{name}|VOL:{vm}|PAN:{pm}\n"`: one line, ended by its only
      newline when the name holds none, and pure ASCII when the name is. */
  function StatusLine(st: Status): (line: string)
    ensures |line| > 0 && line[|line| - 1] == '\n'
    ensures '\n' !in st.name ==> '\n' !in line[..|line| - 1]
    ensures (forall i :: 0 <= i < |st.name| ==> st.name[i] as int < 128) ==>
              forall i :: 0 <= i < |line| ==> line[i] as int < 128
  {
    var text := "NAME:" + st.name + "|VOL:" + IntToString(st.vol) + "|PAN:" + IntToString(st.pan);
    StatusTextHasNoNewline(st);
    StatusTextIsAscii(st);
    assert (text + "\n")[..|text|] == text;
    text + "\n"
  }

  /** The fields of a status line hold no newline when the name holds
      none: the numbers are digits and a sign. */
  lemma StatusTextHasNoNewline(st: Status)
    ensures '\n' !in st.name ==>
      '\n' !in "NAME:" + st.name + "|VOL:" + IntToString(st.vol) + "|PAN:" + IntToString(st.pan)
  {
    var vol := IntToString(st.vol);
    var pan := IntToString(st.pan);
    assert '\n' !in vol && '\n' !in pan;
  }

  /** The fields of a status line are ASCII when the name is. */
  lemma StatusTextIsAscii(st: Status)
    ensures (forall i :: 0 <= i < |st.name| ==> st.name[i] as int < 128) ==>
      var text := "NAME:" + st.name + "|VOL:" + IntToString(st.vol) + "|PAN:" + IntToString(st.pan);
      forall i :: 0 <= i < |text| ==> text[i] as int < 128
  {
  }

  /** The line `send_track_info` would send for the selected track; reading a
      track the project lacks raises. The line is pure ASCII, so encoding it
      for the serial port cannot fail. */
  function Report(m: Mixer, math: Transcendentals): (r: Result<string>)
    ensures r.Err? <==> !HasSelection(m)
    ensures r.Err? ==> r.error == MissingTrack
    ensures r.Ok? ==> r.value == StatusLine(TrackStatus(m.tracks[m.selected], math))
    ensures r.Ok? ==> forall i :: 0 <= i < |r.value| ==> r.value[i] as int < 128
  {
    if !HasSelection(m) then Err(MissingTrack)
    else
      Ok(StatusLine(TrackStatus(m.tracks[m.selected], math)))
  }

  /** A receiver reading a field `LABEL:<n>` of a status line with
      `int(field.split(":")[1])` gets back the value that was sent. */
  lemma StatusFieldValues(st: Status)
    ensures Operand("VOL:" + IntToString(st.vol)) == Ok(st.vol)
    ensures Operand("PAN:" + IntToString(st.pan)) == Ok(st.pan)
  {
    assert "VOL:"[..3] == "VOL" && "PAN:"[..3] == "PAN";
    SmallOperand("VOL:", st.vol);
    SmallOperand("PAN:", st.pan);
  }

  /** Splitting a status line, newline removed, on `|` gives its three
      fields, as long as the track name holds no `|`. */
  lemma StatusLineSplits(st: Status)
    requires '|' !in st.name
    ensures var line := StatusLine(st);
            Split(line[..|line| - 1], '|')
            == ["NAME:" + st.name, "VOL:" + IntToString(st.vol), "PAN:" + IntToString(st.pan)]
  {
    var fields := ["NAME:" + st.name, "VOL:" + IntToString(st.vol), "PAN:" + IntToString(st.pan)];
    var line := StatusLine(st);
    StatusLineIsJoin(st, fields);
    assert line[..|line| - 1] == Join(fields, '|');
    NoBarInNumberField("VOL:", st.vol);
    NoBarInNumberField("PAN:", st.pan);
    SplitJoin(fields, '|');
  }

  /** A status line is its three fields joined by `|`, then a newline. The
      field list is a parameter pinned by `requires`, so that the string
      literals appear once and a caller can name the list it goes on to use;
      repeating them inside the `ensures` makes the proof much costlier. */
  lemma StatusLineIsJoin(st: Status, fields: seq<string>)
    requires fields == ["NAME:" + st.name, "VOL:" + IntToString(st.vol), "PAN:" + IntToString(st.pan)]
    ensures StatusLine(st) == Join(fields, '|') + "\n"
  {
    assert Join(fields[2..], '|') == fields[2];
    assert Join(fields[1..], '|') == fields[1] + ['|'] + fields[2];
    assert Join(fields, '|') == fields[0] + ['|'] + (fields[1] + ['|'] + fields[2]);
    assert "|VOL:" == ['|'] + "VOL:" && "|PAN:" == ['|'] + "PAN:";
  }

  lemma NoBarInNumberField(head: string, n: int)
    requires '|' !in head
    ensures '|' !in head + IntToString(n)
  {
    var digits := IntToString(n);
    assert forall i :: 0 <= i < |digits| ==> digits[i] != '|';
  }

  /** The whole controller session: the reader state, the last status line
      sent, whether the serial port is open, and the port's two directions
      (bytes waiting to be read, lines written). */
  datatype Session = Session(
    reader: Reader,
    lastSent: string,
    connected: bool,
    inbox: seq<Byte>,
    outbox: seq<string>)

  /** The session at process start: nothing buffered, track 0 selected,
      nothing sent, port not yet open. */
  function Initial(tracks: seq<Track>): (s: Session)
    ensures Invariant(s)
    ensures s.reader.buffer == [] && s.reader.mixer.tracks == tracks
    ensures HasSelection(s.reader.mixer) <==> tracks != []
    ensures !s.connected && s.outbox == [] && s.lastSent == []
  {
    Session(Reader([], Mixer(tracks, 0)), [], false, [], [])
  }

  /** The result of one invocation of the poll loop. */
  datatype Step = Step(state: Session, err: Option<Error>)

  /** `send_track_info`'s write: the line goes out only when it differs from
      the last one sent. */
  function Transmission(lastSent: string, line: string): (out: seq<string>)
    ensures out == [] <==> line == lastSent
    ensures out != [] ==> out == [line]
  {
    if line != lastSent then [line] else []
  }

  /** One invocation of `loop`, with `apply` as its command interpreter.
      Before the port is open it only opens it. Afterwards it drains every
      waiting byte, then reports the selected track; an exception in either
      ends the invocation early, is swallowed, and leaves what was done
      before it in place. Every invocation on an open port reads at least
      one waiting byte, or all of them. */
  function Cycle(s: Session, apply: Dispatcher, math: Transcendentals): (r: Step)
    ensures r.state.connected
    ensures !s.connected ==> r == Step(s.(connected := true), None)
    ensures s.connected ==> |r.state.inbox| < |s.inbox| || r.state.inbox == []
  {
    if !s.connected then Step(s.(connected := true), None)
    else
      var d := Drain(s.reader, apply, s.inbox);
      var drained := s.(reader := d.reader, inbox := d.rest);
      if d.err.Some? then Step(drained, d.err)
      else
        match Report(d.reader.mixer, math)
        case Err(e) => Step(drained, Some(e))
        case Ok(line) =>
          Step(drained.(lastSent := line, outbox := s.outbox + Transmission(s.lastSent, line)), None)
  }

  /** A line is written only when it differs from the last one written, and
      after an invocation that raised nothing every waiting byte has been
      read and the last line sent is the selected track's current status. */
  lemma CycleTransmits(s: Session, apply: Dispatcher, math: Transcendentals)
    ensures var r := Cycle(s, apply, math);
      && |s.outbox| <= |r.state.outbox| <= |s.outbox| + 1
      && r.state.outbox[..|s.outbox|] == s.outbox
      && (|r.state.outbox| > |s.outbox| ==>
            r.state.outbox[|s.outbox|] == r.state.lastSent != s.lastSent)
      && (|r.state.outbox| == |s.outbox| ==> r.state.lastSent == s.lastSent)
      && (s.connected && r.err.None? ==>
            r.state.inbox == [] && Report(r.state.reader.mixer, math) == Ok(r.state.lastSent))
  {
  }

  /** `Cycle` applied `k` times, with no new bytes arriving in between.
      Repeated invocations only ever append to what was written, and leave
      the port open once it is. */
  function Cycles(s: Session, apply: Dispatcher, math: Transcendentals, k: nat): (r: Session)
    ensures |s.outbox| <= |r.outbox| && r.outbox[..|s.outbox|] == s.outbox
    ensures k > 0 || s.connected ==> r.connected
    decreases k
  {
    if k == 0 then s
    else
      var next := Cycle(s, apply, math).state;
      CycleTransmits(s, apply, math);
      var r := Cycles(next, apply, math, k - 1);
      assert r.outbox[..|s.outbox|] == r.outbox[..|next.outbox|][..|s.outbox|];
      r
  }

  /** An interpreter that never makes the selection negative. */
  ghost predicate KeepsSelectionNatural(apply: Dispatcher) {
    forall m: Mixer, line: string ::
      m.selected >= 0 && apply(m, line).Ok? ==> apply(m, line).value.selected >= 0
  }

  /** `apply_command` never makes the selection negative: only `JOG` moves
      it, and Python's `%` by a positive count is never negative. */
  lemma InterpreterKeepsSelectionNatural(math: Transcendentals)
    ensures KeepsSelectionNatural(Interpreter(math))
  {
    var apply := Interpreter(math);
    forall m: Mixer, line: string | m.selected >= 0 && apply(m, line).Ok?
      ensures apply(m, line).value.selected >= 0
    {
      PrefixesExclusive(line);
    }
  }

  /** What every reachable session satisfies: the partial line never holds a
      newline, and the selection is never negative. */
  predicate Invariant(s: Session) {
    NEWLINE as char !in s.reader.buffer && s.reader.mixer.selected >= 0
  }

  lemma {:induction false} DrainKeepsInvariant(r: Reader, apply: Dispatcher, bs: seq<Byte>)
    requires KeepsSelectionNatural(apply)
    requires NEWLINE as char !in r.buffer && r.mixer.selected >= 0
    ensures var d := Drain(r, apply, bs);
            NEWLINE as char !in d.reader.buffer && d.reader.mixer.selected >= 0
    decreases |bs|
  {
    if bs != [] {
      match Feed(r, apply, bs[0])
      case Err(_) =>
      case Ok(next) =>
        assert next.mixer.selected >= 0 by {
          if bs[0] == NEWLINE && !AllSpace(r.buffer) {
            assert apply(r.mixer, Strip(r.buffer)).Ok?;
          }
        }
        DrainKeepsInvariant(next, apply, bs[1..]);
    }
  }

  /** Every invocation of the poll loop keeps the invariant, whatever bytes
      arrive and whatever fails, so the loop can always be invoked again. */
  lemma CycleKeepsInvariant(s: Session, math: Transcendentals)
    requires Invariant(s)
    ensures Invariant(Cycle(s, Interpreter(math), math).state)
  {
    InterpreterKeepsSelectionNatural(math);
    DrainKeepsInvariant(s.reader, Interpreter(math), s.inbox);
  }

  /** Edge-triggered reporting: once an invocation has run with nothing to
      read, a further one with nothing new to read changes nothing and sends
      nothing, so a steady state produces exactly one line. */
  lemma QuietCycleIsIdempotent(s: Session, apply: Dispatcher, math: Transcendentals)
    requires s.connected && s.inbox == []
    ensures Cycle(Cycle(s, apply, math).state, apply, math) == Cycle(s, apply, math)
  {
  }

  /** A cycle that raises still consumes the newline that raised, so waiting
      bytes are never stuck: after as many invocations as there were waiting
      bytes, all of them have been read. */
  lemma {:induction false} CyclesDrainInbox(s: Session, apply: Dispatcher, math: Transcendentals, k: nat)
    requires s.connected && k >= |s.inbox|
    ensures Cycles(s, apply, math, k).inbox == []
    decreases k
  {
    if k > 0 {
      var next := Cycle(s, apply, math).state;
      CyclesDrainInbox(next, apply, math, k - 1);
      assert Cycles(s, apply, math, k) == Cycles(next, apply, math, k - 1);
    }
  }

  /** The `SETVOL:` characters in a buffer are followed by a character that
      `int()` cannot start with, so every line that buffer grows into fails. */
  predicate Poisoned(buffer: string) {
    && |buffer| > |SETVOL|
    && buffer[..|SETVOL|] == SETVOL
    && var c := buffer[|SETVOL|];
       !IsSpace(c) && !IsDigit(c) && c != '+' && c != '-' && c != ':'
  }

  /** A line that fails stays in the buffer (the reset is skipped), and every
      later byte is appended to it. When the failed line is a `SETVOL` whose
      operand starts with a character `int()` rejects, such as `SETVOL:abc`,
      every later line therefore fails too: no command is ever applied again,
      whatever arrives afterwards. */
  lemma {:induction false} PoisonedBufferBlocksCommands(r: Reader, math: Transcendentals, bs: seq<Byte>)
    requires Poisoned(r.buffer)
    ensures Drain(r, Interpreter(math), bs).reader.mixer == r.mixer
    ensures Poisoned(Drain(r, Interpreter(math), bs).reader.buffer)
    ensures NEWLINE in bs ==> Drain(r, Interpreter(math), bs).err == Some(ValueError)
    decreases |bs|
  {
    if bs != [] {
      if bs[0] == NEWLINE {
        PoisonedLineFails(r.mixer, math, r.buffer);
      } else {
        var next := Reader(r.buffer + DecodeByte(bs[0]), r.mixer);
        assert next.buffer[..|SETVOL| + 1] == r.buffer[..|SETVOL| + 1];
        PoisonedBufferBlocksCommands(next, math, bs[1..]);
        assert NEWLINE in bs ==> NEWLINE in bs[1..];
      }
    }
  }

  /** Dispatching a poisoned buffer raises `ValueError`. */
  lemma PoisonedLineFails(m: Mixer, math: Transcendentals, buffer: string)
    requires Poisoned(buffer)
    ensures !AllSpace(buffer)
    ensures ApplyCommand(m, math, Strip(buffer)) == Err(ValueError)
  {
    PoisonedOperand(buffer);
  }

  /** A poisoned buffer, stripped, is a `SETVOL` line whose operand `int()`
      rejects. */
  lemma PoisonedOperand(buffer: string)
    requires Poisoned(buffer)
    ensures !AllSpace(buffer) && StartsWith(Strip(buffer), SETVOL)
    ensures Operand(Strip(buffer)) == Err(ValueError)
  {
    var k := |SETVOL|;
    assert buffer[0] == 'S';
    StripKeepsHead(buffer, k);
    var line := Strip(buffer);
    assert line[k] == buffer[k];
    assert "SETVOL:"[..6] == "SETVOL";
    OperandRejected(line, "SETVOL");
  }

  /** The operand of `<name>:<c>...`, where `int()` cannot start with `c`,
      raises `ValueError`. */
  lemma OperandRejected(line: string, name: string)
    requires ':' !in name && StartsWith(line, name + ":") && |line| > |name| + 1
    requires var c := line[|name| + 1];
             !IsSpace(c) && !IsDigit(c) && c != '+' && c != '-' && c != ':'
    ensures Operand(line) == Err(ValueError)
  {
    var k := |name| + 1;
    var c := line[k];
    OperandAfterPrefix(line, name);
    var field := Split(line[k..], ':')[0];
    FirstFieldHead(line[k..], ':');
    assert field[0] == c;
    StripKeepsHead(field, 0);
    assert Strip(field)[0] == c;
    assert ParseInt(field) == None;
  }

  /** Stripping text whose first character and whose position `k` are not
      whitespace keeps its first `k + 1` characters. */
  lemma StripKeepsHead(s: string, k: nat)
    requires k < |s| && !IsSpace(s[0]) && !IsSpace(s[k])
    ensures |Strip(s)| > k && Strip(s)[..k + 1] == s[..k + 1]
  {
    var l := LStrip(s);
    assert l == s;
  }

  /** The first field of a split starts with the text's first character,
      unless that is the separator. */
  lemma FirstFieldHead(s: string, sep: char)
    requires s != [] && s[0] != sep
    ensures Split(s, sep)[0] != [] && Split(s, sep)[0][0] == s[0]
  {
  }

  /** Once poisoned, the controller applies no command in any later
      invocation, whatever bytes arrive. */
  lemma {:induction false} PoisonedSessionIsStuck(s: Session, math: Transcendentals, k: nat)
    requires Poisoned(s.reader.buffer)
    ensures Cycles(s, Interpreter(math), math, k).reader.mixer == s.reader.mixer
    ensures Poisoned(Cycles(s, Interpreter(math), math, k).reader.buffer)
    decreases k
  {
    if k > 0 {
      PoisonedBufferBlocksCommands(s.reader, math, s.inbox);
      PoisonedSessionIsStuck(Cycle(s, Interpreter(math), math).state, math, k - 1);
    }
  }

  /** The same bytes as in `ClearingReaderRecovers`, read by the script's
      reader: the failed text stays buffered, so the `JOG:<n>` line that
      follows is dispatched glued behind it instead of on its own. */
  lemma FailedLineAbsorbsJog(r: Reader, math: Transcendentals, bad: seq<Byte>, jog: seq<Byte>, n: int)
    requires NEWLINE !in bad
    requires LineEnd(Reader(r.buffer + Decode(bad), r.mixer), Interpreter(math)).err.Some?
    requires NEWLINE !in jog && Decode(jog) == JOG + IntToString(n)
    ensures Drain(r, Interpreter(math), bad + ([NEWLINE] + (jog + [NEWLINE])))
            == Drained(Reader(r.buffer + Decode(bad), r.mixer), jog + [NEWLINE],
                       LineEnd(Reader(r.buffer + Decode(bad), r.mixer), Interpreter(math)).err)
    ensures Drain(Reader(r.buffer + Decode(bad), r.mixer), Interpreter(math), jog + [NEWLINE])
            == LineEnd(Reader(r.buffer + Decode(bad) + (JOG + IntToString(n)), r.mixer), Interpreter(math))
  {
    CompleteLine(Reader(r.buffer + Decode(bad), r.mixer), Interpreter(math), jog);
    DrainStopsAtFailure(r, Interpreter(math), bad, jog + [NEWLINE]);
  }

  /** A byte read by the corrected reader: the reader it leaves and the
      exception raised, if any. */
  datatype Fed = Fed(reader: Reader, err: Option<Error>)

  /** One turn of the byte loop with the reset `buffer = ""` done whatever
      the dispatch does, as a `finally` around `apply_command` would. Every
      newline empties the buffer; a dispatch that raises leaves the mixer as
      it was. Otherwise it is `Feed`. */
  function FeedClearing(r: Reader, apply: Dispatcher, b: Byte): (f: Fed)
    ensures b == NEWLINE ==> f.reader.buffer == []
    ensures f.err.None? <==> Feed(r, apply, b).Ok?
    ensures f.err.None? ==> f.reader == Feed(r, apply, b).value
    ensures f.err.Some? ==> f.reader.mixer == r.mixer && f.err.value == Feed(r, apply, b).error
  {
    if b == NEWLINE then
      var line := Strip(r.buffer);
      var applied := if line != [] then apply(r.mixer, line) else Ok(r.mixer);
      if applied.Ok? then Fed(Reader([], applied.value), None)
      else Fed(Reader([], r.mixer), Some(applied.error))
    else Fed(Reader(r.buffer + DecodeByte(b), r.mixer), None)
  }

  /** The byte loop built on `FeedClearing`. An exception still ends the
      loop and leaves the later bytes unread, but the buffer it leaves is
      empty. */
  function DrainClearing(r: Reader, apply: Dispatcher, bs: seq<Byte>): (d: Drained)
    ensures d.err.None? ==> d.rest == []
    ensures d.err.Some? ==> |d.rest| < |bs| && d.reader.buffer == []
    decreases |bs|
  {
    if bs == [] then Drained(r, [], None)
    else
      var f := FeedClearing(r, apply, bs[0]);
      if f.err.Some? then Drained(f.reader, bs[1..], f.err)
      else DrainClearing(f.reader, apply, bs[1..])
  }

  /** The corrected loop differs from the script's only in the buffer it
      leaves after an exception: the same bytes are read, the same mixer
      results and the same exception is raised. */
  lemma {:induction false} DrainClearingResets(r: Reader, apply: Dispatcher, bs: seq<Byte>)
    ensures Drain(r, apply, bs).err.None? ==> DrainClearing(r, apply, bs) == Drain(r, apply, bs)
    ensures Drain(r, apply, bs).err.Some? ==>
      DrainClearing(r, apply, bs)
      == Drained(Reader([], Drain(r, apply, bs).reader.mixer), Drain(r, apply, bs).rest, Drain(r, apply, bs).err)
    decreases |bs|
  {
    if bs != [] {
      if Feed(r, apply, bs[0]).Err? {
        DrainFirstFails(r, apply, bs);
      } else {
        DrainFirstFeeds(r, apply, bs);
        DrainClearingResets(Feed(r, apply, bs[0]).value, apply, bs[1..]);
      }
    }
  }

  /** With the corrected reader a line whose dispatch raises is dropped
      with its newline: the buffer is left empty, the mixer as it was, and
      the bytes after the newline unread. */
  lemma ClearingReaderDropsFailedLine(r: Reader, apply: Dispatcher, bad: seq<Byte>, c: seq<Byte>)
    requires NEWLINE !in bad
    requires LineEnd(Reader(r.buffer + Decode(bad), r.mixer), apply).err.Some?
    ensures DrainClearing(r, apply, bad + ([NEWLINE] + c))
            == Drained(Reader([], r.mixer), c, LineEnd(Reader(r.buffer + Decode(bad), r.mixer), apply).err)
  {
    DrainStopsAtFailure(r, apply, bad, c);
    DrainClearingResets(r, apply, bad + ([NEWLINE] + c));
  }

  /** A `JOG:<n>` line on an empty buffer moves the selection by `n`. */
  lemma ClearedJogLine(m: Mixer, math: Transcendentals, jog: seq<Byte>, n: int)
    requires NEWLINE !in jog && Decode(jog) == JOG + IntToString(n)
    requires |m.tracks| > 0
    ensures DrainClearing(Reader([], m), Interpreter(math), jog + [NEWLINE])
            == Drained(Reader([], m.(selected := FloorMod(m.selected + n, |m.tracks|))), [], None)
  {
    var clean := Reader([], m);
    CompleteLine(clean, Interpreter(math), jog);
    assert clean.buffer + Decode(jog) == JOG + IntToString(n);
    JogLineApplies(m, math, n);
    DrainClearingResets(clean, Interpreter(math), jog + [NEWLINE]);
  }

  /** With the corrected reader a failed line does not outlive its newline:
      after any line whose dispatch raises, the buffer is empty, and a
      following `JOG:<n>` line, in the bytes the exception left unread, moves
      the selection by `n`. */
  lemma ClearingReaderRecovers(r: Reader, math: Transcendentals, bad: seq<Byte>, jog: seq<Byte>, n: int)
    requires NEWLINE !in bad
    requires LineEnd(Reader(r.buffer + Decode(bad), r.mixer), Interpreter(math)).err.Some?
    requires NEWLINE !in jog && Decode(jog) == JOG + IntToString(n)
    requires |r.mixer.tracks| > 0
    ensures DrainClearing(r, Interpreter(math), bad + ([NEWLINE] + (jog + [NEWLINE])))
            == Drained(Reader([], r.mixer), jog + [NEWLINE],
                       LineEnd(Reader(r.buffer + Decode(bad), r.mixer), Interpreter(math)).err)
    ensures DrainClearing(Reader([], r.mixer), Interpreter(math), jog + [NEWLINE])
            == Drained(Reader([], Mixer(r.mixer.tracks, FloorMod(r.mixer.selected + n, |r.mixer.tracks|))), [], None)
  {
    ClearedJogLine(r.mixer, math, jog, n);
    ClearingReaderDropsFailedLine(r, Interpreter(math), bad, jog + [NEWLINE]);
  }

  /** The completed line `JOG:<n>` moves the selection by `n`. */
  lemma JogLineApplies(m: Mixer, math: Transcendentals, n: int)
    requires |m.tracks| > 0
    ensures LineEnd(Reader(JOG + IntToString(n), m), Interpreter(math))
            == Drained(Reader([], m.(selected := FloorMod(m.selected + n, |m.tracks|))), [], None)
  {
    StripNumberLine(JOG, n);
    JogLine(m, math, n);
    LineEndApplies(Reader(JOG + IntToString(n), m), Interpreter(math));
  }
}
