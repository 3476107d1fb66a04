# REAPER serial fader controller, modelled in Dafny

A script runs inside the REAPER host (`python/reaper_controller.py`) and
couples it to a hardware fader box on a serial line. The host calls `loop`
again and again. The first call opens the port. Every later call does three
things:

- it reads the bytes that are waiting and assembles them into lines;
- it applies each line to the selected track: `SETVOL:<d>` moves the level
  by `0.75·d` dB inside [-60, 12] dB, `SETPAN:<d>` moves the pan by
  `0.02·d` inside [-1, 1], and `JOG:<d>` moves the selection by `d` and wraps
  around the track count;
- it reports the selected track as `NAME:<name>|VOL:<0..127>|PAN:<0..127>`,
  sending the line only when it differs from the last line sent.

The model has two levels.

- The value level states every operation as a function on values.
  - `text.dfy` (`PyText`) writes out the Python builtins the script relies
    on: `strip`, `startswith`, `split`, `int()`, the decimal text of an
    `int`, and the ASCII filter.
  - `units.dfy` (`Units`) holds the unit converters, including Python's
    round-half-to-even.
  - `commands.dfy` (`Commands`) models the three commands and the prefix
    dispatch as functions on a `Mixer` value (the track table and the
    selection). Each exception becomes an `Err` value.
  - `protocol.dfy` (`Protocol`) models the line reader (`Feed`, `Drain`),
    the reporter (`Report`) and one call of `loop` (`Cycle`) as functions on
    a `Session` value. It also holds the lemmas about several calls.
- The object level, `session.dfy` (`Session`), is imperative. The script's
  globals are fields of a `Controller` and the host's tracks are a field of
  a `Host`. Every script function that changes state is a method that
  updates those fields in place, and every such method's postcondition
  equates its effect with the value-level function. `Controller.ReadWaiting` runs the byte loop of `loop` as a
  `while` loop proved against `Drain`, and `Controller.Poll` is one call of
  `loop`.

Two behaviours of the script are worth knowing. The model follows the code
in both.

- **The selection is not kept inside the track range.** The modulo at
  `python/reaper_controller.py:53` is the only place the selection changes,
  and the selection starts at 0 (line 12) whatever the project holds.
  Deleting tracks in the host can leave it out of range, it is out of range
  from the start in an empty project, and `JOG` on an empty project raises
  `ZeroDivisionError` at line 53. The model keeps only `selected >= 0`
  (`Protocol.CycleKeepsInvariant`). The range invariant holds only while
  the track count stays fixed (`Commands.ApplyCommandKeepsSelection`). In
  the model, a `SETVOL` or `SETPAN` line on an out-of-range selection raises
  `MissingTrack`, so that line stays in the buffer, as the next point
  describes. That outcome follows from how the model treats a host call on
  a missing track; the script's text does not settle it.
- **A failed line stays in the buffer.** The reset `buffer = ""` at
  `python/reaper_controller.py:98` comes after `apply_command` (line 97),
  so a command that raises skips it. The failed text stays, and later bytes
  are appended to it. Take a `SETVOL` line whose operand starts with a
  character `int()` rejects, such as `SETVOL:abc`. Every line after it then
  fails in `int()` too, for example `SETVOL:abcJOG:1`, and no command is
  applied for the rest of the session (`Protocol.PoisonedSessionIsStuck`).
  The loop itself keeps running and keeps reading:
  `Protocol.CyclesDrainInbox` shows that no waiting byte is ever stuck. The
  table under "## Findings" sets this against a reader that resets the
  buffer whatever the dispatch does.

## Model

| member | source | states |
|---|---|---|
| PyText.LStrip | python/reaper_controller.py:95 | what leading-whitespace removal drops is whitespace, and what it keeps is a suffix of the text that does not start with whitespace |
| PyText.RStrip | python/reaper_controller.py:95 | what trailing-whitespace removal drops is whitespace, and what it keeps is a prefix of the text that does not end with whitespace |
| PyText.StartsWith | python/reaper_controller.py:71-75 | `cmd.startswith(p)` holds exactly when `cmd` is `p` followed by the rest of `cmd` |
| PyText.Strip | python/reaper_controller.py:95 | the stripped line is empty exactly when the buffer is all whitespace, and otherwise neither starts nor ends with whitespace; text without surrounding whitespace is unchanged |
| PyText.StripBothEnds | python/reaper_controller.py:95 | removing leading and then trailing whitespace leaves nothing exactly for all-whitespace text, leaves no whitespace at the start, and leaves text without surrounding whitespace as it was |
| PyText.Split | python/reaper_controller.py:33 | `split(':')` yields at least one field, and no field contains the separator |
| PyText.SplitFieldCount | python/reaper_controller.py:33 | a split has exactly one field more than the text has separators |
| PyText.OccurrencesZero | python/reaper_controller.py:33 | a character's count is zero exactly when it does not occur, so a line without a colon splits into one field |
| PyText.JoinSplit | python/reaper_controller.py:33 | joining the fields of a split with the separator gives back the original text |
| PyText.SplitJoin | python/reaper_controller.py:33 | splitting the join of separator-free fields gives back the fields |
| PyText.SplitNoSeparator | python/reaper_controller.py:33 | text without the separator splits into a single field |
| PyText.SplitAfterField | python/reaper_controller.py:33 | a separator-free head followed by the separator is the first field, and the remaining fields are the tail's |
| PyText.ParseInt | python/reaper_controller.py:33 | `int()` of blank text fails |
| PyText.ParseDigitRun | python/reaper_controller.py:33 | `int()` reads a bare run of digits as its decimal value |
| PyText.ParseNegativeRun | python/reaper_controller.py:33 | `int()` reads a minus sign and a run of digits as the negated value |
| PyText.NatToString | python/reaper_controller.py:65 | the decimal text of a number is non-empty, all digits, with no leading zero except for 0 |
| PyText.IntToString | python/reaper_controller.py:65 | the decimal text of an int is non-empty ASCII made of digits and a minus sign, with no surrounding whitespace |
| PyText.DigitsValueOfNatToString | python/reaper_controller.py:65 | the digits written for `n` have value `n` |
| PyText.DigitRunOfNatToString | python/reaper_controller.py:65 | the digits written for a natural number form a run `int()` accepts |
| PyText.ParseIntOfNatToString | python/reaper_controller.py:65 | `int(str(n)) == n` for every natural number `n` |
| PyText.ParseIntOfNegative | python/reaper_controller.py:65 | `int()` of a minus sign and the digits of `n` is `-n` |
| PyText.ParseIntOfIntToString | python/reaper_controller.py:65 | `int(str(n)) == n` for every integer `n` |
| PyText.AsciiOnly | python/reaper_controller.py:60 | the filtered name is pure ASCII, no longer than the original, and equal to it when it was already ASCII |
| PyText.AsciiOnlyConcat | python/reaper_controller.py:60 | filtering a concatenation filters each part, so the kept characters stay in their order |
| PyText.AsciiOnlyChar | python/reaper_controller.py:60 | a single character is kept exactly when it is ASCII |
| Units.RoundHalfEven | python/reaper_controller.py:27 | `round` lands within one half of its argument, and a tie goes to the even integer |
| Units.RoundHalfEvenMonotone | python/reaper_controller.py:27 | rounding never reverses the order of two values |
| Units.Round6 | python/reaper_controller.py:15 | `round(x, 6)` is a whole number of millionths within half a millionth of `x` |
| Units.Clamp | python/reaper_controller.py:38 | `max(lo, min(hi, x))` lies in [lo, hi], is `x` inside the range and the nearer bound outside it |
| Units.LinearToDb | python/reaper_controller.py:17-20 | every gain at or below 1e-5 reads as -60 dB |
| Units.DbToLinear | python/reaper_controller.py:14-15 | the written gain is `10^(db/20)` to within half a millionth, in whole millionths |
| Units.DbToMidi | python/reaper_controller.py:22-27 | the result is in 0..127: 0 at or below -60 dB, 127 at or above 12 dB, and in between `round((db + 60) / 72 · 127)`: within one half of that value, with a tie going to the even integer |
| Units.DbToMidiMonotone | python/reaper_controller.py:22-27 | a louder level never gives a lower controller value |
| Units.PanToMidi | python/reaper_controller.py:29-30 | the result is `round((pan + 1) · 63.5)`: within one half of that value, with a tie going to the even integer; on [-1, 1] it is in 0..127, with -1 giving 0 and 1 giving 127 |
| Units.PanToMidiMonotone | python/reaper_controller.py:29-30 | panning further right never gives a lower controller value |
| Units.MidpointsRoundToEven | python/reaper_controller.py:27-30 | centre pan and -24 dB fall on the tie 63.5 and are sent as 64 |
| Commands.Operand | python/reaper_controller.py:33 | `int(cmd.split(":")[1])` raises `IndexError` exactly when the line has no colon, and otherwise raises only `ValueError` |
| Commands.OperandAfterPrefix | python/reaper_controller.py:33 | behind a command prefix the operand is the text up to the next colon |
| Commands.SmallOperand | python/reaper_controller.py:33 | the operand of `<name>:` followed by `str(n)` is `n` |
| Commands.TargetDb | python/reaper_controller.py:36-38 | the new level is the old level plus `0.75·delta` dB, clamped to [-60, 12]; a silent track never goes below -60 dB, and a delta of 96 or more takes it to 12 dB |
| Commands.SetVol | python/reaper_controller.py:32-39 | fails exactly when the operand fails or no track is selected; otherwise only the selected track's gain changes, to the gain of the clamped target level |
| Commands.SetPan | python/reaper_controller.py:41-47 | fails exactly when the operand fails or no track is selected; otherwise only the selected track's pan changes, always to a value in [-1, 1], and to the exact sum when that is in range |
| Commands.SetPanWrites | python/reaper_controller.py:42-47 | with operand `delta` and a selected track, the selected track's pan becomes the old pan plus `0.02·delta`, clamped to [-1, 1] |
| Commands.FloorMod | python/reaper_controller.py:53 | `a % n` for a positive `n` is in [0, n) |
| Commands.FloorModIsPythonMod | python/reaper_controller.py:53 | it equals `a - n·floor(a/n)`, Python's definition |
| Commands.FloorOfQuotient | python/reaper_controller.py:53 | the floor of the exact quotient is the integer quotient |
| Commands.Jog | python/reaper_controller.py:49-54 | fails exactly when the operand fails or the project is empty (`ZeroDivisionError`); otherwise the tracks are untouched and the selection becomes `(old + delta)` floor-mod the track count, which is in range |
| Commands.ApplyCommand | python/reaper_controller.py:70-76 | each prefix runs its command, any other line changes nothing, the track count never changes, a selection change leaves the tracks untouched, and `IndexError` cannot occur |
| Commands.PrefixesExclusive | python/reaper_controller.py:70-76 | no line carries two of the prefixes, so the first match is the only match |
| Commands.ApplyCommandKeepsSelection | python/reaper_controller.py:70-76 | a selection in range stays in range after any command |
| Commands.JogLine | python/reaper_controller.py:49-54 | the line `JOG:<n>` moves the selection by `n` floor-mod the track count |
| Commands.JogDispatch | python/reaper_controller.py:75-76 | a `JOG:` line with operand `n` jogs by `n` |
| Commands.JogMoves | python/reaper_controller.py:51-53 | with operand `n` and at least one track, the selection becomes `(old + n)` floor-mod the track count and nothing else changes |
| Commands.JogRaises | python/reaper_controller.py:51-53 | a jog whose operand does not parse, or that finds no tracks, raises that exception and leaves the selection as it was |
| Commands.JogWrapsAround | python/reaper_controller.py:53 | with four tracks, `JOG:-1` from track 0 selects track 3 and `JOG:4` returns to track 0 |
| Protocol.DecodeByte | python/reaper_controller.py:93 | an ASCII byte gives its character, and any other byte gives nothing |
| Protocol.Interpreter | python/reaper_controller.py:97 | the interpreter the reader dispatches to is `apply_command` |
| Protocol.Feed | python/reaper_controller.py:94-100 | a non-newline byte appends its character; a newline drops a blank line, dispatches a non-blank stripped line exactly once, and leaves an empty buffer unless the dispatch raised |
| Protocol.FeedRaises | python/reaper_controller.py:94-97 | only a newline ending a non-blank line raises, and it raises what dispatching the stripped line raises |
| Protocol.Drain | python/reaper_controller.py:92-100 | without an exception every waiting byte is read; an exception leaves at least one byte read and the failed line in the buffer, where dispatching it raises the same exception |
| Protocol.DrainRestIsSuffix | python/reaper_controller.py:92-100 | the bytes a read leaves unread are the tail of the bytes that were waiting |
| Protocol.SuffixAfterFirstByte | python/reaper_controller.py:92-93 | a read that takes its first byte without an exception leaves unread a tail of the waiting bytes whenever the rest of the read does |
| Protocol.SuffixAtFirstByte | python/reaper_controller.py:92-97 | a read whose first byte raises leaves unread a tail of the waiting bytes |
| Protocol.DrainFailsAfterNewline | python/reaper_controller.py:94-98 | when an exception ended the read, the last byte read, just before the unread ones, is the newline that raised |
| Protocol.DrainStopsAtFailure | python/reaper_controller.py:92-100 | a line whose dispatch raises stops the read just after its newline, keeps the failed text in the buffer, and leaves every later byte unread |
| Protocol.DrainWithoutNewline | python/reaper_controller.py:99-100 | bytes without a newline only extend the partial line and apply nothing |
| Protocol.DrainConcat | python/reaper_controller.py:92-100 | reading bytes in two calls is reading them in one, when the first raised nothing |
| Protocol.DrainLineEnd | python/reaper_controller.py:94-98 | a lone newline ends the partial line and does nothing else |
| Protocol.CompleteLine | python/reaper_controller.py:92-100 | the piece carrying the newline dispatches the buffered text joined with that piece, once |
| Protocol.SetVolSplitAcrossPolls | python/reaper_controller.py:92-100 | `SETVOL:` in one call and `<n>` plus the newline in the next apply nothing and then `SETVOL:<n>` exactly once |
| Protocol.SetVolLineApplies | python/reaper_controller.py:71-72 | a completed `SETVOL:<n>` line applies `apply_setvol` with operand `n` |
| Protocol.FailedLineAbsorbsJog | python/reaper_controller.py:92-100 | after a line whose dispatch raises, the failed text stays buffered and a following `JOG:<n>` line is dispatched glued behind it rather than on its own |
| Protocol.FeedClearing | python/reaper_controller.py:94-100 | the byte step with the reset of line 98 done whatever the dispatch does: every newline empties the buffer, a raising dispatch leaves the mixer unchanged, and in every other case it is `Feed` |
| Protocol.DrainClearing | python/reaper_controller.py:92-100 | the byte loop built on that step: an exception still ends the read, but leaves an empty buffer |
| Protocol.DrainClearingResets | python/reaper_controller.py:92-100 | the corrected loop reads the same bytes, reaches the same mixer and raises the same exception as the script's; only the buffer left after an exception differs, and it is empty |
| Protocol.ClearingReaderDropsFailedLine | python/reaper_controller.py:92-100 | with the corrected loop, a line whose dispatch raises is dropped with its newline: empty buffer, mixer unchanged, later bytes unread |
| Protocol.ClearedJogLine | python/reaper_controller.py:49-54 | on an empty buffer, a `JOG:<n>` line read by the corrected loop moves the selection by `n` floor-mod the track count |
| Protocol.ClearingReaderRecovers | python/reaper_controller.py:92-100 | with the corrected loop, after any failing line the buffer is empty, and the `JOG:<n>` line left unread behind it moves the selection by `n` |
| Protocol.JogLineApplies | python/reaper_controller.py:75-76 | a completed `JOG:<n>` line applies `apply_jog` with operand `n` |
| Protocol.LineEndApplies | python/reaper_controller.py:94-98 | a newline after a non-blank line whose command succeeds empties the buffer and keeps the command's effect |
| Protocol.StripNumberLine | python/reaper_controller.py:95 | a line made of a word and a number written by `str` is unchanged by `strip` |
| Protocol.StatusLine | python/reaper_controller.py:65 | the status line ends with a newline, holds no other newline when the name holds none, and is pure ASCII when the name is |
| Protocol.TrackStatus | python/reaper_controller.py:58-64 | the reported name is ASCII, the volume value is in 0..127 (0 for a silent track), and the pan value is in 0..127 for a pan in [-1, 1] |
| Protocol.Report | python/reaper_controller.py:56-65 | fails exactly when no track is selected; otherwise it is the status line of the selected track, pure ASCII, so encoding it cannot fail |
| Protocol.StatusLineSplits | python/reaper_controller.py:65 | splitting a status line on `|` gives back its three fields when the name has no `|` |
| Protocol.StatusLineIsJoin | python/reaper_controller.py:65 | a status line is its three fields joined by `|`, then a newline |
| Protocol.NoBarInNumberField | python/reaper_controller.py:65 | a number field never contains `|` |
| Protocol.StatusFieldValues | python/reaper_controller.py:65 | reading the `VOL` and `PAN` fields back with `int(field.split(":")[1])` gives the values sent |
| Protocol.Transmission | python/reaper_controller.py:66-68 | a line is written exactly when it differs from the last one sent |
| Protocol.Cycle | python/reaper_controller.py:84-107 | the first call only opens the port; every later call either consumes waiting bytes or empties the input |
| Protocol.Cycles | python/reaper_controller.py:84-107 | repeated calls of `loop`, each scheduled by `RPR_defer` (:88 after the first call, :107 after each later one), only append to what was written, and leave the port open once it is |
| Protocol.CycleTransmits | python/reaper_controller.py:91-105 | the output only grows, by at most one line, which differs from the previous line and becomes the last line sent; an exception-free call reads every byte and leaves the selected track's current status as the last line sent |
| Protocol.InterpreterKeepsSelectionNatural | python/reaper_controller.py:53 | no command makes the selection negative |
| Protocol.Initial | python/reaper_controller.py:9-12 | the script starts with an empty buffer, nothing sent, the port closed and the invariant holding; a track is selected exactly when the project has one |
| Protocol.DrainKeepsInvariant | python/reaper_controller.py:92-100 | reading bytes keeps newlines out of the buffer and the selection non-negative |
| Protocol.CycleKeepsInvariant | python/reaper_controller.py:84-107 | every call of `loop` keeps the invariant, whatever arrives and whatever fails |
| Protocol.QuietCycleIsIdempotent | python/reaper_controller.py:66-68 | with nothing new to read, a second call changes nothing and sends nothing |
| Protocol.CyclesDrainInbox | python/reaper_controller.py:92-105 | after as many calls as there were waiting bytes, every byte has been read, even when commands fail |
| Protocol.PoisonedLineFails | python/reaper_controller.py:71-72 | a buffer holding `SETVOL:` followed by a character `int()` cannot start with raises `ValueError` when dispatched |
| Protocol.PoisonedOperand | python/reaper_controller.py:33 | such a buffer, stripped, is a `SETVOL:` line whose operand raises `ValueError` |
| Protocol.OperandRejected | python/reaper_controller.py:33 | the operand of `<name>:` followed by a character `int()` cannot start with raises `ValueError` |
| Protocol.PoisonedBufferBlocksCommands | python/reaper_controller.py:94-100 | such a buffer stays poisoned and the mixer stays unchanged, whatever bytes arrive, and every newline raises `ValueError` |
| Protocol.PoisonedSessionIsStuck | python/reaper_controller.py:84-107 | once the buffer is poisoned, no later call of `loop` applies any command |
| Protocol.StripKeepsHead | python/reaper_controller.py:95 | stripping keeps the head of text that starts outside whitespace |
| Protocol.FirstFieldHead | python/reaper_controller.py:33 | the first field of a split starts with the text's first character |
| Session.Controller.constructor | python/reaper_controller.py:9-12 | the script starts with an empty buffer, track 0 selected, nothing sent and no connection |
| Session.Controller.Receive | python/reaper_controller.py:92 | arriving bytes are queued after those already waiting |
| Session.Controller.ApplySetVol | python/reaper_controller.py:32-39 | updates the host's tracks in place exactly as `SetVol` does, and leaves them alone when it raises; keeps `Valid()` |
| Session.Controller.ApplySetPan | python/reaper_controller.py:41-47 | updates the host's tracks in place exactly as `SetPan` does, and leaves them alone when it raises; keeps `Valid()` |
| Session.Controller.ApplyJog | python/reaper_controller.py:49-54 | updates `selected_track` in place exactly as `Jog` does, and leaves it alone when it raises; keeps `Valid()` |
| Session.Controller.ApplyCommand | python/reaper_controller.py:70-76 | changes the tracks and the selection exactly as `ApplyCommand` does; keeps `Valid()` |
| Session.Controller.SendTrackInfo | python/reaper_controller.py:56-68 | writes the status line of the selected track exactly when it differs from `last_sent_msg`, which then holds it; when no track is selected it raises and writes nothing; keeps `Valid()` |
| Session.Controller.ReadWaiting | python/reaper_controller.py:92-100 | the `while` loop reading the waiting bytes leaves the buffer, the tracks, the selection and the unread bytes exactly as `Drain` does, and returns the exception that stopped it |
| Session.Controller.Poll | python/reaper_controller.py:84-107 | one call of `loop` on the object state has exactly the effect of `Cycle`, and it keeps the invariant |
| Session.FeedLine | python/reaper_controller.py:94-97 | a newline after a non-blank buffer feeds the stripped line to `apply_command` |

## Left out

- Serial port I/O is not modelled. That covers opening the port (`init_serial`), the baud rate and port name, the two-second settle delay, a failure to open, and byte-level read and write errors. Inbound bytes are a sequence the environment appends to (`Controller.Receive`). Outbound lines are a list of strings.
- `RPR_ShowConsoleMsg` logging is not modelled: the jog message, the connection message and the logged exception. A swallowed exception is returned as a value instead.
- `RPR_defer` re-scheduling is not modelled as a call. Repeated host calls of `loop` are modelled as repeated `Poll`/`Cycle` calls (`Cycles`).
- The host calls are replaced by a track table. A host call on a track index the project does not have is modelled as a failure (`MissingTrack`), because the host's real behaviour there is outside this code.
- Floating point is not modelled: levels, gains and pans are exact reals. Overflow, NaN and IEEE rounding are absent, and the exact ties of `round` are those of the reals.
- `math.log10` and `10 **` are uninterpreted functions (`Transcendentals`). The model therefore proves nothing about the round trip between `db_to_linear` and `linear_to_db`.
- `int()` is modelled on ASCII text only. Non-ASCII digits and whitespace cannot reach it, because inbound bytes are ASCII-filtered. The model has no length limit on integer strings.
- PyText.ParseInt: its contract states only that blank text fails. Its full behaviour is given by its definition and by `PyText.ParseIntOfIntToString`.
- Concurrency is not modelled. The host calls `loop` again after each call returns, one call at a time, so no two calls overlap.
- Protocol.DrainClearing: the corrected reader is stated on values only. `Cycle`, `Cycles` and `Controller` keep the script's reader, because they model the script as written.

## Findings

| source | as written | input that shows it | evidently intended | confidence | as-written member | corrected member |
|---|---|---|---|---|---|---|
| python/reaper_controller.py:97-98 | `buffer = ""` runs only when `apply_command(line)` returns, so the text of a line that raises stays buffered and the next line is appended to it | the bytes of `SETVOL:abc` and a newline, then `JOG:1` and a newline, on a project with tracks: the second line reaches `apply_command` as `SETVOL:abcJOG:1`, raises `ValueError`, and the selection never moves | every complete line clears the buffer, so after a failing line the `JOG:1` line moves the selection by one | not executed | Protocol.FailedLineAbsorbsJog | Protocol.ClearingReaderRecovers |
