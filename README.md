# PC-Arduino calculator, host side: a Dafny model

This project models the Windows host program of a small calculator. An
Arduino does the arithmetic. The host program does the rest:

- it prints a help text and opens and configures the serial port COM11;
- it opens `calculator_log.txt` for appending;
- it then loops. Each pass checks for five minutes of inactivity, prompts
  for and reads one line of at most 98 characters, and stops on `exit`.
  It skips an empty line. Any other line the reader accepts goes to the
  device followed by a newline. The program then reads the reply, classifies and displays it,
  and appends a timestamped line to the log;
- at the end it closes the port and the log.

The model follows the program's structure:

| module | file | models |
|---|---|---|
| `CStrings` | cstrings.dfy | C strings: the value of a buffer up to its first NUL; `strlen`, `strncmp(..) == 0`, `strcmp(..) == 0` |
| `Classifier` | classifier.dfy | `display_response`'s ordered prefix match, as a pure function `Classify` |
| `LineInput` | line_input.dfy | `get_user_input` on a character stream: the `fgets` chunk, the newline strip, the discard loop (`ReadUserLine`) |
| `Serial` | serial.dfy | the port settings and timeouts (constants), the outcome of each Win32 call, and what `receive_data` leaves in its buffer |
| `LogFormat` | log_format.dfy | the `fprintf` format of a log line, with a parser for the timestamp as its inverse |
| `Watchdog` | watchdog.dfy | `check_inactivity`'s strict comparison |
| `CalculatorSession` | session.dfy | the program itself: class `Session`, whose fields are the globals plus the world the program touches, and whose methods are the C functions, written imperatively over arrays and proved against step functions (`ReadInput`, `Received`, `Exchange`, `Iteration`, `Loop`, `Execution`) |
| `SessionProperties` | session_properties.dfy | what the program promises, proved of those step functions |

The class `Session` holds these fields:

- `lastActivityTime`;
- `handleOpen` and `connected`, standing for `serialHandle`;
- `logOpen`, standing for `logFile`;
- the unread console input `stdin`;
- the number of `time(NULL)` calls (`clockReads`) and of `ReadFile` calls (`deviceReads`);
- `trace`, the sequence of everything the program writes: console messages, serial writes and log lines.

Three things are not under the program's control. They are passed in as oracles in an `Env` value:

- the clock: the n-th `time(NULL)` returns `clock(n)`;
- `localtime`;
- the device: the n-th `ReadFile` reports `device(n)`.

The Win32 port calls and `fopen` are passed in as success flags.

## Model

| member | source | states |
|---|---|---|
| CStrings.StrLen | Program_1_V2.c:83 | strlen is the index of the first NUL (or the whole length): every character before it is non-NUL and the character at it is NUL |
| CStrings.CString | Program_1_V2.c:121 | the string a buffer holds is a NUL-free prefix of it, followed by a NUL unless it is the whole buffer |
| CStrings.StrLenUnique | Program_1_V2.c:83 | a NUL-free prefix followed by a NUL or the end determines strlen |
| CStrings.StrNCmpZero | Program_1_V2.c:126-133 | strncmp(a, b, n) == 0: the first n characters agree, stopping early at a NUL both hold, an exhausted sequence reading as NUL |
| CStrings.StrCmpZero | Program_1_V2.c:197-202 | strcmp(a, b) == 0: the characters agree up to and including the first NUL, an exhausted sequence reading as NUL |
| CStrings.CStringTerminated | Program_1_V2.c:121 | after a NUL is written at index k, the buffer holds the string of its first k characters |
| CStrings.CStringUpTo | Program_1_V2.c:87 | k NUL-free characters followed by a NUL form exactly the buffer's string |
| CStrings.CStringOfNoNul | Program_1_V2.c:117 | a NUL-free sequence is its own string value |
| CStrings.CStringCons | Program_1_V2.c:126 | a non-NUL first character heads the string, followed by the string of the rest |
| CStrings.CStringAppend | Program_1_V2.c:126-133 | a NUL-free prefix survives unchanged at the head of the string of prefix + rest |
| CStrings.StrNCmpZeroIsPrefix | Program_1_V2.c:126-133 | strncmp(a, p, strlen(p)) == 0 exactly when NUL-free p is a prefix of the string a holds (exact, case-sensitive) |
| CStrings.StrCmpZeroIsEquality | Program_1_V2.c:197-202 | strcmp(a, b) == 0 exactly when the NUL-free strings a and b are equal |
| Classifier.PrefixesHaveNoNul | Program_1_V2.c:126-133 | none of the four prefixes contains a NUL, so each strncmp is a plain prefix test |
| Classifier.Classify | Program_1_V2.c:125-140 | in test order: DivisionByZero iff the reply starts with ERROR_DIV_0; InvalidInput iff not that and it starts with ERROR_INVALID_INPUT; BufferFull likewise for ERROR_BUFFER_FULL; UnknownError iff none of those and it starts with ERROR; Success iff it does not start with ERROR; UnknownError and Success carry the reply verbatim |
| Classifier.SpecificPrefixesAreErrors | Program_1_V2.c:126-133 | every specific prefix begins with ERROR, so the generic test must come last |
| Classifier.SpecificPrefixesExclusive | Program_1_V2.c:126-131 | no string starts with two specific prefixes, so their relative order changes no outcome |
| Classifier.DivZeroPrefixWins | Program_1_V2.c:126-127 | ERROR_DIV_0 followed by anything is DivisionByZero |
| Classifier.InvalidInputPrefixWins | Program_1_V2.c:128-130 | ERROR_INVALID_INPUT followed by anything is InvalidInput |
| Classifier.BufferFullPrefixWins | Program_1_V2.c:131-132 | ERROR_BUFFER_FULL followed by anything is BufferFull |
| Classifier.GenericErrorKeepsReply | Program_1_V2.c:133-135 | a reply starting with ERROR but with no specific prefix is UnknownError of the reply itself |
| Classifier.OtherRepliesAreResults | Program_1_V2.c:136-139 | a reply is Success of itself iff it does not start with ERROR; in particular any reply shorter than five characters is |
| Classifier.DivZeroExample | Program_1_V2.c:126-127 | "ERROR_DIV_0 foo" is DivisionByZero |
| Classifier.UnknownErrorExample | Program_1_V2.c:133-135 | "ERROR_WEIRD_THING" is UnknownError("ERROR_WEIRD_THING") |
| Classifier.ResultExample | Program_1_V2.c:136-138 | "4 + 5 = 9" is Success("4 + 5 = 9") |
| LineInput.FgetsChunk | Program_1_V2.c:82 | fgets takes a prefix of the input, at most max characters, with a newline only as its last character, and stops early only after a newline |
| LineInput.DiscardLine | Program_1_V2.c:91 | the discard loop leaves a suffix of the stream: nothing if there is no newline, otherwise exactly what follows the first newline |
| LineInput.ReadUserLine | Program_1_V2.c:79-98 | end of input iff the stream is empty; a read always consumes input; an over-long line leaves ""; otherwise the stream is text + newline + rest, with text at most bufferSize - 2 characters, no NUL and no newline |
| LineInput.FgetsBuffer | Program_1_V2.c:83-94 | on the buffer fgets leaves, the test `len > 0 && buf[len-1] == '\n'` picks the whole-line branch exactly when ReadUserLine accepts the line, that is when it fitted and holds no NUL; overwriting the newline leaves the line's text; otherwise the text is "" and the stream continues after the discarded line |
| LineInput.FgetsTakesLine | Program_1_V2.c:82 | a line shorter than max is taken up to and including its newline |
| LineInput.FgetsFillsBuffer | Program_1_V2.c:82 | with no newline among the first max characters, fgets takes exactly those |
| LineInput.DiscardThroughNewline | Program_1_V2.c:91 | the discard loop stops right after the first newline |
| LineInput.ReadsWholeLine | Program_1_V2.c:82-87 | a NUL-free line of at most bufferSize - 2 characters is read back exactly, without its newline, and the next read starts after it |
| LineInput.OverlongLineDiscarded | Program_1_V2.c:88-94 | a line of bufferSize - 1 or more characters yields "" and is consumed through its newline |
| LineInput.UnterminatedLastLineRejected | Program_1_V2.c:82-94 | a last line without a newline is treated as too long, whatever its length, and the stream is then empty |
| LineInput.UnterminatedExitExample | Program_1_V2.c:82-94 | "exit" as the final characters of input, with no newline, reads as "" |
| LineInput.NulLineRejected | Program_1_V2.c:82-94 | a line that fits but holds a NUL yields "" as if it were too long, and the discard loop then consumes the stream through the NEXT newline |
| LineInput.NulLineDropsNextLine | Program_1_V2.c:82-94 | so the line after a NUL-holding line is dropped unread and the next read starts after it |
| LineInput.NulLineExample | Program_1_V2.c:82-94 | "a", NUL, "b", newline, then "12+5", newline, then "rest" reads as "" (too long) and leaves "rest" |
| Serial.ReceiveErrorTextHasNoNul | Program_1_V2.c:117 | "Receiving error" is 15 NUL-free characters, so it fits a 100-character buffer |
| Serial.BytesRead | Program_1_V2.c:112 | ReadFile stores at most count bytes: the first min(count, available) bytes ready, none when it fails |
| Serial.ReceiveFails | Program_1_V2.c:114 | the failure test `!result \|\| bytesRead == 0`: ReadFile failed, or it stored no byte |
| Serial.ReceivedResponse | Program_1_V2.c:110-122 | the response is NUL-free and at most bufferSize - 1 long; it is "Receiving error" when the read fails or yields 0 bytes, otherwise a prefix of the bytes read |
| Serial.ReceivedBuffer | Program_1_V2.c:121 | after a good read, the bytes followed by a NUL hold exactly the response |
| Serial.SubstitutedBuffer | Program_1_V2.c:117 | after strcpy of "Receiving error", the buffer holds that text |
| Serial.ReceivedExactly | Program_1_V2.c:112-121 | NUL-free bytes from a good read come back exactly, untrimmed, min(99, available) of them |
| Serial.FailedReceiveSubstitutes | Program_1_V2.c:114-118 | a failed read and a read of 0 bytes both give "Receiving error" |
| LogFormat.FormatDecimal | Program_1_V2.c:155 | %0<width>d is at least width characters long |
| LogFormat.ParseDigits | Program_1_V2.c:155 | parsing the decimal digits of n gives n back |
| LogFormat.DigitsLength | Program_1_V2.c:155 | a number in [10^k, 10^(k+1)) has k + 1 digits |
| LogFormat.TwoDigitField | Program_1_V2.c:155-157 | %02d of 0..99 is exactly two digits that parse back to the number |
| LogFormat.FourDigitField | Program_1_V2.c:156 | %d of a four-digit year is four digits that parse back to it |
| LogFormat.ParseAssembledDate | Program_1_V2.c:155 | a dd.mm.yyyy string of digit fields parses into its fields, the month less one and the year less 1900 |
| LogFormat.ParseAssembledTime | Program_1_V2.c:155 | an hh:mm:ss string of digit fields parses into its fields |
| LogFormat.DateRoundTrip | Program_1_V2.c:155-156 | the date part is 10 characters and parses back to tm_mday, tm_mon (printed + 1) and tm_year (printed + 1900) |
| LogFormat.TimeRoundTrip | Program_1_V2.c:155-157 | the time part is 8 characters and parses back to tm_hour, tm_min, tm_sec |
| LogFormat.TimestampRoundTrip | Program_1_V2.c:155-157 | for any time localtime produces, the bracketed stamp is 21 characters and parses back to the same time |
| LogFormat.Timestamp | Program_1_V2.c:155-157 | "[dd.mm.yyyy hh:mm:ss]" built from the day, month + 1, year + 1900, hour, minute and second of localtime |
| LogFormat.LogLine | Program_1_V2.c:155-158 | the stamp, " Input: ", the input, " \| Response: ", the response and a newline |
| LogFormat.LogLineLayout | Program_1_V2.c:155-158 | a log line is the stamp, " Input: ", the input verbatim, " \| Response: ", the response verbatim and one newline |
| Watchdog.InactivityIsStrict | Program_1_V2.c:170 | 300 seconds after the last read the session is still active; 301 seconds after, it is not |
| Watchdog.IsInactive | Program_1_V2.c:170 | check_inactivity's test: more than 300 seconds between the clock reading and lastActivityTime |
| CalculatorSession.CommandWordsHaveNoNul | Program_1_V2.c:197-202 | "exit" and "" are NUL-free, so main's strcmp tests are equality tests |
| CalculatorSession.ExitStatus | Program_1_V2.c:180-216 | main's return value: 1 after a connection failure, 0 after "exit" or inactivity, none when input ended |
| CalculatorSession.Connected | Program_1_V2.c:37-76 | connect_serial's effect: the handle is open iff CreateFile succeeded, and the connection is made iff all four Win32 calls succeed |
| CalculatorSession.LogOpened | Program_1_V2.c:144-148 | create_log_file's effect: the log is open iff fopen succeeded, and otherwise the perror message is printed |
| CalculatorSession.ReadInput | Program_1_V2.c:79-99 | get_user_input's effect: the prompt; at end of input nothing more; otherwise the stream ReadUserLine leaves, the "Input too long" message for a rejected line, and one clock reading stored as lastActivityTime; paired with what the buffer then holds |
| CalculatorSession.Sent | Program_1_V2.c:103-107 | send_data's effect: two writes, the payload and the one byte "\n" |
| CalculatorSession.Received | Program_1_V2.c:110-122 | receive_data's effect: one device read, the perror notice when ReceiveFails, paired with the string ReceivedResponse leaves in the buffer |
| CalculatorSession.DisplayEvents | Program_1_V2.c:125-140 | display_response's output: the classified outcome, then the help text when the outcome is InvalidInput |
| CalculatorSession.Logged | Program_1_V2.c:151-161 | write_to_log's effect: with the log open, one clock read and one LogLine stamped with its local time; otherwise nothing |
| CalculatorSession.Exchange | Program_1_V2.c:203-209 | one exchange: Sent, then Received, then the display of the classified response, then Logged with the input and the response |
| CalculatorSession.Loop | Program_1_V2.c:186-211 | the while loop: Iteration from the given state until the first step that stops, giving that step's final state and reason |
| CalculatorSession.Closed | Program_1_V2.c:213-214 | CloseHandle and fclose: the port handle and the log are no longer open |
| CalculatorSession.Execution | Program_1_V2.c:174-217 | main: the help text, connect (on failure the error and ConnectFailure), open the log, start the timer, run Loop, and close the port and the log unless input ended |
| CalculatorSession.Iteration | Program_1_V2.c:186-211 | an iteration that continues consumes input, and one that stops for any reason but inactivity has consumed input or found none |
| CalculatorSession.Session.constructor | Program_1_V2.c:24-26 | the globals start unset: no handle, no log, timer 0, and nothing read or written |
| CalculatorSession.Session.Time | Program_1_V2.c:97 | time(NULL) returns the next clock reading and counts it |
| CalculatorSession.Session.ConnectSerial | Program_1_V2.c:37-76 | returns 1 iff CreateFile, GetCommState, SetCommState and SetCommTimeouts all succeed; a handle exists once CreateFile succeeded |
| CalculatorSession.Session.CreateLogFile | Program_1_V2.c:144-148 | the log is open iff fopen succeeded; on failure the error is printed |
| CalculatorSession.Session.CheckInactivity | Program_1_V2.c:169-171 | reads the clock once and reports whether more than 300 seconds have passed since lastActivityTime |
| CalculatorSession.Session.Getchar | Program_1_V2.c:91 | the next console character is consumed, or EOF is returned with nothing consumed |
| CalculatorSession.Session.Fgets | Program_1_V2.c:82 | NULL exactly at end of input, changing nothing; otherwise the buffer holds the fgets chunk followed by a NUL and the stream continues after it |
| CalculatorSession.Session.DiscardRestOfLine | Program_1_V2.c:90-91 | the getchar loop leaves exactly the stream DiscardLine describes and changes nothing else |
| CalculatorSession.Session.FinishLine | Program_1_V2.c:83-95 | the buffer ends up holding ReadUserLine's text; for a line that was too long the stream is discarded through the newline and the error is printed; nothing else changes |
| CalculatorSession.Session.AcceptLine | Program_1_V2.c:83-97 | once fgets has returned a line, the buffer's string, the stream, the trace and the restarted timer are as ReadInput states for that read |
| CalculatorSession.Session.GetUserInput | Program_1_V2.c:79-99 | prompts, reads, and leaves the buffer's string, the stream, the trace and the restarted timer as ReadInput states |
| CalculatorSession.Session.SendData | Program_1_V2.c:103-107 | two writes: the payload, then the one byte "\n" |
| CalculatorSession.Session.ReadFile | Program_1_V2.c:112 | the result is TRUE iff the device read succeeded, and the buffer's first bytesRead bytes are the bytes it stored |
| CalculatorSession.Session.StrCpy | Program_1_V2.c:117 | the text, then a NUL, is copied to the front of the buffer |
| CalculatorSession.Session.ReceiveData | Program_1_V2.c:110-122 | the buffer's string and the new state are as Received states; after a good read the buffer holds exactly the bytes read, then a NUL |
| CalculatorSession.Session.DisplayResponse | Program_1_V2.c:125-140 | appends the classified outcome, followed by the help text for an invalid input |
| CalculatorSession.Session.WriteToLog | Program_1_V2.c:151-161 | when the log is open, reads the clock once and appends one line stamped with its local time; otherwise changes nothing |
| CalculatorSession.Session.Converse | Program_1_V2.c:203-209 | send, receive, display and log, leaving the state Exchange states |
| CalculatorSession.Session.Iterate | Program_1_V2.c:187-210 | one pass of the loop body: it returns Some(reason) exactly when Iteration stops, with Iteration's final state and reason, and otherwise None with Iteration's next state |
| CalculatorSession.Session.MainLoop | Program_1_V2.c:186-211 | the final state and the reason are those of Loop |
| CalculatorSession.Session.Run | Program_1_V2.c:174-217 | the final state and the reason are those of Execution |
| SessionProperties.IterationAfterRead | Program_1_V2.c:193-210 | after the inactivity check and a completed read, the loop breaks on "exit", exchanges any other non-empty text and otherwise just continues |
| SessionProperties.IdleCheckComesFirst | Program_1_V2.c:187-191 | an iteration stops for inactivity iff more than 300 seconds have passed, and then it has only read the clock and printed the notice |
| SessionProperties.ReadResetsActivity | Program_1_V2.c:97 | every completed read, valid or over-long, sets lastActivityTime to the clock reading taken right after it |
| SessionProperties.IdleMeasuredFromLastRead | Program_1_V2.c:187-194 | after a completed read, the next iteration stops for inactivity iff more than 300 seconds separate its clock reading from the one taken when that read completed; time spent waiting in fgets is not counted |
| SessionProperties.EndOfInputStops | Program_1_V2.c:82 | at end of input the iteration stops with InputEnded after reading the clock once and printing the prompt, and nothing else changes |
| SessionProperties.ExitOnlyOnExactWord | Program_1_V2.c:197-200 | the loop stops at the user's request iff the line read is exactly "exit" |
| SessionProperties.ExitStopsWithoutSending | Program_1_V2.c:197-200 | "exit" on its own line ends the loop with UserExit after the prompt and the exit notice; nothing is sent or received |
| SessionProperties.EmptyLineSendsNothing | Program_1_V2.c:202 | an empty line prints only the prompt; nothing is sent, received or logged and the next read starts after it |
| SessionProperties.OverlongNeverSent | Program_1_V2.c:89-94 | a line of 99 or more characters prints the prompt and "max 99"; nothing is sent, received or logged and the next read starts after it |
| SessionProperties.NulLineNeverSent | Program_1_V2.c:82-94 | a NUL-holding line of at most 98 characters prints the prompt and "max 99"; nothing is sent, received or logged, and the next read starts after the following line |
| SessionProperties.ExchangeEvents | Program_1_V2.c:203-209 | an exchange writes the payload and "\n", reads the device once, prints the receive error if any, displays the outcome and appends one log line if the log is open, in that order, and changes nothing else |
| SessionProperties.ExchangeOrder | Program_1_V2.c:194-209 | any other NUL-free line of at most 98 characters is exchanged right after the prompt, the log line stamped with the iteration's third clock reading, and the timer restarted at the second |
| SessionProperties.ExitWithBlankIsSent | Program_1_V2.c:197-203 | "exit " with a trailing blank is not the exit command: it is sent to the device |
| SessionProperties.ReceiveErrorIsResult | Program_1_V2.c:136-138 | "Receiving error" does not start with ERROR, so it is classified as a result |
| SessionProperties.FailedReplyEvents | Program_1_V2.c:114-118 | after a failed read the response is "Receiving error" and it is displayed as a result |
| SessionProperties.ReceiveFailureShownAsResultAndLogged | Program_1_V2.c:206-209 | after a failed receive the error notice is followed by "Result: Receiving error" and by a log line holding "Receiving error" when the log is open |
| SessionProperties.IterationSendsValidFrames | Program_1_V2.c:186-211 | an iteration only appends to the trace, every frame it sends is valid, and it never ends in a connection failure |
| SessionProperties.SentValidly | Program_1_V2.c:103-106 | send_data's two writes are a valid payload and the terminator |
| SessionProperties.ReceivedValidly | Program_1_V2.c:110-122 | receive_data only appends to the trace and sends nothing |
| SessionProperties.DisplayedValidly | Program_1_V2.c:125-140 | display_response only appends to the trace and sends nothing |
| SessionProperties.LoggedValidly | Program_1_V2.c:151-161 | write_to_log only appends to the trace and sends nothing |
| SessionProperties.ExchangeSendsValidFrames | Program_1_V2.c:203-209 | an exchange of a line the reader accepts sends only valid frames |
| SessionProperties.LoopSendsValidFrames | Program_1_V2.c:186-211 | the whole loop only appends, sends only frames of 1 to 98 NUL- and newline-free characters or the single "\n", and never ends in a connection failure |
| SessionProperties.ExchangeKeepsLogFlag | Program_1_V2.c:203-209 | an exchange neither opens nor closes the log, and with the log closed it writes no log line |
| SessionProperties.ReadStepKeepsLogFlag | Program_1_V2.c:193-210 | after the check and a completed read, the rest of the iteration neither opens nor closes the log, and with the log closed writes no log line |
| SessionProperties.IterationKeepsLogFlag | Program_1_V2.c:186-211 | no iteration opens or closes the log, and with the log closed an iteration writes no log line |
| SessionProperties.LoopKeepsLogFlag | Program_1_V2.c:186-211 | the whole loop leaves the log flag as it found it, and with the log closed appends no log line |
| SessionProperties.ExecutionConnectFailure | Program_1_V2.c:175-181 | a failed connection returns 1 right after the help text and the error: no log is opened, the clock is never read, nothing is read or sent, and a handle from CreateFile stays open |
| SessionProperties.ConnectFailureIsOnlyStatusOne | Program_1_V2.c:177-181 | the program returns 1 iff the connection fails |
| SessionProperties.ExecutionClosesOnExit | Program_1_V2.c:213-216 | after a connection, leaving the loop by "exit" or inactivity closes the port and the log and returns 0 |
| SessionProperties.ExecutionSendsValidFrames | Program_1_V2.c:174-217 | over a whole run the trace starts with the help text and only valid frames reach the serial line |
| SessionProperties.ExecutionWithoutLogFile | Program_1_V2.c:144-148 | when fopen fails, a whole run writes no log line, and after a connection it ends with the log not open |

## Behaviour of the code worth noting

The model follows the code in each case.

- A failed receive does not skip display or logging. `receive_data` copies `"Receiving error"` into the buffer. That text does not start with `ERROR`, so `display_response` prints `Result: Receiving error`, and `write_to_log` logs it as the response (`ReceiveFailureShownAsResultAndLogged`). The error is also printed by `perror` beforehand.
- `connect_serial` returns 0 without closing a handle that `CreateFile` opened when a later call fails. `main` then returns 1 without `CloseHandle` (`ExecutionConnectFailure`: `handleOpen` stays set).
- The reader rejects a last line that ends at end of input without a newline. The program reports it as "Input too long", even when it is short, and it is never sent (`UnterminatedLastLineRejected`, `UnterminatedExitExample`).
- The comment at `main`'s send test says only input shorter than 100 characters is sent. The reader actually accepts at most 98 characters (buffer of 100, less the newline and the NUL), and 99 is the maximum it reports (`ReadsWholeLine`, `OverlongNeverSent`).
- The help text says the calculator terminates "after 5 minutes of inactivity" (Program_1_V2.c:33). The timer is restarted when a read completes (line 97), and it is checked only at the top of the loop, before the next blocking `fgets` (lines 187 and 194). So a user who waits at the prompt for any length of time is never timed out. Only the time between one read's completion and the next check counts, which is the time spent sending, receiving, displaying and logging (`IdleMeasuredFromLastRead`).
- A NUL byte in a device reply truncates the response at the first NUL, as the C string is (`ReceivedResponse`).
- A console line holding a NUL byte is reported as "Input too long" whatever its length, and it is never sent. For a line of at most 98 characters, `strlen` stops at the NUL (line 83), so the character before it is not the newline and the test at line 86 fails. The getchar loop at line 91 then discards the whole FOLLOWING line, which is never read (`NulLineRejected`, `NulLineDropsNextLine`, `NulLineExample`, `NulLineNeverSent`). A NUL-holding line of 99 or more characters is dropped like any over-long line, through its own newline (`OverlongLineDiscarded`).

## Left out

- The Win32 port calls. `CreateFile`, `GetCommState`, `SetCommState` and `SetCommTimeouts` are modelled only by whether each succeeds (`PortDriver`). The port settings and timeouts are recorded as constants (`PortSettings`, `PortTimeouts`). Their effect on the line is not modelled. `CloseHandle` and `fclose` only clear a flag.
- Partial writes: `send_data` ignores `bytesWritten`, so each `WriteFile` is recorded as issued in full.
- `ReadFile` timing. The device oracle states what one call returns. Bytes beyond the 99 that fit are not carried over to the next call.
- `fopen("a")` and `fflush`: the log is an append-only sequence of lines guarded by `logOpen`. The model does not cover file contents across runs, durability or write errors.
- Console text: `printf`, `perror`, `handle_error` and `show_help_text` output is modelled as tagged messages (`Message`), not as exact text.
- The real clock and `localtime`. They are oracles; `time(NULL)` is an integer in seconds. `difftime`'s double is replaced by integer subtraction.
- End of input at `fgets`. The C program would go on with an uninitialised buffer, which is undefined behaviour. The model instead ends the loop with `InputEnded`, closes nothing and gives no exit status.
- CalculatorSession.Iteration: its own contract only states that the loop makes progress. What an iteration does is stated by the lemmas in `SessionProperties` and by `Session.Iterate`.
- LogFormat.FormatDecimal: its own contract only bounds the length. The digits are stated by `TwoDigitField` and `FourDigitField` for the values the log prints.
- Characters as bytes. Each `char` of the console stream and of a device reply stands for one byte of the C program's `char` buffers. Multi-byte encodings are not modelled, and nothing forces a `char` below 256.
