/**
 * The host program's session: startup (connect, open the log, start the
 * inactivity timer) and the main loop (inactivity check, read a line, stop on
 * "exit", skip an empty line, otherwise send, receive, display and log).
 *
 * The program's globals (serial handle, log file, last activity time) are
 * fields of class Session, together with the world the program touches: the
 * unread console input, how many times the clock and the device have been
 * read, and the trace of everything the program writes. The clock, the
 * localtime conversion and the device's replies are oracles, passed in as an
 * Env.
 *
 * Each step therefore appears twice: as a function of the state (ReadInput,
 * Received, Exchange, Iteration, Loop, Execution) and as the method of class
 * Session that the C function becomes (GetUserInput, ReceiveData, Converse,
 * Iterate, MainLoop, Run), proved to leave the state that function gives.
 * SessionProperties proves what the program promises about the functions.
 */
module CalculatorSession {
  import opened Wrappers
  import opened CStrings
  import opened Classifier
  import opened LineInput
  import opened Serial
  import opened LogFormat
  import opened Watchdog

  /** char input[100] and char response[100]. */
  const BufferSize: nat := 100

  /** The word that ends the session, compared with strcmp. */
  const ExitCommand: seq<char> := "exit"

  /** The empty string main compares the line with to skip it. */
  const EmptyLine: seq<char> := ""

  lemma CommandWordsHaveNoNul()
    ensures NoNul(ExitCommand) && |ExitCommand| == 4 && NoNul(EmptyLine)
  {
    assert NoNul(ExitCommand) by {
      forall i | 0 <= i < |ExitCommand| ensures ExitCommand[i] != NUL {
      }
    }
  }

  /** getchar's end-of-file value. */
  const EOF: int := -1

  /** The console output the program produces, as tagged messages. */
  datatype Message =
    | HelpText                   // show_help_text
    | ConnectFailed              // handle_error("Failed to connect to Arduino.")
    | LogOpenFailed              // perror("Error creating log file")
    | Prompt                     // "Enter operation (or 'exit'): "
    | InputTooLong(max: nat)     // "ERROR: Input too long (max %zu characters). ..."
    | ReceiveFailed              // perror("Receiving error")
    | Shown(outcome: Outcome)    // the first line display_response prints
    | IdleExit                   // "No activity for 5 minutes. Exiting."
    | ExitRequested              // "Exiting program."

  datatype Event =
    | Console(message: Message)
    | SerialWrite(bytes: seq<char>)   // one WriteFile call on the serial handle
    | LogAppend(text: seq<char>)      // one fprintf to the log file

  datatype Termination =
    | ConnectFailure   // connect_serial returned 0
    | UserExit         // the line read was exactly "exit"
    | IdleTimeout      // check_inactivity fired at the top of an iteration
    | InputEnded       // fgets returned NULL: the program would go on with an unset buffer; the model stops

  /** main's return value; none when the input ended, where the program's behaviour is undefined. */
  function ExitStatus(t: Termination): Option<int> {
    match t
    case ConnectFailure => Some(1)
    case UserExit => Some(0)
    case IdleTimeout => Some(0)
    case InputEnded => None
  }

  /**
   * The oracles: the n-th call of time(NULL) returns clock(n); localtime
   * turns a time into its broken-down form; the n-th ReadFile call on the
   * port reports device(n).
   */
  datatype Env = Env(clock: nat -> int, localTime: int -> Tm, device: nat -> ReadReply)

  /** Everything the program changes: the value of a Session object. */
  datatype State = State(
    stdin: seq<char>,        // console input not read yet
    clockReads: nat,         // calls of time(NULL) so far
    deviceReads: nat,        // ReadFile calls so far
    trace: seq<Event>,       // console, serial and log output so far
    lastActivityTime: int,
    handleOpen: bool,        // serialHandle refers to an open port
    connected: bool,         // connect_serial returned 1: the port is configured
    logOpen: bool)           // logFile is an open file

  function Emit(s: State, events: seq<Event>): State {
    s.(trace := s.trace + events)
  }

  /** What the next time(NULL) returns. */
  function Now(s: State, env: Env): int {
    env.clock(s.clockReads)
  }

  function Tick(s: State): State {
    s.(clockReads := s.clockReads + 1)
  }

  /** connect_serial: a handle exists once CreateFile succeeds; connected only if all four calls succeed. */
  function Connected(s: State, driver: PortDriver): State {
    s.(handleOpen := driver.createFileOk, connected := ConnectSucceeds(driver))
  }

  /** create_log_file, where fileOpened is whether fopen succeeded. */
  function LogOpened(s: State, fileOpened: bool): State {
    Emit(s.(logOpen := fileOpened), if fileOpened then [] else [Console(LogOpenFailed)])
  }

  /** get_user_input: the state afterwards and what the buffer then holds. */
  function ReadInput(s: State, env: Env, bufferSize: nat): (State, LineRead)
    requires bufferSize >= 2
  {
    var prompted := Emit(s, [Console(Prompt)]);
    var r := ReadUserLine(s.stdin, bufferSize);
    match r
    case EndOfInput => (prompted, r)
    case Line(_, rest, tooLong) =>
      var reported := Emit(prompted, if tooLong then [Console(InputTooLong(bufferSize - 1))] else []);
      (Tick(reported.(stdin := rest, lastActivityTime := Now(reported, env))), r)
  }

  /** At end of input get_user_input prints the prompt and reads nothing. */
  lemma ReadInputAtEnd(s: State, env: Env, bufferSize: nat)
    requires bufferSize >= 2 && s.stdin == []
    ensures ReadInput(s, env, bufferSize) == (Emit(s, [Console(Prompt)]), EndOfInput)
  {
  }

  /** The state get_user_input leaves after a completed read r: the prompt, the error for an over-long line, the restarted timer. */
  lemma ReadInputOfLine(s: State, env: Env, bufferSize: nat, r: LineRead)
    requires bufferSize >= 2 && r == ReadUserLine(s.stdin, bufferSize) && r.Line?
    ensures ReadInput(s, env, bufferSize) == (s.(
        stdin := r.rest,
        clockReads := s.clockReads + 1,
        trace := s.trace + [Console(Prompt)] + (if r.tooLong then [Console(InputTooLong(bufferSize - 1))] else []),
        lastActivityTime := env.clock(s.clockReads)), r)
  {
  }

  /** send_data: the payload, then the one-byte terminator, as two writes. */
  function Sent(s: State, data: seq<char>): State {
    Emit(s, [SerialWrite(data), SerialWrite("\n")])
  }

  /** receive_data: the state afterwards and the string left in the response buffer. */
  function Received(s: State, env: Env, bufferSize: nat): (State, seq<char>)
    requires bufferSize > |ReceiveErrorText|
  {
    var reply := env.device(s.deviceReads);
    var s1 := s.(deviceReads := s.deviceReads + 1);
    (Emit(s1, if ReceiveFails(reply, bufferSize - 1) then [Console(ReceiveFailed)] else []),
     ReceivedResponse(reply, bufferSize))
  }

  /** What display_response prints for an outcome; an invalid input is followed by the help text. */
  function DisplayEvents(o: Outcome): seq<Event> {
    [Console(Shown(o))] + if o == InvalidInput then [Console(HelpText)] else []
  }

  /** write_to_log: one line stamped with the current local time, or nothing if the log is not open. */
  function Logged(s: State, env: Env, input: seq<char>, response: seq<char>): State {
    if s.logOpen then Emit(Tick(s), [LogAppend(LogLine(env.localTime(Now(s, env)), input, response))])
    else s
  }

  /** One exchange with the device: send, receive, display, log. */
  function Exchange(s: State, env: Env, input: seq<char>): State {
    var s1 := Sent(s, input);
    var (s2, response) := Received(s1, env, BufferSize);
    Logged(Emit(s2, DisplayEvents(Classify(response))), env, input, response)
  }

  datatype Step = Continue(next: State) | Stop(final: State, reason: Termination)

  /** One iteration of main's loop. */
  function Iteration(s: State, env: Env): (r: Step)
    ensures r.Continue? ==> |r.next.stdin| < |s.stdin|
    ensures r.Stop? && r.reason != IdleTimeout ==> r.final.stdin == [] || |r.final.stdin| < |s.stdin|
  {
    var checked := Tick(s);
    if IsInactive(Now(s, env), s.lastActivityTime) then
      Stop(Emit(checked, [Console(IdleExit)]), IdleTimeout)
    else
      var (s2, line) := ReadInput(checked, env, BufferSize);
      if line.EndOfInput? then Stop(s2, InputEnded)
      else if StrCmpZero(line.text, ExitCommand) then Stop(Emit(s2, [Console(ExitRequested)]), UserExit)
      else if !StrCmpZero(line.text, EmptyLine) then Continue(Exchange(s2, env, line.text))
      else Continue(s2)
  }

  /** main's loop, from state s to the iteration that stops it. */
  function Loop(s: State, env: Env): (State, Termination)
    decreases |s.stdin|
  {
    match Iteration(s, env)
    case Stop(final, reason) => (final, reason)
    case Continue(next) => Loop(next, env)
  }

  /** CloseHandle(serialHandle) and fclose(logFile). */
  function Closed(s: State): State {
    s.(handleOpen := false, logOpen := false)
  }

  /** main, as a function of the initial state, the oracles, the port's behaviour and whether fopen succeeds. */
  function Execution(s: State, env: Env, driver: PortDriver, logOpens: bool): (State, Termination) {
    var s1 := Connected(Emit(s, [Console(HelpText)]), driver);
    if !s1.connected then (Emit(s1, [Console(ConnectFailed)]), ConnectFailure)
    else
      var s2 := LogOpened(s1, logOpens);
      var s3 := Tick(s2.(lastActivityTime := Now(s2, env)));
      var (s4, reason) := Loop(s3, env);
      if reason == InputEnded then (s4, reason) else (Closed(s4), reason)
  }

  class Session {
    var stdin: seq<char>
    var clockReads: nat
    var deviceReads: nat
    var trace: seq<Event>
    var lastActivityTime: int
    var handleOpen: bool
    var connected: bool
    var logOpen: bool

    function Snapshot(): State
      reads this
    {
      State(stdin, clockReads, deviceReads, trace, lastActivityTime, handleOpen, connected, logOpen)
    }

    /** A program about to start, with the given console input; the globals hold their static initial values. */
    constructor (input: seq<char>)
      ensures Snapshot() == State(input, 0, 0, [], 0, false, false, false)
    {
      stdin, clockReads, deviceReads, trace := input, 0, 0, [];
      lastActivityTime, handleOpen, connected, logOpen := 0, false, false, false;
    }

    /** time(NULL). */
    method Time(env: Env) returns (now: int)
      modifies this
      ensures now == Now(old(Snapshot()), env)
      ensures Snapshot() == Tick(old(Snapshot()))
    {
      now := env.clock(clockReads);
      clockReads := clockReads + 1;
    }

    method ConnectSerial(driver: PortDriver) returns (ok: bool)
      modifies this
      ensures ok == ConnectSucceeds(driver)
      ensures Snapshot() == Connected(old(Snapshot()), driver)
    {
      connected := false;
      handleOpen := driver.createFileOk;
      if !driver.createFileOk {
        return false;
      }
      if !driver.getCommStateOk {
        return false;
      }
      // The DCB now gets PortSettings.
      if !driver.setCommStateOk {
        return false;
      }
      // The port now gets PortTimeouts.
      if !driver.setCommTimeoutsOk {
        return false;
      }
      connected := true;
      return true;
    }

    method CreateLogFile(fileOpened: bool)
      modifies this
      ensures Snapshot() == LogOpened(old(Snapshot()), fileOpened)
    {
      logOpen := fileOpened;
      if !fileOpened {
        trace := trace + [Console(LogOpenFailed)];
      }
    }

    method CheckInactivity(env: Env) returns (inactive: bool)
      modifies this
      ensures inactive == IsInactive(Now(old(Snapshot()), env), old(lastActivityTime))
      ensures Snapshot() == Tick(old(Snapshot()))
    {
      var now := Time(env);
      inactive := IsInactive(now, lastActivityTime);
    }

    /** getchar: the next character of the console input, or EOF. */
    method Getchar() returns (c: int)
      modifies this
      ensures old(stdin) == [] ==> c == EOF && Snapshot() == old(Snapshot())
      ensures old(stdin) != [] ==> c == old(stdin)[0] as int && Snapshot() == old(Snapshot()).(stdin := old(stdin)[1..])
    {
      if stdin == [] {
        c := EOF;
      } else {
        c := stdin[0] as int;
        stdin := stdin[1..];
      }
    }

    /** fgets(buf, n, stdin): NULL at end of input; otherwise the chunk, then a NUL. */
    method Fgets(buf: array<char>, n: nat) returns (ok: bool)
      requires buf.Length == n >= 2
      modifies this, buf
      ensures ok <==> old(stdin) != []
      ensures !ok ==> Snapshot() == old(Snapshot()) && buf[..] == old(buf[..])
      ensures ok ==>
        var c := FgetsChunk(old(stdin), n - 1);
        && buf[..|c|] == c && buf[|c|] == NUL
        && Snapshot() == old(Snapshot()).(stdin := old(stdin)[|c|..])
    {
      if stdin == [] {
        return false;
      }
      var c := FgetsChunk(stdin, n - 1);
      forall i | 0 <= i < |c| {
        buf[i] := c[i];
      }
      buf[|c|] := NUL;
      stdin := stdin[|c|..];
      ok := true;
    }

    /** The discard loop of get_user_input: `while ((c = getchar()) != '\n' && c != EOF);`. */
    method DiscardRestOfLine()
      modifies this
      ensures Snapshot() == old(Snapshot()).(stdin := DiscardLine(old(stdin)))
    {
      DiscardLineStep(stdin);
      var c := Getchar();
      while c != NEWLINE as int && c != EOF
        invariant Snapshot() == old(Snapshot()).(stdin := stdin)
        invariant c != NEWLINE as int && c != EOF ==> DiscardLine(stdin) == DiscardLine(old(stdin))
        invariant c == NEWLINE as int || c == EOF ==> stdin == DiscardLine(old(stdin))
        decreases |stdin|, if c == EOF then 0 else 1
      {
        DiscardLineStep(stdin);
        c := Getchar();
      }
    }

    /**
     * The part of get_user_input after a successful fgets: keep the line
     * without its newline, or report an over-long line, discard the rest of
     * it and clear the buffer. input is the console input fgets read from.
     */
    method FinishLine(inputBuffer: array<char>, bufferSize: nat, ghost input: seq<char>)
      requires inputBuffer.Length == bufferSize >= 2 && input != []
      requires var chunk := FgetsChunk(input, bufferSize - 1);
        && inputBuffer[..|chunk|] == chunk && inputBuffer[|chunk|] == NUL
        && stdin == input[|chunk|..]
      modifies this, inputBuffer
      ensures var r := ReadUserLine(input, bufferSize);
        && CString(inputBuffer[..]) == r.text
        && Snapshot() == old(Snapshot()).(stdin := r.rest,
             trace := old(trace) + if r.tooLong then [Console(InputTooLong(bufferSize - 1))] else [])
    {
      ghost var r := ReadUserLine(input, bufferSize);
      FgetsBuffer(input, bufferSize, inputBuffer[..]);
      var len := StrLen(inputBuffer[..]);
      if len > 0 && inputBuffer[len - 1] == NEWLINE {
        ghost var before := inputBuffer[..];
        inputBuffer[len - 1] := NUL;
        assert inputBuffer[..] == before[len - 1 := NUL];
      } else {
        DiscardRestOfLine();
        trace := trace + [Console(InputTooLong(bufferSize - 1))];
        inputBuffer[0] := NUL;
        CStringUpTo(inputBuffer[..], 0);
      }
    }

    /** The rest of get_user_input once fgets returned a line: strip or report, then restart the timer. */
    method AcceptLine(env: Env, inputBuffer: array<char>, bufferSize: nat, ghost s0: State)
      requires inputBuffer.Length == bufferSize >= 2 && s0.stdin != []
      requires var chunk := FgetsChunk(s0.stdin, bufferSize - 1);
        && inputBuffer[..|chunk|] == chunk && inputBuffer[|chunk|] == NUL
        && Snapshot() == s0.(stdin := s0.stdin[|chunk|..], trace := s0.trace + [Console(Prompt)])
      modifies this, inputBuffer
      ensures Snapshot() == ReadInput(s0, env, bufferSize).0
      ensures CString(inputBuffer[..]) == ReadInput(s0, env, bufferSize).1.text
    {
      ghost var r := ReadUserLine(s0.stdin, bufferSize);
      FinishLine(inputBuffer, bufferSize, s0.stdin);
      assert clockReads == s0.clockReads;
      lastActivityTime := Time(env);
      assert stdin == r.rest && clockReads == s0.clockReads + 1 && lastActivityTime == env.clock(s0.clockReads);
      assert trace == s0.trace + [Console(Prompt)] + (if r.tooLong then [Console(InputTooLong(bufferSize - 1))] else []);
      ReadInputOfLine(s0, env, bufferSize, r);
    }

    /**
     * get_user_input. gotLine is false when fgets returned NULL; then
     * nothing but the prompt happened.
     */
    method GetUserInput(env: Env, inputBuffer: array<char>, bufferSize: nat) returns (gotLine: bool)
      requires inputBuffer.Length == bufferSize >= 2
      modifies this, inputBuffer
      ensures Snapshot() == ReadInput(old(Snapshot()), env, bufferSize).0
      ensures gotLine == ReadInput(old(Snapshot()), env, bufferSize).1.Line?
      ensures gotLine ==> CString(inputBuffer[..]) == ReadInput(old(Snapshot()), env, bufferSize).1.text
    {
      ghost var s0 := Snapshot();
      trace := trace + [Console(Prompt)];
      gotLine := Fgets(inputBuffer, bufferSize);
      if !gotLine {
        ReadInputAtEnd(s0, env, bufferSize);
        return;
      }
      AcceptLine(env, inputBuffer, bufferSize, s0);
    }

    /** send_data: partial writes are not detected, so each WriteFile is recorded as issued. */
    method SendData(data: seq<char>)
      modifies this
      ensures Snapshot() == Sent(old(Snapshot()), data)
    {
      trace := trace + [SerialWrite(data)];
      trace := trace + [SerialWrite("\n")];
    }

    /** ReadFile(serialHandle, buf, count, &bytesRead, NULL). */
    method ReadFile(env: Env, buf: array<char>, count: nat) returns (result: bool, bytesRead: nat)
      requires count <= buf.Length
      modifies this, buf
      ensures var reply := env.device(old(deviceReads));
        && result == reply.ReadDone?
        && bytesRead == |BytesRead(reply, count)|
        && buf[..bytesRead] == BytesRead(reply, count)
      ensures Snapshot() == old(Snapshot()).(deviceReads := old(deviceReads) + 1)
    {
      var reply := env.device(deviceReads);
      deviceReads := deviceReads + 1;
      var got := BytesRead(reply, count);
      forall i | 0 <= i < |got| {
        buf[i] := got[i];
      }
      result, bytesRead := reply.ReadDone?, |got|;
    }

    /** strcpy(dst, src). */
    static method StrCpy(dst: array<char>, src: seq<char>)
      requires |src| < dst.Length
      modifies dst
      ensures dst[..|src|] == src && dst[|src|] == NUL
    {
      forall i | 0 <= i < |src| {
        dst[i] := src[i];
      }
      dst[|src|] := NUL;
    }

    /** receive_data. */
    method ReceiveData(env: Env, responseBuffer: array<char>, bufferSize: nat)
      requires responseBuffer.Length == bufferSize > |ReceiveErrorText|
      modifies this, responseBuffer
      ensures Snapshot() == Received(old(Snapshot()), env, bufferSize).0
      ensures CString(responseBuffer[..]) == Received(old(Snapshot()), env, bufferSize).1
      ensures var got := BytesRead(env.device(old(deviceReads)), bufferSize - 1);
        !ReceiveFails(env.device(old(deviceReads)), bufferSize - 1) ==>
          responseBuffer[..|got|] == got && responseBuffer[|got|] == NUL
    {
      ghost var s0 := Snapshot();
      ghost var reply := env.device(deviceReads);
      var result, bytesRead := ReadFile(env, responseBuffer, bufferSize - 1);
      if !result || bytesRead == 0 {
        trace := trace + [Console(ReceiveFailed)];
        StrCpy(responseBuffer, ReceiveErrorText);
        assert responseBuffer[..][..|ReceiveErrorText|] == ReceiveErrorText;
        SubstitutedBuffer(responseBuffer[..]);
        assert ReceiveFails(reply, bufferSize - 1);
        assert Received(s0, env, bufferSize).1 == ReceiveErrorText;
        assert Received(s0, env, bufferSize).0 == Snapshot();
        return;
      }
      assert !ReceiveFails(reply, bufferSize - 1);
      ghost var got := BytesRead(reply, bufferSize - 1);
      responseBuffer[bytesRead] := NUL;
      assert responseBuffer[..][..bytesRead] == got;
      ReceivedBuffer(reply, bufferSize, responseBuffer[..]);
      assert trace == s0.trace + [];
      assert Received(s0, env, bufferSize).1 == ReceivedResponse(reply, bufferSize);
      assert Received(s0, env, bufferSize).0 == Snapshot();
    }

    /** display_response. */
    method DisplayResponse(response: seq<char>)
      modifies this
      ensures Snapshot() == Emit(old(Snapshot()), DisplayEvents(Classify(response)))
    {
      var outcome := Classify(response);
      trace := trace + [Console(Shown(outcome))];
      if outcome == InvalidInput {
        trace := trace + [Console(HelpText)];
      }
    }

    /** write_to_log; the flush that follows is not modelled. */
    method WriteToLog(env: Env, input: seq<char>, response: seq<char>)
      modifies this
      ensures Snapshot() == Logged(old(Snapshot()), env, input, response)
    {
      if logOpen {
        var now := Time(env);
        var timeInfo := env.localTime(now);
        trace := trace + [LogAppend(LogLine(timeInfo, input, response))];
      }
    }

    /** The exchange main performs for a non-empty line other than "exit". */
    method Converse(env: Env, text: seq<char>)
      modifies this
      ensures Snapshot() == Exchange(old(Snapshot()), env, text)
    {
      SendData(text);
      var response := new char[BufferSize];
      ReceiveData(env, response, BufferSize);
      var reply := CString(response[..]);
      DisplayResponse(reply);
      WriteToLog(env, text, reply);
    }

    /** One pass through the body of main's loop; stop holds the reason when it ends with a break. */
    method Iterate(env: Env) returns (stop: Option<Termination>)
      modifies this
      ensures stop.Some? == Iteration(old(Snapshot()), env).Stop?
      ensures stop.Some? ==> Snapshot() == Iteration(old(Snapshot()), env).final && stop.value == Iteration(old(Snapshot()), env).reason
      ensures stop.None? ==> Snapshot() == Iteration(old(Snapshot()), env).next
    {
      var inactive := CheckInactivity(env);
      if inactive {
        trace := trace + [Console(IdleExit)];
        return Some(IdleTimeout);
      }
      var input := new char[BufferSize];
      var gotLine := GetUserInput(env, input, BufferSize);
      if !gotLine {
        return Some(InputEnded);
      }
      var text := CString(input[..]);
      if StrCmpZero(text, ExitCommand) {
        trace := trace + [Console(ExitRequested)];
        return Some(UserExit);
      }
      if !StrCmpZero(text, EmptyLine) {
        Converse(env, text);
      }
      stop := None;
    }

    /** main's while (1) loop, up to the break that ends it. */
    method MainLoop(env: Env) returns (reason: Termination)
      modifies this
      ensures (Snapshot(), reason) == Loop(old(Snapshot()), env)
    {
      ghost var start := Snapshot();
      while true
        invariant Loop(Snapshot(), env) == Loop(start, env)
        decreases |stdin|
      {
        ghost var before := Snapshot();
        var stop := Iterate(env);
        if stop.Some? {
          reason := stop.value;
          assert Loop(before, env) == (Snapshot(), reason);
          break;
        }
        assert Loop(before, env) == Loop(Snapshot(), env);
      }
    }

    /** main. */
    method Run(env: Env, driver: PortDriver, logOpens: bool) returns (reason: Termination)
      modifies this
      ensures (Snapshot(), reason) == Execution(old(Snapshot()), env, driver, logOpens)
    {
      ghost var s0 := Snapshot();
      trace := trace + [Console(HelpText)];
      var ok := ConnectSerial(driver);
      ghost var s1 := Snapshot();
      assert s1 == Connected(Emit(s0, [Console(HelpText)]), driver);
      if !ok {
        trace := trace + [Console(ConnectFailed)];
        return ConnectFailure;
      }
      CreateLogFile(logOpens);
      ghost var s2 := Snapshot();
      lastActivityTime := Time(env);
      ghost var s3 := Snapshot();
      assert s3 == Tick(s2.(lastActivityTime := Now(s2, env)));
      reason := MainLoop(env);
      assert (Snapshot(), reason) == Loop(s3, env);
      if reason != InputEnded {
        handleOpen := false;
        if logOpen {
          logOpen := false;
        }
        assert Snapshot() == Closed(Loop(s3, env).0);
      }
    }
  }
}
