/**
 * What the host program promises about one iteration of its main loop, about
 * the loop as a whole and about startup, proved of the functions that
 * CalculatorSession's methods are verified against.
 */
module SessionProperties {
  import opened Wrappers
  import opened CStrings
  import opened Classifier
  import opened LineInput
  import opened Serial
  import opened LogFormat
  import opened Watchdog
  import opened CalculatorSession

  /**
   * The state after the inactivity check and a completed read r of
   * get_user_input: two clock reads, the prompt and, for an over-long line,
   * its error message; the timer restarted at the second clock reading.
   */
  function AfterRead(s: State, env: Env, r: LineRead): State
    requires r.Line?
  {
    s.(stdin := r.rest, clockReads := s.clockReads + 2,
       trace := s.trace + [Console(Prompt)] + (if r.tooLong then [Console(InputTooLong(BufferSize - 1))] else []),
       lastActivityTime := env.clock(s.clockReads + 1))
  }

  /** An iteration that is not stopped by inactivity and finds input reads a line, then acts on its text. */
  lemma IterationAfterRead(s: State, env: Env)
    requires !IsInactive(env.clock(s.clockReads), s.lastActivityTime) && s.stdin != []
    ensures ReadUserLine(s.stdin, BufferSize).Line?
    ensures var r := ReadUserLine(s.stdin, BufferSize);
      var s2 := AfterRead(s, env, r);
      Iteration(s, env) ==
        if StrCmpZero(r.text, ExitCommand) then Stop(Emit(s2, [Console(ExitRequested)]), UserExit)
        else if !StrCmpZero(r.text, EmptyLine) then Continue(Exchange(s2, env, r.text))
        else Continue(s2)
  {
    var r := ReadUserLine(s.stdin, BufferSize);
    var checked := Tick(s);
    var prompted := Emit(checked, [Console(Prompt)]);
    var reported := Emit(prompted, if r.tooLong then [Console(InputTooLong(BufferSize - 1))] else []);
    assert ReadInput(checked, env, BufferSize)
      == (Tick(reported.(stdin := r.rest, lastActivityTime := Now(reported, env))), r);
    var s2 := AfterRead(s, env, r);
    assert Tick(reported.(stdin := r.rest, lastActivityTime := Now(reported, env))) == s2;
    assert !IsInactive(Now(s, env), s.lastActivityTime);
    if StrCmpZero(r.text, ExitCommand) {
      assert Iteration(s, env) == Stop(Emit(s2, [Console(ExitRequested)]), UserExit);
    } else if !StrCmpZero(r.text, EmptyLine) {
      assert Iteration(s, env) == Continue(Exchange(s2, env, r.text));
    } else {
      assert Iteration(s, env) == Continue(s2);
    }
  }

  /** The log line write_to_log stamps with the clock reading of index k. */
  function LogEvent(s: State, env: Env, k: nat, input: seq<char>, response: seq<char>): seq<Event> {
    if s.logOpen then [LogAppend(LogLine(env.localTime(env.clock(k)), input, response))] else []
  }

  /**
   * The inactivity check comes first: an iteration stops for inactivity
   * exactly when more than 300 seconds have passed since the last read, and
   * then it has read nothing and sent nothing, only printed the notice.
   */
  lemma IdleCheckComesFirst(s: State, env: Env)
    ensures Iteration(s, env).Stop? && Iteration(s, env).reason == IdleTimeout
      <==> IsInactive(env.clock(s.clockReads), s.lastActivityTime)
    ensures IsInactive(env.clock(s.clockReads), s.lastActivityTime) ==>
      Iteration(s, env) == Stop(s.(clockReads := s.clockReads + 1, trace := s.trace + [Console(IdleExit)]), IdleTimeout)
  {
  }

  /**
   * Every completed read, valid or over-long, restarts the inactivity timer
   * at the time read right after it (the clock was read once before, by the
   * inactivity check); nothing later in the iteration changes it.
   */
  lemma ReadResetsActivity(s: State, env: Env)
    requires !IsInactive(env.clock(s.clockReads), s.lastActivityTime) && s.stdin != []
    ensures var st := Iteration(s, env);
      || (st.Continue? && st.next.lastActivityTime == env.clock(s.clockReads + 1))
      || (st.Stop? && st.reason == UserExit && st.final.lastActivityTime == env.clock(s.clockReads + 1))
  {
  }

  /**
   * The five minutes are measured from the clock reading taken when the
   * previous read completed, not from when the prompt was shown: the next
   * iteration stops for inactivity exactly when more than 300 seconds lie
   * between that reading and the next check, so time spent waiting in fgets
   * never counts.
   */
  lemma IdleMeasuredFromLastRead(s: State, env: Env)
    requires !IsInactive(env.clock(s.clockReads), s.lastActivityTime) && s.stdin != []
    requires Iteration(s, env).Continue?
    ensures var next := Iteration(s, env).next;
      (Iteration(next, env).Stop? && Iteration(next, env).reason == IdleTimeout)
        <==> IsInactive(env.clock(next.clockReads), env.clock(s.clockReads + 1))
  {
    ReadResetsActivity(s, env);
    IdleCheckComesFirst(Iteration(s, env).next, env);
  }

  /** When input has ended, fgets fails: the iteration stops after the prompt. */
  lemma EndOfInputStops(s: State, env: Env)
    requires !IsInactive(env.clock(s.clockReads), s.lastActivityTime) && s.stdin == []
    ensures Iteration(s, env) == Stop(s.(clockReads := s.clockReads + 1, trace := s.trace + [Console(Prompt)]), InputEnded)
  {
  }

  /**
   * The loop stops at the user's request exactly when the line read is
   * "exit", by an exact, case-sensitive comparison.
   */
  lemma ExitOnlyOnExactWord(s: State, env: Env)
    ensures Iteration(s, env).Stop? && Iteration(s, env).reason == UserExit
      <==> && !IsInactive(env.clock(s.clockReads), s.lastActivityTime)
           && ReadUserLine(s.stdin, BufferSize).Line?
           && ReadUserLine(s.stdin, BufferSize).text == ExitCommand
  {
    if !IsInactive(env.clock(s.clockReads), s.lastActivityTime) && s.stdin != [] {
      var line := ReadUserLine(s.stdin, BufferSize);
      CommandWordsHaveNoNul();
      assert NoNul(line.text);
      StrCmpZeroIsEquality(line.text, ExitCommand);
    }
  }

  /** "exit" on a line of its own ends the loop with nothing sent. */
  lemma ExitStopsWithoutSending(s: State, env: Env, rest: seq<char>)
    requires !IsInactive(env.clock(s.clockReads), s.lastActivityTime)
    requires s.stdin == ExitCommand + [NEWLINE] + rest
    ensures Iteration(s, env).Stop? && Iteration(s, env).reason == UserExit
    ensures Iteration(s, env).final.trace == s.trace + [Console(Prompt), Console(ExitRequested)]
    ensures Iteration(s, env).final.deviceReads == s.deviceReads
  {
    CommandWordsHaveNoNul();
    ReadsWholeLine(ExitCommand, rest, BufferSize);
    StrCmpZeroIsEquality(ExitCommand, ExitCommand);
    IterationAfterRead(s, env);
    assert s.trace + [Console(Prompt)] + [] + [Console(ExitRequested)] == s.trace + [Console(Prompt), Console(ExitRequested)];
  }

  /** An empty line is skipped: only the prompt is printed, nothing is sent, received or logged. */
  lemma EmptyLineSendsNothing(s: State, env: Env, rest: seq<char>)
    requires !IsInactive(env.clock(s.clockReads), s.lastActivityTime)
    requires s.stdin == [NEWLINE] + rest
    ensures Iteration(s, env).Continue?
    ensures var next := Iteration(s, env).next;
      && next.trace == s.trace + [Console(Prompt)]
      && next.deviceReads == s.deviceReads
      && next.stdin == rest
  {
    ReadsWholeLine([], rest, BufferSize);
    assert [] + [NEWLINE] + rest == s.stdin;
    CommandWordsHaveNoNul();
    StrCmpZeroIsEquality([], ExitCommand);
    StrCmpZeroIsEquality([], EmptyLine);
    IterationAfterRead(s, env);
    assert s.trace + [Console(Prompt)] + [] == s.trace + [Console(Prompt)];
  }

  /**
   * A line of 99 or more characters is rejected and skipped whole: the user
   * is told the maximum (99), nothing is sent or logged, and the next read
   * starts after that line.
   */
  lemma OverlongNeverSent(s: State, env: Env, line: seq<char>, rest: seq<char>)
    requires !IsInactive(env.clock(s.clockReads), s.lastActivityTime)
    requires NEWLINE !in line && |line| >= BufferSize - 1
    requires s.stdin == line + [NEWLINE] + rest
    ensures Iteration(s, env).Continue?
    ensures var next := Iteration(s, env).next;
      && next.trace == s.trace + [Console(Prompt), Console(InputTooLong(99))]
      && next.deviceReads == s.deviceReads
      && next.stdin == rest
  {
    OverlongLineDiscarded(line, rest, BufferSize);
    CommandWordsHaveNoNul();
    StrCmpZeroIsEquality([], ExitCommand);
    StrCmpZeroIsEquality([], EmptyLine);
    IterationAfterRead(s, env);
  }

  /**
   * A line that fits but holds a NUL is never sent either: it is reported
   * as too long, and the discard loop consumes the line after it.
   */
  lemma NulLineNeverSent(s: State, env: Env, line: seq<char>, rest: seq<char>)
    requires !IsInactive(env.clock(s.clockReads), s.lastActivityTime)
    requires NEWLINE !in line && !NoNul(line) && |line| <= BufferSize - 2
    requires s.stdin == line + [NEWLINE] + rest
    ensures Iteration(s, env).Continue?
    ensures var next := Iteration(s, env).next;
      && next.trace == s.trace + [Console(Prompt), Console(InputTooLong(99))]
      && next.deviceReads == s.deviceReads
      && next.stdin == DiscardLine(rest)
  {
    NulLineRejected(line, rest, BufferSize);
    CommandWordsHaveNoNul();
    StrCmpZeroIsEquality([], ExitCommand);
    StrCmpZeroIsEquality([], EmptyLine);
    IterationAfterRead(s, env);
  }

  /**
   * One exchange: the payload and then the one-byte newline frame, one
   * receive (with its error notice when it fails), the display of the
   * classified reply, and one log line when the log is open. Only the device
   * reads, the clock reads and the trace change.
   */
  lemma ExchangeEvents(s: State, env: Env, text: seq<char>)
    ensures var reply := env.device(s.deviceReads);
      var response := ReceivedResponse(reply, BufferSize);
      Exchange(s, env, text) == s.(
        deviceReads := s.deviceReads + 1,
        clockReads := s.clockReads + (if s.logOpen then 1 else 0),
        trace := s.trace + [SerialWrite(text), SerialWrite("\n")]
          + (if ReceiveFails(reply, BufferSize - 1) then [Console(ReceiveFailed)] else [])
          + DisplayEvents(Classify(response))
          + LogEvent(s, env, s.clockReads, text, response))
  {
  }

  /**
   * Any other line is exchanged with the device, right after the prompt;
   * the log line is stamped with the third clock reading of the iteration.
   */
  lemma ExchangeOrder(s: State, env: Env, text: seq<char>, rest: seq<char>)
    requires !IsInactive(env.clock(s.clockReads), s.lastActivityTime)
    requires NEWLINE !in text && NoNul(text) && |text| <= BufferSize - 2
    requires text != [] && text != ExitCommand
    requires s.stdin == text + [NEWLINE] + rest
    ensures Iteration(s, env).Continue?
    ensures var next := Iteration(s, env).next;
      var reply := env.device(s.deviceReads);
      var response := ReceivedResponse(reply, BufferSize);
      && next.trace == s.trace + [Console(Prompt), SerialWrite(text), SerialWrite("\n")]
           + (if ReceiveFails(reply, BufferSize - 1) then [Console(ReceiveFailed)] else [])
           + DisplayEvents(Classify(response))
           + LogEvent(s, env, s.clockReads + 2, text, response)
      && next.deviceReads == s.deviceReads + 1
      && next.stdin == rest
      && next.lastActivityTime == env.clock(s.clockReads + 1)
  {
    ReadsWholeLine(text, rest, BufferSize);
    CommandWordsHaveNoNul();
    StrCmpZeroIsEquality(text, ExitCommand);
    StrCmpZeroIsEquality(text, EmptyLine);
    IterationAfterRead(s, env);
    var read := AfterRead(s, env, Line(text, rest, false));
    ExchangeEvents(read, env, text);
    assert read.trace + [SerialWrite(text), SerialWrite("\n")]
      == s.trace + [Console(Prompt), SerialWrite(text), SerialWrite("\n")];
  }

  /** "exit " with a trailing blank is not the exit command: it is sent to the device. */
  lemma ExitWithBlankIsSent(s: State, env: Env, word: seq<char>, rest: seq<char>)
    requires word == "exit "
    requires !IsInactive(env.clock(s.clockReads), s.lastActivityTime)
    requires s.stdin == word + [NEWLINE] + rest
    ensures Iteration(s, env).Continue?
    ensures Iteration(s, env).next.trace[|s.trace| + 1] == SerialWrite(word)
  {
    assert NoNul(word) && NEWLINE !in word by {
      forall i | 0 <= i < |word| ensures word[i] != NUL && word[i] != NEWLINE {
      }
    }
    CommandWordsHaveNoNul();
    assert word != ExitCommand;
    ExchangeOrder(s, env, word, rest);
  }

  /** "Receiving error" does not start with "ERROR": display_response treats it as a result. */
  lemma ReceiveErrorIsResult(t: seq<char>)
    requires t == ReceiveErrorText
    ensures Classify(t) == Success(t)
  {
    ReceiveErrorTextHasNoNul();
    CStringOfNoNul(t);
    assert t[0] != ErrorPrefix[0];
    OtherRepliesAreResults(t);
  }

  /** After a failed read the response is the substitute text, and it is displayed as a result. */
  lemma FailedReplyEvents(reply: ReadReply)
    requires ReceiveFails(reply, BufferSize - 1)
    ensures ReceivedResponse(reply, BufferSize) == ReceiveErrorText
    ensures DisplayEvents(Classify(ReceivedResponse(reply, BufferSize))) == [Console(Shown(Success(ReceiveErrorText)))]
  {
    var response := ReceivedResponse(reply, BufferSize);
    ReceiveErrorIsResult(response);
    var shown := Console(Shown(Success(response)));
    assert DisplayEvents(Success(response)) == [shown] + [];
  }

  /**
   * A failed receive does not end the exchange: after the error notice the
   * substitute text is displayed as a result, "Result: Receiving error", and
   * logged as the response when the log is open.
   */
  lemma ReceiveFailureShownAsResultAndLogged(s: State, env: Env, text: seq<char>, rest: seq<char>)
    requires !IsInactive(env.clock(s.clockReads), s.lastActivityTime)
    requires NEWLINE !in text && NoNul(text) && |text| <= BufferSize - 2
    requires text != [] && text != ExitCommand
    requires s.stdin == text + [NEWLINE] + rest
    requires ReceiveFails(env.device(s.deviceReads), BufferSize - 1)
    ensures Iteration(s, env).Continue?
    ensures Iteration(s, env).next.trace ==
      s.trace + [Console(Prompt), SerialWrite(text), SerialWrite("\n")]
      + [Console(ReceiveFailed)] + [Console(Shown(Success(ReceiveErrorText)))]
      + LogEvent(s, env, s.clockReads + 2, text, ReceiveErrorText)
  {
    ExchangeOrder(s, env, text, rest);
    FailedReplyEvents(env.device(s.deviceReads));
  }

  /**
   * A frame the program can put on the serial line: the one-byte terminator,
   * or a payload of 1 to 98 characters holding neither a newline nor a NUL.
   */
  predicate ValidFrame(e: Event) {
    e.SerialWrite? ==>
      e.bytes == "\n" || (e.bytes != [] && |e.bytes| <= BufferSize - 2 && NoNul(e.bytes) && NEWLINE !in e.bytes)
  }

  /** after extends before, and every event added is a valid frame or not a frame. */
  predicate ExtendsValidly(before: seq<Event>, after: seq<Event>) {
    && before <= after
    && forall i | |before| <= i < |after| :: ValidFrame(after[i])
  }

  lemma ExtendsValidlyTransitive(s: seq<Event>, t: seq<Event>, u: seq<Event>)
    requires ExtendsValidly(s, t) && ExtendsValidly(t, u)
    ensures ExtendsValidly(s, u)
  {
    forall i | |s| <= i < |u| ensures ValidFrame(u[i]) {
      if i < |t| {
        assert u[i] == t[i];
      }
    }
  }

  lemma EmitValidly(s: State, events: seq<Event>)
    requires forall i | 0 <= i < |events| :: ValidFrame(events[i])
    ensures ExtendsValidly(s.trace, Emit(s, events).trace)
  {
    forall i | |s.trace| <= i < |Emit(s, events).trace| ensures ValidFrame(Emit(s, events).trace[i]) {
      assert Emit(s, events).trace[i] == events[i - |s.trace|];
    }
  }

  /** An iteration only appends to the trace, and the only frames it sends are valid ones. */
  lemma IterationSendsValidFrames(s: State, env: Env)
    ensures Iteration(s, env).Continue? ==> ExtendsValidly(s.trace, Iteration(s, env).next.trace)
    ensures Iteration(s, env).Stop? ==> ExtendsValidly(s.trace, Iteration(s, env).final.trace)
    ensures Iteration(s, env).Stop? ==> Iteration(s, env).reason != ConnectFailure
  {
    var checked := Tick(s);
    if IsInactive(Now(s, env), s.lastActivityTime) {
      EmitValidly(checked, [Console(IdleExit)]);
    } else {
      var line := ReadUserLine(checked.stdin, BufferSize);
      var prompted := Emit(checked, [Console(Prompt)]);
      EmitValidly(checked, [Console(Prompt)]);
      if line.Line? {
        var reported := Emit(prompted, if line.tooLong then [Console(InputTooLong(BufferSize - 1))] else []);
        EmitValidly(prompted, if line.tooLong then [Console(InputTooLong(BufferSize - 1))] else []);
        ExtendsValidlyTransitive(checked.trace, prompted.trace, reported.trace);
        var s2 := Tick(reported.(stdin := line.rest, lastActivityTime := Now(reported, env)));
        assert ReadInput(checked, env, BufferSize) == (s2, line);
        if StrCmpZero(line.text, ExitCommand) {
          EmitValidly(s2, [Console(ExitRequested)]);
          ExtendsValidlyTransitive(checked.trace, s2.trace, Emit(s2, [Console(ExitRequested)]).trace);
        } else if !StrCmpZero(line.text, EmptyLine) {
          assert !line.tooLong;
          assert line.text != [];
          ExchangeSendsValidFrames(s2, env, line.text);
          ExtendsValidlyTransitive(checked.trace, s2.trace, Exchange(s2, env, line.text).trace);
        }
      }
    }
  }

  /** send_data puts a valid payload frame and the terminator on the line. */
  lemma SentValidly(s: State, text: seq<char>)
    requires text != [] && |text| <= BufferSize - 2 && NoNul(text) && NEWLINE !in text
    ensures ExtendsValidly(s.trace, Sent(s, text).trace)
  {
    EmitValidly(s, [SerialWrite(text), SerialWrite("\n")]);
  }

  /** receive_data sends nothing. */
  lemma ReceivedValidly(s: State, env: Env)
    ensures ExtendsValidly(s.trace, Received(s, env, BufferSize).0.trace)
  {
    var reply := env.device(s.deviceReads);
    EmitValidly(s.(deviceReads := s.deviceReads + 1),
      if ReceiveFails(reply, BufferSize - 1) then [Console(ReceiveFailed)] else []);
  }

  /** display_response sends nothing. */
  lemma DisplayedValidly(s: State, o: Outcome)
    ensures ExtendsValidly(s.trace, Emit(s, DisplayEvents(o)).trace)
  {
    EmitValidly(s, DisplayEvents(o));
  }

  /** write_to_log sends nothing. */
  lemma LoggedValidly(s: State, env: Env, input: seq<char>, response: seq<char>)
    ensures ExtendsValidly(s.trace, Logged(s, env, input, response).trace)
  {
    if s.logOpen {
      EmitValidly(Tick(s), [LogAppend(LogLine(env.localTime(Now(s, env)), input, response))]);
    }
  }

  /** The frames of one exchange are the payload and the terminator. */
  lemma ExchangeSendsValidFrames(s: State, env: Env, text: seq<char>)
    requires text != [] && |text| <= BufferSize - 2 && NoNul(text) && NEWLINE !in text
    ensures ExtendsValidly(s.trace, Exchange(s, env, text).trace)
  {
    var s1 := Sent(s, text);
    SentValidly(s, text);
    var (s2, response) := Received(s1, env, BufferSize);
    ReceivedValidly(s1, env);
    var s3 := Emit(s2, DisplayEvents(Classify(response)));
    DisplayedValidly(s2, Classify(response));
    LoggedValidly(s3, env, text, response);
    ExtendsValidlyTransitive(s.trace, s1.trace, s2.trace);
    ExtendsValidlyTransitive(s.trace, s2.trace, s3.trace);
    ExtendsValidlyTransitive(s.trace, s3.trace, Exchange(s, env, text).trace);
  }

  /**
   * The whole loop only appends to the trace, sends nothing but valid
   * frames (so in particular no over-long line ever reaches the device),
   * and never ends in a connection failure.
   */
  lemma {:induction false} LoopSendsValidFrames(s: State, env: Env)
    ensures ExtendsValidly(s.trace, Loop(s, env).0.trace)
    ensures Loop(s, env).1 != ConnectFailure
    decreases |s.stdin|
  {
    IterationSendsValidFrames(s, env);
    match Iteration(s, env)
    case Stop(final, reason) =>
    case Continue(next) =>
      LoopSendsValidFrames(next, env);
      ExtendsValidlyTransitive(s.trace, next.trace, Loop(next, env).0.trace);
  }

  /**
   * A failed connection ends the program with status 1 right after the
   * help text and the error: no log file is opened, the clock is never read,
   * nothing is read or sent, and a handle CreateFile opened stays open.
   */
  lemma ExecutionConnectFailure(s: State, env: Env, driver: PortDriver, logOpens: bool)
    requires !ConnectSucceeds(driver)
    ensures Execution(s, env, driver, logOpens) ==
      (s.(trace := s.trace + [Console(HelpText), Console(ConnectFailed)],
          handleOpen := driver.createFileOk, connected := false),
       ConnectFailure)
  {
    assert s.trace + [Console(HelpText)] + [Console(ConnectFailed)] == s.trace + [Console(HelpText), Console(ConnectFailed)];
  }

  /** The program ends with status 1 exactly when the connection fails. */
  lemma ConnectFailureIsOnlyStatusOne(s: State, env: Env, driver: PortDriver, logOpens: bool)
    ensures Execution(s, env, driver, logOpens).1 == ConnectFailure <==> !ConnectSucceeds(driver)
    ensures ExitStatus(Execution(s, env, driver, logOpens).1) == Some(1) <==> !ConnectSucceeds(driver)
  {
    if ConnectSucceeds(driver) {
      var s1 := Connected(Emit(s, [Console(HelpText)]), driver);
      var s2 := LogOpened(s1, logOpens);
      var s3 := Tick(s2.(lastActivityTime := Now(s2, env)));
      LoopSendsValidFrames(s3, env);
    }
  }

  /**
   * After a connection, leaving the loop by "exit" or by inactivity closes
   * the port and the log and returns 0.
   */
  lemma ExecutionClosesOnExit(s: State, env: Env, driver: PortDriver, logOpens: bool)
    requires ConnectSucceeds(driver)
    requires Execution(s, env, driver, logOpens).1 != InputEnded
    ensures Execution(s, env, driver, logOpens).1 == UserExit || Execution(s, env, driver, logOpens).1 == IdleTimeout
    ensures !Execution(s, env, driver, logOpens).0.handleOpen && !Execution(s, env, driver, logOpens).0.logOpen
    ensures ExitStatus(Execution(s, env, driver, logOpens).1) == Some(0)
  {
    ConnectFailureIsOnlyStatusOne(s, env, driver, logOpens);
  }

  /** Over a whole run only valid frames reach the serial line, and the trace starts with the help text. */
  lemma ExecutionSendsValidFrames(s: State, env: Env, driver: PortDriver, logOpens: bool)
    ensures ExtendsValidly(s.trace, Execution(s, env, driver, logOpens).0.trace)
    ensures |Execution(s, env, driver, logOpens).0.trace| > |s.trace|
    ensures Execution(s, env, driver, logOpens).0.trace[|s.trace|] == Console(HelpText)
  {
    var s0 := Emit(s, [Console(HelpText)]);
    EmitValidly(s, [Console(HelpText)]);
    var s1 := Connected(s0, driver);
    if !s1.connected {
      EmitValidly(s1, [Console(ConnectFailed)]);
      ExtendsValidlyTransitive(s.trace, s1.trace, Emit(s1, [Console(ConnectFailed)]).trace);
    } else {
      var s2 := LogOpened(s1, logOpens);
      EmitValidly(s1.(logOpen := logOpens), if logOpens then [] else [Console(LogOpenFailed)]);
      ExtendsValidlyTransitive(s.trace, s1.trace, s2.trace);
      var s3 := Tick(s2.(lastActivityTime := Now(s2, env)));
      LoopSendsValidFrames(s3, env);
      ExtendsValidlyTransitive(s.trace, s3.trace, Loop(s3, env).0.trace);
      assert Loop(s3, env).0.trace[|s.trace|] == s0.trace[|s.trace|];
    }
  }

  /** after extends before, and nothing added is a write to the log file. */
  predicate AppendsNoLog(before: seq<Event>, after: seq<Event>) {
    && before <= after
    && forall i | |before| <= i < |after| :: !after[i].LogAppend?
  }

  lemma AppendsNoLogTransitive(s: seq<Event>, t: seq<Event>, u: seq<Event>)
    requires AppendsNoLog(s, t) && AppendsNoLog(t, u)
    ensures AppendsNoLog(s, u)
  {
    forall i | |s| <= i < |u| ensures !u[i].LogAppend? {
      if i < |t| {
        assert u[i] == t[i];
      }
    }
  }

  /** Appending events none of which is a log write appends no log write. */
  lemma AppendingNoLog(before: seq<Event>, events: seq<Event>)
    requires forall i | 0 <= i < |events| :: !events[i].LogAppend?
    ensures AppendsNoLog(before, before + events)
  {
    forall i | |before| <= i < |before + events| ensures !(before + events)[i].LogAppend? {
      assert (before + events)[i] == events[i - |before|];
    }
  }

  /** An exchange leaves the log flag alone, and with the log closed it writes nothing to it. */
  lemma ExchangeKeepsLogFlag(s: State, env: Env, text: seq<char>)
    ensures Exchange(s, env, text).logOpen == s.logOpen
    ensures !s.logOpen ==> AppendsNoLog(s.trace, Exchange(s, env, text).trace)
  {
    if !s.logOpen {
      var s1 := Sent(s, text);
      AppendingNoLog(s.trace, [SerialWrite(text), SerialWrite("\n")]);
      var reply := env.device(s1.deviceReads);
      var (s2, response) := Received(s1, env, BufferSize);
      AppendingNoLog(s1.trace, if ReceiveFails(reply, BufferSize - 1) then [Console(ReceiveFailed)] else []);
      var s3 := Emit(s2, DisplayEvents(Classify(response)));
      AppendingNoLog(s2.trace, DisplayEvents(Classify(response)));
      AppendsNoLogTransitive(s.trace, s1.trace, s2.trace);
      AppendsNoLogTransitive(s.trace, s2.trace, s3.trace);
      assert Exchange(s, env, text) == s3;
    }
  }

  /** The state a step reaches, whether the loop goes on or stops there. */
  function Reached(st: Step): State {
    if st.Continue? then st.next else st.final
  }

  /** After the check and a completed read, the iteration leaves the log flag alone and, with the log closed, writes nothing to it. */
  lemma ReadStepKeepsLogFlag(s: State, env: Env)
    requires !IsInactive(env.clock(s.clockReads), s.lastActivityTime) && s.stdin != []
    ensures Reached(Iteration(s, env)).logOpen == s.logOpen
    ensures !s.logOpen ==> AppendsNoLog(s.trace, Reached(Iteration(s, env)).trace)
  {
    IterationAfterRead(s, env);
    var r := ReadUserLine(s.stdin, BufferSize);
    var s2 := AfterRead(s, env, r);
    AppendingNoLog(s.trace, [Console(Prompt)] + (if r.tooLong then [Console(InputTooLong(BufferSize - 1))] else []));
    assert s2.trace == s.trace + ([Console(Prompt)] + (if r.tooLong then [Console(InputTooLong(BufferSize - 1))] else []));
    if StrCmpZero(r.text, ExitCommand) {
      AppendingNoLog(s2.trace, [Console(ExitRequested)]);
      AppendsNoLogTransitive(s.trace, s2.trace, Emit(s2, [Console(ExitRequested)]).trace);
    } else if !StrCmpZero(r.text, EmptyLine) {
      ExchangeKeepsLogFlag(s2, env, r.text);
      if !s.logOpen {
        AppendsNoLogTransitive(s.trace, s2.trace, Exchange(s2, env, r.text).trace);
      }
    }
  }

  /**
   * No iteration opens or closes the log, and with the log closed an
   * iteration writes nothing to it.
   */
  lemma IterationKeepsLogFlag(s: State, env: Env)
    ensures Reached(Iteration(s, env)).logOpen == s.logOpen
    ensures !s.logOpen ==> AppendsNoLog(s.trace, Reached(Iteration(s, env)).trace)
  {
    if IsInactive(env.clock(s.clockReads), s.lastActivityTime) {
      IdleCheckComesFirst(s, env);
      AppendingNoLog(s.trace, [Console(IdleExit)]);
    } else if s.stdin == [] {
      EndOfInputStops(s, env);
      AppendingNoLog(s.trace, [Console(Prompt)]);
    } else {
      ReadStepKeepsLogFlag(s, env);
    }
  }

  /**
   * The loop never opens or closes the log file, so a log that failed to
   * open stays disabled and not one line is written to it.
   */
  lemma {:induction false} LoopKeepsLogFlag(s: State, env: Env)
    ensures Loop(s, env).0.logOpen == s.logOpen
    ensures !s.logOpen ==> AppendsNoLog(s.trace, Loop(s, env).0.trace)
    decreases |s.stdin|
  {
    IterationKeepsLogFlag(s, env);
    match Iteration(s, env)
    case Stop(final, reason) =>
    case Continue(next) =>
      LoopKeepsLogFlag(next, env);
      if !s.logOpen {
        AppendsNoLogTransitive(s.trace, next.trace, Loop(next, env).0.trace);
      }
  }

  /** When fopen fails, a whole run writes nothing to the log and ends with it closed. */
  lemma ExecutionWithoutLogFile(s: State, env: Env, driver: PortDriver)
    ensures AppendsNoLog(s.trace, Execution(s, env, driver, false).0.trace)
    ensures ConnectSucceeds(driver) ==> !Execution(s, env, driver, false).0.logOpen
  {
    var s0 := Emit(s, [Console(HelpText)]);
    AppendingNoLog(s.trace, [Console(HelpText)]);
    var s1 := Connected(s0, driver);
    if !s1.connected {
      AppendingNoLog(s1.trace, [Console(ConnectFailed)]);
      AppendsNoLogTransitive(s.trace, s1.trace, Emit(s1, [Console(ConnectFailed)]).trace);
    } else {
      var s2 := LogOpened(s1, false);
      AppendingNoLog(s1.trace, [Console(LogOpenFailed)]);
      AppendsNoLogTransitive(s.trace, s1.trace, s2.trace);
      var s3 := Tick(s2.(lastActivityTime := Now(s2, env)));
      LoopKeepsLogFlag(s3, env);
      AppendsNoLogTransitive(s.trace, s3.trace, Loop(s3, env).0.trace);
    }
  }
}
