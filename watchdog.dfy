/** The inactivity test check_inactivity makes, with time in whole seconds. */
module Watchdog {

  /** Five minutes. */
  const InactivityLimit: int := 300

  /** More than the limit has passed since the last completed read; exactly the limit is not enough. */
  predicate IsInactive(now: int, lastActivityTime: int) {
    now - lastActivityTime > InactivityLimit
  }

  /** The test is strict: 300 seconds after the last read the session is still active, 301 seconds after it is not. */
  lemma InactivityIsStrict(lastActivityTime: int)
    ensures !IsInactive(lastActivityTime + InactivityLimit, lastActivityTime)
    ensures IsInactive(lastActivityTime + InactivityLimit + 1, lastActivityTime)
  {
  }
}
