/**
 * The play/pause/jump clock of the cooking plan. Its state is the minutes
 * accumulated while paused, whether the clock plays, and the milliseconds the
 * animation hook last reported since the current run's first frame. The
 * displayed minute is the base plus the running time, the latter counted only
 * while playing.
 *
 * The transition functions come in two versions where the code as written
 * lets a stale elapsed time leak into the clock (see README, Findings): the
 * `AsWritten` ones follow the code, the others are the intended behaviour,
 * which `PlayClock` implements.
 */
module Clock {

  datatype ClockState = ClockState(baseMinutes: real, playing: bool, elapsedMs: real)

  /** The jump box's text after `Number(...)`: a number, or NaN. */
  datatype JumpInput = Number(v: real) | NotANumber

  const MsPerMinute: real := 60000.0

  const Initial: ClockState := ClockState(0.0, false, 0.0)

  function RealMax(a: real, b: real): real {
    if a < b then b else a
  }

  /** `currentMin`. */
  function CurrentMin(c: ClockState): (m: real)
    ensures !c.playing ==> m == c.baseMinutes
    ensures c.elapsedMs >= 0.0 ==> m >= c.baseMinutes
  {
    c.baseMinutes + (if c.playing then c.elapsedMs / MsPerMinute else 0.0)
  }

  /** Neither the base nor the elapsed time is ever negative. */
  ghost predicate Valid(c: ClockState) {
    c.baseMinutes >= 0.0 && c.elapsedMs >= 0.0
  }

  /** An animation frame `ms` after the first frame of the current run; frames only arrive while playing. */
  function AfterFrame(c: ClockState, ms: real): (r: ClockState)
    requires ms >= 0.0
    ensures r.baseMinutes == c.baseMinutes && r.playing == c.playing
    ensures CurrentMin(r) == if c.playing then c.baseMinutes + ms / MsPerMinute else CurrentMin(c)
  {
    if c.playing then c.(elapsedMs := ms) else c
  }

  /** `start` as written: the hook keeps its last elapsed time until the new run's first frame. */
  function AfterStartAsWritten(c: ClockState): (r: ClockState)
    ensures r.playing && r.baseMinutes == c.baseMinutes
    ensures CurrentMin(r) == c.baseMinutes + c.elapsedMs / MsPerMinute
  {
    c.(playing := true)
  }

  /** `start` as intended: a new run begins with no elapsed time. */
  function AfterStart(c: ClockState): (r: ClockState)
    ensures r.playing && r.baseMinutes == c.baseMinutes
    ensures CurrentMin(r) == CurrentMin(c)
  {
    if c.playing then c else c.(playing := true, elapsedMs := 0.0)
  }

  /** `pause` as written: commits the last elapsed time whether or not the clock was playing. */
  function AfterPauseAsWritten(c: ClockState): (r: ClockState)
    ensures !r.playing
    ensures CurrentMin(r) == c.baseMinutes + c.elapsedMs / MsPerMinute
  {
    c.(baseMinutes := c.baseMinutes + c.elapsedMs / MsPerMinute, playing := false)
  }

  /** `pause` as intended: commits the elapsed time of the current run, if there is one. */
  function AfterPause(c: ClockState): (r: ClockState)
    ensures !r.playing && CurrentMin(r) == CurrentMin(c)
    ensures c.playing ==> r.baseMinutes == c.baseMinutes + c.elapsedMs / MsPerMinute
    ensures !c.playing ==> r == c
  {
    if c.playing then AfterPauseAsWritten(c) else c
  }

  /** `reset`. */
  function AfterReset(c: ClockState): (r: ClockState)
    ensures !r.playing && CurrentMin(r) == 0.0
    ensures r.elapsedMs == c.elapsedMs
  {
    c.(playing := false, baseMinutes := 0.0)
  }

  /** `jump`: a number stops the clock at that minute, clamped at zero; NaN is ignored. */
  function AfterJump(c: ClockState, input: JumpInput): (r: ClockState)
    ensures input.NotANumber? ==> r == c
    ensures input.Number? ==> !r.playing && CurrentMin(r) >= 0.0 && CurrentMin(r) >= input.v
    ensures r.elapsedMs == c.elapsedMs
  {
    match input
    case NotANumber => c
    case Number(v) => c.(playing := false, baseMinutes := RealMax(0.0, v))
  }

  lemma InitialIsValid()
    ensures Valid(Initial) && CurrentMin(Initial) == 0.0 && !Initial.playing
  {
  }

  /** Every transition keeps the clock valid, so the displayed minute is never negative. */
  lemma TransitionsKeepValid(c: ClockState, ms: real, input: JumpInput)
    requires Valid(c) && ms >= 0.0
    ensures Valid(AfterFrame(c, ms)) && Valid(AfterStart(c)) && Valid(AfterPause(c))
    ensures Valid(AfterReset(c)) && Valid(AfterJump(c, input))
    ensures Valid(AfterStartAsWritten(c)) && Valid(AfterPauseAsWritten(c))
    ensures CurrentMin(c) >= 0.0
  {
  }

  /** A numeric jump stops the clock showing `max(0, v)`. */
  lemma JumpShowsTarget(c: ClockState, v: real)
    ensures !AfterJump(c, Number(v)).playing
    ensures CurrentMin(AfterJump(c, Number(v))) == RealMax(0.0, v)
    ensures CurrentMin(AfterJump(c, Number(v))) >= 0.0 && CurrentMin(AfterJump(c, Number(v))) >= v
  {
  }

  /** A NaN jump changes nothing. */
  lemma JumpIgnoresNaN(c: ClockState)
    ensures AfterJump(c, NotANumber) == c
  {
  }

  /** `reset` stops the clock at minute zero. */
  lemma ResetShowsZero(c: ClockState)
    ensures !AfterReset(c).playing && CurrentMin(AfterReset(c)) == 0.0
  {
  }

  /** Pausing a playing clock adds the run's elapsed milliseconds, in minutes, to the base. */
  lemma PauseCommitsElapsed(c: ClockState)
    requires c.playing
    ensures AfterPause(c).baseMinutes == c.baseMinutes + c.elapsedMs / 60000.0
    ensures AfterPauseAsWritten(c) == AfterPause(c)
  {
  }

  /** Pausing never moves the displayed minute, and a second pause changes nothing. */
  lemma PauseKeepsMinute(c: ClockState)
    ensures !AfterPause(c).playing
    ensures CurrentMin(AfterPause(c)) == CurrentMin(c)
    ensures AfterPause(AfterPause(c)) == AfterPause(c)
  {
  }

  /** Starting never moves the displayed minute. */
  lemma StartKeepsMinute(c: ClockState)
    ensures AfterStart(c).playing
    ensures CurrentMin(AfterStart(c)) == CurrentMin(c)
  {
  }

  /** A run from a stopped clock that lasts `ms` milliseconds advances it by exactly `ms / 60000` minutes. */
  lemma RunAdvancesByElapsed(c: ClockState, ms: real)
    requires !c.playing && ms >= 0.0
    ensures CurrentMin(AfterFrame(AfterStart(c), ms)) == CurrentMin(c) + ms / 60000.0
    ensures CurrentMin(AfterPause(AfterFrame(AfterStart(c), ms))) == CurrentMin(c) + ms / 60000.0
  {
  }

  /** Half a minute of play, as the animation hook reports it. */
  function HalfMinuteRun(): ClockState {
    AfterFrame(AfterStartAsWritten(Initial), 30000.0)
  }

  /**
   * As written, a second pause adds the same half minute again, and a pause
   * after a reset brings the stale half minute back.
   */
  lemma StalePauseAsWritten()
    ensures CurrentMin(AfterPauseAsWritten(HalfMinuteRun())) == 0.5
    ensures CurrentMin(AfterPauseAsWritten(AfterPauseAsWritten(HalfMinuteRun()))) == 1.0
    ensures CurrentMin(AfterPauseAsWritten(AfterReset(HalfMinuteRun()))) == 0.5
    ensures CurrentMin(AfterPause(AfterPause(HalfMinuteRun()))) == 0.5
    ensures CurrentMin(AfterPause(AfterReset(HalfMinuteRun()))) == 0.0
  {
  }

  /** As written, restarting after a pause first shows the previous run's time added once more. */
  lemma StaleStartAsWritten()
    ensures CurrentMin(AfterPauseAsWritten(HalfMinuteRun())) == 0.5
    ensures CurrentMin(AfterStartAsWritten(AfterPauseAsWritten(HalfMinuteRun()))) == 1.0
    ensures CurrentMin(AfterStart(AfterPause(HalfMinuteRun()))) == 0.5
  {
  }

  /** The clock's mutable cells. */
  class PlayClock {
    var baseMinutes: real
    var playing: bool
    var elapsedMs: real

    function State(): ClockState
      reads this
    {
      ClockState(baseMinutes, playing, elapsedMs)
    }

    constructor ()
      ensures State() == Initial
    {
      baseMinutes := 0.0;
      playing := false;
      elapsedMs := 0.0;
    }

    method Frame(ms: real)
      requires ms >= 0.0
      modifies this
      ensures State() == AfterFrame(old(State()), ms)
    {
      if playing {
        elapsedMs := ms;
      }
    }

    method Start()
      modifies this
      ensures State() == AfterStart(old(State()))
      ensures CurrentMin(State()) == CurrentMin(old(State()))
    {
      if !playing {
        playing := true;
        elapsedMs := 0.0;
      }
    }

    method Pause()
      modifies this
      ensures State() == AfterPause(old(State()))
      ensures CurrentMin(State()) == CurrentMin(old(State()))
    {
      if playing {
        baseMinutes := baseMinutes + elapsedMs / MsPerMinute;
        playing := false;
      }
    }

    method Reset()
      modifies this
      ensures State() == AfterReset(old(State()))
    {
      playing := false;
      baseMinutes := 0.0;
    }

    method Jump(input: JumpInput)
      modifies this
      ensures State() == AfterJump(old(State()), input)
    {
      if input.Number? {
        playing := false;
        baseMinutes := RealMax(0.0, input.v);
      }
    }
  }
}
