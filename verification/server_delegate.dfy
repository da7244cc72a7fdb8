/** The backend lifecycle of delegates/ServerDelegate.kt: driving the
    Minecraft server into a desired status through a bounded number of start
    and stop actions, and the periodic checkup that stops it once it has been
    empty for the configured time. The implementation-specific operations
    (`getCurrentStatus`, `startServer`/`stopServer`, and the status exchange
    of `getState`) are an oracle: the answers they will give, in order. */
module ServerDelegates {
  import opened Exceptions

  datatype ServerStatus = Starting | Started | Stopping | Stopped | Unknown

  predicate IsTransient(s: ServerStatus)
  {
    s == Starting || s == Stopping
  }

  const MAX_SERVER_ACTION_ATTEMPTS: nat := 5
  /** SERVER_TRANSITION_TIMEOUT (60 s) over SERVER_TRANSITION_PING_FREQUENCY
      (1 s): the status reads that fit before the timeout, the driver's calls
      taking no time. */
  const MAX_TRANSITION_POLLS: nat := 60

  /** `FAILED_TO_DO_AFTER_X_ATTEMPTS`, with the attempt limit written out. */
  function GiveUpMessage(action: string): string
  {
    "Failed to " + action + " server after 5 attempts"
  }

  /** How a launched `startServer` or `stopServer` ends. */
  datatype ActionOutcome =
    | Completed
    | Incompatible          // IncompatibleServerStateException: back off, status unknown
    | Raised(error: Error)  // any other exception, which cancels the waiting call

  /** What the driver will still answer: statuses, action outcomes, and the
      player counts of status exchanges (`None` for one that fails). */
  datatype Oracle = Oracle(statuses: seq<ServerStatus>, actions: seq<ActionOutcome>, reports: seq<Option<int>>)

  /** The driver, answering from its oracle. */
  class Driver {
    var oracle: Oracle

    constructor (oracle: Oracle)
      ensures this.oracle == oracle
    {
      this.oracle := oracle;
    }

    /** `getCurrentStatus()`; running out of answers is an error. */
    method GetCurrentStatus() returns (r: Result<ServerStatus>)
      modifies this
      ensures old(oracle.statuses) == [] ==> r == Err(DriverExhausted) && oracle == old(oracle)
      ensures old(oracle.statuses) != [] ==>
        r == Ok(old(oracle.statuses[0])) && oracle == old(oracle.(statuses := oracle.statuses[1..]))
    {
      if oracle.statuses == [] {
        return Err(DriverExhausted);
      }
      r := Ok(oracle.statuses[0]);
      oracle := oracle.(statuses := oracle.statuses[1..]);
    }

    /** `startServer()` or `stopServer()`, run to its end. */
    method Act() returns (r: ActionOutcome)
      modifies this
      ensures old(oracle.actions) == [] ==> r == Raised(DriverExhausted) && oracle == old(oracle)
      ensures old(oracle.actions) != [] ==>
        r == old(oracle.actions[0]) && oracle == old(oracle.(actions := oracle.actions[1..]))
    {
      if oracle.actions == [] {
        return Raised(DriverExhausted);
      }
      r := oracle.actions[0];
      oracle := oracle.(actions := oracle.actions[1..]);
    }

    /** The players online, from `getState()`; `None` when it fails. */
    method GetPlayersOnline() returns (r: Option<int>)
      modifies this
      ensures old(oracle.reports) == [] ==> r == None && oracle == old(oracle)
      ensures old(oracle.reports) != [] ==>
        r == old(oracle.reports[0]) && oracle == old(oracle.(reports := oracle.reports[1..]))
    {
      if oracle.reports == [] {
        return None;
      }
      r := oracle.reports[0];
      oracle := oracle.(reports := oracle.reports[1..]);
    }
  }

  // ---------------------------------------------------------------------------
  // waitForServerToBe

  /** The polling of a transient status, after `polls` status reads of which
      the last gave `state`. */
  datatype Polled = Polled(result: Outcome, state: ServerStatus, oracle: Oracle)

  function Poll(state: ServerStatus, oracle: Oracle, polls: nat): (p: Polled)
    ensures |p.oracle.statuses| <= |oracle.statuses|
    ensures p.oracle.actions == oracle.actions && p.oracle.reports == oracle.reports
    ensures p.result.Pass? ==> !IsTransient(p.state)
    decreases |oracle.statuses|
  {
    if !IsTransient(state) then Polled(Pass, state, oracle)
    else if polls >= MAX_TRANSITION_POLLS then Polled(Fail(TransitionTimeout), state, oracle)
    else if oracle.statuses == [] then Polled(Fail(DriverExhausted), state, oracle)
    else Poll(oracle.statuses[0], oracle.(statuses := oracle.statuses[1..]), polls + 1)
  }

  /** Where `waitForServerToBe(desired)` ends: its outcome, the status it
      leaves, the actions it has taken and the oracle's remainder. */
  datatype Waited = Waited(result: Outcome, state: ServerStatus, attempts: nat, oracle: Oracle)

  /** The transition loop from `state` after `attempts` start/stop actions. */
  function Drive(desired: ServerStatus, state: ServerStatus, attempts: nat, oracle: Oracle): (w: Waited)
    ensures |w.oracle.statuses| <= |oracle.statuses| && w.oracle.reports == oracle.reports
    decreases |oracle.statuses|, |oracle.actions|
  {
    if state == desired then Waited(Pass, state, attempts, oracle)
    else match state
      case Unknown =>
        if oracle.statuses == [] then Waited(Fail(DriverExhausted), state, attempts, oracle)
        else Drive(desired, oracle.statuses[0], attempts, oracle.(statuses := oracle.statuses[1..]))
      case Starting =>
        TransitionPolled(desired, state, attempts, oracle)
      case Stopping =>
        TransitionPolled(desired, state, attempts, oracle)
      case Stopped =>
        ActionTaken(desired, state, attempts, oracle)
      case Started =>
        ActionTaken(desired, state, attempts, oracle)
  }

  /** A transient status: read the status, then poll until it settles. */
  function TransitionPolled(desired: ServerStatus, state: ServerStatus, attempts: nat, oracle: Oracle): (w: Waited)
    ensures |w.oracle.statuses| <= |oracle.statuses| && w.oracle.reports == oracle.reports
    decreases |oracle.statuses|, |oracle.actions|, 0
  {
    if oracle.statuses == [] then Waited(Fail(DriverExhausted), state, attempts, oracle)
    else
      var p := Poll(oracle.statuses[0], oracle.(statuses := oracle.statuses[1..]), 1);
      if p.result.Fail? then Waited(p.result, p.state, attempts, p.oracle)
      else Drive(desired, p.state, attempts, p.oracle)
  }

  /** A stable status other than the desired one: give up after five
      actions, otherwise enter the intermediate status and run the action. */
  function ActionTaken(desired: ServerStatus, state: ServerStatus, attempts: nat, oracle: Oracle): (w: Waited)
    requires state == Stopped || state == Started
    ensures |w.oracle.statuses| <= |oracle.statuses| && w.oracle.reports == oracle.reports
    decreases |oracle.statuses|, |oracle.actions|, 0
  {
    if attempts >= MAX_SERVER_ACTION_ATTEMPTS then
      Waited(Fail(Unrecoverable(GiveUpMessage(if state == Stopped then "start" else "stop"))), state, attempts, oracle)
    else
      var next := if state == Stopped then Starting else Stopping;
      if oracle.actions == [] then Waited(Fail(DriverExhausted), next, attempts + 1, oracle)
      else match oracle.actions[0]
        case Completed => Drive(desired, next, attempts + 1, oracle.(actions := oracle.actions[1..]))
        case Incompatible => Drive(desired, Unknown, attempts + 1, oracle.(actions := oracle.actions[1..]))
        case Raised(e) => Waited(Fail(e), next, attempts + 1, oracle.(actions := oracle.actions[1..]))
  }

  /** What `waitForServerToBe` promises: it returns normally only in the
      desired status, and it takes at most five start/stop actions, each
      drawing one outcome from the driver. */
  lemma {:induction false} DriveSettles(desired: ServerStatus, state: ServerStatus, attempts: nat, oracle: Oracle)
    ensures var w := Drive(desired, state, attempts, oracle);
      (w.result.Pass? ==> w.state == desired)
      && attempts <= w.attempts
      && (attempts <= MAX_SERVER_ACTION_ATTEMPTS ==> w.attempts <= MAX_SERVER_ACTION_ATTEMPTS)
      && |oracle.actions| - |w.oracle.actions| <= w.attempts - attempts
    decreases |oracle.statuses|, |oracle.actions|
  {
    if state != desired {
      match state
      case Unknown =>
        if oracle.statuses != [] {
          DriveSettles(desired, oracle.statuses[0], attempts, oracle.(statuses := oracle.statuses[1..]));
        }
      case Starting =>
        PolledSettles(desired, state, attempts, oracle);
      case Stopping =>
        PolledSettles(desired, state, attempts, oracle);
      case Stopped =>
        ActionSettles(desired, state, attempts, oracle);
      case Started =>
        ActionSettles(desired, state, attempts, oracle);
    }
  }

  lemma {:induction false} PolledSettles(desired: ServerStatus, state: ServerStatus, attempts: nat, oracle: Oracle)
    ensures var w := TransitionPolled(desired, state, attempts, oracle);
      (w.result.Pass? ==> w.state == desired)
      && attempts <= w.attempts
      && (attempts <= MAX_SERVER_ACTION_ATTEMPTS ==> w.attempts <= MAX_SERVER_ACTION_ATTEMPTS)
      && |oracle.actions| - |w.oracle.actions| <= w.attempts - attempts
    decreases |oracle.statuses|, |oracle.actions|, 0
  {
    if oracle.statuses != [] {
      var p := Poll(oracle.statuses[0], oracle.(statuses := oracle.statuses[1..]), 1);
      if p.result.Pass? {
        DriveSettles(desired, p.state, attempts, p.oracle);
      }
    }
  }

  lemma {:induction false} ActionSettles(desired: ServerStatus, state: ServerStatus, attempts: nat, oracle: Oracle)
    requires state == Stopped || state == Started
    ensures var w := ActionTaken(desired, state, attempts, oracle);
      (w.result.Pass? ==> w.state == desired)
      && attempts <= w.attempts
      && (attempts <= MAX_SERVER_ACTION_ATTEMPTS ==> w.attempts <= MAX_SERVER_ACTION_ATTEMPTS)
      && |oracle.actions| - |w.oracle.actions| <= w.attempts - attempts
    decreases |oracle.statuses|, |oracle.actions|, 0
  {
    if attempts < MAX_SERVER_ACTION_ATTEMPTS && oracle.actions != [] {
      var next := if state == Stopped then Starting else Stopping;
      var rest := oracle.(actions := oracle.actions[1..]);
      match oracle.actions[0]
      case Completed => DriveSettles(desired, next, attempts + 1, rest);
      case Incompatible => DriveSettles(desired, Unknown, attempts + 1, rest);
      case Raised(_) =>
    }
  }

  /** A server that refuses every start gives up after the fifth attempt. */
  lemma RepeatedIncompatibleGivesUp()
    ensures Drive(Started, Stopped, 0, Oracle([Stopped, Stopped, Stopped, Stopped, Stopped],
                                               [Incompatible, Incompatible, Incompatible, Incompatible, Incompatible], []))
         == Waited(Fail(Unrecoverable("Failed to start server after 5 attempts")), Stopped, 5, Oracle([], [], []))
  {
    var o := Oracle([Stopped, Stopped, Stopped, Stopped, Stopped],
                    [Incompatible, Incompatible, Incompatible, Incompatible, Incompatible], []);
    var w := Waited(Fail(Unrecoverable("Failed to start server after 5 attempts")), Stopped, 5, Oracle([], [], []));
    assert GiveUpMessage("start") == "Failed to start server after 5 attempts";
    assert Drive(Started, Stopped, 5, Oracle([], [], [])) == w;
    assert Drive(Started, Stopped, 4, Oracle([Stopped], [Incompatible], [])) == w;
    assert Drive(Started, Stopped, 3, Oracle([Stopped, Stopped], [Incompatible, Incompatible], [])) == w;
    assert Drive(Started, Stopped, 2, Oracle([Stopped, Stopped, Stopped], [Incompatible, Incompatible, Incompatible], [])) == w;
    assert Drive(Started, Stopped, 1, Oracle([Stopped, Stopped, Stopped, Stopped],
                                             [Incompatible, Incompatible, Incompatible, Incompatible], [])) == w;
  }

  // ---------------------------------------------------------------------------
  // checkup

  /** The fields `checkup` reads and writes (durations and instants in
      milliseconds), with the driver's remaining answers. */
  datatype Delegate = Delegate(state: ServerStatus, timeEmpty: int, playerCount: int, lastCheckup: int, oracle: Oracle)

  /** `checkup()` at instant `now`, with the configured idle timeout. Every
      exception ends in the enclosing `runCatching`, which leaves the fields as
      they are at that point. `lastCheckup` moves only to `now`, and only when a
      status exchange succeeded. */
  function CheckupSpec(d: Delegate, now: int, timeout: int): (d': Delegate)
    ensures |d'.oracle.statuses| <= |d.oracle.statuses| && |d'.oracle.reports| <= |d.oracle.reports|
    ensures d'.lastCheckup == d.lastCheckup || (d'.lastCheckup == now && |d'.oracle.reports| < |d.oracle.reports|)
    decreases |d.oracle.statuses| + |d.oracle.reports|, if d.state == Unknown then 0 else 1
  {
    match d.state
    case Unknown =>
      if d.oracle.statuses == [] then d
      else
        var d1 := d.(state := d.oracle.statuses[0], oracle := d.oracle.(statuses := d.oracle.statuses[1..]));
        if d1.state == Unknown then d1 else CheckupSpec(d1, now, timeout)
    case Started =>
      var report := if d.oracle.reports == [] then None else d.oracle.reports[0];
      var oracle1 := if d.oracle.reports == [] then d.oracle else d.oracle.(reports := d.oracle.reports[1..]);
      if report.None? then CheckupSpec(d.(state := Unknown, oracle := oracle1), now, timeout)
      else if report.value != 0 then
        d.(playerCount := report.value, timeEmpty := 0, lastCheckup := now, oracle := oracle1)
      else
        var idle := d.timeEmpty + (now - d.lastCheckup);
        if idle < timeout then d.(playerCount := 0, timeEmpty := idle, lastCheckup := now, oracle := oracle1)
        else
          var w := Drive(Stopped, Started, 0, oracle1);
          if w.result.Fail? then
            CheckupSpec(d.(state := Unknown, playerCount := 0, timeEmpty := 0, oracle := w.oracle), now, timeout)
          else d.(state := w.state, playerCount := 0, timeEmpty := 0, lastCheckup := now, oracle := w.oracle)
    case Stopped => d.(playerCount := 0, timeEmpty := 0)
    case Stopping => d.(playerCount := 0, timeEmpty := 0)
    case Starting => d.(playerCount := 0, timeEmpty := 0)
  }

  /** Idle accounting never lets the recorded idle time reach the timeout:
      reaching it resets the time and stops the server, and every other
      outcome leaves it below. */
  lemma {:induction false} CheckupKeepsIdleBelowTimeout(d: Delegate, now: int, timeout: int)
    requires 0 < timeout && d.timeEmpty < timeout
    ensures CheckupSpec(d, now, timeout).timeEmpty < timeout
    decreases |d.oracle.statuses| + |d.oracle.reports|, if d.state == Unknown then 0 else 1
  {
    match d.state
    case Unknown =>
      if d.oracle.statuses != [] && d.oracle.statuses[0] != Unknown {
        CheckupKeepsIdleBelowTimeout(
          d.(state := d.oracle.statuses[0], oracle := d.oracle.(statuses := d.oracle.statuses[1..])), now, timeout);
      }
    case Started =>
      var report := if d.oracle.reports == [] then None else d.oracle.reports[0];
      var oracle1 := if d.oracle.reports == [] then d.oracle else d.oracle.(reports := d.oracle.reports[1..]);
      if report.None? {
        CheckupKeepsIdleBelowTimeout(d.(state := Unknown, oracle := oracle1), now, timeout);
      } else if report.value == 0 && d.timeEmpty + (now - d.lastCheckup) >= timeout {
        var w := Drive(Stopped, Started, 0, oracle1);
        if w.result.Fail? {
          CheckupKeepsIdleBelowTimeout(d.(state := Unknown, playerCount := 0, timeEmpty := 0, oracle := w.oracle), now, timeout);
        }
      }
    case Stopped =>
    case Stopping =>
    case Starting =>
  }

  /** A running server found empty for the timeout is stopped: when the stop
      succeeds, the delegate is STOPPED with the idle time reset and the
      checkup recorded; an empty server below the timeout accumulates the
      time since the last checkup. */
  lemma CheckupStopsIdleServer(d: Delegate, now: int, timeout: int)
    requires d.state == Started && d.oracle.reports != [] && d.oracle.reports[0] == Some(0)
    ensures var idle := d.timeEmpty + (now - d.lastCheckup);
      var oracle1 := d.oracle.(reports := d.oracle.reports[1..]);
      (idle >= timeout && Drive(Stopped, Started, 0, oracle1).result.Pass? ==>
         var d' := CheckupSpec(d, now, timeout);
         d'.state == Stopped && d'.timeEmpty == 0 && d'.playerCount == 0 && d'.lastCheckup == now)
      && (idle < timeout ==> CheckupSpec(d, now, timeout).timeEmpty == idle)
  {
    DriveSettles(Stopped, Started, 0, d.oracle.(reports := d.oracle.reports[1..]));
  }

  // ---------------------------------------------------------------------------
  // The delegate

  class ServerDelegate {
    var state: ServerStatus
    var timeEmpty: int
    var playerCount: int
    var lastCheckup: int
    const driver: Driver
    /** `configuration.timeout`, in milliseconds. */
    const timeout: int

    function Snapshot(): Delegate
      reads this, driver
    {
      Delegate(state, timeEmpty, playerCount, lastCheckup, driver.oracle)
    }

    constructor (driver: Driver, timeout: int, now: int)
      ensures state == Unknown && timeEmpty == 0 && playerCount == 0 && lastCheckup == now
      ensures this.driver == driver && this.timeout == timeout
    {
      state := Unknown;
      timeEmpty := 0;
      playerCount := 0;
      lastCheckup := now;
      this.driver := driver;
      this.timeout := timeout;
    }

    /** `waitForServerToBe(desiredState)`: the transition loop, with each
        launched start or stop run to its end before the loop goes on. */
    method WaitForServerToBe(desired: ServerStatus) returns (r: Outcome)
      modifies this, driver
      ensures timeEmpty == old(timeEmpty) && playerCount == old(playerCount) && lastCheckup == old(lastCheckup)
      ensures desired == Unknown ==>
        r == Fail(IllegalArgument("UNKNOWN is not a valid desired state"))
        && state == old(state) && driver.oracle == old(driver.oracle)
      ensures desired != Unknown ==>
        var w := Drive(desired, old(state), 0, old(driver.oracle));
        r == w.result && state == w.state && driver.oracle == w.oracle
    {
      if desired == Unknown {
        return Fail(IllegalArgument("UNKNOWN is not a valid desired state"));
      }
      ghost var w := Drive(desired, state, 0, driver.oracle);
      var serverActionAttempts := 0;
      while desired != state
        invariant Drive(desired, state, serverActionAttempts, driver.oracle) == w
        invariant timeEmpty == old(timeEmpty) && playerCount == old(playerCount) && lastCheckup == old(lastCheckup)
        decreases |driver.oracle.statuses|, |driver.oracle.actions|
      {
        match state {
          case Unknown =>
            var current := driver.GetCurrentStatus();
            if current.Err? {
              return Fail(current.error);
            }
            state := current.value;
          case Starting =>
            r := PollWhileTransient(desired, serverActionAttempts, w);
            if r.Fail? {
              return;
            }
          case Stopping =>
            r := PollWhileTransient(desired, serverActionAttempts, w);
            if r.Fail? {
              return;
            }
          case Stopped =>
            r := TakeAction(desired, serverActionAttempts, w);
            if r.Fail? {
              return;
            }
            serverActionAttempts := serverActionAttempts + 1;
          case Started =>
            r := TakeAction(desired, serverActionAttempts, w);
            if r.Fail? {
              return;
            }
            serverActionAttempts := serverActionAttempts + 1;
        }
      }
      return Pass;
    }

    /** The `withTimeout` block: read the status until it is no longer
        transient, at most `MAX_TRANSITION_POLLS` times. */
    method PollWhileTransient(desired: ServerStatus, attempts: nat, ghost w: Waited) returns (r: Outcome)
      requires IsTransient(state) && state != desired
      requires Drive(desired, state, attempts, driver.oracle) == w
      modifies this, driver
      ensures timeEmpty == old(timeEmpty) && playerCount == old(playerCount) && lastCheckup == old(lastCheckup)
      ensures r.Fail? ==> r == w.result && state == w.state && driver.oracle == w.oracle
      ensures r.Pass? ==>
        Drive(desired, state, attempts, driver.oracle) == w
        && |driver.oracle.statuses| < old(|driver.oracle.statuses|) && driver.oracle.actions == old(driver.oracle.actions)
    {
      var current := driver.GetCurrentStatus();
      if current.Err? {
        return Fail(current.error);
      }
      state := current.value;
      var polls := 1;
      while IsTransient(state)
        invariant 1 <= polls
        invariant timeEmpty == old(timeEmpty) && playerCount == old(playerCount) && lastCheckup == old(lastCheckup)
        invariant |driver.oracle.statuses| < old(|driver.oracle.statuses|) && driver.oracle.actions == old(driver.oracle.actions)
        invariant var p := Poll(state, driver.oracle, polls);
          (if p.result.Fail? then Waited(p.result, p.state, attempts, p.oracle)
           else Drive(desired, p.state, attempts, p.oracle)) == w
        decreases |driver.oracle.statuses|
      {
        if polls >= MAX_TRANSITION_POLLS {
          return Fail(TransitionTimeout);
        }
        current := driver.GetCurrentStatus();
        if current.Err? {
          return Fail(current.error);
        }
        state := current.value;
        polls := polls + 1;
      }
      return Pass;
    }

    /** A stable status other than the desired one: refuse after five
        actions, otherwise enter the intermediate status and run the start
        or stop, backing off to UNKNOWN when the server is incompatible. */
    method TakeAction(desired: ServerStatus, attempts: nat, ghost w: Waited) returns (r: Outcome)
      requires (state == Stopped || state == Started) && state != desired
      requires Drive(desired, state, attempts, driver.oracle) == w
      modifies this, driver
      ensures timeEmpty == old(timeEmpty) && playerCount == old(playerCount) && lastCheckup == old(lastCheckup)
      ensures r.Fail? ==> r == w.result && state == w.state && driver.oracle == w.oracle
      ensures r.Pass? ==>
        Drive(desired, state, attempts + 1, driver.oracle) == w
        && driver.oracle.statuses == old(driver.oracle.statuses) && |driver.oracle.actions| < old(|driver.oracle.actions|)
    {
      if attempts >= MAX_SERVER_ACTION_ATTEMPTS {
        var attemptedAction := if state == Stopped then "start" else "stop";
        return Fail(Unrecoverable(GiveUpMessage(attemptedAction)));
      }
      state := if state == Stopped then Starting else Stopping;
      var outcome := driver.Act();
      match outcome {
        case Completed =>
        case Incompatible =>
          state := Unknown;
        case Raised(e) =>
          return Fail(e);
      }
      return Pass;
    }

    /** `checkup()`. */
    method Checkup(now: int)
      modifies this, driver
      ensures Snapshot() == CheckupSpec(old(Snapshot()), now, timeout)
      decreases |driver.oracle.statuses| + |driver.oracle.reports|, if state == Unknown then 0 else 1
    {
      match state {
        case Unknown =>
          var current := driver.GetCurrentStatus();
          if current.Err? {
            return;
          }
          state := current.value;
          if state != Unknown {
            Checkup(now);
          }
        case Started =>
          var online := driver.GetPlayersOnline();
          if online.None? {
            state := Unknown;
            Checkup(now);
            return;
          }
          playerCount := online.value;
          if playerCount == 0 {
            timeEmpty := timeEmpty + (now - lastCheckup);
            if timeEmpty >= timeout {
              timeEmpty := 0;
              var stopped := WaitForServerToBe(Stopped);
              if stopped.Fail? {
                state := Unknown;
                Checkup(now);
                return;
              }
            }
          } else {
            timeEmpty := 0;
          }
          lastCheckup := now;
        case Stopped =>
          playerCount := 0;
          timeEmpty := 0;
        case Stopping =>
          playerCount := 0;
          timeEmpty := 0;
        case Starting =>
          playerCount := 0;
          timeEmpty := 0;
      }
    }
  }
}
