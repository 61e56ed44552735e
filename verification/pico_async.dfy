/** The Wi-Fi supervision of the Pico W v2 program: `manage_wifi_connection`, which counts
    failed connection attempts in the global `wifi_failed_attempts` and reboots the board once
    the count reaches `WIFI_FAILED_ATTEMPTS`, and one round of the `manage_wifi_connection_async`
    task, which reconnects without counting. Whether the radio is connected and whether a
    connection attempt succeeds are inputs. */
module PicoAsync {
  import opened Common
  import opened Power

  /** What `manage_wifi_connection` ends in: `return True`, `return False`, or
      `microcontroller.reset()`, after which nothing else of the program runs. */
  datatype WifiOutcome = Connected | Failed | Reboot

  /** One call of `manage_wifi_connection`: the new counter, the outcome and the pins written. */
  datatype Step = Step(count: nat, outcome: WifiOutcome, trace: seq<Event>)

  /** `manage_wifi_connection()` from counter `count`, with `WIFI_FAILED_ATTEMPTS = threshold`. */
  function Manage(count: nat, threshold: int, connected: bool, connectOk: bool): Step
  {
    if connected then Step(count, Connected, BlinkTrace(BlueLed, TwoBlinks, BlinkDelayMs))
    else if connectOk then Step(0, Connected, BlinkTrace(BlueLed, TenBlinks, BlinkDelayMs))
    else if count + 1 >= threshold then
      Step(count + 1, Reboot, BlinkTrace(RedLed, TwoBlinks, BlinkDelayMs) + BlinkTrace(RedLed, TenBlinks, BlinkDelayMs))
    else Step(count + 1, Failed, BlinkTrace(RedLed, TwoBlinks, BlinkDelayMs))
  }

  /** The counter rules: untouched while connected, cleared by a successful connection, and
      one more after a failed one, which reboots exactly when the new count reaches the threshold. */
  lemma CounterRules(count: nat, threshold: int, connected: bool, connectOk: bool)
    ensures var s := Manage(count, threshold, connected, connectOk);
      && (connected ==> s.count == count)
      && (!connected && connectOk ==> s.count == 0)
      && (!connected && !connectOk ==> s.count == count + 1 && (s.outcome == Reboot <==> s.count >= threshold))
  {
  }

  /** The function returns True exactly when the link is up or comes up, and reboots only after
      a failed attempt. */
  lemma ConnectedIffLinkUp(count: nat, threshold: int, connected: bool, connectOk: bool)
    ensures Manage(count, threshold, connected, connectOk).outcome == Connected <==> connected || connectOk
    ensures Manage(count, threshold, connected, connectOk).outcome == Reboot ==> !connected && !connectOk
  {
  }

  /** Outside a reboot the counter stays below the threshold (or is zero), and a reboot happens
      exactly when it reaches max(threshold, 1). */
  lemma CounterBelowThreshold(count: nat, threshold: int, connected: bool, connectOk: bool)
    requires count == 0 || count < threshold
    ensures var s := Manage(count, threshold, connected, connectOk);
      && (s.outcome != Reboot ==> s.count == 0 || s.count < threshold)
      && (s.outcome == Reboot ==> s.count == if threshold < 1 then 1 else threshold)
  {
  }

  /** Every LED the step blinks is left off, and the power switch is never driven. */
  lemma ManageLeavesLedsOff(count: nat, threshold: int, connected: bool, connectOk: bool)
    ensures var t := Manage(count, threshold, connected, connectOk).trace;
      && WritesTo(t, Switch) == [] && WritesTo(t, GreenLed) == []
      && LastLevel(t, if connected || connectOk then BlueLed else RedLed) == Some(false)
  {
    var t := Manage(count, threshold, connected, connectOk).trace;
    BlinkAlternates(BlueLed, TwoBlinks, BlinkDelayMs);
    BlinkAlternates(BlueLed, TenBlinks, BlinkDelayMs);
    BlinkAlternates(RedLed, TwoBlinks, BlinkDelayMs);
    BlinkAlternates(RedLed, TenBlinks, BlinkDelayMs);
    BlinkTouchesOnlyItsPin(BlueLed, TwoBlinks, BlinkDelayMs, Switch);
    BlinkTouchesOnlyItsPin(BlueLed, TenBlinks, BlinkDelayMs, Switch);
    BlinkTouchesOnlyItsPin(RedLed, TwoBlinks, BlinkDelayMs, Switch);
    BlinkTouchesOnlyItsPin(RedLed, TenBlinks, BlinkDelayMs, Switch);
    BlinkTouchesOnlyItsPin(BlueLed, TwoBlinks, BlinkDelayMs, GreenLed);
    BlinkTouchesOnlyItsPin(BlueLed, TenBlinks, BlinkDelayMs, GreenLed);
    BlinkTouchesOnlyItsPin(RedLed, TwoBlinks, BlinkDelayMs, GreenLed);
    BlinkTouchesOnlyItsPin(RedLed, TenBlinks, BlinkDelayMs, GreenLed);
    if !connected && !connectOk && count + 1 >= threshold {
      var a, b := BlinkTrace(RedLed, TwoBlinks, BlinkDelayMs), BlinkTrace(RedLed, TenBlinks, BlinkDelayMs);
      WritesToAppend(a, b, Switch);
      WritesToAppend(a, b, GreenLed);
      WritesToAppend(a, b, RedLed);
    }
  }

  /** The outcomes of successive calls, one per (connected, connectOk) observation, up to and
      including a reboot, which ends the run. */
  function Run(count: nat, threshold: int, attempts: seq<(bool, bool)>): seq<WifiOutcome>
    decreases |attempts|
  {
    if attempts == [] then []
    else
      var s := Manage(count, threshold, attempts[0].0, attempts[0].1);
      if s.outcome == Reboot then [Reboot] else [s.outcome] + Run(s.count, threshold, attempts[1..])
  }

  /** `n` calls that each find the link down and fail to connect. */
  function Failing(n: nat): seq<(bool, bool)>
  {
    seq(n, _ => (false, false))
  }

  /** How many consecutive failures from counter `count` it takes to reboot. */
  function FailuresToReboot(count: nat, threshold: int): nat
  {
    if threshold - count >= 1 then threshold - count else 1
  }

  /** Consecutive failures from counter `count` fail quietly until the
      FailuresToReboot(count, threshold)-th, which reboots; none reboots earlier. */
  lemma {:induction false} FailuresUntilReboot(count: nat, threshold: int, n: nat)
    ensures var r := Run(count, threshold, Failing(n));
      && |r| == Min(n, FailuresToReboot(count, threshold))
      && (forall i :: 0 <= i < |r| - 1 ==> r[i] == Failed)
      && (r != [] ==> (r[|r| - 1] == Reboot <==> n >= FailuresToReboot(count, threshold)))
      && (r != [] && r[|r| - 1] != Reboot ==> r[|r| - 1] == Failed)
    decreases n
  {
    if n > 0 {
      RunFailingStep(count, threshold, n);
      if count + 1 < threshold {
        FailuresUntilReboot(count + 1, threshold, n - 1);
        var r := Run(count, threshold, Failing(n));
        var rest := Run(count + 1, threshold, Failing(n - 1));
        forall i | 0 <= i < |r| - 1
          ensures r[i] == Failed
        {
          if i > 0 {
            assert r[i] == rest[i - 1];
          }
        }
      }
    }
  }

  /** One failed call, then the rest of the run. */
  lemma RunFailingStep(count: nat, threshold: int, n: nat)
    requires n > 0
    ensures Run(count, threshold, Failing(n))
      == if count + 1 >= threshold then [Reboot] else [Failed] + Run(count + 1, threshold, Failing(n - 1))
  {
    assert Failing(n)[0] == (false, false);
    assert Failing(n)[1..] == Failing(n - 1);
  }

  /** From the initial counter of 0, a board that never connects reboots on failed attempt
      number max(WIFI_FAILED_ATTEMPTS, 1) and not before. */
  lemma RebootOnFailureNumberThreshold(threshold: int, n: nat)
    ensures var r := Run(0, threshold, Failing(n));
      var first := if threshold < 1 then 1 else threshold;
      && (forall i :: 0 <= i < |r| ==> (r[i] == Reboot <==> i + 1 == first))
      && (n >= first ==> |r| == first)
      && (n < first ==> |r| == n)
  {
    FailuresUntilReboot(0, threshold, n);
  }

  /** One round of `manage_wifi_connection_async`: reconnect if needed, then the periodic
      double blue blink; no counting and no reboot. */
  function SuperviseTrace(connected: bool, connectOk: bool): seq<Event>
  {
    (if connected then []
     else if connectOk then BlinkTrace(BlueLed, TwoBlinks, BlinkDelayMs)
     else BlinkTrace(RedLed, TwoBlinks, BlinkDelayMs))
    + BlinkTrace(BlueLed, TwoBlinks, BlinkDelayMs)
  }

  /** Every round of the async supervisor ends with the blue LED blinked off, and never
      presses the power button. */
  lemma SuperviseEndsBlueOff(connected: bool, connectOk: bool)
    ensures LastLevel(SuperviseTrace(connected, connectOk), BlueLed) == Some(false)
    ensures WritesTo(SuperviseTrace(connected, connectOk), Switch) == []
  {
    var first :=
      if connected then []
      else if connectOk then BlinkTrace(BlueLed, TwoBlinks, BlinkDelayMs)
      else BlinkTrace(RedLed, TwoBlinks, BlinkDelayMs);
    var last := BlinkTrace(BlueLed, TwoBlinks, BlinkDelayMs);
    assert SuperviseTrace(connected, connectOk) == first + last;
    BlinkAlternates(BlueLed, TwoBlinks, BlinkDelayMs);
    BlinkTouchesOnlyItsPin(BlueLed, TwoBlinks, BlinkDelayMs, Switch);
    if !connected {
      BlinkTouchesOnlyItsPin(if connectOk then BlueLed else RedLed, TwoBlinks, BlinkDelayMs, Switch);
    }
    assert WritesTo(first, Switch) == [];
    LastLevelAppend(first, last, BlueLed);
    WritesToAppend(first, last, Switch);
  }

  /** The program's Wi-Fi supervision state: the global failure counter and the configured
      threshold. */
  class WifiSupervisor {
    var failedAttempts: nat
    const threshold: int

    /** The invariant kept between calls that did not reboot. */
    predicate Valid()
      reads this
    {
      failedAttempts == 0 || failedAttempts < threshold
    }

    /** `wifi_failed_attempts = 0` with `WIFI_FAILED_ATTEMPTS = int(settings[...])`. */
    constructor(threshold: int)
      ensures this.threshold == threshold && failedAttempts == 0 && Valid()
    {
      this.threshold := threshold;
      failedAttempts := 0;
    }

    /** `manage_wifi_connection()`. */
    method ManageWifiConnection(board: Board, connected: bool, connectOk: bool) returns (outcome: WifiOutcome)
      modifies this, board
      ensures var s := Manage(old(failedAttempts), threshold, connected, connectOk);
        failedAttempts == s.count && outcome == s.outcome && board.trace == old(board.trace) + s.trace
      ensures old(Valid()) && outcome != Reboot ==> Valid()
    {
      if !connected {
        if connectOk {
          board.BlinkLed(BlueLed, TenBlinks, BlinkDelayMs);
          failedAttempts := 0;
          outcome := Connected;
        } else {
          ghost var start := board.trace;
          ghost var two, ten := BlinkTrace(RedLed, TwoBlinks, BlinkDelayMs), BlinkTrace(RedLed, TenBlinks, BlinkDelayMs);
          outcome := ConnectFailed(board);
          if outcome == Reboot {
            AppendAssociative(start, two, ten);
          } else {
            assert start + two + [] == start + two;
          }
        }
      } else {
        board.BlinkLed(BlueLed, TwoBlinks, BlinkDelayMs);
        outcome := Connected;
      }
    }

    /** The `except` branch of `manage_wifi_connection()`: count the failure and reboot once
        the count reaches the threshold. */
    method ConnectFailed(board: Board) returns (outcome: WifiOutcome)
      modifies this, board
      ensures failedAttempts == old(failedAttempts) + 1
      ensures outcome == if failedAttempts >= threshold then Reboot else Failed
      ensures board.trace == old(board.trace) + BlinkTrace(RedLed, TwoBlinks, BlinkDelayMs)
        + (if outcome == Reboot then BlinkTrace(RedLed, TenBlinks, BlinkDelayMs) else [])
    {
      board.BlinkLed(RedLed, TwoBlinks, BlinkDelayMs);
      failedAttempts := failedAttempts + 1;
      if failedAttempts >= threshold {
        ghost var flash := board.trace;
        board.BlinkLed(RedLed, TenBlinks, BlinkDelayMs);
        assert board.trace == flash + BlinkTrace(RedLed, TenBlinks, BlinkDelayMs);
        outcome := Reboot;
        return;
      }
      outcome := Failed;
    }

    /** One round of `manage_wifi_connection_async()`: it changes only the pins. */
    method SuperviseAsyncRound(board: Board, connected: bool, connectOk: bool)
      modifies board
      ensures board.trace == old(board.trace) + SuperviseTrace(connected, connectOk)
      ensures failedAttempts == old(failedAttempts)
    {
      if !connected {
        if connectOk {
          board.BlinkLed(BlueLed, TwoBlinks, BlinkDelayMs);
        } else {
          board.BlinkLed(RedLed, TwoBlinks, BlinkDelayMs);
        }
      }
      ghost var first := board.trace[|old(board.trace)|..];
      assert board.trace == old(board.trace) + first;
      board.BlinkLed(BlueLed, TwoBlinks, BlinkDelayMs);
      AppendAssociative(old(board.trace), first, BlinkTrace(BlueLed, TwoBlinks, BlinkDelayMs));
    }
  }
}
