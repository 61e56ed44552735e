/** The power controller: the button-emulating output (a transistor on the Pico, a relay on the
    ESP32) and the green, red and blue status LEDs, observed as the trace of pin writes and
    delays a routine performs. */
module Power {
  import opened Common

  datatype Pin = Switch | GreenLed | RedLed | BlueLed

  /** One observable step: drive a pin high or low, or wait a number of milliseconds. */
  datatype Event = Write(pin: Pin, high: bool) | Sleep(ms: nat)

  /** Hold time of the Pico's `press_power_button` (0.5 s). */
  const PicoPressMs: nat := 500
  /** The two blink counts the programs use: a double blink and a long run of ten. */
  const TwoBlinks: int := 2
  const TenBlinks: int := 10
  /** Default LED blink half-period of every variant (0.2 s / 200 ms). */
  const BlinkDelayMs: nat := 200

  /** The levels written to `pin`, in order. */
  function WritesTo(trace: seq<Event>, pin: Pin): seq<bool>
  {
    if trace == [] then []
    else WriteOf(trace[0], pin) + WritesTo(trace[1..], pin)
  }

  /** The level `e` writes to `pin`, if any. */
  function WriteOf(e: Event, pin: Pin): seq<bool>
  {
    if e.Write? && e.pin == pin then [e.high] else []
  }

  /** The level `pin` is left at after `trace`, None when `trace` never writes it. */
  function LastLevel(trace: seq<Event>, pin: Pin): Option<bool>
  {
    var w := WritesTo(trace, pin);
    if w == [] then None else Some(w[|w| - 1])
  }

  /** Number of button presses in `trace`: writes that drive the switch high. */
  function Presses(trace: seq<Event>): nat
  {
    if trace == [] then 0
    else (if trace[0] == Write(Switch, true) then 1 else 0) + Presses(trace[1..])
  }

  /** `power_button(holdMs)` / `press_power_button()`: green on, switch on, hold, switch off, green off. */
  function PulseTrace(holdMs: nat): seq<Event>
  {
    [Write(GreenLed, true), Write(Switch, true), Sleep(holdMs), Write(Switch, false), Write(GreenLed, false)]
  }

  /** One iteration of `blink_led` / `blinkLED`. */
  function BlinkCycle(pin: Pin, delayMs: nat): seq<Event>
  {
    [Write(pin, true), Sleep(delayMs), Write(pin, false), Sleep(delayMs)]
  }

  /** `times` iterations of the blink loop; a count of zero or less runs no iteration. */
  function BlinkTrace(pin: Pin, times: int, delayMs: nat): seq<Event>
    decreases times
  {
    if times <= 0 then [] else BlinkTrace(pin, times - 1, delayMs) + BlinkCycle(pin, delayMs)
  }

  /** The writes to a pin over a concatenation are the writes over each part, in order. */
  lemma {:induction false} WritesToAppend(a: seq<Event>, b: seq<Event>, pin: Pin)
    ensures WritesTo(a + b, pin) == WritesTo(a, pin) + WritesTo(b, pin)
    decreases |a|
  {
    if a == [] {
      assert a + b == b;
    } else {
      assert (a + b)[1..] == a[1..] + b;
      WritesToAppend(a[1..], b, pin);
    }
  }

  /** A pin's final level after `a + b` is the one `b` leaves, when `b` writes the pin. */
  lemma LastLevelAppend(a: seq<Event>, b: seq<Event>, pin: Pin)
    requires WritesTo(b, pin) != []
    ensures LastLevel(a + b, pin) == LastLevel(b, pin)
  {
    WritesToAppend(a, b, pin);
    var wa, wb := WritesTo(a, pin), WritesTo(b, pin);
    assert (wa + wb)[|wa + wb| - 1] == wb[|wb| - 1];
  }

  /** The writes of an event followed by a trace. */
  lemma WritesToCons(e: Event, t: seq<Event>, pin: Pin)
    ensures WritesTo([e] + t, pin) == WriteOf(e, pin) + WritesTo(t, pin)
  {
    assert ([e] + t)[1..] == t;
  }

  /** Per pin, the levels a pulse writes. */
  lemma PulseWrites(holdMs: nat, pin: Pin)
    ensures WritesTo(PulseTrace(holdMs), pin) == if pin == Switch || pin == GreenLed then [true, false] else []
  {
    var p := PulseTrace(holdMs);
    var t4: seq<Event> := [p[4]];
    var t3 := [p[3]] + t4;
    var t2 := [p[2]] + t3;
    var t1 := [p[1]] + t2;
    assert p == [p[0]] + t1;
    WritesToCons(p[4], [], pin);
    assert [p[4]] + [] == t4;
    WritesToCons(p[3], t4, pin);
    WritesToCons(p[2], t3, pin);
    WritesToCons(p[1], t2, pin);
    WritesToCons(p[0], t1, pin);
  }

  /** Per pin, the levels one blink cycle writes. */
  lemma BlinkCycleWrites(pin: Pin, delayMs: nat, q: Pin)
    ensures WritesTo(BlinkCycle(pin, delayMs), q) == if q == pin then [true, false] else []
  {
    var c := BlinkCycle(pin, delayMs);
    WritesToCons(c[3], [], q);
    WritesToCons(c[2], c[3..], q);
    WritesToCons(c[1], c[2..], q);
    WritesToCons(c[0], c[1..], q);
    assert c == [c[0]] + c[1..];
    assert c[1..] == [c[1]] + c[2..];
    assert c[2..] == [c[2]] + c[3..];
    assert c[3..] == [c[3]] + [];
  }

  /** After a pulse, whatever came before, both the switch and the green LED are low; the
      switch is written exactly high-then-low and the red and blue LEDs are not touched. */
  lemma PulseLeavesPinsLow(before: seq<Event>, holdMs: nat)
    ensures WritesTo(PulseTrace(holdMs), Switch) == [true, false]
    ensures WritesTo(PulseTrace(holdMs), GreenLed) == [true, false]
    ensures WritesTo(PulseTrace(holdMs), RedLed) == [] && WritesTo(PulseTrace(holdMs), BlueLed) == []
    ensures LastLevel(before + PulseTrace(holdMs), Switch) == Some(false)
    ensures LastLevel(before + PulseTrace(holdMs), GreenLed) == Some(false)
  {
    var p := PulseTrace(holdMs);
    PulseWrites(holdMs, Switch);
    PulseWrites(holdMs, GreenLed);
    PulseWrites(holdMs, RedLed);
    PulseWrites(holdMs, BlueLed);
    WritesToAppend(before, p, Switch);
    WritesToAppend(before, p, GreenLed);
  }

  /** A pulse is exactly one press of the button. */
  lemma PulsePressesOnce(holdMs: nat)
    ensures Presses(PulseTrace(holdMs)) == 1
  {
    var p := PulseTrace(holdMs);
    assert p[4..][1..] == [];
    assert Presses(p[4..]) == 0;
    assert p[3..][1..] == p[4..];
    assert Presses(p[3..]) == 0;
    assert p[2..][1..] == p[3..];
    assert Presses(p[2..]) == 0;
    assert p[1..][1..] == p[2..];
    assert Presses(p[1..]) == 1;
  }

  /** `blink_led(pin, times)` writes `pin` True, False, True, ... exactly `times` times each and
      leaves it low; for `times <= 0` it does nothing at all. */
  lemma {:induction false} BlinkAlternates(pin: Pin, times: int, delayMs: nat)
    ensures var w := WritesTo(BlinkTrace(pin, times, delayMs), pin);
      |w| == 2 * Max0(times) && forall k :: 0 <= k < |w| ==> w[k] == (k % 2 == 0)
    ensures times <= 0 ==> BlinkTrace(pin, times, delayMs) == []
    ensures times > 0 ==> LastLevel(BlinkTrace(pin, times, delayMs), pin) == Some(false)
    decreases times
  {
    if times > 0 {
      var prev := BlinkTrace(pin, times - 1, delayMs);
      BlinkAlternates(pin, times - 1, delayMs);
      WritesToAppend(prev, BlinkCycle(pin, delayMs), pin);
      BlinkCycleWrites(pin, delayMs, pin);
      var w := WritesTo(BlinkTrace(pin, times, delayMs), pin);
      var pw := WritesTo(prev, pin);
      assert w == pw + [true, false];
      forall k | 0 <= k < |w|
        ensures w[k] == (k % 2 == 0)
      {
        if k < |pw| {
          assert w[k] == pw[k];
        }
      }
    }
  }

  /** `blink_led(pin, times)` touches no pin but `pin`. */
  lemma {:induction false} BlinkTouchesOnlyItsPin(pin: Pin, times: int, delayMs: nat, other: Pin)
    requires other != pin
    ensures WritesTo(BlinkTrace(pin, times, delayMs), other) == []
    decreases times
  {
    if times > 0 {
      BlinkTouchesOnlyItsPin(pin, times - 1, delayMs, other);
      WritesToAppend(BlinkTrace(pin, times - 1, delayMs), BlinkCycle(pin, delayMs), other);
      BlinkCycleWrites(pin, delayMs, other);
    }
  }

  function Max0(n: int): nat { if n < 0 then 0 else n }

  /** A trace that never writes the switch presses nothing. */
  lemma {:induction false} NoSwitchNoPresses(trace: seq<Event>)
    requires WritesTo(trace, Switch) == []
    ensures Presses(trace) == 0
    decreases |trace|
  {
    if trace != [] {
      WritesToCons(trace[0], trace[1..], Switch);
      assert [trace[0]] + trace[1..] == trace;
      NoSwitchNoPresses(trace[1..]);
    }
  }

  /** The board's output pins, observed through the trace of everything written to them. */
  class Board {
    var trace: seq<Event>

    constructor()
      ensures trace == []
    {
      trace := [];
    }

    /** `pin.value = high` / `digitalWrite(pin, high)`. */
    method SetPin(pin: Pin, high: bool)
      modifies this
      ensures trace == old(trace) + [Write(pin, high)]
    {
      trace := trace + [Write(pin, high)];
    }

    /** `time.sleep(ms / 1000)` / `delay(ms)`. */
    method Delay(ms: nat)
      modifies this
      ensures trace == old(trace) + [Sleep(ms)]
    {
      trace := trace + [Sleep(ms)];
    }

    /** ESP32 `power_button(delayMs)`: a pulse held for `holdMs`. */
    method PowerButton(holdMs: nat)
      modifies this
      ensures trace == old(trace) + PulseTrace(holdMs)
      ensures LastLevel(trace, Switch) == Some(false) && LastLevel(trace, GreenLed) == Some(false)
    {
      SetPin(GreenLed, true);
      SetPin(Switch, true);
      Delay(holdMs);
      SetPin(Switch, false);
      SetPin(GreenLed, false);
      PulseLeavesPinsLow(old(trace), holdMs);
    }

    /** Pico `press_power_button()`: the same pulse, held for 0.5 s. */
    method PressPowerButton()
      modifies this
      ensures trace == old(trace) + PulseTrace(PicoPressMs)
      ensures LastLevel(trace, Switch) == Some(false) && LastLevel(trace, GreenLed) == Some(false)
    {
      PowerButton(PicoPressMs);
    }

    /** `blink_led(led, times, delay)` / `blinkLED(pin, times, delayMs)`. */
    method BlinkLed(pin: Pin, times: int, delayMs: nat)
      modifies this
      ensures trace == old(trace) + BlinkTrace(pin, times, delayMs)
    {
      var i := 0;
      while i < times
        invariant i <= Max0(times)
        invariant trace == old(trace) + BlinkTrace(pin, i, delayMs)
      {
        ghost var before := trace;
        SetPin(pin, true);
        Delay(delayMs);
        SetPin(pin, false);
        Delay(delayMs);
        assert trace == before + BlinkCycle(pin, delayMs);
        AppendAssociative(old(trace), BlinkTrace(pin, i, delayMs), BlinkCycle(pin, delayMs));
        i := i + 1;
      }
    }
  }
}
