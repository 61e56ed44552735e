/** The ESP32 program: the Wi-Fi watchdog task with its reconnect counter, the Wake-on-LAN
    check with its short MAC matcher, and the Telnet session with its command prompt. The Wi-Fi
    status, the received UDP payload, the device-state pin and the Telnet input are inputs. */
module Esp32 {
  import opened Common
  import opened Text
  import opened MagicPacket
  import opened Power

  /** `targetMAC[] = {0xA1, 0xB2, 0xC3, 0xD4, 0xE5, 0xF6}`. */
  const EspTargetMac: seq<byte> := [0xA1, 0xB2, 0xC3, 0xD4, 0xE5, 0xF6]
  /** `uint8_t packetBuffer[102]`. */
  const EspBufferSize: nat := 102
  /** The number of consecutive disconnected checks after which the board restarts. */
  const RestartAttempts: nat := 10
  /** Hold time of `power_button(1000)`, and of the forced `power_button(5000)`. */
  const PressMs: nat := 1000
  const ForcedPressMs: nat := 5000

  // ---------------------------------------------------------------------------------------
  // checkWiFiConnection

  /** One call of `checkWiFiConnection()`: the new counter, whether `ESP.restart()` is
      reached, and the pins written. */
  datatype WifiCheck = WifiCheck(attempts: nat, restart: bool, trace: seq<Event>)

  function CheckWifi(attempts: nat, connected: bool): WifiCheck
  {
    if connected then WifiCheck(0, false, BlinkTrace(BlueLed, TwoBlinks, BlinkDelayMs))
    else if attempts + 1 >= RestartAttempts then
      WifiCheck(attempts + 1, true, BlinkTrace(BlueLed, TenBlinks, BlinkDelayMs) + BlinkTrace(RedLed, TenBlinks, BlinkDelayMs))
    else WifiCheck(attempts + 1, false, BlinkTrace(BlueLed, TenBlinks, BlinkDelayMs))
  }

  /** The counter rules: a connected check clears the counter and never restarts; a
      disconnected one adds exactly one and restarts exactly when the counter reaches 10.
      Below 10 between calls, the counter stays below 10 unless the call restarts. */
  lemma CheckWifiCounter(attempts: nat, connected: bool)
    ensures var c := CheckWifi(attempts, connected);
      && (connected ==> c.attempts == 0 && !c.restart)
      && (!connected ==> c.attempts == attempts + 1 && (c.restart <==> c.attempts >= RestartAttempts))
      && (attempts < RestartAttempts && !c.restart ==> c.attempts < RestartAttempts)
  {
  }

  /** The status LEDs: a connected check double-blinks blue; a disconnected one blinks blue
      ten times and, before a restart, red ten times; every blinked LED is left off and the
      relay is never driven. */
  lemma CheckWifiLeds(attempts: nat, connected: bool)
    ensures var t := CheckWifi(attempts, connected).trace;
      && |WritesTo(t, BlueLed)| == (if connected then 4 else 20)
      && LastLevel(t, BlueLed) == Some(false)
      && |WritesTo(t, RedLed)| == (if CheckWifi(attempts, connected).restart then 20 else 0)
      && WritesTo(t, Switch) == [] && WritesTo(t, GreenLed) == []
  {
    var blue2, blue10 := BlinkTrace(BlueLed, TwoBlinks, BlinkDelayMs), BlinkTrace(BlueLed, TenBlinks, BlinkDelayMs);
    var red10 := BlinkTrace(RedLed, TenBlinks, BlinkDelayMs);
    BlinkAlternates(BlueLed, TwoBlinks, BlinkDelayMs);
    BlinkAlternates(BlueLed, TenBlinks, BlinkDelayMs);
    BlinkAlternates(RedLed, TenBlinks, BlinkDelayMs);
    BlinkTouchesOnlyItsPin(BlueLed, TwoBlinks, BlinkDelayMs, RedLed);
    BlinkTouchesOnlyItsPin(BlueLed, TenBlinks, BlinkDelayMs, RedLed);
    BlinkTouchesOnlyItsPin(RedLed, TenBlinks, BlinkDelayMs, BlueLed);
    BlinkTouchesOnlyItsPin(BlueLed, TwoBlinks, BlinkDelayMs, Switch);
    BlinkTouchesOnlyItsPin(BlueLed, TenBlinks, BlinkDelayMs, Switch);
    BlinkTouchesOnlyItsPin(RedLed, TenBlinks, BlinkDelayMs, Switch);
    BlinkTouchesOnlyItsPin(BlueLed, TwoBlinks, BlinkDelayMs, GreenLed);
    BlinkTouchesOnlyItsPin(BlueLed, TenBlinks, BlinkDelayMs, GreenLed);
    BlinkTouchesOnlyItsPin(RedLed, TenBlinks, BlinkDelayMs, GreenLed);
    if !connected && attempts + 1 >= RestartAttempts {
      WritesToAppend(blue10, red10, BlueLed);
      WritesToAppend(blue10, red10, RedLed);
      WritesToAppend(blue10, red10, Switch);
      WritesToAppend(blue10, red10, GreenLed);
      assert WritesTo(blue10 + red10, BlueLed) == WritesTo(blue10, BlueLed);
    }
  }

  /** The restart flags of successive checks, one per observed Wi-Fi status, up to and
      including a restart, which ends the run. */
  function Checks(attempts: nat, statuses: seq<bool>): seq<bool>
    decreases |statuses|
  {
    if statuses == [] then []
    else
      var c := CheckWifi(attempts, statuses[0]);
      if c.restart then [true] else [false] + Checks(c.attempts, statuses[1..])
  }

  /** `n` checks that all find the link down. */
  function Disconnected(n: nat): seq<bool>
  {
    seq(n, _ => false)
  }

  /** One disconnected check, then the rest of the run. */
  lemma ChecksDisconnectedStep(attempts: nat, n: nat)
    requires n > 0
    ensures Checks(attempts, Disconnected(n))
      == if attempts + 1 >= RestartAttempts then [true] else [false] + Checks(attempts + 1, Disconnected(n - 1))
  {
    assert Disconnected(n)[0] == false;
    assert Disconnected(n)[1..] == Disconnected(n - 1);
  }

  /** From counter `attempts` below 10, consecutive disconnected checks restart on the
      (10 - attempts)-th and on none before it. */
  lemma {:induction false} RestartAfterDisconnects(attempts: nat, n: nat)
    requires attempts < RestartAttempts
    ensures var r := Checks(attempts, Disconnected(n));
      && |r| == Min(n, RestartAttempts - attempts)
      && forall i :: 0 <= i < |r| ==> (r[i] <==> i + 1 == RestartAttempts - attempts)
    decreases n
  {
    if n > 0 {
      ChecksDisconnectedStep(attempts, n);
      if attempts + 1 < RestartAttempts {
        RestartAfterDisconnects(attempts + 1, n - 1);
        var r := Checks(attempts, Disconnected(n));
        var rest := Checks(attempts + 1, Disconnected(n - 1));
        forall i | 0 <= i < |r|
          ensures r[i] <==> i + 1 == RestartAttempts - attempts
        {
          if i > 0 {
            assert r[i] == rest[i - 1];
          }
        }
      }
    }
  }

  /** From boot (counter 0), the board restarts on the 10th consecutive disconnected check,
      never earlier. */
  lemma RestartOnTenthDisconnect(n: nat)
    ensures var r := Checks(0, Disconnected(n));
      && |r| == Min(n, 10)
      && forall i :: 0 <= i < |r| ==> (r[i] <==> i == 9)
  {
    RestartAfterDisconnects(0, n);
  }

  /** A connected check forgets every earlier failure: what follows it behaves as from boot. */
  lemma ConnectedCheckForgets(attempts: nat, statuses: seq<bool>)
    ensures Checks(attempts, [true] + statuses) == [false] + Checks(0, statuses)
  {
    assert ([true] + statuses)[1..] == statuses;
  }

  /** The global `wifiReconnectAttempts`. */
  class WifiMonitor {
    var reconnectAttempts: nat

    /** `int wifiReconnectAttempts = 0`. */
    constructor()
      ensures reconnectAttempts == 0
    {
      reconnectAttempts := 0;
    }

    /** `checkWiFiConnection()`; `restart` is true when it reaches `ESP.restart()`. */
    method CheckWiFiConnection(board: Board, connected: bool) returns (restart: bool)
      modifies this, board
      ensures var c := CheckWifi(old(reconnectAttempts), connected);
        reconnectAttempts == c.attempts && restart == c.restart && board.trace == old(board.trace) + c.trace
    {
      if !connected {
        ghost var start := board.trace;
        board.BlinkLed(BlueLed, TenBlinks, BlinkDelayMs);
        reconnectAttempts := reconnectAttempts + 1;
        if reconnectAttempts >= RestartAttempts {
          board.BlinkLed(RedLed, TenBlinks, BlinkDelayMs);
          AppendAssociative(start, BlinkTrace(BlueLed, TenBlinks, BlinkDelayMs), BlinkTrace(RedLed, TenBlinks, BlinkDelayMs));
          return true;
        }
        return false;
      } else {
        board.BlinkLed(BlueLed, TwoBlinks, BlinkDelayMs);
        reconnectAttempts := 0;
        return false;
      }
    }
  }

  // ---------------------------------------------------------------------------------------
  // checkWakeOnLan

  /** The matcher of `checkWakeOnLan`: bytes 6..11 of the buffer are the target MAC. */
  predicate EspMatch(buffer: seq<byte>)
    requires |buffer| >= 12
  {
    buffer[6..12] == EspTargetMac
  }

  /** The `match` loop over the receive buffer. */
  method MacMatches(buffer: array<byte>) returns (m: bool)
    requires buffer.Length >= 12
    ensures m <==> EspMatch(buffer[..])
  {
    m := true;
    var i := 6;
    while i < 12
      invariant 6 <= i <= 12
      invariant forall j :: 6 <= j < i ==> buffer[j] == EspTargetMac[j - 6]
    {
      if buffer[i] != EspTargetMac[i - 6] {
        m := false;
        assert buffer[..][6..12][i - 6] != EspTargetMac[i - 6];
        break;
      }
      i := i + 1;
    }
    if m {
      assert buffer[..][6..12] == EspTargetMac;
    }
  }

  /** Every packet the Pico programs accept for this MAC also matches here. */
  lemma MagicPacketMatches(packet: seq<byte>)
    requires IsWolMagicPacket(packet, EspTargetMac)
    ensures |packet| >= 12 && EspMatch(packet)
  {
    forall j | 0 <= j < 6
      ensures packet[6 + j] == EspTargetMac[j]
    {
      AcceptedPacketBytes(packet, EspTargetMac, 0, j);
    }
  }

  /** ...but not the other way round: a 12-byte payload with no 0xFF prefix and a single copy
      of the MAC matches, though it is no magic packet. */
  lemma ShortPayloadMatches()
    ensures var p: seq<byte> := [0, 0, 0, 0, 0, 0] + EspTargetMac;
      EspMatch(p) && !IsWolMagicPacket(p, EspTargetMac)
  {
    var p: seq<byte> := [0, 0, 0, 0, 0, 0] + EspTargetMac;
    assert p[6..12] == EspTargetMac;
    WrongLengthRejected(p, EspTargetMac);
  }

  /** `udp.read(packetBuffer, 102)`: the first 102 bytes of the payload. */
  function EspReceived(payload: seq<byte>): (buffer: seq<byte>)
    ensures buffer <= payload && |buffer| <= EspBufferSize
    ensures |payload| <= EspBufferSize ==> buffer == payload
    ensures |payload| >= EspBufferSize ==> |buffer| == EspBufferSize
  {
    payload[..Min(|payload|, EspBufferSize)]
  }

  /** What one `checkWakeOnLan()` does to the pins; None is "no packet" (`parsePacket()` is 0). */
  function WakeTrace(payload: Option<seq<byte>>, deviceOn: bool): seq<Event>
    requires payload.Some? ==> |payload.value| >= 12
  {
    if payload.Some? && EspMatch(EspReceived(payload.value)) && !deviceOn then PulseTrace(PressMs) else []
  }

  /** The button is pressed at most once per check, exactly when a packet arrived whose bytes
      6..11 are the target MAC while the device is off, and then the relay is left low. */
  lemma WakePressesOnMatchWhileOff(payload: Option<seq<byte>>, deviceOn: bool)
    requires payload.Some? ==> |payload.value| >= 12
    ensures Presses(WakeTrace(payload, deviceOn)) <= 1
    ensures Presses(WakeTrace(payload, deviceOn)) == 1
      <==> payload.Some? && payload.value[6..12] == EspTargetMac && !deviceOn
    ensures deviceOn || payload.None? ==> WakeTrace(payload, deviceOn) == []
    ensures WakeTrace(payload, deviceOn) != [] ==> LastLevel(WakeTrace(payload, deviceOn), Switch) == Some(false)
  {
    if payload.Some? {
      assert EspReceived(payload.value)[6..12] == payload.value[6..12];
    }
    PulsePressesOnce(PressMs);
    PulseLeavesPinsLow([], PressMs);
    assert [] + PulseTrace(PressMs) == PulseTrace(PressMs);
  }

  /** `checkWakeOnLan()`. */
  method CheckWakeOnLan(board: Board, payload: Option<seq<byte>>, deviceOn: bool)
    requires payload.Some? ==> |payload.value| >= 12
    modifies board
    ensures board.trace == old(board.trace) + WakeTrace(payload, deviceOn)
  {
    if payload.Some? {
      var data := payload.value;
      var size := Min(|data|, EspBufferSize);
      var buffer := new byte[EspBufferSize](i requires 0 <= i => if i < size then data[i] else 0);
      assert buffer[..][..size] == EspReceived(data);
      var m := MacMatches(buffer);
      assert buffer[..][6..12] == EspReceived(data)[6..12];
      if m {
        if !deviceOn {
          board.PowerButton(PressMs);
        }
      }
    }
  }

  // ---------------------------------------------------------------------------------------
  // handleTelnet / handleTelnetPrompt

  /** The globals `authenticated` and `inTelnetPrompt`. */
  datatype Session = Session(authenticated: bool, inPrompt: bool)

  /** What a Telnet input leads to: a button pulse of `ms` milliseconds, a line sent to the
      serial device, a message back to the Telnet client, or the end of the connection. */
  datatype Action = Pulse(ms: nat) | Forward(line: string) | Reply | Disconnect

  /** Ctrl-D (`input == 4`) and Ctrl-Z (`input == 26`). */
  const CtrlD: char := 4 as char
  const CtrlZ: char := 26 as char
  const Password: string := "admin/passw0rd"

  /** `handleTelnetPrompt()` on the trimmed command. */
  function PromptStep(s: Session, command: string, deviceOn: bool): (Session, Action)
  {
    if command == "poweron" then (s, if deviceOn then Reply else Pulse(PressMs))
    else if command == "poweroff" then (s, if !deviceOn then Reply else Pulse(PressMs))
    else if command == "poweroff -f" then (s, if !deviceOn then Reply else Pulse(ForcedPressMs))
    else if command == "exit" then (s.(inPrompt := false), Reply)
    else (s, Reply)
  }

  /** `handleTelnet()` once input is available: `first` is the byte taken by `read()`, `line`
      the rest of the line up to the newline, read afterwards. */
  function TelnetStep(s: Session, first: char, line: string, deviceOn: bool): (Session, Action)
  {
    if first == CtrlD then (s.(authenticated := false), Disconnect)
    else if first == CtrlZ then (s.(inPrompt := true), Reply)
    else if s.inPrompt then PromptStep(s, Strip(line, Whitespace), deviceOn)
    else if !s.authenticated then
      (if Strip(line, Whitespace) == Password then s.(authenticated := true) else s, Reply)
    else (s, Forward(Strip(line, Whitespace)))
  }

  /** Ctrl-D logs out and closes the connection, leaving the prompt flag as it was. */
  lemma CtrlDLogsOut(s: Session, line: string, deviceOn: bool)
    ensures TelnetStep(s, CtrlD, line, deviceOn) == (Session(false, s.inPrompt), Disconnect)
  {
  }

  /** Ctrl-Z enters the prompt whether or not the session is logged in. */
  lemma CtrlZEntersPromptWithoutLogin(s: Session, line: string, deviceOn: bool)
    ensures TelnetStep(s, CtrlZ, line, deviceOn) == (Session(s.authenticated, true), Reply)
  {
  }

  /** In the prompt, the button is pulsed exactly for `poweron` while off and for `poweroff`
      or `poweroff -f` while on, for 5 s only when forced; only `exit` leaves the prompt, and
      nothing is ever forwarded or logged in. */
  lemma PromptCommands(s: Session, first: char, line: string, deviceOn: bool)
    requires s.inPrompt && first != CtrlD && first != CtrlZ
    ensures var command := Strip(line, Whitespace);
      var (next, action) := TelnetStep(s, first, line, deviceOn);
      && (action.Pulse? <==>
            ((command == "poweron" && !deviceOn) || ((command == "poweroff" || command == "poweroff -f") && deviceOn)))
      && (action.Pulse? ==> action.ms == if command == "poweroff -f" then 5000 else 1000)
      && (!action.Pulse? ==> action == Reply)
      && next.authenticated == s.authenticated
      && (next.inPrompt <==> command != "exit")
  {
  }

  /** Outside the prompt, a session logs in exactly on the line `admin/passw0rd`, and nothing
      but a logged-in session is forwarded anything, and then the trimmed line. */
  lemma LoginAndForward(s: Session, first: char, line: string, deviceOn: bool)
    requires !s.inPrompt && first != CtrlD && first != CtrlZ
    ensures var (next, action) := TelnetStep(s, first, line, deviceOn);
      && next.inPrompt == s.inPrompt
      && (next.authenticated <==> s.authenticated || Strip(line, Whitespace) == Password)
      && (action.Forward? <==> s.authenticated)
      && (action.Forward? ==> action.line == Strip(line, Whitespace))
      && (!action.Forward? ==> action == Reply)
  {
  }

  /** Whatever the state and input: a line is forwarded only by a logged-in session outside
      the prompt; a pulse comes only from the prompt; and a session becomes logged in only by
      the password line. */
  lemma SessionGuards(s: Session, first: char, line: string, deviceOn: bool)
    ensures var (next, action) := TelnetStep(s, first, line, deviceOn);
      && (action.Forward? ==> s.authenticated && !s.inPrompt)
      && (action.Pulse? ==> s.inPrompt && first != CtrlD && first != CtrlZ)
      && (next.authenticated && !s.authenticated ==> Strip(line, Whitespace) == Password)
  {
  }

  /** Nothing in the prompt asks for the login: a client that never logged in sends Ctrl-Z,
      then any other byte followed by `poweron`, and the device is switched on. */
  lemma PromptPulsesWithoutLogin(c: char)
    requires c != CtrlD && c != CtrlZ
    ensures var (s1, a1) := TelnetStep(Session(false, false), CtrlZ, "", false);
      var (s2, a2) := TelnetStep(s1, c, "poweron", false);
      a2 == Pulse(PressMs) && !s2.authenticated
  {
    StripUnpadded("poweron", Whitespace);
  }

  /** The byte taken by `read()` is not part of the command: typing `poweron` in the prompt
      arrives as 'p' followed by `oweron`, which is not recognised. */
  lemma FirstByteIsNotPartOfCommand(s: Session, deviceOn: bool)
    requires s.inPrompt
    ensures TelnetStep(s, 'p', "oweron", deviceOn) == (s, Reply)
  {
    StripUnpadded("oweron", Whitespace);
  }

  /** The session state of the program. */
  class TelnetSession {
    var authenticated: bool
    var inTelnetPrompt: bool

    /** `bool authenticated = false; bool inTelnetPrompt = false;` */
    constructor()
      ensures !authenticated && !inTelnetPrompt
    {
      authenticated := false;
      inTelnetPrompt := false;
    }

    /** `handleTelnetPrompt()`; `line` is what `readStringUntil('\n')` returns. */
    method HandleTelnetPrompt(board: Board, line: string, deviceOn: bool) returns (action: Action)
      modifies this, board
      ensures var (next, a) := PromptStep(Session(old(authenticated), old(inTelnetPrompt)), Strip(line, Whitespace), deviceOn);
        Session(authenticated, inTelnetPrompt) == next && action == a
      ensures board.trace == old(board.trace) + if action.Pulse? then PulseTrace(action.ms) else []
    {
      var command := Strip(line, Whitespace);
      if command == "poweron" {
        if deviceOn {
          action := Reply;
        } else {
          board.PowerButton(PressMs);
          action := Pulse(PressMs);
        }
      } else if command == "poweroff" {
        if !deviceOn {
          action := Reply;
        } else {
          board.PowerButton(PressMs);
          action := Pulse(PressMs);
        }
      } else if command == "poweroff -f" {
        if !deviceOn {
          action := Reply;
        } else {
          board.PowerButton(ForcedPressMs);
          action := Pulse(ForcedPressMs);
        }
      } else if command == "exit" {
        inTelnetPrompt := false;
        action := Reply;
      } else {
        action := Reply;
      }
    }

    /** `handleTelnet()` when `TelnetStream.available()`: `first` is the byte `read()`
        returns and `line` the rest of the line. */
    method HandleTelnet(board: Board, first: char, line: string, deviceOn: bool) returns (action: Action)
      modifies this, board
      ensures var (next, a) := TelnetStep(Session(old(authenticated), old(inTelnetPrompt)), first, line, deviceOn);
        Session(authenticated, inTelnetPrompt) == next && action == a
      ensures board.trace == old(board.trace) + if action.Pulse? then PulseTrace(action.ms) else []
    {
      if first == CtrlD {
        authenticated := false;
        return Disconnect;
      } else if first == CtrlZ {
        inTelnetPrompt := true;
        return Reply;
      }
      if inTelnetPrompt {
        action := HandleTelnetPrompt(board, line, deviceOn);
        return;
      }
      var command := Strip(line, Whitespace);
      if !authenticated {
        if command == Password {
          authenticated := true;
        }
        return Reply;
      }
      return Forward(command);
    }
  }
}
