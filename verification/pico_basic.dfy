/** The first Raspberry Pi Pico W program: a fixed target MAC, and a listen loop whose socket
    timeout triggers `verify_and_reconnect_wifi`, which reconnects without counting failures.
    Whether the radio is connected and whether a reconnect succeeds are inputs. */
module PicoBasic {
  import opened Common
  import opened MagicPacket
  import opened Power
  import opened WolListener

  /** `TARGET_MAC = b"\x00\x00\x00\x00\x00\x00"`. */
  const PicoTargetMac: seq<byte> := [0, 0, 0, 0, 0, 0]

  /** What `verify_and_reconnect_wifi()` returns. */
  function Reconnected(connected: bool, connectOk: bool): bool
  {
    if connected then true else connectOk
  }

  /** The pins `verify_and_reconnect_wifi()` writes: a double blue blink when the link is (or
      comes back) up, a double red blink when the reconnect raised. */
  function ReconnectTrace(connected: bool, connectOk: bool): seq<Event>
  {
    if connected || connectOk then BlinkTrace(BlueLed, TwoBlinks, BlinkDelayMs)
    else BlinkTrace(RedLed, TwoBlinks, BlinkDelayMs)
  }

  /** The function answers False only when a reconnect was attempted and raised, and its LEDs
      tell the answer: True blinks only the blue LED twice, False only the red LED twice; the
      switch is never driven. */
  lemma ReconnectResultShownByLeds(connected: bool, connectOk: bool)
    ensures !Reconnected(connected, connectOk) <==> !connected && !connectOk
    ensures var t := ReconnectTrace(connected, connectOk);
      var shown := if Reconnected(connected, connectOk) then BlueLed else RedLed;
      var other := if Reconnected(connected, connectOk) then RedLed else BlueLed;
      && WritesTo(t, shown) == [true, false, true, false]
      && WritesTo(t, other) == []
      && WritesTo(t, Switch) == [] && WritesTo(t, GreenLed) == []
  {
    var pin := if connected || connectOk then BlueLed else RedLed;
    var w := WritesTo(BlinkTrace(pin, TwoBlinks, BlinkDelayMs), pin);
    BlinkAlternates(pin, TwoBlinks, BlinkDelayMs);
    assert w[0] && !w[1] && w[2] && !w[3];
    BlinkTouchesOnlyItsPin(pin, TwoBlinks, BlinkDelayMs, if pin == BlueLed then RedLed else BlueLed);
    BlinkTouchesOnlyItsPin(pin, TwoBlinks, BlinkDelayMs, Switch);
    BlinkTouchesOnlyItsPin(pin, TwoBlinks, BlinkDelayMs, GreenLed);
  }

  /** `verify_and_reconnect_wifi()`. */
  method VerifyAndReconnectWifi(board: Board, connected: bool, connectOk: bool) returns (ok: bool)
    modifies board
    ensures ok == Reconnected(connected, connectOk)
    ensures board.trace == old(board.trace) + ReconnectTrace(connected, connectOk)
  {
    if !connected {
      if connectOk {
        board.BlinkLed(BlueLed, TwoBlinks, BlinkDelayMs);
        return true;
      } else {
        board.BlinkLed(RedLed, TwoBlinks, BlinkDelayMs);
        return false;
      }
    } else {
      board.BlinkLed(BlueLed, TwoBlinks, BlinkDelayMs);
      return true;
    }
  }

  /** What one turn of the receive loop does to the pins: a datagram goes to the magic-packet
      dispatch; a timeout (None) checks the Wi-Fi link. */
  function ListenTrace(received: Option<seq<byte>>, deviceOn: bool, connected: bool, connectOk: bool): seq<Event>
  {
    match received
    case Some(datagram) => Response(datagram, PicoTargetMac, deviceOn)
    case None => ReconnectTrace(connected, connectOk)
  }

  /** A turn of the loop presses the button at most once, and exactly once iff the datagram
      is the magic packet for 00:00:00:00:00:00 and the device is off; a timeout never
      presses it. */
  lemma ListenPressesOnlyForMagicWhileOff(received: Option<seq<byte>>, deviceOn: bool, connected: bool, connectOk: bool)
    ensures Presses(ListenTrace(received, deviceOn, connected, connectOk)) <= 1
    ensures Presses(ListenTrace(received, deviceOn, connected, connectOk)) == 1
      <==> received == Some(MagicPacketFor(PicoTargetMac)) && !deviceOn
  {
    match received
    case Some(datagram) =>
      ResponsePressesOnlyForMagicWhileOff(datagram, PicoTargetMac, deviceOn);
    case None =>
      ReconnectResultShownByLeds(connected, connectOk);
      NoSwitchNoPresses(ReconnectTrace(connected, connectOk));
  }

  /** The body of the `while True` loop in `listen_for_wol()`. */
  method ListenStep(board: Board, received: Option<seq<byte>>, deviceOn: bool, connected: bool, connectOk: bool)
    modifies board
    ensures board.trace == old(board.trace) + ListenTrace(received, deviceOn, connected, connectOk)
  {
    match received
    case Some(datagram) =>
      HandleDatagram(board, datagram, PicoTargetMac, deviceOn);
    case None =>
      var _ := VerifyAndReconnectWifi(board, connected, connectOk);
  }
}
