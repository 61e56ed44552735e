/** The receive-and-dispatch step of `listen_for_wol`, identical in both Raspberry Pi Pico W
    programs: a datagram is read into a 1024-byte buffer, checked as a magic packet for the
    target, and the power button is pressed once if and only if the device is off. */
module WolListener {
  import opened Common
  import opened MagicPacket
  import opened Power

  /** Size of the `bytearray(1024)` receive buffer; longer datagrams are cut to this length. */
  const BufferSize: nat := 1024

  /** `buffer[:num_bytes]` after `recvfrom_into(buffer)`. */
  function Received(datagram: seq<byte>): (packet: seq<byte>)
    ensures packet <= datagram && |packet| <= BufferSize
    ensures |datagram| <= BufferSize ==> packet == datagram
    ensures |datagram| >= BufferSize ==> |packet| == BufferSize
  {
    datagram[..Min(|datagram|, BufferSize)]
  }

  /** What one received datagram does to the pins. */
  function Response(datagram: seq<byte>, target: seq<byte>, deviceOn: bool): seq<Event>
  {
    if IsWolMagicPacket(Received(datagram), target) && !deviceOn then PulseTrace(PicoPressMs) else []
  }

  /** Cutting a datagram to the buffer never turns a non-magic datagram into a magic packet,
      nor the reverse: the decision is the one on the whole datagram. */
  lemma TruncationHarmless(datagram: seq<byte>, target: seq<byte>)
    ensures IsWolMagicPacket(Received(datagram), target) <==> IsWolMagicPacket(datagram, target)
  {
    if |datagram| <= BufferSize {
      assert Received(datagram) == datagram;
    }
  }

  /** Each datagram presses the button at most once, and exactly once iff it is the magic
      packet for the target and the device is off; while the device is on no pin is written. */
  lemma ResponsePressesOnlyForMagicWhileOff(datagram: seq<byte>, target: seq<byte>, deviceOn: bool)
    ensures Presses(Response(datagram, target, deviceOn)) <= 1
    ensures Presses(Response(datagram, target, deviceOn)) == 1
      <==> |target| == 6 && datagram == MagicPacketFor(target) && !deviceOn
    ensures deviceOn ==> Response(datagram, target, deviceOn) == []
    ensures Presses(Response(datagram, target, deviceOn)) == 1 ==>
      LastLevel(Response(datagram, target, deviceOn), Switch) == Some(false)
  {
    TruncationHarmless(datagram, target);
    IsWolMagicPacketIff(datagram, target);
    PulseLeavesPinsLow([], PicoPressMs);
    PulsePressesOnce(PicoPressMs);
    assert [] + PulseTrace(PicoPressMs) == PulseTrace(PicoPressMs);
  }

  /** The body of the receive loop for a datagram that arrived: validate, read the device
      state, press the button if the device is off. */
  method HandleDatagram(board: Board, datagram: seq<byte>, target: seq<byte>, deviceOn: bool)
    modifies board
    ensures board.trace == old(board.trace) + Response(datagram, target, deviceOn)
  {
    var packet := datagram[..Min(|datagram|, BufferSize)];
    if IsWolMagicPacket(packet, target) {
      if !deviceOn {
        board.PressPowerButton();
      }
    }
  }
}
