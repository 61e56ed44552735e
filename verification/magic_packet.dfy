/** The Wake-on-LAN "Magic Packet" check shared by both Raspberry Pi Pico W programs:
    exactly 102 bytes, six 0xFF synchronisation bytes, then the target MAC sixteen times. */
module MagicPacket {
  import opened Common

  const PacketLength: nat := 102
  const Repetitions: nat := 16
  const Sync: seq<byte> := [0xFF, 0xFF, 0xFF, 0xFF, 0xFF, 0xFF]

  /** The loop of `is_wol_magic_packet` from window `i` on: each slice
      `packet[6 + 6*i .. 12 + 6*i]` must equal `target`, the first mismatch rejecting. */
  function WindowsMatchFrom(packet: seq<byte>, target: seq<byte>, i: nat): bool
    requires |packet| == PacketLength && i <= Repetitions
    decreases Repetitions - i
  {
    i == Repetitions
    || (packet[6 + i * 6..12 + i * 6] == target && WindowsMatchFrom(packet, target, i + 1))
  }

  /** `is_wol_magic_packet(packet, target_mac)`: length first, then the 0xFF prefix,
      then the sixteen windows. */
  function IsWolMagicPacket(packet: seq<byte>, target: seq<byte>): bool
  {
    if |packet| != PacketLength then false
    else if packet[..6] != Sync then false
    else WindowsMatchFrom(packet, target, 0)
  }

  /** `target` repeated `n` times. */
  function Repeat(target: seq<byte>, n: nat): (r: seq<byte>)
    ensures |r| == n * |target|
  {
    if n == 0 then [] else target + Repeat(target, n - 1)
  }

  /** Byte `j` of copy `w` of a repeated 6-byte target is byte `j` of the target. */
  lemma {:induction false} RepeatAt(target: seq<byte>, n: nat, w: nat, j: nat)
    requires |target| == 6 && w < n && j < 6
    ensures Repeat(target, n)[6 * w + j] == target[j]
  {
    if w > 0 {
      RepeatAt(target, n - 1, w - 1, j);
    }
  }

  /** The one magic packet for `target`: the reference definition of the wire format. */
  function MagicPacketFor(target: seq<byte>): (p: seq<byte>)
    ensures |p| == 6 + Repetitions * |target|
    ensures p[..6] == Sync
  {
    Sync + Repeat(target, Repetitions)
  }

  /** With a 6-byte target, windows `i..15` all match iff the packet from offset
      `6 + 6*i` on is the target repeated `16 - i` times. */
  lemma {:induction false} WindowsMatchFromIff(packet: seq<byte>, target: seq<byte>, i: nat)
    requires |packet| == PacketLength && |target| == 6 && i <= Repetitions
    ensures WindowsMatchFrom(packet, target, i) <==> packet[6 + 6 * i..] == Repeat(target, Repetitions - i)
    decreases Repetitions - i
  {
    if i < Repetitions {
      WindowsMatchFromIff(packet, target, i + 1);
      var rest := Repeat(target, Repetitions - (i + 1));
      assert Repeat(target, Repetitions - i) == target + rest;
      assert packet[6 + 6 * i..] == packet[6 + 6 * i..12 + 6 * i] + packet[12 + 6 * i..];
    }
  }

  /** `is_wol_magic_packet` accepts exactly one packet per 6-byte target, the magic packet
      built from it, and accepts nothing at all for a target of any other length. */
  lemma IsWolMagicPacketIff(packet: seq<byte>, target: seq<byte>)
    ensures IsWolMagicPacket(packet, target) <==> |target| == 6 && packet == MagicPacketFor(target)
  {
    if |packet| == PacketLength && packet[..6] == Sync {
      if |target| == 6 {
        WindowsMatchFromIff(packet, target, 0);
        assert packet == packet[..6] + packet[6..];
      } else {
        assert !WindowsMatchFrom(packet, target, 0);
      }
    }
  }

  /** Any packet whose length is not 102 is rejected, whatever its content. */
  lemma WrongLengthRejected(packet: seq<byte>, target: seq<byte>)
    requires |packet| != PacketLength
    ensures !IsWolMagicPacket(packet, target)
  {
  }

  /** Byte-level reading of an accepted packet: bytes 0..5 are 0xFF and byte `6 + 6*w + j`
      of every window `w` is byte `j` of the target. */
  lemma {:induction false} AcceptedPacketBytes(packet: seq<byte>, target: seq<byte>, w: nat, j: nat)
    requires IsWolMagicPacket(packet, target)
    requires w < Repetitions && j < 6
    ensures |packet| == PacketLength && |target| == 6
    ensures forall k :: 0 <= k < 6 ==> packet[k] == 0xFF
    ensures packet[6 + 6 * w + j] == target[j]
  {
    IsWolMagicPacketIff(packet, target);
    assert packet[..6] == Sync;
    assert forall k :: 0 <= k < 6 ==> packet[k] == packet[..6][k];
    RepeatAt(target, Repetitions, w, j);
    assert packet[6 + 6 * w + j] == Repeat(target, Repetitions)[6 * w + j];
  }

  /** Boundary sensitivity: changing any single byte of an accepted packet, in the
      prefix or in any of the sixteen windows, makes it rejected. */
  lemma SingleByteChangeRejected(packet: seq<byte>, target: seq<byte>, k: nat, b: byte)
    requires IsWolMagicPacket(packet, target)
    requires k < |packet| && b != packet[k]
    ensures !IsWolMagicPacket(packet[k := b], target)
  {
    IsWolMagicPacketIff(packet, target);
    IsWolMagicPacketIff(packet[k := b], target);
    assert packet[k := b][k] != packet[k];
  }

  /** The worked example for target AA:BB:CC:DD:EE:FF: the full packet is accepted, the same
      packet with its second copy ending in 00 is rejected, and its first 101 bytes are rejected. */
  lemma ExampleTargetAABBCCDDEEFF()
    ensures var t: seq<byte> := [0xAA, 0xBB, 0xCC, 0xDD, 0xEE, 0xFF];
      var p := Sync + Repeat(t, 16);
      IsWolMagicPacket(p, t)
      && !IsWolMagicPacket(p[17 := 0x00], t)
      && !IsWolMagicPacket(p[..101], t)
  {
    var t: seq<byte> := [0xAA, 0xBB, 0xCC, 0xDD, 0xEE, 0xFF];
    var p := Sync + Repeat(t, 16);
    IsWolMagicPacketIff(p, t);
    assert p[17] == 0xFF;
    SingleByteChangeRejected(p, t, 17, 0x00);
  }
}
