/**
  The protocol side of the Tux controller driver (module/tuxctl-ioctl.c):
  the LED packet built by tuxctl_ioctl_tux_set_led, the responses
  handled by tuxctl_handle_packet and the commands of tuxctl_ioctl.  The
  driver's globals buffer, flag and button are the fields of a
  TuxController; the bytes put on the serial line are appended to sent.
*/
module Tuxctl {
  import opened Wrappers
  import opened SevenSegment

  // Opcodes from mtcp.h, which is not part of this model; these are the
  // values that file defines (MTCP_OPCODE(n) is 0xC0 | n, and the response
  // codes are MTCP_RESP(0x0), MTCP_RESP(0x1) and MTCP_RESP(0x9)).
  const MTCP_BIOC_ON: bv8 := 0xC3
  const MTCP_LED_SET: bv8 := 0xC6
  const MTCP_LED_USR: bv8 := 0xC8
  const MTCP_ACK: bv8 := 0x40
  const MTCP_BIOC_EVENT: bv8 := 0x41
  const MTCP_RESET: bv8 := 0x51

  /** EINVAL of the Linux kernel; the driver returns its negation. */
  const EINVAL: int := 22

  /** Bytes in an LED packet: opcode, LED mask, one segment byte per LED (module/tuxctl-ioctl.c:32). */
  const PUSH_BUFFER: nat := 6

  /**
    The ioctl commands the driver tells apart; their numbers come from
    tuxctl-ioctl.h, which is not part of this model.
  */
  datatype Command = TuxInit | TuxButtons | TuxSetLed | OtherCommand

  /** The driver's globals and everything it has sent so far. */
  datatype TuxState = TuxState(buffer: seq<bv8>, flag: bool, button: bv8, sent: seq<bv8>) {
    predicate Valid() {
      |buffer| == PUSH_BUFFER
    }
  }

  /** Bits 16..19 of the argument: which of the four LEDs to set. */
  function LedMask(arg: bv32): bv32 {
    (arg & 0x000F_0000) >> 16
  }

  /** The digit for LED i: bits 4i..4i+3 of the argument (LED_MASK2 after a shift of 0, 4, 8 or 12). */
  function LedValue(arg: bv32, i: nat): (v: bv32)
    requires i < 4
    ensures v < 16
  {
    if i == 0 then arg & 0xF
    else if i == 1 then (arg >> 4) & 0xF
    else if i == 2 then (arg >> 8) & 0xF
    else (arg >> 12) & 0xF
  }

  /** The decimal point for LED i: bit 24 + i of the argument (LED0_SHIFT..LED3_SHIFT). */
  function LedPoint(arg: bv32, i: nat): (d: bv32)
    requires i < 4
    ensures d <= 1
  {
    if i == 0 then (arg >> 24) & 0x1
    else if i == 1 then (arg >> 25) & 0x1
    else if i == 2 then (arg >> 26) & 0x1
    else (arg >> 27) & 0x1
  }

  /** The mask bit of LED i (LED_MASK1, LED1, LED2, LED3). */
  function LedBit(i: nat): (m: bv32)
    requires i < 4
  {
    if i == 0 then 0x1 else if i == 1 then 0x2 else if i == 2 then 0x4 else 0x8
  }

  /** The LED is selected by the mask. */
  predicate Selected(arg: bv32, i: nat)
    requires i < 4
  {
    LedMask(arg) & LedBit(i) != 0
  }

  /** The byte set_led stores for a digit: the low byte of determine_val (VAL_MASK). */
  function SegmentByte(val: bv32, dp: bv32): bv8 {
    (DetermineVal(val, dp) & 0xFF) as bv8
  }

  /** The segment byte written for LED i. */
  function LedSegment(arg: bv32, i: nat): bv8
    requires i < 4
  {
    SegmentByte(LedValue(arg, i), LedPoint(arg, i))
  }

  /**
    buffer after tuxctl_ioctl_tux_set_led fills it (module/tuxctl-ioctl.c:221-261):
    opcode, mask, then each selected LED's segment byte; the slot of an
    LED that is not selected keeps what it held.
  */
  function LedBuffer(prev: seq<bv8>, arg: bv32): (b: seq<bv8>)
    requires |prev| == PUSH_BUFFER
    ensures |b| == PUSH_BUFFER
  {
    [MTCP_LED_SET, LedMask(arg) as bv8,
     LedSlot(prev[2], arg, 0), LedSlot(prev[3], arg, 1), LedSlot(prev[4], arg, 2), LedSlot(prev[5], arg, 3)]
  }

  /** The byte of LED i in the packet: its segment byte if selected, else what the slot held. */
  function LedSlot(held: bv8, arg: bv32, i: nat): bv8
    requires i < 4
  {
    if Selected(arg, i) then LedSegment(arg, i) else held
  }

  /**
    The LED packet says what the argument asks for: its mask, and for each
    selected LED a byte that decodes to that LED's digit and decimal point.
  */
  lemma LedBufferDecodes(prev: seq<bv8>, arg: bv32, i: nat)
    requires |prev| == PUSH_BUFFER && i < 4
    ensures LedBuffer(prev, arg)[0] == MTCP_LED_SET
    ensures LedBuffer(prev, arg)[1] as bv32 == LedMask(arg)
    ensures Selected(arg, i) ==>
      Decode(LedBuffer(prev, arg)[2 + i]) == Some(Shown(LedValue(arg, i) as bv8 as int, LedPoint(arg, i) == 1))
    ensures !Selected(arg, i) ==> LedBuffer(prev, arg)[2 + i] == prev[2 + i]
  {
    MaskIsNibble(arg);
    var b := LedBuffer(prev, arg);
    assert b[2 + i] == LedSlot(prev[2 + i], arg, i) by {
      if i == 0 {} else if i == 1 {} else if i == 2 {} else {}
    }
    if Selected(arg, i) {
      SegmentDecodes(LedValue(arg, i), LedPoint(arg, i));
    }
  }

  /** A stored segment byte decodes to the digit and decimal point it was made from. */
  lemma SegmentDecodes(v: bv32, d: bv32)
    requires v < 16 && d <= 1
    ensures Decode(SegmentByte(v, d)) == Some(Shown(v as bv8 as int, d == 1))
  {
    var r := DetermineVal(v, d);
    assert (r & 0xFF) as bv8 == r as bv8;
    DecodeDetermineVal(v, d);
  }

  lemma MaskIsNibble(arg: bv32)
    ensures LedMask(arg) < 16 && (LedMask(arg) as bv8) as bv32 == LedMask(arg)
  {
  }

  /**
    tuxctl_ioctl_tux_set_led: the buffer is always rebuilt; with an LED
    packet still unacknowledged nothing is sent and the call fails,
    otherwise the six bytes go out and the packet is outstanding.
  */
  function SetLedStep(s: TuxState, arg: bv32): (r: (TuxState, int))
    requires s.Valid()
    ensures r.0.Valid()
  {
    var buffer := LedBuffer(s.buffer, arg);
    if s.flag then (s.(buffer := buffer), -EINVAL)
    else (s.(buffer := buffer, flag := true, sent := s.sent + buffer), 0)
  }

  /** The button byte of a BIOC_EVENT packet: C's low nibble over B's low nibble. */
  function ButtonByte(b: bv8, c: bv8): (button: bv8)
    ensures button >> 4 == c & 0x0F && button & 0x0F == b & 0x0F
  {
    ((c << 4) & 0xF0) | (b & 0x0F)
  }

  /**
    tuxctl_handle_packet (module/tuxctl-ioctl.c:119-162) on the packet's
    first three bytes a, b, c.
  */
  function PacketStep(s: TuxState, a: bv8, b: bv8, c: bv8): (t: TuxState)
    requires s.Valid()
    ensures t.Valid()
  {
    if a == MTCP_ACK then s.(flag := false)
    else if a == MTCP_BIOC_EVENT then s.(button := ButtonByte(b, c))
    else if a == MTCP_RESET then
      s.(sent := s.sent + [MTCP_BIOC_ON, MTCP_LED_USR] + (if s.flag then [] else s.buffer))
    else s
  }

  /**
    tuxctl_ioctl (module/tuxctl-ioctl.c:177-203): the new state, the
    return value, and the byte copied to the caller, if any.
  */
  function IoctlStep(s: TuxState, cmd: Command, arg: bv32): (r: (TuxState, int, Option<bv8>))
    requires s.Valid()
    ensures r.0.Valid()
  {
    match cmd
    case TuxInit => (s.(sent := s.sent + [MTCP_BIOC_ON, MTCP_LED_USR]), 0, None)
    case TuxButtons => if arg == 0 then (s, -EINVAL, None) else (s, 0, Some(s.button))
    case TuxSetLed => var (t, ret) := SetLedStep(s, arg); (t, ret, None)
    case OtherCommand => (s, -EINVAL, None)
  }

  /** What reaches the driver: an ioctl from a program, or a packet from the controller. */
  datatype Event = Call(cmd: Command, arg: bv32) | Receive(a: bv8, b: bv8, c: bv8)

  predicate IsAck(e: Event) {
    e.Receive? && e.a == MTCP_ACK
  }

  /** The state after the events, in order. */
  function Run(s: TuxState, evs: seq<Event>): (t: TuxState)
    requires s.Valid()
    ensures t.Valid()
    decreases |evs|
  {
    if evs == [] then s
    else
      var next := match evs[0]
        case Call(cmd, arg) => IoctlStep(s, cmd, arg).0
        case Receive(a, b, c) => PacketStep(s, a, b, c);
      Run(next, evs[1..])
  }

  /** How many of the events are TUX_SET_LED calls that sent their packet. */
  function LedPacketsSent(s: TuxState, evs: seq<Event>): nat
    requires s.Valid()
    decreases |evs|
  {
    if evs == [] then 0
    else match evs[0]
      case Call(cmd, arg) =>
        var (t, ret, _) := IoctlStep(s, cmd, arg);
        (if cmd == TuxSetLed && ret == 0 then 1 else 0) + LedPacketsSent(t, evs[1..])
      case Receive(a, b, c) => LedPacketsSent(PacketStep(s, a, b, c), evs[1..])
  }

  /**
    The flag keeps at most one LED packet unacknowledged: between
    acknowledgements at most one TUX_SET_LED sends, none while one is
    outstanding, and the flag is up exactly when one is.
  */
  lemma {:induction false} OneLedPacketPerAck(s: TuxState, evs: seq<Event>)
    requires s.Valid()
    requires forall k :: 0 <= k < |evs| ==> !IsAck(evs[k])
    ensures LedPacketsSent(s, evs) <= (if s.flag then 0 else 1)
    ensures Run(s, evs).flag <==> s.flag || LedPacketsSent(s, evs) > 0
    decreases |evs|
  {
    if evs != [] {
      assert !IsAck(evs[0]);
      assert forall k :: 0 <= k < |evs[1..]| ==> !IsAck(evs[1..][k]) by {
        forall k | 0 <= k < |evs[1..]|
          ensures !IsAck(evs[1..][k])
        {
          assert evs[1..][k] == evs[k + 1];
        }
      }
      match evs[0]
      case Call(cmd, arg) =>
        OneLedPacketPerAck(IoctlStep(s, cmd, arg).0, evs[1..]);
      case Receive(a, b, c) =>
        OneLedPacketPerAck(PacketStep(s, a, b, c), evs[1..]);
    }
  }

  /** After an acknowledgement the next TUX_SET_LED sends its six bytes. */
  lemma AckEnablesSetLed(s: TuxState, b: bv8, c: bv8, arg: bv32)
    requires s.Valid()
    ensures var t := PacketStep(s, MTCP_ACK, b, c);
      var (u, ret, _) := IoctlStep(t, TuxSetLed, arg);
      ret == 0 && u.flag && u.sent == s.sent + LedBuffer(s.buffer, arg)
  {
  }

  /** The controller's state as the driver keeps it. */
  class TuxController {
    var buffer: array<bv8>
    var flag: bool
    var button: bv8
    var sent: seq<bv8>

    predicate Valid()
      reads this
    {
      buffer.Length == PUSH_BUFFER
    }

    function State(): (s: TuxState)
      reads this, buffer
      requires Valid()
      ensures s.Valid()
    {
      TuxState(buffer[..], flag, button, sent)
    }

    /** The globals as the module loads: all zero, nothing sent. */
    constructor ()
      ensures Valid() && fresh(buffer)
      ensures State() == TuxState([0, 0, 0, 0, 0, 0], false, 0, [])
    {
      buffer := new bv8[PUSH_BUFFER](_ => 0);
      flag, button, sent := false, 0, [];
      new;
      assert buffer[..] == [0, 0, 0, 0, 0, 0];
    }

    /** tuxctl_ldisc_put: the bytes go out on the serial line. */
    method Put(bytes: seq<bv8>)
      modifies this
      ensures sent == old(sent) + bytes
      ensures buffer == old(buffer) && flag == old(flag) && button == old(button)
    {
      sent := sent + bytes;
    }

    /**
      tuxctl_ioctl_tux_set_led (module/tuxctl-ioctl.c:213-281): the buffer
      is filled, then sent unless an LED packet is still unacknowledged.
    */
    method SetLed(arg: bv32) returns (ret: int)
      requires Valid()
      modifies this, buffer
      ensures Valid() && buffer == old(buffer)
      ensures (State(), ret) == SetLedStep(old(State()), arg)
    {
      FillLedBuffer(arg);
      if flag {
        return -EINVAL;
      }
      flag := true;
      Put(buffer[..]);
      return 0;
    }

    /** The buffer writes of set_led (module/tuxctl-ioctl.c:221-261). */
    method FillLedBuffer(arg: bv32)
      requires Valid()
      modifies buffer
      ensures buffer[..] == LedBuffer(old(buffer[..]), arg)
    {
      ghost var prev := buffer[..];
      buffer[0] := MTCP_LED_SET;
      var whichLed := (arg & 0x000F_0000) >> 16;
      buffer[1] := whichLed as bv8;
      WriteLed(arg, 0);
      WriteLed(arg, 1);
      WriteLed(arg, 2);
      WriteLed(arg, 3);
      assert buffer[..] == [MTCP_LED_SET, LedMask(arg) as bv8,
        LedSlot(prev[2], arg, 0), LedSlot(prev[3], arg, 1), LedSlot(prev[4], arg, 2), LedSlot(prev[5], arg, 3)];
    }

    /**
      One of the four guarded writes of set_led: when LED i is selected,
      its slot gets the segment byte of its digit and decimal point.
    */
    method WriteLed(arg: bv32, i: nat)
      requires Valid() && i < 4
      modifies buffer
      ensures buffer[..] == old(buffer[..])[2 + i := LedSlot(old(buffer[2 + i]), arg, i)]
    {
      var whichLed := (arg & 0x000F_0000) >> 16;
      if whichLed & LedBit(i) != 0 {
        var val, dpTemp := LedValue(arg, i), LedPoint(arg, i);
        buffer[2 + i] := (DetermineVal(val, dpTemp) & 0xFF) as bv8;
      }
    }

    /** tuxctl_handle_packet (module/tuxctl-ioctl.c:119-162). */
    method HandlePacket(packet: seq<bv8>)
      requires Valid() && 3 <= |packet|
      modifies this
      ensures Valid() && buffer == old(buffer)
      ensures State() == PacketStep(old(State()), packet[0], packet[1], packet[2])
    {
      var a, b, c := packet[0], packet[1], packet[2];
      if a == MTCP_ACK {
        flag := false;
      } else if a == MTCP_BIOC_EVENT {
        button := ((c << 4) & 0xF0) | (b & 0x0F);
      } else if a == MTCP_RESET {
        Put([MTCP_BIOC_ON]);
        Put([MTCP_LED_USR]);
        if flag {
          return;
        }
        Put(buffer[..]);
      }
    }

    /**
      tuxctl_ioctl (module/tuxctl-ioctl.c:177-203); copied is the byte
      copy_to_user delivers to the caller for TUX_BUTTONS.
    */
    method Ioctl(cmd: Command, arg: bv32) returns (ret: int, copied: Option<bv8>)
      requires Valid()
      modifies this, buffer
      ensures Valid() && buffer == old(buffer)
      ensures (State(), ret, copied) == IoctlStep(old(State()), cmd, arg)
    {
      copied := None;
      match cmd
      case TuxInit =>
        Put([MTCP_BIOC_ON]);
        Put([MTCP_LED_USR]);
        assert sent == old(sent) + [MTCP_BIOC_ON, MTCP_LED_USR];
        return 0, None;
      case TuxButtons =>
        if arg == 0 {
          return -EINVAL, None;
        }
        return 0, Some(button);
      case TuxSetLed =>
        ret := SetLed(arg);
      case OtherCommand =>
        return -EINVAL, None;
    }
  }
}
