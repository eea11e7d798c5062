/** `read_packet`: what the daemon does with the result of one read from
    the IPv4-side tun descriptor. A tun frame starts with a 4-byte
    `struct tun_pi`: a host-order 16-bit `flags` field followed by the
    big-endian EtherType `proto`. */
module TunRead {
  import opened Words
  import opened Limits

  const ETH_P_IP: u16 := 0x0800
  const EAGAIN: int := 11

  datatype DropReason = ShortRead(len: int) | UnknownProto(proto: u16)

  /** What one call does.
      - `Ignore`: a failed read; `warned` unless it was EAGAIN.
      - `Stop`: a zero-length read (the tun interface is gone); clears `running`.
      - `Drop`: the frame is logged and discarded, nothing is translated.
      - `Translate`: `packet` goes to the translator in direction `toIpv6`;
        `flagsWarned` when the header carried non-zero flags. */
  datatype Action =
    | Ignore(warned: bool)
    | Stop
    | Drop(reason: DropReason)
    | Translate(packet: seq<u8>, toIpv6: bool, flagsWarned: bool)

  /** `running` after the call: only a zero-length read clears it. */
  function RunningAfter(act: Action, running: bool): bool {
    running && !act.Stop?
  }

  /** The `flags` field is zero exactly when both of its bytes are, in
      either host byte order. */
  predicate FlagsSet(buf: seq<u8>)
    requires |buf| >= 2
  {
    buf[0] != 0 || buf[1] != 0
  }

  /** `read_packet` on a read that returned `readlen` (with `errno` set
      when negative) into the `PACKETLEN`-byte buffer `buf`: a failed read
      is ignored (with a warning unless EAGAIN), only a zero-length read
      stops the loop, a short read or a non-IPv4 frame is dropped, and an
      IPv4 frame's payload, exactly the bytes after the 4-byte header, is
      translated; non-zero flags only add a warning. */
  function ReadPacket(readlen: int, errno: int, buf: seq<u8>, toIpv6: bool): (act: Action)
    requires |buf| == PACKETLEN && readlen <= |buf|
    ensures act.Stop? <==> readlen == 0
    ensures act.Ignore? <==> readlen < 0
    ensures act.Ignore? ==> (act.warned <==> errno != EAGAIN)
    ensures act.Drop? <==> (0 < readlen < TUN_PI_LEN || (readlen >= TUN_PI_LEN && Be16(buf, 2) != ETH_P_IP))
    ensures act.Translate? ==>
              && readlen >= TUN_PI_LEN
              && Be16(buf, 2) == ETH_P_IP
              && act.packet == buf[TUN_PI_LEN..readlen]
              && |act.packet| == readlen - TUN_PI_LEN
              && act.toIpv6 == toIpv6
              && (act.flagsWarned <==> FlagsSet(buf))
  {
    if readlen < 0 then Ignore(errno != EAGAIN)
    else if readlen == 0 then Stop
    else if readlen < TUN_PI_LEN then Drop(ShortRead(readlen))
    else
      var proto := Be16(buf, 2);
      if proto != ETH_P_IP then Drop(UnknownProto(proto))
      else Translate(buf[TUN_PI_LEN..readlen], toIpv6, FlagsSet(buf))
  }

  /** The frame the tun driver writes for `payload`: `flags` in
      little-endian host order, then `proto` in network order. */
  function TunFrame(flags: u16, proto: u16, payload: seq<u8>): (f: seq<u8>)
    ensures |f| == TUN_PI_LEN + |payload|
  {
    [flags % 0x100, flags / 0x100] + Be16Bytes(proto) + payload
  }

  /** Reading a whole frame: an IPv4 frame is translated with its payload
      recovered exactly and a flags warning exactly when flags are set;
      any other protocol is dropped. Bytes after the frame do not matter. */
  lemma ReadFrame(flags: u16, proto: u16, payload: seq<u8>, rest: seq<u8>, errno: int, toIpv6: bool)
    requires |TunFrame(flags, proto, payload)| + |rest| == PACKETLEN
    ensures ReadPacket(|TunFrame(flags, proto, payload)|, errno, TunFrame(flags, proto, payload) + rest, toIpv6) ==
            if proto == ETH_P_IP then Translate(payload, toIpv6, flags != 0)
            else Drop(UnknownProto(proto))
  {
    var f := TunFrame(flags, proto, payload);
    var buf := f + rest;
    assert buf[2..4] == Be16Bytes(proto);
    assert Be16(buf, 2) == Be16(Be16Bytes(proto), 0);
    assert buf[TUN_PI_LEN..|f|] == payload;
    assert FlagsSet(buf) <==> flags != 0;
  }

  /** Conversely, everything handed to the translator is the payload of an
      IPv4 tun frame occupying the bytes read. */
  lemma TranslatedIsFramePayload(readlen: int, errno: int, buf: seq<u8>, toIpv6: bool)
    requires |buf| == PACKETLEN && readlen <= |buf|
    requires ReadPacket(readlen, errno, buf, toIpv6).Translate?
    ensures exists flags: u16 :: buf[..readlen] ==
              TunFrame(flags, ETH_P_IP, ReadPacket(readlen, errno, buf, toIpv6).packet)
  {
    var flags: u16 := buf[1] as int * 0x100 + buf[0] as int;
    var f := TunFrame(flags, ETH_P_IP, buf[TUN_PI_LEN..readlen]);
    assert f[0] == buf[0] && f[1] == buf[1];
    assert Be16Bytes(ETH_P_IP) == [buf[2], buf[3]];
    assert buf[..readlen] == f;
  }

  /** No read result outside a full IPv4 frame reaches the translator, and
      only a zero-length read touches `running`. */
  lemma NonFramesNeverTranslate(readlen: int, errno: int, buf: seq<u8>, toIpv6: bool, running: bool)
    requires |buf| == PACKETLEN && readlen <= |buf|
    requires readlen < TUN_PI_LEN || Be16(buf, 2) != ETH_P_IP
    ensures !ReadPacket(readlen, errno, buf, toIpv6).Translate?
    ensures RunningAfter(ReadPacket(readlen, errno, buf, toIpv6), running) == (running && readlen != 0)
  {
  }
}
