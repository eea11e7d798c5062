/** The receive filter attached to the IPv6 packet socket
    (`configure_packet_socket`): a fixed ten-instruction classic-BPF program
    that keeps exactly the packets whose IPv6 destination address is the
    translator's own address. */
module PacketFilter {
  import opened Words
  import opened Bpf
  import Limits

  /** The destination address occupies bytes 24..40 of the IPv6 header
      (section 3 of RFC 8200). */
  const DST_OFFSET: nat := 24
  const DST_END: nat := DST_OFFSET + 16

  /** Word `i` of an address in the order the filter compares it. The
      source builds the constant as `htonl` of the `s6_addr32` word, which
      on every host is the big-endian value of these four bytes, the same
      value a BPF word load produces. */
  function AddrWord(addr: Addr6, i: nat): u32
    requires i < 4
  {
    BeWord(addr, 4 * i)
  }

  /** The accept length the program returns. */
  const ACCEPT: u32 := Limits.PACKETLEN

  /** The filter program for local address `addr`. */
  function Program(addr: Addr6): (p: seq<SockFilter>)
    ensures |p| == 10
    ensures p[|p| - 1] == Stmt(RET_K, 0) && p[|p| - 2] == Stmt(RET_K, ACCEPT)
    ensures forall pc | 0 <= pc < |p| && p[pc].code == JEQ_K ::
              p[pc].jt == 0 && JumpTarget(pc, p[pc], false) == |p| - 1
    ensures forall pc | 0 <= pc < 8 ::
              if pc % 2 == 0 then p[pc] == Stmt(LD_W_ABS, DST_OFFSET + 2 * pc)
              else p[pc] == Jump(JEQ_K, AddrWord(addr, pc / 2), 0, (8 - pc) as u8)
  {
    [
      Stmt(LD_W_ABS, 24),
      Jump(JEQ_K, AddrWord(addr, 0), 0, 7),
      Stmt(LD_W_ABS, 28),
      Jump(JEQ_K, AddrWord(addr, 1), 0, 5),
      Stmt(LD_W_ABS, 32),
      Jump(JEQ_K, AddrWord(addr, 2), 0, 3),
      Stmt(LD_W_ABS, 36),
      Jump(JEQ_K, AddrWord(addr, 3), 0, 1),
      Stmt(RET_K, ACCEPT),
      Stmt(RET_K, 0)
    ]
  }

  /** Reference meaning of the filter: the packet is long enough to hold an
      IPv6 destination address and that address is `addr`. */
  predicate DestinedTo(pkt: seq<u8>, addr: Addr6) {
    |pkt| >= DST_END && pkt[DST_OFFSET..DST_END] == addr
  }

  /** The destination word `i` of a packet, as the filter loads it. */
  function DstWord(pkt: seq<u8>, i: nat): u32
    requires i < 4 && |pkt| >= DST_END
  {
    BeWord(pkt, DST_OFFSET + 4 * i)
  }

  /** One load/compare pair: from pc `2i` the program either rejects or
      continues at `2i + 2` with the address word in the accumulator. */
  lemma ComparePair(addr: Addr6, pkt: seq<u8>, i: nat, a: u32)
    requires i < 4
    ensures Exec(Program(addr), pkt, 2 * i, a) ==
            if DST_OFFSET + 4 * i + 4 > |pkt| then Ret(0)
            else if BeWord(pkt, DST_OFFSET + 4 * i) == AddrWord(addr, i)
            then Exec(Program(addr), pkt, 2 * i + 2, AddrWord(addr, i))
            else Ret(0)
  {
    var p := Program(addr);
    assert p[2 * i] == Stmt(LD_W_ABS, DST_OFFSET + 4 * i);
    assert p[2 * i + 1] == Jump(JEQ_K, AddrWord(addr, i), 0, (7 - 2 * i) as u8);
    if DST_OFFSET + 4 * i + 4 <= |pkt| {
      var w := BeWord(pkt, DST_OFFSET + 4 * i);
      assert Exec(p, pkt, 2 * i, a) == Exec(p, pkt, 2 * i + 1, w);
      if w == AddrWord(addr, i) {
        assert JumpTarget(2 * i + 1, p[2 * i + 1], true) == 2 * i + 2;
      } else {
        assert JumpTarget(2 * i + 1, p[2 * i + 1], false) == 9;
        assert Exec(p, pkt, 9, w) == Ret(0);
      }
    }
  }

  /** Word-level meaning: once the loads before pc `2i` have succeeded, the
      program accepts exactly when the packet holds a full destination
      address whose words from `i` on equal the address words. */
  lemma {:induction false} ProgramFrom(addr: Addr6, pkt: seq<u8>, i: nat, a: u32)
    requires i <= 4
    requires i == 0 || DST_OFFSET + 4 * i <= |pkt|
    ensures Exec(Program(addr), pkt, 2 * i, a) ==
            if |pkt| >= DST_END && forall j | i <= j < 4 :: DstWord(pkt, j) == AddrWord(addr, j)
            then Ret(ACCEPT) else Ret(0)
    decreases 4 - i
  {
    if i == 4 {
      AcceptAtEnd(addr, pkt, a);
    } else {
      ComparePair(addr, pkt, i, a);
      if DST_OFFSET + 4 * i + 4 <= |pkt| {
        ProgramFrom(addr, pkt, i + 1, AddrWord(addr, i));
        if |pkt| >= DST_END {
          assert (forall j | i <= j < 4 :: DstWord(pkt, j) == AddrWord(addr, j)) <==>
                 DstWord(pkt, i) == AddrWord(addr, i) &&
                 (forall j | i + 1 <= j < 4 :: DstWord(pkt, j) == AddrWord(addr, j));
        }
      }
    }
  }

  /** Past the last pair the program accepts. */
  lemma AcceptAtEnd(addr: Addr6, pkt: seq<u8>, a: u32)
    ensures Exec(Program(addr), pkt, 8, a) == Ret(ACCEPT)
  {
    var p := Program(addr);
    assert p[8] == Stmt(RET_K, ACCEPT);
  }

  /** What the program accepts, word by word: it returns the accept length
      exactly when the packet holds a full destination address whose four
      big-endian words equal the address words, and 0 otherwise. */
  lemma FilterWords(addr: Addr6, pkt: seq<u8>)
    ensures Run(Program(addr), pkt) ==
            if |pkt| >= DST_END && forall j | 0 <= j < 4 :: DstWord(pkt, j) == AddrWord(addr, j)
            then Ret(ACCEPT) else Ret(0)
  {
    ProgramFrom(addr, pkt, 0, 0);
  }

  /** Comparing the four words is comparing the sixteen bytes. */
  lemma DestinationWords(addr: Addr6, pkt: seq<u8>)
    requires |pkt| >= DST_END
    ensures (forall j | 0 <= j < 4 :: DstWord(pkt, j) == AddrWord(addr, j)) <==>
            pkt[DST_OFFSET..DST_END] == addr
  {
    forall j | 0 <= j < 4
      ensures DstWord(pkt, j) == AddrWord(addr, j) <==>
              pkt[DST_OFFSET + 4 * j..DST_OFFSET + 4 * j + 4] == addr[4 * j..4 * j + 4]
    {
      BeWordEqualIff(pkt, DST_OFFSET + 4 * j, addr, 4 * j);
    }
    var dst := pkt[DST_OFFSET..DST_END];
    if forall j | 0 <= j < 4 :: DstWord(pkt, j) == AddrWord(addr, j) {
      forall k | 0 <= k < 16
        ensures dst[k] == addr[k]
      {
        var j := k / 4;
        assert DstWord(pkt, j) == AddrWord(addr, j);
        var ps, as_ := pkt[DST_OFFSET + 4 * j..DST_OFFSET + 4 * j + 4], addr[4 * j..4 * j + 4];
        assert ps == as_;
        assert ps[k - 4 * j] == as_[k - 4 * j];
      }
    }
    if dst == addr {
      forall j | 0 <= j < 4
        ensures pkt[DST_OFFSET + 4 * j..DST_OFFSET + 4 * j + 4] == addr[4 * j..4 * j + 4]
      {
        var ps, as_ := pkt[DST_OFFSET + 4 * j..DST_OFFSET + 4 * j + 4], addr[4 * j..4 * j + 4];
        forall m | 0 <= m < 4
          ensures ps[m] == as_[m]
        {
          assert dst[4 * j + m] == addr[4 * j + m];
        }
        assert ps == as_;
      }
    }
  }

  /** The filter keeps a packet exactly when it is destined to `addr`:
      full accept length for a matching destination, 0 for anything else,
      including packets too short to hold a destination address. */
  lemma FilterAcceptsExactly(addr: Addr6, pkt: seq<u8>)
    ensures Run(Program(addr), pkt) == if DestinedTo(pkt, addr) then Ret(ACCEPT) else Ret(0)
  {
    FilterWords(addr, pkt);
    if |pkt| >= DST_END {
      DestinationWords(addr, pkt);
    }
  }

  /** A packet whose destination differs from `addr` in any one byte, the
      first and the last included, is rejected. */
  lemma FilterRejectsByteMismatch(addr: Addr6, pkt: seq<u8>, i: nat)
    requires i < 16 && |pkt| >= DST_END
    requires pkt[DST_OFFSET + i] != addr[i]
    ensures Run(Program(addr), pkt) == Ret(0)
  {
    FilterAcceptsExactly(addr, pkt);
    assert pkt[DST_OFFSET..DST_END][i] != addr[i];
  }

  /** A packet carrying `addr` as its destination is accepted, whatever its
      other bytes. */
  lemma FilterAcceptsOwnAddress(addr: Addr6, hdr: seq<u8>, rest: seq<u8>)
    requires |hdr| == DST_OFFSET
    ensures Run(Program(addr), hdr + addr + rest) == Ret(ACCEPT)
  {
    var pkt := hdr + addr + rest;
    assert pkt[DST_OFFSET..DST_END] == addr;
    FilterAcceptsExactly(addr, pkt);
  }
}
