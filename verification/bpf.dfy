/** Classic BPF as used by a Linux socket filter (`struct sock_filter`),
    restricted to the three instruction forms the receive filter uses:
    load a 32-bit word at an absolute offset, jump-if-equal against a
    constant, and return a constant. */
module Bpf {
  import opened Words

  /** One `struct sock_filter`: opcode, true/false jump offsets, constant. */
  datatype SockFilter = SockFilter(code: bv16, jt: u8, jf: u8, k: u32)

  // Opcode fields from <linux/filter.h>.
  const BPF_LD: bv16 := 0x00
  const BPF_JMP: bv16 := 0x05
  const BPF_RET: bv16 := 0x06
  const BPF_W: bv16 := 0x00
  const BPF_ABS: bv16 := 0x20
  const BPF_JEQ: bv16 := 0x10
  const BPF_K: bv16 := 0x00

  const LD_W_ABS: bv16 := BPF_LD | BPF_W | BPF_ABS
  const JEQ_K: bv16 := BPF_JMP | BPF_JEQ | BPF_K
  const RET_K: bv16 := BPF_RET | BPF_K

  /** `BPF_STMT(code, k)` */
  function Stmt(code: bv16, k: u32): SockFilter {
    SockFilter(code, 0, 0, k)
  }

  /** `BPF_JUMP(code, k, jt, jf)` */
  function Jump(code: bv16, k: u32, jt: u8, jf: u8): SockFilter {
    SockFilter(code, jt, jf, k)
  }

  /** What running a filter on a packet yields: the number of bytes to keep
      (0 drops the packet), or `Malformed` for a program the kernel's
      checker would refuse (an unknown opcode, or control leaving the
      program without a return). */
  datatype Verdict = Ret(keep: u32) | Malformed

  /** The pc a conditional jump at `pc` continues at: offsets are relative
      to the next instruction. */
  function JumpTarget(pc: nat, ins: SockFilter, taken: bool): (next: nat)
    ensures next > pc
  {
    pc + 1 + (if taken then ins.jt else ins.jf)
  }

  /** Runs `prog` on `pkt` from instruction `pc` with accumulator `a`.
      A word load that reaches past the end of the packet ends the run
      with 0, as the kernel interpreter does. Whatever the packet, the
      run keeps either nothing or the constant of a return instruction at
      or after `pc`. */
  function Exec(prog: seq<SockFilter>, pkt: seq<u8>, pc: nat, a: u32): (v: Verdict)
    ensures v.Ret? && v.keep != 0 ==>
              exists j | pc <= j < |prog| :: prog[j].code == RET_K && prog[j].k == v.keep
    decreases |prog| - pc
  {
    if pc >= |prog| then Malformed
    else
      var ins := prog[pc];
      if ins.code == LD_W_ABS then
        if ins.k + 4 <= |pkt| then Exec(prog, pkt, pc + 1, BeWord(pkt, ins.k)) else Ret(0)
      else if ins.code == JEQ_K then
        Exec(prog, pkt, JumpTarget(pc, ins, a == ins.k), a)
      else if ins.code == RET_K then
        Ret(ins.k)
      else
        Malformed
  }

  /** A filter run starts at the first instruction with a zero accumulator. */
  function Run(prog: seq<SockFilter>, pkt: seq<u8>): Verdict {
    Exec(prog, pkt, 0, 0)
  }

  /** The interpreter as a loop: the same verdict as the recursive
      definition, one instruction per iteration. */
  method Interpret(prog: seq<SockFilter>, pkt: seq<u8>) returns (v: Verdict)
    ensures v == Run(prog, pkt)
  {
    var pc: nat, a: u32 := 0, 0;
    while pc < |prog|
      invariant Exec(prog, pkt, pc, a) == Run(prog, pkt)
      decreases |prog| - pc
    {
      var ins := prog[pc];
      if ins.code == LD_W_ABS {
        if ins.k + 4 <= |pkt| {
          a := BeWord(pkt, ins.k);
          pc := pc + 1;
        } else {
          return Ret(0);
        }
      } else if ins.code == JEQ_K {
        pc := JumpTarget(pc, ins, a == ins.k);
      } else if ins.code == RET_K {
        return Ret(ins.k);
      } else {
        return Malformed;
      }
    }
    return Malformed;
  }
}
