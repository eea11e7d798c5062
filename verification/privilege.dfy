/** Dropping root while keeping the three capabilities the daemon needs
    (`set_capability`, `drop_root_but_keep_caps`). */
module Privilege {
  import opened Steps

  /** A capability number: the bit position of the capability in a
      64-bit set. */
  type Cap = c: bv8 | c < 64

  // Capability numbers from <linux/capability.h>.
  const CAP_NET_ADMIN: Cap := 12
  const CAP_NET_RAW: Cap := 13
  const CAP_IPC_LOCK: Cap := 14

  // Android ids from android_filesystem_config.h.
  const AID_VPN: int := 1016
  const AID_CLAT: int := 1029
  const AID_INET: int := 3003

  /** One `struct __user_cap_data_struct`: 32 bits of each capability set. */
  datatype CapData = CapData(effective: bv32, permitted: bv32, inheritable: bv32)

  /** The two data words `set_capability` hands to `capset`: every set gets
      the low 32 bits of `target` in word 0 and the high 32 bits in word 1. */
  function CapWords(target: bv64): (cap: seq<CapData>)
    ensures |cap| == 2
    ensures forall i | 0 <= i < 2 ::
              cap[i].permitted == cap[i].effective && cap[i].effective == cap[i].inheritable
    ensures (cap[1].permitted as bv64 << 32) | (cap[0].permitted as bv64) == target
  {
    var lo := (target & 0xFFFF_FFFF) as bv32;
    var hi := (target >> 32) as bv32;
    [CapData(lo, lo, lo), CapData(hi, hi, hi)]
  }

  /** Whether capability `c` is in a set given as two 32-bit words, the way
      the kernel reads them: bit `c % 32` of word `c / 32`. */
  predicate InWords(lo: bv32, hi: bv32, c: Cap) {
    var w := if c < 32 then lo else hi;
    (w >> (c & 31)) & 1 == 1
  }

  /** Bit `c` of a 64-bit mask. */
  predicate Bit(mask: bv64, c: Cap) {
    (mask >> c) & 1 == 1
  }

  /** Capability `c` is in the permitted, effective and inheritable sets
      written for `target` exactly when bit `c` of `target` is set. */
  lemma CapWordsBits(target: bv64, c: Cap)
    ensures var cap := CapWords(target);
            && (InWords(cap[0].permitted, cap[1].permitted, c) <==> Bit(target, c))
            && (InWords(cap[0].effective, cap[1].effective, c) <==> Bit(target, c))
            && (InWords(cap[0].inheritable, cap[1].inheritable, c) <==> Bit(target, c))
  {
    SplitBits(target, c);
  }

  /** The bit-level fact behind `CapWordsBits`, on bit-vectors alone. */
  lemma SplitBits(target: bv64, b: bv8)
    requires b < 64
    ensures var lo, hi := (target & 0xFFFF_FFFF) as bv32, (target >> 32) as bv32;
            ((if b < 32 then lo else hi) >> (b & 31)) & 1 == 1 <==> (target >> b) & 1 == 1
  {
  }

  /** The mask `drop_root_but_keep_caps` keeps. */
  const KEPT_CAPS: bv64 := (1 << CAP_NET_ADMIN) | (1 << CAP_NET_RAW) | (1 << CAP_IPC_LOCK)

  /** The kept sets are exactly {CAP_NET_ADMIN, CAP_NET_RAW, CAP_IPC_LOCK}. */
  lemma KeptCapsExactly(c: Cap)
    ensures var cap := CapWords(KEPT_CAPS);
            InWords(cap[0].effective, cap[1].effective, c) <==>
              c == CAP_NET_ADMIN || c == CAP_NET_RAW || c == CAP_IPC_LOCK
  {
    CapWordsBits(KEPT_CAPS, c);
    KeptBit(c);
  }

  /** The set bits of `KEPT_CAPS`. */
  lemma KeptBit(c: Cap)
    ensures Bit(KEPT_CAPS, c) <==> c == 12 || c == 13 || c == 14
  {
    assert KEPT_CAPS == 0x7000;
  }

  /** The calls `drop_root_but_keep_caps` makes. */
  datatype Syscall =
    | SetGroups(groups: seq<int>)
    | KeepCaps
    | SetResGid(rgid: int, egid: int, sgid: int)
    | SetResUid(ruid: int, euid: int, suid: int)
    | CapSet(data: seq<CapData>)

  // The five calls, with the arguments the source passes.
  const SET_GROUPS: Syscall := SetGroups([AID_INET, AID_VPN])
  const SET_RES_GID: Syscall := SetResGid(AID_CLAT, AID_CLAT, AID_CLAT)
  const SET_RES_UID: Syscall := SetResUid(AID_CLAT, AID_CLAT, AID_CLAT)
  const CAP_SET: Syscall := CapSet(CapWords(KEPT_CAPS))

  /** The calls in source order; only `prctl(PR_SET_KEEPCAPS)` has its
      result ignored. */
  const DROP_PLAN: seq<Step<Syscall>> := [
    Step(SET_GROUPS, true),
    Step(KeepCaps, false),
    Step(SET_RES_GID, true),
    Step(SET_RES_UID, true),
    Step(CAP_SET, true)
  ]

  /** `drop_root_but_keep_caps`, with `ok` telling which calls succeed.
      The process either completes every step, ending with the capability
      sets narrowed to the kept mask, or exits at the first failing
      checked call, making no call after it; capabilities are only
      narrowed after the group and user identity have been switched. */
  function DropRootButKeepCaps(ok: Syscall -> bool): (o: Outcome<Syscall>)
    ensures o.exited <==> !ok(SET_GROUPS) || !ok(SET_RES_GID) || !ok(SET_RES_UID) || !ok(CAP_SET)
    ensures !ok(SET_GROUPS) ==> o.performed == [SET_GROUPS]
    ensures ok(SET_GROUPS) && !ok(SET_RES_GID) ==> o.performed == [SET_GROUPS, KeepCaps, SET_RES_GID]
    ensures ok(SET_GROUPS) && ok(SET_RES_GID) && !ok(SET_RES_UID) ==>
              o.performed == [SET_GROUPS, KeepCaps, SET_RES_GID, SET_RES_UID]
    ensures ok(SET_GROUPS) && ok(SET_RES_GID) && ok(SET_RES_UID) ==>
              o.performed == [SET_GROUPS, KeepCaps, SET_RES_GID, SET_RES_UID, CAP_SET]
    ensures forall i | 0 <= i < |o.performed| && o.performed[i].CapSet? ::
              i == 4 && ok(SET_RES_UID) && ok(SET_RES_GID)
  {
    var o := Perform(DROP_PLAN, ok);
    assert FailsFatally(DROP_PLAN[0], ok) <==> !ok(SET_GROUPS);
    assert !FailsFatally(DROP_PLAN[1], ok);
    assert FailsFatally(DROP_PLAN[2], ok) <==> !ok(SET_RES_GID);
    assert FailsFatally(DROP_PLAN[3], ok) <==> !ok(SET_RES_UID);
    assert FailsFatally(DROP_PLAN[4], ok) <==> !ok(CAP_SET);
    assert forall i | 0 <= i < 4 :: !DROP_PLAN[i].effect.CapSet?;
    o
  }
}
