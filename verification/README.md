# clatd core decisions, modelled in Dafny

clatd is the Android 464XLAT client-side translator (CLAT). It brings up an
IPv4 tun interface, picks an IPv6 address on the uplink's /64, installs a
receive filter on an IPv6 packet socket so that only packets sent to that
address reach it, drops root while keeping three capabilities, and then runs
an event loop that moves packets between the two sides and watches the
uplink for a prefix change.

This project models the decision logic inside `clatd.c` as pure functions
over explicit inputs. Every syscall and every collaborator whose body lives
in another file becomes an input: poll results, read results, the clock,
the answers of `add_address`/`if_up`/`setsockopt`/`bind`, the uplink's
address, and whether a signal arrived.

| file | module | what it models |
|---|---|---|
| `words.dfy` | `Words` | machine integer ranges, `Option`, big-endian byte/word conversion |
| `limits.dfy` | `Limits` | `MAXMTU`, `PACKETLEN`, the tun header length, the IPv6 minimum MTU, `MTU_DELTA` |
| `bpf.dfy` | `Bpf` | `struct sock_filter` and a classic-BPF interpreter for LD W ABS, JEQ K and RET K |
| `filter.dfy` | `PacketFilter` | the ten-instruction receive filter of `configure_packet_socket`, and what it accepts |
| `mtu.dfy` | `Mtu` | the MTU normalisation block of `configure_interface` |
| `tunread.dfy` | `TunRead` | `read_packet`'s classification of one tun read |
| `prefix.dfy` | `Prefix` | `ipv6_address_changed`, and the /64 address of `clat_ipv6_address_from_interface` |
| `steps.dfy` | `Steps` | a run of checked calls in which the first fatal failure ends the process |
| `privilege.dfy` | `Privilege` | `set_capability`'s word split, and the call order of `drop_root_but_keep_caps` |
| `configure.dfy` | `Configure` | `configure_tun_ip`, `configure_clat_ipv6_address`, `configure_interface` as call traces |
| `eventloop.dfy` | `EventLoop` | one `event_loop` iteration as a step function, and the loop over a sequence of inputs |

Main results:

- `PacketFilter.FilterAcceptsExactly`: the generated filter returns
  `PACKETLEN` exactly for packets whose bytes 24..40 are the translator's
  address. It returns 0 for every other packet, including packets too
  short to hold a destination address.
- `Mtu.NormalizeEstablishes` / `Mtu.ProbeNotCapped`: normalisation always
  leaves `mtu >= 1280` and `0 < ipv4mtu <= mtu - 28`. `getifmtu`'s result is
  not capped again, so `mtu <= MAXMTU` and idempotence hold only when the
  probe is at most `MAXMTU`. `ProbeNotCapped` shows a larger probe breaking
  both.
- `TunRead.ReadPacket`, `TunRead.ReadFrame` and
  `TunRead.TranslatedIsFramePayload` say the following:
  - only a zero-length read stops the loop;
  - only the payload of a well-formed IPv4 tun frame is translated;
  - every translated payload is such a payload.
- `Privilege.CapWordsBits` / `Privilege.KeptCapsExactly`: the kept
  capability sets are exactly {CAP_NET_ADMIN, CAP_NET_RAW, CAP_IPC_LOCK}.
  Each set is identical across permitted, effective and inheritable.
- `Configure.ConfigureOrder`:
  - the tun interface is brought up only after its address was assigned;
  - the IPv6 side is touched only after that;
  - the installed filter is the one for the address just registered;
  - any checked failure ends the process (`Configure.ConfigureSucceedsIff`).
- `EventLoop.LoopStopsAtFirstHalt`, `EventLoop.CheckStaysDue` and
  `EventLoop.BreakKeepsRunning` say the following:
  - the loop runs exactly until the first iteration that is signalled, reads
    a zero-length frame, or finds a changed prefix on a due check;
  - `last_interface_poll` is never refreshed, so once the check is due it
    runs on every later iteration, as long as the clock does not go back;
  - the prefix-change `break` does not clear `running`.

## Model

| member | source | states |
|---|---|---|
| Bpf.Exec | clatd.c:80-92 | classic-BPF semantics for LD W ABS, JEQ K and RET K (an out-of-range load returns 0, a jump goes to pc+1+offset); a run keeps either nothing or the constant of a return instruction at or after its start |
| Bpf.Interpret | clatd.c:80-92 | the one-instruction-per-iteration interpreter returns the same verdict as the recursive filter semantics the filter lemmas are stated in |
| PacketFilter.Program | clatd.c:80-92 | the filter has 10 instructions; it ends with RET PACKETLEN then RET 0; every JEQ has true offset 0 and its false branch lands on the final RET 0; pair i loads the word at 24+4i and compares it with address word i |
| PacketFilter.ComparePair | clatd.c:80-87 | from instruction 2i the program rejects a packet too short for word i or whose word i differs, and otherwise continues at 2i+2 |
| PacketFilter.ProgramFrom | clatd.c:80-92 | from pair i on, the program accepts exactly when the packet holds a full destination and its words i..3 equal the address words |
| PacketFilter.FilterWords | clatd.c:80-92 | the program returns PACKETLEN iff the packet has at least 40 bytes and the big-endian words at offsets 24, 28, 32 and 36 equal the four address words; otherwise it returns 0 |
| PacketFilter.DestinationWords | clatd.c:75-79 | comparing the four big-endian words is the same as comparing the 16 destination bytes with the address |
| PacketFilter.FilterAcceptsExactly | clatd.c:70-92 | the filter keeps (returns PACKETLEN for) exactly the packets destined to the translator's address and returns 0 for all others |
| PacketFilter.FilterRejectsByteMismatch | clatd.c:80-91 | a single differing destination byte, at any position, makes the filter return 0 |
| PacketFilter.FilterAcceptsOwnAddress | clatd.c:80-90 | any packet whose destination field is the address is accepted, whatever its other bytes |
| Mtu.ClampMtu | clatd.c:364-375 | the uplink MTU ends at least 1280; a positive configured value is capped at MAXMTU and raised to 1280; a non-positive one is replaced by the probe raised to 1280 and not capped |
| Mtu.ClampIpv4Mtu | clatd.c:377-381 | an IPv4 MTU in (0, mtu-28] is kept, and anything else becomes exactly mtu-28 |
| Mtu.Normalize | clatd.c:364-381 | after normalisation mtu >= 1280 and 0 < ipv4mtu <= mtu-28; mtu <= MAXMTU when the configured mtu was positive or the probe was at most MAXMTU |
| Mtu.NormalizeEstablishes | clatd.c:364-381 | normalisation establishes the MTU invariant when the probe is at most MAXMTU |
| Mtu.NormalizeKeepsNormalized | clatd.c:364-381 | a configuration that already satisfies the invariant is left unchanged |
| Mtu.NormalizeIdempotent | clatd.c:364-381 | normalising twice equals normalising once, provided the first probe was at most MAXMTU |
| Mtu.ProbeNotCapped | clatd.c:368-371 | with no configured MTU and a probe above MAXMTU, the result is the probe and breaks the invariant, and a second pass changes it |
| TunRead.ReadPacket | clatd.c:396-431 | read_packet: a negative read is ignored (warning unless EAGAIN); only a zero read stops; a short read or non-0x0800 proto is dropped; an IPv4 frame translates exactly buf[4..readlen] in the requested direction; non-zero flags only warn |
| TunRead.ReadFrame | clatd.c:413-431 | reading a whole tun frame translates its payload exactly, with a flags warning iff flags are non-zero, or drops it for any other protocol |
| TunRead.TranslatedIsFramePayload | clatd.c:413-431 | whatever is translated is the payload of an IPv4 tun frame occupying the bytes read |
| TunRead.NonFramesNeverTranslate | clatd.c:402-420 | short reads, failed reads and non-IPv4 frames never reach the translator, and only a zero read clears running |
| Prefix.AddressChanged | clatd.c:256-277 | ipv6_address_changed: 1 when no address is found; 0 exactly when an address exists and its prefix equals the stored one |
| Prefix.LocalAddress | clatd.c:284-299 | the derived address keeps the uplink address's /64 and carries the generated interface id in its low 64 bits |
| Prefix.ChangedIffPrefixMoved | clatd.c:256-299 | for an address derived from uplink u, a change is reported exactly when the uplink's address is gone or has left u's /64 |
| Prefix.FreshAddressUnchanged | clatd.c:256-299 | right after derivation, the uplink's own address is not reported as a change |
| Steps.Perform | clatd.c:164-177 | a run of checked calls: the calls made are a prefix of the plan; the process exits iff some fatal call fails; if it exits, the last call made is the first failing fatal call |
| Privilege.CapWords | clatd.c:184-192 | two data words; all three sets are equal in each; word 0 is the low and word 1 the high 32 bits, recombining to the target |
| Privilege.CapWordsBits | clatd.c:184-192 | capability c is in each written set exactly when bit c of the target mask is set |
| Privilege.KeptCapsExactly | clatd.c:222-225 | the kept sets hold exactly CAP_NET_ADMIN, CAP_NET_RAW and CAP_IPC_LOCK |
| Privilege.DropRootButKeepCaps | clatd.c:203-226 | the process exits iff setgroups, setresgid, setresuid or capset fails; the calls run in source order and stop at the first failing checked call (no setresuid after a failed setresgid, for example); capset is only reached after setresgid and setresuid succeeded |
| Configure.Ipv4Address | clatd.c:117-158 | the IPv4 address is the parsed command-line address when given; otherwise it is the selected free address, and the process exits when that is INADDR_NONE |
| Configure.ConfigureTunIp | clatd.c:153-178 | assigns the /32 address before if_up with the IPv4 MTU; exits iff either fails; if_up is not attempted after a failed address assignment |
| Configure.ClatIpv6Address | clatd.c:284-314 | the command-line IPv6 address when given, otherwise an address in the uplink's /64; fails when the uplink has no address |
| Configure.ConfigureClatIpv6Address | clatd.c:322-347 | registers the anycast address, then attaches the filter for that address, then binds; fails iff attach or bind fails, and bind is not attempted after a failed attach |
| Configure.ConfigureInterface | clatd.c:356-388 | a surviving configuration made exactly the five calls in order, with the normalised IPv4 MTU and the filter program for the chosen IPv6 address |
| Configure.ConfigureSucceedsIff | clatd.c:356-388 | configuration survives exactly when the configuration is read, both addresses are obtained, and add_address, if_up, the filter attach and bind all succeed |
| Configure.TraceIsPrefix | clatd.c:356-388 | whatever fails, the calls made are a prefix, of length other than 3, of the complete five-call sequence for the chosen IPv4 address and the chosen IPv6 address; if_up is made only after add_address succeeded, the IPv6 calls only after if_up succeeded, and bind only after the filter attach succeeded |
| Configure.ConfigureOrder | clatd.c:356-388 | if_up comes only second, after a successful address assignment, with the normalised IPv4 MTU; IPv6 calls come only after if_up; the attached filter is the program for the address just registered |
| Configure.ConfiguredMtuNormalized | clatd.c:364-381 | a surviving configuration satisfies the MTU invariant when the probe is at most MAXMTU |
| EventLoop.SocketWork | clatd.c:453-461 | the ring is read iff the packet socket reports POLLIN, and its error is cleared iff it reports any other bit; each happens at most once, the ring read first |
| EventLoop.Service | clatd.c:449-469 | running stays set unless the tun descriptor was ready and its read returned 0 |
| EventLoop.ServiceWork | clatd.c:449-469 | a failed poll, EINTR included, does nothing; otherwise the socket work follows its revents and read_packet runs iff the tun descriptor reported anything, after the socket work |
| EventLoop.Step | clatd.c:446-480 | an iteration breaks iff the check is due and the prefix changed; running survives iff it was set, no signal arrived and no zero-length tun read happened |
| EventLoop.StepWork | clatd.c:446-480 | the prefix check runs iff more than 30 seconds have passed since the loop started, and a failed poll performs no reads |
| EventLoop.Loop | clatd.c:446-480 | the loop never sets running again; ending Stopped means running is clear; with running clear on entry, no iteration runs |
| EventLoop.LoopStopsAtFirstHalt | clatd.c:446-480 | the loop runs exactly until the first halting iteration (a signal, a zero read, or a due check seeing a change); every earlier iteration did not halt |
| EventLoop.LoopEndsAtStop | clatd.c:59-64 | a signal or zero-length read in a reached iteration makes that the last iteration and leaves running clear |
| EventLoop.BreakKeepsRunning | clatd.c:474-478 | leaving through the prefix-change break leaves running set unless that same iteration was signalled or read a zero-length frame |
| EventLoop.CheckStaysDue | clatd.c:443-477 | last_interface_poll is never refreshed, so with a clock that does not go back, once the check is due it runs in every later iteration |
| EventLoop.RunEventLoop | clatd.c:446-480 | the while loop as written (test running, run the body, break on a prefix change) computes exactly the recursive loop semantics |

## Left out

- Socket creation, `setsockopt(SO_ATTACH_FILTER)` and `bind` in `configure_packet_socket`, and `open_sockets` (clatd.c:94-110, 233-254) are kernel I/O. Only the filter program and its meaning are modelled. Their success or failure is an input in `Configure`.
- `translate_packet`, `ring_read` and `ring_create` are not part of this model. `read_packet`'s hand-off is the `Translate` action, and `ring_read` is the `RingRead` work item.
- `read_config`, `config_select_ipv4_address`, `config_generate_local_ipv6_subnet`, `getinterface_ip`, `getifmtu`, `add_address`, `if_up` and `add_anycast_address` are defined in files outside this model. Their answers are fields of `Configure.Env` or `EventLoop.Input`.
- `ipv6_prefix_equal` lives in a file outside this model. `Prefix.AddressChanged` takes the comparison as a parameter. `Prefix64Equal`, a /64 comparison, is its intended meaning and is used in the lemmas.
- `config_generate_local_ipv6_subnet` is modelled only as "keep the uplink's /64, replace the low 64 bits by an interface id". The id is an input.
- The `inet_pton` grammar (clatd.c:140-147, 307-314) is not modelled. A parse result is an `Option` input.
- `MAXMTU`, `PACKETLEN` and `INTERFACE_POLL_FREQUENCY` are defined in clatd.h, which is not part of this model. `Limits` uses 65536 and 65536+4, and `EventLoop` uses 30 seconds. The MTU lemmas are generic in the ceiling and assume only that it is at least 1280.
- The C types of the configuration's `mtu` and `ipv4mtu` fields are declared in config.h, which is not part of this model. They are unbounded `int`s here, so no overflow of `mtu - 28` or of the stored `getifmtu` result is modelled.
- The byte order of the tun header's `flags` is host order. `TunRead.FlagsSet` does not depend on it. `TunRead.TunFrame` writes the flags little-endian.
- BPF semantics outside the three opcodes the filter uses are not modelled. An unknown opcode, or running off the program, yields `Malformed`. A word load past the packet's end returns 0, as Linux does.
- The privilege syscalls are not modelled beyond their order and their fail-then-exit behaviour. Their results are the `ok` parameter.
- EventLoop.CheckStaysDue: assumes a clock that does not go back, because `time(NULL)` is a wall clock that can be set back. After a backward step the check is not due again until the clock catches up. `Step` and `Loop` handle that case as the source does.
- Signal delivery, the real-time behaviour of `poll` and `time`, and the `NO_TRAFFIC_INTERFACE_POLL_FREQUENCY` timeout are not modelled. A signal (`stop_loop`, clatd.c:64) is a per-iteration `signalled` input that clears `running`. The clock is the `now` input.
- Logging and `strerror` text are not modelled. `Ignore.warned` and `Translate.flagsWarned` only record whether a warning is issued.
- The real `ipv6_address_changed` runs only when the check is due. The model's `addressChanged` input is consulted only in that case.
