/** Bringing the translator up (`configure_interface` and the routines it
    calls): read the configuration, normalise the MTUs, give the tun
    interface its IPv4 address before bringing it up, then pick the IPv6
    address, register it with the raw socket and install the receive
    filter for it. Every collaborator's answer is an input (`Env`). */
module Configure {
  import opened Words
  import opened Limits
  import opened Mtu
  import opened Bpf
  import opened PacketFilter
  import opened Prefix
  import opened Steps

  /** `config_select_ipv4_address`'s answer when the subnet is full. */
  const INADDR_NONE: Addr4 := 0xFFFF_FFFF

  /** What the collaborators answer during one configuration attempt. */
  datatype Env = Env(
    config: Option<MtuConfig>,  // read_config; None when it fails
    ifMtu: int,                 // getifmtu on the uplink
    v4Parsed: Option<Addr4>,    // inet_pton of the command-line IPv4 address
    v4Selected: Addr4,          // config_select_ipv4_address
    addAddressStatus: int,      // add_address; negative is an error
    ifUpStatus: int,            // if_up; negative is an error
    v6Parsed: Option<Addr6>,    // inet_pton of the command-line IPv6 address
    uplinkV6: Option<Addr6>,    // getinterface_ip(uplink, AF_INET6)
    iid: Iid,                   // interface id from config_generate_local_ipv6_subnet
    attachOk: bool,             // setsockopt(SO_ATTACH_FILTER)
    bindOk: bool)               // bind of the packet socket

  /** The kernel-visible calls, in the order they are made. */
  datatype Effect =
    | AddAddress4(addr4: Addr4, prefixLen: nat)
    | IfUp(mtu: int)
    | AddAnycast(addr6: Addr6)
    | AttachFilter(prog: seq<SockFilter>)
    | BindPacketSocket

  /** Whether a call succeeds in `env`; `add_anycast_address`'s result is
      never looked at, so it is treated as always succeeding. */
  function Succeeds(env: Env): Effect -> bool {
    (e: Effect) =>
      match e
      case AddAddress4(_, _) => env.addAddressStatus >= 0
      case IfUp(_) => env.ifUpStatus >= 0
      case AddAnycast(_) => true
      case AttachFilter(_) => env.attachOk
      case BindPacketSocket => env.bindOk
  }

  /** `ipv4_address_from_cmdline` / `ipv4_address_generate`: `None` means
      the process exits (unparsable address, or no free address). */
  function Ipv4Address(v4Given: bool, env: Env): (a: Option<Addr4>)
    ensures v4Given ==> a == env.v4Parsed
    ensures !v4Given ==> (a.None? <==> env.v4Selected == INADDR_NONE)
    ensures !v4Given && a.Some? ==> a.value == env.v4Selected
  {
    if v4Given then env.v4Parsed
    else if env.v4Selected == INADDR_NONE then None
    else Some(env.v4Selected)
  }

  /** `configure_tun_ip`: assign the /32 address, then bring the interface
      up with the IPv4 MTU; each failure exits. */
  function ConfigureTunIp(v4Given: bool, ipv4mtu: int, env: Env): (o: Outcome<Effect>)
    ensures Ipv4Address(v4Given, env).None? ==> o == Outcome([], true)
    ensures Ipv4Address(v4Given, env).Some? ==>
              var a := Ipv4Address(v4Given, env).value;
              && (o.exited <==> env.addAddressStatus < 0 || env.ifUpStatus < 0)
              && (env.addAddressStatus < 0 ==> o.performed == [AddAddress4(a, 32)])
              && (env.addAddressStatus >= 0 ==> o.performed == [AddAddress4(a, 32), IfUp(ipv4mtu)])
  {
    match Ipv4Address(v4Given, env)
    case None => Outcome([], true)
    case Some(a) =>
      var plan := [Step(AddAddress4(a, 32), true), Step(IfUp(ipv4mtu), true)];
      var o := Perform(plan, Succeeds(env));
      assert FailsFatally(plan[0], Succeeds(env)) <==> env.addAddressStatus < 0;
      assert FailsFatally(plan[1], Succeeds(env)) <==> env.ifUpStatus < 0;
      o
  }

  /** `clat_ipv6_address_from_cmdline` / `clat_ipv6_address_from_interface`:
      the command-line address, or the uplink's /64 with the generated
      interface id; `None` is a failure the caller reports. */
  function ClatIpv6Address(v6Given: bool, env: Env): (a: Option<Addr6>)
    ensures v6Given ==> a == env.v6Parsed
    ensures !v6Given ==> (a.None? <==> env.uplinkV6.None?)
    ensures !v6Given && a.Some? ==> Prefix64Equal(a.value, env.uplinkV6.value)
  {
    if v6Given then env.v6Parsed
    else
      match env.uplinkV6
      case None => None
      case Some(u) => Some(LocalAddress(u, env.iid))
  }

  /** The calls `configure_clat_ipv6_address` makes for address `a`: the
      anycast registration (result ignored), then `configure_packet_socket`,
      which attaches the filter for `a` and binds the socket. */
  function Ipv6Plan(a: Addr6): seq<Step<Effect>> {
    [Step(AddAnycast(a), false), Step(AttachFilter(Program(a)), true), Step(BindPacketSocket, true)]
  }

  /** `configure_clat_ipv6_address`: `exited` here stands for its 0 return. */
  function ConfigureClatIpv6Address(v6Given: bool, env: Env): (o: Outcome<Effect>)
    ensures ClatIpv6Address(v6Given, env).None? ==> o == Outcome([], true)
    ensures ClatIpv6Address(v6Given, env).Some? ==>
              var a := ClatIpv6Address(v6Given, env).value;
              && (o.exited <==> !env.attachOk || !env.bindOk)
              && o.performed == if env.attachOk then [AddAnycast(a), AttachFilter(Program(a)), BindPacketSocket]
                                else [AddAnycast(a), AttachFilter(Program(a))]
  {
    match ClatIpv6Address(v6Given, env)
    case None => Outcome([], true)
    case Some(a) =>
      var plan := Ipv6Plan(a);
      assert !FailsFatally(plan[0], Succeeds(env));
      assert FailsFatally(plan[1], Succeeds(env)) <==> !env.attachOk;
      assert FailsFatally(plan[2], Succeeds(env)) <==> !env.bindOk;
      Perform(plan, Succeeds(env))
  }

  /** The configuration a successful run leaves in place. */
  datatype Session = Session(mtu: MtuConfig, ipv4: Addr4, ipv6: Addr6)

  /** Result of `configure_interface`: the calls made, and the session, or
      `None` when the process exited with status 1. */
  datatype Configured = Configured(trace: seq<Effect>, session: Option<Session>)

  /** `configure_interface`. */
  function ConfigureInterface(v4Given: bool, v6Given: bool, env: Env): (r: Configured)
    ensures env.config.None? ==> r == Configured([], None)
    ensures r.session.Some? ==>
              && env.config.Some?
              && r.session.value.mtu == Normalize(env.config.value, MAXMTU, env.ifMtu)
              && Ipv4Address(v4Given, env) == Some(r.session.value.ipv4)
              && ClatIpv6Address(v6Given, env) == Some(r.session.value.ipv6)
              && r.trace == [
                   AddAddress4(r.session.value.ipv4, 32),
                   IfUp(r.session.value.mtu.ipv4mtu),
                   AddAnycast(r.session.value.ipv6),
                   AttachFilter(Program(r.session.value.ipv6)),
                   BindPacketSocket]
  {
    match env.config
    case None => Configured([], None)
    case Some(c) =>
      var mtu := Normalize(c, MAXMTU, env.ifMtu);
      var tun := ConfigureTunIp(v4Given, mtu.ipv4mtu, env);
      if tun.exited then Configured(tun.performed, None)
      else
        var v6 := ConfigureClatIpv6Address(v6Given, env);
        if v6.exited then Configured(tun.performed + v6.performed, None)
        else
          Configured(tun.performed + v6.performed,
                     Some(Session(mtu, Ipv4Address(v4Given, env).value, ClatIpv6Address(v6Given, env).value)))
  }

  /** Every collaborator call the configuration depends on succeeded. */
  predicate AllSucceed(v4Given: bool, v6Given: bool, env: Env) {
    && env.config.Some?
    && Ipv4Address(v4Given, env).Some?
    && env.addAddressStatus >= 0
    && env.ifUpStatus >= 0
    && ClatIpv6Address(v6Given, env).Some?
    && env.attachOk
    && env.bindOk
  }

  /** The process survives configuration exactly when every checked step
      succeeds: any failure, the filter's included, ends in exit status 1. */
  lemma ConfigureSucceedsIff(v4Given: bool, v6Given: bool, env: Env)
    ensures ConfigureInterface(v4Given, v6Given, env).session.Some? <==> AllSucceed(v4Given, v6Given, env)
  {
  }

  /** The five calls of a complete configuration, in order. */
  function FullTrace(a4: Addr4, ipv4mtu: int, a6: Addr6): seq<Effect> {
    [AddAddress4(a4, 32), IfUp(ipv4mtu), AddAnycast(a6), AttachFilter(Program(a6)), BindPacketSocket]
  }

  /** Whatever fails, the calls made are a prefix of the complete sequence,
      and each call past the first was preceded by the success of the
      checked calls before it. */
  lemma TraceIsPrefix(v4Given: bool, v6Given: bool, env: Env) returns (a4: Addr4, a6: Addr6)
    requires env.config.Some?
    ensures var tr := ConfigureInterface(v4Given, v6Given, env).trace;
            && |tr| <= 5 && |tr| != 3
            && tr == FullTrace(a4, Normalize(env.config.value, MAXMTU, env.ifMtu).ipv4mtu, a6)[..|tr|]
            && (|tr| >= 2 ==> env.addAddressStatus >= 0)
            && (|tr| >= 4 ==> env.ifUpStatus >= 0)
            && (|tr| == 5 ==> env.attachOk)
            && (|tr| >= 1 ==> Ipv4Address(v4Given, env) == Some(a4))
            && (|tr| >= 3 ==> ClatIpv6Address(v6Given, env) == Some(a6))
  {
    a4, a6 := 0, seq(16, _ => 0);
    var m := Normalize(env.config.value, MAXMTU, env.ifMtu).ipv4mtu;
    var tun := ConfigureTunIp(v4Given, m, env);
    var v6 := ConfigureClatIpv6Address(v6Given, env);
    TraceParts(v4Given, v6Given, env);
    match Ipv4Address(v4Given, env)
    case None =>
    case Some(a) =>
      a4 := a;
      if tun.exited {
        PrefixOfTun(a, m, a6, tun.performed, env.addAddressStatus);
      } else {
        match ClatIpv6Address(v6Given, env)
        case None =>
        case Some(b) =>
          a6 := b;
          PrefixOfParts(a, m, b, v6.performed, env.attachOk);
      }
  }

  /** How `configure_interface` assembles its calls from the two phases. */
  lemma TraceParts(v4Given: bool, v6Given: bool, env: Env)
    requires env.config.Some?
    ensures var m := Normalize(env.config.value, MAXMTU, env.ifMtu).ipv4mtu;
            var tun := ConfigureTunIp(v4Given, m, env);
            ConfigureInterface(v4Given, v6Given, env).trace ==
              if tun.exited then tun.performed
              else tun.performed + ConfigureClatIpv6Address(v6Given, env).performed
  {
  }

  /** The calls of a failed IPv4 phase. */
  lemma PrefixOfTun(a: Addr4, m: int, b: Addr6, tun: seq<Effect>, addAddressStatus: int)
    requires tun == if addAddressStatus < 0 then [AddAddress4(a, 32)] else [AddAddress4(a, 32), IfUp(m)]
    ensures tun == FullTrace(a, m, b)[..|tun|] && |tun| == (if addAddressStatus < 0 then 1 else 2)
  {
  }

  /** The IPv6 phase's calls after a successful IPv4 phase. */
  lemma PrefixOfParts(a: Addr4, m: int, b: Addr6, v6: seq<Effect>, attachOk: bool)
    requires v6 == if attachOk then [AddAnycast(b), AttachFilter(Program(b)), BindPacketSocket]
                   else [AddAnycast(b), AttachFilter(Program(b))]
    ensures var tr := [AddAddress4(a, 32), IfUp(m)] + v6;
            tr == FullTrace(a, m, b)[..|tr|] && |tr| == (if attachOk then 5 else 4)
  {
  }

  /** Ordering, whatever fails: the tun interface is brought up only after
      its address was assigned successfully and with the normalised IPv4
      MTU; the IPv6 side is touched only once the tun interface is up; and
      the filter installed is the one for the address just registered. */
  lemma ConfigureOrder(v4Given: bool, v6Given: bool, env: Env)
    ensures var tr := ConfigureInterface(v4Given, v6Given, env).trace;
            && (forall j | 0 <= j < |tr| && tr[j].IfUp? ::
                  && j == 1 && tr[0].AddAddress4? && env.addAddressStatus >= 0
                  && env.config.Some?
                  && tr[j].mtu == Normalize(env.config.value, MAXMTU, env.ifMtu).ipv4mtu)
            && (forall j | 0 <= j < |tr| && (tr[j].AddAnycast? || tr[j].AttachFilter?) ::
                  j >= 2 && tr[1].IfUp? && env.ifUpStatus >= 0)
            && (forall j | 0 <= j < |tr| && tr[j].AttachFilter? ::
                  j >= 1 && tr[j - 1].AddAnycast? && tr[j].prog == Program(tr[j - 1].addr6))
  {
    var tr := ConfigureInterface(v4Given, v6Given, env).trace;
    if env.config.Some? {
      var a4, a6 := TraceIsPrefix(v4Given, v6Given, env);
      var m := Normalize(env.config.value, MAXMTU, env.ifMtu).ipv4mtu;
      var full := FullTrace(a4, m, a6);
      assert tr == full[..|tr|];
      OrderOfPrefix(full, tr, a4, m, a6);
    }
  }

  /** The ordering facts for any allowed prefix of the complete sequence. */
  lemma OrderOfPrefix(full: seq<Effect>, tr: seq<Effect>, a4: Addr4, m: int, a6: Addr6)
    requires full == FullTrace(a4, m, a6)
    requires |tr| <= 5 && tr == full[..|tr|]
    ensures forall j | 0 <= j < |tr| && tr[j].IfUp? :: j == 1 && tr[0].AddAddress4? && tr[j].mtu == m
    ensures forall j | 0 <= j < |tr| && (tr[j].AddAnycast? || tr[j].AttachFilter?) :: j >= 2 && tr[1].IfUp?
    ensures forall j | 0 <= j < |tr| && tr[j].AttachFilter? ::
              j >= 1 && tr[j - 1].AddAnycast? && tr[j].prog == Program(tr[j - 1].addr6)
  {
    assert forall j | 0 <= j < |tr| :: tr[j] == full[j];
  }

  /** A successful configuration leaves MTUs satisfying the invariant,
      provided the interface probe it may have used was within `MAXMTU`. */
  lemma ConfiguredMtuNormalized(v4Given: bool, v6Given: bool, env: Env)
    requires ConfigureInterface(v4Given, v6Given, env).session.Some?
    requires env.config.value.mtu > 0 || env.ifMtu <= MAXMTU
    ensures Normalized(ConfigureInterface(v4Given, v6Given, env).session.value.mtu, MAXMTU)
  {
    NormalizeEstablishes(env.config.value, MAXMTU, env.ifMtu);
  }
}
