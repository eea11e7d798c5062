/** MTU normalisation done by `configure_interface` after reading the
    configuration: clamp the uplink MTU into range, probe the interface
    when none is configured, and derive the IPv4-side MTU. */
module Mtu {
  import opened Limits

  /** The two MTU fields of the daemon's configuration. */
  datatype MtuConfig = MtuConfig(mtu: int, ipv4mtu: int)

  /** The configuration invariant the rest of the daemon relies on. */
  predicate Normalized(c: MtuConfig, maxMtu: int) {
    && IPV6_MIN_MTU <= c.mtu <= maxMtu
    && 0 < c.ipv4mtu <= c.mtu - MTU_DELTA
  }

  /** The uplink MTU after the three clamps, in source order: cap at
      `maxMtu`, replace a non-positive value by the interface probe
      `ifMtu` (which is not capped again), raise to the IPv6 minimum. */
  function ClampMtu(mtu: int, maxMtu: int, ifMtu: int): (m: int)
    ensures m >= IPV6_MIN_MTU
    ensures maxMtu >= IPV6_MIN_MTU && mtu > 0 ==>
              m == if mtu > maxMtu then maxMtu else if mtu < IPV6_MIN_MTU then IPV6_MIN_MTU else mtu
    ensures mtu <= 0 ==> m == if ifMtu < IPV6_MIN_MTU then IPV6_MIN_MTU else ifMtu
  {
    var capped := if mtu > maxMtu then maxMtu else mtu;
    var probed := if capped <= 0 then ifMtu else capped;
    if probed < IPV6_MIN_MTU then IPV6_MIN_MTU else probed
  }

  /** The IPv4-side MTU: kept when it is positive and fits under the
      uplink MTU less the header delta, otherwise exactly that bound. */
  function ClampIpv4Mtu(ipv4mtu: int, mtu: int): (m: int)
    ensures mtu > MTU_DELTA ==> 0 < m <= mtu - MTU_DELTA
    ensures 0 < ipv4mtu <= mtu - MTU_DELTA ==> m == ipv4mtu
    ensures !(0 < ipv4mtu <= mtu - MTU_DELTA) ==> m == mtu - MTU_DELTA
  {
    if ipv4mtu <= 0 || ipv4mtu > mtu - MTU_DELTA then mtu - MTU_DELTA else ipv4mtu
  }

  /** The normalisation block of `configure_interface`. */
  function Normalize(c: MtuConfig, maxMtu: int, ifMtu: int): (r: MtuConfig)
    ensures r.mtu >= IPV6_MIN_MTU
    ensures 0 < r.ipv4mtu <= r.mtu - MTU_DELTA
    ensures maxMtu >= IPV6_MIN_MTU && (c.mtu > 0 || ifMtu <= maxMtu) ==> r.mtu <= maxMtu
  {
    var mtu := ClampMtu(c.mtu, maxMtu, ifMtu);
    MtuConfig(mtu, ClampIpv4Mtu(c.ipv4mtu, mtu))
  }

  /** Normalisation establishes the invariant whenever the probe it may
      fall back on is itself within the ceiling. */
  lemma NormalizeEstablishes(c: MtuConfig, maxMtu: int, ifMtu: int)
    requires maxMtu >= IPV6_MIN_MTU
    requires c.mtu > 0 || ifMtu <= maxMtu
    ensures Normalized(Normalize(c, maxMtu, ifMtu), maxMtu)
  {
  }

  /** A configuration that already satisfies the invariant is left
      unchanged, whatever the probe would have returned. */
  lemma NormalizeKeepsNormalized(c: MtuConfig, maxMtu: int, ifMtu: int)
    requires Normalized(c, maxMtu)
    ensures Normalize(c, maxMtu, ifMtu) == c
  {
  }

  /** Normalising twice is normalising once, provided the first probe was
      within the ceiling. */
  lemma NormalizeIdempotent(c: MtuConfig, maxMtu: int, ifMtu: int, ifMtu': int)
    requires maxMtu >= IPV6_MIN_MTU
    requires c.mtu > 0 || ifMtu <= maxMtu
    ensures Normalize(Normalize(c, maxMtu, ifMtu), maxMtu, ifMtu') == Normalize(c, maxMtu, ifMtu)
  {
    NormalizeEstablishes(c, maxMtu, ifMtu);
    NormalizeKeepsNormalized(Normalize(c, maxMtu, ifMtu), maxMtu, ifMtu');
  }

  /** The probe is not capped: with no configured MTU and a probe above the
      ceiling, the result exceeds the ceiling and a second pass changes it. */
  lemma ProbeNotCapped(c: MtuConfig, maxMtu: int, ifMtu: int)
    requires maxMtu >= IPV6_MIN_MTU && c.mtu <= 0 && ifMtu > maxMtu
    ensures Normalize(c, maxMtu, ifMtu).mtu == ifMtu
    ensures !Normalized(Normalize(c, maxMtu, ifMtu), maxMtu)
    ensures Normalize(Normalize(c, maxMtu, ifMtu), maxMtu, ifMtu) != Normalize(c, maxMtu, ifMtu)
  {
  }
}
