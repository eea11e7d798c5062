/** The translator's IPv6 address and the check that the uplink's prefix
    still matches it (`ipv6_address_changed`,
    `clat_ipv6_address_from_interface`). */
module Prefix {
  import opened Words

  /** Length in bytes of the routing prefix the address lives in (/64). */
  const PREFIX_BYTES: nat := 8

  /** A 64-bit interface identifier. */
  type Iid = s: seq<u8> | |s| == 16 - PREFIX_BYTES witness seq(16 - PREFIX_BYTES, _ => 0)

  /** The intended meaning of `ipv6_prefix_equal`: same /64. */
  predicate Prefix64Equal(a: Addr6, b: Addr6) {
    a[..PREFIX_BYTES] == b[..PREFIX_BYTES]
  }

  /** `ipv6_address_changed`: `found` is the uplink's current global IPv6
      address (`None` when the query returns nothing), `stored` the
      translator's address, and `prefixEqual` the comparison used. */
  function AddressChanged(found: Option<Addr6>, stored: Addr6, prefixEqual: (Addr6, Addr6) -> bool): (changed: bool)
    ensures found.None? ==> changed
    ensures !changed <==> found.Some? && prefixEqual(found.value, stored)
  {
    match found
    case None => true
    case Some(addr) => !prefixEqual(addr, stored)
  }

  /** The address `clat_ipv6_address_from_interface` stores: the uplink
      address's /64 with the generated 64-bit interface identifier `iid`. */
  function LocalAddress(uplink: Addr6, iid: Iid): (a: Addr6)
    ensures Prefix64Equal(a, uplink)
    ensures a[PREFIX_BYTES..] == iid
  {
    uplink[..PREFIX_BYTES] + iid
  }

  /** Derived from uplink address `u`, the stored address is reported as
      changed exactly when the uplink's current address has left `u`'s /64
      or is gone: a new interface identifier alone is not a change. */
  lemma ChangedIffPrefixMoved(u: Addr6, iid: Iid, found: Option<Addr6>)
    ensures AddressChanged(found, LocalAddress(u, iid), Prefix64Equal) <==>
            found.None? || found.value[..PREFIX_BYTES] != u[..PREFIX_BYTES]
  {
  }

  /** Right after derivation the uplink's own address is not a change. */
  lemma FreshAddressUnchanged(u: Addr6, iid: Iid)
    ensures !AddressChanged(Some(u), LocalAddress(u, iid), Prefix64Equal)
  {
    ChangedIffPrefixMoved(u, iid, Some(u));
  }
}
