/** Sizes and limits shared by the daemon's components. */
module Limits {

  /** Largest MTU the daemon accepts (`MAXMTU`, defined in clatd.h). */
  const MAXMTU: int := 65536

  /** Size of the `struct tun_pi` header the tun driver prepends to a frame. */
  const TUN_PI_LEN: int := 4

  /** Size of the read buffer and the filter's accept length (`PACKETLEN`). */
  const PACKETLEN: int := MAXMTU + TUN_PI_LEN

  /** Minimum link MTU an IPv6 link must offer (section 5 of RFC 8200). */
  const IPV6_MIN_MTU: int := 1280

  /** 40-byte IPv6 header minus 20-byte IPv4 header plus 8-byte fragment header. */
  const MTU_DELTA: int := 28
}
