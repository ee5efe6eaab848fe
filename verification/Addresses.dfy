/**
 Socket addresses as far as the routing table, the rate limiters and the STUN client look into them.
 */
module Addresses {

  type Bytes16 = s: seq<bv8> | |s| == 16 witness seq(16, _ => 0)

  datatype Ip = V4(a: bv8, b: bv8, c: bv8, d: bv8) | V6(octets: Bytes16)

  datatype SocketAddr = SocketAddr(ip: Ip, port: bv16)

  const V6_LOOPBACK: Bytes16 := [0, 0, 0, 0, 0, 0, 0, 0, 0, 0, 0, 0, 0, 0, 0, 1]

  /** Private, loopback or link-local; for IPv6 only loopback counts. */
  predicate IsLan(addr: SocketAddr) {
    match addr.ip
    case V4(a, b, c, d) =>
      || a == 10 || (a == 172 && b & 0xf0 == 16) || (a == 192 && b == 168)
      || a == 127
      || (a == 169 && b == 254)
    case V6(octets) => octets == V6_LOOPBACK
  }

  /** 10/8, 127/8, 172.16/12, 192.168/16 and 169.254/16. */
  lemma LanRanges(a: bv8, b: bv8, c: bv8, d: bv8, port: bv16)
    ensures IsLan(SocketAddr(V4(a, b, c, d), port)) <==>
              a == 10 || a == 127 || (a == 172 && 16 <= b <= 31) || (a == 192 && b == 168) || (a == 169 && b == 254)
  {
  }
}
