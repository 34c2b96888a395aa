/** Bytes, addresses and names as the DNS server handles them. */
module DnsTypes {

  type byte = b: int | 0 <= b < 256
  type uint16 = n: int | 0 <= n < 0x1_0000
  type uint32 = n: int | 0 <= n < 0x1_0000_0000
  type bytes = seq<byte>

  type IPv4 = ip: bytes | |ip| == 4 witness [0, 0, 0, 0]

  // An A record with its TTL.
  datatype ZoneEntry = ZoneEntry(ip: IPv4, ttl: uint32)
}
