/** Socket addresses and DHT contacts. */
module Net {
  import opened Bytes
  import opened NodeId

  type Ipv4 = s: bytes | |s| == 4 witness [0, 0, 0, 0]

  type Ipv6 = s: bytes | |s| == 16 witness seq(16, _ => 0)

  datatype Addr = V4(ip: Ipv4, port: u16) | V6(ip6: Ipv6, port: u16)

  /** A contact; instants are nanoseconds on a monotonic clock. */
  datatype Contact = Contact(id: NodeId, addr: Addr, lastSeen: int)
}
