/** What the tunnel checks and trusts about an IP packet
    (src/core/tunnel.rs trim_ip and is_ip, src/bin/server/downlink.rs trim_ip). */
module IpPacket {
  import opened Bytes

  function Version(packet: seq<byte>): int
    requires packet != []
  {
    packet[0] / 16
  }

  /** Long enough for the header its version announces. */
  predicate IsIp(packet: seq<byte>) {
    packet != [] && ((Version(packet) == 4 && |packet| >= 20) || (Version(packet) == 6 && |packet| >= 40))
  }

  /** The length an IP header claims, if it can be read and is believable. */
  function ClaimedLength(packet: seq<byte>): int {
    if packet != [] && Version(packet) == 4 && |packet| >= 4 && FromBE16(packet[2..]) >= 20 then FromBE16(packet[2..])
    else if packet != [] && Version(packet) == 6 && |packet| >= 40 then 40 + FromBE16(packet[4..])
    else -1
  }

  /** Cuts whatever follows the packet, such as cipher padding. */
  function TrimIp(packet: seq<byte>): seq<byte> {
    var total := ClaimedLength(packet);
    if 0 <= total <= |packet| then packet[..total] else packet
  }

  /** A packet whose header states its own length. */
  predicate WellFormed(packet: seq<byte>) {
    IsIp(packet) && ClaimedLength(packet) == |packet|
  }

  /** Padding after a well-formed packet is cut exactly. */
  lemma TrimRestores(packet: seq<byte>, padding: seq<byte>)
    requires WellFormed(packet)
    ensures TrimIp(packet + padding) == packet && IsIp(packet + padding)
  {
    var all := packet + padding;
    assert all[0] == packet[0];
    assert all[2..][0] == packet[2..][0] && all[2..][1] == packet[2..][1];
    assert all[4..][0] == packet[4..][0] && all[4..][1] == packet[4..][1];
    assert all[..|packet|] == packet;
  }
}
