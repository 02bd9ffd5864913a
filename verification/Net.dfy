/** Building and parsing IPv4, UDP and TCP packets (kernel/src/net/net.c): RFC 791 section 3.1, RFC 768 and
    RFC 9293 section 3.1, with the one's-complement checksum of RFC 1071. */
module Net {
  import opened Bytes

  type u16 = x: int | 0 <= x < 0x1_0000
  type u32 = x: int | 0 <= x < 0x1_0000_0000

  // ---------------------------------------------------------------- fields

  /** `store_be16` and `load_be16`; reading past the end gives 0. */
  function Be16(v: u16): (r: seq<byte>)
    ensures |r| == 2
  {
    [v / 0x100, v % 0x100]
  }

  function Load16(p: seq<byte>, at: nat): u16 {
    if at + 2 <= |p| then p[at] as int * 0x100 + p[at + 1] as int else 0
  }

  function Be32(v: u32): (r: seq<byte>)
    ensures |r| == 4
  {
    Be16(v / 0x1_0000) + Be16(v % 0x1_0000)
  }

  function Load32(p: seq<byte>, at: nat): u32 {
    Load16(p, at) as int * 0x1_0000 + Load16(p, at + 2) as int
  }

  /** An IPv4 address is kept with its first byte lowest, so storing and loading copy its bytes. */
  datatype Ip = Ip(a: byte, b: byte, c: byte, d: byte)

  function IpBytes(ip: Ip): (r: seq<byte>)
    ensures |r| == 4
  {
    [ip.a, ip.b, ip.c, ip.d]
  }

  function LoadIp(p: seq<byte>, at: nat): Ip {
    if at + 4 <= |p| then Ip(p[at], p[at + 1], p[at + 2], p[at + 3]) else Ip(0, 0, 0, 0)
  }

  // ---------------------------------------------------------------- checksum

  /** The 16-bit words of a packet, added up; an odd last byte is the high half of a word. */
  function Sum(p: seq<byte>): nat {
    if |p| == 0 then 0
    else if |p| == 1 then p[0] as int * 0x100
    else Load16(p, 0) as int + Sum(p[2..])
  }

  /** Adding with end-around carry: the value in 1..65535 with the same remainder, or 0 for nothing. */
  function Carried(s: nat): (r: u16) {
    if s == 0 then 0 else (s - 1) % 0xffff + 1
  }

  function Checksum(p: seq<byte>): u16 {
    0xffff - Carried(Sum(p)) as int
  }

  /** One step of the folding loop keeps the remainder and ends below 2^16. */
  lemma FoldKeeps(s: nat)
    ensures Carried(s % 0x1_0000 + s / 0x1_0000) == Carried(s)
    ensures s < 0x1_0000 ==> Carried(s) == s
    ensures s >= 0x1_0000 ==> s % 0x1_0000 + s / 0x1_0000 < s
  {
    var t := s % 0x1_0000 + s / 0x1_0000;
    assert s == t + 0xffff * (s / 0x1_0000);
    if s > 0 {
      assert t > 0;
      AddMultiple(t - 1, s / 0x1_0000);
    }
  }

  lemma {:induction false} AddMultiple(a: nat, k: nat)
    ensures (a + 0xffff * k) % 0xffff == a % 0xffff
  {
    if k == 0 {
    } else {
      AddMultiple(a, k - 1);
      assert (a + 0xffff * (k - 1) + 0xffff) % 0xffff == (a + 0xffff * (k - 1)) % 0xffff;
    }
  }

  lemma {:induction false} SumBound(p: seq<byte>)
    ensures Sum(p) <= 0xffff * ((|p| + 1) / 2)
  {
    if |p| < 2 {
    } else {
      SumBound(p[2..]);
    }
  }

  lemma {:induction false} SumJoin(a: seq<byte>, b: seq<byte>)
    requires |a| % 2 == 0
    ensures Sum(a + b) == Sum(a) + Sum(b)
  {
    if |a| == 0 {
      assert a + b == b;
    } else {
      SumJoin(a[2..], b);
      assert (a + b)[2..] == a[2..] + b;
    }
  }

  lemma SumBe16(v: u16)
    ensures Sum(Be16(v)) == v
  {
    assert Be16(v)[2..] == [];
  }

  /** RFC 1071 section 2: a packet that carries the complement of its own sum, at an even place, sums
      to all ones; and so does one that carries all ones where that complement is zero. */
  lemma ChecksumCancels(s: nat)
    ensures Carried(s + (0xffff - Carried(s) as int)) == 0xffff
    ensures Carried(s) == 0xffff ==> Carried(s + 0xffff) == 0xffff
  {
    if s > 0 {
      var q := (s - 1) / 0xffff;
      assert s == 0xffff * q + Carried(s) as int;
      assert s + (0xffff - Carried(s) as int) - 1 == 0xfffe + 0xffff * q;
      AddMultiple(0xfffe, q);
      if Carried(s) == 0xffff {
        assert s + 0xffff - 1 == 0xfffe + 0xffff * (q + 1);
        AddMultiple(0xfffe, q + 1);
      }
    }
  }

  /** `checksum`: the accumulating loop never overflows 32 bits on a packet, and folds to the carried sum. */
  method ComputeChecksum(p: seq<byte>) returns (c: u16)
    requires |p| <= 0x1_0000
    ensures c == Checksum(p)
  {
    hide Carried;
    var sum: u32 := 0;
    var rest := p;
    SumBound(p);
    while |rest| >= 2
      invariant |rest| <= |p| && sum + Sum(rest) == Sum(p)
    {
      sum := sum + Load16(rest, 0) as int;
      rest := rest[2..];
    }
    if |rest| != 0 { sum := sum + rest[0] as int * 0x100; }
    assert sum == Sum(p);
    while sum >= 0x1_0000
      invariant Carried(sum) == Carried(Sum(p))
      decreases sum
    {
      FoldKeeps(sum);
      sum := sum % 0x1_0000 + sum / 0x1_0000;
    }
    FoldKeeps(sum);
    c := 0xffff - sum;
  }

  // ---------------------------------------------------------------- building

  const UDP: byte := 17
  const TCP: byte := 6

  /** The pseudo-header and payload that transport checksums cover. */
  function Pseudo(proto: byte, src: Ip, dst: Ip, payload: seq<byte>): seq<byte> {
    IpBytes(src) + IpBytes(dst) + [0, proto] + Be16(|payload| % 0x1_0000) + payload
  }

  /** `ip_payload_checksum`; longer payloads than a frame holds are not summed. */
  function PayloadChecksum(proto: byte, src: Ip, dst: Ip, payload: seq<byte>): u16 {
    if |payload| > 1480 then 0 else Checksum(Pseudo(proto, src, dst, payload))
  }

  function UdpHead(sport: u16, dport: u16, len: nat): (r: seq<byte>)
    ensures |r| == 6
  {
    Be16(sport) + Be16(dport) + Be16((8 + len) % 0x1_0000)
  }

  function UdpWith(sport: u16, dport: u16, sum: u16, payload: seq<byte>): seq<byte> {
    UdpHead(sport, dport, |payload|) + Be16(sum) + payload
  }

  /** The datagram of `net_udp_send_ttl_tos`: a checksum of zero is sent as all ones, as RFC 768 asks. */
  function UdpSegment(src: Ip, dst: Ip, sport: u16, dport: u16, payload: seq<byte>): seq<byte> {
    var sum := PayloadChecksum(UDP, src, dst, UdpWith(sport, dport, 0, payload));
    UdpWith(sport, dport, if sum == 0 then 0xffff else sum, payload)
  }

  datatype Segment = Segment(sport: u16, dport: u16, seqNo: u32, ack: u32, window: u16, flags: byte,
      options: seq<byte>, payload: seq<byte>)

  function TcpHead(s: Segment): (r: seq<byte>)
    ensures |r| == 16
  {
    Be16(s.sport) + Be16(s.dport) + Be32(s.seqNo) + Be32(s.ack)
      + [(20 + |s.options|) / 4 * 16 % 0x100, s.flags] + Be16(s.window)
  }

  function TcpWith(s: Segment, sum: u16): seq<byte> {
    TcpHead(s) + Be16(sum) + ([0, 0] + s.options + s.payload)
  }

  /** The segment of `net_tcp_send_segment_options_ttl_tos`. */
  function TcpSegment(src: Ip, dst: Ip, s: Segment): seq<byte> {
    TcpWith(s, PayloadChecksum(TCP, src, dst, TcpWith(s, 0)))
  }

  /** What the TCP sender refuses to build. */
  predicate Sendable(s: Segment) {
    |s.options| % 4 == 0 && |s.options| <= 40 && |s.payload| + 20 + |s.options| <= 1480
  }

  function IpHead(src: Ip, dst: Ip, id: u16, proto: byte, ttl: byte, tos: byte, len: nat): (r: seq<byte>)
    ensures |r| == 10
  {
    [0x45, tos] + Be16((20 + len) % 0x1_0000) + Be16(id) + Be16(0) + [if ttl == 0 then 64 else ttl, proto]
  }

  function IpWith(src: Ip, dst: Ip, id: u16, proto: byte, ttl: byte, tos: byte, len: nat, sum: u16): (r: seq<byte>)
    ensures |r| == 20
  {
    IpHead(src, dst, id, proto, ttl, tos, len) + Be16(sum) + (IpBytes(src) + IpBytes(dst))
  }

  /** The IPv4 packet of `build_ipv4_frame`. */
  function IpPacket(src: Ip, dst: Ip, id: u16, proto: byte, ttl: byte, tos: byte, payload: seq<byte>): seq<byte> {
    IpWith(src, dst, id, proto, ttl, tos, |payload|,
        Checksum(IpWith(src, dst, id, proto, ttl, tos, |payload|, 0))) + payload
  }

  const LOCAL_MAC: seq<byte> := [0x52, 0x54, 0x00, 0x12, 0x34, 0x56]
  const BROADCAST_MAC: seq<byte> := [0xff, 0xff, 0xff, 0xff, 0xff, 0xff]

  function Frame(mac: seq<byte>, packet: seq<byte>): seq<byte> {
    mac + LOCAL_MAC + Be16(0x0800) + packet
  }

  // ---------------------------------------------------------------- parsing

  /** A host: its address, and its directed broadcast address if it has a netmask. */
  datatype Host = Host(local: Ip, masked: bool, directed: Ip)

  predicate Broadcast(h: Host, ip: Ip) {
    ip == Ip(255, 255, 255, 255) || (h.masked && ip == h.directed)
  }

  /** `is_invalid_wire_source`: unset, our own, loopback, broadcast, multicast or class E. */
  predicate InvalidSource(h: Host, ip: Ip) {
    || ip == Ip(0, 0, 0, 0) || ip == h.local || ip.a == 127 || Broadcast(h, ip)
    || 224 <= ip.a < 240 || ip.a >= 240
  }

  datatype Delivery =
    | Dropped
    | ToUdp(src: Ip, sport: u16, dport: u16, data: seq<byte>)
    | ToTcp(src: Ip, segment: Segment)
    | Other

  function HandleUdp(src: Ip, dst: Ip, p: seq<byte>): Delivery {
    if |p| < 8 then Dropped
    else
      var len := Load16(p, 4);
      if len < 8 || len > |p| || Load16(p, 2) == 0 then Dropped
      else if Load16(p, 6) != 0 && PayloadChecksum(UDP, src, dst, p[..len]) != 0 then Dropped
      else ToUdp(src, Load16(p, 0), Load16(p, 2), p[8..len])
  }

  predicate Fin(flags: byte) { flags % 2 == 1 }
  predicate Syn(flags: byte) { flags / 2 % 2 == 1 }
  predicate Rst(flags: byte) { flags / 4 % 2 == 1 }

  /** Contradictory flags are refused. */
  predicate LegalFlags(flags: byte) {
    !(Syn(flags) && (Fin(flags) || Rst(flags))) && !(Fin(flags) && Rst(flags))
  }

  function HandleTcp(src: Ip, dst: Ip, p: seq<byte>): Delivery {
    if |p| < 20 || PayloadChecksum(TCP, src, dst, p) != 0 then Dropped
    else
      var offset := p[12] as int / 16 * 4;
      if offset < 20 || offset > |p| || !LegalFlags(p[13]) || Load16(p, 0) == 0 || Load16(p, 2) == 0 then Dropped
      else ToTcp(src, Segment(Load16(p, 0), Load16(p, 2), Load32(p, 4), Load32(p, 8), Load16(p, 14), p[13],
          p[20..offset], p[offset..]))
  }

  function HandleIpv4(h: Host, p: seq<byte>): Delivery {
    if |p| < 20 || p[0] as int / 16 != 4 then Dropped
    else
      var ihl := p[0] as int % 16 * 4;
      var total := Load16(p, 2) as int;
      if ihl < 20 || ihl > |p| || total < ihl || total > |p| || Checksum(p[..ihl]) != 0 || p[8] == 0 then Dropped
      else if Load16(p, 6) != 0 && Load16(p, 6) != 0x4000 then Dropped
      else
        var dst, src := LoadIp(p, 16), LoadIp(p, 12);
        if (dst != h.local && !Broadcast(h, dst)) || InvalidSource(h, src) then Dropped
        else if p[9] == TCP then (if dst != h.local then Dropped else HandleTcp(src, dst, p[ihl..total]))
        else if p[9] == UDP then HandleUdp(src, dst, p[ihl..total])
        else Other
  }

  function Receive(h: Host, frame: seq<byte>): Delivery {
    if |frame| < 14 || (frame[..6] != LOCAL_MAC && frame[..6] != BROADCAST_MAC) then Dropped
    else if Load16(frame, 12) == 0x0800 then HandleIpv4(h, frame[14..])
    else Other
  }

  // ---------------------------------------------------------------- round trips

  lemma FieldSum(pre: seq<byte>, v: u16, post: seq<byte>)
    requires |pre| % 2 == 0
    ensures Sum(pre + Be16(v) + post) == Sum(pre + Be16(0) + post) + v
  {
    hide Sum, Be16;
    SumJoin(pre + Be16(v), post);
    SumJoin(pre, Be16(v));
    SumJoin(pre + Be16(0), post);
    SumJoin(pre, Be16(0));
    SumBe16(v);
    SumBe16(0);
  }

  /** Filling a zeroed field, at an even place, with the checksum makes the checksum zero. */
  lemma FilledField(pre: seq<byte>, post: seq<byte>)
    requires |pre| % 2 == 0
    ensures var c := Checksum(pre + Be16(0) + post);
            && Checksum(pre + Be16(c) + post) == 0
            && (c == 0 ==> Checksum(pre + Be16(0xffff) + post) == 0)
  {
    hide Sum, Be16, Carried;
    var c := Checksum(pre + Be16(0) + post);
    FieldSum(pre, c, post);
    FieldSum(pre, 0xffff, post);
    ChecksumCancels(Sum(pre + Be16(0) + post));
  }

  lemma PseudoField(proto: byte, src: Ip, dst: Ip, head: seq<byte>, v: u16, rest: seq<byte>)
    ensures var pre := IpBytes(src) + IpBytes(dst) + [0, proto] + Be16((|head| + 2 + |rest|) % 0x1_0000) + head;
            Pseudo(proto, src, dst, head + Be16(v) + rest) == pre + Be16(v) + rest && |pre| == 12 + |head|
  {
  }

  /** The transport checksum of a packet that carries it is zero. */
  lemma TransportSum(proto: byte, src: Ip, dst: Ip, head: seq<byte>, rest: seq<byte>)
    requires |head| % 2 == 0 && |head| + 2 + |rest| <= 1480
    ensures var c := PayloadChecksum(proto, src, dst, head + Be16(0) + rest);
            && PayloadChecksum(proto, src, dst, head + Be16(c) + rest) == 0
            && (c == 0 ==> PayloadChecksum(proto, src, dst, head + Be16(0xffff) + rest) == 0)
  {
    hide Be16, Checksum, Pseudo, IpBytes;
    var c := PayloadChecksum(proto, src, dst, head + Be16(0) + rest);
    PseudoField(proto, src, dst, head, 0, rest);
    PseudoField(proto, src, dst, head, c, rest);
    PseudoField(proto, src, dst, head, 0xffff, rest);
    FilledField(IpBytes(src) + IpBytes(dst) + [0, proto] + Be16((|head| + 2 + |rest|) % 0x1_0000) + head, rest);
  }

  lemma UdpFields(sport: u16, dport: u16, sum: u16, payload: seq<byte>)
    requires 8 + |payload| <= 1472
    ensures var p := UdpWith(sport, dport, sum, payload);
            && |p| == 8 + |payload| && Load16(p, 0) == sport && Load16(p, 2) == dport && Load16(p, 4) == 8 + |payload|
            && Load16(p, 6) == sum && p[8..] == payload && p[..|p|] == p
  {
  }

  /** Every datagram that is built is delivered as it was sent, unless its destination port is 0. */
  lemma UdpRoundTrip(src: Ip, dst: Ip, sport: u16, dport: u16, payload: seq<byte>)
    requires 8 + |payload| <= 1472
    ensures HandleUdp(src, dst, UdpSegment(src, dst, sport, dport, payload)) ==
            if dport == 0 then Dropped else ToUdp(src, sport, dport, payload)
  {
    hide UdpHead, Be16, Load16, Checksum, PayloadChecksum;
    TransportSum(UDP, src, dst, UdpHead(sport, dport, |payload|), payload);
    var sum := PayloadChecksum(UDP, src, dst, UdpWith(sport, dport, 0, payload));
    UdpFields(sport, dport, if sum == 0 then 0xffff else sum, payload);
  }

  lemma TcpFields(s: Segment, sum: u16)
    requires Sendable(s)
    ensures var p := TcpWith(s, sum);
            && |p| == 20 + |s.options| + |s.payload| && Load16(p, 0) == s.sport && Load16(p, 2) == s.dport
            && Load32(p, 4) == s.seqNo && Load32(p, 8) == s.ack && p[12] as int / 16 * 4 == 20 + |s.options| &&
                p[13] == s.flags
            && Load16(p, 14) == s.window && p[20..20 + |s.options|] == s.options && p[20 + |s.options|..] == s.payload
  {
    var p := TcpWith(s, sum);
    var h := TcpHead(s);
    assert forall i :: 0 <= i < 16 ==> p[i] == h[i];
    TcpHeadFields(s);
    assert p[20..20 + |s.options|] == s.options;
    assert p[20 + |s.options|..] == s.payload;
    hide TcpHead;
  }

  lemma TcpHeadFields(s: Segment)
    requires Sendable(s)
    ensures var h := TcpHead(s);
            && Load16(h, 0) == s.sport && Load16(h, 2) == s.dport && Load32(h, 4) == s.seqNo && Load32(h, 8) == s.ack
            && h[12] as int / 16 * 4 == 20 + |s.options| && h[13] == s.flags && Load16(h, 14) == s.window
  {
  }

  /** Every segment that is built is delivered as it was sent, exactly if its flags are legal and its
      ports are not 0. */
  lemma TcpRoundTrip(src: Ip, dst: Ip, s: Segment)
    requires Sendable(s)
    ensures HandleTcp(src, dst, TcpSegment(src, dst, s)) ==
            if LegalFlags(s.flags) && s.sport != 0 && s.dport != 0 then ToTcp(src, s) else Dropped
  {
    hide TcpHead, Be16, Load16, Load32, Checksum, PayloadChecksum, LegalFlags;
    TransportSum(TCP, src, dst, TcpHead(s), [0, 0] + s.options + s.payload);
    TcpFields(s, PayloadChecksum(TCP, src, dst, TcpWith(s, 0)));
  }

  lemma IpFields(src: Ip, dst: Ip, id: u16, proto: byte, ttl: byte, tos: byte, len: nat, sum: u16, payload: seq<byte>)
    requires len == |payload| <= 1480
    ensures var p := IpWith(src, dst, id, proto, ttl, tos, len, sum) + payload;
            && |p| == 20 + len && p[0] == 0x45 && Load16(p, 2) == 20 + len && Load16(p, 6) == 0 && p[8] != 0 &&
                p[9] == proto
            && LoadIp(p, 12) == src && LoadIp(p, 16) == dst
            && p[..20] == IpWith(src, dst, id, proto, ttl, tos, len, sum) && p[20..20 + len] == payload
  {
    var w := IpWith(src, dst, id, proto, ttl, tos, len, sum);
    var p := w + payload;
    assert forall i :: 0 <= i < 20 ==> p[i] == w[i];
    IpHeadFields(src, dst, id, proto, ttl, tos, len, sum);
    assert p[..20] == w;
    assert p[20..20 + len] == payload;
    hide IpWith;
  }

  lemma IpHeadFields(src: Ip, dst: Ip, id: u16, proto: byte, ttl: byte, tos: byte, len: nat, sum: u16)
    requires len <= 1480
    ensures var p := IpWith(src, dst, id, proto, ttl, tos, len, sum);
            && p[0] == 0x45 && Load16(p, 2) == 20 + len && Load16(p, 6) == 0 && p[8] != 0 && p[9] == proto
            && LoadIp(p, 12) == src && LoadIp(p, 16) == dst
  {
  }

  /** A packet that is built passes every IPv4 check at the host it is addressed to, and its payload
      reaches the transport unchanged. */
  lemma IpRoundTrip(h: Host, src: Ip, id: u16, proto: byte, ttl: byte, tos: byte, payload: seq<byte>)
    requires |payload| <= 1480 && !InvalidSource(h, src)
    ensures HandleIpv4(h, IpPacket(src, h.local, id, proto, ttl, tos, payload)) ==
            if proto == TCP then HandleTcp(src, h.local, payload)
            else if proto == UDP then HandleUdp(src, h.local, payload)
            else Other
  {
    hide IpWith, Load16, LoadIp, Checksum, HandleTcp, HandleUdp, InvalidSource, Broadcast;
    var len := |payload|;
    var sum := Checksum(IpWith(src, h.local, id, proto, ttl, tos, len, 0));
    IpFields(src, h.local, id, proto, ttl, tos, len, sum, payload);
    IpSum(src, h.local, id, proto, ttl, tos, len);
  }

  lemma IpSum(src: Ip, dst: Ip, id: u16, proto: byte, ttl: byte, tos: byte, len: nat)
    ensures Checksum(IpWith(src, dst, id, proto, ttl, tos, len,
            Checksum(IpWith(src, dst, id, proto, ttl, tos, len, 0)))) == 0
  {
    hide IpHead, Be16, Checksum;
    FilledField(IpHead(src, dst, id, proto, ttl, tos, len), IpBytes(src) + IpBytes(dst));
  }

  lemma FrameRoundTrip(h: Host, mac: seq<byte>, packet: seq<byte>)
    requires mac == LOCAL_MAC || mac == BROADCAST_MAC
    ensures Receive(h, Frame(mac, packet)) == HandleIpv4(h, packet)
  {
    hide HandleIpv4;
    var f := Frame(mac, packet);
    assert f[..6] == mac && f[14..] == packet;
  }

  /** End to end: the datagram arrives with its ports and payload. */
  lemma UdpArrives(h: Host, mac: seq<byte>, src: Ip, id: u16, ttl: byte, tos: byte, sport: u16, dport: u16,
      payload: seq<byte>)
    requires 8 + |payload| <= 1472 && !InvalidSource(h, src) && (mac == LOCAL_MAC || mac == BROADCAST_MAC)
    ensures var packet := IpPacket(src, h.local, id, UDP, ttl, tos, UdpSegment(src, h.local, sport, dport, payload));
            Receive(h, Frame(mac, packet)) ==
            if dport == 0 then Dropped else ToUdp(src, sport, dport, payload)
  {
    hide Receive, Frame, IpPacket, HandleIpv4, HandleUdp, HandleTcp, InvalidSource, PayloadChecksum, UdpHead;
    var p := UdpSegment(src, h.local, sport, dport, payload);
    FrameRoundTrip(h, mac, IpPacket(src, h.local, id, UDP, ttl, tos, p));
    IpRoundTrip(h, src, id, UDP, ttl, tos, p);
    UdpRoundTrip(src, h.local, sport, dport, payload);
  }

  /** End to end: the segment arrives with its ports, numbers, window, flags, options and payload. */
  lemma TcpArrives(h: Host, mac: seq<byte>, src: Ip, id: u16, ttl: byte, tos: byte, s: Segment)
    requires Sendable(s) && !InvalidSource(h, src) && (mac == LOCAL_MAC || mac == BROADCAST_MAC)
    ensures Receive(h, Frame(mac, IpPacket(src, h.local, id, TCP, ttl, tos, TcpSegment(src, h.local, s)))) ==
            if LegalFlags(s.flags) && s.sport != 0 && s.dport != 0 then ToTcp(src, s) else Dropped
  {
    hide Receive, Frame, IpPacket, HandleIpv4, HandleUdp, HandleTcp, InvalidSource, PayloadChecksum, TcpHead,
         LegalFlags;
    var p := TcpSegment(src, h.local, s);
    FrameRoundTrip(h, mac, IpPacket(src, h.local, id, TCP, ttl, tos, p));
    IpRoundTrip(h, src, id, TCP, ttl, tos, p);
    TcpRoundTrip(src, h.local, s);
  }

  // ---------------------------------------------------------------- damage

  /** A packet with another 16-bit word at `at`. */
  function Damaged(p: seq<byte>, at: nat, w: u16): (q: seq<byte>)
    requires at + 2 <= |p|
    ensures |q| == |p|
  {
    p[..at] + Be16(w) + p[at + 2..]
  }

  lemma WordAt(p: seq<byte>, at: nat)
    requires at + 2 <= |p|
    ensures p == p[..at] + Be16(Load16(p, at)) + p[at + 2..]
  {
    assert Be16(Load16(p, at)) == p[at..at + 2];
  }

  /** A changed word at an even place shows in the checksum, unless ones' complement cannot tell the
      two words apart: 0 and 0xffff are the same number. */
  lemma DamageShows(pre: seq<byte>, v: u16, w: u16, post: seq<byte>)
    requires |pre| % 2 == 0 && Checksum(pre + Be16(v) + post) == 0 && w % 0xffff != v % 0xffff
    ensures Checksum(pre + Be16(w) + post) != 0
  {
    hide Sum, Be16;
    FieldSum(pre, v, post);
    FieldSum(pre, w, post);
  }

  lemma DamagedTransport(proto: byte, src: Ip, dst: Ip, p: seq<byte>, at: nat, w: u16)
    requires at % 2 == 0 && at + 2 <= |p| <= 1480 && PayloadChecksum(proto, src, dst, p) == 0 &&
             w % 0xffff != Load16(p, at) % 0xffff
    ensures PayloadChecksum(proto, src, dst, Damaged(p, at, w)) != 0
  {
    hide Be16, Load16, Checksum, Pseudo, IpBytes;
    WordAt(p, at);
    PseudoField(proto, src, dst, p[..at], Load16(p, at), p[at + 2..]);
    PseudoField(proto, src, dst, p[..at], w, p[at + 2..]);
    DamageShows(IpBytes(src) + IpBytes(dst) + [0, proto] + Be16(|p| % 0x1_0000) + p[..at], Load16(p, at), w,
        p[at + 2..]);
  }

  /** A built segment with any one word changed on the way is not delivered. */
  lemma TcpDamaged(src: Ip, dst: Ip, s: Segment, at: nat, w: u16)
    requires Sendable(s) && at % 2 == 0 && at + 2 <= |TcpSegment(src, dst, s)| &&
             w % 0xffff != Load16(TcpSegment(src, dst, s), at) % 0xffff
    ensures HandleTcp(src, dst, Damaged(TcpSegment(src, dst, s), at, w)) == Dropped
  {
    hide TcpHead, Be16, Load16, Load32, Checksum, PayloadChecksum, LegalFlags, Damaged;
    TransportSum(TCP, src, dst, TcpHead(s), [0, 0] + s.options + s.payload);
    TcpFields(s, PayloadChecksum(TCP, src, dst, TcpWith(s, 0)));
    DamagedTransport(TCP, src, dst, TcpSegment(src, dst, s), at, w);
  }

  /** Nor is a built datagram, if its length field is intact and its checksum was not erased. */
  lemma UdpDamaged(src: Ip, dst: Ip, sport: u16, dport: u16, payload: seq<byte>, at: nat, w: u16)
    requires 8 + |payload| <= 1472 && at % 2 == 0 && at + 2 <= |UdpSegment(src, dst, sport, dport, payload)|
    requires at != 4 && (at == 6 ==> w != 0) &&
             w % 0xffff != Load16(UdpSegment(src, dst, sport, dport, payload), at) % 0xffff
    ensures HandleUdp(src, dst, Damaged(UdpSegment(src, dst, sport, dport, payload), at, w)) == Dropped
  {
    hide UdpHead, Be16, Load16, Checksum, PayloadChecksum, Damaged;
    var sum := PayloadChecksum(UDP, src, dst, UdpWith(sport, dport, 0, payload));
    TransportSum(UDP, src, dst, UdpHead(sport, dport, |payload|), payload);
    UdpFields(sport, dport, if sum == 0 then 0xffff else sum, payload);
    var p := UdpSegment(src, dst, sport, dport, payload);
    DamagedTransport(UDP, src, dst, p, at, w);
    DamagedField(p, at, w, 4);
    DamagedField(p, at, w, 6);
    var q := Damaged(p, at, w);
    assert q[..|p|] == q;
  }

  lemma DamagedField(p: seq<byte>, at: nat, w: u16, field: nat)
    requires at % 2 == 0 && at + 2 <= |p| && field % 2 == 0 && field + 2 <= |p|
    ensures Load16(Damaged(p, at, w), field) == if field == at then w else Load16(p, field)
  {
  }

  /** Nor is a built packet with a word of its header, past the first, changed. */
  lemma IpDamaged(h: Host, src: Ip, id: u16, proto: byte, ttl: byte, tos: byte, payload: seq<byte>, at: nat, w: u16)
    requires |payload| <= 1480 && at % 2 == 0 && 2 <= at < 20
    requires at + 2 <= |IpPacket(src, h.local, id, proto, ttl, tos, payload)|
    requires w % 0xffff != Load16(IpPacket(src, h.local, id, proto, ttl, tos, payload), at) % 0xffff
    ensures HandleIpv4(h, Damaged(IpPacket(src, h.local, id, proto, ttl, tos, payload), at, w)) == Dropped
  {
    hide IpWith, Load16, LoadIp, Checksum, HandleTcp, HandleUdp, InvalidSource, Broadcast, Damaged;
    var len := |payload|;
    var sum := Checksum(IpWith(src, h.local, id, proto, ttl, tos, len, 0));
    IpFields(src, h.local, id, proto, ttl, tos, len, sum, payload);
    IpSum(src, h.local, id, proto, ttl, tos, len);
    var p := IpPacket(src, h.local, id, proto, ttl, tos, payload);
    DamagedHeader(p, at, w);
  }

  lemma DamagedHeader(p: seq<byte>, at: nat, w: u16)
    requires |p| >= 20 && at % 2 == 0 && 2 <= at < 20 && Checksum(p[..20]) == 0 && w % 0xffff != Load16(p, at) % 0xffff
    ensures Checksum(Damaged(p, at, w)[..20]) != 0 && Damaged(p, at, w)[0] == p[0]
  {
    hide Checksum;
    var h := p[..20];
    WordAt(h, at);
    DamageShows(h[..at], Load16(h, at), w, h[at + 2..]);
    assert Damaged(p, at, w)[..20] == h[..at] + Be16(w) + h[at + 2..];
  }

  // ---------------------------------------------------------------- building in place

  /** Stores bytes after a prefix that is already there. */
  method Put(buf: array<byte>, ghost done: seq<byte>, at: nat, bytes: seq<byte>)
    requires at + |bytes| <= buf.Length && buf[..at] == done
    modifies buf
    ensures buf[..at + |bytes|] == done + bytes
    ensures buf[at + |bytes|..] == old(buf[at + |bytes|..])
  {
    for i := 0 to |bytes|
      invariant buf[..at] == done && buf[at..at + i] == bytes[..i]
      invariant buf[at + |bytes|..] == old(buf[at + |bytes|..])
    {
      buf[at + i] := bytes[i];
      assert bytes[..i + 1] == bytes[..i] + [bytes[i]];
    }
    assert bytes[..|bytes|] == bytes;
  }

  /** Fills in a checksum field that was left zero. */
  method Fill(buf: array<byte>, at: nat, v: u16, ghost pre: seq<byte>, ghost post: seq<byte>)
    requires |pre| == at && at + 2 + |post| <= buf.Length && buf[..at + 2 + |post|] == pre + Be16(0) + post
    modifies buf
    ensures buf[..at + 2 + |post|] == pre + Be16(v) + post
  {
    buf[at], buf[at + 1] := v / 0x100, v % 0x100;
    var n := at + 2 + |post|;
    forall i | 0 <= i < n
      ensures buf[..n][i] == (pre + Be16(v) + post)[i]
    {
      assert i < at || i >= at + 2 ==> old(buf[..n])[i] == (pre + Be16(0) + post)[i];
    }
  }

  class Sender {
    const local: Ip
    var nextId: u16

    constructor (local: Ip)
      ensures this.local == local && nextId == 1
    {
      this.local := local;
      nextId := 1;
    }

    /** `build_ipv4_frame` */
    method BuildIpv4Frame(frame: array<byte>, mac: seq<byte>, proto: byte, ttl: byte, tos: byte, dst: Ip,
        payload: seq<byte>) returns (n: nat)
      requires |mac| == 6 && |payload| <= 1480 && frame.Length >= 34 + |payload|
      modifies this, frame
      ensures n == 34 + |payload| && nextId == (old(nextId) + 1) % 0x1_0000
      ensures frame[..n] == Frame(mac, IpPacket(local, dst, old(nextId), proto, ttl, tos, payload))
    {
      hide Be16, IpBytes, Checksum;
      ghost var done := [];
      Put(frame, done, 0, mac);
      done := done + mac;
      Put(frame, done, 6, LOCAL_MAC);
      done := done + LOCAL_MAC;
      Put(frame, done, 12, Be16(0x0800));
      done := done + Be16(0x0800);
      ghost var eth := done;
      assert |eth| == 14 && eth == mac + LOCAL_MAC + Be16(0x0800);
      Put(frame, done, 14, IpHead(local, dst, nextId, proto, ttl, tos, |payload|));
      done := done + IpHead(local, dst, nextId, proto, ttl, tos, |payload|);
      ghost var pre := done;
      Put(frame, done, 24, Be16(0));
      done := done + Be16(0);
      Put(frame, done, 26, IpBytes(local) + IpBytes(dst));
      ghost var ip := IpWith(local, dst, nextId, proto, ttl, tos, |payload|, 0);
      HeaderIn(eth, IpHead(local, dst, nextId, proto, ttl, tos, |payload|), Be16(0), IpBytes(local) + IpBytes(dst));
      assert frame[14..34] == frame[..34][14..] == ip;
      var sum := ComputeChecksum(frame[14..34]);
      Fill(frame, 24, sum, pre, IpBytes(local) + IpBytes(dst));
      HeaderIn(eth, IpHead(local, dst, nextId, proto, ttl, tos, |payload|), Be16(sum), IpBytes(local) + IpBytes(dst));
      ghost var id := nextId;
      nextId := (nextId + 1) % 0x1_0000;
      Put(frame, eth + IpWith(local, dst, id, proto, ttl, tos, |payload|, sum), 34, payload);
      assert eth + IpWith(local, dst, id, proto, ttl, tos, |payload|, sum) + payload ==
             eth + (IpWith(local, dst, id, proto, ttl, tos, |payload|, sum) + payload);
      n := 34 + |payload|;
    }
  }

  lemma HeaderIn(eth: seq<byte>, head: seq<byte>, sum: seq<byte>, ips: seq<byte>)
    ensures eth + head + sum + ips == eth + (head + sum + ips)
    ensures (eth + head + sum + ips)[|eth|..] == head + sum + ips
  {
  }

  /** `net_udp_send_ttl_tos` up to the hand-over to IPv4. */
  method BuildUdp(packet: array<byte>, src: Ip, dst: Ip, sport: u16, dport: u16, payload: seq<byte>)
      returns (ok: bool, n: nat)
    requires packet.Length >= 8 + 1472
    modifies packet
    ensures ok <==> |payload| + 8 <= 1472
    ensures ok ==> n == 8 + |payload| && packet[..n] == UdpSegment(src, dst, sport, dport, payload)
  {
    hide Be16, Checksum, Pseudo;
    n := 8 + |payload|;
    if n > 1472 { return false, n; }
    Put(packet, [], 0, UdpHead(sport, dport, |payload|));
    assert [] + UdpHead(sport, dport, |payload|) == UdpHead(sport, dport, |payload|);
    Put(packet, UdpHead(sport, dport, |payload|), 6, Be16(0));
    Put(packet, UdpHead(sport, dport, |payload|) + Be16(0), 8, payload);
    var sum := SumPayload(UDP, src, dst, packet[..n]);
    Fill(packet, 6, if sum == 0 then 0xffff else sum, UdpHead(sport, dport, |payload|), payload);
    ok := true;
  }

  /** `net_tcp_send_segment_options_ttl_tos` up to the hand-over to IPv4. */
  method BuildTcp(packet: array<byte>, src: Ip, dst: Ip, s: Segment) returns (ok: bool, n: nat)
    requires packet.Length >= 20 + 40 + 1460
    modifies packet
    ensures ok <==> Sendable(s)
    ensures ok ==> n == 20 + |s.options| + |s.payload| && packet[..n] == TcpSegment(src, dst, s)
  {
    hide Be16, Checksum, Pseudo, TcpHead;
    n := 20 + |s.options| + |s.payload|;
    if !Sendable(s) { return false, n; }
    Put(packet, [], 0, TcpHead(s));
    assert [] + TcpHead(s) == TcpHead(s);
    Put(packet, TcpHead(s), 16, Be16(0));
    Put(packet, TcpHead(s) + Be16(0), 18, [0, 0] + s.options + s.payload);
    var sum := SumPayload(TCP, src, dst, packet[..n]);
    Fill(packet, 16, sum, TcpHead(s), [0, 0] + s.options + s.payload);
    ok := true;
  }

  /** `ip_payload_checksum` */
  method SumPayload(proto: byte, src: Ip, dst: Ip, payload: seq<byte>) returns (c: u16)
    ensures c == PayloadChecksum(proto, src, dst, payload)
  {
    hide Checksum;
    if |payload| > 1480 { return 0; }
    c := ComputeChecksum(Pseudo(proto, src, dst, payload));
  }
}
