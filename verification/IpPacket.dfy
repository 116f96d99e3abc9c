/** IP packets: parsing what comes out of a tunnel and building UDP datagrams. */
module IpPacket {
  import opened Bytes
  import opened InternetChecksum

  const IPPROTO_TCP: byte := 6
  const IPPROTO_UDP: byte := 17
  const IPV4_HEADER: nat := 20
  const IPV6_HEADER: nat := 40

  datatype Family = Inet | Inet6

  datatype Host = Host(family: Family, address: seq<byte>, port: nat)

  datatype Packet = Packet(
    version: byte, src: Host, dst: Host, nextHeader: byte, encoding: seq<byte>, payload: seq<byte>)

  datatype Ports = Ports(source: nat, destination: nat)

  function Min(a: nat, b: nat): nat {
    if a < b then a else b
  }

  // ----- parsing

  /** Ports are known for UDP and TCP only; their headers have to be complete. */
  function TransportPorts(payload: seq<byte>, proto: byte): Option<Ports> {
    if proto == IPPROTO_UDP || proto == IPPROTO_TCP then
      if |payload| < (if proto == IPPROTO_UDP then 8 else 20) then None
      else Some(Ports(U16(payload[0], payload[1]), U16(payload[2], payload[3])))
    else Some(Ports(0, 0))
  }

  /** Hop-by-hop options, routing, fragment, destination options, mobility, HIP, Shim6. */
  predicate IsExtension(proto: byte) {
    proto == 0 || proto == 43 || proto == 44 || proto == 60 || proto == 135 || proto == 139 || proto == 140
  }

  datatype Walk = Walk(proto: byte, payload: seq<byte>, fragment: bool)

  /** One extension header further. */
  function NextHeader(w: Walk): (next: Walk)
    requires |w.payload| >= 2
    ensures |next.payload| < |w.payload| && IsSuffix(next.payload, w.payload)
  {
    var units: nat := w.payload[1];
    Walk(w.payload[0], Skip(w.payload, 8 * (units + 1)), w.fragment || w.proto == 44)
  }

  /** Where the extension headers end. */
  function WalkExtensions(w: Walk): (end: Walk)
    ensures IsSuffix(end.payload, w.payload)
    ensures |end.payload| >= 2 ==> !IsExtension(end.proto)
    decreases |w.payload|
  {
    if |w.payload| >= 2 && IsExtension(w.proto) then
      var end := WalkExtensions(NextHeader(w));
      SuffixTransitive(end.payload, NextHeader(w).payload, w.payload);
      end
    else w
  }

  function PortsAfter(w: Walk): Option<Ports> {
    if |w.payload| >= 2 && !w.fragment then TransportPorts(w.payload, w.proto) else Some(Ports(0, 0))
  }

  /** The walk as a loop that moves a cursor. */
  method ParseTransportHeaderV6(proto: byte, payload: seq<byte>) returns (end: Walk, ports: Option<Ports>)
    ensures end == WalkExtensions(Walk(proto, payload, false)) && ports == PortsAfter(end)
  {
    end := Walk(proto, payload, false);
    while |end.payload| >= 2
      invariant WalkExtensions(end) == WalkExtensions(Walk(proto, payload, false))
      decreases |end.payload|
    {
      if IsExtension(end.proto) {
        end := NextHeader(end);
      } else {
        ports := if end.fragment then Some(Ports(0, 0)) else TransportPorts(end.payload, end.proto);
        return;
      }
    }
    ports := Some(Ports(0, 0));
  }

  function ParseV4(packet: seq<byte>): Option<Packet>
    requires |packet| >= 1
  {
    if |packet| < IPV4_HEADER then None else
      var encoding := packet[..Min(|packet|, U16(packet[2], packet[3]))];
      var payload := Skip(encoding, packet[0] % 16 * 4);
      var fragment := packet[6] % 32 != 0 || packet[7] != 0;
      match if fragment then Some(Ports(0, 0)) else TransportPorts(payload, packet[9])
      case None => None
      case Some(ports) =>
        Some(Packet(4, Host(Inet, packet[12..16], ports.source), Host(Inet, packet[16..20], ports.destination),
                    packet[9], encoding, payload))
  }

  function EncodingV6(packet: seq<byte>): (e: seq<byte>)
    requires |packet| >= IPV6_HEADER
    ensures e <= packet && |e| >= IPV6_HEADER
  {
    packet[..Min(|packet|, IPV6_HEADER + U16(packet[4], packet[5]))]
  }

  function ParseV6(packet: seq<byte>): (r: Option<Packet>)
    requires |packet| >= 1
    ensures r.Some? ==> r.value.encoding <= packet && IsSuffix(r.value.payload, r.value.encoding)
  {
    if |packet| < IPV6_HEADER then None else
      var encoding := EncodingV6(packet);
      var end := WalkExtensions(Walk(packet[6], Skip(encoding, IPV6_HEADER), false));
      SuffixTransitive(end.payload, Skip(encoding, IPV6_HEADER), encoding);
      PacketV6(packet, encoding, end)
  }

  function PacketV6(packet: seq<byte>, encoding: seq<byte>, end: Walk): Option<Packet>
    requires |packet| >= IPV6_HEADER
  {
    match PortsAfter(end)
    case None => None
    case Some(ports) =>
      Some(Packet(6, Host(Inet6, packet[8..24], ports.source), Host(Inet6, packet[24..40], ports.destination),
                  end.proto, encoding, end.payload))
  }

  function Parse(packet: seq<byte>): Option<Packet> {
    if |packet| < 1 then None
    else if packet[0] / 16 == 4 then ParseV4(packet)
    else if packet[0] / 16 == 6 then ParseV6(packet)
    else None
  }

  /** The encoding is what the length field leaves of the input, and the payload is
      the end of it. */
  lemma ParsedParts(packet: seq<byte>)
    requires Parse(packet).Some?
    ensures var p := Parse(packet).value; p.encoding <= packet && IsSuffix(p.payload, p.encoding)
  {
    if packet[0] / 16 == 4 {
      assert ParseV4(packet).value.encoding <= packet;
    }
  }

  lemma SameSlice(e: seq<byte>, packet: seq<byte>, lo: nat, hi: nat)
    requires e <= packet && lo <= hi <= |e|
    ensures e[lo..hi] == packet[lo..hi]
  {
  }

  /** Parsing the encoding of a parsed packet gives the packet again, except when an
      IPv4 length field cuts into the header: then it fails. */
  lemma ParseEncoding(packet: seq<byte>)
    requires Parse(packet).Some?
    ensures Parse(Parse(packet).value.encoding) == if CutsHeader(packet) then None else Parse(packet)
  {
    if packet[0] / 16 == 4 {
      ParseEncodingV4(packet);
    } else {
      ParseEncodingV6(packet);
    }
  }

  /** An IPv4 length field below the size of the header. */
  predicate CutsHeader(packet: seq<byte>) {
    |packet| >= 4 && packet[0] / 16 == 4 && U16(packet[2], packet[3]) < IPV4_HEADER
  }

  lemma ParseEncodingV4(packet: seq<byte>)
    requires |packet| >= 1 && packet[0] / 16 == 4 && ParseV4(packet).Some?
    ensures Parse(ParseV4(packet).value.encoding) == if CutsHeader(packet) then None else ParseV4(packet)
  {
    var e := ParseV4(packet).value.encoding;
    if !CutsHeader(packet) {
      SameSlice(e, packet, 12, 16);
      SameSlice(e, packet, 16, 20);
      assert e[..Min(|e|, U16(e[2], e[3]))] == e;
    }
  }

  /** Such a packet: a bare header with length 0 and a protocol without ports. */
  lemma CutHeaderIsParsedOnce()
    ensures var packet := [0x45, 0, 0, 0, 0, 0, 0, 0, 0, 1, 0, 0, 0, 0, 0, 0, 0, 0, 0, 0];
      Parse(packet).Some? && Parse(Parse(packet).value.encoding) == None
  {
    var packet := [0x45, 0, 0, 0, 0, 0, 0, 0, 0, 1, 0, 0, 0, 0, 0, 0, 0, 0, 0, 0];
    assert ParseV4(packet).Some?;
    ParseEncoding(packet);
  }

  lemma ParseEncodingV6(packet: seq<byte>)
    requires |packet| >= 1 && packet[0] / 16 == 6 && ParseV6(packet).Some?
    ensures Parse(ParseV6(packet).value.encoding) == ParseV6(packet)
  {
    EncodingV6Fixed(packet);
  }

  lemma EncodingV6Fixed(packet: seq<byte>)
    requires |packet| >= IPV6_HEADER
    ensures var e := EncodingV6(packet);
      && |e| >= IPV6_HEADER && EncodingV6(e) == e && e[0] == packet[0] && e[6] == packet[6]
      && e[8..24] == packet[8..24] && e[24..40] == packet[24..40]
  {
    var e := EncodingV6(packet);
    SameSlice(e, packet, 8, 24);
    SameSlice(e, packet, 24, 40);
    assert e[..|e|] == e;
  }

  /** Bytes after the packet do not matter: they are padding for traffic flow
      confidentiality. */
  lemma ParseIgnoresTrailer(packet: seq<byte>, trailer: seq<byte>)
    requires Parse(packet).Some? && |Parse(packet).value.encoding| < |packet|
    ensures Parse(packet + trailer) == Parse(packet)
  {
    if packet[0] / 16 == 4 {
      TrailerV4(packet, trailer);
    } else {
      TrailerV6(packet, trailer);
    }
  }

  lemma TrailerV4(packet: seq<byte>, trailer: seq<byte>)
    requires |packet| >= IPV4_HEADER && U16(packet[2], packet[3]) < |packet|
    ensures ParseV4(packet + trailer) == ParseV4(packet)
  {
    var q, n := packet + trailer, U16(packet[2], packet[3]);
    assert q[12..16] == packet[12..16] && q[16..20] == packet[16..20];
    assert q[..n] == packet[..n];
  }

  lemma TrailerV6(packet: seq<byte>, trailer: seq<byte>)
    requires |packet| >= IPV6_HEADER && IPV6_HEADER + U16(packet[4], packet[5]) < |packet|
    ensures ParseV6(packet + trailer) == ParseV6(packet)
  {
    var q, n := packet + trailer, IPV6_HEADER + U16(packet[4], packet[5]);
    assert q[8..24] == packet[8..24] && q[24..40] == packet[24..40];
    assert EncodingV6(q) == EncodingV6(packet) by {
      assert q[..n] == packet[..n];
    }
  }

  // ----- what is parsed, in bytes

  /** How much of the transport header there has to be. */
  function Needed(proto: byte, fragment: bool): nat {
    if fragment then 0 else match proto case 17 => 8 case 6 => 20 case _ => 0
  }

  /** The ports are the first two 16-bit numbers of a UDP or TCP header, and else zero. */
  predicate HasPorts(p: Packet, payload: seq<byte>, needed: nat)
    requires |payload| >= needed && (needed > 0 ==> needed >= 8)
  {
    && p.src.port == (if needed > 0 then U16(payload[0], payload[1]) else 0)
    && p.dst.port == if needed > 0 then U16(payload[2], payload[3]) else 0
  }

  /** IPv4: addresses, protocol and lengths at their places, header words of four bytes,
      and no ports in fragments. */
  lemma ParsedV4(packet: seq<byte>)
    requires |packet| >= 1 && packet[0] / 16 == 4
    ensures Parse(packet).Some? ==> |packet| >= 20
    ensures |packet| >= 20 ==>
      var len, size := U16(packet[2], packet[3]), 4 * (packet[0] % 16);
      var encoding := if len < |packet| then packet[..len] else packet;
      var payload := if size < |encoding| then encoding[size..] else [];
      var needed := Needed(packet[9], packet[6] % 32 != 0 || packet[7] != 0);
      && (Parse(packet).Some? <==> |payload| >= needed)
      && (Parse(packet).Some? ==>
            var p := Parse(packet).value;
            && p.version == 4 && p.nextHeader == packet[9] && p.encoding == encoding && p.payload == payload
            && p.src.family == p.dst.family == Inet
            && p.src.address == packet[12..16] && p.dst.address == packet[16..20] && HasPorts(p, payload, needed))
  {
  }

  /** IPv6: the same after the extension headers. */
  lemma ParsedV6(packet: seq<byte>, encoding: seq<byte>, end: Walk, needed: nat)
    requires |packet| >= 40 && packet[0] / 16 == 6
    requires encoding == packet[..Min(|packet|, 40 + U16(packet[4], packet[5]))]
    requires end == WalkExtensions(Walk(packet[6], encoding[40..], false))
    requires needed == if |end.payload| < 2 then 0 else Needed(end.proto, end.fragment)
    ensures IsPacketV6(Parse(packet), packet, encoding, end, needed)
  {
    EncodedV6(packet, encoding);
    WalkedV6(packet, encoding, encoding[40..], end);
    FieldsV6(packet, encoding, end, needed);
  }

  predicate IsPacketV6(r: Option<Packet>, packet: seq<byte>, encoding: seq<byte>, end: Walk, needed: nat)
    requires |packet| >= 40 && (needed > 0 ==> needed >= 8)
  {
    && (r.Some? <==> |end.payload| >= needed)
    && (r.Some? ==>
          var p := r.value;
          && p.version == 6 && p.nextHeader == end.proto && p.encoding == encoding && p.payload == end.payload
          && p.src.family == p.dst.family == Inet6
          && p.src.address == packet[8..24] && p.dst.address == packet[24..40] && HasPorts(p, end.payload, needed))
  }

  lemma EncodedV6(packet: seq<byte>, encoding: seq<byte>)
    requires |packet| >= 40 && encoding == packet[..Min(|packet|, 40 + U16(packet[4], packet[5]))]
    ensures |encoding| >= 40 && encoding == EncodingV6(packet) && encoding[40..] == Skip(encoding, IPV6_HEADER)
  {
  }

  lemma WalkedV6(packet: seq<byte>, encoding: seq<byte>, rest: seq<byte>, end: Walk)
    requires |packet| >= 40 && packet[0] / 16 == 6
    requires encoding == EncodingV6(packet) && rest == Skip(encoding, IPV6_HEADER)
    requires end == WalkExtensions(Walk(packet[6], rest, false))
    ensures Parse(packet) == PacketV6(packet, encoding, end)
  {
  }

  lemma FieldsV6(packet: seq<byte>, encoding: seq<byte>, end: Walk, needed: nat)
    requires |packet| >= 40 && needed == if |end.payload| < 2 then 0 else Needed(end.proto, end.fragment)
    ensures IsPacketV6(PacketV6(packet, encoding, end), packet, encoding, end, needed)
  {
    PortsNeeded(end, needed);
  }

  lemma PortsNeeded(end: Walk, needed: nat)
    requires needed == if |end.payload| < 2 then 0 else Needed(end.proto, end.fragment)
    ensures PortsAfter(end) == if |end.payload| < needed then None
      else if needed == 0 then Some(Ports(0, 0))
      else Some(Ports(U16(end.payload[0], end.payload[1]), U16(end.payload[2], end.payload[3])))
  {
  }

  /** Packets of other versions, and IPv6 packets without a whole header, are refused. */
  lemma NotParsed(packet: seq<byte>)
    requires packet == [] || (packet[0] / 16 != 4 && (packet[0] / 16 != 6 || |packet| < 40))
    ensures Parse(packet) == None
  {
  }

  /** An extension header: its own type, and what follows the type of the next header
      and the length. */
  datatype Extension = Extension(kind: byte, data: seq<byte>)

  predicate ValidExtension(e: Extension) {
    && e.kind in {0, 43, 44, 60, 135, 139, 140}
    && |e.data| % 8 == 6 && |e.data| <= 2046
  }

  function FirstKind(exts: seq<Extension>, last: byte): byte {
    if exts == [] then last else exts[0].kind
  }

  /** Units of eight bytes, of which the first one is not counted. */
  function PrintExtensions(exts: seq<Extension>, last: byte, rest: seq<byte>): seq<byte>
    requires forall e | e in exts :: ValidExtension(e)
  {
    if exts == [] then rest
    else
      assert ValidExtension(exts[0]);
      [FirstKind(exts[1..], last), |exts[0].data| / 8] + exts[0].data + PrintExtensions(exts[1..], last, rest)
  }

  /** Any list of extension headers is skipped, and a fragment header among them noticed. */
  lemma {:induction false} WalkPrinted(exts: seq<Extension>, last: byte, rest: seq<byte>, fragment: bool)
    requires forall e | e in exts :: ValidExtension(e)
    requires last !in {0, 43, 44, 60, 135, 139, 140}
    ensures WalkExtensions(Walk(FirstKind(exts, last), PrintExtensions(exts, last, rest), fragment))
      == Walk(last, rest, fragment || exists e :: e in exts && e.kind == 44)
  {
    if exts != [] {
      var e, tail := exts[0], PrintExtensions(exts[1..], last, rest);
      var s := PrintExtensions(exts, last, rest);
      assert ValidExtension(e) && s[|e.data| + 2..] == tail;
      var w := Walk(e.kind, s, fragment);
      SkipsOne(w, e, tail);
      WalkPrinted(exts[1..], last, rest, fragment || e.kind == 44);
      FragmentAmong(exts);
    }
  }

  lemma FragmentAmong(exts: seq<Extension>)
    requires exts != []
    ensures (exists e :: e in exts && e.kind == 44)
      <==> exts[0].kind == 44 || exists e :: e in exts[1..] && e.kind == 44
  {
    assert exts == [exts[0]] + exts[1..];
  }

  lemma SkipsOne(w: Walk, e: Extension, tail: seq<byte>)
    requires ValidExtension(e) && w.proto == e.kind && |w.payload| == |e.data| + 2 + |tail|
    requires w.payload[1] == |e.data| / 8 && w.payload[|e.data| + 2..] == tail
    ensures IsExtension(w.proto) && NextHeader(w) == Walk(w.payload[0], tail, w.fragment || e.kind == 44)
  {
    assert 8 * (|e.data| / 8 + 1) == |e.data| + 2;
  }

  // ----- building

  predicate ValidHost(h: Host) {
    |h.address| == (if h.family == Inet then 4 else 16) && h.port < 0x1_0000
  }

  function PseudoHeader(src: Host, dst: Host, proto: byte, len: nat): seq<byte> {
    match src.family
    case Inet => src.address + dst.address + [0, proto] + FromU16(len)
    case Inet6 => src.address + dst.address + FromU16(len) + [0, 0] + [0, 0, 0, proto]
  }

  /** First over the pseudo header, then over the segment. */
  ghost function SegmentChecksum(src: Host, dst: Host, proto: byte, payload: seq<byte>): nat {
    ChecksumInc(payload, Checksum(PseudoHeader(src, dst, proto, |payload|)))
  }

  predicate HasChecksum(proto: byte, payload: seq<byte>) {
    (proto == IPPROTO_UDP && |payload| >= 8) || (proto == IPPROTO_TCP && |payload| >= 20)
  }

  function SetPort(s: seq<byte>, at: nat, port: nat): (r: seq<byte>)
    requires at + 2 <= |s|
    ensures |r| == |s|
  {
    if port != 0 then Patched(s, at, FromU16(port)) else s
  }

  lemma SetPortElsewhere(s: seq<byte>, at: nat, port: nat, lo: nat, hi: nat)
    requires at + 2 <= |s| && lo <= hi <= |s| && (hi <= at || at + 2 <= lo)
    ensures SetPort(s, at, port)[lo..hi] == s[lo..hi]
  {
    PatchedElsewhere(s, at, FromU16(port), lo, hi);
  }

  /** The sum of the pseudo header of RFC 768 and RFC 8200: addresses, protocol, length. */
  lemma PseudoSum(src: Host, dst: Host, proto: byte, len: nat)
    requires ValidHost(src) && ValidHost(dst) && src.family == dst.family && len < 0x1_0000
    ensures Words(PseudoHeader(src, dst, proto, len)) == Words(src.address) + Words(dst.address) + proto + len
  {
    OneWord([0, proto]);
    OneWord(FromU16(len));
    if src.family == Inet {
      WordsOfFour(src.address, dst.address, [0, proto], FromU16(len));
    } else {
      assert [0, 0] + [0, 0, 0, proto] == Zeros(4) + [0, proto];
      WordsOfFour(src.address, dst.address, FromU16(len), [0, 0] + [0, 0, 0, proto]);
      WordsAppend(Zeros(4), [0, proto]);
      NoWords(4);
      assert PseudoHeader(src, dst, proto, len)
        == src.address + dst.address + FromU16(len) + ([0, 0] + [0, 0, 0, proto]);
    }
  }

  /** With the ports set and no checksum. */
  function BlankSegment(src: Host, dst: Host, proto: byte, payload: seq<byte>): (p: seq<byte>)
    requires HasChecksum(proto, payload)
    ensures |p| == |payload|
  {
    Patched(SetPort(SetPort(payload, 0, src.port), 2, dst.port), if proto == IPPROTO_UDP then 6 else 16, [0, 0])
  }

  /** Sets the ports that are known and the checksum of a UDP or TCP header. */
  ghost function FixTransportHeader(src: Host, dst: Host, proto: byte, payload: seq<byte>): (r: seq<byte>)
    ensures |r| == |payload|
  {
    if HasChecksum(proto, payload) then
      var blank := BlankSegment(src, dst, proto, payload);
      Patched(blank, if proto == IPPROTO_UDP then 6 else 16, FromU16(SegmentChecksum(src, dst, proto, blank)))
    else payload
  }

  predicate IsPort(two: seq<byte>, port: nat, before: seq<byte>) {
    two == if port != 0 then FromU16(port) else before
  }

  /** Only the ports that are given and the checksum change, and only in UDP and TCP
      headers that are complete. */
  lemma FixedParts(src: Host, dst: Host, proto: byte, payload: seq<byte>)
    ensures var r := FixTransportHeader(src, dst, proto, payload);
      if (proto == 17 && |payload| >= 8) || (proto == 6 && |payload| >= 20) then
        var check := if proto == 17 then 6 else 16;
        && IsPort(r[0..2], src.port, payload[0..2]) && IsPort(r[2..4], dst.port, payload[2..4])
        && r[4..check] == payload[4..check] && r[check + 2..] == payload[check + 2..]
      else r == payload
  {
    if HasChecksum(proto, payload) {
      var check := if proto == 17 then 6 else 16;
      var one := SetPort(payload, 0, src.port);
      var two := SetPort(one, 2, dst.port);
      var sum := FixedForm(src, dst, proto, payload, two, check);
      PortsSet(payload, one, two, src.port, dst.port);
      FixedRest(two, FixTransportHeader(src, dst, proto, payload), check, sum);
      assert two[4..check] == two[4..][..check - 4] && two[check + 2..] == two[4..][check - 2..];
      assert payload[4..check] == payload[4..][..check - 4] && payload[check + 2..] == payload[4..][check - 2..];
    }
  }

  lemma FixedForm(src: Host, dst: Host, proto: byte, payload: seq<byte>, two: seq<byte>, check: nat)
      returns (sum: seq<byte>)
    requires HasChecksum(proto, payload) && check == if proto == 17 then 6 else 16
    requires two == SetPort(SetPort(payload, 0, src.port), 2, dst.port)
    ensures |sum| == 2 && FixTransportHeader(src, dst, proto, payload) == Patched(two, check, sum)
  {
    sum := FromU16(SegmentChecksum(src, dst, proto, Patched(two, check, [0, 0])));
    PatchedTwice(two, check, sum);
  }

  lemma PatchedTwice(s: seq<byte>, at: nat, two: seq<byte>)
    requires at + 2 <= |s| && |two| == 2
    ensures Patched(Patched(s, at, [0, 0]), at, two) == Patched(s, at, two)
  {
  }

  lemma PortsSet(s: seq<byte>, one: seq<byte>, two: seq<byte>, source: nat, destination: nat)
    requires |s| >= 4 && one == SetPort(s, 0, source) && two == SetPort(one, 2, destination)
    ensures IsPort(two[0..2], source, s[0..2]) && IsPort(two[2..4], destination, s[2..4]) && two[4..] == s[4..]
  {
    if destination != 0 {
      PatchedThere(one, 2, FromU16(destination));
    }
    SetPortElsewhere(one, 2, destination, 0, 2);
    SetPortElsewhere(s, 0, source, 2, 4);
    SetPortElsewhere(one, 2, destination, 4, |s|);
    SetPortElsewhere(s, 0, source, 4, |s|);
    if source != 0 {
      PatchedThere(s, 0, FromU16(source));
    }
  }

  lemma FixedRest(s: seq<byte>, r: seq<byte>, check: nat, b: seq<byte>)
    requires 4 <= check && check + 2 <= |s| && |b| == 2 && r == Patched(s, check, b)
    ensures r[0..2] == s[0..2] && r[2..4] == s[2..4]
    ensures r[4..check] == s[4..check] && r[check + 2..] == s[check + 2..]
  {
    PatchedElsewhere(s, check, b, 0, 2);
    PatchedElsewhere(s, check, b, 2, 4);
    PatchedElsewhere(s, check, b, 4, check);
    PatchedElsewhere(s, check, b, check + 2, |s|);
  }

  /** The same, in place. */
  method FixInPlace(src: Host, dst: Host, proto: byte, payload: array<byte>)
    modifies payload
    ensures payload[..] == FixTransportHeader(src, dst, proto, old(payload[..]))
  {
    if (proto == IPPROTO_UDP && payload.Length >= 8) || (proto == IPPROTO_TCP && payload.Length >= 20) {
      var check := if proto == IPPROTO_UDP then 6 else 16;
      if src.port != 0 { PatchInPlace(payload, 0, FromU16(src.port)); }
      if dst.port != 0 { PatchInPlace(payload, 2, FromU16(dst.port)); }
      PatchInPlace(payload, check, [0, 0]);
      var sum := Compute(PseudoHeader(src, dst, proto, payload.Length), 0xffff);
      sum := Compute(payload[..], sum);
      PatchInPlace(payload, check, FromU16(sum));
    }
  }

  method PatchInPlace(a: array<byte>, at: nat, two: seq<byte>)
    requires at + 2 <= a.Length && |two| == 2
    modifies a
    ensures a[..] == Patched(old(a[..]), at, two)
  {
    a[at], a[at + 1] := two[0], two[1];
  }

  ghost function HeaderV4(src: Host, dst: Host, proto: byte, len: nat): (h: seq<byte>)
    requires |src.address| == |dst.address| == 4
    ensures |h| == IPV4_HEADER && h[0] == 0x45 && h[6] == 0 && h[7] == 0 && h[9] == proto
    ensures [h[2], h[3]] == FromU16(IPV4_HEADER + len) && h[12..16] == src.address && h[16..20] == dst.address
  {
    var front := [0x45, 0] + FromU16(IPV4_HEADER + len) + [0, 0, 0, 0, 0x80, proto];
    var sum := Checksum(front + [0, 0] + src.address + dst.address);
    front + FromU16(sum) + src.address + dst.address
  }

  function HeaderV6(src: Host, dst: Host, proto: byte, len: nat): (h: seq<byte>)
    requires |src.address| == |dst.address| == 16
    ensures |h| == IPV6_HEADER && h[0] == 0x60 && h[6] == proto
    ensures [h[4], h[5]] == FromU16(len) && h[8..24] == src.address && h[24..40] == dst.address
  {
    [0x60, 0, 0, 0] + FromU16(len) + [proto, 0x80] + src.address + dst.address
  }

  /** No options, fragments or flow label, and 128 hops. */
  lemma HeaderConstants(src: Host, dst: Host, proto: byte, len: nat)
    requires ValidHost(src) && ValidHost(dst) && src.family == dst.family
    ensures src.family == Inet ==>
      var h := HeaderV4(src, dst, proto, len); h[..2] == [0x45, 0] && h[4..10] == [0, 0, 0, 0, 0x80, proto]
    ensures src.family == Inet6 ==>
      var h := HeaderV6(src, dst, proto, len); h[..4] == [0x60, 0, 0, 0] && h[6..8] == [proto, 0x80]
  {
  }

  ghost function CreateFromData(src: Host, dst: Host, proto: byte, data: seq<byte>): Option<Packet>
    requires ValidHost(src) && ValidHost(dst)
  {
    if src.family != dst.family then None else
      var payload := FixTransportHeader(src, dst, proto, data);
      match src.family
      case Inet => Parse(HeaderV4(src, dst, proto, |data|) + payload)
      case Inet6 => Parse(HeaderV6(src, dst, proto, |data|) + payload)
  }

  ghost function CreateUdpFromData(src: Host, dst: Host, data: seq<byte>): Option<Packet>
    requires ValidHost(src) && ValidHost(dst)
  {
    CreateFromData(src, dst, IPPROTO_UDP, UdpDatagram(data))
  }

  /** Ports and checksum are still to be set. */
  function UdpDatagram(data: seq<byte>): (d: seq<byte>)
    ensures |d| == 8 + |data| && d[8..] == data && d[4..6] == FromU16(8 + |data|)
    ensures d[6] == 0 && d[7] == 0 && forall i | 0 <= i < 4 :: d[i] == 0
  {
    Zeros(4) + FromU16(8 + |data|) + Zeros(2) + data
  }

  /** A UDP datagram built for two hosts parses to these hosts, their ports and the
      data, as long as its length fits the length fields. */
  lemma UdpRoundTrip(src: Host, dst: Host, data: seq<byte>)
    requires ValidHost(src) && ValidHost(dst) && src.family == dst.family
    requires 8 + |data| + (if src.family == Inet then IPV4_HEADER else 0) < 0x1_0000
    ensures CreateUdpFromData(src, dst, data).Some?
    ensures var p := CreateUdpFromData(src, dst, data).value;
      && p.version == (if src.family == Inet then 4 else 6) && p.nextHeader == IPPROTO_UDP
      && p.src == src && p.dst == dst
      && |p.payload| == 8 + |data| && p.payload[8..] == data && p.payload[4..6] == FromU16(8 + |data|)
      && |p.encoding| == (if src.family == Inet then IPV4_HEADER else IPV6_HEADER) + |p.payload|
  {
    var datagram := UdpDatagram(data);
    UdpPorts(src, dst, datagram);
    UdpRest(src, dst, datagram);
    UdpPacket(src, dst, datagram);
  }

  lemma UdpPacket(src: Host, dst: Host, datagram: seq<byte>)
    requires ValidHost(src) && ValidHost(dst) && src.family == dst.family
    requires |datagram| + (if src.family == Inet then IPV4_HEADER else 0) < 0x1_0000
    requires TransportPorts(FixTransportHeader(src, dst, IPPROTO_UDP, datagram), IPPROTO_UDP)
      == Some(Ports(src.port, dst.port))
    ensures var payload := FixTransportHeader(src, dst, IPPROTO_UDP, datagram);
      var header := if src.family == Inet then HeaderV4(src, dst, IPPROTO_UDP, |payload|)
        else HeaderV6(src, dst, IPPROTO_UDP, |payload|);
      CreateFromData(src, dst, IPPROTO_UDP, datagram)
      == Some(Packet(if src.family == Inet then 4 else 6, src, dst, IPPROTO_UDP, header + payload, payload))
  {
    var payload := FixTransportHeader(src, dst, IPPROTO_UDP, datagram);
    CreatedIsParsed(src, dst, IPPROTO_UDP, datagram);
    if src.family == Inet {
      BuiltV4(src, dst, payload);
    } else {
      BuiltV6(src, dst, payload);
    }
  }

  lemma CreatedIsParsed(src: Host, dst: Host, proto: byte, data: seq<byte>)
    requires ValidHost(src) && ValidHost(dst) && src.family == dst.family
    ensures CreateFromData(src, dst, proto, data)
      == var payload := FixTransportHeader(src, dst, proto, data);
         Parse(if src.family == Inet then HeaderV4(src, dst, proto, |payload|) + payload
               else HeaderV6(src, dst, proto, |payload|) + payload)
  {
  }

  lemma UdpPorts(src: Host, dst: Host, datagram: seq<byte>)
    requires src.port < 0x1_0000 && dst.port < 0x1_0000
    requires |datagram| >= 8 && forall i | 0 <= i < 4 :: datagram[i] == 0
    ensures TransportPorts(FixTransportHeader(src, dst, IPPROTO_UDP, datagram), IPPROTO_UDP)
      == Some(Ports(src.port, dst.port))
  {
  }

  lemma UdpRest(src: Host, dst: Host, datagram: seq<byte>)
    requires |datagram| >= 8
    ensures var r := FixTransportHeader(src, dst, IPPROTO_UDP, datagram);
      r[4..6] == datagram[4..6] && r[8..] == datagram[8..]
  {
    var blank := BlankSegment(src, dst, IPPROTO_UDP, datagram);
    var check := FromU16(SegmentChecksum(src, dst, IPPROTO_UDP, blank));
    BlankRest(src, dst, datagram, 4, 6);
    BlankRest(src, dst, datagram, 8, |datagram|);
    PatchedElsewhere(blank, 6, check, 4, 6);
    PatchedElsewhere(blank, 6, check, 8, |datagram|);
  }

  lemma BlankRest(src: Host, dst: Host, datagram: seq<byte>, lo: nat, hi: nat)
    requires |datagram| >= 8 && 4 <= lo <= hi <= |datagram| && (hi <= 6 || 8 <= lo)
    ensures BlankSegment(src, dst, IPPROTO_UDP, datagram)[lo..hi] == datagram[lo..hi]
  {
    var p1 := SetPort(datagram, 0, src.port);
    SetPortElsewhere(datagram, 0, src.port, lo, hi);
    SetPortElsewhere(p1, 2, dst.port, lo, hi);
    PatchedElsewhere(SetPort(p1, 2, dst.port), 6, [0, 0], lo, hi);
  }

  lemma BuiltV4(src: Host, dst: Host, payload: seq<byte>)
    requires ValidHost(src) && ValidHost(dst) && src.family == dst.family == Inet
    requires IPV4_HEADER + |payload| < 0x1_0000
    requires TransportPorts(payload, IPPROTO_UDP) == Some(Ports(src.port, dst.port))
    ensures var whole := HeaderV4(src, dst, IPPROTO_UDP, |payload|) + payload;
      Parse(whole) == Some(Packet(4, src, dst, IPPROTO_UDP, whole, payload))
  {
    ParseBehindHeader(HeaderV4(src, dst, IPPROTO_UDP, |payload|), payload, Ports(src.port, dst.port));
  }

  lemma ParseBehindHeader(header: seq<byte>, payload: seq<byte>, ports: Ports)
    requires |header| == IPV4_HEADER && header[0] == 0x45 && header[6] == 0 && header[7] == 0
    requires U16(header[2], header[3]) == IPV4_HEADER + |payload|
    requires TransportPorts(payload, header[9]) == Some(ports)
    ensures var whole := header + payload;
      Parse(whole) == Some(Packet(
        4, Host(Inet, header[12..16], ports.source), Host(Inet, header[16..20], ports.destination),
        header[9], whole, payload))
  {
    var whole := header + payload;
    assert whole[12..16] == header[12..16] && whole[16..20] == header[16..20];
    assert whole[..|whole|] == whole && Skip(whole, 20) == payload;
  }

  lemma BuiltV6(src: Host, dst: Host, payload: seq<byte>)
    requires ValidHost(src) && ValidHost(dst) && src.family == dst.family == Inet6
    requires |payload| < 0x1_0000
    requires TransportPorts(payload, IPPROTO_UDP) == Some(Ports(src.port, dst.port))
    ensures var whole := HeaderV6(src, dst, IPPROTO_UDP, |payload|) + payload;
      Parse(whole) == Some(Packet(6, src, dst, IPPROTO_UDP, whole, payload))
  {
    ParseBehindHeaderV6(HeaderV6(src, dst, IPPROTO_UDP, |payload|), payload, Ports(src.port, dst.port));
  }

  lemma ParseBehindHeaderV6(header: seq<byte>, payload: seq<byte>, ports: Ports)
    requires |header| == IPV6_HEADER && header[0] == 0x60 && !IsExtension(header[6])
    requires U16(header[4], header[5]) == |payload| >= 2
    requires TransportPorts(payload, header[6]) == Some(ports)
    ensures var whole := header + payload;
      Parse(whole) == Some(Packet(
        6, Host(Inet6, header[8..24], ports.source), Host(Inet6, header[24..40], ports.destination),
        header[6], whole, payload))
  {
    var whole := header + payload;
    assert whole[8..24] == header[8..24] && whole[24..40] == header[24..40];
    assert EncodingV6(whole) == whole by {
      assert whole[..|whole|] == whole;
    }
    assert Skip(whole, IPV6_HEADER) == payload;
    assert WalkExtensions(Walk(header[6], payload, false)) == Walk(header[6], payload, false);
  }

  /** The receiver's check of a UDP or TCP checksum. */
  lemma SegmentChecks(src: Host, dst: Host, proto: byte, payload: seq<byte>)
    requires HasChecksum(proto, payload)
    requires ValidHost(src) && ValidHost(dst) && |payload| < 0x1_0000
    ensures Checks(PseudoHeader(src, dst, proto, |payload|), FixTransportHeader(src, dst, proto, payload))
  {
    var blank := BlankSegment(src, dst, proto, payload);
    ChecksumChecks(PseudoHeader(src, dst, proto, |payload|), blank, if proto == IPPROTO_UDP then 6 else 16);
  }

  /** The receiver's check of an IPv4 header. */
  lemma HeaderChecks(src: Host, dst: Host, proto: byte, len: nat)
    requires |src.address| == |dst.address| == 4
    ensures Checks([], HeaderV4(src, dst, proto, len))
  {
    var front := [0x45, 0] + FromU16(IPV4_HEADER + len) + [0, 0, 0, 0, 0x80, proto];
    var blank := front + [0, 0] + src.address + dst.address;
    HeaderSum(blank);
    FillIn(front, FromU16(Checksum(blank)), src.address, dst.address);
  }

  lemma HeaderSum(blank: seq<byte>)
    requires |blank| == IPV4_HEADER && blank[10] == 0 && blank[11] == 0
    ensures Checks([], Patched(blank, 10, FromU16(Checksum(blank))))
  {
    NothingBefore(blank);
    ChecksumChecks([], blank, 10);
  }

  lemma FillIn(front: seq<byte>, two: seq<byte>, a: seq<byte>, b: seq<byte>)
    requires |front| == 10 && |two| == 2
    ensures Patched(front + [0, 0] + a + b, 10, two) == front + two + a + b
  {
  }

  /** The sum over pseudo header and datagram before the checksum is set. */
  function UdpSum(src: Host, dst: Host, payload: seq<byte>): nat
    requires |payload| >= 8
  {
    Words(PseudoHeader(src, dst, IPPROTO_UDP, |payload|)) + Words(BlankSegment(src, dst, IPPROTO_UDP, payload))
  }

  /** RFC 768 reserves a zero checksum for datagrams without one, and has all ones sent
      in its place; this code sends the zero, exactly if the sum folds to all ones: if it
      is a multiple of 0xffff. */
  lemma UdpChecksumZero(src: Host, dst: Host, payload: seq<byte>, sum: nat)
    requires ValidHost(src) && ValidHost(dst) && 8 <= |payload| < 0x1_0000 && sum == UdpSum(src, dst, payload)
    ensures FixTransportHeader(src, dst, IPPROTO_UDP, payload)[6..8] == [0, 0] <==> Fold(sum) == 0xffff
  {
    var pseudo, blank := PseudoHeader(src, dst, IPPROTO_UDP, |payload|), BlankSegment(src, dst, IPPROTO_UDP, payload);
    PseudoNotZero(src, dst, |payload|);
    ZeroChecksum(pseudo, blank, sum);
    FixedUdp(src, dst, payload);
  }

  lemma PseudoNotZero(src: Host, dst: Host, len: nat)
    requires ValidHost(src) && ValidHost(dst)
    ensures var pseudo := PseudoHeader(src, dst, IPPROTO_UDP, len); |pseudo| < 0x100 && Words(pseudo) > 0
  {
    var pseudo := PseudoHeader(src, dst, IPPROTO_UDP, len);
    NotAllZero(pseudo, |pseudo| - (if src.family == Inet then 3 else 1));
  }

  lemma FixedUdp(src: Host, dst: Host, payload: seq<byte>)
    requires |payload| >= 8
    ensures FixTransportHeader(src, dst, IPPROTO_UDP, payload)[6..8] == [0, 0]
      <==> SegmentChecksum(src, dst, IPPROTO_UDP, BlankSegment(src, dst, IPPROTO_UDP, payload)) == 0
  {
    var blank := BlankSegment(src, dst, IPPROTO_UDP, payload);
    PatchedTwo(blank, 6, SegmentChecksum(src, dst, IPPROTO_UDP, blank));
  }

  lemma PatchedTwo(s: seq<byte>, at: nat, n: nat)
    requires at + 2 <= |s| && n < 0x1_0000
    ensures Patched(s, at, FromU16(n))[at..at + 2] == [0, 0] <==> n == 0
  {
    PatchedThere(s, at, FromU16(n));
  }

  /** Such a datagram: from and to 0.0.0.0, with two bytes of data. */
  lemma ZeroChecksumSent()
    ensures var h := Host(Inet, Zeros(4), 0);
      FixTransportHeader(h, h, IPPROTO_UDP, UdpDatagram(FromU16(0xffda)))[6..8] == [0, 0]
  {
    var h, d := Host(Inet, Zeros(4), 0), UdpDatagram(FromU16(0xffda));
    DatagramWords(0xffda);
    PseudoWords(10);
    AlreadyBlank(h, d);
    FoldUnique(0xffff, 0xffff, 0);
    UdpChecksumZero(h, h, d, 0xffff);
  }

  lemma AlreadyBlank(h: Host, d: seq<byte>)
    requires h.port == 0 && |d| >= 8 && d[6..8] == [0, 0]
    ensures BlankSegment(h, h, IPPROTO_UDP, d) == d
  {
    assert d == d[..6] + d[6..8] + d[8..];
  }

  lemma DatagramWords(n: nat)
    requires n < 0x1_0000
    ensures |UdpDatagram(FromU16(n))| == 10 && UdpDatagram(FromU16(n))[6..8] == [0, 0]
    ensures Words(UdpDatagram(FromU16(n))) == 10 + n
  {
    WordsOfFour(Zeros(4), FromU16(10), Zeros(2), FromU16(n));
    OneWord(FromU16(n));
    OneWord(FromU16(10));
    NoWords(4);
    NoWords(2);
  }

  lemma PseudoWords(n: nat)
    requires n < 0x1_0000
    ensures var h := Host(Inet, Zeros(4), 0); Words(PseudoHeader(h, h, IPPROTO_UDP, n)) == 17 + n
  {
    WordsOfFour(Zeros(4), Zeros(4), [0, IPPROTO_UDP], FromU16(n));
    OneWord(FromU16(n));
    OneWord([0, IPPROTO_UDP]);
    NoWords(4);
  }
}
