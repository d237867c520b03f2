/** Ethernet, IPv4, UDP, ICMP and ARP frames: how the kernel builds them and how its receive
    path takes them apart (section 3.1 of RFC 791; RFC 768; RFC 826). */
module Frames {
  import opened Bytes
  import opened Wire

  type Mac = m: Str | |m| == 6 witness [0, 0, 0, 0, 0, 0]

  const ETH_ARP: u16 := 0x0806
  const ETH_IPV4: u16 := 0x0800
  const PROTO_ICMP: byte := 1
  const PROTO_UDP: byte := 17
  const PORT_DHCP_SERVER: u16 := 67
  const PORT_DHCP_CLIENT: u16 := 68
  const IP_ANY: u32 := 0
  const IP_BROADCAST: u32 := 0xFFFF_FFFF
  const MAX_PAYLOAD := 548

  // ---------------------------------------------------------------------------------------
  // Building
  // ---------------------------------------------------------------------------------------

  function EthHeader(dst: Mac, src: Mac, kind: u16): (h: Str)
    ensures |h| == 14
  {
    dst + src + Put16(kind)
  }

  /** An IPv4 header without options whose checksum field is still zero. */
  function IpBlank(total: u16, ident: u16, proto: byte, src: u32, dst: u32): (h: Str)
    ensures |h| == 20
  {
    [0x45, 0, total / 0x100, total % 0x100, ident / 0x100, ident % 0x100, 0, 0, 64, proto, 0, 0]
    + Put32(src) + Put32(dst)
  }

  function IpHeader(total: u16, ident: u16, proto: byte, src: u32, dst: u32): (h: Str)
    ensures |h| == 20
  {
    var blank := IpBlank(total, ident, proto, src, dst);
    Patch16(blank, 10, Checksum(blank))
  }

  function UdpHeader(srcPort: u16, dstPort: u16, length: u16): (h: Str)
    ensures |h| == 8
  {
    Put16(srcPort) + Put16(dstPort) + Put16(length) + [0, 0]
  }

  function UdpPacket(ident: u16, src: u32, dst: u32, srcPort: u16, dstPort: u16, payload: Str): (p: Str)
    requires |payload| <= MAX_PAYLOAD
    ensures |p| == 28 + |payload|
  {
    IpHeader(28 + |payload|, ident, PROTO_UDP, src, dst) + (UdpHeader(srcPort, dstPort, 8 + |payload|) + payload)
  }

  /** The data of an echo request: type 8, identifier, sequence, and bytes 8 to 31. */
  function EchoBlank(ident: u16, sequence: u16): (b: Str)
    ensures |b| == 32
  {
    [8, 0, 0, 0] + Put16(ident) + Put16(sequence)
    + [8, 9, 10, 11, 12, 13, 14, 15, 16, 17, 18, 19, 20, 21, 22, 23, 24, 25, 26, 27, 28, 29, 30, 31]
  }

  function Echo(ident: u16, sequence: u16): (b: Str)
    ensures |b| == 32
  {
    Patch16(EchoBlank(ident, sequence), 2, Checksum(EchoBlank(ident, sequence)))
  }

  /** The driver pads short frames with zeros to 60 bytes. */
  function OnWire(frame: Str): (w: Str)
    ensures |w| >= 60
  {
    if |frame| < 60 then frame + Zeros(60 - |frame|) else frame
  }

  // ---------------------------------------------------------------------------------------
  // Taking apart
  // ---------------------------------------------------------------------------------------

  /** What a received frame turns out to be for the host that received it. */
  datatype Delivery = Dropped | ToArp(packet: Str) | ToIcmp(packet: Str) | ToDhcp(payload: Str)

  function HeaderLength(p: Str): nat
    requires p != []
  {
    p[0] % 16 * 4
  }

  function DemuxUdp(p: Str): Delivery
    requires |p| >= 20
  {
    var ihl := HeaderLength(p);
    if ihl < 20 || |p| < ihl + 8 then Dropped
    else
      var length := Be16(p, ihl + 4);
      if length < 8 || |p| < ihl + length then Dropped
      else if Be16(p, ihl) == PORT_DHCP_SERVER && Be16(p, ihl + 2) == PORT_DHCP_CLIENT
      then ToDhcp(p[ihl + 8..ihl + length])
      else Dropped
  }

  predicate Acceptable(dst: u32, proto: byte, own: u32) {
    if proto == PROTO_UDP then dst == own || dst == IP_BROADCAST || own == IP_ANY else dst == own
  }

  function DemuxIp(p: Str, own: u32): Delivery {
    if |p| < 20 then Dropped
    else
      var ihl, total := HeaderLength(p), Be16(p, 2);
      if p[0] < 0x45 || p[0] > 0x4F || |p| < ihl then Dropped
      else if total < ihl || total > |p| then Dropped
      else if Checksum(p[..ihl]) != 0 then Dropped
      else if p[6] % 0x40 != 0 || p[7] != 0 then Dropped
      else if !Acceptable(Be32(p, 16), p[9], own) then Dropped
      else if p[9] == PROTO_ICMP then ToIcmp(p[..total])
      else if p[9] == PROTO_UDP then DemuxUdp(p[..total])
      else Dropped
  }

  function Demux(frame: Str, own: u32): Delivery {
    if |frame| < 14 then Dropped
    else if Be16(frame, 12) == ETH_ARP then ToArp(frame[14..])
    else if Be16(frame, 12) == ETH_IPV4 then DemuxIp(frame[14..], own)
    else Dropped
  }

  // ---------------------------------------------------------------------------------------
  // The two are inverse
  // ---------------------------------------------------------------------------------------

  lemma IpHeaderFields(total: u16, ident: u16, proto: byte, src: u32, dst: u32, p: Str)
    requires |p| >= 20 && p[..20] == IpHeader(total, ident, proto, src, dst)
    ensures p[0] == 0x45 && Be16(p, 2) == total && Be16(p, 6) == 0 && p[9] == proto && Be32(p, 16) == dst
    ensures Checksum(p[..20]) == 0
  {
    hide Checksum;
    var blank := IpBlank(total, ident, proto, src, dst);
    ChecksumLaw(blank, 10);
    var h := IpHeader(total, ident, proto, src, dst);
    assert forall i :: 0 <= i < 20 ==> p[i] == h[i];
    assert forall i :: 0 <= i < 20 && i != 10 && i != 11 ==> h[i] == blank[i];
    assert p[16..20] == Put32(dst);
    Put32Reads(p, 16, dst);
  }

  /** Any packet behind a built header passes every length, checksum and fragment test, with
      padding after it cut off again. */
  lemma IpPasses(ident: u16, proto: byte, src: u32, dst: u32, body: Str, pad: Str, own: u32)
    requires |body| <= 0xFFFF - 20 && Acceptable(dst, proto, own)
    ensures var packet := IpHeader(20 + |body|, ident, proto, src, dst) + body;
            DemuxIp(packet + pad, own)
            == if proto == PROTO_ICMP then ToIcmp(packet) else if proto == PROTO_UDP then DemuxUdp(packet) else Dropped
  {
    hide Checksum, IpHeader;
    var packet := IpHeader(20 + |body|, ident, proto, src, dst) + body;
    var p := packet + pad;
    assert p[..20] == IpHeader(20 + |body|, ident, proto, src, dst);
    IpHeaderFields(20 + |body|, ident, proto, src, dst, p);
    assert p[..20 + |body|] == packet;
  }

  lemma EthReads(dst: Mac, src: Mac, kind: u16, body: Str, pad: Str)
    ensures var f := EthHeader(dst, src, kind) + body + pad;
            |f| >= 14 && Be16(f, 12) == kind && f[14..] == body + pad
  {
    var f := EthHeader(dst, src, kind) + body + pad;
    assert f[12..14] == Put16(kind);
    Put16Reads(f, 12, kind);
  }

  lemma UdpReads(h: Str, srcPort: u16, dstPort: u16, payload: Str)
    requires |h| == 20 && h[0] == 0x45 && |payload| <= MAX_PAYLOAD
    ensures DemuxUdp(h + (UdpHeader(srcPort, dstPort, 8 + |payload|) + payload))
            == if srcPort == PORT_DHCP_SERVER && dstPort == PORT_DHCP_CLIENT then ToDhcp(payload) else Dropped
  {
    hide UdpHeader, Be16, Put16;
    var p := h + (UdpHeader(srcPort, dstPort, 8 + |payload|) + payload);
    UdpSlices(h, srcPort, dstPort, payload, p);
    assert p[0] == 0x45;
    Put16Reads(p, 20, srcPort);
    Put16Reads(p, 22, dstPort);
    Put16Reads(p, 24, 8 + |payload|);
  }

  lemma UdpSlices(h: Str, srcPort: u16, dstPort: u16, payload: Str, p: Str)
    requires |h| == 20 && |payload| <= MAX_PAYLOAD
    requires p == h + (UdpHeader(srcPort, dstPort, 8 + |payload|) + payload)
    ensures p[20..22] == Put16(srcPort) && p[22..24] == Put16(dstPort) && p[24..26] == Put16(8 + |payload|)
    ensures p[28..28 + |payload|] == payload
  {
    assert p[20..28] == UdpHeader(srcPort, dstPort, 8 + |payload|);
    SliceOfSlice(p, 20, 28, 0, 2);
    SliceOfSlice(p, 20, 28, 2, 4);
    SliceOfSlice(p, 20, 28, 4, 6);
  }

  function UdpFrame(dstMac: Mac, srcMac: Mac, ident: u16, src: u32, dst: u32, srcPort: u16, dstPort: u16,
                    payload: Str): (f: Str)
    requires |payload| <= MAX_PAYLOAD
    ensures |f| == 42 + |payload|
  {
    EthHeader(dstMac, srcMac, ETH_IPV4) + UdpPacket(ident, src, dst, srcPort, dstPort, payload)
  }

  /** Sending and receiving UDP are inverse: whatever the payload, the padded frame passes all
      checks of any host the destination is acceptable to, and DHCP gets exactly the payload. */
  lemma UdpRoundTrip(dstMac: Mac, srcMac: Mac, ident: u16, src: u32, dst: u32, payload: Str, own: u32)
    requires |payload| <= MAX_PAYLOAD && Acceptable(dst, PROTO_UDP, own)
    ensures Demux(OnWire(UdpFrame(dstMac, srcMac, ident, src, dst, PORT_DHCP_SERVER, PORT_DHCP_CLIENT, payload)), own)
            == ToDhcp(payload)
  {
    hide EthHeader, IpHeader, UdpHeader, DemuxIp, DemuxUdp;
    var body := UdpHeader(PORT_DHCP_SERVER, PORT_DHCP_CLIENT, 8 + |payload|) + payload;
    var h := IpHeader(20 + |body|, ident, PROTO_UDP, src, dst);
    var f := UdpFrame(dstMac, srcMac, ident, src, dst, PORT_DHCP_SERVER, PORT_DHCP_CLIENT, payload);
    var pad := if |f| < 60 then Zeros(60 - |f|) else [];
    assert OnWire(f) == f + pad;
    assert f == EthHeader(dstMac, srcMac, ETH_IPV4) + (h + body);
    EthReads(dstMac, srcMac, ETH_IPV4, h + body, pad);
    IpPasses(ident, PROTO_UDP, src, dst, body, pad, own);
    assert h[..20] == h;
    IpHeaderFields(20 + |body|, ident, PROTO_UDP, src, dst, h);
    UdpReads(h, PORT_DHCP_SERVER, PORT_DHCP_CLIENT, payload);
  }

  function EchoFrame(dstMac: Mac, srcMac: Mac, src: u32, dst: u32, ident: u16, sequence: u16): (f: Str)
    ensures |f| == 66
  {
    EthHeader(dstMac, srcMac, ETH_IPV4) + (IpHeader(52, sequence, PROTO_ICMP, src, dst) + Echo(ident, sequence))
  }

  /** An echo request reaches the ICMP handler of its target and passes its checksum there. */
  lemma EchoRoundTrip(dstMac: Mac, srcMac: Mac, src: u32, dst: u32, ident: u16, sequence: u16)
    ensures var d := Demux(OnWire(EchoFrame(dstMac, srcMac, src, dst, ident, sequence)), dst);
            d.ToIcmp? && |d.packet| == 52 && d.packet[20..] == Echo(ident, sequence) && Checksum(d.packet[20..]) == 0
  {
    hide EthHeader, IpHeader, DemuxIp, Checksum, EchoBlank;
    var h := IpHeader(52, sequence, PROTO_ICMP, src, dst);
    var body := Echo(ident, sequence);
    EthReads(dstMac, srcMac, ETH_IPV4, h + body, []);
    assert EchoFrame(dstMac, srcMac, src, dst, ident, sequence)
        == EthHeader(dstMac, srcMac, ETH_IPV4) + (h + body) + [];
    IpPasses(sequence, PROTO_ICMP, src, dst, body, [], dst);
    assert (h + body)[20..] == body;
    EchoBlankEven(ident, sequence);
    ChecksumLaw(EchoBlank(ident, sequence), 2);
  }

  lemma EchoBlankEven(ident: u16, sequence: u16)
    ensures EchoBlank(ident, sequence)[2] == 0 && EchoBlank(ident, sequence)[3] == 0
  {
  }

  // ---------------------------------------------------------------------------------------
  // Byte by byte
  // ---------------------------------------------------------------------------------------

  /** A UDP frame on the wire, field by field: destination first, then source. */
  lemma UdpBytes(dstMac: Mac, srcMac: Mac, ident: u16, src: u32, dst: u32, srcPort: u16, dstPort: u16, payload: Str)
    requires |payload| <= 548
    ensures var w := OnWire(UdpFrame(dstMac, srcMac, ident, src, dst, srcPort, dstPort, payload));
            && |w| == (if |payload| < 18 then 60 else 42 + |payload|)
            && w[..6] == dstMac && w[6..12] == srcMac && w[12..14] == [8, 0]
            && w[14..16] == [0x45, 0] && w[16..18] == Put16(28 + |payload|) && w[18..20] == Put16(ident)
            && w[20..24] == [0, 0, 64, 17] && w[26..30] == Put32(src) && w[30..34] == Put32(dst)
            && w[34..36] == Put16(srcPort) && w[36..38] == Put16(dstPort) && w[38..40] == Put16(8 + |payload|)
            && w[40..42] == [0, 0] && w[42..42 + |payload|] == payload
            && forall i :: 42 + |payload| <= i < |w| ==> w[i] == 0
  {
    hide IpHeader, Put16, Put32;
    var h := IpHeader(28 + |payload|, ident, PROTO_UDP, src, dst);
    var u := UdpHeader(srcPort, dstPort, 8 + |payload|);
    var f := UdpFrame(dstMac, srcMac, ident, src, dst, srcPort, dstPort, payload);
    var w := OnWire(f);
    assert f == EthHeader(dstMac, srcMac, ETH_IPV4) + (h + (u + payload));
    FrameParts(dstMac, srcMac, ETH_IPV4, h, u + payload, w);
    EthBytes(dstMac, srcMac, 8, 0);
    IpBytes(28 + |payload|, ident, 17, src, dst);
    assert w[34..42] == u && w[42..42 + |payload|] == payload;
    UdpParts(srcPort, dstPort, 8 + |payload|);
    SliceOfSlice(w, 34, 42, 0, 2);
    SliceOfSlice(w, 34, 42, 2, 4);
    SliceOfSlice(w, 34, 42, 4, 6);
    SliceOfSlice(w, 34, 42, 6, 8);
    FrameSlices(w);
  }

  /** Slices of a frame's first 34 bytes as slices of its two headers. */
  lemma FrameSlices(w: Str)
    requires |w| >= 34
    ensures w[..14][..6] == w[..6] && w[..14][6..12] == w[6..12] && w[..14][12..14] == w[12..14]
    ensures w[14..34][..2] == w[14..16] && w[14..34][2..4] == w[16..18] && w[14..34][4..6] == w[18..20]
    ensures w[14..34][6..10] == w[20..24] && w[14..34][12..16] == w[26..30] && w[14..34][16..20] == w[30..34]
  {
    assert w[..14] == w[0..14];
    SliceOfSlice(w, 0, 14, 6, 12);
    SliceOfSlice(w, 0, 14, 12, 14);
    SliceOfSlice(w, 14, 34, 2, 4);
    SliceOfSlice(w, 14, 34, 4, 6);
    SliceOfSlice(w, 14, 34, 6, 10);
    SliceOfSlice(w, 14, 34, 12, 16);
    SliceOfSlice(w, 14, 34, 16, 20);
  }

  lemma FrameParts(dstMac: Mac, srcMac: Mac, kind: u16, h: Str, body: Str, w: Str)
    requires |h| == 20 && w == OnWire(EthHeader(dstMac, srcMac, kind) + (h + body))
    ensures |w| == (if |body| < 26 then 60 else 34 + |body|)
    ensures w[..14] == EthHeader(dstMac, srcMac, kind) && w[14..34] == h && w[34..34 + |body|] == body
    ensures forall i :: 34 + |body| <= i < |w| ==> w[i] == 0
  {
    hide EthHeader, OnWire;
    var e := EthHeader(dstMac, srcMac, kind);
    var f := e + (h + body);
    WirePads(f);
    assert f[0..14] == e && f[14..34] == h && f[34..34 + |body|] == body;
    SliceOfSlice(w, 0, |f|, 0, 14);
    SliceOfSlice(w, 0, |f|, 14, 34);
    SliceOfSlice(w, 0, |f|, 34, 34 + |body|);
  }

  /** A frame on the wire: itself, then zeros up to 60 bytes. */
  lemma WirePads(f: Str)
    ensures var w := OnWire(f);
            && |w| == (if |f| < 60 then 60 else |f|) && w[0..|f|] == f
            && forall i :: |f| <= i < |w| ==> w[i] == 0
  {
  }

  lemma EthBytes(dstMac: Mac, srcMac: Mac, hi: byte, lo: byte)
    ensures var e := EthHeader(dstMac, srcMac, 0x100 * hi + lo);
            e[..6] == dstMac && e[6..12] == srcMac && e[12..14] == [hi, lo]
  {
    hide Put16;
    ByteOrder(hi, lo);
  }

  lemma IpBytes(total: u16, ident: u16, proto: byte, src: u32, dst: u32)
    ensures var h := IpHeader(total, ident, proto, src, dst);
            && h[..2] == [0x45, 0] && h[2..4] == Put16(total) && h[4..6] == Put16(ident)
            && h[6..10] == [0, 0, 64, proto] && h[12..16] == Put32(src) && h[16..20] == Put32(dst)
  {
    hide Checksum, Put32;
    var b := IpBlank(total, ident, proto, src, dst);
    var h := IpHeader(total, ident, proto, src, dst);
    assert forall i :: 0 <= i < 20 && i != 10 && i != 11 ==> h[i] == b[i];
    IpAddresses(total, ident, proto, src, dst);
    assert h[..2] == b[..2] && h[2..4] == b[2..4] && h[4..6] == b[4..6] && h[6..10] == b[6..10];
    assert h[12..16] == b[12..16] && h[16..20] == b[16..20];
  }

  lemma IpAddresses(total: u16, ident: u16, proto: byte, src: u32, dst: u32)
    ensures IpBlank(total, ident, proto, src, dst)[12..16] == Put32(src)
    ensures IpBlank(total, ident, proto, src, dst)[16..20] == Put32(dst)
  {
    hide Put32;
    Put32Length(src);
    Put32Length(dst);
  }

  lemma UdpParts(srcPort: u16, dstPort: u16, length: u16)
    ensures var u := UdpHeader(srcPort, dstPort, length);
            u[..2] == Put16(srcPort) && u[2..4] == Put16(dstPort) && u[4..6] == Put16(length) && u[6..8] == [0, 0]
  {
  }

  /** An echo request on the wire. */
  lemma EchoBytes(dstMac: Mac, srcMac: Mac, src: u32, dst: u32, ident: u16, sequence: u16)
    ensures var w := OnWire(EchoFrame(dstMac, srcMac, src, dst, ident, sequence));
            && |w| == 66 && w[..6] == dstMac && w[6..12] == srcMac && w[12..14] == [8, 0]
            && w[14..16] == [0x45, 0] && w[16..18] == [0, 52] && w[18..20] == Put16(sequence)
            && w[20..24] == [0, 0, 64, 1] && w[26..30] == Put32(src) && w[30..34] == Put32(dst)
            && w[34] == 8 && w[35] == 0 && w[38..40] == Put16(ident) && w[40..42] == Put16(sequence)
            && forall i :: 42 <= i < 66 ==> w[i] == i - 34
  {
    hide IpHeader, Put32, Checksum;
    var h, body := IpHeader(52, sequence, PROTO_ICMP, src, dst), Echo(ident, sequence);
    var w := OnWire(EchoFrame(dstMac, srcMac, src, dst, ident, sequence));
    FrameParts(dstMac, srcMac, ETH_IPV4, h, body, w);
    EthBytes(dstMac, srcMac, 8, 0);
    IpBytes(52, sequence, 1, src, dst);
    EchoParts(ident, sequence);
    assert forall i :: 34 <= i < 66 ==> w[i] == w[34..66][i - 34] == body[i - 34];
    assert w[38..40] == body[4..6] && w[40..42] == body[6..8];
    FrameSlices(w);
  }

  lemma EchoParts(ident: u16, sequence: u16)
    ensures var e := Echo(ident, sequence);
            && e[0] == 8 && e[1] == 0 && e[4..6] == Put16(ident) && e[6..8] == Put16(sequence)
            && forall i :: 8 <= i < 32 ==> e[i] == i
  {
    hide Checksum;
    var b, e := EchoBlank(ident, sequence), Echo(ident, sequence);
    assert b[4..6] == Put16(ident) && b[6..8] == Put16(sequence);
    assert forall i :: 0 <= i < 32 && i != 2 && i != 3 ==> e[i] == b[i];
    assert e[4..6] == b[4..6] && e[6..8] == b[6..8];
  }

  /** Version 4, a header of at least five words inside a total length inside the packet, a
      correct header checksum, and no fragment. */
  predicate SoundHeader(p: Str) {
    |p| >= 20 && p[0] / 16 == 4
    && var ihl, total := 4 * (p[0] % 16), Be16(p, 2);
       20 <= ihl <= total <= |p| && OnesSum(p[..ihl]) == 0xFFFF && p[6] % 64 == 0 && p[7] == 0
  }

  /** Exactly which packets get through, to whom, and what part of them. */
  lemma DeliveredExactly(p: Str, own: u32, x: Str)
    ensures DemuxIp(p, own) == ToIcmp(x)
            <==> SoundHeader(p) && p[9] == 1 && Be32(p, 16) == own && x == p[..Be16(p, 2)]
    ensures DemuxIp(p, own) == ToDhcp(x)
            <==> && SoundHeader(p) && p[9] == 17
                 && (Be32(p, 16) == own || Be32(p, 16) == 0xFFFF_FFFF || own == 0)
                 && UdpInside(p[..Be16(p, 2)], 4 * (p[0] % 16), x)
    ensures !DemuxIp(p, own).ToArp?
  {
    hide Be32, OnesSum, DemuxUdp;
    if SoundHeader(p) {
      UdpDelivered(p[..Be16(p, 2)], x);
    }
  }

  /** Behind `ihl` bytes of header, a datagram from port 67 to port 68 with payload `x`. */
  predicate UdpInside(p: Str, ihl: nat, x: Str) {
    |p| >= ihl + 8
    && var length := Be16(p, ihl + 4);
       && 8 <= length && ihl + length <= |p| && x == p[ihl + 8..ihl + length]
       && Be16(p, ihl) == 67 && Be16(p, ihl + 2) == 68
  }

  lemma UdpDelivered(p: Str, x: Str)
    requires |p| >= 20 && p[0] % 16 >= 5
    ensures DemuxUdp(p) == ToDhcp(x) <==> UdpInside(p, 4 * (p[0] % 16), x)
    ensures DemuxUdp(p).ToDhcp? || DemuxUdp(p) == Dropped
  {
  }

  /** The type field decides: 0806 for ARP, 0800 for IPv4, and nothing else. */
  lemma TypeDecides(frame: Str, own: u32)
    ensures Demux(frame, own)
            == if |frame| >= 14 && frame[12..14] == [8, 6] then ToArp(frame[14..])
               else if |frame| >= 14 && frame[12..14] == [8, 0] then DemuxIp(frame[14..], own)
               else Dropped
  {
    hide DemuxIp;
    if |frame| >= 14 {
      assert frame[12..14] == [frame[12], frame[13]];
    }
  }
}
