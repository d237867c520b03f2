/** A DHCP negotiation as a function of what arrives: which polls are consumed, what the lease
    is when the REQUEST is due and at the end, and when that is a success. */
module Negotiation {
  import opened Bytes
  import opened Wire
  import opened Frames
  import Arp
  import opened Dhcp

  /** `(uint32_t)((ticks << 16) ^ 0x4D474443)`. */
  function Xid(now: nat): u32 {
    SixteenBits();
    Xor(now % 0x1_0000, 0x4D47, 16) * 0x1_0000 + 0x4443
  }

  function Pow2(n: nat): nat {
    if n == 0 then 1 else 2 * Pow2(n - 1)
  }

  lemma SixteenBits()
    ensures Pow2(16) == 0x1_0000
  {
    assert Pow2(4) == 16;
    assert Pow2(8) == 16 * Pow2(4);
    assert Pow2(12) == 16 * Pow2(8);
    assert Pow2(16) == 16 * Pow2(12);
  }

  /** Exclusive or of the low `n` bits. */
  function Xor(a: nat, b: nat, n: nat): (r: nat)
    ensures r < Pow2(n)
  {
    if n == 0 then 0 else 2 * Xor(a / 2, b / 2, n - 1) + if a % 2 == b % 2 then 0 else 1
  }

  lemma {:induction false} XorUndoes(a: nat, b: nat, n: nat)
    requires a < Pow2(n)
    ensures Xor(Xor(a, b, n), b, n) == a
    decreases n
  {
    if n > 0 {
      XorUndoes(a / 2, b / 2, n - 1);
    }
  }

  lemma {:induction false} XorOfZero(b: nat, n: nat)
    requires b < Pow2(n)
    ensures Xor(0, b, n) == b
    decreases n
  {
    if n > 0 {
      XorOfZero(b / 2, n - 1);
    }
  }

  function Fresh(now: nat): Lease {
    NO_LEASE.(active := true, xid := Xid(now))
  }

  function Flat(polls: seq<seq<Str>>): seq<Str> {
    if polls == [] then [] else Flat(DropLast(polls)) + Last(polls)
  }

  function DiscoverFrame(mac: Mac, xid: u32, now: nat): Str {
    OnWire(UdpFrame(Arp.BROADCAST_MAC, mac, now % 0x1_0000, IP_ANY, IP_BROADCAST, PORT_DHCP_CLIENT, PORT_DHCP_SERVER,
                    DiscoverPayload(xid, mac)))
  }

  function RequestFrame(mac: Mac, l: Lease, now: nat): Str {
    OnWire(UdpFrame(Arp.BROADCAST_MAC, mac, now % 0x1_0000, IP_ANY, IP_BROADCAST, PORT_DHCP_CLIENT, PORT_DHCP_SERVER,
                    RequestPayload(l.xid, mac, l.offeredIp, l.serverIp)))
  }

  // ---------------------------------------------------------------------------------------
  // Waiting
  // ---------------------------------------------------------------------------------------

  /** Frames that fit a receive buffer. */
  predicate Short(frames: seq<Str>) {
    forall i :: 0 <= i < |frames| ==> |frames[i]| <= 1792
  }

  predicate Shows(l: Lease, forAck: bool) {
    if forAck then l.gotAck else l.gotOffer
  }

  lemma ShowsAck(l: Lease)
    ensures Shows(l, true) == l.gotAck
  {
  }

  /** How many polls a wait takes, `k` of them done: up to the first that leaves the lease
      showing what is awaited, or all. */
  function Consumed(l: Lease, mac: Mac, own: u32, polls: seq<seq<Str>>, forAck: bool, k: nat): (n: nat)
    requires k <= |polls|
    ensures k <= n <= |polls|
    ensures forall j :: k < j < n ==> !Shows(LeaseAfter(l, mac, own, Flat(polls[..j])), forAck)
    ensures n < |polls| ==> k < n && Shows(LeaseAfter(l, mac, own, Flat(polls[..n])), forAck)
    decreases |polls| - k
  {
    if k == |polls| then k
    else if Shows(LeaseAfter(l, mac, own, Flat(polls[..k + 1])), forAck) then k + 1
    else Consumed(l, mac, own, polls, forAck, k + 1)
  }

  /** The frames a wait consumes. */
  function Heard(l: Lease, mac: Mac, own: u32, polls: seq<seq<Str>>, forAck: bool): seq<Str> {
    Flat(polls[..Consumed(l, mac, own, polls, forAck, 0)])
  }

  lemma ConsumedStep(l: Lease, mac: Mac, own: u32, polls: seq<seq<Str>>, forAck: bool, k: nat)
    requires k < |polls|
    ensures Consumed(l, mac, own, polls, forAck, k)
            == if Shows(LeaseAfter(l, mac, own, Flat(polls[..k + 1])), forAck) then k + 1
               else Consumed(l, mac, own, polls, forAck, k + 1)
  {
    hide LeaseAfter, Flat, Shows;
  }

  lemma ConsumedAll(l: Lease, mac: Mac, own: u32, polls: seq<seq<Str>>, forAck: bool)
    ensures Consumed(l, mac, own, polls, forAck, |polls|) == |polls| && polls[..|polls|] == polls
  {
  }

  lemma {:induction false} FlatConcat(a: seq<seq<Str>>, b: seq<seq<Str>>)
    ensures Flat(a + b) == Flat(a) + Flat(b)
    decreases |b|
  {
    if b == [] {
      assert a + b == a;
    } else {
      assert DropLast(a + b) == a + DropLast(b) && Last(a + b) == Last(b);
      FlatConcat(a, DropLast(b));
      Regroup(Flat(a), Flat(DropLast(b)), Last(b));
    }
  }

  // ---------------------------------------------------------------------------------------
  // A negotiation
  // ---------------------------------------------------------------------------------------

  /** What each poll of the two waits delivers, and what interrupts deliver in between. */
  datatype Arrivals = Arrivals(discovering: seq<seq<Str>>, between: seq<Str>, requesting: seq<seq<Str>>)

  predicate AllShort(a: Arrivals) {
    && (forall k :: 0 <= k < |a.discovering| ==> Short(a.discovering[k])) && Short(a.between)
    && (forall k :: 0 <= k < |a.requesting| ==> Short(a.requesting[k]))
  }

  /** The frames heard before the REQUEST is due. */
  function Before(mac: Mac, own: u32, now: nat, a: Arrivals): seq<Str> {
    Heard(Fresh(now), mac, own, a.discovering, false) + a.between
  }

  function Offered(mac: Mac, own: u32, now: nat, a: Arrivals): Lease {
    LeaseAfter(Fresh(now), mac, own, Before(mac, own, now, a))
  }

  /** `dhcp_send_request` has something to ask for. */
  predicate CanRequest(l: Lease) {
    l.gotOffer && l.serverIp != 0 && l.offeredIp != 0
  }

  /** The frames heard after the REQUEST, none if it is not sent. */
  function After(mac: Mac, own: u32, now: nat, a: Arrivals): seq<Str> {
    if CanRequest(Offered(mac, own, now, a)) then Heard(Offered(mac, own, now, a), mac, own, a.requesting, true) else []
  }

  function Ended(mac: Mac, own: u32, now: nat, a: Arrivals): Lease {
    LeaseAfter(Offered(mac, own, now, a), mac, own, After(mac, own, now, a))
  }

  predicate Succeeds(mac: Mac, own: u32, now: nat, a: Arrivals) {
    CanRequest(Offered(mac, own, now, a)) && a.requesting != [] && Ended(mac, own, now, a).gotAck
  }

  function Wanted(xid: u32, mac: Mac, own: u32, kind: byte): Str -> bool {
    frame => Takes(xid, mac, own, frame, kind)
  }

  predicate Among(xid: u32, mac: Mac, own: u32, frames: seq<Str>, kind: byte) {
    Any(frames, Wanted(xid, mac, own, kind))
  }

  /** What is awaited is there after a wait exactly when it was there before or is among all
      that arrives: a wait never stops too early. */
  lemma WaitFinds(l: Lease, mac: Mac, own: u32, polls: seq<seq<Str>>, forAck: bool)
    requires l.active
    ensures Shows(LeaseAfter(l, mac, own, Heard(l, mac, own, polls, forAck)), forAck)
            <==> Shows(l, forAck) || Among(l.xid, mac, own, Flat(polls), if forAck then ACK else OFFER)
  {
    hide LeaseAfter, Takes, LastOffered, Consumed;
    var n := Consumed(l, mac, own, polls, forAck, 0);
    LeaseTracksFrames(l, mac, own, Flat(polls[..n]));
    assert polls == polls[..n] + polls[n..];
    FlatConcat(polls[..n], polls[n..]);
    AnyConcat(Flat(polls[..n]), Flat(polls[n..]), Wanted(l.xid, mac, own, if forAck then ACK else OFFER));
    if n == |polls| {
      assert polls[..n] == polls;
    }
  }

  /** A negotiation succeeds if and only if an OFFER arrives in the first wait or right after
      it, the last address offered by then is not 0 and the last server named is not 0, there is
      time for a poll after the REQUEST, and an ACK was heard before it or arrives after it. */
  lemma SucceedsExactly(mac: Mac, own: u32, now: nat, a: Arrivals)
    ensures var xid, before := Xid(now), Before(mac, own, now, a);
            Succeeds(mac, own, now, a)
            <==> && Among(xid, mac, own, Flat(a.discovering) + a.between, OFFER)
                 && LastOffered(xid, mac, own, before) !in {None, Some(0)} && LastServer(xid, mac, own, before) != 0
                 && a.requesting != []
                 && (Among(xid, mac, own, before, ACK) || Among(xid, mac, own, Flat(a.requesting), ACK))
  {
    hide LeaseAfter, Takes, LastOffered, LastServer, Xid, Heard, Flat, Any, Wanted;
    var xid, start, before := Xid(now), Fresh(now), Before(mac, own, now, a);
    var first := Heard(start, mac, own, a.discovering, false);
    WaitFinds(start, mac, own, a.discovering, false);
    FlagsAmong(start, mac, own, first);
    FlagsAmong(start, mac, own, before);
    AnyConcat(first, a.between, Wanted(xid, mac, own, OFFER));
    AnyConcat(Flat(a.discovering), a.between, Wanted(xid, mac, own, OFFER));
    ServerTracksFrames(start, mac, own, before);
    if CanRequest(Offered(mac, own, now, a)) {
      WaitFinds(Offered(mac, own, now, a), mac, own, a.requesting, true);
    }
  }

  lemma FlagsAmong(l: Lease, mac: Mac, own: u32, frames: seq<Str>)
    requires l.active && l.offeredIp == 0
    ensures var m := LeaseAfter(l, mac, own, frames);
            && m.active && m.xid == l.xid
            && (m.gotOffer <==> l.gotOffer || Among(l.xid, mac, own, frames, OFFER))
            && (m.gotAck <==> l.gotAck || Among(l.xid, mac, own, frames, ACK))
            && (m.offeredIp != 0 <==> LastOffered(l.xid, mac, own, frames) !in {None, Some(0)})
  {
    hide LeaseAfter, Takes, LastOffered;
    LeaseTracksFrames(l, mac, own, frames);
  }

  /** Every reply in the run names a server and, if it offers, a real address. */
  predicate Sane(xid: u32, mac: Mac, own: u32, frames: seq<Str>) {
    forall i :: 0 <= i < |frames| ==>
                  && (Replies(xid, mac, own, frames[i]) ==> ServerOf(xid, mac, own, frames[i], 0) != 0)
                  && OfferedBy(xid, mac, own, frames[i]) != Some(0)
  }

  lemma {:induction false} SaneRun(xid: u32, mac: Mac, own: u32, frames: seq<Str>)
    requires Sane(xid, mac, own, frames)
    ensures LastOffered(xid, mac, own, frames) != Some(0)
    ensures Among(xid, mac, own, frames, OFFER) ==>
              LastOffered(xid, mac, own, frames) != None && LastServer(xid, mac, own, frames) != 0
    ensures LastServer(xid, mac, own, frames) == 0 ==>
              forall i :: 0 <= i < |frames| ==> !Replies(xid, mac, own, frames[i])
  {
    hide Takes, Replies, ServerOf, OfferedBy;
    if frames != [] {
      var rest, f := DropLast(frames), Last(frames);
      assert frames == rest + [f] && frames[|rest|] == f;
      assert forall i :: 0 <= i < |rest| ==> rest[i] == frames[i];
      SaneRun(xid, mac, own, rest);
      SaneServer(xid, mac, own, f, LastServer(xid, mac, own, rest));
      TakenReplies(xid, mac, own, f);
      AnyConcat(rest, [f], Wanted(xid, mac, own, OFFER));
    }
  }

  lemma SaneServer(xid: u32, mac: Mac, own: u32, frame: Str, server: u32)
    requires Replies(xid, mac, own, frame) ==> ServerOf(xid, mac, own, frame, 0) != 0
    ensures if Replies(xid, mac, own, frame) then ServerOf(xid, mac, own, frame, server) != 0
            else ServerOf(xid, mac, own, frame, server) == server
  {
    hide Demux, Matches, Scan;
    if Replies(xid, mac, own, frame) {
      ReplyIsLong(xid, mac, own, frame);
      FieldsAreOwn(Demux(frame, own).payload[240..], Found(0, 0, 0, 0), Found(0, server, 0, 0));
    }
  }

  lemma TakenReplies(xid: u32, mac: Mac, own: u32, frame: Str)
    ensures (exists kind: byte :: Takes(xid, mac, own, frame, kind)) ==> Replies(xid, mac, own, frame)
    ensures Takes(xid, mac, own, frame, OFFER) ==> OfferedBy(xid, mac, own, frame).Some?
  {
    hide Demux, Matches, TypeOf;
  }

  /** Among servers that name themselves and offer real addresses, an OFFER in the first wait and
      an ACK in the second are enough, whatever else arrives. */
  lemma OfferAndAckSuffice(mac: Mac, own: u32, now: nat, a: Arrivals)
    requires Sane(Xid(now), mac, own, Flat(a.discovering) + a.between)
    requires Among(Xid(now), mac, own, Flat(a.discovering) + a.between, OFFER)
    requires Among(Xid(now), mac, own, Flat(a.requesting), ACK)
    ensures Succeeds(mac, own, now, a)
  {
    hide LeaseAfter, Takes, Replies, ServerOf, OfferedBy, LastOffered, LastServer, Xid, Consumed;
    var xid, before := Xid(now), Before(mac, own, now, a);
    var n := Consumed(Fresh(now), mac, own, a.discovering, false, 0);
    var first, rest := Flat(a.discovering[..n]), Flat(a.discovering[n..]);
    assert a.discovering == a.discovering[..n] + a.discovering[n..];
    FlatConcat(a.discovering[..n], a.discovering[n..]);
    SanePart(xid, mac, own, first, rest, a.between);
    SaneRun(xid, mac, own, before);
    OfferHeard(mac, own, now, a);
    SucceedsExactly(mac, own, now, a);
  }

  lemma SanePart(xid: u32, mac: Mac, own: u32, x: seq<Str>, y: seq<Str>, z: seq<Str>)
    requires Sane(xid, mac, own, x + y + z)
    ensures Sane(xid, mac, own, x + z)
  {
    hide Replies, ServerOf, OfferedBy;
    var all, part := x + y + z, x + z;
    forall i | 0 <= i < |part|
      ensures (Replies(xid, mac, own, part[i]) ==> ServerOf(xid, mac, own, part[i], 0) != 0)
              && OfferedBy(xid, mac, own, part[i]) != Some(0)
    {
      assert part[i] == if i < |x| then all[i] else all[i + |y|];
    }
  }

  /** No OFFER is lost to stopping early. */
  lemma OfferHeard(mac: Mac, own: u32, now: nat, a: Arrivals)
    requires Among(Xid(now), mac, own, Flat(a.discovering) + a.between, OFFER)
    ensures Among(Xid(now), mac, own, Before(mac, own, now, a), OFFER)
  {
    hide LeaseAfter, Takes, LastOffered, Xid, Heard, Flat, Any, Wanted;
    var first := Heard(Fresh(now), mac, own, a.discovering, false);
    WaitFinds(Fresh(now), mac, own, a.discovering, false);
    FlagsAmong(Fresh(now), mac, own, first);
    AnyConcat(first, a.between, Wanted(Xid(now), mac, own, OFFER));
    AnyConcat(Flat(a.discovering), a.between, Wanted(Xid(now), mac, own, OFFER));
  }

  // ---------------------------------------------------------------------------------------
  // What success means
  // ---------------------------------------------------------------------------------------

  /** What success means in terms of the frames that came: a matching OFFER before the
      REQUEST, which asked for the address offered last and named a server; a matching ACK at
      some time; the address bound is the one in the last OFFER or ACK; mask and gateway are
      never zero. */
  ghost predicate Bound(mac: Mac, own: u32, now: nat, before: seq<Str>, after: seq<Str>, ip: u32, mask: u32, gw: u32) {
    var all := before + after;
    var asked := LeaseAfter(Fresh(now), mac, own, before);
    && (exists i :: 0 <= i < |before| && Takes(Xid(now), mac, own, before[i], OFFER))
    && asked.xid == Xid(now) && LastOffered(Xid(now), mac, own, before) == Some(asked.offeredIp)
    && asked.offeredIp != 0 && asked.serverIp != 0
    && (exists i :: 0 <= i < |all| && Takes(Xid(now), mac, own, all[i], ACK))
    && LastOffered(Xid(now), mac, own, all) == Some(ip)
    && mask != 0 && gw != 0
  }

  lemma BoundBy(mac: Mac, own: u32, now: nat, a: Arrivals)
    requires Succeeds(mac, own, now, a)
    ensures var end := Ended(mac, own, now, a);
            Bound(mac, own, now, Before(mac, own, now, a), After(mac, own, now, a), end.offeredIp,
                  if end.mask != 0 then end.mask else DEFAULT_MASK, if end.router != 0 then end.router else DEFAULT_GW)
  {
    hide LeaseAfter, Takes, LastOffered, Xid, Before, After;
    var before, after := Before(mac, own, now, a), After(mac, own, now, a);
    LeaseAfterConcat(Fresh(now), mac, own, before, after);
    LeaseTracksFrames(Fresh(now), mac, own, before);
    LeaseTracksFrames(Fresh(now), mac, own, before + after);
    LastOfferedExists(Xid(now), mac, own, before + after);
    LastOfferedExists(Xid(now), mac, own, before);
  }

  /** When no ACK came before the REQUEST, one came after it. */
  lemma AckCameLater(mac: Mac, own: u32, now: nat, before: seq<Str>, after: seq<Str>, ip: u32, mask: u32, gw: u32)
    requires Bound(mac, own, now, before, after, ip, mask, gw)
    requires forall i :: 0 <= i < |before| ==> !Takes(Xid(now), mac, own, before[i], ACK)
    ensures exists i :: 0 <= i < |after| && Takes(Xid(now), mac, own, after[i], ACK)
  {
    hide Takes, LastOffered, LeaseAfter, Xid;
    var all := before + after;
    var i :| 0 <= i < |all| && Takes(Xid(now), mac, own, all[i], ACK);
    assert i >= |before| && all[i] == after[i - |before|];
  }

  lemma {:induction false} LastOfferedExists(xid: u32, mac: Mac, own: u32, frames: seq<Str>)
    ensures (exists i :: 0 <= i < |frames|
                         && (Takes(xid, mac, own, frames[i], OFFER) || Takes(xid, mac, own, frames[i], ACK)))
            ==> LastOffered(xid, mac, own, frames).Some?
  {
    hide Takes;
    if frames != [] {
      LastOfferedExists(xid, mac, own, DropLast(frames));
      forall i | 0 <= i < |frames| && (Takes(xid, mac, own, frames[i], OFFER) || Takes(xid, mac, own, frames[i], ACK))
        ensures LastOffered(xid, mac, own, frames).Some?
      {
        if i < |frames| - 1 {
          assert DropLast(frames)[i] == frames[i];
        }
      }
    }
  }

  // ---------------------------------------------------------------------------------------
  // Byte by byte
  // ---------------------------------------------------------------------------------------

  /** The transaction number holds the ticks' low 16 bits, scrambled, over a constant: ticks that
      differ there give different numbers. */
  lemma XidTellsTicks(now: nat, later: nat)
    ensures Xid(0) == 0x4D47_4443 && Xid(now) % 0x1_0000 == 0x4443
    ensures now % 0x1_0000 != later % 0x1_0000 ==> Xid(now) != Xid(later)
  {
    hide Xor, Pow2;
    SixteenBits();
    XorOfZero(0x4D47, 16);
    XorUndoes(now % 0x1_0000, 0x4D47, 16);
    XorUndoes(later % 0x1_0000, 0x4D47, 16);
  }

  /** The DISCOVER: broadcast in both headers, from address 0, port 68 to port 67. */
  lemma DiscoverOnWire(mac: Mac, xid: u32, now: nat)
    ensures var w := DiscoverFrame(mac, xid, now);
            && |w| == 291 && w[..6] == [255, 255, 255, 255, 255, 255] && w[6..12] == mac
            && w[26..30] == [0, 0, 0, 0] && w[30..34] == [255, 255, 255, 255]
            && w[34..36] == [0, 68] && w[36..38] == [0, 67] && w[42..] == DiscoverPayload(xid, mac)
  {
    hide UdpFrame, OnWire, Put16, Put32, DiscoverPayload;
    ClientAddresses();
    UdpBytes(Arp.BROADCAST_MAC, mac, now % 0x1_0000, 0, 0xFFFF_FFFF, 68, 67, DiscoverPayload(xid, mac));
    assert |DiscoverPayload(xid, mac)| == 249;
  }

  /** The REQUEST, likewise, for the address offered and the server named. */
  lemma RequestOnWire(mac: Mac, l: Lease, now: nat)
    ensures var w := RequestFrame(mac, l, now);
            && |w| == 298 && w[..6] == [255, 255, 255, 255, 255, 255] && w[6..12] == mac
            && w[26..30] == [0, 0, 0, 0] && w[30..34] == [255, 255, 255, 255]
            && w[34..36] == [0, 68] && w[36..38] == [0, 67]
            && w[42..] == RequestPayload(l.xid, mac, l.offeredIp, l.serverIp)
  {
    hide UdpFrame, OnWire, Put16, Put32, RequestPayload;
    ClientAddresses();
    UdpBytes(Arp.BROADCAST_MAC, mac, now % 0x1_0000, 0, 0xFFFF_FFFF, 68, 67,
             RequestPayload(l.xid, mac, l.offeredIp, l.serverIp));
    assert |RequestPayload(l.xid, mac, l.offeredIp, l.serverIp)| == 256;
  }

  lemma ClientAddresses()
    ensures Put32(0) == [0, 0, 0, 0] && Put32(0xFFFF_FFFF) == [255, 255, 255, 255]
    ensures Put16(68) == [0, 68] && Put16(67) == [0, 67]
  {
    WordOrder(0, 0, 0, 0);
    WordOrder(255, 255, 255, 255);
    ByteOrder(0, 68);
    ByteOrder(0, 67);
  }

  /** How a server's message travels: port 67 to port 68, to an address the client accepts. */
  ghost predicate Carries(frame: Str, own: u32, p: Str) {
    |p| <= 548
    && exists dstMac: Mac, srcMac: Mac, ident: u16, src: u32, dst: u32 ::
         && (dst == own || dst == 0xFFFF_FFFF || own == 0)
         && frame == OnWire(UdpFrame(dstMac, srcMac, ident, src, dst, 67, 68, p))
  }

  /** A message a server so sends is received as such; any other payload changes nothing. */
  lemma CarriedIsHeard(l: Lease, mac: Mac, own: u32, frame: Str, p: Str, opts: seq<DhcpOption>)
    requires l.active && Carries(frame, own, p)
    ensures ReceiveFrame(l, mac, own, frame) == Receive(l, mac, p)
    ensures ServerSays(p, l.xid, mac, opts) ==>
              var kind := match LastSized(opts, 53, 1, 1) case Some(d) => d[0] case None => 0;
              && Takes(l.xid, mac, own, frame, kind)
              && (kind == 2 || kind == 5 ==> OfferedBy(l.xid, mac, own, frame) == Some(Be32(p, 16)))
  {
    hide Demux, OnWire, UdpFrame, Matches, ServerSays, Be32, Receive, TypeOf, LastSized;
    var dstMac: Mac, srcMac: Mac, ident: u16, src: u32, dst: u32 :|
      && (dst == own || dst == 0xFFFF_FFFF || own == 0)
      && frame == OnWire(UdpFrame(dstMac, srcMac, ident, src, dst, 67, 68, p));
    UdpRoundTrip(dstMac, srcMac, ident, src, dst, p, own);
    if ServerSays(p, l.xid, mac, opts) {
      ServerIsHeard(l, mac, p, opts);
    }
  }

  function OrElse(v: u32, otherwise: u32): u32 {
    if v == 0 then otherwise else v
  }

  /** The ordinary case from end to end: a server's OFFER with an address and its identifier in the
      first wait and its ACK in the second make the negotiation succeed, with the ACK's address
      and the masks and routers they gave. */
  lemma OfferAndAckBind(mac: Mac, own: u32, now: nat, offer: Str, p: Str, po: seq<DhcpOption>,
                        ack: Str, q: Str, qo: seq<DhcpOption>)
    requires Carries(offer, own, p) && ServerSays(p, Xid(now), mac, po) && LastSized(po, 53, 1, 1) == Some([2])
    requires Carries(ack, own, q) && ServerSays(q, Xid(now), mac, qo) && LastSized(qo, 53, 1, 1) == Some([5])
    requires Be32(p, 16) != 0 && LastWord(po, 54, 4, 0) != 0
    ensures var a := Arrivals([[offer]], [], [[ack]]);
            var mask := OrElse(LastWord(po, 1, 4, 0), 0xFFFF_FF00);
            var router := OrElse(LastWord(po, 3, 255, 0), 0x0A00_0202);
            && Succeeds(mac, own, now, a)
            && Ended(mac, own, now, a).offeredIp == Be32(q, 16)
            && Ended(mac, own, now, a).mask == OrElse(LastWord(qo, 1, 4, mask), 0xFFFF_FF00)
            && Ended(mac, own, now, a).router == OrElse(LastWord(qo, 3, 255, router), 0x0A00_0202)
  {
    hide Demux, Carries, ServerSays, Be32, Receive, ReceiveFrame, LastWord, LastSized, Xid, Takes, OfferedBy;
    var a := Arrivals([[offer]], [], [[ack]]);
    var start := Fresh(now);
    var mid := Receive(start, mac, p);
    CarriedIsHeard(start, mac, own, offer, p, po);
    ServerIsHeard(start, mac, p, po);
    OnePoll(start, mac, own, offer, false);
    assert Before(mac, own, now, a) == [offer];
    OneHeard(start, mac, own, offer);
    assert mid.active && mid.xid == Xid(now);
    CarriedIsHeard(mid, mac, own, ack, q, qo);
    ServerIsHeard(mid, mac, q, qo);
    OnePoll(mid, mac, own, ack, true);
    OneHeard(mid, mac, own, ack);
  }

  lemma OnePoll(l: Lease, mac: Mac, own: u32, frame: Str, forAck: bool)
    ensures Heard(l, mac, own, [[frame]], forAck) == [frame]
  {
    hide LeaseAfter, Shows;
    var polls := [[frame]];
    assert polls[..1] == polls && Flat([]) == [] && DropLast(polls) == [];
    assert Flat(polls) == [] + [frame] == [frame];
    ConsumedStep(l, mac, own, polls, forAck, 0);
  }

  lemma OneHeard(l: Lease, mac: Mac, own: u32, frame: Str)
    ensures LeaseAfter(l, mac, own, [frame]) == ReceiveFrame(l, mac, own, frame)
  {
    hide ReceiveFrame;
    assert DropLast([frame]) == [];
  }
}
