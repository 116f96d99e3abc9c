/** One SA between two hosts: the sender with its policies and lifetime, a network that
    loses, reorders, duplicates and forges packets, and the receiver with its lifetime,
    window, policies and listener. */
module EspFlow {
  import opened Bytes
  import opened ReplayWindow
  import opened EspPacket
  import Ip = IpPacket
  import Life = SaLifetime
  import Pol = PolicyMgr

  const WINDOW_SIZE: nat := 128

  /** What does not change at one end: the SA's identity and limits, which packets its
      policies select for it, and whether a callback is registered. */
  datatype End = End(id: Life.Identity, lifetime: Life.Lifetime, policy: Ip.Packet -> bool, callback: bool)

  datatype Config = Config(aead: Aead, sender: End, receiver: End)

  /** A packet to be sent comes up, where encrypting it may not work; some bytes arrive
      for some address; a timer fires at one of the ends. */
  datatype Event =
    | Send(packet: Ip.Packet, works: bool)
    | Arrive(data: seq<byte>, dst: nat)
    | Timer(atSender: bool, hard: bool)

  /** What was sent and delivered comes with its sequence number; `accepted` is the set
      the window stands for. */
  datatype Flow = Flow(
    lastSent: nat, sent: seq<(nat, Ip.Packet)>, outUse: Life.Usage,
    window: Window, accepted: Accepted, inUse: Life.Usage,
    delivered: seq<(nat, Ip.Packet)>)

  const Unused: Life.Usage := Life.Usage(0, 0, false, false, [])

  ghost function NewFlow(): (f: Flow)
    ensures Inv(f)
  {
    Flow(0, [], Unused, NewWindow(WINDOW_SIZE), Accepted({}, 0), Unused, [])
  }

  predicate Tunnelled(nextHeader: byte) {
    nextHeader == IPPROTO_IPIP || nextHeader == IPPROTO_IPV6
  }

  /** What `esp_packet_create_from_payload` announces. */
  function NextHeaderFor(p: Ip.Packet): byte {
    if p.version == 4 then IPPROTO_IPIP else IPPROTO_IPV6
  }

  /** Outbound processing: policy, SA, sequence number, encryption. */
  function Sending(c: Config, f: Flow, p: Ip.Packet, works: bool): Flow {
    if !c.sender.policy(p) || !Life.MatchByReqid(c.sender.id, f.outUse, c.sender.id.reqid, false) then f
    else if f.lastSent == TWO32 - 1 then f
    else if !works then f.(lastSent := f.lastSent + 1)
    else
      f.(lastSent := f.lastSent + 1, sent := f.sent + [(f.lastSent + 1, p)],
         outUse := Life.Use(c.sender.lifetime, f.outUse, |p.encoding|))
  }

  function SeqnoOf(data: seq<byte>): nat
    requires |data| >= 8
  {
    U32(data[4..8])
  }

  /** The header and the address select this SA. */
  predicate Selected(c: Config, use: Life.Usage, data: seq<byte>, dst: nat) {
    && |data| >= 8 && Life.MatchBySpiDst(c.receiver.id, use, U32(data[..4]), dst)
    && c.receiver.id.inbound
  }

  /** Inbound processing: SA, decryption, use, policy, listener. */
  ghost function Arriving(c: Config, f: Flow, data: seq<byte>, dst: nat): Flow
    requires c.aead.blockSize > 0 && f.window.index < |f.window.bits|
  {
    if !Selected(c, f.inUse, data, dst) then f else
      var seqno := SeqnoOf(data);
      var (r, window) := Decrypt(c.aead, f.window, data);
      var accepted := if Authenticated(c.aead, f.window, data) then Accept(f.accepted, seqno) else f.accepted;
      var deliver := r.Success? && Tunnelled(r.nextHeader) && c.receiver.policy(r.payload) && c.receiver.callback;
      f.(window := window, accepted := accepted,
         inUse := if r.Success? then Life.Use(c.receiver.lifetime, f.inUse, |r.payload.encoding|) else f.inUse,
         delivered := if deliver then f.delivered + [(seqno, r.payload)] else f.delivered)
  }

  /** The packet passed the window and the ICV check. */
  ghost predicate Authenticated(a: Aead, w: Window, data: seq<byte>)
    requires a.blockSize > 0 && w.index < |w.bits| && |data| >= 8
  {
    && |data| >= 8 + a.ivSize + a.icvSize && (|data| - 8 - a.ivSize - a.icvSize) % a.blockSize == 0
    && Verify(w, SeqnoOf(data))
    && a.decrypt(data[8 + a.ivSize..], data[..8], data[8..8 + a.ivSize]).Some?
  }

  ghost function Step(c: Config, f: Flow, e: Event): Flow
    requires c.aead.blockSize > 0 && f.window.index < |f.window.bits|
  {
    match e
    case Send(p, works) => Sending(c, f, p, works)
    case Arrive(data, dst) => Arriving(c, f, data, dst)
    case Timer(true, hard) => f.(outUse := Life.Expire(f.outUse, hard))
    case Timer(false, hard) => f.(inUse := Life.Expire(f.inUse, hard))
  }

  // ----- the processor

  /** What policies see of a packet. */
  function Summary(p: Ip.Packet): Pol.Packet {
    Pol.Packet(p.version == 6, p.src.address, p.dst.address, p.src.port, p.dst.port, p.nextHeader)
  }

  /** The inbound policies for the SA's reqid let in exactly what `policy` says. */
  ghost predicate LetsIn(list: seq<Pol.Entry>, end: End) {
    forall p :: end.policy(p) <==> !Pol.NoneApplies(list, Summary(p), true, end.id.reqid)
  }

  /** The best outbound policy of a packet asks for the SA's reqid exactly if `policy`
      says so. */
  ghost predicate SendsOut(list: seq<Pol.Entry>, end: End) {
    forall p :: end.policy(p) <==> Chosen(list, p, end.id.reqid)
  }

  /** `process_inbound`, on an SA, its context and the policies. */
  method ProcessInbound(c: Config, context: EspContext, sa: Life.IpsecSa, policies: Pol.PolicyManager,
                        data: seq<byte>, dst: nat, ghost f: Flow) returns (delivered: Option<Ip.Packet>)
    requires c.aead.blockSize > 0 && context.Valid() && context.inbound && context.windowSize == WINDOW_SIZE
    requires sa.Valid() && sa.lifetime == c.receiver.lifetime
    requires policies.Valid() && LetsIn(policies.entries, c.receiver)
    requires f.window == context.View() && f.inUse == sa.State()
    modifies context`lastSeqno, context`seqnoIndex, context.window, sa
    ensures context.Valid() && sa.Valid()
    ensures var f' := Arriving(c, f, data, dst);
      && f'.window == context.View() && f'.inUse == sa.State()
      && f'.delivered == match delivered
                         case None => f.delivered
                         case Some(p) => f.delivered + [(if |data| >= 8 then SeqnoOf(data) else 0, p)]
    ensures delivered.Some? ==>
      !Pol.NoneApplies(policies.entries, Summary(delivered.value), true, c.receiver.id.reqid)
  {
    if |data| < 8 {
      return None;
    }
    var found := c.receiver.id.spi == U32(data[..4]) && c.receiver.id.dst == dst && !sa.hardExpired;
    if !found || !c.receiver.id.inbound {
      return None;
    }
    var r := DecryptPacket(c.aead, context, data);
    if !r.Success? {
      return None;
    }
    UsedOnce(sa, |r.payload.encoding|);
    if Tunnelled(r.nextHeader) {
      var policy := policies.FindByPacket(Summary(r.payload), true, c.receiver.id.reqid);
      assert policy.Some? <==> c.receiver.policy(r.payload);
      if policy.Some? && c.receiver.callback {
        return Some(r.payload);
      }
    }
    return None;
  }

  /** The best outbound policy of the packet asks for this reqid. */
  ghost predicate Chosen(list: seq<Pol.Entry>, p: Ip.Packet, reqid: nat) {
    exists e :: Pol.IsBest(list, e, Summary(p), false, 0) && e.policy.reqid == reqid
  }

  /** `process_outbound`, up to the packet that is handed to the sender's callback. */
  method ProcessOutbound(c: Config, context: EspContext, sa: Life.IpsecSa, policies: Pol.PolicyManager,
                         p: Ip.Packet, works: bool, ghost f: Flow) returns (data: Option<seq<byte>>)
    requires c.aead.blockSize > 0 && context.Valid() && !context.inbound
    requires sa.Valid() && sa.lifetime == c.sender.lifetime
    requires policies.Valid() && SendsOut(policies.entries, c.sender)
    requires f.lastSent == context.lastSeqno && f.outUse == sa.State()
    modifies context`lastSeqno, sa
    ensures sa.Valid()
    ensures var f' := Sending(c, f, p, works);
      && f'.lastSent == context.lastSeqno && f'.outUse == sa.State()
      && (data == None ==> f'.sent == f.sent)
      && (data.Some? ==>
        && f'.sent == f.sent + [(f'.lastSent, p)]
        && data.value == Encrypt(c.aead, c.sender.id.spi, f'.lastSent, p.encoding, NextHeaderFor(p)))
    ensures data.Some? ==> Chosen(policies.entries, p, c.sender.id.reqid)
  {
    var policy := policies.FindByPacket(Summary(p), false, 0);
    if policy == None {
      NothingSelected(policies.entries, c.sender, p);
      return None;
    }
    ghost var entry :| Pol.IsBest(policies.entries, entry, Summary(p), false, 0) && policy.value == entry.policy;
    Selects(policies.entries, entry, c.sender, p);
    if policy.value.reqid != c.sender.id.reqid || c.sender.id.inbound || sa.hardExpired {
      return None;
    }
    assert Chosen(policies.entries, p, c.sender.id.reqid);
    data := EncryptPacket(c.aead, context, c.sender.id.spi, p.encoding, NextHeaderFor(p), works);
    if data == None {
      return;
    }
    UsedOnce(sa, |p.encoding|);
  }

  method UsedOnce(sa: Life.IpsecSa, bytes: nat)
    requires sa.Valid()
    modifies sa
    ensures sa.Valid() && sa.State() == Life.Use(sa.lifetime, old(sa.State()), bytes)
  {
    Life.RunStep(sa.lifetime, sa.history, Life.Traffic(bytes));
    sa.UpdateUsestats(bytes);
  }

  lemma Selects(list: seq<Pol.Entry>, e: Pol.Entry, end: End, p: Ip.Packet)
    requires SendsOut(list, end) && Pol.IsBest(list, e, Summary(p), false, 0)
    ensures end.policy(p) <==> e.policy.reqid == end.id.reqid
  {
    forall f | Pol.IsBest(list, f, Summary(p), false, 0) ensures f == e {
      OneBest(list, e, f, Summary(p));
    }
  }

  lemma OneBest(list: seq<Pol.Entry>, e: Pol.Entry, f: Pol.Entry, packet: Pol.Packet)
    requires Pol.IsBest(list, e, packet, false, 0) && Pol.IsBest(list, f, packet, false, 0)
    ensures f == e
  {
  }

  lemma NothingSelected(list: seq<Pol.Entry>, end: End, p: Ip.Packet)
    requires SendsOut(list, end) && Pol.NoneApplies(list, Summary(p), false, 0)
    ensures !end.policy(p)
  {
  }

  // ----- over every run

  ghost predicate Inv(f: Flow) {
    && WellFormed(f.window, WINDOW_SIZE) && Agree(f.window, f.accepted)
    && f.lastSent < TWO32 && (forall i | 0 <= i < |f.sent| :: 0 < f.sent[i].0 <= f.lastSent)
    && (forall i, j | 0 <= i < j < |f.sent| :: f.sent[i].0 < f.sent[j].0)
    && (forall i | 0 <= i < |f.delivered| :: f.delivered[i].0 in f.accepted.numbers)
    && forall i, j | 0 <= i < j < |f.delivered| :: f.delivered[i].0 != f.delivered[j].0
  }

  ghost function After(c: Config, f: Flow, events: seq<Event>): Flow
    requires c.aead.blockSize > 0 && Inv(f)
    ensures Inv(After(c, f, events))
    decreases |events|
  {
    if events == [] then f else
      StepKeepsInv(c, f, events[0]);
      After(c, Step(c, f, events[0]), events[1..])
  }

  lemma DecryptCases(a: Aead, w: Window, data: seq<byte>)
    requires a.blockSize > 0 && w.index < |w.bits| && |data| >= 8
    ensures var (r, w') := Decrypt(a, w, data);
      if Authenticated(a, w, data) then w' == Authenticate(w, SeqnoOf(data)) else w' == w && !r.Success?
  {
  }

  lemma U32Bound(b: seq<byte>)
    requires |b| == 4
    ensures U32(b) < TWO32
  {
  }

  lemma ArrivingKeepsInv(c: Config, f: Flow, data: seq<byte>, dst: nat)
    requires c.aead.blockSize > 0 && Inv(f)
    ensures Inv(Arriving(c, f, data, dst))
  {
    if |data| >= 8 {
      var seqno := SeqnoOf(data);
      U32Bound(data[4..8]);
      DecryptCases(c.aead, f.window, data);
      if Verify(f.window, seqno) {
        AgreeAfter(f.window, WINDOW_SIZE, f.accepted, seqno);
        VerifyIsFresh(f.window, WINDOW_SIZE, f.accepted, seqno);
      }
    }
  }

  lemma StepKeepsInv(c: Config, f: Flow, e: Event)
    requires c.aead.blockSize > 0 && Inv(f)
    ensures Inv(Step(c, f, e))
  {
    if e.Arrive? {
      ArrivingKeepsInv(c, f, e.data, e.dst);
    }
  }

  /** Over every run the sender uses each sequence number once and stops before it
      would cycle, and the receiver delivers each sequence number at most once. */
  lemma AtMostOnce(c: Config, events: seq<Event>)
    requires c.aead.blockSize > 0
    ensures var f := After(c, NewFlow(), events);
      && (forall i, j | 0 <= i < j < |f.sent| :: f.sent[i].0 < f.sent[j].0 < TWO32)
      && (forall i, j | 0 <= i < j < |f.delivered| :: f.delivered[i].0 != f.delivered[j].0)
      && (f.lastSent == TWO32 - 1 ==> forall p, works :: Step(c, f, Send(p, works)) == f)
  {
    var f := After(c, NewFlow(), events);
    assert Inv(f);
  }

  /** An event that brings a packet with this SPI and number. */
  predicate Brings(c: Config, e: Event, seqno: nat) {
    e.Arrive? && |e.data| >= 8 && U32(e.data[..4]) == c.receiver.id.spi && SeqnoOf(e.data) == seqno
  }

  predicate Arrived(c: Config, events: seq<Event>, seqno: nat) {
    exists i :: 0 <= i < |events| && Brings(c, events[i], seqno)
  }

  /** Only numbers that arrived are accepted. */
  lemma {:induction false} AcceptedArrived(c: Config, f: Flow, events: seq<Event>, seqno: nat)
    requires c.aead.blockSize > 0 && Inv(f)
    requires seqno in After(c, f, events).accepted.numbers
    ensures seqno in f.accepted.numbers || Arrived(c, events, seqno)
    decreases |events|
  {
    if events != [] {
      StepKeepsInv(c, f, events[0]);
      AcceptedArrived(c, Step(c, f, events[0]), events[1..], seqno);
      if i :| 0 <= i < |events[1..]| && Brings(c, events[1..][i], seqno) {
        assert Brings(c, events[i + 1], seqno);
      } else if seqno !in f.accepted.numbers {
        assert Brings(c, events[0], seqno);
      }
    }
  }

  /** The receiver is ready for packets of its SA. */
  predicate Ready(c: Config, f: Flow) {
    c.receiver.id.inbound && c.receiver.callback && !f.inUse.hard
  }

  /** A payload as a sender makes it, that parses and that the policies let in. */
  predicate Deliverable(c: Config, payload: seq<byte>, nextHeader: byte) {
    && c.aead.blockSize > 0 && IcvPad(c.aead, |payload|) % c.aead.blockSize == 0
    && (nextHeader == 4 || nextHeader == 41) && Ip.Parse(payload).Some? && c.receiver.policy(Ip.Parse(payload).value)
  }

  ghost function Arrival(c: Config, seqno: nat, payload: seq<byte>, nextHeader: byte): Event
    requires c.aead.blockSize > 0
  {
    Arrive(Encrypt(c.aead, c.receiver.id.spi, seqno, payload, nextHeader), c.receiver.id.dst)
  }

  lemma ArrivalIsSelected(c: Config, f: Flow, seqno: nat, payload: seq<byte>, nextHeader: byte)
    requires Sound(c.aead) && seqno < TWO32 && c.receiver.id.spi < TWO32
    ensures var data := Arrival(c, seqno, payload, nextHeader).data;
      && |data| >= 8 && SeqnoOf(data) == seqno
      && (Selected(c, f.inUse, data, c.receiver.id.dst) <==> c.receiver.id.inbound && !f.inUse.hard)
  {
    var data := Arrival(c, seqno, payload, nextHeader).data;
    PacketParts(c.aead, c.receiver.id.spi, seqno, payload, nextHeader);
    assert data[..4] == data[..8][..4] == FromU32(c.receiver.id.spi);
  }

  /** A genuine packet is delivered, with its own content, exactly if it passes the
      window, the receiver is ready, and it holds an IP packet that the policies let in. */
  lemma ArrivalOf(c: Config, f: Flow, seqno: nat, payload: seq<byte>, nextHeader: byte)
    requires Sound(c.aead) && Inv(f) && seqno < TWO32 && c.receiver.id.spi < TWO32
    ensures Step(c, f, Arrival(c, seqno, payload, nextHeader)).delivered
      == if Verify(f.window, seqno) && Ready(c, f) && Deliverable(c, payload, nextHeader)
         then f.delivered + [(seqno, Ip.Parse(payload).value)]
         else f.delivered
  {
    ArrivalIsSelected(c, f, seqno, payload, nextHeader);
    if Verify(f.window, seqno) {
      EspRoundTrip(c.aead, f.window, WINDOW_SIZE, c.receiver.id.spi, seqno, payload, nextHeader);
    } else {
      DecryptCases(c.aead, f.window, Arrival(c, seqno, payload, nextHeader).data);
    }
  }

  /** After any run: a deliverable packet whose number did not arrive before and that
      is not behind the window is delivered, with its own content. */
  lemma FirstArrivalIsDelivered(c: Config, events: seq<Event>, seqno: nat, payload: seq<byte>, nextHeader: byte)
    requires Sound(c.aead) && Deliverable(c, payload, nextHeader) && 0 < seqno < TWO32 && c.receiver.id.spi < TWO32
    requires !Arrived(c, events, seqno) && Ready(c, After(c, NewFlow(), events))
    requires After(c, NewFlow(), events).accepted.last < seqno + WINDOW_SIZE
    ensures var f := After(c, NewFlow(), events);
      Step(c, f, Arrival(c, seqno, payload, nextHeader)).delivered
      == f.delivered + [(seqno, Ip.Parse(payload).value)]
  {
    var f := After(c, NewFlow(), events);
    if seqno in f.accepted.numbers {
      AcceptedArrived(c, NewFlow(), events, seqno);
    }
    VerifyIsFresh(f.window, WINDOW_SIZE, f.accepted, seqno);
    ArrivalOf(c, f, seqno, payload, nextHeader);
  }

  /** A second copy of an accepted packet changes nothing that was delivered. */
  lemma DuplicateIsDropped(c: Config, events: seq<Event>, seqno: nat, payload: seq<byte>, nextHeader: byte)
    requires Sound(c.aead) && Deliverable(c, payload, nextHeader) && seqno < TWO32 && c.receiver.id.spi < TWO32
    requires seqno in After(c, NewFlow(), events).accepted.numbers
    ensures var f := After(c, NewFlow(), events);
      Step(c, f, Arrival(c, seqno, payload, nextHeader)).delivered == f.delivered
  {
    var f := After(c, NewFlow(), events);
    VerifyIsFresh(f.window, WINDOW_SIZE, f.accepted, seqno);
    ArrivalOf(c, f, seqno, payload, nextHeader);
  }

  /** The very packet that one end parsed is delivered at the other end, after any run,
      if it is the first with its number, not behind the window, and let in by policy. */
  lemma TunnelDelivers(c: Config, events: seq<Event>, seqno: nat, raw: seq<byte>)
    requires Sound(c.aead) && 0 < seqno < TWO32 && c.receiver.id.spi < TWO32
    requires Ip.Parse(raw).Some? && !Ip.CutsHeader(raw) && c.receiver.policy(Ip.Parse(raw).value)
    requires IcvPad(c.aead, |Ip.Parse(raw).value.encoding|) % c.aead.blockSize == 0
    requires !Arrived(c, events, seqno) && Ready(c, After(c, NewFlow(), events))
    requires After(c, NewFlow(), events).accepted.last < seqno + WINDOW_SIZE
    ensures var f, p := After(c, NewFlow(), events), Ip.Parse(raw).value;
      Step(c, f, Arrival(c, seqno, p.encoding, NextHeaderFor(p))).delivered == f.delivered + [(seqno, p)]
  {
    Ip.ParseEncoding(raw);
    var p := Ip.Parse(raw).value;
    FirstArrivalIsDelivered(c, events, seqno, p.encoding, NextHeaderFor(p));
  }

  // ----- what goes through, over every run

  /** The packet with this number can have come in by this event. */
  predicate MayDeliver(c: Config, e: Event, seqno: nat) {
    && Brings(c, e, seqno) && e.dst == c.receiver.id.dst && Opens(c.aead, e.data)
  }

  ghost predicate MayBeDelivered(c: Config, events: seq<Event>, d: (nat, Ip.Packet)) {
    && c.receiver.policy(d.1) && c.receiver.id.inbound && c.receiver.callback
    && exists j :: 0 <= j < |events| && MayDeliver(c, events[j], d.0)
  }

  ghost predicate MayBeSent(c: Config, s: (nat, Ip.Packet)) {
    c.sender.policy(s.1) && !c.sender.id.inbound
  }

  /** Policies on both sides, and the receiver's direction, address and callback. */
  ghost predicate Permitted(c: Config, events: seq<Event>, f: Flow) {
    && (forall i | 0 <= i < |f.sent| :: MayBeSent(c, f.sent[i]))
    && forall i | 0 <= i < |f.delivered| :: MayBeDelivered(c, events, f.delivered[i])
  }

  lemma OtherEvents(c: Config, f: Flow, e: Event)
    requires c.aead.blockSize > 0 && Inv(f) && !e.Arrive?
    ensures Step(c, f, e).delivered == f.delivered && (e.Timer? ==> Step(c, f, e).sent == f.sent)
  {
  }

  lemma PermittedMore(c: Config, events: seq<Event>, f: Flow, f': Flow, s: seq<(nat, Ip.Packet)>,
                      d: seq<(nat, Ip.Packet)>)
    requires Permitted(c, events, f) && f'.sent == f.sent + s && f'.delivered == f.delivered + d
    requires forall i | 0 <= i < |s| :: MayBeSent(c, s[i])
    requires forall i | 0 <= i < |d| :: MayBeDelivered(c, events, d[i])
    ensures Permitted(c, events, f')
  {
    forall i | 0 <= i < |f'.sent| ensures MayBeSent(c, f'.sent[i]) {
      assert f'.sent[i] == if i < |f.sent| then f.sent[i] else s[i - |f.sent|];
    }
    forall i | 0 <= i < |f'.delivered| ensures MayBeDelivered(c, events, f'.delivered[i]) {
      assert f'.delivered[i] == if i < |f.delivered| then f.delivered[i] else d[i - |f.delivered|];
    }
  }

  lemma PermittedStep(c: Config, events: seq<Event>, f: Flow, e: Event)
    requires c.aead.blockSize > 0 && Inv(f) && Permitted(c, events, f) && e in events
    ensures Permitted(c, events, Step(c, f, e))
  {
    var f' := Step(c, f, e);
    if e.Arrive? {
      ArrivingDelivers(c, f, e.data, e.dst);
      if f'.delivered != f.delivered {
        var j :| 0 <= j < |events| && events[j] == e;
        assert MayDeliver(c, events[j], SeqnoOf(e.data));
      }
      PermittedMore(c, events, f, f', [], f'.delivered[|f.delivered|..]);
    } else {
      OtherEvents(c, f, e);
      if e.Send? {
        SendOf(c, f, e.packet, e.works);
      }
      PermittedMore(c, events, f, f', f'.sent[|f.sent|..], []);
    }
  }

  lemma {:induction false} PermittedRun(c: Config, all: seq<Event>, f: Flow, events: seq<Event>)
    requires c.aead.blockSize > 0 && Inv(f) && Permitted(c, all, f) && forall e | e in events :: e in all
    ensures Permitted(c, all, After(c, f, events))
    decreases |events|
  {
    if events != [] {
      PermittedStep(c, all, f, events[0]);
      StepKeepsInv(c, f, events[0]);
      PermittedRun(c, all, Step(c, f, events[0]), events[1..]);
    }
  }

  /** Over every run only packets that the policies of the sender select are sent, and
      only such are delivered that a policy of the receiver lets in and that arrived, at
      its address, under its SPI, with their number, and opened under the key. */
  lemma PolicyTheorem(c: Config, events: seq<Event>)
    requires c.aead.blockSize > 0
    ensures Permitted(c, events, After(c, NewFlow(), events))
  {
    PermittedRun(c, events, NewFlow(), events);
  }

  /** A packet goes out, under the next number, exactly if policy, SA and number allow it
      and encrypting it works; a failure uses the number up. */
  lemma SendOf(c: Config, f: Flow, p: Ip.Packet, works: bool)
    requires c.aead.blockSize > 0 && Inv(f)
    ensures var f' := Step(c, f, Send(p, works));
      var may := c.sender.policy(p) && !c.sender.id.inbound && !f.outUse.hard && f.lastSent < TWO32 - 1;
      && f'.lastSent == f.lastSent + (if may then 1 else 0)
      && f'.sent == if may && works then f.sent + [(f.lastSent + 1, p)] else f.sent
  {
  }

  ghost predicate AllWork(events: seq<Event>) {
    forall e | e in events && e.Send? :: e.works
  }

  /** Without failures the numbers are 1, 2, 3 and so on. */
  lemma {:induction false} NoGaps(c: Config, f: Flow, events: seq<Event>)
    requires c.aead.blockSize > 0 && Inv(f) && AllWork(events)
    requires f.lastSent == |f.sent| && forall i | 0 <= i < |f.sent| :: f.sent[i].0 == i + 1
    ensures var g := After(c, f, events); g.lastSent == |g.sent| && forall i | 0 <= i < |g.sent| :: g.sent[i].0 == i + 1
    decreases |events|
  {
    if events != [] {
      var e := events[0];
      StepKeepsInv(c, f, e);
      if e.Send? {
        SendOf(c, f, e.packet, e.works);
      }
      NoGaps(c, Step(c, f, e), events[1..]);
    }
  }

  function TotalSize(sent: seq<(nat, Ip.Packet)>): nat {
    if sent == [] then 0 else TotalSize(sent[..|sent| - 1]) + |sent[|sent| - 1].1.encoding|
  }

  /** The counters of the sender's SA are those of what was sent, on 64 bits. */
  predicate Counted(f: Flow) {
    f.outUse.packets == |f.sent| % Life.U64 && f.outUse.bytes == TotalSize(f.sent) % Life.U64
  }

  lemma {:induction false} SentIsCounted(c: Config, f: Flow, events: seq<Event>)
    requires c.aead.blockSize > 0 && Inv(f) && Counted(f)
    ensures Counted(After(c, f, events))
    decreases |events|
  {
    if events != [] {
      var e := events[0];
      StepKeepsInv(c, f, e);
      CountedStep(c, f, e);
      SentIsCounted(c, Step(c, f, e), events[1..]);
    }
  }

  lemma CountedStep(c: Config, f: Flow, e: Event)
    requires c.aead.blockSize > 0 && Inv(f) && Counted(f)
    ensures Counted(Step(c, f, e))
  {
    var f' := Step(c, f, e);
    if e.Send? && f'.sent != f.sent {
      assert f'.sent[..|f'.sent| - 1] == f.sent;
      Life.WrapAdd(|f.sent|, 1);
      Life.WrapAdd(TotalSize(f.sent), |e.packet.encoding|);
      UseCounts(c.sender.lifetime, f.outUse, |e.packet.encoding|);
    }
  }

  lemma UseCounts(l: Life.Lifetime, u: Life.Usage, size: nat)
    ensures Life.Use(l, u, size).packets == (u.packets + 1) % Life.U64
    ensures Life.Use(l, u, size).bytes == (u.bytes + size) % Life.U64
  {
  }

  /** At the receiver whatever decrypts is used, also what no policy lets in. */
  lemma ArrivalCounts(c: Config, f: Flow, data: seq<byte>, dst: nat, r: Decrypted)
    requires c.aead.blockSize > 0 && Inv(f) && r == Decrypt(c.aead, f.window, data).0
    ensures
      var found := |data| >= 8 && U32(data[..4]) == c.receiver.id.spi && dst == c.receiver.id.dst && !f.inUse.hard;
      Step(c, f, Arrive(data, dst)).inUse == if found && c.receiver.id.inbound && r.Success?
        then Life.Use(c.receiver.lifetime, f.inUse, |r.payload.encoding|) else f.inUse
  {
  }

  // ----- only what was sent

  /** What the sender makes of a packet and its number. */
  function Wire(c: Config, sent: (nat, Ip.Packet)): seq<byte>
    requires c.aead.blockSize > 0
  {
    Encrypt(c.aead, c.sender.id.spi, sent.0, sent.1.encoding, NextHeaderFor(sent.1))
  }

  predicate Opens(a: Aead, data: seq<byte>) {
    |data| >= 8 + a.ivSize && a.decrypt(data[8 + a.ivSize..], data[..8], data[8..8 + a.ivSize]).Some?
  }

  ghost predicate Parsed(p: Ip.Packet) {
    exists raw :: Ip.Parse(raw) == Some(p)
  }

  /** Packets to be sent were parsed from some bytes, and nothing opens under the key of
      the SA that the sender has not made before. */
  ghost predicate Genuine(c: Config, f: Flow, e: Event)
    requires c.aead.blockSize > 0
  {
    && (e.Send? ==> Parsed(e.packet))
    && (e.Arrive? && Opens(c.aead, e.data) ==> exists i :: 0 <= i < |f.sent| && e.data == Wire(c, f.sent[i]))
  }

  ghost predicate AllGenuine(c: Config, f: Flow, events: seq<Event>)
    requires c.aead.blockSize > 0 && Inv(f)
    decreases |events|
  {
    events == [] ||
    (StepKeepsInv(c, f, events[0]);
     Genuine(c, f, events[0]) && AllGenuine(c, Step(c, f, events[0]), events[1..]))
  }

  ghost predicate DeliveredIsSent(f: Flow) {
    && (forall i | 0 <= i < |f.sent| :: Parsed(f.sent[i].1))
    && forall i | 0 <= i < |f.delivered| :: f.delivered[i] in f.sent
  }

  lemma ReparsedIsSame(p: Ip.Packet)
    requires Parsed(p) && Ip.Parse(p.encoding).Some?
    ensures Ip.Parse(p.encoding) == Some(p)
  {
    var raw :| Ip.Parse(raw) == Some(p);
    Ip.ParseEncoding(raw);
  }

  /** Of what the sender made, only its own packet comes out. */
  lemma OpenedIsSent(c: Config, w: Window, n: nat, p: Ip.Packet)
    requires Sound(c.aead) && WellFormed(w, WINDOW_SIZE) && n < TWO32 && Parsed(p)
    ensures var data := Wire(c, (n, p));
      var (r, _) := Decrypt(c.aead, w, data);
      |data| >= 8 && SeqnoOf(data) == n && (r.Success? ==> r.payload == p)
  {
    var spi, nextHeader := c.sender.id.spi, NextHeaderFor(p);
    PacketParts(c.aead, spi, n, p.encoding, nextHeader);
    if Verify(w, n) {
      EspRoundTrip(c.aead, w, WINDOW_SIZE, spi, n, p.encoding, nextHeader);
      if Ip.Parse(p.encoding).Some? {
        ReparsedIsSame(p);
      }
    }
  }

  lemma ArrivingDelivers(c: Config, f: Flow, data: seq<byte>, dst: nat)
    requires c.aead.blockSize > 0 && f.window.index < |f.window.bits|
    ensures var f' := Arriving(c, f, data, dst);
      && f'.sent == f.sent
      && (f'.delivered == f.delivered ||
          var (r, _) := Decrypt(c.aead, f.window, data);
          && |data| >= 8 && Authenticated(c.aead, f.window, data) && r.Success?
          && f'.delivered == f.delivered + [(SeqnoOf(data), r.payload)])
  {
    if |data| >= 8 {
      DecryptCases(c.aead, f.window, data);
    }
  }

  lemma GenuineArrival(c: Config, f: Flow, data: seq<byte>, dst: nat)
    requires Sound(c.aead) && Inv(f) && Genuine(c, f, Arrive(data, dst)) && DeliveredIsSent(f)
    ensures DeliveredIsSent(Arriving(c, f, data, dst))
  {
    var f' := Arriving(c, f, data, dst);
    ArrivingDelivers(c, f, data, dst);
    if f'.delivered != f.delivered {
      var i :| 0 <= i < |f.sent| && data == Wire(c, f.sent[i]);
      OpenedIsSent(c, f.window, f.sent[i].0, f.sent[i].1);
      MoreIsSent(f, f', f.sent[i]);
    }
  }

  lemma MoreIsSent(f: Flow, f': Flow, x: (nat, Ip.Packet))
    requires DeliveredIsSent(f) && f'.sent == f.sent && x in f.sent && f'.delivered == f.delivered + [x]
    ensures DeliveredIsSent(f')
  {
  }

  lemma GenuineStep(c: Config, f: Flow, e: Event)
    requires Sound(c.aead) && Inv(f) && Genuine(c, f, e) && DeliveredIsSent(f)
    ensures DeliveredIsSent(Step(c, f, e))
  {
    if e.Arrive? {
      GenuineArrival(c, f, e.data, e.dst);
    }
  }

  /** Over every run in which nobody else holds the key, each delivered packet is one
      that was sent, with its number. */
  lemma {:induction false} OnlySentIsDelivered(c: Config, f: Flow, events: seq<Event>)
    requires Sound(c.aead) && Inv(f) && AllGenuine(c, f, events) && DeliveredIsSent(f)
    ensures DeliveredIsSent(After(c, f, events))
    decreases |events|
  {
    if events != [] {
      StepKeepsInv(c, f, events[0]);
      GenuineStep(c, f, events[0]);
      OnlySentIsDelivered(c, Step(c, f, events[0]), events[1..]);
    }
  }

  lemma DeliveryTheorem(c: Config, events: seq<Event>)
    requires Sound(c.aead) && AllGenuine(c, NewFlow(), events)
    ensures var f := After(c, NewFlow(), events);
      forall i | 0 <= i < |f.delivered| :: f.delivered[i] in f.sent
  {
    OnlySentIsDelivered(c, NewFlow(), events);
  }

  /** IP in IP is announced by the version of what is inside. */
  lemma AnnouncedProtocol(raw: seq<byte>)
    requires Ip.Parse(raw).Some?
    ensures NextHeaderFor(Ip.Parse(raw).value) == if raw[0] / 16 == 4 then 4 else 41
  {
  }

  /** A hard timer ends an end of the SA: nothing goes out any more, or comes in. */
  lemma HardTimerEnds(c: Config, f: Flow, p: Ip.Packet, works: bool, data: seq<byte>, dst: nat)
    requires c.aead.blockSize > 0 && Inv(f)
    ensures var g := Step(c, f, Timer(true, true)); Step(c, g, Send(p, works)) == g
    ensures var g := Step(c, f, Timer(false, true)); Step(c, g, Arrive(data, dst)) == g
  {
  }

  /** The packets that count against the byte limits of an SA have at most 65575 bytes. */
  lemma PacketSize(raw: seq<byte>)
    requires Ip.Parse(raw).Some?
    ensures |Ip.Parse(raw).value.encoding| <= 65575
  {
  }
}
