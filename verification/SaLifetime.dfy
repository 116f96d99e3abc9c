/** How an IPsec SA expires: soft and hard limits on packets, bytes and time, and the
    events that are raised for them. */
module SaLifetime {
  import opened Bytes

  const U64: nat := 0x1_0000_0000_0000_0000

  /** Zero stands for no limit. */
  datatype Limit = Limit(life: nat, rekey: nat)
  datatype Lifetime = Lifetime(time: Limit, packets: Limit, bytes: Limit)

  predicate ValidLimit(l: Limit) {
    l.life < U64 && l.rekey < U64
  }

  predicate ValidLifetime(l: Lifetime) {
    ValidLimit(l.time) && ValidLimit(l.packets) && ValidLimit(l.bytes)
  }

  datatype Event = Soft | Hard

  /** Usage counters, flags, and the events raised so far. */
  datatype Usage = Usage(packets: nat, bytes: nat, soft: bool, hard: bool, events: seq<Event>)

  function Expire(u: Usage, hard: bool): Usage {
    if hard then
      if u.hard then u else u.(hard := true, events := u.events + [Hard])
    else
      if u.hard || u.soft then u else u.(soft := true, events := u.events + [Soft])
  }

  predicate Reached(limit: nat, count: nat) {
    limit != 0 && count >= limit
  }

  function Use(l: Lifetime, u: Usage, size: nat): Usage {
    var v := u.(packets := (u.packets + 1) % U64, bytes := (u.bytes + size) % U64);
    if Reached(l.packets.life, v.packets) || Reached(l.bytes.life, v.bytes) then Expire(v, true)
    else if Reached(l.packets.rekey, v.packets) || Reached(l.bytes.rekey, v.bytes) then Expire(v, false)
    else v
  }

  // ----- runs of traffic and timers

  /** A packet of some size passes, or a timer fires. */
  datatype Step = Traffic(size: nat) | Timer(hard: bool)

  /** Packets have at most `max` bytes. */
  predicate ValidStep(s: Step, max: nat) {
    s.Traffic? ==> s.size <= max
  }

  predicate ValidSteps(steps: seq<Step>, max: nat) {
    forall i | 0 <= i < |steps| :: ValidStep(steps[i], max)
  }

  function Apply(l: Lifetime, u: Usage, s: Step): Usage {
    match s
    case Traffic(size) => Use(l, u, size)
    case Timer(hard) => Expire(u, hard)
  }

  function Run(l: Lifetime, steps: seq<Step>): Usage {
    if steps == [] then Usage(0, 0, false, false, [])
    else Apply(l, Run(l, steps[..|steps| - 1]), steps[|steps| - 1])
  }

  /** What really passed, without any limit to the counters. */
  function Packets(steps: seq<Step>): nat {
    if steps == [] then 0
    else Packets(steps[..|steps| - 1]) + if steps[|steps| - 1].Traffic? then 1 else 0
  }

  function Total(steps: seq<Step>): nat {
    if steps == [] then 0
    else Total(steps[..|steps| - 1]) + if steps[|steps| - 1].Traffic? then steps[|steps| - 1].size else 0
  }

  predicate Fired(steps: seq<Step>, hard: bool) {
    Timer(hard) in steps
  }

  /** A byte limit that the counter cannot jump over by wrapping around. */
  predicate Countable(limit: nat, max: nat) {
    limit + max <= U64
  }

  predicate Countables(l: Lifetime, max: nat) {
    ValidLifetime(l) && Countable(l.bytes.life, max) && Countable(l.bytes.rekey, max)
  }

  predicate Due(packetLimit: nat, byteLimit: nat, steps: seq<Step>, hard: bool) {
    Reached(packetLimit, Packets(steps)) || Reached(byteLimit, Total(steps)) || Fired(steps, hard)
  }

  predicate HardDue(l: Lifetime, steps: seq<Step>) {
    Due(l.packets.life, l.bytes.life, steps, true)
  }

  predicate SoftDue(l: Lifetime, steps: seq<Step>) {
    Due(l.packets.rekey, l.bytes.rekey, steps, false)
  }

  function Raised(u: Usage): seq<Event> {
    if u.soft && u.hard then [Soft, Hard] else if u.soft then [Soft] else if u.hard then [Hard] else []
  }

  /** The flags say exactly which limits have been reached, and the events are one of
      none, soft, hard, or soft and then hard. */
  ghost predicate Exact(l: Lifetime, steps: seq<Step>, u: Usage) {
    && u.packets == Packets(steps) % U64 && u.bytes == Total(steps) % U64
    && u.events == Raised(u)
    && (u.hard <==> HardDue(l, steps))
    && (u.soft || u.hard <==> HardDue(l, steps) || SoftDue(l, steps))
  }

  lemma FiredMore(steps: seq<Step>, s: Step, hard: bool)
    ensures Fired(steps + [s], hard) <==> Fired(steps, hard) || s == Timer(hard)
  {
  }

  lemma CountMore(steps: seq<Step>, s: Step)
    ensures Packets(steps + [s]) == Packets(steps) + if s.Traffic? then 1 else 0
    ensures Total(steps + [s]) == Total(steps) + if s.Traffic? then s.size else 0
  {
    assert (steps + [s])[..|steps|] == steps;
  }

  lemma WrapAdd(a: nat, b: nat)
    ensures (a % U64 + b) % U64 == (a + b) % U64
  {
    var q, s := a / U64, a % U64 + b;
    DivModUnique(q + s / U64, s % U64, U64);
    assert a + b == (q + s / U64) * U64 + s % U64;
  }

  /** If a limit is reached just now, the wrapped counter shows it; and it never shows a
      limit that was not reached. */
  lemma CounterShows(limit: nat, before: nat, more: nat, max: nat)
    requires limit < U64 && ((more <= max && Countable(limit, max)) || more <= 1)
    ensures Reached(limit, (before + more) % U64) ==> Reached(limit, before + more)
    ensures Reached(limit, before + more) && !Reached(limit, before) ==> Reached(limit, (before + more) % U64)
  {
    var n := before + more;
    assert n % U64 <= n;
    if n < U64 {
      assert n % U64 == n;
    }
  }

  lemma RunStep(l: Lifetime, steps: seq<Step>, s: Step)
    ensures Run(l, steps + [s]) == Apply(l, Run(l, steps), s)
  {
    assert (steps + [s])[..|steps|] == steps;
  }

  lemma TrafficExact(l: Lifetime, steps: seq<Step>, u: Usage, size: nat, max: nat)
    requires Countables(l, max) && size <= max && Exact(l, steps, u)
    ensures Exact(l, steps + [Traffic(size)], Use(l, u, size))
  {
    CountersAfter(steps, u, size);
    UseFlags(l, u, size);
    DueAfter(l, steps, size, max);
  }

  lemma CountersAfter(steps: seq<Step>, u: Usage, size: nat)
    requires u.packets == Packets(steps) % U64 && u.bytes == Total(steps) % U64
    ensures var p, b, after := (Packets(steps) + 1) % U64, (Total(steps) + size) % U64, steps + [Traffic(size)];
      && (u.packets + 1) % U64 == Packets(after) % U64 == p
      && (u.bytes + size) % U64 == Total(after) % U64 == b
  {
    CountMore(steps, Traffic(size));
    WrapAdd(Packets(steps), 1);
    WrapAdd(Total(steps), size);
  }

  /** What is due after a packet: what was before, or a limit that the counters show now. */
  lemma DueAfter(l: Lifetime, steps: seq<Step>, size: nat, max: nat)
    requires Countables(l, max) && size <= max
    ensures var p, b, after := (Packets(steps) + 1) % U64, (Total(steps) + size) % U64, steps + [Traffic(size)];
      && (HardDue(l, after) <==> HardDue(l, steps) || Reached(l.packets.life, p) || Reached(l.bytes.life, b))
      && (SoftDue(l, after) <==> SoftDue(l, steps) || Reached(l.packets.rekey, p) || Reached(l.bytes.rekey, b))
  {
    var p, b := (Packets(steps) + 1) % U64, (Total(steps) + size) % U64;
    DueOf(l.packets.life, l.bytes.life, steps, true, size, max, p, b);
    DueOf(l.packets.rekey, l.bytes.rekey, steps, false, size, max, p, b);
  }

  lemma DueOf(packetLimit: nat, byteLimit: nat, steps: seq<Step>, hard: bool, size: nat, max: nat, p: nat, b: nat)
    requires packetLimit < U64 && byteLimit < U64 && Countable(byteLimit, max) && size <= max
    requires p == (Packets(steps) + 1) % U64 && b == (Total(steps) + size) % U64
    ensures Due(packetLimit, byteLimit, steps + [Traffic(size)], hard)
      <==> Due(packetLimit, byteLimit, steps, hard) || Reached(packetLimit, p) || Reached(byteLimit, b)
  {
    CountMore(steps, Traffic(size));
    FiredMore(steps, Traffic(size), hard);
    LimitsShow(packetLimit, byteLimit, Packets(steps), Total(steps), size, max);
  }

  /** Either limit is shown when one of them is reached just now. */
  lemma LimitsShow(packetLimit: nat, byteLimit: nat, packets: nat, bytes: nat, size: nat,
                   max: nat)
    requires packetLimit < U64 && byteLimit < U64 && Countable(byteLimit, max) && size <= max
    ensures var shown := Reached(packetLimit, (packets + 1) % U64) || Reached(byteLimit, (bytes + size) % U64);
      var before := Reached(packetLimit, packets) || Reached(byteLimit, bytes);
      var due := Reached(packetLimit, packets + 1) || Reached(byteLimit, bytes + size);
      (shown ==> due) && (due ==> before || shown) && (before ==> due)
  {
    CounterShows(packetLimit, packets, 1, max);
    CounterShows(byteLimit, bytes, size, max);
  }

  lemma UseFlags(l: Lifetime, u: Usage, size: nat)
    requires u.events == Raised(u)
    ensures var p, b, v := (u.packets + 1) % U64, (u.bytes + size) % U64, Use(l, u, size);
      var life := Reached(l.packets.life, p) || Reached(l.bytes.life, b);
      var rekey := Reached(l.packets.rekey, p) || Reached(l.bytes.rekey, b);
      && v.packets == p && v.bytes == b && v.events == Raised(v)
      && v.hard == (u.hard || life) && (v.soft || v.hard) == (u.soft || u.hard || life || rekey)
  {
  }

  lemma TimerExact(l: Lifetime, steps: seq<Step>, u: Usage, hard: bool)
    requires Exact(l, steps, u)
    ensures Exact(l, steps + [Timer(hard)], Expire(u, hard))
  {
    CountMore(steps, Timer(hard));
    FiredMore(steps, Timer(hard), true);
    FiredMore(steps, Timer(hard), false);
  }

  lemma {:induction false} RunExact(l: Lifetime, steps: seq<Step>, max: nat)
    requires Countables(l, max) && ValidSteps(steps, max)
    ensures Exact(l, steps, Run(l, steps))
  {
    if steps != [] {
      var before, s := steps[..|steps| - 1], steps[|steps| - 1];
      assert steps == before + [s];
      RunExact(l, before, max);
      if s.Traffic? {
        TrafficExact(l, before, Run(l, before), s.size, max);
      } else {
        TimerExact(l, before, Run(l, before), s.hard);
      }
    }
  }

  /** Whatever the limits: the events are one of four sequences. */
  lemma {:induction false} EventsInOrder(l: Lifetime, steps: seq<Step>)
    ensures Run(l, steps).events == Raised(Run(l, steps))
  {
    if steps != [] {
      EventsInOrder(l, steps[..|steps| - 1]);
    }
  }

  /** Flags are never taken back. */
  lemma {:induction false} FlagsStay(l: Lifetime, steps: seq<Step>, more: seq<Step>)
    ensures Run(l, steps).hard ==> Run(l, steps + more).hard
    ensures Run(l, steps).soft ==> Run(l, steps + more).soft
    ensures Run(l, steps).hard && !Run(l, steps).soft ==> !Run(l, steps + more).soft
  {
    if more == [] {
      assert steps + more == steps;
    } else {
      var n := |more| - 1;
      FlagsStay(l, steps, more[..n]);
      assert steps + more == (steps + more[..n]) + [more[n]];
      RunStep(l, steps + more[..n], more[n]);
    }
  }

  // ----- byte limits near the end of the counter

  /** Packets with the given total size. */
  function Fill(n: nat, max: nat): seq<Step>
    requires max > 0
  {
    if n <= max then [Traffic(n)] else Fill(n - max, max) + [Traffic(max)]
  }

  lemma {:induction false} FillTotal(n: nat, max: nat)
    requires max > 0
    ensures Total(Fill(n, max)) == n && ValidSteps(Fill(n, max), max) && Fill(n, max) != []
  {
    if n > max {
      FillTotal(n - max, max);
      CountMore(Fill(n - max, max), Traffic(max));
    } else {
      assert Fill(n, max)[..0] == [];
    }
  }

  function BytesOnly(life: nat): Lifetime {
    Lifetime(Limit(0, 0), Limit(0, 0), Limit(life, 0))
  }

  lemma UseBelow(life: nat, u: Usage, size: nat)
    requires u.bytes + size < life < U64
    ensures Use(BytesOnly(life), u, size) == u.(packets := (u.packets + 1) % U64, bytes := u.bytes + size)
  {
  }

  lemma BelowMore(life: nat, before: seq<Step>, size: nat)
    requires life < U64 && Run(BytesOnly(life), before).bytes + size < life
    ensures var u, v := Run(BytesOnly(life), before), Run(BytesOnly(life), before + [Traffic(size)]);
      v.hard == u.hard && v.soft == u.soft && v.bytes == u.bytes + size
  {
    RunStep(BytesOnly(life), before, Traffic(size));
    UseBelow(life, Run(BytesOnly(life), before), size);
  }

  lemma {:induction false} BelowLimit(life: nat, n: nat, max: nat)
    requires max > 0 && n < life < U64
    ensures var u := Run(BytesOnly(life), Fill(n, max)); !u.hard && !u.soft && u.bytes == n
  {
    if n > max {
      BelowLimit(life, n - max, max);
      BelowMore(life, Fill(n - max, max), max);
    } else {
      assert [] + [Traffic(n)] == [Traffic(n)];
      BelowMore(life, [], n);
    }
  }

  ghost predicate NeverMissed(life: nat, max: nat) {
    forall steps :: ValidSteps(steps, max) && Total(steps) >= life ==> Run(BytesOnly(life), steps).hard
  }

  /** A byte limit is noticed in every run of packets of at most `max` bytes exactly if
      the 64-bit counter cannot wrap around before the limit is seen. */
  lemma ByteLimitTheorem(life: nat, max: nat)
    requires 0 < max < U64 && 0 < life < U64
    ensures NeverMissed(life, max) <==> Countable(life, max)
  {
    if Countable(life, max) {
      forall steps | ValidSteps(steps, max) && Total(steps) >= life ensures Run(BytesOnly(life), steps).hard {
        RunExact(BytesOnly(life), steps, max);
      }
    } else {
      MissedLimit(life, max);
    }
  }

  /** The next packet takes the counter around. */
  lemma Wraps(life: nat, u: Usage, max: nat)
    requires 0 < max < U64 && 0 < life < U64 && !Countable(life, max) && u.bytes == life - 1 && !u.hard
    ensures !Use(BytesOnly(life), u, max).hard
  {
    var n := u.bytes + max;
    assert U64 <= n < 2 * U64;
    DivModUnique(1, n - U64, U64);
    assert n % U64 == n - U64 < life;
  }

  lemma MissedLimit(life: nat, max: nat)
    requires 0 < max < U64 && 0 < life < U64 && !Countable(life, max)
    ensures !NeverMissed(life, max)
  {
    var l, before := BytesOnly(life), Fill(life - 1, max);
    var steps := before + [Traffic(max)];
    FillTotal(life - 1, max);
    BelowLimit(life, life - 1, max);
    Missed(l, before, life, max);
    assert ValidSteps(steps, max) && Total(steps) >= life && !Run(l, steps).hard;
  }

  lemma Missed(l: Lifetime, before: seq<Step>, life: nat, max: nat)
    requires 0 < max < U64 && 0 < life < U64 && !Countable(life, max) && l == BytesOnly(life)
    requires ValidSteps(before, max) && Total(before) == life - 1
    requires !Run(l, before).hard && Run(l, before).bytes == life - 1
    ensures var steps := before + [Traffic(max)];
      ValidSteps(steps, max) && Total(steps) >= life && !Run(l, steps).hard
  {
    CountMore(before, Traffic(max));
    RunStep(l, before, Traffic(max));
    Wraps(life, Run(l, before), max);
  }

  // ----- lookups

  /** Addresses stand for themselves. */
  datatype Identity = Identity(spi: nat, src: nat, dst: nat, reqid: nat, inbound: bool)

  predicate MatchBySpiDst(i: Identity, u: Usage, spi: nat, dst: nat) {
    i.spi == spi && i.dst == dst && !u.hard
  }

  predicate MatchByReqid(i: Identity, u: Usage, reqid: nat, inbound: bool) {
    i.reqid == reqid && i.inbound == inbound && !u.hard
  }

  /** Once a hard limit is due, no checkout finds the SA, ever again; until then it is
      found under exactly its own SPI and address, and its own reqid and direction. */
  lemma ExpiredIsNotFound(l: Lifetime, steps: seq<Step>, more: seq<Step>, i: Identity, max: nat)
    requires Countables(l, max) && ValidSteps(steps + more, max)
    ensures HardDue(l, steps) ==> forall spi, dst :: !MatchBySpiDst(i, Run(l, steps + more), spi, dst)
    ensures HardDue(l, steps) ==> forall reqid, inbound :: !MatchByReqid(i, Run(l, steps + more), reqid, inbound)
    ensures !HardDue(l, steps) ==>
      && (forall spi, dst :: MatchBySpiDst(i, Run(l, steps), spi, dst) <==> spi == i.spi && dst == i.dst)
      && forall reqid, inbound ::
        MatchByReqid(i, Run(l, steps), reqid, inbound) <==> reqid == i.reqid && inbound == i.inbound
  {
    assert steps == (steps + more)[..|steps|];
    RunExact(l, steps, max);
    FlagsStay(l, steps, more);
  }

  // ----- timers

  /** When a timer fires, and whether it is the hard one. */
  datatype Alarm = Alarm(at: nat, hard: bool)

  datatype Job = Job(timeout: nat, hardOffset: nat)

  /** Timeouts and offsets are 32-bit numbers, lifetimes have 64 bits. */
  function ScheduleExpiration(t: Limit): Option<Job> {
    if t.life == 0 then None
    else if t.life <= t.rekey || t.rekey == 0 then Some(Job(t.life % 0x1_0000_0000, 0))
    else Some(Job(t.rekey % 0x1_0000_0000, (t.life - t.rekey) % 0x1_0000_0000))
  }

  /** One call of the job: hard if there is no offset left, else again later. */
  function Expired(now: nat, hardOffset: nat): (Alarm, Option<nat>) {
    (Alarm(now, hardOffset == 0), if hardOffset == 0 then None else Some(hardOffset))
  }

  /** The alarms of an SA that stays installed. */
  function Alarms(t: Limit): seq<Alarm> {
    match ScheduleExpiration(t)
    case None => []
    case Some(job) =>
      var (first, again) := Expired(job.timeout, job.hardOffset);
      match again
      case None => [first]
      case Some(offset) => [first, Expired(job.timeout + offset, 0).0]
  }

  /** Hard at the end of life; before that, soft at rekey time if there is one. */
  function Wanted(t: Limit): seq<Alarm> {
    if t.life == 0 then []
    else if 0 < t.rekey < t.life then [Alarm(t.rekey, false), Alarm(t.life, true)]
    else [Alarm(t.life, true)]
  }

  predicate Fits32(t: Limit) {
    if 0 < t.rekey < t.life then t.rekey < 0x1_0000_0000 && t.life - t.rekey < 0x1_0000_0000
    else t.life < 0x1_0000_0000
  }

  /** Timers fire as wanted exactly if the times fit in 32 bits. */
  lemma TimersTheorem(t: Limit)
    ensures Alarms(t) == Wanted(t) <==> Fits32(t)
  {
    var a, w := Alarms(t), Wanted(t);
    if 0 < t.rekey < t.life {
      assert w[0] == Alarm(t.rekey, false) && w[1] == Alarm(t.life, true);
      assert a[0].at == t.rekey % 0x1_0000_0000;
      var offset := (t.life - t.rekey) % 0x1_0000_0000;
      assert a == w ==> |a| == 2 && a[1].at == t.rekey % 0x1_0000_0000 + offset;
    } else if t.life > 0 {
      assert w[0] == Alarm(t.life, true) && a[0] == Alarm(t.life % 0x1_0000_0000, true);
    }
  }

  /** A life of 2^32 seconds ends at once. */
  lemma LongLifeEndsAtOnce()
    ensures Alarms(Limit(0x1_0000_0000, 0)) == [Alarm(0, true)]
    ensures Wanted(Limit(0x1_0000_0000, 0)) == [Alarm(0x1_0000_0000, true)]
  {
    assert ScheduleExpiration(Limit(0x1_0000_0000, 0)) == Some(Job(0, 0));
  }

  // ----- the SA object

  class IpsecSa {
    const lifetime: Lifetime
    var usePackets: nat
    var useBytes: nat
    var softExpired: bool
    var hardExpired: bool
    ghost var events: seq<Event>
    ghost var history: seq<Step>

    ghost function State(): Usage
      reads this
    {
      Usage(usePackets, useBytes, softExpired, hardExpired, events)
    }

    ghost predicate Valid()
      reads this
    {
      State() == Run(lifetime, history)
    }

    constructor (l: Lifetime)
      ensures Valid() && history == [] && lifetime == l
    {
      lifetime, usePackets, useBytes, softExpired, hardExpired := l, 0, 0, false, false;
      events, history := [], [];
    }

    method ExpireNow(hard: bool)
      modifies this`softExpired, this`hardExpired, this`events
      ensures State() == Expire(old(State()), hard)
    {
      if hard {
        if !hardExpired {
          hardExpired := true;
          events := events + [Hard];
        }
      } else {
        if !hardExpired && !softExpired {
          softExpired := true;
          events := events + [Soft];
        }
      }
    }

    method TimerFired(hard: bool)
      requires Valid()
      modifies this
      ensures Valid() && history == old(history) + [Timer(hard)]
    {
      RunStep(lifetime, history, Timer(hard));
      history := history + [Timer(hard)];
      ExpireNow(hard);
    }

    method UpdateUsestats(bytes: nat)
      requires Valid()
      modifies this
      ensures Valid() && history == old(history) + [Traffic(bytes)]
    {
      RunStep(lifetime, history, Traffic(bytes));
      history := history + [Traffic(bytes)];
      Count(bytes);
    }

    method Count(bytes: nat)
      modifies this`usePackets, this`useBytes, this`softExpired, this`hardExpired, this`events
      ensures State() == Use(lifetime, old(State()), bytes)
    {
      usePackets := (usePackets + 1) % U64;
      useBytes := (useBytes + bytes) % U64;
      if lifetime.packets.life != 0 && usePackets >= lifetime.packets.life {
        ExpireNow(true);
      } else if lifetime.bytes.life != 0 && useBytes >= lifetime.bytes.life {
        ExpireNow(true);
      } else if lifetime.packets.rekey != 0 && usePackets >= lifetime.packets.rekey {
        ExpireNow(false);
      } else if lifetime.bytes.rekey != 0 && useBytes >= lifetime.bytes.rekey {
        ExpireNow(false);
      }
    }
  }
}
