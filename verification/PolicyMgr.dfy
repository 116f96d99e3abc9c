/** The policy database of libipsec: a list kept sorted by a pseudo-priority that is
    calculated from the class of a policy and the size of its selectors. */
module PolicyMgr {
  import opened Bytes

  datatype Class = Pass | Default | Routed | Fallback
  datatype Direction = In | Out | Fwd
  datatype PolicyType = Ipsec | Bypass | Drop

  /** A range of addresses and ports. `mask` is the prefix length of the smallest subnet
      around the range. */
  datatype Selector = Selector(v6: bool, first: seq<byte>, last: seq<byte>, mask: nat,
                               protocol: byte, fromPort: nat, toPort: nat)

  datatype Policy = Policy(src: Selector, dst: Selector, direction: Direction, reqid: nat, mark: nat, rank: Class)

  /** An entry of the list. */
  datatype Installed = Installed(policy: Policy, priority: nat)

  /** The same with a serial number, to tell entries apart: later ones have higher numbers. */
  datatype Entry = Entry(policy: Policy, priority: nat, serial: nat)

  datatype Packet = Packet(v6: bool, src: seq<byte>, dst: seq<byte>, srcPort: nat, dstPort: nat, protocol: byte)

  predicate ValidSelector(s: Selector) {
    s.mask <= 128
  }

  predicate ValidPolicy(p: Policy) {
    ValidSelector(p.src) && ValidSelector(p.dst)
  }

  // ----- priorities

  const PRIO_BASE: nat := 384

  function SubnetPort(s: Selector): nat {
    if s.fromPort == s.toPort then s.toPort else 0
  }

  function Max(a: nat, b: nat): nat {
    if a < b then b else a
  }

  function Protocol(p: Policy): nat {
    Max(p.src.protocol, p.dst.protocol)
  }

  function Base(c: Class): nat {
    match c
    case Pass => PRIO_BASE
    case Default => PRIO_BASE * 2
    case Routed => PRIO_BASE * 4
    case Fallback => PRIO_BASE * 8
  }

  /** Subtractions and shifts as on 32-bit unsigned numbers. */
  function CalculatePriority(p: Policy): nat {
    var narrow := (Base(p.rank) - p.src.mask - p.dst.mask) % 0x1_0000_0000;
    var shifted := narrow * 4 % 0x1_0000_0000;
    shifted + (if Max(SubnetPort(p.src), SubnetPort(p.dst)) != 0 then 0 else 2) + (if Protocol(p) != 0 then 0 else 1)
  }

  /** What comes first: the class, then narrower selectors, then a port, then a protocol. */
  datatype Key = Key(rank: nat, breadth: nat, anyPort: nat, anyProtocol: nat)

  function KeyOf(p: Policy): Key
    requires ValidPolicy(p)
  {
    Key(match p.rank case Pass => 0 case Default => 1 case Routed => 2 case Fallback => 3,
        256 - p.src.mask - p.dst.mask,
        if (p.src.fromPort == p.src.toPort != 0) || (p.dst.fromPort == p.dst.toPort != 0) then 0 else 1,
        if p.src.protocol != 0 || p.dst.protocol != 0 then 0 else 1)
  }

  predicate KeyLess(a: Key, b: Key) {
    || a.rank < b.rank
    || (a.rank == b.rank && (
      || a.breadth < b.breadth
      || (a.breadth == b.breadth && (
        || a.anyPort < b.anyPort
        || (a.anyPort == b.anyPort && a.anyProtocol < b.anyProtocol)))))
  }

  /** Nothing wraps around, and lower numbers are exactly lexicographically lower keys. */
  lemma PriorityIsLexicographic(p: Policy, q: Policy)
    requires ValidPolicy(p) && ValidPolicy(q)
    ensures 512 <= CalculatePriority(p) < 0x1_0000
    ensures CalculatePriority(p) < CalculatePriority(q) <==> KeyLess(KeyOf(p), KeyOf(q))
    ensures CalculatePriority(p) == CalculatePriority(q) <==> KeyOf(p) == KeyOf(q)
  {
    PriorityValue(p);
    PriorityValue(q);
  }

  lemma PriorityValue(p: Policy)
    requires ValidPolicy(p)
    ensures var k := KeyOf(p);
      && k.breadth <= 256 && k.anyPort <= 1 && k.anyProtocol <= 1
      && CalculatePriority(p) == (Base(p.rank) - 256 + k.breadth) * 4 + 2 * k.anyPort + k.anyProtocol
  {
    var n := Base(p.rank) - p.src.mask - p.dst.mask;
    assert 0 < n <= 0x1000;
    assert n % 0x1_0000_0000 == n && n * 4 % 0x1_0000_0000 == n * 4;
  }

  // ----- matching

  /** Byte-wise comparison from the front. */
  predicate AtMost(a: seq<byte>, b: seq<byte>)
    requires |a| == |b|
  {
    |a| == 0 || a[0] < b[0] || (a[0] == b[0] && AtMost(a[1..], b[1..]))
  }

  /** An address as a big-endian number. */
  function Number(a: seq<byte>): (n: nat)
    ensures n < Power256(|a|)
  {
    if a == [] then 0 else
      DigitBound(a[0], Power256(|a| - 1), Number(a[1..]));
      a[0] * Power256(|a| - 1) + Number(a[1..])
  }

  function Power256(n: nat): (p: nat)
    ensures p > 0
  {
    if n == 0 then 1 else 256 * Power256(n - 1)
  }

  lemma DigitBound(x: nat, p: nat, m: nat)
    requires x < 256 && m < p
    ensures 0 <= x * p && x * p + m < 256 * p
  {
    assert (255 - x) * p >= 0;
  }

  lemma DigitsCompare(x: nat, m: nat, y: nat, n: nat, p: nat)
    requires m < p && n < p
    ensures x * p + m <= y * p + n <==> x < y || (x == y && m <= n)
  {
    if x < y {
      NextMultiple(x, y, p);
    } else if y < x {
      NextMultiple(y, x, p);
    }
  }

  lemma NextMultiple(x: nat, y: nat, p: nat)
    requires x < y
    ensures x * p + p <= y * p
  {
    var d := y - x - 1;
    assert y * p == x * p + p + d * p by {
      assert y == x + 1 + d;
    }
    assert d * p >= 0;
  }

  /** Comparing bytes from the front is comparing addresses as numbers. */
  lemma {:induction false} AtMostIsNumeric(a: seq<byte>, b: seq<byte>)
    requires |a| == |b|
    ensures AtMost(a, b) <==> Number(a) <= Number(b)
  {
    if a != [] {
      AtMostIsNumeric(a[1..], b[1..]);
      DigitsCompare(a[0], Number(a[1..]), b[0], Number(b[1..]), Power256(|a| - 1));
    }
  }

  predicate Includes(s: Selector, v6: bool, address: seq<byte>) {
    s.v6 == v6 && |s.first| == |s.last| == |address| && AtMost(s.first, address) && AtMost(address, s.last)
  }

  predicate MatchPort(s: Selector, port: nat) {
    (s.fromPort == 0 && s.toPort == 0xffff) || (s.fromPort == 0xffff && s.toPort == 0) || s.fromPort <= port <= s.toPort
  }

  predicate MatchPacket(p: Policy, packet: Packet) {
    && (Protocol(p) == 0 || Protocol(p) == packet.protocol)
    && Includes(p.src, packet.v6, packet.src) && MatchPort(p.src, packet.srcPort)
    && Includes(p.dst, packet.v6, packet.dst) && MatchPort(p.dst, packet.dstPort)
  }

  /** The policy applies to the packet. */
  predicate Applies(p: Policy, packet: Packet, inbound: bool, reqid: nat) {
    inbound == (p.direction == In) && MatchPacket(p, packet) && (reqid == 0 || reqid == p.reqid)
  }

  predicate SameSelector(a: Selector, b: Selector) {
    a.(mask := b.mask) == b
  }

  predicate Match(p: Policy, q: Policy) {
    && p.direction == q.direction && p.rank == q.rank && p.reqid == q.reqid && p.mark == q.mark
    && SameSelector(p.src, q.src) && SameSelector(p.dst, q.dst)
  }

  /** On 16-bit ports only the opaque range is special. */
  lemma PortsInRange(s: Selector, port: nat)
    requires port <= 0xffff
    ensures MatchPort(s, port) <==> s.fromPort <= port <= s.toPort || (s.fromPort == 0xffff && s.toPort == 0)
  {
  }

  /** The address is one of the selector's, as a number between its first and last one,
      of the same family. */
  predicate InRange(s: Selector, v6: bool, address: seq<byte>, port: nat) {
    && s.v6 == v6 && |address| == |s.first| == |s.last|
    && Number(s.first) <= Number(address) <= Number(s.last)
    && (s.fromPort <= port <= s.toPort || (s.fromPort == 0xffff && s.toPort == 0))
  }

  /** A policy applies exactly to the packets of its direction and reqid whose addresses
      and ports are in range and whose protocol is the one that it has, if any. */
  lemma AppliesMeans(p: Policy, packet: Packet, inbound: bool, reqid: nat)
    requires packet.srcPort <= 0xffff && packet.dstPort <= 0xffff
    ensures Applies(p, packet, inbound, reqid) <==>
      && (if inbound then p.direction == In else p.direction == Out || p.direction == Fwd)
      && (reqid == 0 || p.reqid == reqid)
      && ((p.src.protocol == 0 && p.dst.protocol == 0)
          || packet.protocol as nat == Max(p.src.protocol, p.dst.protocol))
      && InRange(p.src, packet.v6, packet.src, packet.srcPort)
      && InRange(p.dst, packet.v6, packet.dst, packet.dstPort)
  {
    IncludesMeans(p.src, packet.v6, packet.src);
    IncludesMeans(p.dst, packet.v6, packet.dst);
  }

  lemma IncludesMeans(s: Selector, v6: bool, address: seq<byte>)
    ensures Includes(s, v6, address) <==>
      && s.v6 == v6 && |address| == |s.first| == |s.last|
      && Number(s.first) <= Number(address) <= Number(s.last)
  {
    if |address| == |s.first| == |s.last| {
      AtMostIsNumeric(s.first, address);
      AtMostIsNumeric(address, s.last);
    }
  }

  /** A policy matches exactly its own parameters, up to what follows from them. */
  lemma MatchIsEquality(p: Policy, q: Policy)
    requires p.src.mask == q.src.mask && p.dst.mask == q.dst.mask
    ensures Match(p, q) <==> p == q
  {
  }

  // ----- the list

  function Insert(list: seq<Entry>, e: Entry): seq<Entry> {
    if list == [] || list[0].priority >= e.priority then [e] + list else [list[0]] + Insert(list[1..], e)
  }

  predicate IsIt(e: Entry, p: Policy) {
    e.priority == CalculatePriority(p) && Match(e.policy, p)
  }

  /** Without the first entry for the policy, if there is one. */
  function Delete(list: seq<Entry>, p: Policy): seq<Entry> {
    if list == [] then []
    else if IsIt(list[0], p) then list[1..]
    else [list[0]] + Delete(list[1..], p)
  }

  predicate Ignored(p: Policy, t: PolicyType) {
    t != Ipsec || p.direction == Fwd
  }

  datatype Step = Add(policy: Policy, kind: PolicyType) | Del(policy: Policy, kind: PolicyType) | Flush

  /** The list after a step; `serial` counts the steps. */
  function Apply(list: seq<Entry>, s: Step, serial: nat): seq<Entry> {
    match s
    case Add(p, t) => if Ignored(p, t) then list else Insert(list, Entry(p, CalculatePriority(p), serial))
    case Del(p, t) => if Ignored(p, t) then list else Delete(list, p)
    case Flush => []
  }

  function Run(steps: seq<Step>): seq<Entry> {
    if steps == [] then [] else Apply(Run(steps[..|steps| - 1]), steps[|steps| - 1], |steps| - 1)
  }

  /** a comes before b: lower priority value, or newer. */
  predicate Before(a: Entry, b: Entry) {
    a.priority < b.priority || (a.priority == b.priority && a.serial > b.serial)
  }

  predicate Ordered(list: seq<Entry>) {
    forall i, j | 0 <= i < j < |list| :: Before(list[i], list[j])
  }

  /** Each entry was added at the step of its serial number, with its priority. */
  predicate FromSteps(list: seq<Entry>, steps: seq<Step>) {
    forall i | 0 <= i < |list| ::
      && list[i].serial < |steps| && list[i].priority == CalculatePriority(list[i].policy)
      && steps[list[i].serial].Add? && steps[list[i].serial].policy == list[i].policy
      && !Ignored(list[i].policy, steps[list[i].serial].kind)
  }

  lemma {:induction false} InsertAt(list: seq<Entry>, e: Entry) returns (k: nat)
    ensures k <= |list| && Insert(list, e) == list[..k] + [e] + list[k..]
    ensures (forall i | 0 <= i < k :: list[i].priority < e.priority) && (k < |list| ==> list[k].priority >= e.priority)
  {
    if list == [] || list[0].priority >= e.priority {
      k := 0;
    } else {
      var k' := InsertAt(list[1..], e);
      k := k' + 1;
      assert list[..k] == [list[0]] + list[1..][..k'];
    }
  }

  lemma {:induction false} DeleteAt(list: seq<Entry>, p: Policy) returns (k: nat)
    ensures k <= |list| && (forall i | 0 <= i < k :: !IsIt(list[i], p)) && (k < |list| ==> IsIt(list[k], p))
    ensures Delete(list, p) == if k < |list| then list[..k] + list[k + 1..] else list
  {
    if list == [] || IsIt(list[0], p) {
      k := 0;
    } else {
      var rest := list[1..];
      var k' := DeleteAt(rest, p);
      k := k' + 1;
      assert list == [list[0]] + rest;
      assert k' < |rest| ==> [list[0]] + (rest[..k'] + rest[k' + 1..]) == list[..k] + list[k + 1..];
    }
  }

  lemma InsertOrdered(list: seq<Entry>, e: Entry)
    requires Ordered(list) && forall i | 0 <= i < |list| :: list[i].serial < e.serial
    ensures Ordered(Insert(list, e))
  {
    var k := InsertAt(list, e);
    var after := Insert(list, e);
    forall i, j | 0 <= i < j < |after| ensures Before(after[i], after[j]) {
      assert i < k ==> after[i] == list[i];
      assert j > k ==> after[j] == list[j - 1];
      assert i > k ==> after[i] == list[i - 1];
      assert j < k ==> after[j] == list[j];
      assert j > k && i == k ==> list[k].priority <= list[j - 1].priority;
    }
  }

  lemma DeleteOrdered(list: seq<Entry>, p: Policy)
    requires Ordered(list)
    ensures Ordered(Delete(list, p))
  {
    var k := DeleteAt(list, p);
  }

  lemma ApplyMembers(list: seq<Entry>, s: Step, serial: nat)
    ensures forall i | 0 <= i < |Apply(list, s, serial)| ::
      || Apply(list, s, serial)[i] in list
      || (s.Add? && !Ignored(s.policy, s.kind)
          && Apply(list, s, serial)[i] == Entry(s.policy, CalculatePriority(s.policy), serial))
  {
    match s
    case Add(p, t) =>
      var k := InsertAt(list, Entry(p, CalculatePriority(p), serial));
    case Del(p, t) =>
      var k := DeleteAt(list, p);
    case Flush =>
  }

  /** The list is sorted, newest first among equals, over every run. */
  lemma {:induction false} RunOrdered(steps: seq<Step>)
    ensures Ordered(Run(steps)) && FromSteps(Run(steps), steps)
  {
    if steps != [] {
      var n := |steps| - 1;
      var list, s := Run(steps[..n]), steps[n];
      RunOrdered(steps[..n]);
      ApplyMembers(list, s, n);
      match s
      case Add(p, t) =>
        InsertOrdered(list, Entry(p, CalculatePriority(p), n));
      case Del(p, t) =>
        DeleteOrdered(list, p);
      case Flush =>
    }
  }

  /** Adding and then deleting the same policy gives back the very same list, whatever
      else is installed. */
  lemma DeleteUndoesAdd(list: seq<Entry>, p: Policy, t: PolicyType, serial: nat, later: nat)
    ensures Apply(Apply(list, Add(p, t), serial), Del(p, t), later) == list
  {
    if !Ignored(p, t) {
      var e := Entry(p, CalculatePriority(p), serial);
      var k := InsertAt(list, e);
      var after := Insert(list, e);
      var k' := DeleteAt(after, p);
      assert after[k] == e && IsIt(e, p);
      assert forall i | 0 <= i < k :: after[i] == list[i];
      assert k' == k;
      assert after[..k] == list[..k] && after[k + 1..] == list[k..];
    }
  }

  // ----- what is installed

  /** The same policy, up to a prefix length that makes no difference. */
  predicate SamePolicy(p: Policy, q: Policy) {
    Match(p, q) && CalculatePriority(p) == CalculatePriority(q)
  }

  /** How often a policy is in the list. */
  function Copies(list: seq<Entry>, p: Policy): nat {
    if list == [] then 0 else (if SamePolicy(list[0].policy, p) then 1 else 0) + Copies(list[1..], p)
  }

  /** How often it should be there: once more with each addition and once less with each
      deletion, of IPsec policies that are not for forwarding, since the last flush. */
  function Expected(steps: seq<Step>, p: Policy): nat {
    if steps == [] then 0 else
      var before := Expected(steps[..|steps| - 1], p);
      match steps[|steps| - 1]
      case Add(q, t) => if t == Ipsec && q.direction != Fwd && SamePolicy(q, p) then before + 1 else before
      case Del(q, t) =>
        if t == Ipsec && q.direction != Fwd && SamePolicy(q, p) && before > 0 then before - 1 else before
      case Flush => 0
  }

  lemma {:induction false} CopiesAppend(a: seq<Entry>, b: seq<Entry>, p: Policy)
    ensures Copies(a + b, p) == Copies(a, p) + Copies(b, p)
  {
    if a == [] {
      assert a + b == b;
    } else {
      assert (a + b)[1..] == a[1..] + b;
      CopiesAppend(a[1..], b, p);
    }
  }

  lemma CopiesAround(a: seq<Entry>, e: Entry, b: seq<Entry>, p: Policy)
    ensures Copies(a + [e] + b, p) == Copies(a + b, p) + if SamePolicy(e.policy, p) then 1 else 0
  {
    CopiesAppend(a, [e], p);
    CopiesAppend(a + [e], b, p);
    CopiesAppend(a, b, p);
    assert Copies([e], p) == (if SamePolicy(e.policy, p) then 1 else 0) + Copies([], p);
  }

  lemma {:induction false} NoCopies(list: seq<Entry>, p: Policy)
    requires forall i | 0 <= i < |list| :: !SamePolicy(list[i].policy, p)
    ensures Copies(list, p) == 0
  {
    if list != [] {
      NoCopies(list[1..], p);
    }
  }

  lemma InsertCopies(list: seq<Entry>, e: Entry, p: Policy)
    ensures Copies(Insert(list, e), p) == Copies(list, p) + if SamePolicy(e.policy, p) then 1 else 0
  {
    var k := InsertAt(list, e);
    assert list == list[..k] + list[k..];
    CopiesAround(list[..k], e, list[k..], p);
  }

  lemma DeleteCopies(list: seq<Entry>, p: Policy, q: Policy)
    requires forall i | 0 <= i < |list| :: list[i].priority == CalculatePriority(list[i].policy)
    ensures Copies(Delete(list, q), p)
      == if SamePolicy(q, p) && Copies(list, p) > 0 then Copies(list, p) - 1 else Copies(list, p)
  {
    var k := DeleteAt(list, q);
    if k < |list| {
      assert list == list[..k] + [list[k]] + list[k + 1..];
      CopiesAround(list[..k], list[k], list[k + 1..], p);
      assert SamePolicy(list[k].policy, q);
      assert SamePolicy(list[k].policy, p) <==> SamePolicy(q, p);
    } else if SamePolicy(q, p) {
      forall i | 0 <= i < |list| ensures !SamePolicy(list[i].policy, p) {
        assert !IsIt(list[i], q);
      }
      NoCopies(list, p);
    }
  }

  lemma KnownPriorities(steps: seq<Step>)
    ensures var list := Run(steps); forall i | 0 <= i < |list| :: list[i].priority == CalculatePriority(list[i].policy)
  {
    RunOrdered(steps);
  }

  /** Over every run each policy is installed as often as it should be. */
  lemma {:induction false} InstalledTheorem(steps: seq<Step>, p: Policy)
    ensures Copies(Run(steps), p) == Expected(steps, p)
  {
    if steps != [] {
      var n := |steps| - 1;
      var list := Run(steps[..n]);
      InstalledTheorem(steps[..n], p);
      KnownPriorities(steps[..n]);
      match steps[n]
      case Add(q, t) =>
        InsertCopies(list, Entry(q, CalculatePriority(q), n), p);
      case Del(q, t) =>
        DeleteCopies(list, p, q);
      case Flush =>
    }
  }

  // ----- lookups

  predicate IsBest(list: seq<Entry>, e: Entry, packet: Packet, inbound: bool, reqid: nat) {
    && e in list && Applies(e.policy, packet, inbound, reqid)
    && forall i | 0 <= i < |list| ::
         Applies(list[i].policy, packet, inbound, reqid) ==> list[i] == e || Before(e, list[i])
  }

  predicate NoneApplies(list: seq<Entry>, packet: Packet, inbound: bool, reqid: nat) {
    forall i | 0 <= i < |list| :: !Applies(list[i].policy, packet, inbound, reqid)
  }

  /** In terms of policies: of all the applicable ones that are installed after any run,
      the best one has the lexicographically least key and, among those, came last. */
  lemma BestMeansFirst(steps: seq<Step>, e: Entry, f: Entry, packet: Packet, inbound: bool, reqid: nat)
    requires forall i | 0 <= i < |steps| && !steps[i].Flush? :: ValidPolicy(steps[i].policy)
    requires IsBest(Run(steps), e, packet, inbound, reqid)
    requires f in Run(steps) && Applies(f.policy, packet, inbound, reqid) && f != e
    ensures ValidPolicy(e.policy) && ValidPolicy(f.policy)
    ensures KeyLess(KeyOf(e.policy), KeyOf(f.policy)) || (KeyOf(e.policy) == KeyOf(f.policy) && e.serial > f.serial)
  {
    RunOrdered(steps);
    PriorityIsLexicographic(e.policy, f.policy);
  }

  function WithoutSerials(entries: seq<Entry>): (list: seq<Installed>)
    ensures |list| == |entries|
    ensures forall i | 0 <= i < |list| :: list[i] == Installed(entries[i].policy, entries[i].priority)
  {
    seq(|entries|, i requires 0 <= i < |entries| => Installed(entries[i].policy, entries[i].priority))
  }

  lemma InsertedSerials(entries: seq<Entry>, i: nat, e: Entry)
    requires i <= |entries|
    ensures WithoutSerials(entries[..i] + [e] + entries[i..])
      == WithoutSerials(entries)[..i] + [Installed(e.policy, e.priority)] + WithoutSerials(entries)[i..]
  {
  }

  lemma DeletedSerials(entries: seq<Entry>, i: nat)
    requires i < |entries|
    ensures WithoutSerials(entries[..i] + entries[i + 1..])
      == WithoutSerials(entries)[..i] + WithoutSerials(entries)[i + 1..]
  {
  }

  class PolicyManager {
    var policies: seq<Installed>
    ghost var entries: seq<Entry>
    ghost var history: seq<Step>

    ghost predicate Valid()
      reads this
    {
      policies == WithoutSerials(entries) && entries == Run(history)
    }

    constructor ()
      ensures Valid() && history == []
    {
      policies, entries, history := [], [], [];
    }

    /** The place of the first entry that does not come before the priority. */
    method FindPlace(priority: nat) returns (i: nat)
      ensures i <= |policies| && (i < |policies| ==> policies[i].priority >= priority)
      ensures forall j | 0 <= j < i :: policies[j].priority < priority
    {
      i := 0;
      while i < |policies| && policies[i].priority < priority
        invariant i <= |policies| && forall j | 0 <= j < i :: policies[j].priority < priority
      {
        i := i + 1;
      }
    }

    method AddPolicy(p: Policy, t: PolicyType)
      requires Valid()
      modifies this
      ensures Valid() && history == old(history) + [Add(p, t)]
      ensures if t != Ipsec || p.direction == Fwd then policies == old(policies)
        else exists k :: (0 <= k <= |old(policies)|
          && policies == old(policies)[..k] + [Installed(p, CalculatePriority(p))] + old(policies)[k..])
    {
      ghost var e := Entry(p, CalculatePriority(p), |history|);
      Extend(history, Add(p, t));
      if t != Ipsec || p.direction == Fwd {
        history := history + [Add(p, t)];
        return;
      }
      var entry := Installed(p, CalculatePriority(p));
      var i := FindPlace(entry.priority);
      ghost var k := InsertAt(entries, e);
      assert i == k;
      InsertedSerials(entries, i, e);
      history := history + [Add(p, t)];
      policies := policies[..i] + [entry] + policies[i..];
      entries := entries[..i] + [e] + entries[i..];
    }

    method DelPolicy(p: Policy, t: PolicyType) returns (ok: bool)
      requires Valid()
      modifies this
      ensures Valid() && history == old(history) + [Del(p, t)]
      ensures ok <==>
        (t != Ipsec || p.direction == Fwd || exists i :: 0 <= i < |old(entries)| && IsIt(old(entries)[i], p))
    {
      Extend(history, Del(p, t));
      history := history + [Del(p, t)];
      if t != Ipsec || p.direction == Fwd {
        return true;
      }
      var priority := CalculatePriority(p);
      ghost var k := DeleteAt(entries, p);
      for i := 0 to |policies|
        invariant forall j | 0 <= j < i :: !IsIt(entries[j], p)
      {
        if policies[i].priority == priority && Match(policies[i].policy, p) {
          assert i == k;
          DeletedSerials(entries, i);
          policies := policies[..i] + policies[i + 1..];
          entries := entries[..i] + entries[i + 1..];
          return true;
        }
      }
      return false;
    }

    method FlushPolicies()
      requires Valid()
      modifies this
      ensures Valid() && history == old(history) + [Flush] && policies == []
    {
      Extend(history, Flush);
      history, entries := history + [Flush], [];
      while |policies| > 0
        invariant history == old(history) + [Flush] && entries == []
      {
        policies := policies[..|policies| - 1];
      }
    }

    /** The first match is the best one. */
    method FindByPacket(packet: Packet, inbound: bool, reqid: nat) returns (found: Option<Policy>)
      requires Valid()
      ensures match found
        case None => NoneApplies(entries, packet, inbound, reqid)
        case Some(p) => exists e :: IsBest(entries, e, packet, inbound, reqid) && p == e.policy
    {
      RunOrdered(history);
      for i := 0 to |policies|
        invariant forall j | 0 <= j < i :: !Applies(entries[j].policy, packet, inbound, reqid)
      {
        var p := policies[i].policy;
        if inbound == (p.direction == In) && MatchPacket(p, packet) {
          if reqid == 0 || reqid == p.reqid {
            assert IsBest(entries, entries[i], packet, inbound, reqid);
            return Some(p);
          }
        }
      }
      return None;
    }
  }

  lemma Extend(steps: seq<Step>, s: Step)
    ensures Run(steps + [s]) == Apply(Run(steps), s, |steps|)
  {
    assert (steps + [s])[..|steps|] == steps;
  }
}
