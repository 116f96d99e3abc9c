/** Security parameter indexes: drawn at random from a configured range, remembered until
    their SA gets installed, and never handed out twice. */
module SpiAllocation {
  import opened Bytes

  const U32_LIMIT: nat := 0x1_0000_0000

  /** In network order. */
  type Spi = s: seq<byte> | |s| == 4 witness [0, 0, 1, 0]

  /** What tells SAs apart: SPI, source and destination address. */
  datatype Id = Id(spi: Spi, src: seq<byte>, dst: seq<byte>)

  datatype Sa = Sa(id: Id, inbound: bool)

  datatype State = State(reserved: set<Spi>, sas: seq<Sa>)

  // ----- the range

  datatype Range = Range(lo: nat, hi: nat)

  predicate ValidRange(r: Range) {
    0x100 <= r.lo <= r.hi < U32_LIMIT
  }

  function Max(a: nat, b: nat): nat {
    if a < b then b else a
  }

  /** Swapped if need be, and without the reserved numbers up to 255. */
  function Clamp(min: nat, max: nat): (r: Range)
    requires min < U32_LIMIT && max < U32_LIMIT
    ensures ValidRange(r)
  {
    var lo, hi := if min > max then max else min, if min > max then min else max;
    Range(Max(lo, 0x100), Max(hi, 0x100))
  }

  /** The range is what was configured without the reserved numbers, or else 256 alone. */
  lemma ClampIsExact(min: nat, max: nat, n: nat)
    requires min < U32_LIMIT && max < U32_LIMIT
    ensures var r := Clamp(min, max);
      r.lo <= n <= r.hi <==>
        (n >= 0x100 && (min <= n <= max || max <= n <= min)) || (n == 0x100 && min < 0x100 && max < 0x100)
  {
  }

  /** Unsigned 32-bit arithmetic. */
  function Draw(r: Range, random: nat): nat
    requires ValidRange(r)
  {
    var size := (r.hi - r.lo + 1) % 0x1_0000_0000;
    (r.lo + Remainder(random, size)) % 0x1_0000_0000
  }

  function Remainder(n: nat, d: nat): (m: nat)
    requires d > 0
    ensures m < d
  {
    n % d
  }

  /** Nothing wraps around. */
  lemma DrawInRange(r: Range, random: nat)
    requires ValidRange(r)
    ensures r.lo <= Draw(r, random) == r.lo + Remainder(random, r.hi - r.lo + 1) <= r.hi
  {
  }

  function Candidate(r: Range, random: nat): (spi: Spi)
    requires ValidRange(r)
    ensures r.lo <= U32(spi) == Draw(r, random) <= r.hi
  {
    DrawInRange(r, random);
    FromU32(Draw(r, random))
  }

  /** And every number in the range is drawn with some random number. */
  lemma EveryCandidate(r: Range, n: nat)
    requires ValidRange(r) && r.lo <= n <= r.hi
    ensures n - r.lo < U32_LIMIT && Draw(r, n - r.lo) == n
  {
    DrawInRange(r, n - r.lo);
    DivModUnique(0, n - r.lo, r.hi - r.lo + 1);
  }

  predicate AllIn(r: Range, candidates: seq<Spi>) {
    forall i | 0 <= i < |candidates| :: r.lo <= U32(candidates[i]) <= r.hi
  }

  function Candidates(r: Range, random: seq<nat>): (c: seq<Spi>)
    requires ValidRange(r)
    ensures |c| == |random| && AllIn(r, c) && forall i | 0 <= i < |c| :: c[i] == Candidate(r, random[i])
  {
    seq(|random|, i requires 0 <= i < |random| => Candidate(r, random[i]))
  }

  // ----- what the operations do

  predicate InboundUses(sas: seq<Sa>, spi: Spi) {
    exists i :: 0 <= i < |sas| && sas[i].id.spi == spi && sas[i].inbound
  }

  predicate Taken(s: State, spi: Spi) {
    spi in s.reserved || InboundUses(s.sas, spi)
  }

  /** The first free candidate before the generator fails. */
  function Pick(s: State, candidates: seq<Spi>): (spi: Option<Spi>)
    ensures match spi
      case None => forall i | 0 <= i < |candidates| :: Taken(s, candidates[i])
      case Some(c) => c in candidates && !Taken(s, c)
  {
    if candidates == [] then None
    else if !Taken(s, candidates[0]) then Some(candidates[0])
    else Pick(s, candidates[1..])
  }

  predicate Same(a: Sa, id: Id) {
    a.id == id
  }

  predicate Installed(sas: seq<Sa>, id: Id) {
    exists i :: 0 <= i < |sas| && Same(sas[i], id)
  }

  /** The first SA with the identity, or the end of the list. */
  function First(sas: seq<Sa>, id: Id): (k: nat)
    ensures k <= |sas| && (k < |sas| ==> Same(sas[k], id)) && forall i | 0 <= i < k :: !Same(sas[i], id)
  {
    if sas == [] || Same(sas[0], id) then 0 else 1 + First(sas[1..], id)
  }

  function RemoveAt(sas: seq<Sa>, k: nat): seq<Sa> {
    if k < |sas| then sas[..k] + sas[k + 1..] else sas
  }

  function Without(sas: seq<Sa>, id: Id): seq<Sa> {
    RemoveAt(sas, First(sas, id))
  }

  /** The SA gets new addresses; its SPI stays. */
  function Moved(sas: seq<Sa>, id: Id, src: seq<byte>, dst: seq<byte>): seq<Sa> {
    var k := First(sas, id);
    if k < |sas| then sas[k := sas[k].(id := Id(id.spi, src, dst))] else sas
  }

  /** The operations of the manager, with the candidates that are drawn from the range
      until the generator fails; an SA that expires is removed by its place. */
  datatype Step =
    | GetSpi(range: Range, candidates: seq<Spi>)
    | AddSa(sa: Sa, supported: bool, update: bool)
    | UpdateSa(id: Id, src: seq<byte>, dst: seq<byte>)
    | DelSa(id: Id)
    | Expire(place: nat)

  predicate ValidStep(step: Step) {
    step.GetSpi? ==> ValidRange(step.range) && AllIn(step.range, step.candidates)
  }

  function Returned(s: State, step: Step): Option<Spi>
    requires ValidStep(step)
  {
    if step.GetSpi? then Pick(s, step.candidates) else None
  }

  function Apply(s: State, step: Step): State
    requires ValidStep(step)
  {
    match step
    case GetSpi(_, _) =>
      (match Returned(s, step)
       case None => s
       case Some(spi) => s.(reserved := s.reserved + {spi}))
    case AddSa(sa, supported, update) =>
      if !supported then s
      else
        var t := if update then s.(reserved := s.reserved - {sa.id.spi}) else s;
        if Installed(t.sas, sa.id) then t else t.(sas := [sa] + t.sas)
    case UpdateSa(id, src, dst) => s.(sas := Moved(s.sas, id, src, dst))
    case DelSa(id) => s.(sas := Without(s.sas, id))
    case Expire(place) => s.(sas := RemoveAt(s.sas, place))
  }

  /** Adding an SA gives up the reservation of its SPI. */
  predicate GivesUp(step: Step, spi: Spi) {
    step.AddSa? && step.supported && step.update && step.sa.id.spi == spi
  }

  predicate ValidSteps(steps: seq<Step>) {
    forall i | 0 <= i < |steps| :: ValidStep(steps[i])
  }

  function Run(steps: seq<Step>): State
    requires ValidSteps(steps)
  {
    if steps == [] then State({}, []) else Apply(Run(steps[..|steps| - 1]), steps[|steps| - 1])
  }

  /** What step i of a run returns. */
  function ReturnedAt(steps: seq<Step>, i: nat): Option<Spi>
    requires ValidSteps(steps) && i < |steps|
  {
    Returned(Run(steps[..i]), steps[i])
  }

  // ----- over every run

  lemma RunMore(steps: seq<Step>, i: nat)
    requires ValidSteps(steps) && i < |steps|
    ensures Run(steps[..i + 1]) == Apply(Run(steps[..i]), steps[i])
  {
    assert steps[..i + 1][..i] == steps[..i];
  }

  /** An SPI stays reserved until its SA is installed with `update`. */
  lemma {:induction false} StaysAllocated(steps: seq<Step>, i: nat, j: nat, spi: Spi)
    requires ValidSteps(steps) && i <= j <= |steps| && spi in Run(steps[..i]).reserved
    requires forall k | i <= k < j :: !GivesUp(steps[k], spi)
    ensures spi in Run(steps[..j]).reserved
    decreases j - i
  {
    if i < j {
      RunMore(steps, i);
      StaysAllocated(steps, i + 1, j, spi);
    }
  }

  /** A returned SPI is valid, in its range, unused, and not returned again unless an SA
      with it was installed in between. */
  lemma SpiTheorem(steps: seq<Step>, i: nat, j: nat)
    requires ValidSteps(steps) && i < j < |steps|
    requires ReturnedAt(steps, i).Some? && ReturnedAt(steps, j).Some?
    ensures var spi, r := ReturnedAt(steps, j).value, steps[j].range;
      0x100 <= r.lo <= U32(spi) <= r.hi && !InboundUses(Run(steps[..j]).sas, spi)
    ensures ReturnedAt(steps, i) == ReturnedAt(steps, j) ==>
      exists k :: i < k < j && GivesUp(steps[k], ReturnedAt(steps, i).value)
  {
    var spi := ReturnedAt(steps, i).value;
    RunMore(steps, i);
    assert spi in Run(steps[..i + 1]).reserved;
    if forall k | i + 1 <= k < j :: !GivesUp(steps[k], spi) {
      StaysAllocated(steps, i + 1, j, spi);
    }
  }

  predicate Distinct(sas: seq<Sa>) {
    forall i, j | 0 <= i < j < |sas| :: !Same(sas[i], sas[j].id)
  }

  lemma RemoveDistinct(sas: seq<Sa>, k: nat)
    requires Distinct(sas)
    ensures Distinct(RemoveAt(sas, k))
  {
  }

  /** Another SA has the SPI and the addresses that this one is to get. */
  predicate Clashes(sas: seq<Sa>, id: Id, src: seq<byte>, dst: seq<byte>) {
    First(sas, id) < |sas| && exists j :: 0 <= j < |sas| && j != First(sas, id) && Same(sas[j], Id(id.spi, src, dst))
  }

  /** Moving an SA keeps identities distinct exactly if it does not clash. */
  lemma UpdateDistinct(sas: seq<Sa>, id: Id, src: seq<byte>, dst: seq<byte>)
    requires Distinct(sas)
    ensures Distinct(Moved(sas, id, src, dst)) <==> !Clashes(sas, id, src, dst)
  {
    var k, after := First(sas, id), Moved(sas, id, src, dst);
    if k < |sas| {
      assert after[k].id == Id(id.spi, src, dst);
      assert forall i | 0 <= i < |sas| && i != k :: after[i] == sas[i];
      if Clashes(sas, id, src, dst) {
        var j :| 0 <= j < |sas| && j != k && Same(sas[j], Id(id.spi, src, dst));
        assert Same(after[j], after[k].id) && Same(after[k], after[j].id);
      }
    }
  }

  /** No step of the run moves an SA onto another one. */
  ghost predicate NoClash(steps: seq<Step>)
    requires ValidSteps(steps)
  {
    forall i | 0 <= i < |steps| && steps[i].UpdateSa? ::
      !Clashes(Run(steps[..i]).sas, steps[i].id, steps[i].src, steps[i].dst)
  }

  lemma StepDistinct(s: State, step: Step)
    requires ValidStep(step) && Distinct(s.sas)
    ensures Distinct(Apply(s, step).sas) <==> (step.UpdateSa? ==> !Clashes(s.sas, step.id, step.src, step.dst))
  {
    match step
    case GetSpi(_, _) =>
    case AddSa(sa, supported, update) =>
    case UpdateSa(id, src, dst) => UpdateDistinct(s.sas, id, src, dst);
    case DelSa(id) => RemoveDistinct(s.sas, First(s.sas, id));
    case Expire(place) => RemoveDistinct(s.sas, place);
  }

  /** No two installed SAs share SPI and addresses, unless `update_sa` made them. */
  lemma {:induction false} RunDistinct(steps: seq<Step>)
    requires ValidSteps(steps) && NoClash(steps)
    ensures Distinct(Run(steps).sas)
  {
    if steps != [] {
      var n := |steps| - 1;
      var before := steps[..n];
      forall i | 0 <= i < n && before[i].UpdateSa?
        ensures !Clashes(Run(before[..i]).sas, before[i].id, before[i].src, before[i].dst)
      {
        assert before[..i] == steps[..i] && before[i] == steps[i];
      }
      RunDistinct(before);
      StepDistinct(Run(before), steps[n]);
    }
  }

  /** Two SAs with one SPI, the second of which is moved to the addresses of the first. */
  lemma UpdateMakesTwins(spi: Spi, src: seq<byte>, dst: seq<byte>, other: seq<byte>)
    requires other != src
    ensures var one, two := Id(spi, src, dst), Id(spi, other, dst);
      var steps := [AddSa(Sa(one, true), true, true), AddSa(Sa(two, true), true, true), UpdateSa(two, src, dst)];
      ValidSteps(steps) && Run(steps).sas == [Sa(one, true), Sa(one, true)]
  {
    var one, two := Id(spi, src, dst), Id(spi, other, dst);
    var a, b, c := AddSa(Sa(one, true), true, true), AddSa(Sa(two, true), true, true), UpdateSa(two, src, dst);
    assert [a, b, c][..2] == [a, b] && [a, b][..1] == [a] && [a][..0] == [];
    assert Run([a]).sas == [Sa(one, true)];
    assert Run([a, b]).sas == [Sa(two, true), Sa(one, true)];
    assert First(Run([a, b]).sas, two) == 0;
  }

  /** As long as identities are distinct, deleting an SA deletes it for good. */
  lemma DeletedForGood(sas: seq<Sa>, id: Id)
    requires Distinct(sas)
    ensures !Installed(Without(sas, id), id)
  {
    var k, after := First(sas, id), Without(sas, id);
    forall i | 0 <= i < |after| ensures !Same(after[i], id) {
      if k < |sas| && i >= k {
        assert after[i] == sas[i + 1] && !Same(sas[k], sas[i + 1].id);
      }
    }
  }

  predicate Disjoint(s: State) {
    forall i | 0 <= i < |s.sas| :: s.sas[i].inbound ==> s.sas[i].id.spi !in s.reserved
  }

  /** As long as inbound SAs are installed with `update`, no SPI is both reserved and
      in use. */
  lemma {:induction false} RunDisjoint(steps: seq<Step>)
    requires ValidSteps(steps)
    requires forall i | 0 <= i < |steps| :: steps[i].AddSa? && steps[i].sa.inbound ==> steps[i].update
    ensures Disjoint(Run(steps))
  {
    if steps != [] {
      var n := |steps| - 1;
      var s, step := Run(steps[..n]), steps[n];
      RunDisjoint(steps[..n]);
      if step.GetSpi? {
        var spi := Returned(s, step);
        assert spi.Some? ==> !InboundUses(s.sas, spi.value);
      } else if step.UpdateSa? {
        MovedDisjoint(s, step.id, step.src, step.dst);
      }
    }
  }

  lemma MovedDisjoint(s: State, id: Id, src: seq<byte>, dst: seq<byte>)
    requires Disjoint(s)
    ensures Disjoint(s.(sas := Moved(s.sas, id, src, dst)))
  {
    var after := Moved(s.sas, id, src, dst);
    assert forall i | 0 <= i < |after| :: after[i].id.spi == s.sas[i].id.spi && after[i].inbound == s.sas[i].inbound;
  }

  function Drawing(min: nat, max: nat, random: seq<nat>): (step: Step)
    requires min < U32_LIMIT && max < U32_LIMIT
    ensures ValidStep(step)
  {
    GetSpi(Clamp(min, max), Candidates(Clamp(min, max), random))
  }

  // ----- the manager object

  /** The first SA with this SPI, source and destination. */
  predicate IsFirst(sas: seq<Sa>, id: Id, k: int) {
    0 <= k < |sas| && sas[k].id == id && forall i | 0 <= i < k :: sas[i].id != id
  }

  class SaManager {
    var allocatedSpis: set<Spi>
    var sas: seq<Sa>
    ghost var history: seq<Step>

    ghost predicate Valid()
      reads this
    {
      ValidSteps(history) && State(allocatedSpis, sas) == Run(history)
    }

    constructor ()
      ensures Valid() && history == []
    {
      allocatedSpis, sas, history := {}, [], [];
    }

    method FindInbound(spi: Spi) returns (found: bool)
      ensures found == InboundUses(sas, spi)
    {
      for i := 0 to |sas|
        invariant forall j | 0 <= j < i :: !(sas[j].id.spi == spi && sas[j].inbound)
      {
        if sas[i].id.spi == spi && sas[i].inbound {
          return true;
        }
      }
      return false;
    }

    method Find(id: Id) returns (k: nat)
      ensures k <= |sas| && (k < |sas| ==> Same(sas[k], id))
      ensures forall i | 0 <= i < k :: !Same(sas[i], id)
    {
      k := 0;
      while k < |sas| && !Same(sas[k], id)
        invariant k <= |sas| && forall i | 0 <= i < k :: !Same(sas[i], id)
      {
        k := k + 1;
      }
    }

    method AllocateSpi(spi: Spi) returns (ok: bool)
      modifies this`allocatedSpis
      ensures ok <==> spi !in old(allocatedSpis) && forall i | 0 <= i < |sas| :: sas[i].id.spi != spi || !sas[i].inbound
      ensures allocatedSpis == if ok then old(allocatedSpis) + {spi} else old(allocatedSpis)
    {
      var used := FindInbound(spi);
      if spi in allocatedSpis || used {
        return false;
      }
      allocatedSpis := allocatedSpis + {spi};
      return true;
    }

    /** Draws until an SPI is free; fails when the generator does. */
    method GetSpi(min: nat, max: nat, random: seq<nat>) returns (spi: Option<Spi>)
      requires Valid() && min < U32_LIMIT && max < U32_LIMIT
      modifies this
      ensures Valid() && history == old(history) + [Drawing(min, max, random)]
      ensures spi == ReturnedAt(history, |history| - 1)
      ensures sas == old(sas)
      ensures spi == None ==> allocatedSpis == old(allocatedSpis)
      ensures spi.Some? ==>
        && spi.value !in old(allocatedSpis) && allocatedSpis == old(allocatedSpis) + {spi.value}
        && forall i | 0 <= i < |sas| :: sas[i].id.spi != spi.value || !sas[i].inbound
    {
      var r := Clamp(min, max);
      ghost var s, candidates := State(allocatedSpis, sas), Candidates(r, random);
      Extend(history, Drawing(min, max, random));
      history := history + [Drawing(min, max, random)];
      for i := 0 to |random|
        invariant State(allocatedSpis, sas) == s && history == old(history) + [Drawing(min, max, random)]
        invariant Pick(s, candidates) == Pick(s, candidates[i..])
      {
        var candidate := Candidate(r, random[i]);
        var ok := AllocateSpi(candidate);
        assert candidates[i..][0] == candidate && candidates[i..][1..] == candidates[i + 1..];
        if ok {
          return Some(candidate);
        }
      }
      return None;
    }

    method AddSa(sa: Sa, supported: bool, update: bool) returns (ok: bool)
      requires Valid()
      modifies this
      ensures Valid() && history == old(history) + [Step.AddSa(sa, supported, update)]
      ensures ok <==> supported && forall i | 0 <= i < |old(sas)| :: old(sas)[i].id != sa.id
      ensures sas == if ok then [sa] + old(sas) else old(sas)
      ensures allocatedSpis == old(allocatedSpis) - if supported && update then {sa.id.spi} else {}
    {
      Extend(history, Step.AddSa(sa, supported, update));
      history := history + [Step.AddSa(sa, supported, update)];
      if !supported {
        return false;
      }
      if update {
        allocatedSpis := allocatedSpis - {sa.id.spi};
      }
      var k := Find(sa.id);
      if k < |sas| {
        return false;
      }
      sas := [sa] + sas;
      return true;
    }

    /** Gives the first SA with the identity new addresses. */
    method UpdateSa(id: Id, src: seq<byte>, dst: seq<byte>) returns (ok: bool)
      requires Valid()
      modifies this
      ensures Valid() && history == old(history) + [Step.UpdateSa(id, src, dst)]
      ensures allocatedSpis == old(allocatedSpis)
      ensures !ok ==> sas == old(sas) && forall i | 0 <= i < |sas| :: sas[i].id != id
      ensures ok ==> exists k :: (IsFirst(old(sas), id, k)
        && sas == old(sas)[k := Sa(Id(id.spi, src, dst), old(sas)[k].inbound)])
    {
      Extend(history, Step.UpdateSa(id, src, dst));
      history := history + [Step.UpdateSa(id, src, dst)];
      var k := Find(id);
      assert k == First(sas, id);
      if k == |sas| {
        return false;
      }
      sas := sas[k := sas[k].(id := Id(id.spi, src, dst))];
      return true;
    }

    method DelSa(id: Id) returns (ok: bool)
      requires Valid()
      modifies this
      ensures Valid() && history == old(history) + [Step.DelSa(id)]
      ensures allocatedSpis == old(allocatedSpis)
      ensures !ok ==> sas == old(sas) && forall i | 0 <= i < |sas| :: sas[i].id != id
      ensures ok ==> exists k :: IsFirst(old(sas), id, k) && sas == old(sas)[..k] + old(sas)[k + 1..]
    {
      Extend(history, Step.DelSa(id));
      history := history + [Step.DelSa(id)];
      var k := Find(id);
      assert k == First(sas, id);
      if k == |sas| {
        return false;
      }
      sas := sas[..k] + sas[k + 1..];
      return true;
    }
  }

  lemma Extend(steps: seq<Step>, step: Step)
    requires ValidSteps(steps) && ValidStep(step)
    ensures ValidSteps(steps + [step]) && Run(steps + [step]) == Apply(Run(steps), step)
    ensures ReturnedAt(steps + [step], |steps|) == Returned(Run(steps), step)
  {
    var more := steps + [step];
    assert forall i | 0 <= i < |more| :: more[i] == if i < |steps| then steps[i] else step;
    assert more[..|steps|] == steps;
    RunMore(more, |steps|);
    assert more[..|steps| + 1] == more;
  }
}
