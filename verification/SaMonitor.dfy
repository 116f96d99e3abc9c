/** The SA manager as a monitor: threads check SAs out and in, visit them
    (update, query) and remove them (delete, hard expiry, flush) under one mutex
    and one condition variable per entry.

    A step is one section executed with the mutex held; a condvar wait ends a
    section.  `woken` holds the threads that were signalled, broadcast to, or woken
    spuriously, and have not yet re-acquired the mutex. */
module SaMonitor {
  import opened Bytes

  type Tid = nat
  type Eid = nat

  datatype Entry = Entry(locked: bool, waitingThreads: nat, awaitsDeletion: bool)

  /** What a thread in `wait_for_entry` wants: keep the entry, or release it again
      before it unlocks the mutex. */
  datatype Use = Checkout | Visit

  /** A removal concerns one entry, or is part of a flush that began when `bound`
      entries had been created so far. */
  datatype Scope = One | Flush(bound: nat)

  datatype Pc =
    | Idle
    | Holding(e: Eid)
    | Waiting(e: Eid, use: Use)
    | Removing(e: Eid, draining: bool, scope: Scope)
    | Scanning(at: nat, bound: nat)
    | Destroying(e: Eid)

  /** Entries are numbered in the order of their creation. */
  datatype State = State(
    entries: map<Eid, Entry>,
    sas: seq<Eid>,
    pcs: map<Tid, Pc>,
    woken: set<Tid>,
    mutex: Option<Tid>,
    nextId: nat)

  datatype Step =
    | Add(t: Tid)
    | Acquire(t: Tid, e: Eid, use: Use, signalled: Option<Tid>)
    | Checkin(t: Tid, signalled: Option<Tid>)
    | Remove(t: Tid, e: Eid)
    | StartFlush(t: Tid)
    | Scan(t: Tid)
    | Resume(t: Tid, signalled: Option<Tid>)
    | Spurious(t: Tid)
    | Destroy(t: Tid)

  // ----- waiting and waking

  predicate OnCondvar(pc: Pc, e: Eid) {
    (pc.Waiting? || pc.Removing?) && pc.e == e
  }

  predicate Blocked(s: State, t: Tid, e: Eid) {
    t in s.pcs && OnCondvar(s.pcs[t], e) && t !in s.woken
  }

  predicate Woken(s: State, t: Tid, e: Eid) {
    t in s.pcs && OnCondvar(s.pcs[t], e) && t in s.woken
  }

  /** A signal wakes one blocked thread if there is one. */
  predicate SignalChoice(s: State, e: Eid, signalled: Option<Tid>) {
    match signalled
    case Some(u) => Blocked(s, u, e)
    case None => forall u | u in s.pcs :: !Blocked(s, u, e)
  }

  function Chosen(signalled: Option<Tid>): set<Tid> {
    match signalled
    case Some(u) => {u}
    case None => {}
  }

  // ----- the sections

  /** The loop head of `wait_for_entry`, reached by thread t, and what the callers
      do in the same section once it returns. */
  function TryAcquire(s: State, t: Tid, e: Eid, use: Use, signalled: Option<Tid>): State
    requires e in s.entries
  {
    var entry := s.entries[e];
    if entry.locked && !entry.awaitsDeletion then
      s.(entries := s.entries[e := entry.(waitingThreads := entry.waitingThreads + 1)],
         pcs := s.pcs[t := Waiting(e, use)])
    else if entry.awaitsDeletion then
      s.(pcs := s.pcs[t := Idle], woken := s.woken + Chosen(signalled))
    else match use
      case Checkout => s.(entries := s.entries[e := entry.(locked := true)], pcs := s.pcs[t := Holding(e)])
      case Visit => s.(pcs := s.pcs[t := Idle], woken := s.woken + Chosen(signalled))
  }

  function IndexOf(l: seq<Eid>, e: Eid): (i: nat)
    requires e in l
    ensures i < |l| && l[i] == e && e !in l[..i]
  {
    if l[0] == e then 0 else 1 + IndexOf(l[1..], e)
  }

  function Without(l: seq<Eid>, e: Eid): seq<Eid>
    requires e in l
  {
    var i := IndexOf(l, e);
    l[..i] + l[i + 1..]
  }

  /** The loop heads of `wait_remove_entry`: wait for the holder, then drain the
      waiters, then unlink the entry.  A flush frees it and goes on from its place
      in the list without releasing the mutex. */
  function TryRemove(s: State, t: Tid, e: Eid, draining: bool, scope: Scope): State
    requires e in s.entries && e in s.sas
  {
    var entry := s.entries[e];
    if !draining && entry.locked then
      s.(pcs := s.pcs[t := Removing(e, false, scope)])
    else if entry.waitingThreads > 0 then
      s.(pcs := s.pcs[t := Removing(e, true, scope)],
         woken := s.woken + (set u | u in s.pcs && u != t && OnCondvar(s.pcs[u], e)))
    else match scope
      case One => s.(sas := Without(s.sas, e), pcs := s.pcs[t := Destroying(e)])
      case Flush(bound) =>
        s.(sas := Without(s.sas, e), entries := s.entries - {e},
           pcs := s.pcs[t := Scanning(IndexOf(s.sas, e), bound)], mutex := Some(t))
  }

  /** `wait_remove_entry` on an entry that nobody is removing yet. */
  function BeginRemove(s: State, t: Tid, e: Eid, scope: Scope): State
    requires e in s.entries && e in s.sas
  {
    TryRemove(s.(entries := s.entries[e := s.entries[e].(awaitsDeletion := true)],
                 pcs := s.pcs[t := Removing(e, false, scope)], mutex := None),
              t, e, false, scope)
  }

  predicate Enabled(s: State, step: Step) {
    && step.t in s.pcs
    && (if step.Scan? then s.pcs[step.t].Scanning? && s.mutex == Some(step.t)
        else s.mutex == None || step.Spurious? || step.Destroy?)
    && match step
       case Add(t) => s.pcs[t].Idle?
       case Acquire(t, e, _, signalled) =>
         s.pcs[t].Idle? && e in s.sas && e in s.entries && SignalChoice(s, e, signalled)
       case Checkin(t, signalled) =>
         s.pcs[t].Holding? && s.pcs[t].e in s.entries && SignalChoice(s, s.pcs[t].e, signalled)
       case Remove(t, e) => s.pcs[t].Idle? && e in s.sas && e in s.entries
       case StartFlush(t) => s.pcs[t].Idle?
       case Scan(t) => s.pcs[t].at < |s.sas| ==> s.sas[s.pcs[t].at] in s.entries
       case Resume(t, signalled) =>
         && t in s.woken && (s.pcs[t].Waiting? || s.pcs[t].Removing?)
         && s.pcs[t].e in s.entries && s.pcs[t].e in s.sas
         && (s.pcs[t].Waiting? ==> s.entries[s.pcs[t].e].waitingThreads > 0)
         && SignalChoice(s, s.pcs[t].e, signalled)
       case Spurious(t) => s.pcs[t].Waiting? || s.pcs[t].Removing?
       case Destroy(t) => s.pcs[t].Destroying?
  }

  function Apply(s: State, step: Step): State
    requires Enabled(s, step)
  {
    match step
    case Add(t) =>
      s.(entries := s.entries[s.nextId := Entry(false, 0, false)],
         sas := [s.nextId] + s.sas, nextId := s.nextId + 1)
    case Acquire(t, e, use, signalled) => TryAcquire(s, t, e, use, signalled)
    case Checkin(t, signalled) =>
      var e := s.pcs[t].e;
      if e in s.sas && s.entries[e].locked then
        s.(entries := s.entries[e := s.entries[e].(locked := false)],
           pcs := s.pcs[t := Idle], woken := s.woken + Chosen(signalled))
      else
        s.(pcs := s.pcs[t := Idle])
    case Remove(t, e) =>
      if s.entries[e].awaitsDeletion then s else BeginRemove(s, t, e, One)
    case StartFlush(t) =>
      s.(pcs := s.pcs[t := Scanning(0, s.nextId)], mutex := Some(t))
    case Scan(t) =>
      var at, bound := s.pcs[t].at, s.pcs[t].bound;
      if at >= |s.sas| then
        s.(pcs := s.pcs[t := Idle], mutex := None)
      else if s.entries[s.sas[at]].awaitsDeletion then
        s.(pcs := s.pcs[t := Scanning(at + 1, bound)])
      else
        BeginRemove(s, t, s.sas[at], Flush(bound))
    case Resume(t, signalled) =>
      if s.pcs[t].Waiting? then TryAcquire(LeaveWait(s, t), t, s.pcs[t].e, s.pcs[t].use, signalled)
      else TryRemove(s.(woken := s.woken - {t}), t, s.pcs[t].e, s.pcs[t].draining, s.pcs[t].scope)
    case Spurious(t) => s.(woken := s.woken + {t})
    case Destroy(t) => s.(entries := s.entries - {s.pcs[t].e}, pcs := s.pcs[t := Idle])
  }

  /** A woken waiter takes itself off the count before it looks at the entry. */
  function LeaveWait(s: State, t: Tid): State
    requires t in s.pcs && s.pcs[t].Waiting? && s.pcs[t].e in s.entries
    requires s.entries[s.pcs[t].e].waitingThreads > 0
  {
    var e := s.pcs[t].e;
    var entry := s.entries[e];
    s.(entries := s.entries[e := entry.(waitingThreads := entry.waitingThreads - 1)],
       pcs := s.pcs[t := Idle], woken := s.woken - {t})
  }

  // ----- invariants

  ghost function Waiters(s: State, e: Eid): set<Tid> {
    set t | t in s.pcs && s.pcs[t].Waiting? && s.pcs[t].e == e
  }

  predicate Removes(pc: Pc, e: Eid) {
    (pc.Removing? || pc.Destroying?) && pc.e == e
  }

  predicate Uses(pc: Pc, e: Eid) {
    (pc.Holding? || pc.Waiting? || pc.Removing?) && pc.e == e
  }

  /** The list has no duplicates and holds only live entries. */
  ghost predicate ListOk(s: State) {
    && (forall i, j :: 0 <= i < j < |s.sas| ==> s.sas[i] != s.sas[j])
    && (forall e | e in s.sas :: e in s.entries)
    && (forall e | e in s.entries :: e < s.nextId)
  }

  /** Every thread refers to entries that exist; only the destroyer of an entry
      refers to one that has left the list. */
  ghost predicate RefsOk(s: State) {
    && (forall t, e | t in s.pcs && Uses(s.pcs[t], e) :: e in s.sas)
    && (forall t | t in s.pcs && s.pcs[t].Destroying? :: s.pcs[t].e in s.entries && s.pcs[t].e !in s.sas)
    && (forall e | e in s.entries && e !in s.sas :: exists t :: t in s.pcs && s.pcs[t] == Destroying(e))
    && SchedulingOk(s)
  }

  /** Only threads on a condvar are woken; only a scanning flush keeps the mutex. */
  ghost predicate SchedulingOk(s: State) {
    && (forall t | t in s.woken :: t in s.pcs && (s.pcs[t].Waiting? || s.pcs[t].Removing?))
    && (forall t | t in s.pcs :: s.pcs[t].Scanning? <==> s.mutex == Some(t))
  }

  /** An entry is locked exactly when one thread holds it. */
  ghost predicate LockOk(s: State) {
    && (forall t | t in s.pcs && s.pcs[t].Holding? ::
          s.pcs[t].e in s.entries && s.entries[s.pcs[t].e].locked)
    && (forall e | e in s.entries && s.entries[e].locked :: exists t :: t in s.pcs && s.pcs[t] == Holding(e))
    && (forall t, u | t in s.pcs && u in s.pcs && s.pcs[t].Holding? && s.pcs[u].Holding? :: 
          s.pcs[t].e == s.pcs[u].e ==> t == u)
  }

  /** The counter is the number of threads inside the wait of `wait_for_entry`. */
  ghost predicate CountOk(s: State) {
    forall e | e in s.entries :: s.entries[e].waitingThreads == |Waiters(s, e)|
  }

  /** An entry awaits deletion exactly when one thread removes it, and a remover
      drains waiters only once the entry is free. */
  ghost predicate RemovalOk(s: State) {
    && (forall t, e | t in s.pcs && Removes(s.pcs[t], e) :: e in s.entries && s.entries[e].awaitsDeletion)
    && (forall e | e in s.entries && s.entries[e].awaitsDeletion :: exists t :: t in s.pcs && Removes(s.pcs[t], e))
    && (forall t, u, e | t in s.pcs && u in s.pcs && Removes(s.pcs[t], e) && Removes(s.pcs[u], e) :: t == u)
    && (forall t | t in s.pcs && s.pcs[t].Removing? && s.pcs[t].draining ::
          s.pcs[t].e in s.entries && !s.entries[s.pcs[t].e].locked)
  }

  ghost predicate Safe(s: State) {
    ListOk(s) && RefsOk(s) && LockOk(s) && CountOk(s) && RemovalOk(s)
  }

  /** Whoever is blocked on an entry will be woken: somebody holds the entry, or a
      thread on its condvar is already awake. */
  ghost predicate NoLostWakeup(s: State, e: Eid) {
    e in s.entries && (exists t :: Blocked(s, t, e)) ==>
      s.entries[e].locked || exists u :: Woken(s, u, e)
  }

  ghost predicate Inv(s: State) {
    Safe(s) && forall e :: NoLostWakeup(s, e)
  }

  ghost predicate Init(s: State) {
    && s.entries == map[] && s.sas == [] && s.woken == {} && s.mutex == None && s.nextId == 0
    && forall t | t in s.pcs :: s.pcs[t] == Idle
  }

  // ----- every section keeps the invariants

  /** Entry e follows a thread that goes from program counter `was` to `pc`. */
  predicate Follows(e: Eid, entry: Entry, entry': Entry, was: Pc, pc: Pc) {
    && (entry'.locked <==> pc == Holding(e) || (entry.locked && was != Holding(e)))
    && entry'.waitingThreads - entry.waitingThreads
       == (if pc.Waiting? && pc.e == e then 1 else 0) - (if was.Waiting? && was.e == e then 1 else 0)
    && (entry'.awaitsDeletion <==> Removes(pc, e) || (entry.awaitsDeletion && !Removes(was, e)))
    && (pc == Holding(e) ==> !entry.locked && !entry.awaitsDeletion)
    && (Removes(pc, e) ==> Removes(was, e) || !entry.awaitsDeletion)
    && (pc.Removing? && pc.e == e && pc.draining ==> !entry'.locked)
  }

  /** Thread t goes to pc and the entries follow it. */
  ghost predicate Moves(s: State, s': State, t: Tid, pc: Pc) {
    && t in s.pcs && s'.pcs == s.pcs[t := pc]
    && s'.entries.Keys == s.entries.Keys
    && forall e | e in s.entries :: Follows(e, s.entries[e], s'.entries[e], s.pcs[t], pc)
  }

  predicate WaitsFor(pc: Pc, e: Eid) {
    pc.Waiting? && pc.e == e
  }

  lemma WaitersAfter(s: State, s': State, t: Tid, pc: Pc, e: Eid)
    requires t in s.pcs && s'.pcs == s.pcs[t := pc]
    ensures |Waiters(s', e)| - |Waiters(s, e)|
      == (if WaitsFor(pc, e) then 1 else 0) - (if WaitsFor(s.pcs[t], e) then 1 else 0)
  {
    var others := Waiters(s, e) - {t};
    assert Waiters(s, e) == if WaitsFor(s.pcs[t], e) then others + {t} else others;
    assert Waiters(s', e) == if WaitsFor(pc, e) then others + {t} else others;
  }

  lemma CountAfter(s: State, s': State, t: Tid, pc: Pc)
    requires Moves(s, s', t, pc) && CountOk(s)
    ensures CountOk(s')
  {
    forall e | e in s'.entries
      ensures s'.entries[e].waitingThreads == |Waiters(s', e)|
    {
      WaitersAfter(s, s', t, pc, e);
      assert Follows(e, s.entries[e], s'.entries[e], s.pcs[t], pc);
    }
  }

  lemma LockAfter(s: State, s': State, t: Tid, pc: Pc)
    requires Moves(s, s', t, pc) && LockOk(s)
    requires pc.Holding? ==> pc.e in s.entries
    ensures LockOk(s')
  {
    forall e | e in s'.entries && s'.entries[e].locked
      ensures exists u :: u in s'.pcs && s'.pcs[u] == Holding(e)
    {
      if pc == Holding(e) {
        assert s'.pcs[t] == Holding(e);
      } else {
        var u :| u in s.pcs && s.pcs[u] == Holding(e);
        assert s'.pcs[u] == Holding(e);
      }
    }
  }

  lemma CondemnedAfter(s: State, s': State, t: Tid, pc: Pc, e: Eid)
    requires Moves(s, s', t, pc) && RemovalOk(s) && e in s.entries && s'.entries[e].awaitsDeletion
    ensures exists u :: u in s'.pcs && Removes(s'.pcs[u], e)
  {
    assert Follows(e, s.entries[e], s'.entries[e], s.pcs[t], pc);
    if Removes(pc, e) {
      assert Removes(s'.pcs[t], e);
    } else {
      var u :| u in s.pcs && Removes(s.pcs[u], e);
      assert Removes(s'.pcs[u], e);
    }
  }

  lemma DrainingAfter(s: State, s': State, t: Tid, pc: Pc, u: Tid)
    requires Moves(s, s', t, pc) && RemovalOk(s) && (forall e | Removes(pc, e) :: e in s.entries)
    requires u in s'.pcs && s'.pcs[u].Removing? && s'.pcs[u].draining
    ensures s'.pcs[u].e in s'.entries && !s'.entries[s'.pcs[u].e].locked
  {
    var e := s'.pcs[u].e;
    assert Removes(s'.pcs[u], e);
    if u != t {
      assert Removes(s.pcs[u], e);
    }
    assert Follows(e, s.entries[e], s'.entries[e], s.pcs[t], pc);
  }

  lemma RemovalAfter(s: State, s': State, t: Tid, pc: Pc)
    requires Moves(s, s', t, pc) && RemovalOk(s)
    requires forall e | Removes(pc, e) :: e in s.entries
    ensures RemovalOk(s')
  {
    forall e | e in s'.entries && s'.entries[e].awaitsDeletion
      ensures exists u :: u in s'.pcs && Removes(s'.pcs[u], e)
    {
      CondemnedAfter(s, s', t, pc, e);
    }
    forall u | u in s'.pcs && s'.pcs[u].Removing? && s'.pcs[u].draining
      ensures s'.pcs[u].e in s'.entries && !s'.entries[s'.pcs[u].e].locked
    {
      DrainingAfter(s, s', t, pc, u);
    }
    forall u, e | u in s'.pcs && Removes(s'.pcs[u], e)
      ensures e in s'.entries && s'.entries[e].awaitsDeletion
    {
      RemoverAfter(s, s', t, pc, u, e);
    }
    forall u, w, e | u in s'.pcs && w in s'.pcs && Removes(s'.pcs[u], e) && Removes(s'.pcs[w], e)
      ensures u == w
    {
      RemoverAfter(s, s', t, pc, u, e);
      RemoverAfter(s, s', t, pc, w, e);
    }
  }

  lemma RemoverAfter(s: State, s': State, t: Tid, pc: Pc, u: Tid, e: Eid)
    requires Moves(s, s', t, pc) && RemovalOk(s) && (forall f | Removes(pc, f) :: f in s.entries)
    requires u in s'.pcs && Removes(s'.pcs[u], e)
    ensures e in s'.entries && s'.entries[e].awaitsDeletion && (u != t ==> !Removes(pc, e))
  {
    if u != t {
      assert Removes(s.pcs[u], e);
    }
    assert Follows(e, s.entries[e], s'.entries[e], s.pcs[t], pc);
  }

  lemma RefsAfter(s: State, s': State, t: Tid, pc: Pc)
    requires Moves(s, s', t, pc) && s'.sas == s.sas && RefsOk(s)
    requires !s.pcs[t].Destroying? && !pc.Destroying?
    requires forall e | Uses(pc, e) :: e in s.sas
    requires SchedulingOk(s')
    ensures RefsOk(s')
  {
    forall e | e in s'.entries && e !in s'.sas
      ensures exists u :: u in s'.pcs && s'.pcs[u] == Destroying(e)
    {
      var u :| u in s.pcs && s.pcs[u] == Destroying(e);
      assert s'.pcs[u] == Destroying(e);
    }
  }

  lemma MoveSafe(s: State, s': State, t: Tid, pc: Pc)
    requires Safe(s) && Moves(s, s', t, pc) && SchedulingOk(s')
    requires s'.sas == s.sas && s'.nextId == s.nextId
    requires !s.pcs[t].Destroying? && !pc.Destroying?
    requires forall e | Uses(pc, e) :: e in s.sas
    ensures Safe(s')
  {
    assert pc.Holding? ==> Uses(pc, pc.e);
    assert forall e | Removes(pc, e) :: Uses(pc, e);
    CountAfter(s, s', t, pc);
    LockAfter(s, s', t, pc);
    RemovalAfter(s, s', t, pc);
    RefsAfter(s, s', t, pc);
  }

  lemma TryAcquireMoves(s: State, t: Tid, e: Eid, use: Use, signalled: Option<Tid>)
    requires SchedulingOk(s) && t in s.pcs && s.pcs[t].Idle? && e in s.entries
    requires SignalChoice(s, e, signalled)
    ensures var s' := TryAcquire(s, t, e, use, signalled);
      Moves(s, s', t, s'.pcs[t]) && SchedulingOk(s')
  {
  }

  lemma TryAcquireSafe(s: State, t: Tid, e: Eid, use: Use, signalled: Option<Tid>)
    requires Safe(s) && t in s.pcs && s.pcs[t].Idle? && e in s.sas && e in s.entries
    requires SignalChoice(s, e, signalled)
    ensures Safe(TryAcquire(s, t, e, use, signalled))
  {
    var s' := TryAcquire(s, t, e, use, signalled);
    TryAcquireMoves(s, t, e, use, signalled);
    MoveSafe(s, s', t, s'.pcs[t]);
  }

  lemma LeaveWaitSafe(s: State, t: Tid)
    requires Safe(s) && t in s.pcs && s.pcs[t].Waiting? && s.pcs[t].e in s.entries
    requires s.entries[s.pcs[t].e].waitingThreads > 0
    ensures Safe(LeaveWait(s, t))
  {
    LeaveWaitMoves(s, t);
    assert forall e :: !Uses(Idle, e);
    MoveSafe(s, LeaveWait(s, t), t, Idle);
  }

  lemma LeaveWaitMoves(s: State, t: Tid)
    requires SchedulingOk(s) && t in s.pcs && s.pcs[t].Waiting? && s.pcs[t].e in s.entries
    requires s.entries[s.pcs[t].e].waitingThreads > 0
    ensures Moves(s, LeaveWait(s, t), t, Idle) && SchedulingOk(LeaveWait(s, t))
  {
  }

  /** Setting `awaits_deletion` makes t the remover. */
  function Condemn(s: State, t: Tid, e: Eid, scope: Scope): State
    requires e in s.entries
  {
    s.(entries := s.entries[e := s.entries[e].(awaitsDeletion := true)],
       pcs := s.pcs[t := Removing(e, false, scope)], mutex := None)
  }

  lemma CondemnSafe(s: State, t: Tid, e: Eid, scope: Scope)
    requires Safe(s) && t in s.pcs && e in s.sas && e in s.entries && !s.entries[e].awaitsDeletion
    requires (s.pcs[t].Idle? && s.mutex == None) || s.pcs[t].Scanning?
    ensures Safe(Condemn(s, t, e, scope))
  {
    CondemnMoves(s, t, e, scope);
    MoveSafe(s, Condemn(s, t, e, scope), t, Removing(e, false, scope));
  }

  lemma CondemnMoves(s: State, t: Tid, e: Eid, scope: Scope)
    requires SchedulingOk(s) && t in s.pcs && e in s.entries && !s.entries[e].awaitsDeletion
    requires (s.pcs[t].Idle? && s.mutex == None) || s.pcs[t].Scanning?
    ensures var s' := Condemn(s, t, e, scope); Moves(s, s', t, Removing(e, false, scope)) && SchedulingOk(s')
  {
  }

  /** Once free and drained, an entry concerns nobody but its remover. */
  lemma OnlyRemover(s: State, t: Tid, e: Eid)
    requires Safe(s) && t in s.pcs && s.pcs[t].Removing? && s.pcs[t].e == e && e in s.entries
    requires !s.entries[e].locked && s.entries[e].waitingThreads == 0
    ensures forall u | u in s.pcs && u != t :: !Uses(s.pcs[u], e) && !Removes(s.pcs[u], e)
  {
    assert Waiters(s, e) == {};
    forall u | u in s.pcs && u != t
      ensures !Uses(s.pcs[u], e) && !Removes(s.pcs[u], e)
    {
      assert u !in Waiters(s, e);
      assert Removes(s.pcs[t], e);
    }
  }

  lemma WithoutKeepsRest(l: seq<Eid>, e: Eid)
    requires e in l && forall i, j :: 0 <= i < j < |l| ==> l[i] != l[j]
    ensures var l' := Without(l, e);
      && (forall i, j :: 0 <= i < j < |l'| ==> l'[i] != l'[j])
      && forall f :: f in l' <==> f in l && f != e
  {
    var i := IndexOf(l, e);
    assert l == l[..i] + [e] + l[i + 1..];
  }

  /** Unlinking e leaves it to its destroyer. */
  function Unlink(s: State, t: Tid, e: Eid): State
    requires e in s.sas
  {
    s.(sas := Without(s.sas, e), pcs := s.pcs[t := Destroying(e)])
  }

  lemma UnlinkRefs(s: State, t: Tid, e: Eid)
    requires ListOk(s) && RefsOk(s) && t in s.pcs && s.pcs[t].Removing? && t !in s.woken
    requires e in s.entries && e in s.sas
    requires forall u | u in s.pcs && u != t :: !Uses(s.pcs[u], e)
    ensures ListOk(Unlink(s, t, e)) && RefsOk(Unlink(s, t, e))
  {
    var s' := Unlink(s, t, e);
    WithoutKeepsRest(s.sas, e);
    assert s'.pcs[t] == Destroying(e);
    forall f | f in s'.entries && f !in s'.sas
      ensures exists u :: u in s'.pcs && s'.pcs[u] == Destroying(f)
    {
      if f != e {
        var u :| u in s.pcs && s.pcs[u] == Destroying(f);
        assert s'.pcs[u] == Destroying(f);
      }
    }
  }

  lemma UnlinkSafe(s: State, t: Tid, e: Eid)
    requires Safe(s) && t in s.pcs && s.pcs[t].Removing? && s.pcs[t].e == e && e in s.entries && e in s.sas
    requires !s.entries[e].locked && s.entries[e].waitingThreads == 0 && t !in s.woken
    ensures Safe(Unlink(s, t, e))
  {
    var s', pc := Unlink(s, t, e), Destroying(e);
    OnlyRemover(s, t, e);
    UnlinkRefs(s, t, e);
    assert Moves(s, s', t, pc) by { assert Removes(s.pcs[t], e); }
    CountAfter(s, s', t, pc);
    LockAfter(s, s', t, pc);
    RemovalAfter(s, s', t, pc);
  }

  /** The destroyer frees the entry and goes on. */
  function Free(s: State, t: Tid, pc: Pc, mutex: Option<Tid>): State
    requires t in s.pcs && s.pcs[t].Destroying?
  {
    s.(entries := s.entries - {s.pcs[t].e}, pcs := s.pcs[t := pc], mutex := mutex)
  }

  lemma FreeRefs(s: State, t: Tid, pc: Pc, mutex: Option<Tid>)
    requires ListOk(s) && RefsOk(s) && t in s.pcs && s.pcs[t].Destroying?
    requires forall u | u in s.pcs && u != t :: s.pcs[u] != s.pcs[t]
    requires (pc.Idle? && mutex == s.mutex) || (pc.Scanning? && s.mutex == None && mutex == Some(t))
    ensures ListOk(Free(s, t, pc, mutex)) && RefsOk(Free(s, t, pc, mutex))
  {
    var s' := Free(s, t, pc, mutex);
    forall f | f in s'.entries && f !in s'.sas
      ensures exists u :: u in s'.pcs && s'.pcs[u] == Destroying(f)
    {
      var u :| u in s.pcs && s.pcs[u] == Destroying(f);
      assert s'.pcs[u] == Destroying(f);
    }
  }

  lemma FreeLocks(s: State, t: Tid, pc: Pc, mutex: Option<Tid>)
    requires LockOk(s) && CountOk(s) && t in s.pcs && s.pcs[t].Destroying? && (pc.Idle? || pc.Scanning?)
    requires forall u | u in s.pcs && s.pcs[u].Holding? :: s.pcs[u].e != s.pcs[t].e
    ensures LockOk(Free(s, t, pc, mutex)) && CountOk(Free(s, t, pc, mutex))
  {
    var s' := Free(s, t, pc, mutex);
    forall f | f in s'.entries && s'.entries[f].locked
      ensures exists u :: u in s'.pcs && s'.pcs[u] == Holding(f)
    {
      var u :| u in s.pcs && s.pcs[u] == Holding(f);
      assert s'.pcs[u] == Holding(f);
    }
    assert forall f :: Waiters(s', f) == Waiters(s, f);
  }

  /** Who else removed what, still does. */
  lemma FreeRemovers(s: State, t: Tid, pc: Pc, mutex: Option<Tid>)
    requires t in s.pcs && s.pcs[t].Destroying? && (pc.Idle? || pc.Scanning?)
    ensures var s' := Free(s, t, pc, mutex);
      forall u, f :: u in s'.pcs && Removes(s'.pcs[u], f) <==> u in s.pcs && u != t && Removes(s.pcs[u], f)
  {
  }

  lemma FreeCondemned(s: State, t: Tid, pc: Pc, mutex: Option<Tid>, f: Eid)
    requires RemovalOk(s) && t in s.pcs && s.pcs[t].Destroying? && (pc.Idle? || pc.Scanning?)
    requires f in s.entries && f != s.pcs[t].e && s.entries[f].awaitsDeletion
    ensures exists u :: u in Free(s, t, pc, mutex).pcs && Removes(Free(s, t, pc, mutex).pcs[u], f)
  {
    var u :| u in s.pcs && Removes(s.pcs[u], f);
    assert Removes(Free(s, t, pc, mutex).pcs[u], f);
  }

  lemma FreeOther(s: State, t: Tid, pc: Pc, mutex: Option<Tid>, u: Tid, f: Eid)
    requires RemovalOk(s) && t in s.pcs && s.pcs[t].Destroying? && u in s.pcs && u != t && Removes(s.pcs[u], f)
    ensures f in Free(s, t, pc, mutex).entries && Free(s, t, pc, mutex).entries[f] == s.entries[f]
  {
    assert Removes(s.pcs[t], s.pcs[t].e);
  }

  lemma FreeRemoval(s: State, t: Tid, pc: Pc, mutex: Option<Tid>)
    requires RemovalOk(s) && t in s.pcs && s.pcs[t].Destroying? && (pc.Idle? || pc.Scanning?)
    ensures RemovalOk(Free(s, t, pc, mutex))
  {
    var s' := Free(s, t, pc, mutex);
    FreeRemovers(s, t, pc, mutex);
    forall u, f | u in s'.pcs && Removes(s'.pcs[u], f)
      ensures f in s'.entries && s'.entries[f].awaitsDeletion
    {
      FreeOther(s, t, pc, mutex, u, f);
    }
    forall f | f in s'.entries && s'.entries[f].awaitsDeletion
      ensures exists u :: u in s'.pcs && Removes(s'.pcs[u], f)
    {
      FreeCondemned(s, t, pc, mutex, f);
    }
    forall u | u in s'.pcs && s'.pcs[u].Removing? && s'.pcs[u].draining
      ensures s'.pcs[u].e in s'.entries && !s'.entries[s'.pcs[u].e].locked
    {
      FreeOther(s, t, pc, mutex, u, s.pcs[u].e);
    }
  }

  lemma FreeSafe(s: State, t: Tid, pc: Pc, mutex: Option<Tid>)
    requires Safe(s) && t in s.pcs && s.pcs[t].Destroying?
    requires (pc.Idle? && mutex == s.mutex) || (pc.Scanning? && s.mutex == None && mutex == Some(t))
    ensures Safe(Free(s, t, pc, mutex))
  {
    assert forall u | u in s.pcs && s.pcs[u].Holding? :: Uses(s.pcs[u], s.pcs[u].e);
    assert Removes(s.pcs[t], s.pcs[t].e);
    FreeRefs(s, t, pc, mutex);
    FreeLocks(s, t, pc, mutex);
    FreeRemoval(s, t, pc, mutex);
  }

  lemma TryRemoveSafe(s: State, t: Tid, e: Eid, draining: bool, scope: Scope)
    requires Safe(s) && t in s.pcs && s.pcs[t] == Removing(e, draining, scope) && e in s.sas && e in s.entries
    requires t !in s.woken && s.mutex == None
    ensures Safe(TryRemove(s, t, e, draining, scope))
  {
    if (!draining && s.entries[e].locked) || s.entries[e].waitingThreads > 0 {
      TryRemoveMoves(s, t, e, draining, scope);
      var s' := TryRemove(s, t, e, draining, scope);
      MoveSafe(s, s', t, s'.pcs[t]);
    } else {
      RemoveFinishes(s, t, e, draining, scope);
    }
  }

  lemma RemoveFinishes(s: State, t: Tid, e: Eid, draining: bool, scope: Scope)
    requires Safe(s) && t in s.pcs && s.pcs[t] == Removing(e, draining, scope) && e in s.sas && e in s.entries
    requires t !in s.woken && s.mutex == None && s.entries[e].waitingThreads == 0
    requires draining || !s.entries[e].locked
    ensures Safe(TryRemove(s, t, e, draining, scope))
  {
    UnlinkSafe(s, t, e);
    FinishUnlinks(s, t, e, draining, scope);
    if scope.Flush? {
      FreeSafe(Unlink(s, t, e), t, Scanning(IndexOf(s.sas, e), scope.bound), Some(t));
    }
  }

  lemma FinishUnlinks(s: State, t: Tid, e: Eid, draining: bool, scope: Scope)
    requires t in s.pcs && e in s.sas && e in s.entries && s.entries[e].waitingThreads == 0
    requires draining || !s.entries[e].locked
    ensures TryRemove(s, t, e, draining, scope)
      == match scope
         case One => Unlink(s, t, e)
         case Flush(bound) => Free(Unlink(s, t, e), t, Scanning(IndexOf(s.sas, e), bound), Some(t))
  {
  }

  lemma TryRemoveMoves(s: State, t: Tid, e: Eid, draining: bool, scope: Scope)
    requires SchedulingOk(s) && RemovalOk(s) && t in s.pcs && s.pcs[t] == Removing(e, draining, scope)
    requires e in s.sas && e in s.entries && t !in s.woken && s.mutex == None
    requires (!draining && s.entries[e].locked) || s.entries[e].waitingThreads > 0
    ensures var s' := TryRemove(s, t, e, draining, scope);
      Moves(s, s', t, s'.pcs[t]) && SchedulingOk(s')
  {
    assert Removes(s.pcs[t], e);
  }

  lemma AddSafe(s: State, t: Tid)
    requires Safe(s) && Enabled(s, Add(t))
    ensures Safe(Apply(s, Add(t)))
  {
    AddRefs(s, t);
    AddLocks(s, t);
    AddWaiters(s, t);
    AddRemoval(s, t);
  }

  lemma AddLocks(s: State, t: Tid)
    requires ListOk(s) && LockOk(s) && Enabled(s, Add(t))
    ensures LockOk(Apply(s, Add(t)))
  {
  }

  lemma AddRemoval(s: State, t: Tid)
    requires ListOk(s) && RemovalOk(s) && Enabled(s, Add(t))
    ensures RemovalOk(Apply(s, Add(t)))
  {
    SameRemovers(s, Apply(s, Add(t)));
  }

  /** A new entry that nobody removes changes nothing about the others. */
  lemma SameRemovers(s: State, s': State)
    requires RemovalOk(s) && s'.pcs == s.pcs && s.entries.Keys <= s'.entries.Keys
    requires forall e | e in s.entries :: s'.entries[e] == s.entries[e]
    requires forall e | e in s'.entries && e !in s.entries :: !s'.entries[e].awaitsDeletion
    ensures RemovalOk(s')
  {
  }

  lemma AddRefs(s: State, t: Tid)
    requires ListOk(s) && RefsOk(s) && Enabled(s, Add(t))
    ensures ListOk(Apply(s, Add(t))) && RefsOk(Apply(s, Add(t)))
  {
    assert s.nextId !in s.sas;
  }

  lemma AddWaiters(s: State, t: Tid)
    requires RefsOk(s) && ListOk(s) && CountOk(s) && Enabled(s, Add(t))
    ensures CountOk(Apply(s, Add(t)))
  {
    var s' := Apply(s, Add(t));
    assert forall f :: Waiters(s', f) == Waiters(s, f);
    forall u | u in s.pcs && s.pcs[u].Waiting? ensures s.pcs[u].e < s.nextId {
      assert Uses(s.pcs[u], s.pcs[u].e);
      assert s.pcs[u].e in s.sas;
    }
    assert Waiters(s, s.nextId) == {};
  }

  lemma WokenSafe(s: State, s': State)
    requires Safe(s) && s' == s.(woken := s'.woken) && SchedulingOk(s')
    ensures Safe(s')
  {
    assert forall f :: Waiters(s', f) == Waiters(s, f);
  }

  lemma CheckinSafe(s: State, t: Tid, signalled: Option<Tid>)
    requires Safe(s) && Enabled(s, Checkin(t, signalled))
    ensures Safe(Apply(s, Checkin(t, signalled)))
  {
    assert Uses(s.pcs[t], s.pcs[t].e);
    CheckinMoves(s, t, signalled);
    MoveSafe(s, Apply(s, Checkin(t, signalled)), t, Idle);
  }

  lemma CheckinMoves(s: State, t: Tid, signalled: Option<Tid>)
    requires SchedulingOk(s) && Enabled(s, Checkin(t, signalled))
    requires s.pcs[t].e in s.sas && s.entries[s.pcs[t].e].locked
    ensures var s' := Apply(s, Checkin(t, signalled)); Moves(s, s', t, Idle) && SchedulingOk(s')
  {
  }

  lemma RemoveSafe(s: State, t: Tid, e: Eid, scope: Scope)
    requires Safe(s) && t in s.pcs && e in s.sas && e in s.entries && !s.entries[e].awaitsDeletion
    requires (s.pcs[t].Idle? && s.mutex == None) || s.pcs[t].Scanning?
    ensures Safe(BeginRemove(s, t, e, scope))
  {
    CondemnSafe(s, t, e, scope);
    assert t !in s.woken;
    TryRemoveSafe(Condemn(s, t, e, scope), t, e, false, scope);
  }

  lemma ScanSafe(s: State, t: Tid)
    requires Safe(s) && Enabled(s, Scan(t))
    ensures Safe(Apply(s, Scan(t)))
  {
    var at, bound := s.pcs[t].at, s.pcs[t].bound;
    if at < |s.sas| && !s.entries[s.sas[at]].awaitsDeletion {
      RemoveSafe(s, t, s.sas[at], Flush(bound));
    } else {
      ScanMoves(s, t);
      MoveSafe(s, Apply(s, Scan(t)), t, Apply(s, Scan(t)).pcs[t]);
    }
  }

  lemma ScanMoves(s: State, t: Tid)
    requires SchedulingOk(s) && Enabled(s, Scan(t))
    requires s.pcs[t].at < |s.sas| ==> s.entries[s.sas[s.pcs[t].at]].awaitsDeletion
    ensures var s' := Apply(s, Scan(t));
      Moves(s, s', t, s'.pcs[t]) && SchedulingOk(s') && (s'.pcs[t].Idle? || s'.pcs[t].Scanning?)
  {
  }

  lemma ResumeSafe(s: State, t: Tid, signalled: Option<Tid>)
    requires Safe(s) && Enabled(s, Resume(t, signalled))
    ensures Safe(Apply(s, Resume(t, signalled)))
  {
    if s.pcs[t].Waiting? {
      LeaveWaitSafe(s, t);
      WaiterResumesSafe(s, LeaveWait(s, t), t, signalled);
    } else {
      RemoverResumes(s, t);
    }
  }

  lemma WaiterResumesSafe(s: State, m: State, t: Tid, signalled: Option<Tid>)
    requires Enabled(s, Resume(t, signalled)) && s.pcs[t].Waiting? && m == LeaveWait(s, t) && Safe(m)
    ensures Safe(TryAcquire(m, t, s.pcs[t].e, s.pcs[t].use, signalled))
  {
    SameBlocked(s, t, signalled);
    TryAcquireSafe(m, t, s.pcs[t].e, s.pcs[t].use, signalled);
  }

  lemma SameBlocked(s: State, t: Tid, signalled: Option<Tid>)
    requires Enabled(s, Resume(t, signalled)) && s.pcs[t].Waiting?
    ensures SignalChoice(LeaveWait(s, t), s.pcs[t].e, signalled)
  {
  }

  lemma RemoverResumes(s: State, t: Tid)
    requires Safe(s) && t in s.pcs && s.pcs[t].Removing? && s.mutex == None
    requires s.pcs[t].e in s.sas && s.pcs[t].e in s.entries
    ensures Safe(TryRemove(s.(woken := s.woken - {t}), t, s.pcs[t].e, s.pcs[t].draining, s.pcs[t].scope))
  {
    var m, pc := s.(woken := s.woken - {t}), s.pcs[t];
    WokenSafe(s, m);
    TryRemoveSafe(m, t, pc.e, pc.draining, pc.scope);
  }

  lemma StepSafe(s: State, step: Step)
    requires Safe(s) && Enabled(s, step)
    ensures Safe(Apply(s, step))
  {
    match step
    case Add(t) => AddSafe(s, t);
    case Acquire(t, e, use, signalled) => TryAcquireSafe(s, t, e, use, signalled);
    case Checkin(t, signalled) => CheckinSafe(s, t, signalled);
    case Remove(t, e) => if !s.entries[e].awaitsDeletion { RemoveSafe(s, t, e, One); }
    case StartFlush(t) => StartFlushSafe(s, t);
    case Scan(t) => ScanSafe(s, t);
    case Resume(t, signalled) => ResumeSafe(s, t, signalled);
    case Spurious(t) => SpuriousSafe(s, t);
    case Destroy(t) => FreeSafe(s, t, Idle, s.mutex);
  }

  lemma StartFlushSafe(s: State, t: Tid)
    requires Safe(s) && Enabled(s, StartFlush(t))
    ensures Safe(Apply(s, StartFlush(t)))
  {
    StartFlushMoves(s, t);
    MoveSafe(s, Apply(s, StartFlush(t)), t, Scanning(0, s.nextId));
  }

  lemma StartFlushMoves(s: State, t: Tid)
    requires SchedulingOk(s) && Enabled(s, StartFlush(t))
    ensures var s' := Apply(s, StartFlush(t)); Moves(s, s', t, Scanning(0, s.nextId)) && SchedulingOk(s')
  {
  }

  lemma SpuriousSafe(s: State, t: Tid)
    requires Safe(s) && Enabled(s, Spurious(t))
    ensures Safe(Apply(s, Spurious(t)))
  {
    WokenSafe(s, Apply(s, Spurious(t)));
  }

  // ----- no wake-up is lost

  /** A step of t that concerns other entries than f. */
  lemma WakesElsewhere(s: State, s': State, t: Tid, f: Eid)
    requires t in s.pcs && t in s'.pcs && s'.pcs == s.pcs[t := s'.pcs[t]]
    requires !OnCondvar(s.pcs[t], f) && !OnCondvar(s'.pcs[t], f)
    requires forall u | u in s.pcs && u != t && OnCondvar(s.pcs[u], f) :: u in s.woken <==> u in s'.woken
    requires f in s'.entries ==> f in s.entries && s'.entries[f].locked == s.entries[f].locked
    requires NoLostWakeup(s, f)
    ensures NoLostWakeup(s', f)
  {
    if f in s'.entries && (exists u :: Blocked(s', u, f)) && !s'.entries[f].locked {
      var u :| Blocked(s', u, f);
      assert Blocked(s, u, f);
      var w :| Woken(s, w, f);
      assert Woken(s', w, f);
    }
  }

  lemma TryAcquireWakes(s: State, t: Tid, e: Eid, use: Use, signalled: Option<Tid>, f: Eid)
    requires t in s.pcs && s.pcs[t].Idle? && e in s.entries && SignalChoice(s, e, signalled)
    requires f == e || NoLostWakeup(s, f)
    ensures NoLostWakeup(TryAcquire(s, t, e, use, signalled), f)
  {
    var s' := TryAcquire(s, t, e, use, signalled);
    if f != e {
      WakesElsewhere(s, s', t, f);
    } else if exists u :: Blocked(s', u, e) {
      var u :| Blocked(s', u, e);
      if !s'.entries[e].locked {
        assert Blocked(s, u, e);
        assert Woken(s', signalled.value, e);
      }
    }
  }

  lemma TryRemoveWakes(s: State, t: Tid, e: Eid, draining: bool, scope: Scope, f: Eid)
    requires Safe(s) && t in s.pcs && s.pcs[t] == Removing(e, draining, scope) && e in s.sas && e in s.entries
    requires t !in s.woken
    requires f == e || NoLostWakeup(s, f)
    ensures NoLostWakeup(TryRemove(s, t, e, draining, scope), f)
  {
    if f != e {
      TryRemoveElsewhere(s, t, e, draining, scope, f);
    } else if !draining && s.entries[e].locked {
    } else if s.entries[e].waitingThreads > 0 {
      DrainWakes(s, t, e, draining, scope);
    } else {
      OnlyRemover(s, t, e);
      FinishUnlinks(s, t, e, draining, scope);
    }
  }

  lemma TryRemoveElsewhere(s: State, t: Tid, e: Eid, draining: bool, scope: Scope, f: Eid)
    requires t in s.pcs && s.pcs[t] == Removing(e, draining, scope) && e in s.sas && e in s.entries
    requires f != e && NoLostWakeup(s, f)
    ensures NoLostWakeup(TryRemove(s, t, e, draining, scope), f)
  {
    WakesElsewhere(s, TryRemove(s, t, e, draining, scope), t, f);
  }

  /** The broadcast reaches a waiter whenever the counter says there is one. */
  lemma DrainWakes(s: State, t: Tid, e: Eid, draining: bool, scope: Scope)
    requires CountOk(s) && t in s.pcs && s.pcs[t] == Removing(e, draining, scope) && e in s.sas && e in s.entries
    requires (draining || !s.entries[e].locked) && s.entries[e].waitingThreads > 0
    ensures exists w :: Woken(TryRemove(s, t, e, draining, scope), w, e)
  {
    assert Waiters(s, e) != {};
    var w :| w in Waiters(s, e);
    assert Woken(TryRemove(s, t, e, draining, scope), w, e);
  }

  lemma RemoveWakes(s: State, t: Tid, e: Eid, scope: Scope, f: Eid)
    requires Safe(s) && t in s.pcs && e in s.sas && e in s.entries && !s.entries[e].awaitsDeletion
    requires (s.pcs[t].Idle? && s.mutex == None) || s.pcs[t].Scanning?
    requires NoLostWakeup(s, f)
    ensures NoLostWakeup(BeginRemove(s, t, e, scope), f)
  {
    var m := Condemn(s, t, e, scope);
    CondemnSafe(s, t, e, scope);
    CondemnWakes(s, t, e, scope, f);
    TryRemoveWakes(m, t, e, false, scope, f);
  }

  lemma CondemnWakes(s: State, t: Tid, e: Eid, scope: Scope, f: Eid)
    requires SchedulingOk(s) && t in s.pcs && e in s.entries && NoLostWakeup(s, f)
    requires (s.pcs[t].Idle? && s.mutex == None) || s.pcs[t].Scanning?
    ensures t !in s.woken && (f == e || NoLostWakeup(Condemn(s, t, e, scope), f))
  {
    if f != e {
      WakesElsewhere(s, Condemn(s, t, e, scope), t, f);
    }
  }

  lemma ResumeWakes(s: State, t: Tid, signalled: Option<Tid>, f: Eid)
    requires Safe(s) && Enabled(s, Resume(t, signalled)) && NoLostWakeup(s, f)
    ensures NoLostWakeup(Apply(s, Resume(t, signalled)), f)
  {
    if s.pcs[t].Waiting? {
      WaiterWakes(s, t, signalled, f);
    } else {
      RemoverWakes(s, t, signalled, f);
    }
  }

  lemma LeaveWaitBlocked(s: State, t: Tid, m: State)
    requires t in s.pcs && s.pcs[t].Waiting? && s.pcs[t].e in s.entries && t in s.woken
    requires s.entries[s.pcs[t].e].waitingThreads > 0 && m == LeaveWait(s, t)
    ensures forall u, g :: Blocked(m, u, g) <==> Blocked(s, u, g)
  {
  }

  lemma WaiterWakes(s: State, t: Tid, signalled: Option<Tid>, f: Eid)
    requires Safe(s) && Enabled(s, Resume(t, signalled)) && s.pcs[t].Waiting? && NoLostWakeup(s, f)
    ensures NoLostWakeup(Apply(s, Resume(t, signalled)), f)
  {
    var pc, m := s.pcs[t], LeaveWait(s, t);
    LeaveWaitBlocked(s, t, m);
    if f != pc.e {
      WakesElsewhere(s, m, t, f);
    }
    TryAcquireWakes(m, t, pc.e, pc.use, signalled, f);
  }

  lemma AwakeElsewhere(s: State, t: Tid, f: Eid)
    requires t in s.pcs && !OnCondvar(s.pcs[t], f) && NoLostWakeup(s, f)
    ensures NoLostWakeup(s.(woken := s.woken - {t}), f)
  {
    var m := s.(woken := s.woken - {t});
    if f in m.entries && (exists u :: Blocked(m, u, f)) && !m.entries[f].locked {
      var u :| Blocked(m, u, f);
      assert Blocked(s, u, f);
      var w :| Woken(s, w, f);
      assert Woken(m, w, f);
    }
  }

  lemma RemoverWakes(s: State, t: Tid, signalled: Option<Tid>, f: Eid)
    requires Safe(s) && Enabled(s, Resume(t, signalled)) && s.pcs[t].Removing? && NoLostWakeup(s, f)
    ensures NoLostWakeup(Apply(s, Resume(t, signalled)), f)
  {
    var pc, m := s.pcs[t], s.(woken := s.woken - {t});
    WokenSafe(s, m);
    if f != pc.e {
      AwakeElsewhere(s, t, f);
    }
    TryRemoveWakes(m, t, pc.e, pc.draining, pc.scope, f);
  }

  lemma AddWakes(s: State, t: Tid, f: Eid)
    requires ListOk(s) && RefsOk(s) && Enabled(s, Add(t)) && NoLostWakeup(s, f)
    ensures NoLostWakeup(Apply(s, Add(t)), f)
  {
    var s' := Apply(s, Add(t));
    assert s'.pcs == s.pcs[t := s'.pcs[t]];
    if f != s.nextId {
      WakesElsewhere(s, s', t, f);
    } else {
      assert f !in s.sas;
      assert forall u | u in s.pcs :: !Uses(s.pcs[u], f);
    }
  }

  lemma CheckinWakes(s: State, t: Tid, signalled: Option<Tid>, f: Eid)
    requires RefsOk(s) && LockOk(s) && Enabled(s, Checkin(t, signalled)) && NoLostWakeup(s, f)
    ensures NoLostWakeup(Apply(s, Checkin(t, signalled)), f)
  {
    var s', e := Apply(s, Checkin(t, signalled)), s.pcs[t].e;
    assert Uses(s.pcs[t], e);
    if f != e {
      WakesElsewhere(s, s', t, f);
    } else if u :| Blocked(s', u, f) {
      assert Blocked(s, u, f);
      assert Woken(s', signalled.value, f);
    }
  }

  lemma StepWakes(s: State, step: Step, f: Eid)
    requires Safe(s) && Enabled(s, step) && NoLostWakeup(s, f)
    ensures NoLostWakeup(Apply(s, step), f)
  {
    match step
    case Add(t) => AddWakes(s, t, f);
    case Acquire(t, e, use, signalled) => TryAcquireWakes(s, t, e, use, signalled, f);
    case Checkin(t, signalled) => CheckinWakes(s, t, signalled, f);
    case Remove(t, e) => if !s.entries[e].awaitsDeletion { RemoveWakes(s, t, e, One, f); }
    case StartFlush(t) => WakesElsewhere(s, Apply(s, step), t, f);
    case Scan(t) => ScanWakes(s, t, f);
    case Resume(t, signalled) => ResumeWakes(s, t, signalled, f);
    case Spurious(t) => SpuriousWakes(s, t, f);
    case Destroy(t) => WakesElsewhere(s, Apply(s, step), t, f);
  }

  lemma ScanWakes(s: State, t: Tid, f: Eid)
    requires Safe(s) && Enabled(s, Scan(t)) && NoLostWakeup(s, f)
    ensures NoLostWakeup(Apply(s, Scan(t)), f)
  {
    var at, bound := s.pcs[t].at, s.pcs[t].bound;
    if at < |s.sas| && !s.entries[s.sas[at]].awaitsDeletion {
      RemoveWakes(s, t, s.sas[at], Flush(bound), f);
    } else {
      WakesElsewhere(s, Apply(s, Scan(t)), t, f);
    }
  }

  lemma SpuriousWakes(s: State, t: Tid, f: Eid)
    requires Enabled(s, Spurious(t)) && NoLostWakeup(s, f)
    ensures NoLostWakeup(Apply(s, Spurious(t)), f)
  {
    var s' := Apply(s, Spurious(t));
    if f in s'.entries && (exists u :: Blocked(s', u, f)) && !s'.entries[f].locked {
      var u :| Blocked(s', u, f);
      assert Blocked(s, u, f);
      var w :| Woken(s, w, f);
      assert Woken(s', w, f);
    }
  }

  lemma StepKeepsInv(s: State, step: Step)
    requires Inv(s) && Enabled(s, step)
    ensures Inv(Apply(s, step))
  {
    StepSafe(s, step);
    forall f ensures NoLostWakeup(Apply(s, step), f) {
      StepWakes(s, step, f);
    }
  }

  // ----- every run

  ghost predicate IsRun(s: State, steps: seq<Step>)
    decreases |steps|
  {
    steps == [] || (Enabled(s, steps[0]) && IsRun(Apply(s, steps[0]), steps[1..]))
  }

  ghost function After(s: State, steps: seq<Step>): State
    requires IsRun(s, steps)
    decreases |steps|
  {
    if steps == [] then s else After(Apply(s, steps[0]), steps[1..])
  }

  lemma {:induction false} RunKeepsInv(s: State, steps: seq<Step>)
    requires Inv(s) && IsRun(s, steps)
    ensures Inv(After(s, steps))
    decreases |steps|
  {
    if steps != [] {
      StepKeepsInv(s, steps[0]);
      RunKeepsInv(Apply(s, steps[0]), steps[1..]);
    }
  }

  lemma InitInv(s: State)
    requires Init(s)
    ensures Inv(s)
  {
  }

  ghost function Holders(s: State, e: Eid): set<Tid> {
    set t | t in s.pcs && s.pcs[t] == Holding(e)
  }

  ghost function Removers(s: State, e: Eid): set<Tid> {
    set t | t in s.pcs && Removes(s.pcs[t], e)
  }

  lemma AtMostOne(ts: set<Tid>, t: Tid)
    requires t in ts && forall u | u in ts :: u == t
    ensures |ts| == 1
  {
    assert ts == {t};
  }

  /** In every interleaving an entry is locked exactly when one thread holds it,
      awaits deletion exactly when one thread removes it, and counts its waiters. */
  lemma MonitorTheorem(s: State, steps: seq<Step>, e: Eid)
    requires Init(s) && IsRun(s, steps) && e in After(s, steps).entries
    ensures var s' := After(s, steps);
      && |Holders(s', e)| == (if s'.entries[e].locked then 1 else 0)
      && |Removers(s', e)| == (if s'.entries[e].awaitsDeletion then 1 else 0)
      && |Waiters(s', e)| == s'.entries[e].waitingThreads
  {
    InitInv(s);
    RunKeepsInv(s, steps);
    var s' := After(s, steps);
    if s'.entries[e].locked {
      var t :| t in s'.pcs && s'.pcs[t] == Holding(e);
      AtMostOne(Holders(s', e), t);
    } else {
      assert Holders(s', e) == {};
    }
    if s'.entries[e].awaitsDeletion {
      var t :| t in s'.pcs && Removes(s'.pcs[t], e);
      AtMostOne(Removers(s', e), t);
    } else {
      assert Removers(s', e) == {};
    }
  }

  /** In every interleaving a thread blocked on an entry can count on a holder or on
      a thread that is already awake. */
  lemma NoWakeupIsLost(s: State, steps: seq<Step>, t: Tid, e: Eid)
    requires Init(s) && IsRun(s, steps) && Blocked(After(s, steps), t, e)
    ensures var s' := After(s, steps);
      && e in s'.entries
      && ((exists h :: h in s'.pcs && s'.pcs[h] == Holding(e)) || exists u :: Woken(s', u, e))
  {
    InitInv(s);
    RunKeepsInv(s, steps);
    var s' := After(s, steps);
    assert Uses(s'.pcs[t], e);
    assert NoLostWakeup(s', e);
  }

  // ----- what a section does for its thread

  /** Somebody removes the entry. */
  ghost predicate BeingRemoved(s: State, e: Eid) {
    exists r :: r in s.pcs && Removes(s.pcs[r], e)
  }

  /** The step is thread t looking at entry e, for the first time or after a wait. */
  predicate LooksAt(s: State, step: Step, e: Eid, use: Use) {
    || (step.Acquire? && step.e == e && step.use == use)
    || (step.Resume? && step.t in s.pcs && s.pcs[step.t] == Waiting(e, use))
  }

  /** It is refused while somebody removes the entry, waits while somebody holds it, and
      otherwise gets what it wants. */
  lemma LookStep(s: State, step: Step, e: Eid, use: Use)
    requires Safe(s) && Enabled(s, step) && LooksAt(s, step, e, use)
    ensures var pc := Apply(s, step).pcs[step.t];
      if BeingRemoved(s, e) then pc == Idle
      else if Holders(s, e) != {} then pc == Waiting(e, use)
      else pc == if use == Checkout then Holding(e) else Idle
    ensures forall u | u in s.pcs && u != step.t :: Apply(s, step).pcs[u] == s.pcs[u]
  {
    FlagsMean(s, e);
  }

  lemma FlagsMean(s: State, e: Eid)
    requires Safe(s) && e in s.entries
    ensures s.entries[e].awaitsDeletion <==> BeingRemoved(s, e)
    ensures s.entries[e].locked <==> Holders(s, e) != {}
    ensures s.entries[e].waitingThreads > 0 <==> Waiters(s, e) != {}
  {
    if s.entries[e].locked {
      var t :| t in s.pcs && s.pcs[t] == Holding(e);
      assert t in Holders(s, e);
    } else if t :| t in Holders(s, e) {
      assert false;
    }
  }

  /** In every reachable state. */
  lemma LookTheorem(s: State, steps: seq<Step>, step: Step, e: Eid, use: Use)
    requires Init(s) && IsRun(s, steps) && Enabled(After(s, steps), step) && LooksAt(After(s, steps), step, e, use)
    ensures var r := After(s, steps);
      var pc := Apply(r, step).pcs[step.t];
      if BeingRemoved(r, e) then pc == Idle
      else if Holders(r, e) != {} then pc == Waiting(e, use)
      else pc == if use == Checkout then Holding(e) else Idle
  {
    InitInv(s);
    RunKeepsInv(s, steps);
    LookStep(After(s, steps), step, e, use);
  }

  /** No update and no query of an entry that another thread holds. */
  lemma VisitsAreAlone(s: State, steps: seq<Step>, step: Step, e: Eid)
    requires Init(s) && IsRun(s, steps) && Enabled(After(s, steps), step) && LooksAt(After(s, steps), step, e, Visit)
    requires !BeingRemoved(After(s, steps), e) && Apply(After(s, steps), step).pcs[step.t].Idle?
    ensures Holders(After(s, steps), e) == {}
  {
    LookTheorem(s, steps, step, e, Visit);
  }

  /** The step is thread t about to remove e, for the first time or after a wait. */
  predicate WantsToRemove(s: State, step: Step, e: Eid) {
    && step.t in s.pcs
    && ((step.Remove? && step.e == e) || (step.Resume? && s.pcs[step.t].Removing? && s.pcs[step.t].e == e)
        || (step.Scan? && s.pcs[step.t].Scanning? && s.pcs[step.t].at < |s.sas| && s.sas[s.pcs[step.t].at] == e))
  }

  /** Someone else removes e: the thread goes on, or is done. */
  predicate LeavesAlone(s: State, s': State, t: Tid, e: Eid) {
    && t in s.pcs && t in s'.pcs && e in s'.sas
    && s'.pcs[t] == if s.pcs[t].Scanning? then Scanning(s.pcs[t].at + 1, s.pcs[t].bound) else Idle
  }

  /** The remover waits; without a holder it has woken all waiters. */
  ghost predicate WaitsToRemove(s: State, s': State, t: Tid, e: Eid, held: bool) {
    && t in s'.pcs && e in s'.sas && s'.pcs[t].Removing? && s'.pcs[t].e == e
    && (!held ==> Waiters(s, e) <= s'.woken)
  }

  predicate HasRemoved(s': State, t: Tid, e: Eid) {
    && t in s'.pcs && e !in s'.sas
    && (s'.pcs[t] == Destroying(e) || (s'.pcs[t].Scanning? && e !in s'.entries))
  }

  /** Another removal is left alone; otherwise the remover waits for the holder and then
      for the waiters, all of whom it wakes, and takes the entry off the list after that. */
  lemma RemoveStep(s: State, step: Step, e: Eid)
    requires Safe(s) && Enabled(s, step) && WantsToRemove(s, step, e)
    ensures var s', t := Apply(s, step), step.t;
      if BeingRemoved(s, e) && !step.Resume? then LeavesAlone(s, s', t, e)
      else if Holders(s, e) != {} || Waiters(s, e) != {} then WaitsToRemove(s, s', t, e, Holders(s, e) != {})
      else HasRemoved(s', t, e)
  {
    FlagsMean(s, e);
    if step.Resume? {
      ResumedRemover(s, step, e);
    } else if !BeingRemoved(s, e) {
      NewRemover(s, step, e);
    } else {
      LeftAlone(s, step, e);
    }
  }

  lemma ResumedRemover(s: State, step: Step, e: Eid)
    requires Safe(s) && Enabled(s, step) && WantsToRemove(s, step, e) && step.Resume?
    ensures var s', entry := Apply(s, step), s.entries[e];
      if entry.locked || entry.waitingThreads > 0 then WaitsToRemove(s, s', step.t, e, entry.locked)
      else HasRemoved(s', step.t, e)
  {
    var t, m := step.t, s.(woken := s.woken - {step.t});
    TryRemoveMeans(m, t, e, s.pcs[t].draining, s.pcs[t].scope);
    assert Waiters(m, e) == Waiters(s, e);
  }

  lemma NewRemover(s: State, step: Step, e: Eid)
    requires ListOk(s) && Enabled(s, step) && WantsToRemove(s, step, e) && !step.Resume?
    requires e in s.entries && !s.entries[e].awaitsDeletion
    ensures var s', entry := Apply(s, step), s.entries[e];
      if entry.locked || entry.waitingThreads > 0 then WaitsToRemove(s, s', step.t, e, entry.locked)
      else HasRemoved(s', step.t, e)
  {
    var t, scope := step.t, if step.Scan? then Flush(s.pcs[step.t].bound) else One;
    var m := Condemn(s, t, e, scope);
    TryRemoveMeans(m, t, e, false, scope);
    assert Waiters(m, e) == Waiters(s, e);
  }

  lemma LeftAlone(s: State, step: Step, e: Eid)
    requires Enabled(s, step) && WantsToRemove(s, step, e) && !step.Resume?
    requires e in s.entries && s.entries[e].awaitsDeletion
    ensures LeavesAlone(s, Apply(s, step), step.t, e)
  {
  }

  lemma TryRemoveMeans(s: State, t: Tid, e: Eid, draining: bool, scope: Scope)
    requires ListOk(s) && t in s.pcs && s.pcs[t].Removing? && e in s.sas && e in s.entries
    requires draining ==> !s.entries[e].locked
    ensures var s', entry := TryRemove(s, t, e, draining, scope), s.entries[e];
      if entry.locked || entry.waitingThreads > 0 then WaitsToRemove(s, s', t, e, entry.locked)
      else HasRemoved(s', t, e)
  {
    WithoutKeepsRest(s.sas, e);
  }

  ghost function SomeSignal(s: State, e: Eid): (signalled: Option<Tid>)
    ensures SignalChoice(s, e, signalled)
  {
    if u :| u in s.pcs && Blocked(s, u, e) then Some(u) else None
  }

  /** Whenever the mutex is free, an idle thread may do any of these to any listed entry,
      a holder may give it back, and a woken thread may go on. */
  lemma MayEnter(s: State, t: Tid, e: Eid, use: Use)
    requires Safe(s) && s.mutex == None && t in s.pcs
    ensures s.pcs[t].Idle? ==> Enabled(s, Add(t)) && Enabled(s, StartFlush(t))
    ensures s.pcs[t].Idle? && e in s.sas ==> Enabled(s, Remove(t, e)) && exists u :: Enabled(s, Acquire(t, e, use, u))
    ensures s.pcs[t] == Holding(e) ==> exists u :: Enabled(s, Checkin(t, u))
    ensures t in s.woken && OnCondvar(s.pcs[t], e) ==> exists u :: Enabled(s, Resume(t, u))
  {
    var u := SomeSignal(s, e);
    assert SignalChoice(s, e, u);
    if s.pcs[t].Idle? && e in s.sas {
      assert Enabled(s, Acquire(t, e, use, u));
    }
    if s.pcs[t] == Holding(e) {
      assert Enabled(s, Checkin(t, u));
    }
    if t in s.woken && OnCondvar(s.pcs[t], e) {
      assert Uses(s.pcs[t], e);
      assert s.pcs[t].Waiting? ==> t in Waiters(s, e);
      assert Enabled(s, Resume(t, u));
    }
  }

  /** An added entry is free, and first in the list. */
  lemma AddStep(s: State, t: Tid)
    requires Safe(s) && Enabled(s, Add(t))
    ensures var s', e := Apply(s, Add(t)), s.nextId;
      && e !in s.entries && s'.sas == [e] + s.sas && e in s'.entries
      && !BeingRemoved(s', e) && Holders(s', e) == {} && Waiters(s', e) == {}
  {
    StepSafe(s, Add(t));
    FlagsMean(Apply(s, Add(t)), s.nextId);
  }

  /** Nobody acquires a condemned entry, it stays condemned, its waiters only get
      fewer, and each waiter that resumes makes them fewer. */
  lemma CondemnedStep(s: State, step: Step, e: Eid)
    requires ListOk(s) && Enabled(s, step) && e in s.entries && s.entries[e].awaitsDeletion
    ensures var s' := Apply(s, step);
      && Holders(s', e) <= Holders(s, e)
      && (e in s'.entries ==>
            && s'.entries[e].awaitsDeletion
            && s'.entries[e].waitingThreads <= s.entries[e].waitingThreads
            && (step.Resume? && s.pcs[step.t].Waiting? && s.pcs[step.t].e == e ==>
                  s'.entries[e].waitingThreads < s.entries[e].waitingThreads))
  {
    match step
    case Add(t) =>
    case Acquire(t, f, use, signalled) =>
    case Checkin(t, signalled) =>
    case Remove(t, f) =>
    case StartFlush(t) =>
    case Scan(t) =>
    case Resume(t, signalled) => CondemnedResume(s, t, signalled, e);
    case Spurious(t) =>
    case Destroy(t) =>
  }

  lemma CondemnedResume(s: State, t: Tid, signalled: Option<Tid>, e: Eid)
    requires Enabled(s, Resume(t, signalled)) && e in s.entries && s.entries[e].awaitsDeletion
    ensures var s' := Apply(s, Resume(t, signalled));
      && Holders(s', e) <= Holders(s, e)
      && (e in s'.entries ==>
            && s'.entries[e].awaitsDeletion
            && s'.entries[e].waitingThreads <= s.entries[e].waitingThreads
            && (s.pcs[t].Waiting? && s.pcs[t].e == e ==>
                  s'.entries[e].waitingThreads < s.entries[e].waitingThreads))
  {
  }

  /** An entry is freed only by its remover, once nobody holds it or waits for it,
      and afterwards no thread refers to it. */
  lemma FreedStep(s: State, step: Step, e: Eid)
    requires Inv(s) && Enabled(s, step) && e in s.entries && e !in Apply(s, step).entries
    ensures s.entries[e].awaitsDeletion ==> Removes(s.pcs[step.t], e)
    ensures Holders(s, e) == {} && Waiters(s, e) == {}
    ensures var s' := Apply(s, step);
      forall u | u in s'.pcs :: !Uses(s'.pcs[u], e) && !Removes(s'.pcs[u], e)
  {
    FreedWhenDrained(s, step, e);
    StepSafe(s, step);
    FreedUnreferenced(Apply(s, step), e);
  }

  lemma FreedUnreferenced(s: State, e: Eid)
    requires Safe(s) && e !in s.entries
    ensures forall u | u in s.pcs :: !Uses(s.pcs[u], e) && !Removes(s.pcs[u], e)
  {
    assert e !in s.sas;
  }

  lemma FreedWhenDrained(s: State, step: Step, e: Eid)
    requires Safe(s) && Enabled(s, step) && e in s.entries && e !in Apply(s, step).entries
    ensures s.entries[e].awaitsDeletion ==> Removes(s.pcs[step.t], e)
    ensures Holders(s, e) == {} && Waiters(s, e) == {}
  {
    var t := step.t;
    FreeingSteps(s, step, e);
    if step.Destroy? {
      assert forall u | u in s.pcs :: !Uses(s.pcs[u], e);
      assert Holders(s, e) == {} && Waiters(s, e) == {};
    } else {
      assert step.Resume? ==> Removes(s.pcs[t], e);
      assert !s.entries[e].locked && s.entries[e].waitingThreads == |Waiters(s, e)|;
      assert Holders(s, e) == {};
    }
  }

  lemma FreeingSteps(s: State, step: Step, e: Eid)
    requires Enabled(s, step) && e in s.entries && e !in Apply(s, step).entries
    ensures match step
      case Destroy(t) => s.pcs[t] == Destroying(e)
      case Resume(t, _) =>
        && s.pcs[t].Removing? && s.pcs[t].e == e
        && (s.pcs[t].draining || !s.entries[e].locked) && s.entries[e].waitingThreads == 0
      case Scan(t) => !s.entries[e].locked && s.entries[e].waitingThreads == 0 && !s.entries[e].awaitsDeletion
      case _ => false
  {
  }

  // ----- a removal finishes

  /** A condemned entry that nobody holds any more. */
  predicate Draining(s: State, e: Eid) {
    e in s.sas && e in s.entries && s.entries[e].awaitsDeletion && !s.entries[e].locked
  }

  ghost function AwakeRemovers(s: State, e: Eid): set<Tid> {
    set t | t in s.pcs && s.pcs[t].Removing? && s.pcs[t].e == e && t in s.woken
  }

  /** Every waiter counts twice, so that the wake-up it may send is paid for. */
  ghost function DrainMeasure(s: State, e: Eid): nat {
    2 * |Waiters(s, e)| + |AwakeRemovers(s, e)|
  }

  /** A thread that was woken on e's condvar gets the mutex. */
  predicate ResumesOn(s: State, step: Step, e: Eid) {
    step.Resume? && Enabled(s, step) && OnCondvar(s.pcs[step.t], e)
  }

  lemma SomebodyIsAwake(s: State, e: Eid) returns (w: Tid)
    requires RefsOk(s) && RemovalOk(s) && NoLostWakeup(s, e) && Draining(s, e)
    ensures Woken(s, w, e)
  {
    var r :| r in s.pcs && Removes(s.pcs[r], e);
    assert Woken(s, r, e) || Blocked(s, r, e);
    w :| Woken(s, w, e);
  }

  lemma DrainCanStep(s: State, e: Eid) returns (step: Step)
    requires Inv(s) && Draining(s, e) && s.mutex == None
    ensures ResumesOn(s, step, e)
  {
    var w := SomebodyIsAwake(s, e);
    assert s.pcs[w].Waiting? ==> w in Waiters(s, e);
    if u :| Blocked(s, u, e) {
      step := Resume(w, Some(u));
    } else {
      step := Resume(w, None);
    }
  }

  lemma AwakeRemoversAtMostOne(s: State, e: Eid)
    requires RemovalOk(s)
    ensures |AwakeRemovers(s, e)| <= 1
  {
    if t :| t in AwakeRemovers(s, e) {
      assert forall u | u in AwakeRemovers(s, e) :: Removes(s.pcs[u], e);
      AtMostOne(AwakeRemovers(s, e), t);
    }
  }

  /** Every resumed thread brings the removal closer to its end. */
  lemma DrainStep(s: State, step: Step, e: Eid)
    requires Inv(s) && Draining(s, e) && ResumesOn(s, step, e)
    ensures var s' := Apply(s, step);
      e !in s'.sas || (Draining(s', e) && s'.mutex == None && DrainMeasure(s', e) < DrainMeasure(s, e))
  {
    if s.pcs[step.t].Waiting? {
      DrainByWaiter(s, step, e);
      StepSafe(s, step);
      AwakeRemoversAtMostOne(Apply(s, step), e);
    } else if s.entries[e].waitingThreads > 0 {
      DrainByRemover(s, step, e);
    } else {
      DrainEnds(s, step, e);
    }
  }

  /** With no waiter left, the remover takes the entry off the list. */
  lemma DrainEnds(s: State, step: Step, e: Eid)
    requires ListOk(s) && Draining(s, e) && ResumesOn(s, step, e)
    requires s.pcs[step.t].Removing? && s.entries[e].waitingThreads == 0
    ensures e !in Apply(s, step).sas
  {
    var t := step.t;
    FinishUnlinks(s.(woken := s.woken - {t}), t, e, s.pcs[t].draining, s.pcs[t].scope);
    WithoutKeepsRest(s.sas, e);
  }

  lemma DrainByWaiter(s: State, step: Step, e: Eid)
    requires Draining(s, e) && ResumesOn(s, step, e) && s.pcs[step.t].Waiting?
    ensures var s' := Apply(s, step); Draining(s', e) && s'.mutex == None && |Waiters(s', e)| == |Waiters(s, e)| - 1
  {
    var s' := Apply(s, step);
    assert Waiters(s', e) == Waiters(s, e) - {step.t};
  }

  lemma DrainByRemover(s: State, step: Step, e: Eid)
    requires RemovalOk(s) && Draining(s, e) && ResumesOn(s, step, e)
    requires s.pcs[step.t].Removing? && s.entries[e].waitingThreads > 0
    ensures var s' := Apply(s, step);
      Draining(s', e) && s'.mutex == None && DrainMeasure(s', e) < DrainMeasure(s, e)
  {
    var s', t := Apply(s, step), step.t;
    assert Waiters(s', e) == Waiters(s, e);
    assert Removes(s.pcs[t], e);
    assert forall u | u in s.pcs && s.pcs[u].Removing? && s.pcs[u].e == e :: Removes(s.pcs[u], e);
    assert AwakeRemovers(s', e) == {};
    assert t in AwakeRemovers(s, e);
  }

  /** A schedule of woken threads on e's condvar, as long as e is listed. */
  ghost predicate DrainRun(s: State, steps: seq<Step>, e: Eid)
    decreases |steps|
  {
    steps == [] || (e in s.sas && ResumesOn(s, steps[0], e) && DrainRun(Apply(s, steps[0]), steps[1..], e))
  }

  lemma {:induction false} DrainRunIsRun(s: State, steps: seq<Step>, e: Eid)
    requires DrainRun(s, steps, e)
    ensures IsRun(s, steps)
    decreases |steps|
  {
    if steps != [] {
      DrainRunIsRun(Apply(s, steps[0]), steps[1..], e);
    }
  }

  lemma {:induction false} DrainRunBounded(s: State, steps: seq<Step>, e: Eid)
    requires Inv(s) && Draining(s, e) && DrainRun(s, steps, e) && IsRun(s, steps)
    ensures |steps| <= DrainMeasure(s, e) + 1
    ensures var s' := After(s, steps);
      && Inv(s')
      && (e in s'.sas ==> |steps| <= DrainMeasure(s, e) && Draining(s', e) && (steps != [] ==> s'.mutex == None))
    decreases |steps|
  {
    if steps != [] {
      var s' := Apply(s, steps[0]);
      StepKeepsInv(s, steps[0]);
      DrainStep(s, steps[0], e);
      if e in s'.sas {
        DrainRunBounded(s', steps[1..], e);
      } else {
        assert steps[1..] == [];
      }
    }
  }

  /** However the woken threads are scheduled, the removal ends: no schedule is
      longer than the measure allows, and one that leaves e listed can go on. */
  lemma DeletionFinishes(s: State, steps: seq<Step>, e: Eid)
    requires Inv(s) && Draining(s, e) && s.mutex == None && DrainRun(s, steps, e)
    ensures IsRun(s, steps)
    ensures |steps| <= DrainMeasure(s, e) + 1
    ensures e in After(s, steps).sas ==>
      |steps| <= DrainMeasure(s, e) && exists step :: ResumesOn(After(s, steps), step, e)
  {
    DrainRunIsRun(s, steps, e);
    DrainRunBounded(s, steps, e);
    if e in After(s, steps).sas {
      var step := DrainCanStep(After(s, steps), e);
    }
  }

  // ----- the same in the middle of everything else

  /** The entry is condemned, or it is gone for good. */
  predicate Doomed(s: State, e: Eid) {
    if e in s.entries then s.entries[e].awaitsDeletion else e < s.nextId
  }

  /** A waiter on e's condvar gets the mutex. */
  predicate WaiterResumes(s: State, step: Step, e: Eid) {
    step.Resume? && step.t in s.pcs && s.pcs[step.t].Waiting? && s.pcs[step.t].e == e
  }

  ghost function Resumed(s: State, steps: seq<Step>, e: Eid): nat
    requires IsRun(s, steps)
    decreases |steps|
  {
    if steps == [] then 0
    else (if WaiterResumes(s, steps[0], e) then 1 else 0) + Resumed(Apply(s, steps[0]), steps[1..], e)
  }

  lemma AbsentStays(s: State, step: Step, e: Eid)
    requires Enabled(s, step) && e !in s.entries && e < s.nextId
    ensures e !in Apply(s, step).entries && e < Apply(s, step).nextId && !WaiterResumes(s, step, e)
  {
  }

  lemma NobodyThere(s: State, e: Eid)
    requires Safe(s) && e !in s.entries
    ensures Holders(s, e) == {} && Waiters(s, e) == {}
  {
    FreedUnreferenced(s, e);
    assert forall u | u in s.pcs :: !Uses(s.pcs[u], e);
  }

  lemma DoomedUntilFreed(s: State, step: Step, e: Eid)
    requires Inv(s) && Enabled(s, step) && e in s.entries && s.entries[e].awaitsDeletion
    requires e in Apply(s, step).entries
    ensures var s' := Apply(s, step);
      && Doomed(s', e) && Holders(s', e) <= Holders(s, e)
      && |Waiters(s', e)| + (if WaiterResumes(s, step, e) then 1 else 0) <= |Waiters(s, e)|
  {
    CondemnedStep(s, step, e);
    StepSafe(s, step);
  }

  lemma DoomedWhenFreed(s: State, step: Step, e: Eid)
    requires Inv(s) && Enabled(s, step) && e in s.entries && e !in Apply(s, step).entries
    ensures var s' := Apply(s, step);
      Doomed(s', e) && Holders(s', e) == {} && Waiters(s', e) == {} && !WaiterResumes(s, step, e)
  {
    FreeingSteps(s, step, e);
    StepSafe(s, step);
    NextIdGrows(s, step);
    NobodyThere(Apply(s, step), e);
  }

  lemma NextIdGrows(s: State, step: Step)
    requires Enabled(s, step)
    ensures Apply(s, step).nextId >= s.nextId
  {
  }

  /** One step of anybody. */
  lemma DoomedStep(s: State, step: Step, e: Eid)
    requires Inv(s) && Enabled(s, step) && Doomed(s, e)
    ensures var s' := Apply(s, step);
      && Doomed(s', e) && Holders(s', e) <= Holders(s, e)
      && |Waiters(s', e)| + (if WaiterResumes(s, step, e) then 1 else 0) <= |Waiters(s, e)|
  {
    if e !in s.entries {
      AbsentStays(s, step, e);
      StepSafe(s, step);
      NobodyThere(s, e);
      NobodyThere(Apply(s, step), e);
    } else if e in Apply(s, step).entries {
      DoomedUntilFreed(s, step, e);
    } else {
      DoomedWhenFreed(s, step, e);
    }
  }

  /** Along every run, whoever takes part in it: once an entry is condemned it stays so
      until it is gone, nobody new holds it, and every waiter that was there resumes at
      most once, while nobody joins. */
  lemma {:induction false} CondemnedRun(s: State, steps: seq<Step>, e: Eid)
    requires Inv(s) && IsRun(s, steps) && Doomed(s, e)
    ensures var s' := After(s, steps);
      && Doomed(s', e) && Holders(s', e) <= Holders(s, e)
      && |Waiters(s', e)| + Resumed(s, steps, e) <= |Waiters(s, e)|
    decreases |steps|
  {
    if steps != [] {
      DoomedStep(s, steps[0], e);
      StepKeepsInv(s, steps[0]);
      CondemnedRun(Apply(s, steps[0]), steps[1..], e);
    }
  }

  /** And in every reachable state a removal can go on as soon as the entry is free and
      the mutex is not taken. */
  lemma RemovalCanGoOn(s: State, steps: seq<Step>, e: Eid)
    requires Init(s) && IsRun(s, steps) && Draining(After(s, steps), e) && After(s, steps).mutex == None
    ensures exists step :: ResumesOn(After(s, steps), step, e)
  {
    InitInv(s);
    RunKeepsInv(s, steps);
    var step := DrainCanStep(After(s, steps), e);
  }

  // ----- how often anybody resumes

  /** What is left to happen on e's condvar: besides the measure, the check-in of a
      holder that may wake the remover. */
  ghost function LeftToResume(s: State, e: Eid): nat {
    DrainMeasure(s, e) + |Holders(s, e)|
  }

  /** The remover of e is woken spuriously, or by another thread that finds e condemned. */
  predicate Nudges(s: State, step: Step, e: Eid) {
    match step
    case Acquire(_, f, _, _) => f == e
    case Spurious(t) => t in s.pcs && s.pcs[t].Removing? && s.pcs[t].e == e
    case _ => false
  }

  ghost function ResumesIn(s: State, steps: seq<Step>, e: Eid): nat
    requires IsRun(s, steps)
    decreases |steps|
  {
    if steps == [] then 0
    else (if ResumesOn(s, steps[0], e) then 1 else 0) + ResumesIn(Apply(s, steps[0]), steps[1..], e)
  }

  ghost function NudgesIn(s: State, steps: seq<Step>, e: Eid): nat
    requires IsRun(s, steps)
    decreases |steps|
  {
    if steps == [] then 0
    else (if Nudges(s, steps[0], e) then 1 else 0) + NudgesIn(Apply(s, steps[0]), steps[1..], e)
  }

  predicate GivesBack(s: State, step: Step, e: Eid) {
    step.Checkin? && step.t in s.pcs && s.pcs[step.t] == Holding(e)
  }

  lemma NoHolderLeft(s: State, step: Step, e: Eid)
    requires Enabled(s, step) && GivesBack(s, step, e)
    ensures |Holders(Apply(s, step), e)| < |Holders(s, e)|
  {
    assert Holders(Apply(s, step), e) == Holders(s, e) - {step.t} && step.t in Holders(s, e);
  }

  /** Nobody else wakes the remover. */
  lemma AwakeSame(s: State, step: Step, e: Eid)
    requires ListOk(s) && Enabled(s, step) && Doomed(s, e)
    requires !ResumesOn(s, step, e) && !Nudges(s, step, e) && !GivesBack(s, step, e)
    ensures AwakeRemovers(Apply(s, step), e) <= AwakeRemovers(s, e)
  {
    match step
    case Add(t) =>
    case Acquire(t, f, use, signalled) => AwakeAcquire(s, t, f, use, signalled, e);
    case Checkin(t, signalled) =>
    case Remove(t, f) => AwakeRemove(s, step, f, e);
    case StartFlush(t) =>
    case Scan(t) => AwakeScan(s, step, e);
    case Resume(t, signalled) => AwakeResume(s, t, signalled, e);
    case Spurious(t) =>
    case Destroy(t) =>
  }

  lemma AwakeAcquire(s: State, t: Tid, f: Eid, use: Use, signalled: Option<Tid>, e: Eid)
    requires Enabled(s, Acquire(t, f, use, signalled)) && f != e
    ensures AwakeRemovers(Apply(s, Acquire(t, f, use, signalled)), e) <= AwakeRemovers(s, e)
  {
  }

  lemma AwakeRemove(s: State, step: Step, f: Eid, e: Eid)
    requires ListOk(s) && Enabled(s, step) && Doomed(s, e) && step == Remove(step.t, f)
    ensures AwakeRemovers(Apply(s, step), e) <= AwakeRemovers(s, e)
  {
  }

  lemma AwakeScan(s: State, step: Step, e: Eid)
    requires ListOk(s) && Enabled(s, step) && Doomed(s, e) && step.Scan?
    ensures AwakeRemovers(Apply(s, step), e) <= AwakeRemovers(s, e)
  {
  }

  lemma AwakeResume(s: State, t: Tid, signalled: Option<Tid>, e: Eid)
    requires Enabled(s, Resume(t, signalled)) && s.pcs[t].e != e
    ensures AwakeRemovers(Apply(s, Resume(t, signalled)), e) <= AwakeRemovers(s, e)
  {
  }

  /** A remover that resumes is not awake any more. */
  lemma RemoverSettles(s: State, step: Step, e: Eid)
    requires RemovalOk(s) && ResumesOn(s, step, e) && s.pcs[step.t].Removing?
    ensures |AwakeRemovers(Apply(s, step), e)| < |AwakeRemovers(s, e)|
  {
    var t := step.t;
    assert forall u | u in s.pcs && s.pcs[u].Removing? && s.pcs[u].e == e :: Removes(s.pcs[u], e) && u == t;
    assert AwakeRemovers(Apply(s, step), e) == {} && t in AwakeRemovers(s, e);
  }

  lemma SmallerSet(a: set<Tid>, b: set<Tid>)
    requires a <= b
    ensures |a| <= |b|
  {
    assert b == a + (b - a);
  }

  lemma LeftStep(s: State, step: Step, e: Eid)
    requires Inv(s) && Enabled(s, step) && Doomed(s, e)
    ensures LeftToResume(Apply(s, step), e) + (if ResumesOn(s, step, e) then 1 else 0)
      <= LeftToResume(s, e) + if Nudges(s, step, e) then 1 else 0
  {
    var s' := Apply(s, step);
    DoomedStep(s, step, e);
    SmallerSet(Holders(s', e), Holders(s, e));
    StepSafe(s, step);
    AwakeRemoversAtMostOne(s', e);
    if ResumesOn(s, step, e) {
      if s.pcs[step.t].Removing? {
        RemoverSettles(s, step, e);
      }
    } else if GivesBack(s, step, e) {
      NoHolderLeft(s, step, e);
    } else if !Nudges(s, step, e) {
      AwakeSame(s, step, e);
      SmallerSet(AwakeRemovers(s', e), AwakeRemovers(s, e));
    }
  }

  /** Along every run of all threads, the threads on the condvar of a condemned entry
      resume no more often than the waiters, the holder and the nudges account for. */
  lemma {:induction false} ResumesBounded(s: State, steps: seq<Step>, e: Eid)
    requires Inv(s) && IsRun(s, steps) && Doomed(s, e)
    ensures ResumesIn(s, steps, e) + LeftToResume(After(s, steps), e) <= LeftToResume(s, e) + NudgesIn(s, steps, e)
    decreases |steps|
  {
    if steps != [] {
      LeftStep(s, steps[0], e);
      DoomedStep(s, steps[0], e);
      StepKeepsInv(s, steps[0]);
      ResumesBounded(Apply(s, steps[0]), steps[1..], e);
    }
  }

  /** The remover r of e sleeps until the waiters, who are all awake, are gone. */
  ghost predicate LateWaiters(s: State, e: Eid, r: Tid, scope: Scope) {
    && Draining(s, e) && s.mutex == None
    && r in s.pcs && s.pcs[r] == Removing(e, true, scope) && r !in s.woken
    && Waiters(s, e) != {} && Waiters(s, e) <= s.woken
  }

  /** Nudges cannot be left out: while the woken waiters are late, a thread that finds
      the entry condemned wakes the remover, which goes back to sleep in the same state. */
  lemma NudgedInVain(s: State, e: Eid, t: Tid, r: Tid, scope: Scope)
    requires Inv(s) && LateWaiters(s, e, r, scope) && t in s.pcs && s.pcs[t].Idle?
    ensures var steps := [Acquire(t, e, Checkout, Some(r)), Resume(r, None)];
      IsRun(s, steps) && After(s, steps) == s && ResumesIn(s, steps, e) == 1
  {
    var visit, resume := Acquire(t, e, Checkout, Some(r)), Resume(r, None);
    var m := s.(woken := s.woken + {r});
    NudgedAwake(s, e, t, r, m);
    BackToSleep(s, e, r, m, scope);
    TwoSteps(s, [visit, resume], m, e);
  }

  lemma OneStep(s: State, steps: seq<Step>, e: Eid)
    requires |steps| == 1 && Enabled(s, steps[0])
    ensures IsRun(s, steps) && After(s, steps) == Apply(s, steps[0])
    ensures ResumesIn(s, steps, e) == if ResumesOn(s, steps[0], e) then 1 else 0
  {
    var rest := steps[1..];
    assert rest == [];
  }

  lemma TwoSteps(s: State, steps: seq<Step>, m: State, e: Eid)
    requires |steps| == 2 && Enabled(s, steps[0]) && Apply(s, steps[0]) == m && Enabled(m, steps[1])
    ensures IsRun(s, steps) && After(s, steps) == Apply(m, steps[1])
    ensures ResumesIn(s, steps, e)
      == (if ResumesOn(s, steps[0], e) then 1 else 0) + (if ResumesOn(m, steps[1], e) then 1 else 0)
  {
    OneStep(m, steps[1..], e);
  }

  lemma NudgedAwake(s: State, e: Eid, t: Tid, r: Tid, m: State)
    requires Draining(s, e) && s.mutex == None && t in s.pcs && s.pcs[t].Idle? && Blocked(s, r, e)
    requires m == s.(woken := s.woken + {r})
    ensures Enabled(s, Acquire(t, e, Checkout, Some(r))) && Apply(s, Acquire(t, e, Checkout, Some(r))) == m
  {
    assert s.pcs[t := Idle] == s.pcs;
  }

  lemma BackToSleep(s: State, e: Eid, r: Tid, m: State, scope: Scope)
    requires Inv(s) && LateWaiters(s, e, r, scope) && m == s.(woken := s.woken + {r})
    ensures Enabled(m, Resume(r, None)) && Apply(m, Resume(r, None)) == s
  {
    var others := set u | u in s.pcs && u != r && OnCondvar(s.pcs[u], e);
    forall u | u in others ensures u in Waiters(s, e) {
      assert s.pcs[u].Removing? ==> Removes(s.pcs[u], e) && Removes(s.pcs[r], e);
    }
    assert forall u | u in s.pcs && OnCondvar(s.pcs[u], e) :: u == r || u in others;
    assert s.pcs[r := Removing(e, true, scope)] == s.pcs;
    assert m.woken - {r} + others == s.woken;
  }

  /** Three threads and one entry. */
  function Scene(entry: Entry, a: Pc, b: Pc, c: Pc, woken: set<Tid>): State {
    State(map[0 := entry], [0], map[0 := a, 1 := b, 2 := c], woken, None, 1)
  }

  function Empty(): State {
    State(map[], [], map[0 := Idle, 1 := Idle, 2 := Idle], {}, None, 0)
  }

  /** Thread 0 holds the entry. */
  predicate CheckedOut(s: State) {
    s == Scene(Entry(true, 0, false), Holding(0), Idle, Idle, {})
  }

  /** Thread 1 waits for it, and thread 2 removes it. */
  predicate Condemned(s: State) {
    s == Scene(Entry(true, 1, true), Holding(0), Waiting(0, Checkout), Removing(0, false, One), {})
  }

  lemma {:induction false} RunAppend(s: State, a: seq<Step>, b: seq<Step>)
    requires IsRun(s, a) && IsRun(After(s, a), b)
    ensures IsRun(s, a + b) && After(s, a + b) == After(After(s, a), b)
    decreases |a|
  {
    if a == [] {
      assert a + b == b;
    } else {
      assert (a + b)[1..] == a[1..] + b;
      RunAppend(Apply(s, a[0]), a[1..], b);
    }
  }

  lemma FirstScene() returns (steps: seq<Step>)
    ensures IsRun(Empty(), steps) && CheckedOut(After(Empty(), steps))
  {
    steps := [Add(0), Acquire(0, 0, Checkout, None)];
    TwoSteps(Empty(), steps, Scene(Entry(false, 0, false), Idle, Idle, Idle, {}), 0);
  }

  lemma SecondScene(s: State) returns (steps: seq<Step>)
    requires CheckedOut(s)
    ensures IsRun(s, steps) && Condemned(After(s, steps))
  {
    steps := [Acquire(1, 0, Checkout, None), Remove(2, 0)];
    TwoSteps(s, steps, Scene(Entry(true, 1, false), Holding(0), Waiting(0, Checkout), Idle, {}), 0);
  }

  lemma ThirdScene(s: State) returns (steps: seq<Step>)
    requires Condemned(s)
    ensures IsRun(s, steps)
    ensures var s' := After(s, steps); LateWaiters(s', 0, 2, One) && 0 in s'.pcs && s'.pcs[0].Idle?
  {
    steps := [Checkin(0, Some(2)), Resume(2, Some(1))];
    var m := Scene(Entry(false, 1, true), Idle, Waiting(0, Checkout), Removing(0, false, One), {2});
    TwoSteps(s, steps, m, 0);
    assert 1 in Waiters(After(s, steps), 0);
  }

  /** Such a state is reached: here thread 0 can wake the remover, thread 2, in vain. */
  lemma LateWaitersHappen() returns (steps: seq<Step>)
    ensures Init(Empty()) && IsRun(Empty(), steps)
    ensures var s := After(Empty(), steps); LateWaiters(s, 0, 2, One) && 0 in s.pcs && s.pcs[0].Idle?
  {
    var first := FirstScene();
    var second := SecondScene(After(Empty(), first));
    RunAppend(Empty(), first, second);
    var third := ThirdScene(After(Empty(), first + second));
    RunAppend(Empty(), first + second, third);
    steps := first + second + third;
  }

  // ----- a flush covers the list

  /** All entries in `front` that are older than `bound` await deletion. */
  predicate Covered(s: State, front: seq<Eid>, bound: nat) {
    bound <= s.nextId && forall f | f in front && f < bound && f in s.entries :: s.entries[f].awaitsDeletion
  }

  /** A flush leaves behind only entries that are new or that somebody removes. */
  ghost predicate FlushOk(s: State) {
    forall t | t in s.pcs ::
      && (s.pcs[t].Scanning? ==> s.pcs[t].at <= |s.sas| && Covered(s, s.sas[..s.pcs[t].at], s.pcs[t].bound))
      && (s.pcs[t].Removing? && s.pcs[t].scope.Flush? ==>
            s.pcs[t].e in s.sas && Covered(s, s.sas[..IndexOf(s.sas, s.pcs[t].e)], s.pcs[t].scope.bound))
  }

  /** In l', nothing older than n precedes an element that did not precede it in l. */
  ghost predicate KeepsOrder(l: seq<Eid>, l': seq<Eid>, n: nat) {
    forall e, g | e in l && e in l' && g in l'[..IndexOf(l', e)] && g < n :: g in l[..IndexOf(l, e)]
  }

  lemma WithoutKeepsOrder(l: seq<Eid>, f: Eid, n: nat)
    requires f in l && forall i, j :: 0 <= i < j < |l| ==> l[i] != l[j]
    ensures KeepsOrder(l, Without(l, f), n)
  {
    var l', i := Without(l, f), IndexOf(l, f);
    forall e, g | e in l' && g in l'[..IndexOf(l', e)]
      ensures g in l[..IndexOf(l, e)]
    {
      var k := IndexOf(l', e);
      var j :| 0 <= j < k && l'[j] == g;
      var k', j' := if k < i then k else k + 1, if j < i then j else j + 1;
      assert l[k'] == e && l[j'] == g && j' < k';
      assert IndexOf(l, e) == k';
      assert l[..k'][j'] == g;
    }
  }

  lemma PrependKeepsOrder(l: seq<Eid>, n: nat)
    requires n !in l
    ensures KeepsOrder(l, [n] + l, n)
  {
    var l' := [n] + l;
    forall e, g | e in l && g in l'[..IndexOf(l', e)] && g < n
      ensures g in l[..IndexOf(l, e)]
    {
      assert l'[1..] == l;
      assert IndexOf(l', e) == 1 + IndexOf(l, e);
      assert l'[..IndexOf(l', e)] == [n] + l[..IndexOf(l, e)];
    }
  }

  /** A thread that does not move stays covered while others add and remove. */
  lemma FlushFrame(s: State, s': State, u: Tid)
    requires FlushOk(s) && u in s.pcs && u in s'.pcs && s'.pcs[u] == s.pcs[u]
    requires s.nextId <= s'.nextId && KeepsOrder(s.sas, s'.sas, s.nextId)
    requires forall f | f in s'.entries && f < s.nextId ::
               f in s.entries && (s.entries[f].awaitsDeletion ==> s'.entries[f].awaitsDeletion)
    requires s.pcs[u].Scanning? ==> s'.sas == s.sas
    requires s.pcs[u].Removing? ==> s.pcs[u].e in s.sas && s.pcs[u].e in s'.sas
    ensures s'.pcs[u].Scanning? ==> s'.pcs[u].at <= |s'.sas| && Covered(s', s'.sas[..s'.pcs[u].at], s'.pcs[u].bound)
    ensures s'.pcs[u].Removing? && s'.pcs[u].scope.Flush? ==>
      Covered(s', s'.sas[..IndexOf(s'.sas, s'.pcs[u].e)], s'.pcs[u].scope.bound)
  {
  }

  lemma AllOthersFramed(s: State, s': State, t: Tid)
    requires Safe(s) && Safe(s') && FlushOk(s) && t in s.pcs && t in s'.pcs && s'.pcs == s.pcs[t := s'.pcs[t]]
    requires s.nextId <= s'.nextId && KeepsOrder(s.sas, s'.sas, s.nextId)
    requires forall f | f in s'.entries && f < s.nextId ::
               f in s.entries && (s.entries[f].awaitsDeletion ==> s'.entries[f].awaitsDeletion)
    requires (s.mutex == None || s.mutex == Some(t)) || s'.sas == s.sas
    requires var pc := s'.pcs[t];
      && (pc.Scanning? ==> pc.at <= |s'.sas| && Covered(s', s'.sas[..pc.at], pc.bound))
      && (pc.Removing? && pc.scope.Flush? ==>
            pc.e in s'.sas && Covered(s', s'.sas[..IndexOf(s'.sas, pc.e)], pc.scope.bound))
    ensures FlushOk(s')
  {
    forall u | u in s'.pcs && u != t
      ensures s'.pcs[u].Scanning? ==> s'.pcs[u].at <= |s'.sas| && Covered(s', s'.sas[..s'.pcs[u].at], s'.pcs[u].bound)
      ensures s'.pcs[u].Removing? && s'.pcs[u].scope.Flush? ==>
        s'.pcs[u].e in s'.sas && Covered(s', s'.sas[..IndexOf(s'.sas, s'.pcs[u].e)], s'.pcs[u].scope.bound)
    {
      if s.pcs[u].Removing? {
        assert Uses(s.pcs[u], s.pcs[u].e) && Uses(s'.pcs[u], s'.pcs[u].e);
      }
      FlushFrame(s, s', u);
    }
  }

  lemma TryRemoveFlush(s: State, t: Tid, e: Eid, draining: bool, scope: Scope)
    requires Safe(s) && FlushOk(s) && t in s.pcs && s.pcs[t] == Removing(e, draining, scope)
    requires e in s.sas && e in s.entries && t !in s.woken && s.mutex == None
    ensures FlushOk(TryRemove(s, t, e, draining, scope))
  {
    TryRemoveSafe(s, t, e, draining, scope);
    WithoutKeepsOrder(s.sas, e, s.nextId);
    var s', i := TryRemove(s, t, e, draining, scope), IndexOf(s.sas, e);
    assert Without(s.sas, e)[..i] == s.sas[..i];
    TryRemoveKeeps(s, t, e, draining, scope);
    AllOthersFramed(s, s', t);
  }

  lemma TryRemoveKeeps(s: State, t: Tid, e: Eid, draining: bool, scope: Scope)
    requires t in s.pcs && e in s.sas && e in s.entries
    ensures var s' := TryRemove(s, t, e, draining, scope);
      && s'.nextId == s.nextId && s'.pcs == s.pcs[t := s'.pcs[t]]
      && (forall f | f in s'.entries :: f in s.entries && s'.entries[f] == s.entries[f])
      && (s'.sas == s.sas || s'.sas == Without(s.sas, e))
      && match s'.pcs[t]
         case Removing(f, _, sc) => f == e && sc == scope && s'.sas == s.sas
         case Scanning(at, bound) => at == IndexOf(s.sas, e) && scope == Flush(bound) && s'.sas == Without(s.sas, e)
         case Destroying(f) => f == e
         case _ => false
  {
  }

  lemma CondemnFlush(s: State, t: Tid, e: Eid, scope: Scope)
    requires FlushOk(s) && t in s.pcs && e in s.sas && e in s.entries
    requires scope.Flush? ==> Covered(s, s.sas[..IndexOf(s.sas, e)], scope.bound)
    ensures FlushOk(Condemn(s, t, e, scope))
  {
  }

  lemma RemoveFlush(s: State, t: Tid, e: Eid, scope: Scope)
    requires Safe(s) && FlushOk(s) && t in s.pcs && e in s.sas && e in s.entries && !s.entries[e].awaitsDeletion
    requires (s.pcs[t].Idle? && s.mutex == None) || s.pcs[t].Scanning?
    requires scope.Flush? ==> Covered(s, s.sas[..IndexOf(s.sas, e)], scope.bound)
    ensures FlushOk(BeginRemove(s, t, e, scope))
  {
    CondemnFlush(s, t, e, scope);
    CondemnSafe(s, t, e, scope);
    TryRemoveFlush(Condemn(s, t, e, scope), t, e, false, scope);
  }

  /** Steps that leave the list alone and are not themselves part of a flush. */
  lemma QuietFlush(s: State, s': State, t: Tid)
    requires FlushOk(s) && t in s.pcs && t in s'.pcs && s'.pcs == s.pcs[t := s'.pcs[t]]
    requires s'.sas == s.sas && s'.nextId == s.nextId && s'.entries.Keys <= s.entries.Keys
    requires forall f | f in s'.entries :: s.entries[f].awaitsDeletion ==> s'.entries[f].awaitsDeletion
    requires s'.pcs[t].Scanning? ==> Covered(s, s.sas[..0], s'.pcs[t].bound) && s'.pcs[t].at == 0
    requires !(s'.pcs[t].Removing? && s'.pcs[t].scope.Flush?)
    ensures FlushOk(s')
  {
  }

  lemma WaiterFlush(s: State, t: Tid, signalled: Option<Tid>)
    requires FlushOk(s) && Enabled(s, Resume(t, signalled)) && s.pcs[t].Waiting?
    ensures FlushOk(Apply(s, Resume(t, signalled)))
  {
    QuietFlush(s, Apply(s, Resume(t, signalled)), t);
  }

  lemma RemoverFlush(s: State, t: Tid, signalled: Option<Tid>)
    requires Safe(s) && FlushOk(s) && Enabled(s, Resume(t, signalled)) && s.pcs[t].Removing?
    ensures FlushOk(Apply(s, Resume(t, signalled)))
  {
    var pc, m := s.pcs[t], s.(woken := s.woken - {t});
    WokenSafe(s, m);
    WokenFlush(s, m);
    TryRemoveFlush(m, t, pc.e, pc.draining, pc.scope);
  }

  lemma WokenFlush(s: State, s': State)
    requires FlushOk(s) && s' == s.(woken := s'.woken)
    ensures FlushOk(s')
  {
  }

  lemma ScanFlush(s: State, t: Tid)
    requires Safe(s) && FlushOk(s) && Enabled(s, Scan(t))
    ensures FlushOk(Apply(s, Scan(t)))
  {
    var at, bound := s.pcs[t].at, s.pcs[t].bound;
    if at >= |s.sas| {
      QuietFlush(s, Apply(s, Scan(t)), t);
    } else if s.entries[s.sas[at]].awaitsDeletion {
      SkipFlush(s, t);
    } else {
      assert IndexOf(s.sas, s.sas[at]) == at;
      RemoveFlush(s, t, s.sas[at], Flush(bound));
    }
  }

  lemma SkipFlush(s: State, t: Tid)
    requires FlushOk(s) && Enabled(s, Scan(t)) && s.pcs[t].at < |s.sas|
    requires s.entries[s.sas[s.pcs[t].at]].awaitsDeletion
    ensures FlushOk(Apply(s, Scan(t)))
  {
    var at, s' := s.pcs[t].at, Apply(s, Scan(t));
    assert s.sas[..at + 1] == s.sas[..at] + [s.sas[at]];
    assert Covered(s', s'.sas[..at + 1], s.pcs[t].bound);
  }

  lemma QuietSteps(s: State, step: Step)
    requires FlushOk(s) && Enabled(s, step)
    requires step.Acquire? || step.Checkin? || step.StartFlush? || step.Destroy?
    ensures FlushOk(Apply(s, step))
  {
    QuietFlush(s, Apply(s, step), step.t);
  }

  lemma FlushStep(s: State, step: Step)
    requires Safe(s) && FlushOk(s) && Enabled(s, step)
    ensures FlushOk(Apply(s, step))
  {
    match step
    case Add(t) => AddFlush(s, t);
    case Remove(t, e) => if !s.entries[e].awaitsDeletion { RemoveFlush(s, t, e, One); }
    case Scan(t) => ScanFlush(s, t);
    case Resume(t, signalled) =>
      if s.pcs[t].Waiting? { WaiterFlush(s, t, signalled); } else { RemoverFlush(s, t, signalled); }
    case Spurious(t) =>
    case _ => QuietSteps(s, step);
  }

  lemma AddFlush(s: State, t: Tid)
    requires Safe(s) && FlushOk(s) && Enabled(s, Add(t))
    ensures FlushOk(Apply(s, Add(t)))
  {
    AddSafe(s, t);
    assert s.nextId !in s.sas;
    PrependKeepsOrder(s.sas, s.nextId);
    var s' := Apply(s, Add(t));
    assert s'.pcs == s.pcs[t := s'.pcs[t]];
    AllOthersFramed(s, s', t);
  }

  lemma {:induction false} RunKeepsFlushOk(s: State, steps: seq<Step>)
    requires Inv(s) && FlushOk(s) && IsRun(s, steps)
    ensures FlushOk(After(s, steps))
    decreases |steps|
  {
    if steps != [] {
      StepKeepsInv(s, steps[0]);
      FlushStep(s, steps[0]);
      RunKeepsFlushOk(Apply(s, steps[0]), steps[1..]);
    }
  }

  /** When a flush ends, every entry that existed when it began has left the list or
      is being removed by another thread, whatever happened in between. */
  lemma FlushCoversList(s: State, steps: seq<Step>, t: Tid, e: Eid)
    requires Init(s) && IsRun(s, steps)
    requires var s' := After(s, steps); Enabled(s', Scan(t)) && Apply(s', Scan(t)).pcs[t].Idle?
    requires e < After(s, steps).pcs[t].bound && e in After(s, steps).sas
    ensures var s' := After(s, steps);
      e in s'.entries && s'.entries[e].awaitsDeletion && exists r :: r != t && r in s'.pcs && Removes(s'.pcs[r], e)
  {
    InitInv(s);
    RunKeepsInv(s, steps);
    RunKeepsFlushOk(s, steps);
    ScannedAll(After(s, steps), t, e);
  }

  lemma ScannedAll(s: State, t: Tid, e: Eid)
    requires ListOk(s) && RemovalOk(s) && FlushOk(s)
    requires Enabled(s, Scan(t)) && Apply(s, Scan(t)).pcs[t].Idle? && e < s.pcs[t].bound && e in s.sas
    ensures e in s.entries && s.entries[e].awaitsDeletion && exists r :: r != t && r in s.pcs && Removes(s.pcs[r], e)
  {
    assert s.sas[..s.pcs[t].at] == s.sas;
    var r :| r in s.pcs && Removes(s.pcs[r], e);
    assert r != t;
  }
}
