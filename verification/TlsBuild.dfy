/** The sending half of the TLS record layer, and what the receiving half makes of it. */
module TlsBuild {
  import opened Bytes
  import opened TlsRecord

  const TLS_1_2: nat := 0x0303
  const TLS_1_3: nat := 0x0304

  /** TLS 1.3 announces itself as TLS 1.2 in the record header. */
  function RecordVersion(versionMax: nat): nat {
    if versionMax < TLS_1_3 then versionMax else TLS_1_2
  }

  /** One record on the wire: type, version, 16 bits of length, body. */
  function FrameOne(r: Record, versionMax: nat): seq<byte> {
    [r.contentType] + FromU16(RecordVersion(versionMax)) + FromU16(|r.body|) + r.body
  }

  function Frame(rs: seq<Record>, versionMax: nat): seq<byte> {
    if rs == [] then [] else FrameOne(rs[0], versionMax) + Frame(rs[1..], versionMax)
  }

  /** Parsing framed records gives the records back, with nothing left over. */
  lemma {:induction false} FrameRoundTrip(rs: seq<Record>, v: nat)
    requires forall r | r in rs :: |r.body| < 0x1_0000
    ensures Records(Frame(rs, v)) == rs && Tail(Frame(rs, v)) == []
  {
    if rs != [] {
      var one, rest := FrameOne(rs[0], v), Frame(rs[1..], v);
      assert |one| == HEADER_LEN + |rs[0].body| && rs[0] in rs;
      var s := one + rest;
      assert s[0] == rs[0].contentType && [s[3], s[4]] == FromU16(|rs[0].body|);
      assert s[HEADER_LEN..RecordLen(s)] == rs[0].body && s[RecordLen(s)..] == rest;
      FrameRoundTrip(rs[1..], v);
    }
  }

  /** Type, version, length and body, numbers in network order; TLS 1.3 is announced
      as TLS 1.2. */
  lemma FrameBytes(r: Record, version: nat)
    requires version < 0x1_0000 && |r.body| < 0x1_0000
    ensures var s := Frame([r], version);
      && |s| == 5 + |r.body| && s[0] == r.contentType && s[5..] == r.body && U16(s[3], s[4]) == |r.body|
      && U16(s[1], s[2]) == if version >= 0x0304 then 0x0303 else version
  {
    assert Frame([r], version) == FrameOne(r, version) + Frame([], version);
    var s, v, n := FrameOne(r, version), FromU16(RecordVersion(version)), FromU16(|r.body|);
    assert s == [r.contentType] + v + n + r.body && s[1..3] == v && s[3..5] == n;
  }

  class Sender {
    const versionMax: nat
    /** What the protection layer will hand out, and how it answers after that. */
    var queue: seq<Record>
    const emptyStatus: Status
    var output: seq<byte>
    var outpos: nat

    predicate Valid()
      reads this
    {
      outpos <= |output| && (output != [] ==> outpos < |output|) && emptyStatus != NeedMore
    }

    /** The bytes a call draws from: those left over, or else all queued records. */
    function Unsent(): seq<byte>
      requires Valid()
      reads this
    {
      if output == [] then Frame(queue, versionMax) else output[outpos..]
    }

    constructor (versionMax: nat, queue: seq<Record>, emptyStatus: Status)
      requires emptyStatus != NeedMore
      ensures Valid() && output == [] && this.queue == queue
      ensures this.versionMax == versionMax && this.emptyStatus == emptyStatus
    {
      this.versionMax, this.queue, this.emptyStatus := versionMax, queue, emptyStatus;
      output, outpos := [], 0;
    }

    /** Frames everything the protection layer has to send. */
    method Refill()
      requires Valid() && output == []
      modifies this`queue, this`output
      ensures queue == [] && output == Frame(old(queue), versionMax)
    {
      while queue != []
        invariant output + Frame(queue, versionMax) == Frame(old(queue), versionMax)
        decreases |queue|
      {
        var record := queue[0];
        queue := queue[1..];
        Assoc(output, FrameOne(record, versionMax), Frame(queue, versionMax));
        output := output + FrameOne(record, versionMax);
      }
    }

    /** Writes up to `size` bytes.  Each call continues where the last one stopped,
        the first one announces the total length, the last one is ALREADY_DONE. */
    method Build(size: nat) returns (status: Status, fragment: seq<byte>, msglen: nat)
      requires Valid()
      modifies this`queue, this`output, this`outpos
      ensures Valid()
      ensures old(output) == [] && (emptyStatus != InvalidState || old(queue) == []) ==>
        status == emptyStatus && fragment == [] && msglen == 0 && queue == []
        && output == Frame(old(queue), versionMax) && outpos == 0
      ensures old(output) != [] || (emptyStatus == InvalidState && old(queue) != []) ==>
        && fragment == old(Unsent())[..if size < |old(Unsent())| then size else |old(Unsent())|]
        && (if |fragment| == |old(Unsent())| then status == AlreadyDone && output == []
            else status == NeedMore && output != [] && Unsent() == old(Unsent())[|fragment|..])
        && msglen == (if old(output) == [] then |old(Unsent())| else 0)
        && queue == (if old(output) == [] then [] else old(queue))
    {
      fragment, msglen := [], 0;
      if output == [] {
        outpos := 0;
        Refill();
        if emptyStatus != InvalidState {
          return emptyStatus, fragment, msglen;
        }
        if output == [] {
          FrameNonEmpty(old(queue), versionMax);
          return InvalidState, fragment, msglen;
        }
        msglen := |output|;
      }
      var len := if size < |output| - outpos then size else |output| - outpos;
      fragment := output[outpos..outpos + len];
      outpos := outpos + len;
      if outpos == |output| {
        output, outpos := [], 0;
        status := AlreadyDone;
      } else {
        status := NeedMore;
      }
    }

    /** There is something to send. */
    predicate Active()
      reads this
    {
      Valid() && (output != [] || (emptyStatus == InvalidState && queue != []))
    }

    /** One call with something to send: a fragment of it, and the rest stays. */
    method BuildSome(size: nat, ghost before: seq<byte>, ghost all: seq<byte>)
        returns (status: Status, fragment: seq<byte>, msglen: nat)
      requires Active() && size > 0 && before + Unsent() == all
      modifies this`queue, this`output, this`outpos
      ensures Valid() && 0 < |fragment| <= size && msglen == if old(output) == [] then |old(Unsent())| else 0
      ensures status == AlreadyDone || status == NeedMore
      ensures status == AlreadyDone ==> before + fragment == all
      ensures status == NeedMore ==> output != [] && Active() && (before + fragment) + Unsent() == all
    {
      ghost var unsent := Unsent();
      FrameNonEmpty(queue, versionMax);
      status, fragment, msglen := Build(size);
      assert unsent == fragment + unsent[|fragment|..];
      Assoc(before, fragment, unsent[|fragment|..]);
    }

    /** Calls Build with the given buffer sizes until it is done. */
    method BuildAll(sizes: seq<nat>) returns (status: Status, fragments: seq<seq<byte>>, msglens: seq<nat>)
      requires Valid() && output == [] && queue != [] && emptyStatus == InvalidState
      requires sizes != [] && forall i | 0 <= i < |sizes| :: sizes[i] > 0
      modifies this
      ensures 0 < |fragments| == |msglens| <= |sizes|
      ensures status == AlreadyDone || (status == NeedMore && |fragments| == |sizes|)
      ensures forall i | 0 <= i < |fragments| :: 0 < |fragments[i]| <= sizes[i]
      ensures var all := Frame(old(queue), versionMax);
        && msglens[0] == |all| && (forall i | 0 < i < |msglens| :: msglens[i] == 0)
        && Flat(fragments) <= all && (status == AlreadyDone <==> Flat(fragments) == all)
    {
      ghost var all := Frame(queue, versionMax);
      var fragment, msglen;
      status, fragment, msglen := BuildSome(sizes[0], [], all);
      fragments, msglens := [fragment], [msglen];
      FlattenOne(Itself, fragment);
      assert [] + fragment == fragment;
      while |fragments| < |sizes| && status == NeedMore
        invariant 0 < |fragments| == |msglens| <= |sizes| && Valid()
        invariant msglens[0] == |all| && (forall i | 0 < i < |msglens| :: msglens[i] == 0)
        invariant forall i | 0 <= i < |fragments| :: 0 < |fragments[i]| <= sizes[i]
        invariant status == AlreadyDone ==> Flat(fragments) == all
        invariant status != AlreadyDone ==>
          status == NeedMore && output != [] && Active() && Flat(fragments) + Unsent() == all
        decreases |sizes| - |fragments|
      {
        status, fragment, msglen := BuildSome(sizes[|fragments|], Flat(fragments), all);
        FlatMore(fragments, fragment);
        fragments, msglens := fragments + [fragment], msglens + [msglen];
      }
      assert status == NeedMore ==> Unsent() != [];
    }
  }

  lemma FrameNonEmpty(rs: seq<Record>, v: nat)
    ensures Frame(rs, v) == [] <==> rs == []
  {
  }

  /** What a new receiver hands on of framed records. */
  predicate Transferred(rs: seq<Record>, judge: Judge, delivered: seq<Record>, pending: seq<byte>, status: Status) {
    && (status != NeedMore ==> Outcome(judge, [], rs) == (delivered, status))
    && (status == NeedMore && (rs == [] || rs[|rs| - 1].body != []) ==>
          delivered == rs && pending == [] && Outcome(judge, [], rs) == (rs, NeedMore))
    && (status == NeedMore && delivered != rs ==>
          rs != [] && rs[|rs| - 1].body == [] && delivered == rs[..|rs| - 1] && |pending| == HEADER_LEN)
  }

  lemma TransferTheorem(rs: seq<Record>, v: nat, judge: Judge, delivered: seq<Record>, pending: seq<byte>,
                        status: Status)
    requires forall r | r in rs :: |r.body| < 0x1_0000
    requires if status == NeedMore then Handed(judge, [], Frame(rs, v), delivered, pending)
             else Stopped(judge, [], Frame(rs, v), delivered, status)
    requires HasRecord(pending) ==> |pending| == HEADER_LEN
    ensures Transferred(rs, judge, delivered, pending, status)
  {
    FrameRoundTrip(rs, v);
    ChunkingTheorem(judge, [], Frame(rs, v), delivered, pending, status);
    assert [] + Records(Frame(rs, v)) == rs;
    if status == NeedMore {
      assert delivered + Records(pending) == rs;
      if HasRecord(pending) {
        LateRecord(rs, delivered, pending);
      }
    }
  }

  /** A stream cut into chunks of the given sizes, and the rest. */
  function CutUp(s: seq<byte>, sizes: seq<nat>): (chunks: seq<seq<byte>>)
    ensures Flat(chunks) == s
    decreases |sizes|
  {
    if sizes == [] || sizes[0] >= |s| then
      FlattenOne(Itself, s);
      [s]
    else
      var rest := CutUp(s[sizes[0]..], sizes[1..]);
      FlattenAppend(Itself, [s[..sizes[0]]], rest);
      FlattenOne(Itself, s[..sizes[0]]);
      [s[..sizes[0]]] + rest
  }

  /** From one peer to the other: however the framed records are cut for the buffers of
      the sender, and however the bytes are cut again for the receiver, the receiver
      hands on the records that were queued. */
  method Transfer(sender: Sender, sizes: seq<nat>, receiver: Tls, cuts: seq<nat>) returns (sent: Status, status: Status)
    requires sender.Valid() && sender.output == [] && sender.queue != [] && sender.emptyStatus == InvalidState
    requires sizes != [] && forall i | 0 <= i < |sizes| :: sizes[i] > 0
    requires forall r | r in sender.queue :: |r.body| < 0x1_0000
    requires receiver.Valid() && receiver.Pending() == [] && receiver.delivered == []
    modifies sender, receiver, receiver.input, receiver.head
    ensures receiver.Valid()
    ensures sent == AlreadyDone ==>
      Transferred(old(sender.queue), receiver.judge, receiver.delivered, receiver.Pending(), status)
  {
    ghost var rs := sender.queue;
    var fragments, msglens;
    sent, fragments, msglens := sender.BuildAll(sizes);
    status := NeedMore;
    if sent == AlreadyDone {
      var chunks := CutUp(Flat(fragments), cuts);
      status := receiver.ProcessAll(chunks);
      assert [] + Flat(chunks) == Frame(rs, sender.versionMax);
      TransferTheorem(rs, sender.versionMax, receiver.judge, receiver.delivered, receiver.Pending(), status);
    }
  }

  /** A complete record left in the header buffer has no body. */
  lemma LateRecord(rs: seq<Record>, delivered: seq<Record>, pending: seq<byte>)
    requires HasRecord(pending) && |pending| == HEADER_LEN && delivered + Records(pending) == rs
    ensures rs != [] && rs[|rs| - 1].body == [] && delivered == rs[..|rs| - 1]
  {
    assert pending[HEADER_LEN..] == [];
    assert Records(pending) == [Record(pending[0], [])];
    assert rs[|rs| - 1] == Record(pending[0], []);
  }
}
