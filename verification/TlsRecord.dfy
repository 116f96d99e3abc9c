/** The TLS record layer: reassembling records from arbitrary chunks and cutting
    queued records to any output size. */
module TlsRecord {
  import opened Bytes

  datatype Status = NeedMore | AlreadyDone | InvalidState | Other(code: int)

  datatype Record = Record(contentType: byte, body: seq<byte>)

  // ----- one parse of a whole byte stream

  const HEADER_LEN: nat := 5

  function RecordLen(s: seq<byte>): nat
    requires |s| >= HEADER_LEN
  {
    HEADER_LEN + U16(s[3], s[4])
  }

  predicate HasRecord(s: seq<byte>) {
    |s| >= HEADER_LEN && |s| >= RecordLen(s)
  }

  function FirstRecord(s: seq<byte>): Record
    requires HasRecord(s)
  {
    Record(s[0], s[HEADER_LEN..RecordLen(s)])
  }

  /** The complete records at the front of a stream. */
  function Records(s: seq<byte>): seq<Record>
    decreases |s|
  {
    if HasRecord(s) then [FirstRecord(s)] + Records(s[RecordLen(s)..]) else []
  }

  /** What is left of a stream after its complete records. */
  function Tail(s: seq<byte>): seq<byte>
    decreases |s|
  {
    if HasRecord(s) then Tail(s[RecordLen(s)..]) else s
  }

  /** The protection layer sees a record together with everything before it. */
  type Judge = seq<Record> -> Status

  /** The protection layer asked for more after each of the last `|h| - from` records. */
  predicate AllNeedMore(judge: Judge, h: seq<Record>, from: nat) {
    forall k | from < k <= |h| :: judge(h[..k]) == NeedMore
  }

  /** Between histories h and h' the records at the front of s were handed on, and
      s' is what remains. */
  ghost predicate Handed(judge: Judge, h: seq<Record>, s: seq<byte>, h': seq<Record>, s': seq<byte>) {
    && h <= h' && AllNeedMore(judge, h', |h|)
    && h + Records(s) == h' + Records(s') && Tail(s) == Tail(s')
  }

  /** The protection layer stopped the stream at the last record of h'. */
  ghost predicate Stopped(judge: Judge, h: seq<Record>, s: seq<byte>, h': seq<Record>, status: Status) {
    && status != NeedMore && h < h' && AllNeedMore(judge, h'[..|h'| - 1], |h|)
    && judge(h') == status && h' <= h + Records(s)
  }

  lemma HandedThenHanded(judge: Judge, h: seq<Record>, s: seq<byte>, h1: seq<Record>, s1: seq<byte>,
                         h2: seq<Record>, s2: seq<byte>)
    requires Handed(judge, h, s, h1, s1) && Handed(judge, h1, s1, h2, s2)
    ensures Handed(judge, h, s, h2, s2)
  {
    assert forall k | 0 <= k <= |h1| :: h2[..k] == h1[..k];
  }

  lemma HandedThenStopped(judge: Judge, h: seq<Record>, s: seq<byte>, h1: seq<Record>, s1: seq<byte>,
                          h2: seq<Record>, status: Status)
    requires Handed(judge, h, s, h1, s1) && Stopped(judge, h1, s1, h2, status)
    ensures Stopped(judge, h, s, h2, status)
  {
    var front := h2[..|h2| - 1];
    assert forall k | 0 <= k <= |h1| :: front[..k] == h1[..k];
  }

  lemma OneRecord(judge: Judge, h: seq<Record>, s: seq<byte>)
    requires HasRecord(s)
    ensures var h', s' := h + [FirstRecord(s)], s[RecordLen(s)..];
      if judge(h') == NeedMore then Handed(judge, h, s, h', s') else Stopped(judge, h, s, h', judge(h'))
  {
    var r, s' := FirstRecord(s), s[RecordLen(s)..];
    var h' := h + [r];
    assert Records(s) == [r] + Records(s') && Tail(s) == Tail(s');
    assert h + ([r] + Records(s')) == h' + Records(s');
    assert h'[..|h'|] == h' && h'[..|h'| - 1] == h;
  }

  /** The call ends exactly where the header of an empty record does, and the header
      began in an earlier call: such a record waits for the next call. */
  predicate EndsInHeader(pending: seq<byte>, buf: seq<byte>) {
    if buf == [] then HasRecord(pending)
    else 0 < |pending| < HEADER_LEN && |pending + buf| == HEADER_LEN && HasRecord(pending + buf)
  }

  class Tls {
    const judge: Judge
    var input: array<byte>
    var inpos: nat
    var head: array<byte>
    var headpos: nat
    /** The records handed to the protection layer so far. */
    var delivered: seq<Record>

    /** A buffered record has its header, and is incomplete unless it is empty. */
    ghost predicate Valid()
      reads this, input, head
    {
      && head.Length == HEADER_LEN && headpos < HEADER_LEN && input != head
      && (input.Length == 0 ==> inpos == 0)
      && (input.Length > 0 ==>
            && headpos == 0 && HEADER_LEN <= inpos <= input.Length
            && input.Length == HEADER_LEN + U16(input[3], input[4])
            && (inpos == input.Length ==> inpos == HEADER_LEN))
    }

    /** The bytes received and not yet handed on. */
    ghost function Pending(): seq<byte>
      requires Valid()
      reads this, input, head
    {
      head[..headpos] + input[..inpos]
    }

    constructor (judge: Judge)
      ensures Valid() && fresh(input) && fresh(head)
      ensures this.judge == judge && Pending() == [] && delivered == []
    {
      this.judge := judge;
      input, inpos := new byte[0], 0;
      head, headpos := new byte[HEADER_LEN], 0;
      delivered := [];
    }

    /** Hands the record at the front of `rest` to the protection layer. */
    method Deliver(contentType: byte, body: seq<byte>, ghost rest: seq<byte>) returns (status: Status)
      requires HasRecord(rest) && FirstRecord(rest) == Record(contentType, body)
      modifies this`delivered
      ensures if status == NeedMore then Handed(judge, old(delivered), rest, delivered, rest[RecordLen(rest)..])
              else Stopped(judge, old(delivered), rest, delivered, status)
    {
      OneRecord(judge, delivered, rest);
      delivered := delivered + [Record(contentType, body)];
      status := judge(delivered);
    }

    /** Completes a partial header with the front of buf, as far as buf goes. */
    method FillHeader(buf: seq<byte>) returns (i: nat)
      requires Valid() && headpos > 0
      modifies this`input, this`inpos, this`headpos, head
      ensures Valid() && (input == old(input) || fresh(input))
      ensures i <= |buf| && Pending() + buf[i..] == old(Pending()) + buf
      ensures i < |buf| ==> headpos == 0
    {
      ghost var stream := Pending() + buf;
      i := if |buf| < HEADER_LEN - headpos then |buf| else HEADER_LEN - headpos;
      forall k | 0 <= k < i { head[headpos + k] := buf[k]; }
      headpos := headpos + i;
      assert head[..headpos] + buf[i..] == stream;
      if headpos == HEADER_LEN {
        input := new byte[U16(head[3], head[4]) + HEADER_LEN];
        forall k | 0 <= k < HEADER_LEN { input[k] := head[k]; }
        assert input[..HEADER_LEN] == head[..];
        inpos, headpos := HEADER_LEN, 0;
      }
    }

    /** Handles the records that lie completely in buf. */
    method Inline(buf: seq<byte>, start: nat) returns (i: nat, status: Status)
      requires start < |buf|
      modifies this`delivered
      ensures start <= i <= |buf|
      ensures if status == NeedMore then
                Handed(judge, old(delivered), buf[start..], delivered, buf[i..]) && !HasRecord(buf[i..])
              else Stopped(judge, old(delivered), buf[start..], delivered, status)
    {
      i, status := start, NeedMore;
      while |buf| - i >= HEADER_LEN
        invariant start <= i < |buf| && status == NeedMore
        invariant Handed(judge, old(delivered), buf[start..], delivered, buf[i..])
      {
        ghost var rest, h := buf[i..], delivered;
        var len := U16(buf[i + 3], buf[i + 4]);
        if len + HEADER_LEN > |buf| - i {
          break;
        }
        status := Deliver(buf[i], buf[i + HEADER_LEN..i + HEADER_LEN + len], rest);
        if status != NeedMore {
          HandedThenStopped(judge, old(delivered), buf[start..], h, rest, delivered, status);
          return;
        }
        i := i + len + HEADER_LEN;
        assert rest[RecordLen(rest)..] == buf[i..];
        HandedThenHanded(judge, old(delivered), buf[start..], h, rest, delivered, buf[i..]);
        if i == |buf| {
          return;
        }
      }
    }

    /** Copies from buf into the buffered record, and hands it on when complete. */
    method Buffer(buf: seq<byte>, start: nat) returns (i: nat, status: Status)
      requires start < |buf| && headpos == 0 && head.Length == HEADER_LEN && input != head && inpos <= input.Length
      requires var rest := input[..inpos] + buf[start..];
        |rest| >= HEADER_LEN && input.Length == RecordLen(rest) && (inpos < HEADER_LEN ==> |rest| < input.Length)
      modifies this`input, this`inpos, this`delivered, input
      ensures Valid() && headpos == 0 && (input == old(input) || fresh(input))
      ensures start <= i <= |buf| && (input.Length > 0 ==> i == |buf|)
      ensures i == start ==> old(inpos) == old(input.Length)
      ensures var rest := old(input[..inpos]) + buf[start..];
        if status == NeedMore then Handed(judge, old(delivered), rest, delivered, Pending() + buf[i..])
        else Stopped(judge, old(delivered), rest, delivered, status) && Pending() == []
      ensures !HasRecord(Pending())
    {
      ghost var rest := input[..inpos] + buf[start..];
      var len := if |buf| - start < input.Length - inpos then |buf| - start else input.Length - inpos;
      forall k | 0 <= k < len { input[inpos + k] := buf[start + k]; }
      i, inpos, status := start + len, inpos + len, NeedMore;
      assert input[..inpos] + buf[i..] == rest;
      if input.Length == inpos {
        assert input[..inpos] == input[..];
        assert rest[RecordLen(rest)..] == buf[i..];
        status := Deliver(input[0], input[HEADER_LEN..], rest);
        input, inpos := new byte[0], 0;
        assert Pending() + buf[i..] == buf[i..];
      } else {
        assert i == |buf| && buf[i..] == [];
        assert Pending() + buf[i..] == rest;
      }
    }

    /** With no record buffered: handles the records in buf and then keeps a partial
        header, or allocates a buffer for a record that buf only begins. */
    method Direct(buf: seq<byte>, start: nat) returns (i: nat, status: Status)
      requires Valid() && start < |buf| && headpos == 0 && input.Length == 0
      modifies this, head
      ensures head == old(head) && (input == old(input) || fresh(input)) && start <= i <= |buf|
      ensures if status != NeedMore then
                Stopped(judge, old(delivered), buf[start..], delivered, status) && Valid() && Pending() == []
              else if i == |buf| then
                && Valid() && Handed(judge, old(delivered), buf[start..], delivered, Pending())
                && !HasRecord(Pending())
              else
                && Handed(judge, old(delivered), buf[start..], delivered, buf[i..]) && headpos == 0
                && HEADER_LEN <= |buf| - i < RecordLen(buf[i..]) == input.Length && inpos == 0 && input != head
    {
      i, status := Inline(buf, start);
      if status == NeedMore {
        if |buf| - i < HEADER_LEN {
          forall k | 0 <= k < |buf| - i { head[k] := buf[i + k]; }
          headpos := |buf| - i;
          assert Pending() == buf[i..];
          i := |buf|;
        } else {
          input := new byte[U16(buf[i + 3], buf[i + 4]) + HEADER_LEN];
          inpos := 0;
        }
      }
    }

    /** One round of the main loop. */
    method Round(buf: seq<byte>, start: nat) returns (i: nat, status: Status)
      requires Valid() && start < |buf| && headpos == 0
      modifies this, input, head
      ensures Valid() && head == old(head) && (input == old(input) || fresh(input))
      ensures start <= i <= |buf| && (i < |buf| ==> headpos == 0)
      ensures status == NeedMore && i == start ==> input.Length < old(input.Length)
      ensures var rest := old(Pending()) + buf[start..];
        if status == NeedMore then Handed(judge, old(delivered), rest, delivered, Pending() + buf[i..])
        else Stopped(judge, old(delivered), rest, delivered, status) && Pending() == []
      ensures !HasRecord(Pending())
    {
      i, status := start, NeedMore;
      ghost var all := Pending() + buf[start..];
      if input.Length == 0 {
        assert all == buf[start..];
        i, status := Direct(buf, start);
        if status != NeedMore {
          return;
        }
        if i == |buf| {
          assert Pending() + buf[i..] == Pending();
          return;
        }
      }
      ghost var h, rest := delivered, input[..inpos] + buf[i..];
      assert inpos == 0 ==> rest == buf[i..];
      assert inpos != 0 ==> rest == all;
      i, status := Buffer(buf, i);
      if status == NeedMore {
        HandedThenHanded(judge, old(delivered), all, h, rest, delivered, Pending() + buf[i..]);
      } else {
        HandedThenStopped(judge, old(delivered), all, h, rest, delivered, status);
      }
    }

    /** Reassembles records: whatever the chunks, the protection layer gets the
        records of the whole stream, until it asks for no more. */
    method Process(buf: seq<byte>) returns (status: Status)
      requires Valid()
      modifies this, input, head
      ensures Valid() && head == old(head) && (input == old(input) || fresh(input))
      ensures var rest := old(Pending()) + buf;
        if status == NeedMore then Handed(judge, old(delivered), rest, delivered, Pending())
        else Stopped(judge, old(delivered), rest, delivered, status) && Pending() == []
      ensures HasRecord(Pending()) <==> EndsInHeader(old(Pending()), buf)
    {
      ghost var stream := Pending() + buf;
      var i := 0;
      if headpos > 0 {
        i := FillHeader(buf);
      }
      status := NeedMore;
      assert Pending() + buf[i..] == stream;
      while i < |buf|
        invariant i <= |buf| && Valid() && (i < |buf| ==> headpos == 0)
        invariant head == old(head) && (input == old(input) || fresh(input))
        invariant status == NeedMore && Handed(judge, old(delivered), stream, delivered, Pending() + buf[i..])
        invariant i == |buf| ==> (HasRecord(Pending()) <==> EndsInHeader(old(Pending()), buf))
        invariant i < |buf| ==> !EndsInHeader(old(Pending()), buf)
        decreases |buf| - i, input.Length
      {
        ghost var h, rest := delivered, Pending() + buf[i..];
        i, status := Round(buf, i);
        if status != NeedMore {
          HandedThenStopped(judge, old(delivered), stream, h, rest, delivered, status);
          return;
        }
        HandedThenHanded(judge, old(delivered), stream, h, rest, delivered, Pending() + buf[i..]);
      }
      assert Pending() + buf[i..] == Pending();
    }

    /** Feeds a stream cut into chunks, until the protection layer stops it. */
    method ProcessAll(chunks: seq<seq<byte>>) returns (status: Status)
      requires Valid()
      modifies this, input, head
      ensures Valid() && (HasRecord(Pending()) ==> |Pending()| == HEADER_LEN)
      ensures var stream := old(Pending()) + Flat(chunks);
        if status == NeedMore then Handed(judge, old(delivered), stream, delivered, Pending())
        else Stopped(judge, old(delivered), stream, delivered, status) && Pending() == []
    {
      var n := 0;
      status := NeedMore;
      ghost var start := Pending();
      assert start + Flat(chunks[..0]) == start;
      while n < |chunks|
        invariant n <= |chunks| && Valid() && status == NeedMore
        invariant head == old(head) && (input == old(input) || fresh(input))
        invariant Handed(judge, old(delivered), start + Flat(chunks[..n]), delivered, Pending())
      {
        ghost var h, p, done := delivered, Pending(), start + Flat(chunks[..n]);
        status := Process(chunks[n]);
        NextChunk(start, chunks, n);
        FedMore(judge, old(delivered), done, h, p, chunks[n], delivered, Pending(), status, Flat(chunks[n + 1..]));
        if status != NeedMore {
          return;
        }
        n := n + 1;
      }
      assert chunks[..n] == chunks;
      assert input.Length > 0 ==> Pending() == input[..inpos];
    }
  }

  // ----- chunking does not matter

  function Itself(chunk: seq<byte>): seq<byte> {
    chunk
  }

  function Flat(chunks: seq<seq<byte>>): seq<byte> {
    Flatten(Itself, chunks)
  }

  lemma FlatMore(chunks: seq<seq<byte>>, chunk: seq<byte>)
    ensures Flat(chunks + [chunk]) == Flat(chunks) + chunk
  {
    FlattenAppend(Itself, chunks, [chunk]);
    FlattenOne(Itself, chunk);
  }

  /** Parsing can stop after any prefix and go on from its tail. */
  lemma {:induction false} RecordsAppend(a: seq<byte>, b: seq<byte>)
    ensures Records(a + b) == Records(a) + Records(Tail(a) + b)
    ensures Tail(a + b) == Tail(Tail(a) + b)
    decreases |a|
  {
    if HasRecord(a) {
      var n := RecordLen(a);
      assert (a + b)[n..] == a[n..] + b;
      assert FirstRecord(a + b) == FirstRecord(a);
      RecordsAppend(a[n..], b);
    }
  }

  lemma Assoc<T>(a: seq<T>, b: seq<T>, c: seq<T>)
    ensures a + (b + c) == (a + b) + c
  {
  }

  lemma HandedExtends(judge: Judge, h: seq<Record>, s: seq<byte>, h': seq<Record>, s': seq<byte>, more: seq<byte>)
    requires Handed(judge, h, s, h', s')
    ensures Handed(judge, h, s + more, h', s' + more)
  {
    var rest := Records(Tail(s) + more);
    calc {
      h + Records(s + more);
      { RecordsAppend(s, more); Assoc(h, Records(s), rest); }
      (h + Records(s)) + rest;
      (h' + Records(s')) + rest;
      { RecordsAppend(s', more); Assoc(h', Records(s'), rest); }
      h' + Records(s' + more);
    }
    RecordsAppend(s, more);
    RecordsAppend(s', more);
  }

  /** One more chunk after a stream that was not stopped. */
  lemma NextChunk(start: seq<byte>, chunks: seq<seq<byte>>, n: nat)
    requires n < |chunks|
    ensures start + Flat(chunks[..n]) + chunks[n] == start + Flat(chunks[..n + 1])
    ensures start + Flat(chunks[..n]) + chunks[n] + Flat(chunks[n + 1..]) == start + Flat(chunks)
  {
    FlattenUpTo(Itself, chunks, n);
    Assoc(start, Flat(chunks[..n]), chunks[n]);
    FlattenAround(Itself, chunks, n);
    Assoc(start, Flat(chunks[..n]) + chunks[n], Flat(chunks[n + 1..]));
  }

  lemma FedMore(judge: Judge, h0: seq<Record>, done: seq<byte>, h: seq<Record>, p: seq<byte>, chunk: seq<byte>,
                h': seq<Record>, p': seq<byte>, status: Status, later: seq<byte>)
    requires Handed(judge, h0, done, h, p)
    requires if status == NeedMore then Handed(judge, h, p + chunk, h', p')
             else Stopped(judge, h, p + chunk, h', status)
    ensures if status == NeedMore then Handed(judge, h0, done + chunk, h', p')
            else Stopped(judge, h0, done + chunk + later, h', status)
  {
    HandedExtends(judge, h0, done, h, p, chunk);
    if status == NeedMore {
      HandedThenHanded(judge, h0, done + chunk, h, p + chunk, h', p');
    } else {
      HandedThenStopped(judge, h0, done + chunk, h, p + chunk, h', status);
      StoppedExtends(judge, h0, done + chunk, h', status, later);
    }
  }

  lemma StoppedExtends(judge: Judge, h: seq<Record>, s: seq<byte>, h': seq<Record>, status: Status, more: seq<byte>)
    requires Stopped(judge, h, s, h', status)
    ensures Stopped(judge, h, s + more, h', status)
  {
    RecordsAppend(s, more);
    assert h + Records(s + more) == (h + Records(s)) + Records(Tail(s) + more);
  }

  /** The records handed on, one by one, until the protection layer stops. */
  function Outcome(judge: Judge, h: seq<Record>, rs: seq<Record>): (seq<Record>, Status)
    decreases |rs|
  {
    if rs == [] then (h, NeedMore)
    else
      var h' := h + [rs[0]];
      if judge(h') == NeedMore then Outcome(judge, h', rs[1..]) else (h', judge(h'))
  }

  lemma {:induction false} HandedOutcome(judge: Judge, h: seq<Record>, rs: seq<Record>, n: nat)
    requires n <= |rs| && AllNeedMore(judge, h + rs[..n], |h|)
    ensures Outcome(judge, h, rs) == Outcome(judge, h + rs[..n], rs[n..])
    decreases n
  {
    if n == 0 {
      assert h + rs[..0] == h && rs[0..] == rs;
    } else {
      var h', rest := h + [rs[0]], rs[1..];
      var all := h + rs[..n];
      assert all == h' + rest[..n - 1] && rest[n - 1..] == rs[n..];
      assert all[..|h| + 1] == h';
      HandedOutcome(judge, h', rest, n - 1);
    }
  }

  /** The result depends on the stream alone: whatever the chunks were, a stopped
      stream has the outcome of one parse, and one that is not stopped has it up to
      an empty record that still waits for its delivery. */
  lemma ChunkingTheorem(judge: Judge, h: seq<Record>, stream: seq<byte>, h': seq<Record>, pending: seq<byte>,
                        status: Status)
    requires if status == NeedMore then Handed(judge, h, stream, h', pending)
             else Stopped(judge, h, stream, h', status)
    ensures status != NeedMore ==> Outcome(judge, h, Records(stream)) == (h', status)
    ensures status == NeedMore ==>
      && Outcome(judge, h, Records(stream)) == Outcome(judge, h', Records(pending))
      && (!HasRecord(pending) ==> Outcome(judge, h, Records(stream)) == (h', NeedMore) && pending == Tail(stream))
  {
    var rs := Records(stream);
    if status == NeedMore {
      var n := |h'| - |h|;
      assert (h + rs)[..|h'|] == h';
      assert h + rs[..n] == h';
      assert rs[n..] == (h + rs)[|h'|..] == (h' + Records(pending))[|h'|..] == Records(pending);
      HandedOutcome(judge, h, rs, n);
    } else {
      var n := |h'| - 1 - |h|;
      assert h + rs[..n] == h'[..|h'| - 1];
      HandedOutcome(judge, h, rs, n);
      assert (h + rs)[|h| + n] == h'[|h| + n];
      assert h'[..|h'| - 1] + [rs[n]] == h';
    }
  }

  /** Nothing is handed on while there is no complete record. */
  lemma NothingYet(judge: Judge, h: seq<Record>, s: seq<byte>, h': seq<Record>, s': seq<byte>)
    requires Handed(judge, h, s, h', s') && !HasRecord(s)
    ensures h' == h && (!HasRecord(s') ==> s' == s)
  {
    assert h + [] == h;
  }

  lemma NeverStopped(judge: Judge, h: seq<Record>, s: seq<byte>, h': seq<Record>, status: Status)
    requires !HasRecord(s)
    ensures !Stopped(judge, h, s, h', status)
  {
    assert h + [] == h;
  }

  /** The header of an empty record, without its last two bytes and with them. */
  lemma SplitHeader(first: seq<byte>, second: seq<byte>)
    requires first == [22, 3, 3] && second == [0, 0]
    ensures !HasRecord(first) && HasRecord(first + second) && Records(first + second) == [Record(22, [])]
    ensures |first + second| == HEADER_LEN
  {
    var s := first + second;
    assert RecordLen(s) == 5 && s[5..] == [] && FirstRecord(s) == Record(22, []);
    assert Records(s) == [Record(22, [])] + Records(s[5..]);
  }

  /** What was pending with a complete record in it had not been handed on before. */
  lemma StillPending(judge: Judge, h: seq<Record>, s: seq<byte>, h': seq<Record>, s': seq<byte>, r: Record)
    requires Handed(judge, h, s, h', s') && Records(s) == [r] && HasRecord(s')
    ensures h' == h
  {
    assert |h| + 1 == |h'| + |Records(s')|;
  }

  /** An empty record whose split header ends a call is not delivered by that call. */
  method LateEmptyRecord(judge: Judge) returns (stream: seq<byte>, delivered: seq<Record>)
    ensures Records(stream) == [Record(22, [])] && delivered == []
  {
    var tls := new Tls(judge);
    var first, second := [22, 3, 3], [0, 0];
    SplitHeader(first, second);
    stream := first + second;
    var status := tls.Process(first);
    assert [] + first == first;
    NeverStopped(judge, [], first, tls.delivered, status);
    NothingYet(judge, [], first, tls.delivered, tls.Pending());
    status := tls.Process(second);
    if status == NeedMore {
      StillPending(judge, [], stream, tls.delivered, tls.Pending(), Record(22, []));
    }
    delivered := tls.delivered;
  }
}
