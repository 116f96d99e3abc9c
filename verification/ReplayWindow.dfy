/** Sequence numbers of an ESP context: the outbound counter and the inbound
    anti-replay window, a circular bitmap that must agree with a plain set of the
    accepted sequence numbers (section 3.4.3 of RFC 4303). */
module ReplayWindow {
  import opened Bytes

  const TWO32: nat := 0x1_0000_0000

  type uint32 = n: int | 0 <= n < TWO32

  // ----- the specification: a plain set of accepted numbers

  datatype Accepted = Accepted(numbers: set<nat>, last: nat)

  ghost predicate Fresh(a: Accepted, size: nat, seqno: nat) {
    seqno > a.last || (0 < seqno && a.last - seqno < size && seqno !in a.numbers)
  }

  ghost function Accept(a: Accepted, seqno: nat): Accepted {
    Accepted(a.numbers + {seqno}, if a.last < seqno then seqno else a.last)
  }

  // ----- bits in bytes

  /** 1 << k */
  function Mask(k: nat): bv8
    requires k < 8
  {
    if k == 0 then 1 else if k == 1 then 2 else if k == 2 then 4 else if k == 3 then 8
    else if k == 4 then 16 else if k == 5 then 32 else if k == 6 then 64 else 128
  }

  lemma SetMask(b: bv8, k: nat, j: nat)
    requires k < 8 && j < 8
    ensures (b | Mask(k)) & Mask(j) != 0 <==> j == k || b & Mask(j) != 0
  {
  }

  lemma ClearMask(b: bv8, k: nat, j: nat)
    requires k < 8 && j < 8
    ensures (b & !Mask(k)) & Mask(j) != 0 <==> j != k && b & Mask(j) != 0
  {
  }

  predicate HasBit(b: bv8, k: nat)
    requires k < 8
  {
    b & Mask(k) != 0
  }

  predicate BitAt(window: seq<bv8>, slot: nat)
    requires slot / 8 < |window|
  {
    HasBit(window[slot / 8], slot % 8)
  }

  /** The bytes differ in bit k at most, which is v in the second one. */
  ghost predicate SetsBit(before: bv8, after: bv8, k: nat, v: bool) {
    forall j: nat | j < 8 :: HasBit(after, j) == if j == k then v else HasBit(before, j)
  }

  lemma MaskSetsBit(before: bv8, k: nat, v: bool)
    requires k < 8
    ensures SetsBit(before, if v then before | Mask(k) else before & !Mask(k), k, v)
  {
    forall j: nat | j < 8
      ensures HasBit(if v then before | Mask(k) else before & !Mask(k), j) == if j == k then v else HasBit(before, j)
    {
      SetMask(before, k, j);
      ClearMask(before, k, j);
    }
  }

  /** The window buffer read as a ring of `size` bits. */
  ghost function Bits(window: seq<bv8>, size: nat): seq<bool>
    requires |window| == size / 8 + 1
  {
    seq(size, slot requires 0 <= slot < size => BitAt(window, slot))
  }

  lemma SamePlace(s: nat, slot: nat)
    ensures s == slot <==> s / 8 == slot / 8 && s % 8 == slot % 8
  {
    assert s == s / 8 * 8 + s % 8 && slot == slot / 8 * 8 + slot % 8;
  }

  lemma SetBits(window: seq<bv8>, size: nat, slot: nat, b: bv8, v: bool)
    requires |window| == size / 8 + 1 && slot < size
    requires SetsBit(window[slot / 8], b, slot % 8, v)
    ensures Bits(window[slot / 8 := b], size) == Bits(window, size)[slot := v]
  {
    forall s: nat | s < size
      ensures BitAt(window[slot / 8 := b], s) == if s == slot then v else BitAt(window, s)
    {
      SamePlace(s, slot);
    }
  }

  // ----- wrapping arithmetic

  /** (index - offset) % size as unsigned 32-bit arithmetic computes it. */
  function WrappingSlot(index: nat, offset: nat, size: nat): (slot: nat)
    requires size > 0
    ensures slot < size
  {
    (index - offset) % TWO32 % size
  }

  /** (index - offset) % size as it is meant, for a slot and an offset below size. */
  function Slot(index: nat, offset: nat, size: nat): int {
    if offset <= index then index - offset else index + size - offset
  }

  lemma SlotsAgree(index: nat, offset: nat, size: nat)
    requires size > 0 && TWO32 % size == 0 && index < size && offset < size <= TWO32
    ensures WrappingSlot(index, offset, size) == Slot(index, offset, size)
  {
    if index < offset {
      WrapsRound(offset - index, size);
    } else {
      SmallModulo(index - offset, TWO32);
      SmallModulo(index - offset, size);
    }
  }

  lemma SmallModulo(x: nat, n: nat)
    requires x < n
    ensures x % n == x
  {
    DivModUnique(0, x, n);
  }

  lemma NextSlot(index: nat, size: nat)
    requires index < size
    ensures (index + 1) % size == Moved(index, 1, size)
  {
    if index + 1 < size {
      SmallModulo(index + 1, size);
    } else {
      DivModUnique(1, 0, size);
    }
  }

  /** Below zero the two differ by 2^32 modulo size. */
  lemma WrapsRound(back: nat, size: nat)
    requires 0 < back < size <= TWO32
    ensures (0 - back) % TWO32 == TWO32 - back
    ensures TWO32 % size == 0 ==> (TWO32 - back) % size == size - back
    ensures back == TWO32 % size ==> (TWO32 - back) % size == 0
  {
    var q, r := TWO32 / size, TWO32 % size;
    DivModUnique(-1, TWO32 - back, TWO32);
    DivModUnique(q - 1, size - back, size);
    DivModUnique(q, 0, size);
    assert TWO32 == q * size + r;
    assert (q - 1) * size == q * size - size;
  }

  /** How many steps round the ring it takes from index to slot, at least one. */
  function Ahead(index: nat, slot: nat, size: nat): int {
    if slot > index then slot - index else slot + size - index
  }

  // ----- the ring of bits against the set

  /** Moving `shift` steps on clears the bits that are passed. */
  ghost function Cleared(bits: seq<bool>, index: nat, shift: nat): seq<bool> {
    seq(|bits|, slot requires 0 <= slot < |bits| => bits[slot] && Ahead(index, slot, |bits|) > shift)
  }

  function Moved(index: nat, shift: nat, size: nat): int {
    if index + shift < size then index + shift else index + shift - size
  }

  lemma ClearedOneMore(bits: seq<bool>, index: nat, i: nat)
    requires index < |bits| && i < |bits|
    ensures var slot := Moved(index, i + 1, |bits|);
      0 <= slot < |bits| && Cleared(bits, index, i)[slot := false] == Cleared(bits, index, i + 1)
  {
  }

  /** The state of an inbound context. */
  datatype Window = Window(bits: seq<bool>, index: nat, last: nat)

  ghost predicate WellFormed(w: Window, size: nat) {
    0 < size == |w.bits| < TWO32 && w.index < size && w.last < TWO32
  }

  ghost function Verify(w: Window, seqno: nat): bool
    requires w.bits != []
  {
    seqno > w.last
    || (seqno > 0 && |w.bits| > w.last - seqno && !w.bits[WrappingSlot(w.index, w.last - seqno, |w.bits|)])
  }

  ghost function Authenticate(w: Window, seqno: nat): Window
    requires w.index < |w.bits|
  {
    var size := |w.bits|;
    if seqno > w.last then
      var shift := if seqno - w.last < size then seqno - w.last else size;
      var index := Moved(w.index, shift, size);
      Window(Cleared(w.bits, w.index, shift)[index := true], index, seqno)
    else
      w.(bits := w.bits[WrappingSlot(w.index, w.last - seqno, size) := true])
  }

  /** Ring and set agree on the numbers the window covers. */
  ghost predicate Agree(w: Window, a: Accepted) {
    && w.last == a.last && w.index < |w.bits| && (forall n | n in a.numbers :: 0 < n <= a.last)
    && forall k: nat | k < |w.bits| && k < w.last ::
         w.bits[Slot(w.index, k, |w.bits|)] <==> w.last - k in a.numbers
  }

  lemma VerifyIsFresh(w: Window, size: nat, a: Accepted, seqno: nat)
    requires WellFormed(w, size) && TWO32 % size == 0 && Agree(w, a)
    ensures Verify(w, seqno) <==> Fresh(a, size, seqno)
  {
    if 0 < seqno <= w.last && w.last - seqno < size {
      SlotsAgree(w.index, w.last - seqno, size);
      assert w.last - (w.last - seqno) == seqno;
    }
  }

  lemma AgreeAhead(w: Window, a: Accepted, seqno: nat)
    requires Agree(w, a) && seqno > w.last
    ensures Agree(Authenticate(w, seqno), Accept(a, seqno))
  {
    var size, w' := |w.bits|, Authenticate(w, seqno);
    var shift := if seqno - w.last < size then seqno - w.last else size;
    forall k: nat | k < size && k < seqno
      ensures w'.bits[Slot(w'.index, k, size)] <==> seqno - k in a.numbers + {seqno}
    {
      var slot := Slot(w'.index, k, size);
      if 0 < k < shift {
        assert Ahead(w.index, slot, size) == shift - k;
      } else if k >= shift {
        assert slot == Slot(w.index, k - shift, size);
        assert Ahead(w.index, slot, size) == size - (k - shift);
      }
    }
  }

  lemma AgreeAfter(w: Window, size: nat, a: Accepted, seqno: nat)
    requires WellFormed(w, size) && TWO32 % size == 0 && Agree(w, a) && Verify(w, seqno) && seqno < TWO32
    ensures Agree(Authenticate(w, seqno), Accept(a, seqno)) && WellFormed(Authenticate(w, seqno), size)
  {
    if seqno > w.last {
      AgreeAhead(w, a, seqno);
    } else {
      SlotsAgree(w.index, w.last - seqno, size);
    }
  }

  // ----- every run

  /** A packet arrives with a sequence number, and authenticates or not. */
  datatype Arrival = Arrival(seqno: uint32, authentic: bool)

  /** Which arrivals the bitmap lets through. */
  ghost function Passed(w: Window, arrivals: seq<Arrival>): seq<bool>
    requires w.index < |w.bits|
    decreases |arrivals|
  {
    if arrivals == [] then [] else
      var ok := Verify(w, arrivals[0].seqno);
      var w' := if ok && arrivals[0].authentic then Authenticate(w, arrivals[0].seqno) else w;
      [ok] + Passed(w', arrivals[1..])
  }

  /** Which arrivals the set lets through. */
  ghost function ShouldPass(a: Accepted, size: nat, arrivals: seq<Arrival>): seq<bool>
    decreases |arrivals|
  {
    if arrivals == [] then [] else
      var ok := Fresh(a, size, arrivals[0].seqno);
      var a' := if ok && arrivals[0].authentic then Accept(a, arrivals[0].seqno) else a;
      [ok] + ShouldPass(a', size, arrivals[1..])
  }

  ghost function NewWindow(size: nat): Window {
    Window(seq(size, _ => false), 0, 0)
  }

  lemma {:induction false} RingRefinesSet(w: Window, size: nat, a: Accepted, arrivals: seq<Arrival>)
    requires WellFormed(w, size) && TWO32 % size == 0 && Agree(w, a)
    ensures Passed(w, arrivals) == ShouldPass(a, size, arrivals)
    decreases |arrivals|
  {
    if arrivals != [] {
      var Arrival(seqno, authentic) := arrivals[0];
      VerifyIsFresh(w, size, a, seqno);
      if Verify(w, seqno) && authentic {
        AgreeAfter(w, size, a, seqno);
        RingRefinesSet(Authenticate(w, seqno), size, Accept(a, seqno), arrivals[1..]);
      } else {
        RingRefinesSet(w, size, a, arrivals[1..]);
      }
    }
  }

  /** A size that does not divide 2^32 makes the ring forget where it is: after the
      number `size` was accepted, a number inside the window is refused although it
      was never received. */
  lemma OtherSizesFail(size: nat)
    requires 1 < size < TWO32 && TWO32 % size != 0
    ensures var arrivals := [Arrival(size, true), Arrival(size - TWO32 % size, true)];
      Passed(NewWindow(size), arrivals) != ShouldPass(Accepted({}, 0), size, arrivals)
  {
    var r, w := TWO32 % size, NewWindow(size);
    var arrivals := [Arrival(size, true), Arrival(size - r, true)];
    var w1, a1 := Authenticate(w, size), Accept(Accepted({}, 0), size);
    WrapsRound(r, size);
    assert w1.index == 0 && w1.bits[0] && w1.last == size;
    assert !Verify(w1, size - r) && Fresh(a1, size, size - r);
    var rest := arrivals[1..];
    assert rest[0] == Arrival(size - r, true);
    assert Passed(w, arrivals) == [true] + Passed(w1, rest) && !Passed(w1, rest)[0];
    assert ShouldPass(Accepted({}, 0), size, arrivals) == [true] + ShouldPass(a1, size, rest);
    assert Passed(w, arrivals)[1] != ShouldPass(Accepted({}, 0), size, arrivals)[1];
  }

  /** The bitmap refines the set over every run exactly when its size divides 2^32. */
  lemma WindowTheorem(size: nat)
    requires 0 < size < TWO32
    ensures (forall arrivals :: Passed(NewWindow(size), arrivals) == ShouldPass(Accepted({}, 0), size, arrivals))
      <==> TWO32 % size == 0
  {
    if TWO32 % size == 0 {
      forall arrivals ensures Passed(NewWindow(size), arrivals) == ShouldPass(Accepted({}, 0), size, arrivals) {
        RingRefinesSet(NewWindow(size), size, Accepted({}, 0), arrivals);
      }
    } else {
      DivModUnique(TWO32, 0, 1);
      OtherSizesFail(size);
    }
  }

  // ----- the code

  class EspContext {
    const inbound: bool
    const windowSize: nat
    var lastSeqno: uint32
    var seqnoIndex: nat
    var window: array<bv8>

    ghost predicate Valid()
      reads this
    {
      0 < windowSize < TWO32 && (inbound ==> seqnoIndex < windowSize && window.Length == windowSize / 8 + 1)
    }

    ghost function View(): (w: Window)
      requires Valid() && inbound
      reads this, window
      ensures WellFormed(w, windowSize)
    {
      Window(Bits(window[..], windowSize), seqnoIndex, lastSeqno)
    }

    constructor (inbound: bool, windowSize: nat)
      requires 0 < windowSize < TWO32
      ensures Valid() && this.inbound == inbound && this.windowSize == windowSize && fresh(window)
      ensures lastSeqno == 0 && (inbound ==> View() == NewWindow(windowSize))
    {
      this.inbound, this.windowSize := inbound, windowSize;
      lastSeqno, seqnoIndex := 0, 0;
      window := new bv8[if inbound then windowSize / 8 + 1 else 0](_ => 0);
    }

    method SetWindowBit(slot: nat, set_: bool)
      requires Valid() && inbound && slot < windowSize
      modifies window
      ensures View() == old(View()).(bits := old(View()).bits[slot := set_])
    {
      var i, k := slot / 8, slot % 8;
      var b := if set_ then window[i] | Mask(k) else window[i] & !Mask(k);
      MaskSetsBit(window[i], k, set_);
      SetBits(window[..], windowSize, slot, b, set_);
      window[i] := b;
      assert window[..] == old(window[..])[i := b];
    }

    method VerifySeqno(seqno: uint32) returns (ok: bool)
      requires Valid()
      ensures ok <==> inbound && Verify(View(), seqno)
    {
      if !inbound {
        return false;
      }
      if seqno > lastSeqno {
        return true;
      } else if seqno > 0 && windowSize > lastSeqno - seqno {
        var slot := WrappingSlot(seqnoIndex, lastSeqno - seqno, windowSize);
        return !BitAt(window[..], slot);
      } else {
        return false;
      }
    }

    /** Moves the window forward and clears what enters it. */
    method Shift(shift: nat)
      requires Valid() && inbound && shift <= windowSize
      modifies this`seqnoIndex, window
      ensures Valid() && seqnoIndex == Moved(old(seqnoIndex), shift, windowSize)
      ensures View().bits == Cleared(old(View()).bits, old(seqnoIndex), shift)
    {
      ghost var bits, index := View().bits, seqnoIndex;
      assert bits == Cleared(bits, index, 0);
      for i := 0 to shift
        invariant Valid() && seqnoIndex == Moved(index, i, windowSize)
        invariant View().bits == Cleared(bits, index, i)
      {
        NextSlot(seqnoIndex, windowSize);
        seqnoIndex := (seqnoIndex + 1) % windowSize;
        SetWindowBit(seqnoIndex, false);
        ClearedOneMore(bits, index, i);
      }
    }

    /** Must follow a successful verification of the same number. */
    method SetAuthenticatedSeqno(seqno: uint32)
      requires Valid()
      modifies this`lastSeqno, this`seqnoIndex, window
      ensures Valid()
      ensures if inbound then View() == Authenticate(old(View()), seqno) else unchanged(this, window)
    {
      if !inbound {
        return;
      }
      if seqno > lastSeqno {
        var shift := seqno - lastSeqno;
        shift := if shift < windowSize then shift else windowSize;
        Shift(shift);
        SetWindowBit(seqnoIndex, true);
        lastSeqno := seqno;
      } else {
        var i := lastSeqno - seqno;
        SetWindowBit(WrappingSlot(seqnoIndex, i, windowSize), true);
      }
    }

    /** Allocates the next outbound sequence number, unless it would cycle. */
    method NextSeqno() returns (seqno: Option<uint32>)
      modifies this`lastSeqno
      ensures if inbound || old(lastSeqno) == TWO32 - 1 then seqno == None && lastSeqno == old(lastSeqno)
              else lastSeqno == old(lastSeqno) + 1 && seqno == Some(lastSeqno)
    {
      if inbound || lastSeqno == TWO32 - 1 {
        return None;
      }
      lastSeqno := lastSeqno + 1;
      seqno := Some(lastSeqno);
    }
  }
}
