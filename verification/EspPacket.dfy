/** ESP packets: padding, encryption and decryption around an abstract AEAD
    transform (section 2.4 of RFC 4303). */
module EspPacket {
  import opened Bytes
  import opened ReplayWindow
  import Ip = IpPacket

  const IPPROTO_IPIP: byte := 4
  const IPPROTO_IPV6: byte := 41

  /** An AEAD transform under some key, with its IV generator.  `encrypt` appends the
      ICV to the ciphertext. */
  datatype Aead = Aead(
    blockSize: nat, ivSize: nat, icvSize: nat,
    encrypt: (seq<byte>, seq<byte>, seq<byte>) -> seq<byte>,
    decrypt: (seq<byte>, seq<byte>, seq<byte>) -> Option<seq<byte>>,
    iv: nat -> seq<byte>)

  /** Decryption undoes encryption of whole blocks, and lengths are as announced. */
  ghost predicate Sound(a: Aead) {
    && 0 < a.blockSize <= 252
    && (forall n: nat :: |a.iv(n)| == a.ivSize)
    && (forall p, aad, iv :: |a.encrypt(p, aad, iv)| == |p| + a.icvSize)
    && forall p, aad, iv | |p| % a.blockSize == 0 :: a.decrypt(a.encrypt(p, aad, iv), aad, iv) == Some(p)
  }

  // ----- padding

  /** 1, 2, 3, ... in one byte each */
  function Padding(n: nat): (p: seq<byte>)
    ensures |p| == n
  {
    seq(n, i => (i + 1) % 256)
  }

  method GeneratePadding(padding: array<byte>)
    modifies padding
    ensures padding[..] == Padding(padding.Length)
  {
    for i := 0 to padding.Length
      invariant forall k | 0 <= k < i :: padding[k] == (k + 1) % 256
    {
      padding[i] := (i + 1) % 256;
    }
  }

  method CheckPadding(padding: seq<byte>) returns (ok: bool)
    ensures ok <==> padding == Padding(|padding|)
  {
    for i := 0 to |padding|
      invariant forall k | 0 <= k < i :: padding[k] == (k + 1) % 256
    {
      if padding[i] != (i + 1) % 256 {
        return false;
      }
    }
    return true;
  }

  /** First to a whole block, then to put the ICV on a 4-byte boundary. */
  function BlockPad(a: Aead, len: nat): nat
    requires a.blockSize > 0
  {
    PadLen(len + 2, a.blockSize)
  }

  function IcvPad(a: Aead, len: nat): nat
    requires a.blockSize > 0
  {
    PadLen(a.ivSize + len + 2 + BlockPad(a, len), 4)
  }

  function Plaintext(a: Aead, payload: seq<byte>, nextHeader: byte): seq<byte>
    requires a.blockSize > 0
  {
    var n := BlockPad(a, |payload|) + IcvPad(a, |payload|);
    payload + Padding(n) + [n % 256, nextHeader]
  }

  lemma AddMultiple(a: nat, b: nat, n: nat)
    requires n > 0 && a % n == 0
    ensures (a + b) % n == 0 <==> b % n == 0
  {
    var q := a / n;
    DivModUnique(q + b / n, b % n, n);
    assert a + b == (q + b / n) * n + b % n;
  }

  /** The pad length fits its field, the ICV is aligned, and the plaintext is a whole
      number of blocks exactly when the second padding is. */
  lemma PlaintextShape(a: Aead, payload: seq<byte>, nextHeader: byte)
    requires 0 < a.blockSize <= 252
    ensures var plain := Plaintext(a, payload, nextHeader);
      && BlockPad(a, |payload|) + IcvPad(a, |payload|) < 256
      && (8 + a.ivSize + |plain|) % 4 == 0
      && (|plain| % a.blockSize == 0 <==> IcvPad(a, |payload|) % a.blockSize == 0)
  {
    var p1, p2 := BlockPad(a, |payload|), IcvPad(a, |payload|);
    AddMultiple(|payload| + 2 + p1, p2, a.blockSize);
    AddMultiple(8, a.ivSize + |payload| + 2 + p1 + p2, 4);
  }

  /** Whole blocks come out for stream ciphers, and for block ciphers whose block and
      IV sizes go with the 4-byte alignment. */
  lemma UsualTransforms(a: Aead, len: nat)
    requires a.blockSize == 1
      || (a.blockSize > 0 && a.ivSize % 4 == 0 && (a.blockSize % 4 == 0 || 4 % a.blockSize == 0))
    ensures IcvPad(a, len) % a.blockSize == 0
  {
    var bs, n := a.blockSize, len + 2 + BlockPad(a, len);
    if bs % 4 == 0 {
      MultipleOfMultiple(n, bs, 4);
      AddMultiple(n, a.ivSize, 4);
      assert IcvPad(a, len) == 0;
    } else if bs > 4 {
      DivModUnique(0, 4, bs);
    } else {
      assert bs == 1 || bs == 2;
    }
  }

  lemma MultipleOfMultiple(n: nat, b: nat, c: nat)
    requires b > 0 && c > 0 && n % b == 0 && b % c == 0
    ensures n % c == 0
  {
    var q, k := n / b, b / c;
    assert n == q * b && b == k * c;
    assert q * (k * c) == (q * k) * c;
    DivModUnique(q * k, 0, c);
  }

  // ----- packets

  function Aad(spi: nat, seqno: nat): seq<byte> {
    FromU32(spi) + FromU32(seqno)
  }

  function Encrypt(a: Aead, spi: nat, seqno: nat, payload: seq<byte>, nextHeader: byte): seq<byte>
    requires a.blockSize > 0
  {
    var aad, iv := Aad(spi, seqno), a.iv(seqno);
    aad + iv + a.encrypt(Plaintext(a, payload, nextHeader), aad, iv)
  }

  datatype Decrypted =
    | Success(payload: Ip.Packet, nextHeader: byte)
    | ParseError
    | VerifyError
    | Failed

  /** The payload and the next header behind well-formed padding. */
  function Unpad(plain: seq<byte>): Option<(seq<byte>, byte)> {
    if |plain| < 2 then None else
      var nextHeader, padLength := plain[|plain| - 1], plain[|plain| - 2];
      var rest := plain[..|plain| - 2];
      if padLength > |rest| || rest[|rest| - padLength..] != Padding(padLength) then None
      else Some((rest[..|rest| - padLength], nextHeader))
  }

  function RemovePadding(plain: seq<byte>): Decrypted {
    match Unpad(plain)
    case None => ParseError
    case Some((payload, nextHeader)) => Payload(payload, nextHeader)
  }

  function Payload(payload: seq<byte>, nextHeader: byte): Decrypted {
    match Ip.Parse(payload)
    case None => ParseError
    case Some(p) => Success(p, nextHeader)
  }

  /** The outcome, and whether the sequence number was authenticated. */
  ghost function Decrypt(a: Aead, w: Window, data: seq<byte>): (r: (Decrypted, Window))
    requires a.blockSize > 0 && w.index < |w.bits|
  {
    if |data| < 8 + a.ivSize + a.icvSize || (|data| - 8 - a.ivSize - a.icvSize) % a.blockSize != 0 then
      (ParseError, w)
    else Open(a, w, data)
  }

  /** Window, ICV and padding, in this order. */
  ghost function Open(a: Aead, w: Window, data: seq<byte>): (r: (Decrypted, Window))
    requires |data| >= 8 + a.ivSize && w.index < |w.bits|
  {
    var seqno := U32(data[4..8]);
    if !Verify(w, seqno) then (VerifyError, w)
    else match a.decrypt(data[8 + a.ivSize..], data[..8], data[8..8 + a.ivSize])
      case None => (Failed, w)
      case Some(plain) => (RemovePadding(plain), Authenticate(w, seqno))
  }

  /** `decrypt` on an inbound context. */
  method DecryptPacket(a: Aead, context: EspContext, data: seq<byte>) returns (r: Decrypted)
    requires a.blockSize > 0 && context.Valid() && context.inbound
    modifies context`lastSeqno, context`seqnoIndex, context.window
    ensures context.Valid()
    ensures (r, context.View()) == Decrypt(a, old(context.View()), data)
  {
    if |data| < 8 + a.ivSize + a.icvSize || (|data| - 8 - a.ivSize - a.icvSize) % a.blockSize != 0 {
      return ParseError;
    }
    r := OpenPacket(a, context, data);
  }

  method OpenPacket(a: Aead, context: EspContext, data: seq<byte>) returns (r: Decrypted)
    requires |data| >= 8 + a.ivSize && context.Valid() && context.inbound
    modifies context`lastSeqno, context`seqnoIndex, context.window
    ensures context.Valid()
    ensures (r, context.View()) == Open(a, old(context.View()), data)
  {
    var seqno := U32(data[4..8]);
    var ok := context.VerifySeqno(seqno);
    if !ok {
      return VerifyError;
    }
    var iv, ciphertext := data[8..8 + a.ivSize], data[8 + a.ivSize..];
    var plain := a.decrypt(ciphertext, data[..8], iv);
    if plain == None {
      return Failed;
    }
    context.SetAuthenticatedSeqno(seqno);
    r := StripPadding(plain.value);
  }

  /** `encrypt` on a context: takes the next sequence number, or fails. The number is
      used up even if there is no IV or encryption fails, that is, unless it `works`. */
  method EncryptPacket(a: Aead, context: EspContext, spi: nat, payload: seq<byte>, nextHeader: byte, works: bool)
      returns (data: Option<seq<byte>>)
    requires a.blockSize > 0
    modifies context`lastSeqno
    ensures if context.inbound || old(context.lastSeqno) == TWO32 - 1 then
              data == None && context.lastSeqno == old(context.lastSeqno)
            else
              && context.lastSeqno == old(context.lastSeqno) + 1
              && data == if works then Some(Encrypt(a, spi, context.lastSeqno, payload, nextHeader)) else None
  {
    var seqno := context.NextSeqno();
    if seqno == None {
      return None;
    }
    var padLen := PadLen(|payload| + 2, a.blockSize);
    padLen := padLen + PadLen(a.ivSize + |payload| + 2 + padLen, 4);
    var padding := new byte[padLen];
    GeneratePadding(padding);
    var plain := payload + padding[..] + [padLen % 256, nextHeader];
    if !works {
      return None;
    }
    var aad, iv := FromU32(spi) + FromU32(seqno.value), a.iv(seqno.value);
    data := Some(aad + iv + a.encrypt(plain, aad, iv));
  }

  /** `remove_padding`. */
  method StripPadding(plain: seq<byte>) returns (r: Decrypted)
    ensures r == RemovePadding(plain)
  {
    var payload := StripTrailer(plain);
    match payload
    case None => r := ParseError;
    case Some((rest, nextHeader)) => r := Payload(rest, nextHeader);
  }

  method StripTrailer(plain: seq<byte>) returns (r: Option<(seq<byte>, byte)>)
    ensures r == Unpad(plain)
  {
    if |plain| < 2 {
      return None;
    }
    var nextHeader, padLength := plain[|plain| - 1], plain[|plain| - 2];
    var rest := plain[..|plain| - 2];
    if padLength > |rest| {
      return None;
    }
    var ok := CheckPadding(rest[|rest| - padLength..]);
    if !ok {
      return None;
    }
    return Some((rest[..|rest| - padLength], nextHeader));
  }

  lemma UnpadPadded(payload: seq<byte>, n: byte, nextHeader: byte)
    ensures Unpad(payload + Padding(n) + [n, nextHeader]) == Some((payload, nextHeader))
  {
    var plain := payload + Padding(n) + [n, nextHeader];
    var rest := plain[..|plain| - 2];
    assert plain[|plain| - 1] == nextHeader && plain[|plain| - 2] == n;
    assert rest == payload + Padding(n);
    assert rest[|rest| - n..] == Padding(n) && rest[..|rest| - n] == payload;
  }

  lemma PaddingRoundTrip(a: Aead, payload: seq<byte>, nextHeader: byte)
    requires 0 < a.blockSize <= 252
    ensures Unpad(Plaintext(a, payload, nextHeader)) == Some((payload, nextHeader))
  {
    PlaintextShape(a, payload, nextHeader);
    var n: byte := BlockPad(a, |payload|) + IcvPad(a, |payload|);
    assert n % 256 == n;
    UnpadPadded(payload, n, nextHeader);
  }

  /** An encrypted packet that passes the window decrypts to the payload it was made
      from and its next header, exactly when the second padding is a whole number of
      blocks; otherwise the receiver refuses its length. */
  lemma EspRoundTrip(a: Aead, w: Window, size: nat, spi: nat, seqno: nat, payload: seq<byte>, nextHeader: byte)
    requires Sound(a) && WellFormed(w, size) && seqno < TWO32 && Verify(w, seqno)
    ensures Decrypt(a, w, Encrypt(a, spi, seqno, payload, nextHeader))
      == if IcvPad(a, |payload|) % a.blockSize != 0 then (ParseError, w)
         else (Payload(payload, nextHeader), Authenticate(w, seqno))
  {
    var data, plain := Encrypt(a, spi, seqno, payload, nextHeader), Plaintext(a, payload, nextHeader);
    PlaintextShape(a, payload, nextHeader);
    PacketParts(a, spi, seqno, payload, nextHeader);
    if |plain| % a.blockSize == 0 {
      PaddingRoundTrip(a, payload, nextHeader);
    }
  }

  /** A transform that leaves its input alone, with blocks of three bytes. */
  const Threes: Aead := Aead(3, 0, 0, (p, aad, iv) => p, (p, aad, iv) => Some(p), n => [])

  lemma ThreesSound()
    ensures Sound(Threes) && IcvPad(Threes, 1) % Threes.blockSize == 1
  {
    assert BlockPad(Threes, 1) == 0 && IcvPad(Threes, 1) == 1;
  }

  /** A packet that its own receiver refuses: one byte, with blocks of three. */
  lemma UnalignedIsRefused(w: Window, size: nat, spi: nat, seqno: nat, nextHeader: byte)
    requires WellFormed(w, size) && seqno < TWO32 && Verify(w, seqno)
    ensures Sound(Threes) && Decrypt(Threes, w, Encrypt(Threes, spi, seqno, [0], nextHeader)).0 == ParseError
  {
    ThreesSound();
    EspRoundTrip(Threes, w, size, spi, seqno, [0], nextHeader);
  }

  /** Section 2 of RFC 4303: SPI and sequence number come first, in network order. */
  lemma PacketHeader(a: Aead, spi: nat, seqno: nat, payload: seq<byte>, nextHeader: byte)
    requires Sound(a) && spi < TWO32 && seqno < TWO32
    ensures var data := Encrypt(a, spi, seqno, payload, nextHeader);
      |data| >= 8 && U32(data[..4]) == spi && U32(data[4..8]) == seqno
  {
    var data := Encrypt(a, spi, seqno, payload, nextHeader);
    assert data[..4] == FromU32(spi) && data[4..8] == FromU32(seqno);
  }

  /** 1, 2, 3 and so on. */
  predicate CountsUp(s: seq<byte>) {
    forall i | 0 <= i < |s| :: s[i] == i + 1
  }

  lemma PaddingCountsUp(s: seq<byte>)
    requires |s| < 256
    ensures s == Padding(|s|) <==> CountsUp(s)
  {
    if CountsUp(s) {
      assert forall i | 0 <= i < |s| :: s[i] == Padding(|s|)[i];
    }
  }

  /** The payload, the bytes 1, 2, 3 and so on, how many of these there are, and the
      next header: section 2.4 of RFC 4303. */
  predicate WellPadded(plain: seq<byte>, payload: seq<byte>, nextHeader: byte) {
    && |plain| >= 2 && |plain| == |payload| + plain[|plain| - 2] as nat + 2
    && payload <= plain && CountsUp(plain[|payload|..|plain| - 2]) && plain[|plain| - 1] == nextHeader
  }

  /** Exactly well-padded plaintexts are accepted, whoever made them. */
  lemma UnpadMeans(plain: seq<byte>, payload: seq<byte>, nextHeader: byte)
    ensures Unpad(plain) == Some((payload, nextHeader)) <==> WellPadded(plain, payload, nextHeader)
  {
    if |plain| >= 2 && plain[|plain| - 2] <= |plain| - 2 {
      var n: nat, rest := plain[|plain| - 2], plain[..|plain| - 2];
      var k := |rest| - n;
      assert rest[k..] == plain[k..|plain| - 2] && rest[..k] == plain[..k];
      PaddingCountsUp(rest[k..]);
      assert |payload| == k && payload <= plain ==> payload == plain[..k];
    }
  }

  lemma PlaintextBytes(a: Aead, payload: seq<byte>, nextHeader: byte)
    requires 0 < a.blockSize <= 252
    ensures WellPadded(Plaintext(a, payload, nextHeader), payload, nextHeader)
  {
    PaddingRoundTrip(a, payload, nextHeader);
    UnpadMeans(Plaintext(a, payload, nextHeader), payload, nextHeader);
  }

  /** The plaintext is an IP packet with well-formed padding. */
  ghost predicate Carries(plain: seq<byte>, p: Ip.Packet, nextHeader: byte) {
    exists payload :: WellPadded(plain, payload, nextHeader) && Ip.Parse(payload) == Some(p)
  }

  /** A packet gives an IP packet exactly if its length, number, ICV and padding are right
      and its payload parses. */
  lemma DecryptMeans(a: Aead, w: Window, data: seq<byte>, plain: Option<seq<byte>>, p: Ip.Packet, nextHeader: byte)
    requires a.blockSize > 0 && w.index < |w.bits|
    requires |data| >= 8 + a.ivSize ==> plain == a.decrypt(data[8 + a.ivSize..], data[..8], data[8..8 + a.ivSize])
    ensures Decrypt(a, w, data).0 == Success(p, nextHeader) <==>
      && |data| >= 8 + a.ivSize + a.icvSize && (|data| - 8 - a.ivSize - a.icvSize) % a.blockSize == 0
      && Verify(w, U32(data[4..8])) && plain.Some? && Carries(plain.value, p, nextHeader)
  {
    var success := Success(p, nextHeader);
    DecryptedMeans(a, w, data, plain, success);
    if plain.Some? {
      RemovedMeans(plain.value, p, nextHeader);
    }
  }

  lemma DecryptedMeans(a: Aead, w: Window, data: seq<byte>, plain: Option<seq<byte>>, r: Decrypted)
    requires a.blockSize > 0 && w.index < |w.bits| && r.Success?
    requires |data| >= 8 + a.ivSize ==> plain == a.decrypt(data[8 + a.ivSize..], data[..8], data[8..8 + a.ivSize])
    ensures Decrypt(a, w, data).0 == r <==>
      && |data| >= 8 + a.ivSize + a.icvSize && (|data| - 8 - a.ivSize - a.icvSize) % a.blockSize == 0
      && Verify(w, U32(data[4..8])) && plain.Some? && RemovePadding(plain.value) == r
  {
    if |data| >= 8 + a.ivSize {
      OpenMeans(a, w, data, plain, r);
    }
  }

  lemma OpenMeans(a: Aead, w: Window, data: seq<byte>, plain: Option<seq<byte>>, r: Decrypted)
    requires |data| >= 8 + a.ivSize && w.index < |w.bits| && r.Success?
    requires plain == a.decrypt(data[8 + a.ivSize..], data[..8], data[8..8 + a.ivSize])
    ensures Open(a, w, data).0 == r <==>
      Verify(w, U32(data[4..8])) && plain.Some? && RemovePadding(plain.value) == r
  {
  }

  lemma RemovedMeans(plain: seq<byte>, p: Ip.Packet, nextHeader: byte)
    ensures RemovePadding(plain) == Success(p, nextHeader) <==> Carries(plain, p, nextHeader)
  {
    forall payload {:trigger WellPadded(plain, payload, nextHeader)}
      ensures Unpad(plain) == Some((payload, nextHeader)) <==> WellPadded(plain, payload, nextHeader)
    {
      UnpadMeans(plain, payload, nextHeader);
    }
    match Unpad(plain)
    case None =>
    case Some((payload, next)) =>
      if next == nextHeader {
        assert WellPadded(plain, payload, nextHeader);
      }
  }

  lemma PacketParts(a: Aead, spi: nat, seqno: nat, payload: seq<byte>, nextHeader: byte)
    requires Sound(a) && seqno < TWO32
    ensures var data, plain := Encrypt(a, spi, seqno, payload, nextHeader), Plaintext(a, payload, nextHeader);
      && |data| == 8 + a.ivSize + |plain| + a.icvSize
      && data[..8] == Aad(spi, seqno) && U32(data[4..8]) == seqno && data[8..8 + a.ivSize] == a.iv(seqno)
      && data[8 + a.ivSize..] == a.encrypt(plain, Aad(spi, seqno), a.iv(seqno))
  {
    var data := Encrypt(a, spi, seqno, payload, nextHeader);
    assert |a.iv(seqno)| == a.ivSize;
    assert data[4..8] == FromU32(seqno);
  }

  /** What one end parsed and sent, the other end gets. */
  lemma TunnelRoundTrip(a: Aead, w: Window, size: nat, spi: nat, seqno: nat, packet: seq<byte>, nextHeader: byte)
    requires Sound(a) && WellFormed(w, size) && seqno < TWO32 && Verify(w, seqno)
    requires Ip.Parse(packet).Some?
    requires IcvPad(a, |Ip.Parse(packet).value.encoding|) % a.blockSize == 0
    ensures var p := Ip.Parse(packet).value;
      Decrypt(a, w, Encrypt(a, spi, seqno, p.encoding, nextHeader)).0
      == if Ip.CutsHeader(packet) then ParseError else Success(p, nextHeader)
  {
    EspRoundTrip(a, w, size, spi, seqno, Ip.Parse(packet).value.encoding, nextHeader);
    Ip.ParseEncoding(packet);
  }
}
