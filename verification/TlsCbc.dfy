/** TLS record protection with a block cipher in CBC mode and a MAC: the implicit IV
    of section 6.2.3.2 of RFC 2246, which is the last ciphertext block of the record
    before, and the explicit IV of section 6.2.3.2 of RFC 5246. */
module TlsCbc {
  import opened Bytes
  import opened Ciphers

  ghost predicate Sound(c: Crypter, m: Signer) {
    SoundCrypter(c) && SoundSigner(m) && c.blockSize < 256 && c.ivSize <= c.blockSize
  }

  /** What is authenticated along with the data. */
  datatype Header = Header(seqno: nat, contentType: byte, version: nat)

  function SigHeader(h: Header, len: nat): seq<byte> {
    FromU32(h.seqno / 0x1_0000_0000) + FromU32(h.seqno % 0x1_0000_0000)
    + [h.contentType] + FromU16(h.version) + FromU16(len)
  }

  function Mac(m: Signer, h: Header, data: seq<byte>): seq<byte> {
    m.mac(SigHeader(h, |data|) + data)
  }

  function Repeat(b: byte, n: nat): (s: seq<byte>)
    ensures |s| == n && forall i | 0 <= i < n :: s[i] == b
  {
    seq(n, _ => b)
  }

  /** Data, MAC, padding and its length: what gets encrypted. */
  function Padded(c: Crypter, m: Signer, h: Header, data: seq<byte>): seq<byte>
    requires 0 < c.blockSize < 256
  {
    var mac := Mac(m, h, data);
    var padlen := PadLen(|data| + |mac| + 1, c.blockSize);
    data + mac + Repeat(padlen, padlen) + [padlen]
  }

  /** Padding that looks like padding is removed; bad padding is an error; a padding
      length beyond the record is left for the MAC to find. */
  function StripPadding(plain: seq<byte>): Option<seq<byte>>
    requires plain != []
  {
    var padlen := plain[|plain| - 1];
    if padlen >= |plain| then Some(plain)
    else if plain[|plain| - padlen - 1..|plain| - 1] != Repeat(padlen, padlen) then None
    else Some(plain[..|plain| - padlen - 1])
  }

  function CheckMac(m: Signer, h: Header, data: seq<byte>): Option<seq<byte>> {
    if |data| < m.blockSize then None else
      var body, mac := data[..|data| - m.blockSize], data[|data| - m.blockSize..];
      if Mac(m, h, body) == mac then Some(body) else None
  }

  function Unprotect(m: Signer, h: Header, plain: seq<byte>): Option<seq<byte>>
    requires plain != []
  {
    match StripPadding(plain)
    case None => None
    case Some(data) => CheckMac(m, h, data)
  }

  method Strip(plain: seq<byte>) returns (data: Option<seq<byte>>)
    requires plain != []
    ensures data == StripPadding(plain)
  {
    var padlen := plain[|plain| - 1];
    if padlen < |plain| {
      var i := |plain| - padlen - 1;
      ghost var start := i;
      while i < |plain| - 1
        invariant start <= i <= |plain| - 1
        invariant forall k | start <= k < i :: plain[k] == padlen
      {
        if plain[i] != padlen {
          assert plain[start..|plain| - 1][i - start] != padlen;
          return None;
        }
        i := i + 1;
      }
      return Some(plain[..|plain| - (padlen + 1)]);
    }
    return Some(plain);
  }

  lemma StripPadded(rest: seq<byte>, padlen: byte)
    ensures StripPadding(rest + Repeat(padlen, padlen) + [padlen]) == Some(rest)
  {
    var plain := rest + Repeat(padlen, padlen) + [padlen];
    assert plain[|plain| - padlen - 1..|plain| - 1] == Repeat(padlen, padlen);
    assert plain[..|plain| - padlen - 1] == rest;
  }

  lemma CheckOwnMac(m: Signer, h: Header, data: seq<byte>)
    requires |Mac(m, h, data)| == m.blockSize
    ensures CheckMac(m, h, data + Mac(m, h, data)) == Some(data)
  {
    var all := data + Mac(m, h, data);
    assert all[..|all| - m.blockSize] == data && all[|all| - m.blockSize..] == Mac(m, h, data);
  }

  lemma UnprotectPadded(c: Crypter, m: Signer, h: Header, data: seq<byte>)
    requires Sound(c, m)
    ensures var plain := Padded(c, m, h, data);
      |plain| >= c.blockSize && |plain| % c.blockSize == 0 && Unprotect(m, h, plain) == Some(data)
  {
    var mac, plain := Mac(m, h, data), Padded(c, m, h, data);
    assert |mac| == m.blockSize;
    PaddedLength(c, m, h, data);
    assert StripPadding(plain) == Some(data + mac) by {
      StripPadded(data + mac, PadLen(|data| + |mac| + 1, c.blockSize));
    }
    CheckOwnMac(m, h, data);
  }

  lemma PaddedLength(c: Crypter, m: Signer, h: Header, data: seq<byte>)
    requires 0 < c.blockSize < 256
    ensures var n := |Padded(c, m, h, data)|; n >= c.blockSize && n % c.blockSize == 0
  {
    var n := |data| + |Mac(m, h, data)| + 1;
    assert |Padded(c, m, h, data)| == n + PadLen(n, c.blockSize);
    WholeBlocks(n + PadLen(n, c.blockSize), c.blockSize);
  }

  lemma WholeBlocks(n: nat, size: nat)
    requires n > 0 && size > 0 && n % size == 0
    ensures n >= size
  {
    if n < size {
      DivModUnique(0, n, size);
    }
  }

  // ----- what is accepted

  /** `data` is what the padding leaves: the last byte n and the n bytes before it are
      padding if all are n; a last byte beyond the record is no padding. */
  predicate WithoutPadding(plain: seq<byte>, data: seq<byte>)
    requires plain != []
  {
    var n := plain[|plain| - 1];
    if n >= |plain| then data == plain
    else |data| == |plain| - n - 1 && data <= plain && forall i | |data| <= i < |plain| :: plain[i] == n
  }

  /** The plaintext holds the body, its MAC and well-formed padding, and nothing else. */
  predicate Authentic(m: Signer, h: Header, plain: seq<byte>, body: seq<byte>)
    requires plain != []
  {
    var mac := m.mac(SigHeader(h, |body|) + body);
    |mac| == m.blockSize && WithoutPadding(plain, body + mac)
  }

  lemma StrippedMeans(plain: seq<byte>, data: seq<byte>)
    requires plain != []
    ensures StripPadding(plain) == Some(data) <==> WithoutPadding(plain, data)
  {
    var n := plain[|plain| - 1];
    if n < |plain| {
      var k, pad := |plain| - n - 1, plain[|plain| - n - 1..|plain| - 1];
      if pad == Repeat(n, n) {
        assert forall i | k <= i < |plain| - 1 :: plain[i] == pad[i - k];
        assert data <= plain && |data| == k ==> data == plain[..k];
      }
    }
  }

  lemma CheckedMeans(m: Signer, h: Header, data: seq<byte>, body: seq<byte>)
    ensures CheckMac(m, h, data) == Some(body)
      <==> var mac := m.mac(SigHeader(h, |body|) + body); |mac| == m.blockSize && data == body + mac
  {
    var mac := m.mac(SigHeader(h, |body|) + body);
    if |mac| == m.blockSize && data == body + mac {
      assert data[..|data| - m.blockSize] == body && data[|data| - m.blockSize..] == mac;
    }
  }

  /** Exactly the authentic plaintexts are accepted, whoever made them. */
  lemma UnprotectMeans(m: Signer, h: Header, plain: seq<byte>, body: seq<byte>)
    requires plain != []
    ensures Unprotect(m, h, plain) == Some(body) <==> Authentic(m, h, plain, body)
  {
    var all := body + m.mac(SigHeader(h, |body|) + body);
    StrippedMeans(plain, all);
    match StripPadding(plain)
    case None =>
    case Some(data) =>
      StrippedMeans(plain, data);
      CheckedMeans(m, h, data, body);
  }

  /** The 13 bytes: sequence number, type, version and length, all in network order. */
  lemma SigHeaderBytes(h: Header, len: nat)
    requires h.seqno < 0x1_0000_0000_0000_0000 && h.version < 0x1_0000 && len < 0x1_0000
    ensures var s := SigHeader(h, len);
      && |s| == 13 && h.seqno == U32(s[..4]) * 0x1_0000_0000 + U32(s[4..8])
      && s[8] == h.contentType && h.version == U16(s[9], s[10]) && len == U16(s[11], s[12])
  {
    var s, high, low := SigHeader(h, len), FromU32(h.seqno / 0x1_0000_0000), FromU32(h.seqno % 0x1_0000_0000);
    assert s[..4] == high && s[4..8] == low;
  }

  /** What is encrypted: data, MAC, and the least padding that fills the blocks. */
  lemma PaddedBytes(c: Crypter, m: Signer, h: Header, data: seq<byte>)
    requires 0 < c.blockSize < 256 && |m.mac(SigHeader(h, |data|) + data)| == m.blockSize
    ensures var plain := Padded(c, m, h, data);
      && plain != [] && Authentic(m, h, plain, data) && |plain| % c.blockSize == 0
      && |plain| <= |data| + m.blockSize + c.blockSize
  {
    var mac, plain := Mac(m, h, data), Padded(c, m, h, data);
    PaddedLength(c, m, h, data);
    StripPadded(data + mac, PadLen(|data| + |mac| + 1, c.blockSize));
    CheckOwnMac(m, h, data);
    UnprotectMeans(m, h, plain, data);
  }

  // ----- implicit IV

  /** The IV of the next record. */
  function LastBytes(s: seq<byte>, n: nat): seq<byte>
    requires n <= |s|
  {
    s[|s| - n..]
  }

  /** The record, and the IV afterwards. */
  function EncryptImplicit(c: Crypter, m: Signer, iv: seq<byte>, h: Header, data: seq<byte>)
      : (Option<seq<byte>>, seq<byte>)
    requires 0 < c.blockSize < 256
  {
    var record := c.encrypt(Padded(c, m, h, data), iv);
    if |record| < |iv| then (None, iv) else (Some(record), LastBytes(record, |iv|))
  }

  function DecryptImplicit(c: Crypter, m: Signer, iv: seq<byte>, h: Header, record: seq<byte>)
      : (Option<seq<byte>>, seq<byte>)
    requires c.blockSize > 0 && |c.decrypt(record, iv)| == |record|
  {
    if |record| < c.blockSize || |record| < |iv| || |record| % c.blockSize != 0 then (None, iv)
    else (Unprotect(m, h, c.decrypt(record, iv)), LastBytes(record, |iv|))
  }

  /** A record that may be decrypted at all. */
  predicate Readable(c: Crypter, ivSize: nat, record: seq<byte>)
    requires c.blockSize > 0
  {
    |record| >= c.blockSize && |record| >= ivSize && |record| % c.blockSize == 0
  }

  class ImplicitAead {
    const crypter: Crypter
    const signer: Signer
    var iv: array<byte>

    constructor (crypter: Crypter, signer: Signer, iv: seq<byte>)
      ensures this.crypter == crypter && this.signer == signer && fresh(this.iv) && this.iv[..] == iv
    {
      this.crypter, this.signer := crypter, signer;
      this.iv := new byte[|iv|](i requires 0 <= i < |iv| => iv[i]);
    }

    method StoreIv(record: seq<byte>)
      requires iv.Length <= |record|
      modifies iv
      ensures iv[..] == LastBytes(record, iv.Length)
    {
      forall i | 0 <= i < iv.Length {
        iv[i] := record[|record| - iv.Length + i];
      }
    }

    method Encrypt(h: Header, data: seq<byte>) returns (record: Option<seq<byte>>)
      requires 0 < crypter.blockSize < 256
      modifies iv
      ensures (record, iv[..]) == EncryptImplicit(crypter, signer, old(iv[..]), h, data)
      ensures record.Some? ==> iv.Length <= |record.value| && iv[..] == record.value[|record.value| - iv.Length..]
    {
      var mac := signer.mac(SigHeader(h, |data|) + data);
      var padlen := PadLen(|data| + |mac| + 1, crypter.blockSize);
      var padded := data + mac + Repeat(padlen, padlen) + [padlen];
      var encrypted := crypter.encrypt(padded, iv[..]);
      if |encrypted| < iv.Length {
        return None;
      }
      StoreIv(encrypted);
      return Some(encrypted);
    }

    method Decrypt(h: Header, record: seq<byte>) returns (data: Option<seq<byte>>)
      requires crypter.blockSize > 0 && |crypter.decrypt(record, iv[..])| == |record|
      modifies iv
      ensures (data, iv[..]) == DecryptImplicit(crypter, signer, old(iv[..]), h, record)
      ensures forall body :: data == Some(body) <==>
        Readable(crypter, iv.Length, record)
        && Authentic(signer, h, crypter.decrypt(record, old(iv[..])), body)
      ensures iv[..] == if Readable(crypter, iv.Length, record) then record[|record| - iv.Length..] else old(iv[..])
    {
      forall body { ImplicitMeans(crypter, signer, iv[..], h, record, body); }
      if |record| < crypter.blockSize || |record| < iv.Length || |record| % crypter.blockSize != 0 {
        return None;
      }
      var was := iv[..];
      StoreIv(record);
      var stripped := Strip(crypter.decrypt(record, was));
      match stripped
      case None => data := None;
      case Some(rest) => data := CheckMac(signer, h, rest);
    }
  }

  lemma ImplicitMeans(c: Crypter, m: Signer, iv: seq<byte>, h: Header, record: seq<byte>, body: seq<byte>)
    requires c.blockSize > 0 && |c.decrypt(record, iv)| == |record|
    ensures DecryptImplicit(c, m, iv, h, record).0 == Some(body)
      <==> Readable(c, |iv|, record) && Authentic(m, h, c.decrypt(record, iv), body)
  {
    if Readable(c, |iv|, record) {
      UnprotectMeans(m, h, c.decrypt(record, iv), body);
    }
  }

  /** A record sent by one peer is read by the other, and both hold the same IV. */
  lemma ImplicitStep(c: Crypter, m: Signer, iv: seq<byte>, h: Header, data: seq<byte>)
    requires Sound(c, m) && |iv| == c.ivSize
    ensures var (record, iv') := EncryptImplicit(c, m, iv, h, data);
      && record.Some? && iv' == LastBytes(record.value, c.ivSize)
      && DecryptImplicit(c, m, iv, h, record.value) == (Some(data), iv')
  {
    UnprotectPadded(c, m, h, data);
  }

  datatype Sending = Sending(header: Header, data: seq<byte>)

  /** The records for a list of messages, and the IV afterwards. */
  function SendAll(c: Crypter, m: Signer, iv: seq<byte>, messages: seq<Sending>)
      : (seq<Option<seq<byte>>>, seq<byte>)
    requires 0 < c.blockSize < 256
    decreases |messages|
  {
    if messages == [] then ([], iv) else
      var (record, iv') := EncryptImplicit(c, m, iv, messages[0].header, messages[0].data);
      var (rest, last) := SendAll(c, m, iv', messages[1..]);
      ([record] + rest, last)
  }

  /** What the receiver makes of records that come with the headers it expects. */
  ghost function ReceiveAll(c: Crypter, m: Signer, iv: seq<byte>, messages: seq<Sending>,
                            records: seq<Option<seq<byte>>>): (seq<Option<seq<byte>>>, seq<byte>)
    requires Sound(c, m) && |messages| == |records| && forall i | 0 <= i < |records| :: records[i].Some?
    decreases |messages|
  {
    if messages == [] then ([], iv) else
      var (data, iv') := DecryptImplicit(c, m, iv, messages[0].header, records[0].value);
      var (rest, last) := ReceiveAll(c, m, iv', messages[1..], records[1..]);
      ([data] + rest, last)
  }

  /** Peers that start from the same IV stay in step over every sequence of records:
      every message is read as it was sent, and both end with the same IV. */
  lemma {:induction false} ImplicitChain(c: Crypter, m: Signer, iv: seq<byte>, messages: seq<Sending>)
    requires Sound(c, m) && |iv| == c.ivSize
    ensures var (records, last) := SendAll(c, m, iv, messages);
      && |records| == |messages| && (forall i | 0 <= i < |records| :: records[i].Some?)
      && |last| == c.ivSize
      && (messages != [] ==> |records[|records| - 1].value| >= c.ivSize
                             && last == LastBytes(records[|records| - 1].value, c.ivSize))
      && var (read, last') := ReceiveAll(c, m, iv, messages, records);
         && last' == last && |read| == |messages|
         && forall i | 0 <= i < |read| :: read[i] == Some(messages[i].data)
    decreases |messages|
  {
    if messages != [] {
      var h, data := messages[0].header, messages[0].data;
      ImplicitStep(c, m, iv, h, data);
      var (record, iv') := EncryptImplicit(c, m, iv, h, data);
      ImplicitChain(c, m, iv', messages[1..]);
      var (rest, _) := SendAll(c, m, iv', messages[1..]);
      assert ([record] + rest)[1..] == rest;
    }
  }

  // ----- explicit IV

  function EncryptExplicit(c: Crypter, m: Signer, ivGen: nat -> seq<byte>, h: Header, data: seq<byte>): seq<byte>
    requires 0 < c.blockSize < 256
  {
    var iv := ivGen(h.seqno);
    iv + c.encrypt(Padded(c, m, h, data), iv)
  }

  function DecryptExplicit(c: Crypter, m: Signer, h: Header, record: seq<byte>): Option<seq<byte>>
    requires c.blockSize > 0 && forall s, iv :: |c.decrypt(s, iv)| == |s|
  {
    if |record| < c.ivSize then None else
      var iv, body := record[..c.ivSize], record[c.ivSize..];
      if |body| < c.blockSize || |body| % c.blockSize != 0 then None
      else Unprotect(m, h, c.decrypt(body, iv))
  }

  method SealExplicit(c: Crypter, m: Signer, ivGen: nat -> seq<byte>, h: Header, data: seq<byte>)
      returns (record: seq<byte>)
    requires 0 < c.blockSize < 256
    ensures record == EncryptExplicit(c, m, ivGen, h, data)
  {
    var mac := m.mac(SigHeader(h, |data|) + data);
    var padlen := PadLen(|data| + |mac| + 1, c.blockSize);
    var iv := ivGen(h.seqno);
    record := data + mac + Repeat(padlen, padlen) + [padlen];
    record := iv + c.encrypt(record, iv);
  }

  method OpenExplicit(c: Crypter, m: Signer, h: Header, record: seq<byte>) returns (data: Option<seq<byte>>)
    requires c.blockSize > 0 && forall s, iv :: |c.decrypt(s, iv)| == |s|
    ensures data == DecryptExplicit(c, m, h, record)
    ensures forall body :: data == Some(body) <==>
      && |record| >= c.ivSize && Readable(c, 0, record[c.ivSize..])
      && Authentic(m, h, c.decrypt(record[c.ivSize..], record[..c.ivSize]), body)
  {
    forall body { ExplicitMeans(c, m, h, record, body); }
    if |record| < c.ivSize {
      return None;
    }
    var iv, body := record[..c.ivSize], record[c.ivSize..];
    if |body| < c.blockSize || |body| % c.blockSize != 0 {
      return None;
    }
    var stripped := Strip(c.decrypt(body, iv));
    match stripped
    case None => data := None;
    case Some(rest) => data := CheckMac(m, h, rest);
  }

  lemma ExplicitMeans(c: Crypter, m: Signer, h: Header, record: seq<byte>, body: seq<byte>)
    requires c.blockSize > 0 && forall s, iv :: |c.decrypt(s, iv)| == |s|
    ensures DecryptExplicit(c, m, h, record) == Some(body) <==>
      && |record| >= c.ivSize && Readable(c, 0, record[c.ivSize..])
      && Authentic(m, h, c.decrypt(record[c.ivSize..], record[..c.ivSize]), body)
  {
    if |record| >= c.ivSize && Readable(c, 0, record[c.ivSize..]) {
      UnprotectMeans(m, h, c.decrypt(record[c.ivSize..], record[..c.ivSize]), body);
    }
  }

  /** Every record can be read on its own. */
  lemma ExplicitRoundTrip(c: Crypter, m: Signer, ivGen: nat -> seq<byte>, h: Header, data: seq<byte>)
    requires Sound(c, m) && |ivGen(h.seqno)| == c.ivSize
    ensures DecryptExplicit(c, m, h, EncryptExplicit(c, m, ivGen, h, data)) == Some(data)
  {
    UnprotectPadded(c, m, h, data);
    var iv, record := ivGen(h.seqno), EncryptExplicit(c, m, ivGen, h, data);
    assert record[..c.ivSize] == iv;
    assert record[c.ivSize..] == c.encrypt(Padded(c, m, h, data), iv);
  }
}
