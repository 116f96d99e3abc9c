/** RADIUS attribute hiding (section 5.2 of RFC 2865, section 2.4.2 of RFC 2548): one
    routine encrypts when input and output are the same buffer, and decrypts when
    they are not. */
module RadiusCrypt {
  import opened Bytes

  ghost predicate Gives16(f: seq<byte> -> seq<byte>) {
    forall s :: |f(s)| == 16
  }

  type Hash = f: seq<byte> -> seq<byte> | Gives16(f) witness (_ => Zeros(16))

  // ----- exclusive or

  function Pow2(n: nat): (p: nat)
    ensures p > 0
  {
    if n == 0 then 1 else 2 * Pow2(n - 1)
  }

  /** Bitwise exclusive or of the low n bits. */
  function XorBits(a: nat, b: nat, n: nat): (x: nat)
    ensures x < Pow2(n)
  {
    if n == 0 then 0
    else (if a % 2 == b % 2 then 0 else 1) + 2 * XorBits(a / 2, b / 2, n - 1)
  }

  lemma {:induction false} XorTwice(a: nat, b: nat, n: nat)
    requires a < Pow2(n)
    ensures XorBits(XorBits(a, b, n), b, n) == a
  {
    if n > 0 {
      XorHalf(a, b, n);
      XorHalf(XorBits(a, b, n), b, n);
      XorTwice(a / 2, b / 2, n - 1);
    }
  }

  function Xor(a: byte, b: byte): byte {
    assert Pow2(8) == 256 by { assert Pow2(4) == 16; }
    XorBits(a, b, 8)
  }

  /** Bit k of a number: the lowest one after halving it k times. */
  predicate Bit(n: nat, k: nat) {
    if k == 0 then n % 2 == 1 else Bit(n / 2, k - 1)
  }

  lemma {:induction false} XorBit(a: nat, b: nat, n: nat, k: nat)
    requires k < n
    ensures Bit(XorBits(a, b, n), k) <==> Bit(a, k) != Bit(b, k)
  {
    XorHalf(a, b, n);
    if k > 0 {
      XorBit(a / 2, b / 2, n - 1, k - 1);
    }
  }

  lemma XorHalf(a: nat, b: nat, n: nat)
    requires n > 0
    ensures XorBits(a, b, n) % 2 == (if a % 2 == b % 2 then 0 else 1)
    ensures XorBits(a, b, n) / 2 == XorBits(a / 2, b / 2, n - 1)
  {
    DivModUnique(XorBits(a / 2, b / 2, n - 1), if a % 2 == b % 2 then 0 else 1, 2);
  }

  /** Byte c is the exclusive or of p and b, bit by bit. */
  predicate IsXor(c: byte, p: byte, b: byte) {
    forall k | 0 <= k < 8 :: Bit(c, k) <==> Bit(p, k) != Bit(b, k)
  }

  lemma XorIsXor(a: byte, b: byte)
    ensures IsXor(Xor(a, b), a, b)
  {
    forall k | 0 <= k < 8 ensures Bit(Xor(a, b), k) <==> Bit(a, k) != Bit(b, k) {
      XorBit(a, b, 8, k);
    }
  }

  function XorSeq(s: seq<byte>, t: seq<byte>): (r: seq<byte>)
    requires |s| == |t|
    ensures |r| == |s|
  {
    seq(|s|, i requires 0 <= i < |s| => Xor(s[i], t[i]))
  }

  lemma XorSeqTwice(s: seq<byte>, t: seq<byte>)
    requires |s| == |t|
    ensures XorSeq(XorSeq(s, t), t) == s
  {
    assert Pow2(8) == 256 by { assert Pow2(4) == 16; }
    forall i | 0 <= i < |s| ensures Xor(Xor(s[i], t[i]), t[i]) == s[i] {
      XorTwice(s[i], t[i], 8);
    }
  }

  // ----- the chained construction, block by block

  /** c(i) = p(i) xor b(i), b(i + 1) = hash(secret, c(i)) */
  function EncryptChain(hash: Hash, secret: seq<byte>, b: seq<byte>, p: seq<byte>): (c: seq<byte>)
    requires |b| == 16
    ensures |c| == |p|
    decreases |p|
  {
    if |p| < 16 then p else
      var c := XorSeq(p[..16], b);
      c + EncryptChain(hash, secret, hash(secret + c), p[16..])
  }

  /** p(i) = c(i) xor b(i), b(i + 1) = hash(secret, c(i)) */
  function DecryptChain(hash: Hash, secret: seq<byte>, b: seq<byte>, c: seq<byte>): (p: seq<byte>)
    requires |b| == 16
    ensures |p| == |c|
    decreases |c|
  {
    if |c| < 16 then c else
      XorSeq(c[..16], b) + DecryptChain(hash, secret, hash(secret + c[..16]), c[16..])
  }

  /** Decryption undoes encryption, for every hash function, secret and length. */
  lemma {:induction false} DecryptAfterEncrypt(hash: Hash, secret: seq<byte>, b: seq<byte>, p: seq<byte>)
    requires |b| == 16
    ensures DecryptChain(hash, secret, b, EncryptChain(hash, secret, b, p)) == p
    decreases |p|
  {
    if |p| >= 16 {
      var c, all := XorSeq(p[..16], b), EncryptChain(hash, secret, b, p);
      assert all[..16] == c && all[16..] == EncryptChain(hash, secret, hash(secret + c), p[16..]);
      XorSeqTwice(p[..16], b);
      DecryptAfterEncrypt(hash, secret, hash(secret + c), p[16..]);
      assert p == p[..16] + p[16..];
    }
  }

  /** And the other way round. */
  lemma {:induction false} EncryptAfterDecrypt(hash: Hash, secret: seq<byte>, b: seq<byte>, c: seq<byte>)
    requires |b| == 16
    ensures EncryptChain(hash, secret, b, DecryptChain(hash, secret, b, c)) == c
    decreases |c|
  {
    if |c| >= 16 {
      var first, all := c[..16], DecryptChain(hash, secret, b, c);
      var p := XorSeq(first, b);
      var rest := DecryptChain(hash, secret, hash(secret + first), c[16..]);
      assert all[..16] == p && all[16..] == rest;
      XorSeqTwice(first, b);
      EncryptAfterDecrypt(hash, secret, hash(secret + first), c[16..]);
      assert c == first + c[16..];
    }
  }

  // ----- what the blocks are

  /** The pad of block i: the first one is given, and then they come from ciphertext. */
  function PadOf(hash: Hash, secret: seq<byte>, first: seq<byte>, c: seq<byte>, i: nat): (b: seq<byte>)
    requires |first| == 16 && 16 * i <= |c|
    ensures |b| == 16
  {
    if i == 0 then first else hash(secret + c[16 * (i - 1)..16 * i])
  }

  ghost predicate BlockHidden(hash: Hash, secret: seq<byte>, first: seq<byte>, p: seq<byte>, c: seq<byte>, i: nat)
    requires |first| == 16 && 16 * i + 16 <= |p| == |c|
  {
    forall j | 0 <= j < 16 :: IsXor(c[16 * i + j], p[16 * i + j], PadOf(hash, secret, first, c, i)[j])
  }

  /** Each block of c is the exclusive or of the block of p with its pad. */
  ghost predicate Hides(hash: Hash, secret: seq<byte>, first: seq<byte>, p: seq<byte>, c: seq<byte>) {
    && |first| == 16 && |p| == |c|
    && forall i: nat | 16 * i + 16 <= |p| :: BlockHidden(hash, secret, first, p, c, i)
  }

  lemma NextBlocks(hash: Hash, secret: seq<byte>, first: seq<byte>, p: seq<byte>, c: seq<byte>)
    requires |first| == 16 && |p| == |c| >= 16 && BlockHidden(hash, secret, first, p, c, 0)
    requires Hides(hash, secret, hash(secret + c[..16]), p[16..], c[16..])
    ensures Hides(hash, secret, first, p, c)
  {
    var second, q, d := hash(secret + c[..16]), p[16..], c[16..];
    forall i: nat | 16 * i + 16 <= |p| ensures BlockHidden(hash, secret, first, p, c, i) {
      if i > 0 {
        assert BlockHidden(hash, secret, second, q, d, i - 1);
        SamePad(hash, secret, first, c, i);
        forall j | 0 <= j < 16 ensures IsXor(c[16 * i + j], p[16 * i + j], PadOf(hash, secret, first, c, i)[j]) {
          assert c[16 * i + j] == d[16 * (i - 1) + j] && p[16 * i + j] == q[16 * (i - 1) + j];
        }
      }
    }
  }

  lemma SamePad(hash: Hash, secret: seq<byte>, first: seq<byte>, c: seq<byte>, i: nat)
    requires |first| == 16 && 0 < i && 16 * i <= |c|
    ensures PadOf(hash, secret, first, c, i) == PadOf(hash, secret, hash(secret + c[..16]), c[16..], i - 1)
  {
    if i > 1 {
      SliceOfRest(c, 16 * (i - 2), 16 * (i - 1));
    }
  }

  lemma SliceOfRest(c: seq<byte>, lo: nat, hi: nat)
    requires lo <= hi && hi + 16 <= |c|
    ensures c[16..][lo..hi] == c[lo + 16..hi + 16]
  {
  }

  lemma XorSeqHides(hash: Hash, secret: seq<byte>, b: seq<byte>, p: seq<byte>, c: seq<byte>, inverse: bool)
    requires |b| == 16 && |p| == |c| >= 16
    requires if inverse then p[..16] == XorSeq(c[..16], b) else c[..16] == XorSeq(p[..16], b)
    ensures BlockHidden(hash, secret, b, p, c, 0)
  {
    forall j | 0 <= j < 16 ensures IsXor(c[j], p[j], b[j]) {
      if inverse {
        assert p[..16][j] == p[j];
        XorIsXor(c[j], b[j]);
      } else {
        assert c[..16][j] == c[j];
        XorIsXor(p[j], b[j]);
      }
    }
  }

  /** What the encrypted value is, for every hash function, secret and length. */
  lemma {:induction false} EncryptHides(hash: Hash, secret: seq<byte>, b: seq<byte>, p: seq<byte>)
    requires |b| == 16
    ensures Hides(hash, secret, b, p, EncryptChain(hash, secret, b, p))
    decreases |p|
  {
    if |p| >= 16 {
      var c := EncryptChain(hash, secret, b, p);
      assert c[..16] == XorSeq(p[..16], b);
      EncryptHides(hash, secret, hash(secret + c[..16]), p[16..]);
      assert c[16..] == EncryptChain(hash, secret, hash(secret + c[..16]), p[16..]);
      XorSeqHides(hash, secret, b, p, c, false);
      NextBlocks(hash, secret, b, p, c);
    }
  }

  /** And what the decrypted value is the hidden form of. */
  lemma {:induction false} DecryptReveals(hash: Hash, secret: seq<byte>, b: seq<byte>, c: seq<byte>)
    requires |b| == 16
    ensures Hides(hash, secret, b, DecryptChain(hash, secret, b, c), c)
    decreases |c|
  {
    if |c| >= 16 {
      var p := DecryptChain(hash, secret, b, c);
      assert p[..16] == XorSeq(c[..16], b);
      DecryptReveals(hash, secret, hash(secret + c[..16]), c[16..]);
      assert p[16..] == DecryptChain(hash, secret, hash(secret + c[..16]), c[16..]);
      XorSeqHides(hash, secret, b, p, c, true);
      NextBlocks(hash, secret, b, p, c);
    }
  }

  // ----- the routine

  /** The first pad: hash(secret, authenticator, salt). */
  function Seed(hash: Hash, secret: seq<byte>, authenticator: seq<byte>, salt: seq<byte>): seq<byte> {
    hash(secret + authenticator + salt)
  }

  method XorBlock(a: array<byte>, at: nat, b: seq<byte>)
    requires at + 16 <= a.Length && |b| == 16
    modifies a
    ensures a[..] == old(a[..at]) + XorSeq(old(a[at..at + 16]), b) + old(a[at + 16..])
  {
    forall i | 0 <= i < 16 {
      a[at + i] := Xor(a[at + i], b[i]);
    }
  }

  /** Which of the two it is depends on whether the buffers are the same. */
  function Chain(inPlace: bool, hash: Hash, secret: seq<byte>, b: seq<byte>, s: seq<byte>): (r: seq<byte>)
    requires |b| == 16
    ensures |r| == |s|
  {
    if inPlace then EncryptChain(hash, secret, b, s) else DecryptChain(hash, secret, b, s)
  }

  /** One block: the next pad comes from the input, which by then is ciphertext. */
  lemma ChainStep(inPlace: bool, hash: Hash, secret: seq<byte>, b: seq<byte>, s: seq<byte>)
    requires |b| == 16 && |s| >= 16
    ensures var block := XorSeq(s[..16], b);
      var seen := if inPlace then block else s[..16];
      Chain(inPlace, hash, secret, b, s) == block + Chain(inPlace, hash, secret, hash(secret + seen), s[16..])
  {
  }

  /** One round of the loop: returns the pad for the next block. */
  method CryptBlock(hash: Hash, secret: seq<byte>, b: seq<byte>, input: array<byte>, output: array<byte>, i: nat,
                    ghost text: seq<byte>) returns (b': seq<byte>)
    requires |b| == 16 && i + 16 <= |text| == input.Length == output.Length
    requires output[i..] == text[i..] && (input != output ==> input[..] == text)
    modifies output
    ensures |b'| == 16 && output[i + 16..] == text[i + 16..] && (input != output ==> input[..] == text)
    ensures output[..i + 16] + Chain(input == output, hash, secret, b', text[i + 16..])
      == old(output[..i]) + Chain(input == output, hash, secret, b, text[i..])
  {
    OneBlock(input == output, hash, secret, b, text, output[..], i);
    XorBlock(output, i, b);
    assert output[i..i + 16] == XorSeq(text[i..i + 16], b);
    assert output[..i + 16] == old(output[..i]) + XorSeq(text[i..i + 16], b);
    assert input != output ==> input[i..i + 16] == text[i..i + 16];
    if i + 16 < input.Length {
      b' := hash(secret + input[i..i + 16]);
    } else {
      b' := b;
    }
  }

  /** All rounds. */
  method CryptBlocks(hash: Hash, secret: seq<byte>, seed: seq<byte>, input: array<byte>, output: array<byte>,
                     ghost blocks: nat)
    requires |seed| == 16 && input.Length == output.Length == 16 * blocks && output[..] == input[..]
    modifies output
    ensures output[..] == Chain(input == output, hash, secret, seed, old(input[..]))
  {
    ghost var text, k := input[..], 0;
    var i, b := 0, seed;
    while i < input.Length
      invariant i == 16 * k && k <= blocks && |b| == 16
      invariant output[i..] == text[i..] && (input != output ==> input[..] == text)
      invariant output[..i] + Chain(input == output, hash, secret, b, text[i..])
                == Chain(input == output, hash, secret, seed, text)
    {
      b := CryptBlock(hash, secret, b, input, output, i, text);
      i, k := i + 16, k + 1;
    }
    assert output[..i] == output[..];
  }

  method Crypt(hash: Hash, secret: seq<byte>, authenticator: seq<byte>, salt: seq<byte>,
               input: array<byte>, output: array<byte>) returns (ok: bool)
    modifies output
    ensures ok <==> input.Length == output.Length && input.Length % 16 == 0 && input.Length >= 16
    ensures !ok ==> output[..] == old(output[..])
    ensures ok && input == output ==>
      output[..] == EncryptChain(hash, secret, Seed(hash, secret, authenticator, salt), old(input[..]))
    ensures ok && input != output ==>
      output[..] == DecryptChain(hash, secret, Seed(hash, secret, authenticator, salt), old(input[..]))
    ensures ok ==>
      var first, before := hash(secret + authenticator + salt), old(input[..]);
      if input == output then Hides(hash, secret, first, before, output[..])
      else Hides(hash, secret, first, output[..], before)
  {
    if input.Length != output.Length {
      return false;
    }
    if input.Length % 16 != 0 || input.Length < 16 {
      return false;
    }
    if output != input {
      forall k | 0 <= k < input.Length { output[k] := input[k]; }
    }
    assert input[..] == old(input[..]);
    ghost var first := hash(secret + authenticator + salt);
    EncryptHides(hash, secret, first, input[..]);
    DecryptReveals(hash, secret, first, input[..]);
    CryptBlocks(hash, secret, hash(secret + authenticator + salt), input, output, input.Length / 16);
    return true;
  }

  lemma OneBlock(inPlace: bool, hash: Hash, secret: seq<byte>, b: seq<byte>, text: seq<byte>, out: seq<byte>, i: nat)
    requires |b| == 16 && i + 16 <= |text| == |out| && out[i..] == text[i..]
    ensures out[i..i + 16] == text[i..i + 16]
    ensures var block := XorSeq(text[i..i + 16], b);
      var seen := if inPlace then block else text[i..i + 16];
      out[..i] + Chain(inPlace, hash, secret, b, text[i..])
      == out[..i] + block + Chain(inPlace, hash, secret, hash(secret + seen), text[i + 16..])
  {
    assert out[i..i + 16] == out[i..][..16] && text[i..i + 16] == text[i..][..16];
    ChainStep(inPlace, hash, secret, b, text[i..]);
    assert text[i..][16..] == text[i + 16..];
  }

  /** Hiding a value in place and then revealing it into another buffer gives it back. */
  method HideAndReveal(hash: Hash, secret: seq<byte>, authenticator: seq<byte>, salt: seq<byte>, value: array<byte>)
      returns (revealed: array<byte>, ok: bool)
    requires value.Length >= 16 && value.Length % 16 == 0
    modifies value
    ensures ok && fresh(revealed) && revealed[..] == old(value[..])
  {
    ok := Crypt(hash, secret, authenticator, salt, value, value);
    revealed := new byte[value.Length];
    ok := Crypt(hash, secret, authenticator, salt, value, revealed);
    DecryptAfterEncrypt(hash, secret, Seed(hash, secret, authenticator, salt), old(value[..]));
  }
}
