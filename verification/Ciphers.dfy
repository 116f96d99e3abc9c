/** Cryptographic algorithms as functions, under some key. */
module Ciphers {
  import opened Bytes

  /** A block cipher; data comes first, the IV second. */
  datatype Crypter = Crypter(
    blockSize: nat, ivSize: nat,
    encrypt: (seq<byte>, seq<byte>) -> seq<byte>,
    decrypt: (seq<byte>, seq<byte>) -> seq<byte>)

  /** Decryption undoes encryption of whole blocks, and lengths stay the same. */
  ghost predicate SoundCrypter(c: Crypter) {
    && c.blockSize > 0
    && (forall p, iv :: |c.encrypt(p, iv)| == |p|)
    && (forall p, iv :: |c.decrypt(p, iv)| == |p|)
    && forall p, iv | |p| % c.blockSize == 0 && |iv| == c.ivSize :: c.decrypt(c.encrypt(p, iv), iv) == p
  }

  /** A MAC. */
  datatype Signer = Signer(blockSize: nat, mac: seq<byte> -> seq<byte>)

  ghost predicate SoundSigner(m: Signer) {
    forall s :: |m.mac(s)| == m.blockSize
  }
}
