/** The transfer envelope both crypto ports exchange:
    `[32-byte ephemeral public key][12-byte nonce][ciphertext][16-byte tag]`, sent as unpadded
    base64url. X25519 (RFC 7748), HKDF-SHA256 (RFC 5869) and ChaCha20-Poly1305 (section 2.8 of
    RFC 8439) are not modelled: they are the function-valued fields of `Primitives`, and the laws
    a round trip relies on are the predicate `Sound`. */
module Envelope {
  import opened Wrappers
  import opened Strings
  import Utf8
  import Base64

  const PublicKeySize: nat := 32
  const NonceSize: nat := 12
  const TagSize: nat := 16
  const HkdfKeySize: nat := 32
  /** `MIN_ENCRYPTED_SIZE` / `minEncryptedSize`: a key, a nonce and a tag. */
  const MinEncryptedSize: nat := PublicKeySize + NonceSize + TagSize

  /** The HKDF `info` both ports pass: the UTF-8 bytes of "unforgettable-encryption". */
  function Info(): seq<Byte> {
    Utf8.Encode("unforgettable-encryption")
  }

  /** `CryptoError`, with the same seven cases in both ports. */
  datatype CryptoError =
    | KeyGenerationFailed
    | EncryptionFailed
    | DecryptionFailed
    | InvalidPublicKey
    | EncodingFailed
    | DecodingFailed
    | InvalidCiphertext

  /** The cryptographic library calls, as functions of their inputs.
      - `publicFromPrivate`: the X25519 public key of a private key;
      - `sharedSecret(private, public)`: X25519 key agreement, None when the library rejects the
        public key;
      - `hkdf(secret, info, length)`: HKDF-SHA256 with an empty salt;
      - `seal(key, nonce, plaintext)`: ChaCha20-Poly1305 encryption, the ciphertext followed by
        its tag; None when the library throws instead, as `Cipher.getInstance` does on a
        platform without a ChaCha20-Poly1305 provider;
      - `open(key, nonce, ciphertextAndTag)`: decryption, None when the tag does not match. */
  datatype Primitives = Primitives(
    publicFromPrivate: seq<Byte> -> seq<Byte>,
    sharedSecret: (seq<Byte>, seq<Byte>) -> Option<seq<Byte>>,
    hkdf: (seq<Byte>, seq<Byte>, nat) -> seq<Byte>,
    seal: (seq<Byte>, seq<Byte>, seq<Byte>) -> Option<seq<Byte>>,
    open: (seq<Byte>, seq<Byte>, seq<Byte>) -> Option<seq<Byte>>)

  /** What the envelope code relies on: when sealing succeeds, opening what was sealed under the
      same key and nonce gives the plaintext back and the sealed message is its plaintext plus a
      16-byte tag; a public key has
      32 bytes, and both sides of a key agreement compute the same secret. */
  ghost predicate Sound(c: Primitives) {
    (forall k, n, p :: c.seal(k, n, p).Some? ==>
      c.open(k, n, c.seal(k, n, p).value) == Some(p) && |c.seal(k, n, p).value| == |p| + TagSize) &&
    (forall a :: |c.publicFromPrivate(a)| == PublicKeySize) &&
    (forall a, b :: c.sharedSecret(a, c.publicFromPrivate(b)) == c.sharedSecret(b, c.publicFromPrivate(a)))
  }

  /** The laws can be met: a stand-in whose `seal` appends sixteen zero bytes and whose key
      agreement always agrees on the empty secret. */
  lemma SoundIsSatisfiable()
    ensures exists c :: Sound(c)
  {
    var zeros: seq<Byte> := seq(TagSize, _ => 0);
    var c := Primitives(
      (a: seq<Byte>) => seq(PublicKeySize, _ => 0),
      (a: seq<Byte>, pub: seq<Byte>) => Some([]),
      (s: seq<Byte>, info: seq<Byte>, n: nat) => s,
      (k: seq<Byte>, n: seq<Byte>, p: seq<Byte>) => Some(p + zeros),
      (k: seq<Byte>, n: seq<Byte>, x: seq<Byte>) =>
        if |x| >= TagSize then Some(x[..|x| - TagSize]) else None);
    assert forall k, n, p :: c.open(k, n, c.seal(k, n, p).value) == Some(p) by {
      forall k, n, p
        ensures c.open(k, n, c.seal(k, n, p).value) == Some(p)
      {
        assert (p + zeros)[..|p|] == p;
      }
    }
    assert Sound(c);
  }

  /** The symmetric key both sides derive from a shared secret. */
  function EncryptionKey(c: Primitives, sharedSecret: seq<Byte>): seq<Byte> {
    c.hkdf(sharedSecret, Info(), HkdfKeySize)
  }

  /** `DataTransferKeyPair`: the public key as base64url text and the private key bytes. */
  datatype DataTransferKeyPair = DataTransferKeyPair(publicKey: string, privateKey: seq<Byte>)

  /** `generateDataTransferKeyPair()` for the private key the generator produced: the public key
      of that private key, base64url-encoded. */
  function GenerateKeyPair(c: Primitives, privateKey: seq<Byte>): (kp: DataTransferKeyPair)
    ensures kp.privateKey == privateKey
    ensures Base64.UrlDecode(kp.publicKey) == Some(c.publicFromPrivate(privateKey))
  {
    Base64.UrlRoundTrip(c.publicFromPrivate(privateKey));
    DataTransferKeyPair(Base64.UrlEncode(c.publicFromPrivate(privateKey)), privateKey)
  }

  // ---- the layout ----

  /** The three fields of an envelope: the sender's ephemeral public key, the nonce, and the
      ciphertext with its tag. */
  datatype Fields = Fields(ephemeralPublicKey: seq<Byte>, nonce: seq<Byte>, sealed: seq<Byte>)

  /** The bytes `encryptDataTransferData` writes: the fields one after the other. */
  function Combine(f: Fields): seq<Byte> {
    f.ephemeralPublicKey + f.nonce + f.sealed
  }

  /** The three slices `decrypt` takes: bytes 0 to 31, bytes 32 to 43, and the rest. */
  function Slice(combined: seq<Byte>): (f: Fields)
    requires |combined| >= PublicKeySize + NonceSize
    ensures |f.ephemeralPublicKey| == PublicKeySize && |f.nonce| == NonceSize
    ensures |f.sealed| == |combined| - PublicKeySize - NonceSize
  {
    Fields(combined[..PublicKeySize], combined[PublicKeySize..PublicKeySize + NonceSize],
           combined[PublicKeySize + NonceSize..])
  }

  /** A well-sized envelope has length 44 plus the sealed part, with the key at bytes 0 to 31, the
      nonce at bytes 32 to 43 and the sealed part from byte 44 on. */
  lemma CombineLayout(f: Fields)
    requires |f.ephemeralPublicKey| == PublicKeySize && |f.nonce| == NonceSize
    ensures var env := Combine(f);
      |env| == 44 + |f.sealed| &&
      env[..32] == f.ephemeralPublicKey && env[32..44] == f.nonce && env[44..] == f.sealed
  {
    var env := Combine(f);
    assert env[..32] == f.ephemeralPublicKey;
    assert env[32..44] == f.nonce;
    assert env[44..] == f.sealed;
  }

  /** Slicing recovers exactly the fields that were combined... */
  lemma SliceCombine(f: Fields)
    requires |f.ephemeralPublicKey| == PublicKeySize && |f.nonce| == NonceSize
    ensures Slice(Combine(f)) == f
  {
    CombineLayout(f);
  }

  /** ...and combining the slices rebuilds the envelope. */
  lemma CombineSlice(combined: seq<Byte>)
    requires |combined| >= PublicKeySize + NonceSize
    ensures Combine(Slice(combined)) == combined
  {
    var f := Slice(combined);
    assert combined == combined[..PublicKeySize] + combined[PublicKeySize..PublicKeySize + NonceSize]
      + combined[PublicKeySize + NonceSize..];
  }

  /** `s` with the bytes from `pos` on replaced by `part`: what copying `part` into an array at
      `pos` leaves in it. */
  function Overwrite(s: seq<Byte>, pos: nat, part: seq<Byte>): (r: seq<Byte>)
    requires pos + |part| <= |s|
    ensures |r| == |s|
  {
    s[..pos] + part + s[pos + |part|..]
  }

  /** Copying the key, the nonce and the sealed part into a zeroed buffer of the right size, each
      at its offset, leaves exactly the combined envelope. */
  lemma OverwritesCombine(buffer: seq<Byte>, f: Fields)
    requires |f.ephemeralPublicKey| == PublicKeySize && |f.nonce| == NonceSize
    requires |buffer| == PublicKeySize + NonceSize + |f.sealed|
    ensures Overwrite(Overwrite(Overwrite(buffer, 0, f.ephemeralPublicKey), PublicKeySize, f.nonce),
                      PublicKeySize + NonceSize, f.sealed) == Combine(f)
  {
    var b1 := Overwrite(buffer, 0, f.ephemeralPublicKey);
    assert b1 == f.ephemeralPublicKey + buffer[PublicKeySize..];
    var b2 := Overwrite(b1, PublicKeySize, f.nonce);
    assert b1[..PublicKeySize] == f.ephemeralPublicKey;
    assert b2 == f.ephemeralPublicKey + f.nonce + b1[PublicKeySize + NonceSize..];
    var b3 := Overwrite(b2, PublicKeySize + NonceSize, f.sealed);
    assert b2[..PublicKeySize + NonceSize] == f.ephemeralPublicKey + f.nonce;
    assert b2[PublicKeySize + NonceSize + |f.sealed|..] == [];
  }

  /** The sealing law of `Sound` for one key, nonce and plaintext. */
  lemma SealLaws(c: Primitives, key: seq<Byte>, nonce: seq<Byte>, plaintext: seq<Byte>, sealed: seq<Byte>)
    requires Sound(c)
    requires c.seal(key, nonce, plaintext) == Some(sealed)
    ensures c.open(key, nonce, sealed) == Some(plaintext) && |sealed| == |plaintext| + TagSize
  {
  }

  /** The size check: a sealed message from a sound library makes an envelope of at least 60
      bytes, whatever the plaintext. */
  lemma SealedEnvelopeSize(c: Primitives, f: Fields, key: seq<Byte>, plaintext: seq<Byte>)
    requires Sound(c)
    requires |f.ephemeralPublicKey| == PublicKeySize && |f.nonce| == NonceSize
    requires c.seal(key, f.nonce, plaintext) == Some(f.sealed)
    ensures |Combine(f)| == MinEncryptedSize + |plaintext|
    ensures |Combine(f)| >= 60
  {
    SealLaws(c, key, f.nonce, plaintext, f.sealed);
  }

  // ---- ISO-8859-1 ----

  /** `String(bytes, ISO_8859_1)` / `String(data:encoding: .isoLatin1)`: each byte becomes the
      character with the same code, from U+0000 to U+00FF. */
  function Latin1Decode(bs: seq<Byte>): (s: string)
    ensures |s| == |bs|
    ensures forall i :: 0 <= i < |bs| ==> s[i] as int == bs[i]
  {
    if bs == [] then "" else [bs[0] as char] + Latin1Decode(bs[1..])
  }

  /** The bytes of a string of characters below U+0100 in ISO-8859-1. */
  function Latin1Encode(s: string): (bs: seq<Byte>)
    requires forall i :: 0 <= i < |s| ==> s[i] as int < 0x100
    ensures |bs| == |s|
    ensures forall i :: 0 <= i < |s| ==> bs[i] == s[i] as int
  {
    if s == [] then [] else [s[0] as int] + Latin1Encode(s[1..])
  }

  /** The two are inverse: decoding is one character per byte and loses nothing. */
  lemma Latin1RoundTrip(bs: seq<Byte>, s: string)
    requires forall i :: 0 <= i < |s| ==> s[i] as int < 0x100
    ensures Latin1Encode(Latin1Decode(bs)) == bs
    ensures Latin1Decode(Latin1Encode(s)) == s
  {
    var d := Latin1Decode(Latin1Encode(s));
    assert forall i :: 0 <= i < |s| ==> d[i] == s[i];
  }
}
