/** `CryptoUtils.kt`: the Kotlin envelope code. Every step runs inside one `try`, and the `catch`
    replaces whatever was thrown by one fixed `CryptoError`: `DecryptionFailed` for `decrypt` and
    `EncryptionFailed` for `encryptDataTransferData`. */
module AndroidCrypto {
  import opened Wrappers
  import opened Strings
  import opened Envelope
  import Base64
  import Utf8

  /** What the body of a `try` can throw: a `CryptoError` of its own, the `IllegalArgumentException`
      of `Base64.getDecoder().decode`, the `IndexOutOfBoundsException` of `System.arraycopy`, or a
      security exception from the cryptographic library. */
  datatype Thrown = Crypto(error: CryptoError) | IllegalArgument | IndexOutOfBounds | LibraryFailure

  /** `catch (e: Exception) { throw replacement }` around a computation. */
  function CatchAll<T>(attempt: Result<T, Thrown>, replacement: CryptoError): (r: Result<T, CryptoError>)
    ensures r.Success? <==> attempt.Success?
    ensures r.Success? ==> r.value == attempt.value
    ensures r.Failure? ==> r.error == replacement
  {
    match attempt
    case Success(v) => Success(v)
    case Failure(_) => Failure(replacement)
  }

  /** `base64URLDecode`, with the decoder's exception. */
  function DecodeOrThrow(s: string): (r: Result<seq<Byte>, Thrown>)
    ensures r.Success? <==> Base64.UrlDecode(s).Some?
    ensures r.Success? ==> r.value == Base64.UrlDecode(s).value
    ensures r.Failure? ==> r.error == IllegalArgument
  {
    match Base64.UrlDecode(s)
    case None => Failure(IllegalArgument)
    case Some(bytes) => Success(bytes)
  }

  // ---- generateDataTransferKeyPair ----

  /** X25519 private keys are 32 bytes; Tink's `X25519.generatePrivateKey()` produces such keys
      and `X25519.publicFromPrivate` throws `InvalidKeyException` on any other length. */
  const PrivateKeySize: nat := 32

  /** `generateDataTransferKeyPair()` for the private key the generator produced: compute the
      public key and encode it, inside a `try` whose `catch` throws `KeyGenerationFailed`. */
  function GenerateKeyPairAttempt(c: Primitives, privateKey: seq<Byte>): (r: Result<DataTransferKeyPair, CryptoError>)
    ensures r.Failure? <==> |privateKey| != PrivateKeySize
    ensures r.Failure? ==> r.error == KeyGenerationFailed
    ensures r.Success? ==>
      r.value.privateKey == privateKey && Base64.UrlDecode(r.value.publicKey) == Some(c.publicFromPrivate(privateKey))
  {
    var attempt: Result<DataTransferKeyPair, Thrown> :=
      if |privateKey| != PrivateKeySize then Failure(LibraryFailure) else Success(GenerateKeyPair(c, privateKey));
    CatchAll(attempt, KeyGenerationFailed)
  }

  // ---- decrypt ----

  /** The body of `decrypt`'s `try`: decode, check the size, slice, agree on a secret with the
      sender's ephemeral key, derive the key, open, and read the plaintext as UTF-8 (malformed
      bytes become U+FFFD; `String(bytes, UTF_8)` never throws). */
  function DecryptAttempt(c: Primitives, kp: DataTransferKeyPair, encryptedData: string): (r: Result<string, Thrown>)
    ensures Base64.UrlDecode(encryptedData).None? ==> r == Failure(IllegalArgument)
    ensures Base64.UrlDecode(encryptedData).Some? && |Base64.UrlDecode(encryptedData).value| < MinEncryptedSize ==>
      r == Failure(Crypto(InvalidCiphertext))
  {
    match DecodeOrThrow(encryptedData)
    case Failure(e) => Failure(e)
    case Success(combined) =>
      if |combined| < MinEncryptedSize then Failure(Crypto(InvalidCiphertext))
      else
        match OpenEnvelope(c, kp, Slice(combined))
        case None => Failure(LibraryFailure)
        case Some(plaintext) => Success(Utf8.DecodeLossy(plaintext))
  }

  /** The library steps of `decrypt` on the sliced envelope: the key agreement with the sender's
      ephemeral key, the key derivation and the opening; None when either library call throws. */
  function OpenEnvelope(c: Primitives, kp: DataTransferKeyPair, fields: Fields): Option<seq<Byte>> {
    match c.sharedSecret(kp.privateKey, fields.ephemeralPublicKey)
    case None => None
    case Some(secret) => c.open(EncryptionKey(c, secret), fields.nonce, fields.sealed)
  }

  /** `DataTransferKeyPair.decrypt(encryptedData)`. */
  function Decrypt(c: Primitives, kp: DataTransferKeyPair, encryptedData: string): Result<string, CryptoError> {
    CatchAll(DecryptAttempt(c, kp, encryptedData), DecryptionFailed)
  }

  /** Input that decodes to fewer than 60 bytes is rejected before any key agreement: the outcome
      is the same whatever the primitives, and it surfaces as `DecryptionFailed`. */
  lemma DecryptRejectsShortInput(c: Primitives, other: Primitives, kp: DataTransferKeyPair, encryptedData: string)
    requires Base64.UrlDecode(encryptedData).Some?
    requires |Base64.UrlDecode(encryptedData).value| < MinEncryptedSize
    ensures DecryptAttempt(c, kp, encryptedData) == DecryptAttempt(other, kp, encryptedData)
    ensures Decrypt(c, kp, encryptedData) == Failure(DecryptionFailed)
  {
  }

  /** Every failure of `decrypt`, whatever was thrown inside, is `DecryptionFailed`; and a
      plaintext that opens is always returned, even when it is not UTF-8. */
  lemma DecryptFailsOnlyAsDecryptionFailed(c: Primitives, kp: DataTransferKeyPair, encryptedData: string)
    ensures Decrypt(c, kp, encryptedData).Failure? ==> Decrypt(c, kp, encryptedData).error == DecryptionFailed
    ensures var combined := Base64.UrlDecode(encryptedData);
      combined.Some? && |combined.value| >= MinEncryptedSize && OpenEnvelope(c, kp, Slice(combined.value)).Some? ==>
      Decrypt(c, kp, encryptedData) == Success(Utf8.DecodeLossy(OpenEnvelope(c, kp, Slice(combined.value)).value))
  {
  }

  /** `decryptBinary(encryptedBytes)`: the bytes read as ISO-8859-1 text, then `decrypt`. */
  function DecryptBinary(c: Primitives, kp: DataTransferKeyPair, encryptedBytes: seq<Byte>): Result<string, CryptoError> {
    Decrypt(c, kp, Latin1Decode(encryptedBytes))
  }

  /** Handing `decryptBinary` the ISO-8859-1 bytes of a base64url text is the same as handing
      `decrypt` the text. */
  lemma DecryptBinaryOfText(c: Primitives, kp: DataTransferKeyPair, encryptedData: string)
    requires forall i :: 0 <= i < |encryptedData| ==> encryptedData[i] as int < 0x100
    ensures DecryptBinary(c, kp, Latin1Encode(encryptedData)) == Decrypt(c, kp, encryptedData)
  {
    Latin1RoundTrip([], encryptedData);
  }

  // ---- encrypt ----

  /** The body of `encryptDataTransferData`'s `try`, as a function of the recipient's key text,
      the data, the ephemeral private key and the nonce `SecureRandom` produced. */
  function EncryptAttempt(c: Primitives, publicKey: string, data: string, ephemeralPrivateKey: seq<Byte>,
                          nonce: seq<Byte>): (r: Result<string, Thrown>)
    ensures Base64.UrlDecode(publicKey).None? ==> r == Failure(IllegalArgument)
    ensures Base64.UrlDecode(publicKey).Some? && |Base64.UrlDecode(publicKey).value| != PublicKeySize ==>
      r == Failure(Crypto(InvalidPublicKey))
  {
    match DecodeOrThrow(publicKey)
    case Failure(e) => Failure(e)
    case Success(recipientPublicKey) =>
      if |recipientPublicKey| != PublicKeySize then Failure(Crypto(InvalidPublicKey))
      else EncryptTo(c, recipientPublicKey, data, ephemeralPrivateKey, nonce)
  }

  /** The rest of the `try` once the recipient's key is decoded and sized: agree on a secret,
      derive the key, seal the data under the nonce and frame the envelope. */
  function EncryptTo(c: Primitives, recipientPublicKey: seq<Byte>, data: string, ephemeralPrivateKey: seq<Byte>,
                     nonce: seq<Byte>): Result<string, Thrown>
  {
    var ephemeralPublicKey := c.publicFromPrivate(ephemeralPrivateKey);
    match c.sharedSecret(ephemeralPrivateKey, recipientPublicKey)
    case None => Failure(LibraryFailure)
    case Some(secret) => SealAndFrame(c, EncryptionKey(c, secret), ephemeralPublicKey, nonce, data)
  }

  /** The last steps of the `try`: seal the data under the derived key and the nonce, then copy
      the key, the nonce and the sealed part into the combined array. */
  function SealAndFrame(c: Primitives, key: seq<Byte>, ephemeralPublicKey: seq<Byte>, nonce: seq<Byte>,
                        data: string): Result<string, Thrown>
  {
    match c.seal(key, nonce, Utf8.Encode(data))
    case None => Failure(LibraryFailure)
    case Some(sealed) =>
      if |ephemeralPublicKey| < PublicKeySize then Failure(IndexOutOfBounds)
      else Success(Base64.UrlEncode(Combine(Fields(ephemeralPublicKey[..PublicKeySize], nonce, sealed))))
  }

  /** `System.arraycopy(src, srcPos, dest, destPos, length)`: copies `length` bytes, or throws
      (here: returns false and changes nothing) when either range runs past its array. */
  method ArrayCopy(src: seq<Byte>, srcPos: nat, dest: array<Byte>, destPos: nat, length: nat) returns (ok: bool)
    modifies dest
    ensures ok <==> srcPos + length <= |src| && destPos + length <= dest.Length
    ensures ok ==> dest[..] == Overwrite(old(dest[..]), destPos, src[srcPos..srcPos + length])
    ensures !ok ==> dest[..] == old(dest[..])
  {
    if srcPos + length > |src| || destPos + length > dest.Length {
      return false;
    }
    for i := 0 to length
      invariant forall j :: 0 <= j < dest.Length ==>
        dest[j] == if destPos <= j < destPos + i then src[srcPos + j - destPos] else old(dest[j])
    {
      dest[destPos + i] := src[srcPos + i];
    }
    assert dest[..] == Overwrite(old(dest[..]), destPos, src[srcPos..srcPos + length]) by {
      var part := src[srcPos..srcPos + length];
      forall j | 0 <= j < dest.Length
        ensures dest[..][j] == Overwrite(old(dest[..]), destPos, part)[j]
      {
        if j < destPos {
        } else if j < destPos + length {
          assert Overwrite(old(dest[..]), destPos, part)[j] == part[j - destPos];
        } else {
          assert Overwrite(old(dest[..]), destPos, part)[j] == old(dest[..])[j];
        }
      }
    }
    return true;
  }

  /** The body of the `try`, step by step: the nonce array filled from `random`, and the
      `combined` array filled by three `arraycopy` calls. */
  method EncryptBody(c: Primitives, publicKey: string, data: string, ephemeralPrivateKey: seq<Byte>, random: seq<Byte>)
    returns (r: Result<string, Thrown>)
    requires |random| == NonceSize
    ensures r == EncryptAttempt(c, publicKey, data, ephemeralPrivateKey, random)
  {
    var decoded := Base64.Base64UrlDecode(publicKey);
    if decoded.None? {
      return Failure(IllegalArgument);
    }
    var recipientPublicKey := decoded.value;
    if |recipientPublicKey| != PublicKeySize {
      return Failure(Crypto(InvalidPublicKey));
    }
    assert EncryptAttempt(c, publicKey, data, ephemeralPrivateKey, random)
      == EncryptTo(c, recipientPublicKey, data, ephemeralPrivateKey, random);
    r := EncryptToBody(c, recipientPublicKey, data, ephemeralPrivateKey, random);
  }

  /** The part of the `try` after the recipient's key is decoded and sized: the ephemeral public
      key, the X25519 agreement and the HKDF-derived key. */
  method EncryptToBody(c: Primitives, recipientPublicKey: seq<Byte>, data: string, ephemeralPrivateKey: seq<Byte>,
                       random: seq<Byte>)
    returns (r: Result<string, Thrown>)
    requires |random| == NonceSize
    ensures r == EncryptTo(c, recipientPublicKey, data, ephemeralPrivateKey, random)
  {
    var ephemeralPublicKey := c.publicFromPrivate(ephemeralPrivateKey);
    var sharedSecret := c.sharedSecret(ephemeralPrivateKey, recipientPublicKey);
    if sharedSecret.None? {
      return Failure(LibraryFailure);
    }
    var encryptionKey := EncryptionKey(c, sharedSecret.value);
    r := SealAndFrameBody(c, encryptionKey, ephemeralPublicKey, random, data);
  }

  /** The part of the `try` after key agreement: the nonce drawn, the data sealed and the
      public key, nonce and ciphertext copied into `combined`. */
  method SealAndFrameBody(c: Primitives, encryptionKey: seq<Byte>, ephemeralPublicKey: seq<Byte>, random: seq<Byte>, data: string)
    returns (r: Result<string, Thrown>)
    requires |random| == NonceSize
    ensures r == SealAndFrame(c, encryptionKey, ephemeralPublicKey, random, data)
  {
    var nonce := NewNonce(random);
    var sealResult := c.seal(encryptionKey, nonce[..], Utf8.Encode(data));
    if sealResult.None? {
      return Failure(LibraryFailure);
    }
    var ciphertextWithTag := sealResult.value;
    var ok, combined := CombineInto(ephemeralPublicKey, nonce[..], ciphertextWithTag);
    if !ok {
      return Failure(IndexOutOfBounds);
    }
    r := Success(Base64.UrlEncode(combined[..]));
  }

  /** `ByteArray(CHACHA20_NONCE_SIZE)` filled by `SecureRandom().nextBytes`, which writes the
      generator's next twelve bytes, `random`, into it. */
  method NewNonce(random: seq<Byte>) returns (nonce: array<Byte>)
    requires |random| == NonceSize
    ensures nonce[..] == random
  {
    nonce := new Byte[NonceSize];
    var ok := ArrayCopy(random, 0, nonce, 0, NonceSize);
    assert random[0..NonceSize] == random;
  }

  /** The `combined` array of `encryptDataTransferData`: allocated with room for the key, the
      nonce and the sealed part, then filled by one `arraycopy` each; the first one throws when
      the ephemeral public key is shorter than 32 bytes. */
  method CombineInto(ephemeralPublicKey: seq<Byte>, nonce: seq<Byte>, ciphertextWithTag: seq<Byte>)
    returns (ok: bool, combined: array<Byte>)
    requires |nonce| == NonceSize
    ensures ok <==> |ephemeralPublicKey| >= PublicKeySize
    ensures ok ==> combined[..] == Combine(Fields(ephemeralPublicKey[..PublicKeySize], nonce, ciphertextWithTag))
  {
    combined := new Byte[PublicKeySize + NonceSize + |ciphertextWithTag|];
    ghost var buffer := combined[..];
    ok := ArrayCopy(ephemeralPublicKey, 0, combined, 0, PublicKeySize);
    if !ok {
      return;
    }
    var copied := ArrayCopy(nonce, 0, combined, PublicKeySize, NonceSize);
    copied := ArrayCopy(ciphertextWithTag, 0, combined, PublicKeySize + NonceSize, |ciphertextWithTag|);
    assert nonce[0..NonceSize] == nonce;
    assert ciphertextWithTag[0..|ciphertextWithTag|] == ciphertextWithTag;
    assert ephemeralPublicKey[0..PublicKeySize] == ephemeralPublicKey[..PublicKeySize];
    OverwritesCombine(buffer, Fields(ephemeralPublicKey[..PublicKeySize], nonce, ciphertextWithTag));
  }

  /** `encryptDataTransferData(publicKey, data)`, the `try` and its `catch`. */
  method EncryptDataTransferData(c: Primitives, publicKey: string, data: string, ephemeralPrivateKey: seq<Byte>,
                                 random: seq<Byte>) returns (r: Result<string, CryptoError>)
    requires |random| == NonceSize
    ensures r == CatchAll(EncryptAttempt(c, publicKey, data, ephemeralPrivateKey, random), EncryptionFailed)
  {
    var attempt := EncryptBody(c, publicKey, data, ephemeralPrivateKey, random);
    r := CatchAll(attempt, EncryptionFailed);
  }

  /** Every failure of `encryptDataTransferData` is `EncryptionFailed`, a wrong-sized recipient key
      included. */
  lemma EncryptFailsOnlyAsEncryptionFailed(c: Primitives, publicKey: string, data: string,
                                           ephemeralPrivateKey: seq<Byte>, nonce: seq<Byte>)
    ensures var r := CatchAll(EncryptAttempt(c, publicKey, data, ephemeralPrivateKey, nonce), EncryptionFailed);
      r.Failure? ==> r.error == EncryptionFailed
    ensures Base64.UrlDecode(publicKey).Some? && |Base64.UrlDecode(publicKey).value| != PublicKeySize ==>
      CatchAll(EncryptAttempt(c, publicKey, data, ephemeralPrivateKey, nonce), EncryptionFailed) == Failure(EncryptionFailed)
  {
  }

  // ---- the round trip ----

  /** `decrypt` opens an envelope sealed for the pair's public key: the sender's secret is the
      recipient's, so the key, the nonce and the plaintext all come back. */
  lemma DecryptSealed(c: Primitives, recipientPrivateKey: seq<Byte>, ephemeralPrivateKey: seq<Byte>,
                      nonce: seq<Byte>, data: string, secret: seq<Byte>, sealed: seq<Byte>)
    requires Sound(c)
    requires |nonce| == NonceSize
    requires c.sharedSecret(ephemeralPrivateKey, c.publicFromPrivate(recipientPrivateKey)) == Some(secret)
    requires c.seal(EncryptionKey(c, secret), nonce, Utf8.Encode(data)) == Some(sealed)
    ensures var fields := Fields(c.publicFromPrivate(ephemeralPrivateKey), nonce, sealed);
      Decrypt(c, GenerateKeyPair(c, recipientPrivateKey), Base64.UrlEncode(Combine(fields))) == Success(data)
  {
    var key := EncryptionKey(c, secret);
    var plaintext := Utf8.Encode(data);
    var fields := Fields(c.publicFromPrivate(ephemeralPrivateKey), nonce, sealed);
    var combined := Combine(fields);
    Base64.UrlRoundTrip(combined);
    SliceCombine(fields);
    SealedEnvelopeSize(c, fields, key, plaintext);
    assert c.sharedSecret(recipientPrivateKey, fields.ephemeralPublicKey) == Some(secret);
    SealLaws(c, key, nonce, plaintext, sealed);
    Utf8.DecodeEncode(data);
  }

  /** A key pair's public key text gets past the decoding and the size check. */
  lemma EncryptToKeyPair(c: Primitives, recipientPrivateKey: seq<Byte>, ephemeralPrivateKey: seq<Byte>,
                         nonce: seq<Byte>, data: string)
    requires Sound(c)
    ensures EncryptAttempt(c, GenerateKeyPair(c, recipientPrivateKey).publicKey, data, ephemeralPrivateKey, nonce)
      == EncryptTo(c, c.publicFromPrivate(recipientPrivateKey), data, ephemeralPrivateKey, nonce)
  {
    assert |c.publicFromPrivate(recipientPrivateKey)| == PublicKeySize;
  }

  /** What the recipient decrypts is what the sender encrypted: for a key pair, any ephemeral key
      and any 12-byte nonce, encryption to the pair's public key succeeds exactly when the key
      agreement and the cipher both do, and `decrypt` then gives the data back. */
  lemma EncryptDecryptRoundTrip(c: Primitives, recipientPrivateKey: seq<Byte>, ephemeralPrivateKey: seq<Byte>,
                                nonce: seq<Byte>, data: string)
    requires Sound(c)
    requires |nonce| == NonceSize
    ensures var kp := GenerateKeyPair(c, recipientPrivateKey);
      var r := EncryptAttempt(c, kp.publicKey, data, ephemeralPrivateKey, nonce);
      var secret := c.sharedSecret(ephemeralPrivateKey, c.publicFromPrivate(recipientPrivateKey));
      (r.Success? <==> secret.Some? && c.seal(EncryptionKey(c, secret.value), nonce, Utf8.Encode(data)).Some?) &&
      (r.Success? ==> Decrypt(c, kp, r.value) == Success(data))
  {
    var kp := GenerateKeyPair(c, recipientPrivateKey);
    var ephemeralPublicKey := c.publicFromPrivate(ephemeralPrivateKey);
    assert |ephemeralPublicKey| == PublicKeySize;
    assert ephemeralPublicKey[..PublicKeySize] == ephemeralPublicKey;
    var recipientPublicKey := c.publicFromPrivate(recipientPrivateKey);
    var secret := c.sharedSecret(ephemeralPrivateKey, recipientPublicKey);
    var r := EncryptAttempt(c, kp.publicKey, data, ephemeralPrivateKey, nonce);
    EncryptToKeyPair(c, recipientPrivateKey, ephemeralPrivateKey, nonce, data);
    if secret.None? {
      assert r == Failure(LibraryFailure);
    } else {
      var key := EncryptionKey(c, secret.value);
      assert r == SealAndFrame(c, key, ephemeralPublicKey, nonce, data);
      var sealed := c.seal(key, nonce, Utf8.Encode(data));
      if sealed.None? {
        assert r == Failure(LibraryFailure);
      } else {
        assert r == Success(Base64.UrlEncode(Combine(Fields(ephemeralPublicKey, nonce, sealed.value))));
        DecryptSealed(c, recipientPrivateKey, ephemeralPrivateKey, nonce, data, secret.value, sealed.value);
      }
    }
  }

  /** A key pair generated from a 32-byte private key is usable end to end: the sender's
      `encryptDataTransferData` to its public key succeeds exactly when the key agreement and the
      cipher do, and the pair's `decrypt` then gives the data back. */
  lemma GeneratedKeyPairEncrypts(c: Primitives, recipientPrivateKey: seq<Byte>, ephemeralPrivateKey: seq<Byte>,
                                 nonce: seq<Byte>, data: string)
    requires Sound(c)
    requires |recipientPrivateKey| == PrivateKeySize
    requires |nonce| == NonceSize
    ensures var g := GenerateKeyPairAttempt(c, recipientPrivateKey);
      g.Success? &&
      var r := EncryptAttempt(c, g.value.publicKey, data, ephemeralPrivateKey, nonce);
      var secret := c.sharedSecret(ephemeralPrivateKey, c.publicFromPrivate(recipientPrivateKey));
      (r.Success? <==> secret.Some? && c.seal(EncryptionKey(c, secret.value), nonce, Utf8.Encode(data)).Some?) &&
      (r.Success? ==> Decrypt(c, g.value, r.value) == Success(data))
  {
    assert GenerateKeyPairAttempt(c, recipientPrivateKey) == Success(GenerateKeyPair(c, recipientPrivateKey));
    EncryptDecryptRoundTrip(c, recipientPrivateKey, ephemeralPrivateKey, nonce, data);
  }
}
