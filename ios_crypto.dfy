/** `CryptoUtils.swift`: the Swift envelope code. Unlike the Kotlin port it has no catch-all: a bad
    base64 text or a plaintext that is not UTF-8 throws `decodingFailed`, a short envelope
    `invalidCiphertext`, a wrong-sized recipient key `invalidPublicKey`, and an error of the
    cryptographic library (a rejected key, a tag that does not match) propagates as it is. */
module IosCrypto {
  import opened Wrappers
  import opened Strings
  import opened Envelope
  import Base64
  import Utf8
  import AndroidCrypto

  /** What `decrypt` and `encryptDataTransferData` can throw: a `CryptoError`, or an error of
      CryptoKit's own. */
  datatype Thrown = Crypto(error: CryptoError) | CryptoKitError

  // ---- the slicing operations of `Data` ----

  /** `data.prefix(n)`: the first `n` bytes, or all of them when there are fewer. */
  function Prefix(data: seq<Byte>, n: nat): (r: seq<Byte>)
    ensures |r| == if |data| < n then |data| else n
    ensures r == data[..|r|]
  {
    if |data| <= n then data else data[..n]
  }

  /** `data.dropFirst(n)`: all but the first `n` bytes, or nothing. */
  function DropFirst(data: seq<Byte>, n: nat): (r: seq<Byte>)
    ensures Prefix(data, n) + r == data
  {
    if |data| <= n then [] else data[n..]
  }

  /** `data.dropLast(n)`: all but the last `n` bytes, or nothing. */
  function DropLast(data: seq<Byte>, n: nat): (r: seq<Byte>)
    ensures |r| == if |data| < n then 0 else |data| - n
  {
    if |data| <= n then [] else data[..|data| - n]
  }

  /** `data.suffix(n)`: the last `n` bytes, or all of them when there are fewer. */
  function Suffix(data: seq<Byte>, n: nat): (r: seq<Byte>)
    ensures |r| == if |data| < n then |data| else n
  {
    if |data| <= n then data else data[|data| - n..]
  }

  /** Dropping the last `n` bytes and taking the last `n` splits the data without losing any. */
  lemma DropLastSuffix(data: seq<Byte>, n: nat)
    ensures DropLast(data, n) + Suffix(data, n) == data
  {
    if |data| > n {
      assert data[..|data| - n] + data[|data| - n..] == data;
    }
  }

  /** The four parts `decrypt` reads from an envelope of at least 60 bytes. */
  datatype Parts = Parts(ephemeralPublicKey: seq<Byte>, nonce: seq<Byte>, ciphertext: seq<Byte>, tag: seq<Byte>)

  /** `combined.prefix(32)`, `combined.dropFirst(32).prefix(12)`, and of the rest
      `dropLast(16)` and `suffix(16)`. */
  function SliceParts(combined: seq<Byte>): Parts {
    var rest := DropFirst(combined, PublicKeySize + NonceSize);
    Parts(Prefix(combined, PublicKeySize), Prefix(DropFirst(combined, PublicKeySize), NonceSize),
          DropLast(rest, TagSize), Suffix(rest, TagSize))
  }

  /** On an envelope that passed the size check, the Swift slices are the Kotlin ones: the key is
      bytes 0 to 31, the nonce bytes 32 to 43, and the ciphertext and the 16-byte tag together are
      the rest. */
  lemma SlicePartsAgree(combined: seq<Byte>)
    requires |combined| >= MinEncryptedSize
    ensures var p := SliceParts(combined); var f := Slice(combined);
      p.ephemeralPublicKey == f.ephemeralPublicKey && p.nonce == f.nonce &&
      p.ciphertext + p.tag == f.sealed && |p.tag| == TagSize &&
      |p.ciphertext| == |combined| - MinEncryptedSize
  {
    var rest := DropFirst(combined, PublicKeySize + NonceSize);
    assert rest == combined[PublicKeySize + NonceSize..];
    assert DropFirst(combined, PublicKeySize) == combined[PublicKeySize..];
    assert combined[PublicKeySize..][..NonceSize] == combined[PublicKeySize..PublicKeySize + NonceSize];
    DropLastSuffix(rest, TagSize);
  }

  // ---- decrypt ----

  /** `DataTransferKeyPair.decrypt(encryptedData)`. */
  function Decrypt(c: Primitives, kp: DataTransferKeyPair, encryptedData: string): (r: Result<string, Thrown>)
    ensures Base64.UrlDecode(encryptedData).None? ==> r == Failure(Crypto(DecodingFailed))
    ensures Base64.UrlDecode(encryptedData).Some? && |Base64.UrlDecode(encryptedData).value| < MinEncryptedSize ==>
      r == Failure(Crypto(InvalidCiphertext))
  {
    match Base64.UrlDecode(encryptedData)
    case None => Failure(Crypto(DecodingFailed))
    case Some(combined) =>
      if |combined| < MinEncryptedSize then Failure(Crypto(InvalidCiphertext))
      else OpenParts(c, kp, SliceParts(combined))
  }

  /** The rest of `decrypt`, once the parts are sliced: agree on a secret with the sender's
      ephemeral key, derive the key, open the sealed box, and read the plaintext as UTF-8. */
  function OpenParts(c: Primitives, kp: DataTransferKeyPair, parts: Parts): Result<string, Thrown> {
    match c.sharedSecret(kp.privateKey, parts.ephemeralPublicKey)
    case None => Failure(CryptoKitError)
    case Some(secret) =>
      match c.open(EncryptionKey(c, secret), parts.nonce, parts.ciphertext + parts.tag)
      case None => Failure(CryptoKitError)
      case Some(plaintext) =>
        match Utf8.Decode(plaintext)
        case None => Failure(Crypto(DecodingFailed))
        case Some(text) => Success(text)
  }

  /** Input that decodes to fewer than 60 bytes throws `invalidCiphertext` before any key
      agreement: the outcome is the same whatever the primitives. */
  lemma DecryptRejectsShortInput(c: Primitives, other: Primitives, kp: DataTransferKeyPair, encryptedData: string)
    requires Base64.UrlDecode(encryptedData).Some?
    requires |Base64.UrlDecode(encryptedData).value| < MinEncryptedSize
    ensures Decrypt(c, kp, encryptedData) == Decrypt(other, kp, encryptedData) == Failure(Crypto(InvalidCiphertext))
  {
  }

  /** An envelope that opens to bytes that are not UTF-8 throws `decodingFailed`, where the
      Kotlin port returns the text with U+FFFD in place of the malformed bytes. */
  lemma DecryptRejectsMalformedPlaintext(c: Primitives, kp: DataTransferKeyPair, encryptedData: string,
                                         combined: seq<Byte>, secret: seq<Byte>, plaintext: seq<Byte>)
    requires Base64.UrlDecode(encryptedData) == Some(combined)
    requires |combined| >= MinEncryptedSize
    requires c.sharedSecret(kp.privateKey, combined[..PublicKeySize]) == Some(secret)
    requires c.open(EncryptionKey(c, secret), combined[PublicKeySize..PublicKeySize + NonceSize],
                    combined[PublicKeySize + NonceSize..]) == Some(plaintext)
    requires Utf8.Decode(plaintext).None?
    ensures Decrypt(c, kp, encryptedData) == Failure(Crypto(DecodingFailed))
    ensures AndroidCrypto.Decrypt(c, kp, encryptedData) == Success(Utf8.DecodeLossy(plaintext))
  {
    var fields := Slice(combined);
    assert fields.ephemeralPublicKey == combined[..PublicKeySize]
        && fields.nonce == combined[PublicKeySize..PublicKeySize + NonceSize]
        && fields.sealed == combined[PublicKeySize + NonceSize..];
    var parts := SliceParts(combined);
    assert parts.ephemeralPublicKey == fields.ephemeralPublicKey && parts.nonce == fields.nonce
        && parts.ciphertext + parts.tag == fields.sealed by {
      SlicePartsAgree(combined);
    }
    assert Decrypt(c, kp, encryptedData) == OpenParts(c, kp, parts);
    OpenPartsMalformed(c, kp, parts, secret, plaintext);
    AndroidCrypto.DecryptFailsOnlyAsDecryptionFailed(c, kp, encryptedData);
  }

  /** Parts that open to bytes that are not UTF-8 throw `decodingFailed`. */
  lemma OpenPartsMalformed(c: Primitives, kp: DataTransferKeyPair, parts: Parts, secret: seq<Byte>,
                           plaintext: seq<Byte>)
    requires c.sharedSecret(kp.privateKey, parts.ephemeralPublicKey) == Some(secret)
    requires c.open(EncryptionKey(c, secret), parts.nonce, parts.ciphertext + parts.tag) == Some(plaintext)
    requires Utf8.Decode(plaintext).None?
    ensures OpenParts(c, kp, parts) == Failure(Crypto(DecodingFailed))
  {
  }

  /** Where the Swift `decrypt` succeeds, the Kotlin one succeeds with the same text. */
  lemma DecryptAgreesWithKotlin(c: Primitives, kp: DataTransferKeyPair, encryptedData: string)
    ensures Decrypt(c, kp, encryptedData).Success? ==>
      AndroidCrypto.Decrypt(c, kp, encryptedData) == Success(Decrypt(c, kp, encryptedData).value)
  {
    var r := Decrypt(c, kp, encryptedData);
    if r.Success? {
      var combined := Base64.UrlDecode(encryptedData).value;
      var parts := SliceParts(combined);
      var fields := Slice(combined);
      assert parts.ephemeralPublicKey == fields.ephemeralPublicKey && parts.nonce == fields.nonce
          && parts.ciphertext + parts.tag == fields.sealed by {
        SlicePartsAgree(combined);
      }
      var secret := c.sharedSecret(kp.privateKey, fields.ephemeralPublicKey).value;
      var plaintext := c.open(EncryptionKey(c, secret), fields.nonce, fields.sealed).value;
      assert Utf8.Decode(plaintext) == Some(r.value);
      assert Utf8.DecodeLossy(plaintext) == r.value by {
        Utf8.DecodeEncode(r.value);
      }
      assert AndroidCrypto.OpenEnvelope(c, kp, fields) == Some(plaintext);
      AndroidCrypto.DecryptFailsOnlyAsDecryptionFailed(c, kp, encryptedData);
    }
  }

  /** `decryptBinary(encryptedData)`: the bytes as ISO Latin 1 text, then `decrypt`. Every byte
      has a Latin 1 character, so the `guard let` never throws. */
  function DecryptBinary(c: Primitives, kp: DataTransferKeyPair, encryptedData: seq<Byte>): Result<string, Thrown> {
    Decrypt(c, kp, Latin1Decode(encryptedData))
  }

  /** Handing `decryptBinary` the Latin 1 bytes of a base64url text is the same as handing
      `decrypt` the text. */
  lemma DecryptBinaryOfText(c: Primitives, kp: DataTransferKeyPair, encryptedData: string)
    requires forall i :: 0 <= i < |encryptedData| ==> encryptedData[i] as int < 0x100
    ensures DecryptBinary(c, kp, Latin1Encode(encryptedData)) == Decrypt(c, kp, encryptedData)
  {
    Latin1RoundTrip([], encryptedData);
  }

  // ---- encrypt ----

  /** `encryptDataTransferData(publicKey:data:)` as a function of the recipient's key text, the
      data, the ephemeral private key and the nonce `SecRandomCopyBytes` wrote (None when it
      reported a failure). `data.data(using: .utf8)` never gives nil for a Swift string. */
  function EncryptAttempt(c: Primitives, publicKey: string, data: string, ephemeralPrivateKey: seq<Byte>,
                          randomNonce: Option<seq<Byte>>): (r: Result<string, Thrown>)
    ensures Base64.UrlDecode(publicKey).None? ==> r == Failure(Crypto(DecodingFailed))
    ensures Base64.UrlDecode(publicKey).Some? && |Base64.UrlDecode(publicKey).value| != PublicKeySize ==>
      r == Failure(Crypto(InvalidPublicKey))
  {
    match Base64.UrlDecode(publicKey)
    case None => Failure(Crypto(DecodingFailed))
    case Some(recipientPublicKey) =>
      if |recipientPublicKey| != PublicKeySize then Failure(Crypto(InvalidPublicKey))
      else EncryptTo(c, recipientPublicKey, data, ephemeralPrivateKey, randomNonce)
  }

  /** The rest of `encryptDataTransferData`, once the recipient's key is decoded: agree on a
      secret, derive the key, seal the data under the nonce and frame the envelope. */
  function EncryptTo(c: Primitives, recipientPublicKey: seq<Byte>, data: string, ephemeralPrivateKey: seq<Byte>,
                     randomNonce: Option<seq<Byte>>): Result<string, Thrown>
  {
    match c.sharedSecret(ephemeralPrivateKey, recipientPublicKey)
    case None => Failure(CryptoKitError)
    case Some(secret) =>
      match randomNonce
      case None => Failure(Crypto(EncryptionFailed))
      case Some(nonce) => SealAndFrame(c, EncryptionKey(c, secret), c.publicFromPrivate(ephemeralPrivateKey), nonce, data)
  }

  /** The last steps: `ChaChaPoly.seal` under the derived key and the nonce, then the envelope
      framed and encoded. */
  function SealAndFrame(c: Primitives, key: seq<Byte>, ephemeralPublicKey: seq<Byte>, nonce: seq<Byte>,
                        data: string): Result<string, Thrown>
  {
    match c.seal(key, nonce, Utf8.Encode(data))
    case None => Failure(CryptoKitError)
    case Some(sealed) => Success(Base64.UrlEncode(Combine(Fields(ephemeralPublicKey, nonce, sealed))))
  }

  /** The method as written: `var combined = Data()` and four `append` calls, the sealed box's
      ciphertext and tag last. */
  method EncryptDataTransferData(c: Primitives, publicKey: string, data: string, ephemeralPrivateKey: seq<Byte>,
                                 randomNonce: Option<seq<Byte>>) returns (r: Result<string, Thrown>)
    ensures r == EncryptAttempt(c, publicKey, data, ephemeralPrivateKey, randomNonce)
  {
    var recipientPublicKey := Base64.Base64UrlDecode(publicKey);
    if recipientPublicKey.None? {
      return Failure(Crypto(DecodingFailed));
    }
    if |recipientPublicKey.value| != PublicKeySize {
      return Failure(Crypto(InvalidPublicKey));
    }
    assert EncryptAttempt(c, publicKey, data, ephemeralPrivateKey, randomNonce)
      == EncryptTo(c, recipientPublicKey.value, data, ephemeralPrivateKey, randomNonce);
    r := EncryptToBody(c, recipientPublicKey.value, data, ephemeralPrivateKey, randomNonce);
  }

  /** The method after the recipient's key is decoded and sized: the ephemeral public key, the
      key agreement, the derived key and the random nonce. */
  method EncryptToBody(c: Primitives, recipientPublicKey: seq<Byte>, data: string, ephemeralPrivateKey: seq<Byte>,
                       randomNonce: Option<seq<Byte>>) returns (r: Result<string, Thrown>)
    ensures r == EncryptTo(c, recipientPublicKey, data, ephemeralPrivateKey, randomNonce)
  {
    var ephemeralPublicKey := c.publicFromPrivate(ephemeralPrivateKey);
    var sharedSecret := c.sharedSecret(ephemeralPrivateKey, recipientPublicKey);
    if sharedSecret.None? {
      return Failure(CryptoKitError);
    }
    var encryptionKey := EncryptionKey(c, sharedSecret.value);
    if randomNonce.None? {
      return Failure(Crypto(EncryptionFailed));
    }
    r := SealAndFrameBody(c, encryptionKey, ephemeralPublicKey, randomNonce.value, data);
  }

  /** The last steps of the method: `ChaChaPoly.seal`, then the combined data built and encoded. */
  method SealAndFrameBody(c: Primitives, encryptionKey: seq<Byte>, ephemeralPublicKey: seq<Byte>, nonceBytes: seq<Byte>,
                          data: string) returns (r: Result<string, Thrown>)
    ensures r == SealAndFrame(c, encryptionKey, ephemeralPublicKey, nonceBytes, data)
  {
    var dataToEncrypt := Utf8.Encode(data);
    var sealResult := c.seal(encryptionKey, nonceBytes, dataToEncrypt);
    if sealResult.None? {
      return Failure(CryptoKitError);
    }
    var sealedBox := sealResult.value;
    var combined := AppendParts(ephemeralPublicKey, nonceBytes, sealedBox);
    r := Success(Base64.UrlEncode(combined));
  }

  /** `var combined = Data()` and its four `append` calls: the ephemeral public key, the nonce,
      the sealed box's ciphertext and its tag. */
  method AppendParts(ephemeralPublicKey: seq<Byte>, nonceBytes: seq<Byte>, sealedBox: seq<Byte>)
    returns (combined: seq<Byte>)
    ensures combined == Combine(Fields(ephemeralPublicKey, nonceBytes, sealedBox))
  {
    var ciphertext := DropLast(sealedBox, TagSize);
    var tag := Suffix(sealedBox, TagSize);
    combined := [];
    combined := combined + ephemeralPublicKey;
    assert combined == ephemeralPublicKey;
    combined := combined + nonceBytes;
    combined := combined + ciphertext;
    combined := combined + tag;
    assert combined == (ephemeralPublicKey + nonceBytes) + (ciphertext + tag);
    DropLastSuffix(sealedBox, TagSize);
  }

  // ---- the round trip ----

  /** A base64url text of an envelope of at least 60 bytes gets past the decoding and the size
      check to the sliced parts. */
  lemma DecryptWellSized(c: Primitives, kp: DataTransferKeyPair, combined: seq<Byte>)
    requires |combined| >= MinEncryptedSize
    ensures Decrypt(c, kp, Base64.UrlEncode(combined)) == OpenParts(c, kp, SliceParts(combined))
  {
    Base64.UrlRoundTrip(combined);
  }

  /** Parts whose key lets the recipient find the sender's secret and whose nonce, ciphertext and
      tag open to the UTF-8 bytes of `data` give `data` back. */
  lemma OpenPartsSealed(c: Primitives, kp: DataTransferKeyPair, parts: Parts, secret: seq<Byte>, data: string)
    requires c.sharedSecret(kp.privateKey, parts.ephemeralPublicKey) == Some(secret)
    requires c.open(EncryptionKey(c, secret), parts.nonce, parts.ciphertext + parts.tag) == Some(Utf8.Encode(data))
    ensures OpenParts(c, kp, parts) == Success(data)
  {
    Utf8.DecodeEncode(data);
  }

  /** `decrypt` opens an envelope sealed for the pair's public key, given the instances of the
      library's laws this envelope needs: a 32-byte ephemeral key, the recipient's side of the key
      agreement finding the sender's secret, and the sealed box opening to the plaintext. */
  lemma DecryptSealed(c: Primitives, recipientPrivateKey: seq<Byte>, ephemeralPrivateKey: seq<Byte>,
                      nonce: seq<Byte>, data: string, secret: seq<Byte>, sealed: seq<Byte>)
    requires |nonce| == NonceSize
    requires |c.publicFromPrivate(ephemeralPrivateKey)| == PublicKeySize
    requires c.sharedSecret(recipientPrivateKey, c.publicFromPrivate(ephemeralPrivateKey)) == Some(secret)
    requires var key := EncryptionKey(c, secret); var plaintext := Utf8.Encode(data);
      |sealed| == |plaintext| + TagSize && c.open(key, nonce, sealed) == Some(plaintext)
    ensures var fields := Fields(c.publicFromPrivate(ephemeralPrivateKey), nonce, sealed);
      Decrypt(c, GenerateKeyPair(c, recipientPrivateKey), Base64.UrlEncode(Combine(fields))) == Success(data)
  {
    var fields := Fields(c.publicFromPrivate(ephemeralPrivateKey), nonce, sealed);
    var combined := Combine(fields);
    var kp := GenerateKeyPair(c, recipientPrivateKey);
    var parts := SliceParts(combined);
    assert |combined| >= MinEncryptedSize;
    assert parts.ephemeralPublicKey == fields.ephemeralPublicKey && parts.nonce == nonce
        && parts.ciphertext + parts.tag == fields.sealed by {
      SliceCombine(fields);
      SlicePartsAgree(combined);
    }
    DecryptWellSized(c, kp, combined);
    OpenPartsSealed(c, kp, parts, secret, data);
  }

  /** A key pair's public key text gets past the decoding and the size check. */
  lemma EncryptToKeyPair(c: Primitives, recipientPrivateKey: seq<Byte>, ephemeralPrivateKey: seq<Byte>,
                         randomNonce: Option<seq<Byte>>, data: string)
    requires Sound(c)
    ensures EncryptAttempt(c, GenerateKeyPair(c, recipientPrivateKey).publicKey, data, ephemeralPrivateKey, randomNonce)
      == EncryptTo(c, c.publicFromPrivate(recipientPrivateKey), data, ephemeralPrivateKey, randomNonce)
  {
    assert |c.publicFromPrivate(recipientPrivateKey)| == PublicKeySize;
  }

  /** What the recipient decrypts is what the sender encrypted: encryption to a key pair's public
      key succeeds exactly when the key agreement succeeds, the random source delivers a nonce and
      `ChaChaPoly.seal` does not throw, and `decrypt` then gives the data back. */
  lemma EncryptDecryptRoundTrip(c: Primitives, recipientPrivateKey: seq<Byte>, ephemeralPrivateKey: seq<Byte>,
                                randomNonce: Option<seq<Byte>>, data: string)
    requires Sound(c)
    requires randomNonce.Some? ==> |randomNonce.value| == NonceSize
    ensures var kp := GenerateKeyPair(c, recipientPrivateKey);
      var r := EncryptAttempt(c, kp.publicKey, data, ephemeralPrivateKey, randomNonce);
      var secret := c.sharedSecret(ephemeralPrivateKey, c.publicFromPrivate(recipientPrivateKey));
      (r.Success? <==>
        (secret.Some? && randomNonce.Some? &&
         c.seal(EncryptionKey(c, secret.value), randomNonce.value, Utf8.Encode(data)).Some?)) &&
      (r.Success? ==> Decrypt(c, kp, r.value) == Success(data))
  {
    var kp := GenerateKeyPair(c, recipientPrivateKey);
    var recipientPublicKey := c.publicFromPrivate(recipientPrivateKey);
    var secret := c.sharedSecret(ephemeralPrivateKey, recipientPublicKey);
    var r := EncryptAttempt(c, kp.publicKey, data, ephemeralPrivateKey, randomNonce);
    EncryptToKeyPair(c, recipientPrivateKey, ephemeralPrivateKey, randomNonce, data);
    if secret.None? {
      assert r == Failure(CryptoKitError);
    } else if randomNonce.None? {
      assert r == Failure(Crypto(EncryptionFailed));
    } else {
      var key := EncryptionKey(c, secret.value);
      var ephemeralPublicKey := c.publicFromPrivate(ephemeralPrivateKey);
      assert r == SealAndFrame(c, key, ephemeralPublicKey, randomNonce.value, data);
      var sealed := c.seal(key, randomNonce.value, Utf8.Encode(data));
      if sealed.None? {
        assert r == Failure(CryptoKitError);
      } else {
        assert r == Success(Base64.UrlEncode(Combine(Fields(ephemeralPublicKey, randomNonce.value, sealed.value))));
        assert c.sharedSecret(recipientPrivateKey, ephemeralPublicKey) == secret;
        assert |ephemeralPublicKey| == PublicKeySize;
        SealLaws(c, key, randomNonce.value, Utf8.Encode(data), sealed.value);
        DecryptSealed(c, recipientPrivateKey, ephemeralPrivateKey, randomNonce.value, data, secret.value, sealed.value);
      }
    }
  }
}
