/**
 The cryptographic library calls the wallet code makes, as opaque functions.

 SHA-256, the SECP256k1 key serialisation of the `ecdsa` package and the
 Fernet token cipher of the `cryptography` package are not modelled; the wallet
 operations receive them as a `Crypto` value, and the properties proved about
 the wallet rest only on the laws stated here.
 */
module Crypto {
  import opened Wrappers
  import opened Hex

  /** A SECP256k1 private key, identified by its secret scalar. */
  datatype SigningKey = SigningKey(secret: nat)

  datatype Crypto = Crypto(
    /** `hashlib.sha256(m).digest()` */
    sha256: Bytes -> Bytes,
    /** `str.encode()`, UTF-8 */
    utf8: string -> Bytes,
    /** `sk.get_verifying_key().to_string()`: the serialised public key */
    verifyingKeyBytes: SigningKey -> Bytes,
    /** `sk.to_string()` */
    signingKeyToString: SigningKey -> Bytes,
    /** `SigningKey.from_string(b, curve=SECP256k1)`; `None` when it raises */
    signingKeyFromString: Bytes -> Option<SigningKey>,
    /** `Fernet(key).encrypt(m)` for a raw 32-byte key; `nonce` is the random IV and the clock reading */
    fernetEncrypt: (Bytes, Bytes, Bytes) -> Bytes,
    /** `Fernet(key).decrypt(token)`; `None` when it raises InvalidToken */
    fernetDecrypt: (Bytes, Bytes) -> Option<Bytes>
  )

  const DigestSize: nat := 32
  const FernetKeySize: nat := 32

  /** Fernet signs with the first 16 bytes of its key and encrypts with the rest. */
  const FernetSigningKeySize: nat := 16

  /** SHA-256 digests are 32 bytes long. */
  ghost predicate DigestLength(c: Crypto) {
    forall m :: |c.sha256(m)| == DigestSize
  }

  /** Decrypting a Fernet token with the key that made it returns the plaintext. */
  ghost predicate CipherRoundTrip(c: Crypto) {
    forall key, nonce, m :: |key| == FernetKeySize ==> c.fernetDecrypt(key, c.fernetEncrypt(key, nonce, m)) == Some(m)
  }

  /** A private key read back from its own serialisation is the same key. */
  ghost predicate KeyRoundTrip(c: Crypto) {
    forall sk :: c.signingKeyFromString(c.signingKeyToString(sk)) == Some(sk)
  }

  /** The laws every property of the wallet store relies on. */
  ghost predicate Sound(c: Crypto) {
    DigestLength(c) && CipherRoundTrip(c) && KeyRoundTrip(c)
  }

  /**
   Fernet tokens are authenticated: a token made under one key is rejected
   under any key of the right size whose signing half differs. This idealises
   a guarantee that holds with overwhelming probability; a key that differs
   only in its encryption half may decrypt a token to other bytes instead.
   */
  ghost predicate Authenticated(c: Crypto) {
    forall key, key', nonce, m ::
      |key| == FernetKeySize && |key'| == FernetKeySize
      && key[..FernetSigningKeySize] != key'[..FernetSigningKeySize] ==>
      c.fernetDecrypt(key', c.fernetEncrypt(key, nonce, m)) == None
  }

  /**
   A toy instance of the primitives: constant digests, keys written in unary,
   and a "cipher" that prefixes the key. It exists only to show the laws can
   hold together.
   */
  ghost function ToyCrypto(): Crypto {
    Crypto(
      (m: Bytes) => seq(DigestSize, _ => 0 as byte),
      (s: string) => [],
      (sk: SigningKey) => [],
      (sk: SigningKey) => var z: Bytes := seq(sk.secret, (_: int) => 0); z,
      (b: Bytes) => if forall i :: 0 <= i < |b| ==> b[i] == 0 then Some(SigningKey(|b|)) else None,
      (key: Bytes, nonce: Bytes, m: Bytes) => key + m,
      (key: Bytes, token: Bytes) => if |key| <= |token| && token[..|key|] == key then Some(token[|key|..]) else None)
  }

  /** The laws are consistent: the toy instance satisfies all of them. */
  lemma LawsSatisfiable()
    ensures Sound(ToyCrypto()) && Authenticated(ToyCrypto())
  {
    var c := ToyCrypto();
    assert CipherRoundTrip(c) by {
      forall key, nonce, m | |key| == FernetKeySize
        ensures c.fernetDecrypt(key, c.fernetEncrypt(key, nonce, m)) == Some(m)
      {
        assert (key + m)[..|key|] == key && (key + m)[|key|..] == m;
      }
    }
    assert Authenticated(c) by {
      forall key, key', nonce, m | |key| == FernetKeySize && |key'| == FernetKeySize
        && key[..FernetSigningKeySize] != key'[..FernetSigningKeySize]
        ensures c.fernetDecrypt(key', c.fernetEncrypt(key, nonce, m)) == None
      {
        assert (key + m)[..|key'|] == key;
      }
    }
    assert KeyRoundTrip(c) by {
      forall sk: SigningKey
        ensures c.signingKeyFromString(c.signingKeyToString(sk)) == Some(sk)
      {
        assert |c.signingKeyToString(sk)| == sk.secret;
      }
    }
  }
}
