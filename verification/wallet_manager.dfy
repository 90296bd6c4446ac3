/**
 The wallet store of `wallet_manager.py`: password-derived keys, the
 encrypted private key, address derivation, and the wallet file seen as a
 list of records that `save_wallet` appends to and `load_wallet` searches.

 The file itself is a `Store`: `None` when it does not exist, otherwise the
 list of records it holds. Cryptography comes in as a `Crypto` value.
 */
module WalletManager {
  import opened Wrappers
  import opened Hex
  import opened Crypto

  // ---------------------------------------------------------------------------
  // Password-based encryption of the private key

  /**
   `derive_key`: SHA-256 of the UTF-8 password. There is no salt and no
   per-wallet input, so one password gives one key for every wallet.
   */
  function DeriveKey(c: Crypto, password: string): (key: Bytes)
    ensures DigestLength(c) ==> |key| == FernetKeySize
  {
    c.sha256(c.utf8(password))
  }

  /**
   `decrypt_private_key`: `None` when Fernet rejects the token under the
   derived key. Under the cipher laws, a token made under the same password
   gives back its plaintext, and one made under a password whose derived key
   has a different signing half is rejected.
   */
  function DecryptPrivateKey(c: Crypto, token: Bytes, password: string): (r: Option<Bytes>)
    ensures DigestLength(c) && CipherRoundTrip(c) ==>
      forall nonce, m :: token == c.fernetEncrypt(DeriveKey(c, password), nonce, m) ==> r == Some(m)
    ensures DigestLength(c) && Authenticated(c) ==>
      forall other, nonce, m ::
        && DeriveKey(c, other)[..FernetSigningKeySize] != DeriveKey(c, password)[..FernetSigningKeySize]
        && token == c.fernetEncrypt(DeriveKey(c, other), nonce, m)
        ==> r.None?
  {
    c.fernetDecrypt(DeriveKey(c, password), token)
  }

  /**
   `encrypt_private_key`: a Fernet token under the password-derived key. The
   throw-away key generated first in the source is overwritten before use and
   has no effect. `nonce` stands for the IV and clock reading Fernet draws.
   */
  function EncryptPrivateKey(c: Crypto, privateKeyBytes: Bytes, password: string, nonce: Bytes): (token: Bytes)
    ensures Sound(c) ==> DecryptPrivateKey(c, token, password) == Some(privateKeyBytes)
  {
    c.fernetEncrypt(DeriveKey(c, password), nonce, privateKeyBytes)
  }

  /**
   A token made under one password is rejected under any password whose
   derived key has a different signing half.
   */
  lemma DecryptRejectsOtherPassword(c: Crypto, privateKeyBytes: Bytes, password: string, other: string, nonce: Bytes)
    requires DigestLength(c) && Authenticated(c)
    requires DeriveKey(c, other)[..FernetSigningKeySize] != DeriveKey(c, password)[..FernetSigningKeySize]
    ensures DecryptPrivateKey(c, EncryptPrivateKey(c, privateKeyBytes, password, nonce), other).None?
  {
  }

  // ---------------------------------------------------------------------------
  // Wallets and addresses

  /** `Wallet`: the private key, its serialised public key, and the address derived from it. */
  datatype Wallet = Wallet(sk: SigningKey, verifyingKey: Bytes, address: string)

  /** Number of digest bytes kept in an address. */
  const AddressBytes: nat := 20

  /** Python's `d[:n]`: the first `n` bytes, or all of them when there are fewer. */
  function Take(d: Bytes, n: nat): (p: Bytes)
    ensures |p| == if |d| < n then |d| else n
    ensures p == d[..|p|]
  {
    if |d| < n then d else d[..n]
  }

  /**
   `Wallet._derive_address`: the hex text of the first 20 bytes of the SHA-256
   digest of the serialised public key. It is 40 lower-case hex digits, and
   reading it back as hex gives exactly those digest bytes.
   */
  function DeriveAddress(c: Crypto, verifyingKey: Bytes): (address: string)
    ensures IsLowerHex(address)
    ensures FromHex(address) == Some(Take(c.sha256(verifyingKey), AddressBytes))
    ensures DigestLength(c) ==> |address| == 2 * AddressBytes
  {
    var prefix := Take(c.sha256(verifyingKey), AddressBytes);
    FromHexToHex(prefix);
    ToHex(prefix)
  }

  /**
   `Wallet.__init__(sk)` for a given key (a freshly generated key is the
   caller's input): the public key and address depend on the key alone.
   */
  function NewWallet(c: Crypto, sk: SigningKey): (w: Wallet)
    ensures w.sk == sk && w.verifyingKey == c.verifyingKeyBytes(sk)
    ensures IsLowerHex(w.address)
    ensures FromHex(w.address) == Some(Take(c.sha256(c.verifyingKeyBytes(sk)), AddressBytes))
    ensures DigestLength(c) ==> |w.address| == 2 * AddressBytes
  {
    var vk := c.verifyingKeyBytes(sk);
    Wallet(sk, vk, DeriveAddress(c, vk))
  }

  /** `Wallet.public_key_hex`: hex text that reads back as the serialised public key. */
  function PublicKeyHex(w: Wallet): (hex: string)
    ensures |hex| == 2 * |w.verifyingKey| && IsLowerHex(hex)
    ensures FromHex(hex) == Some(w.verifyingKey)
  {
    FromHexToHex(w.verifyingKey);
    ToHex(w.verifyingKey)
  }

  // ---------------------------------------------------------------------------
  // The wallet file

  /** One entry of the wallet file. */
  datatype WalletRecord = WalletRecord(name: string, email: string, address: string, publicKey: string, encryptedPrivateKey: string)

  /** The wallet file: `None` when it does not exist. */
  type Store = Option<seq<WalletRecord>>

  /** The records `save_wallet` starts from: none when the file is missing. */
  function Records(store: Store): seq<WalletRecord> {
    match store
    case None => []
    case Some(records) => records
  }

  /**
   The failures of `load_wallet`: the missing file (FileNotFoundError), and
   three ValueErrors — no record with the address, an encrypted key that is
   not hex text (raised by `bytes.fromhex` before the `try`), and a token or
   key that does not decrypt or deserialise, reported as one condition.
   */
  datatype LoadError = NoWalletsSaved | AddressNotFound | MalformedKeyHex | IncorrectPasswordOrCorruptedKey

  /**
   The body of the `try` in `load_wallet` for one record, with the hex
   decoding in front of it: any failure of decryption or of rebuilding the key
   is the same error.
   */
  function OpenRecord(c: Crypto, rec: WalletRecord, password: string): (r: Result<SigningKey, LoadError>)
    ensures r == Err(MalformedKeyHex) <==> FromHex(rec.encryptedPrivateKey).None?
    ensures r.Err? ==> r.error == MalformedKeyHex || r.error == IncorrectPasswordOrCorruptedKey
    ensures r.Ok? <==>
      && FromHex(rec.encryptedPrivateKey).Some?
      && DecryptPrivateKey(c, FromHex(rec.encryptedPrivateKey).value, password).Some?
      && c.signingKeyFromString(DecryptPrivateKey(c, FromHex(rec.encryptedPrivateKey).value, password).value).Some?
    ensures r.Ok? ==>
      Some(r.value) == c.signingKeyFromString(DecryptPrivateKey(c, FromHex(rec.encryptedPrivateKey).value, password).value)
  {
    match FromHex(rec.encryptedPrivateKey)
    case None => Err(MalformedKeyHex)
    case Some(token) =>
      match DecryptPrivateKey(c, token, password)
      case None => Err(IncorrectPasswordOrCorruptedKey)
      case Some(skBytes) =>
        match c.signingKeyFromString(skBytes)
        case None => Err(IncorrectPasswordOrCorruptedKey)
        case Some(sk) => Ok(sk)
  }

  /**
   `save_wallet`: the records of the file (none if it is missing) followed by
   exactly one new record for the wallet. Existing names and addresses are not
   checked. The result is the new content of the file.
   */
  function SaveWallet(c: Crypto, store: Store, name: string, email: string, wallet: Wallet, password: string, nonce: Bytes): (saved: seq<WalletRecord>)
    ensures |saved| == |Records(store)| + 1
    ensures saved[..|Records(store)|] == Records(store)
    ensures var rec := saved[|Records(store)|];
      && rec.name == name && rec.email == email && rec.address == wallet.address
      && IsLowerHex(rec.publicKey) && FromHex(rec.publicKey) == Some(wallet.verifyingKey)
      && IsLowerHex(rec.encryptedPrivateKey)
      && FromHex(rec.encryptedPrivateKey) == Some(EncryptPrivateKey(c, c.signingKeyToString(wallet.sk), password, nonce))
      && (Sound(c) ==> OpenRecord(c, rec, password) == Ok(wallet.sk))
  {
    var token := EncryptPrivateKey(c, c.signingKeyToString(wallet.sk), password, nonce);
    FromHexToHex(token);
    var rec := WalletRecord(name, email, wallet.address, PublicKeyHex(wallet), ToHex(token));
    Records(store) + [rec]
  }

  /** The position of the first record with the given address, as the `for` loop of `load_wallet` finds it. */
  function FirstMatch(records: seq<WalletRecord>, address: string): (j: Option<nat>)
    ensures j.None? <==> forall i :: 0 <= i < |records| ==> records[i].address != address
    ensures j.Some? ==>
      && j.value < |records|
      && records[j.value].address == address
      && forall i :: 0 <= i < j.value ==> records[i].address != address
  {
    if records == [] then None
    else if records[0].address == address then Some(0)
    else
      match FirstMatch(records[1..], address)
      case None => None
      case Some(j) => Some(j + 1)
  }

  /**
   `load_wallet`: the missing file and the absent address are distinct
   failures; otherwise only the first record with the address is opened, and
   its failure is final. A loaded wallet is rebuilt from the decrypted key.
   */
  function LoadWallet(c: Crypto, store: Store, address: string, password: string): (r: Result<Wallet, LoadError>)
    ensures r == Err(NoWalletsSaved) <==> store.None?
    ensures store.Some? ==>
      (r == Err(AddressNotFound) <==> forall i :: 0 <= i < |store.value| ==> store.value[i].address != address)
    ensures r.Ok? ==>
      && store.Some? && FirstMatch(store.value, address).Some?
      && OpenRecord(c, store.value[FirstMatch(store.value, address).value], password) == Ok(r.value.sk)
      && r.value == NewWallet(c, r.value.sk)
    ensures r.Err? && r.error != NoWalletsSaved && r.error != AddressNotFound ==>
      && store.Some? && FirstMatch(store.value, address).Some?
      && OpenRecord(c, store.value[FirstMatch(store.value, address).value], password) == Err(r.error)
  {
    match store
    case None => Err(NoWalletsSaved)
    case Some(records) =>
      match FirstMatch(records, address)
      case None => Err(AddressNotFound)
      case Some(j) =>
        match OpenRecord(c, records[j], password)
        case Err(e) => Err(e)
        case Ok(sk) => Ok(NewWallet(c, sk))
  }

  // ---------------------------------------------------------------------------
  // Properties of the store

  /**
   Only the records up to the first match decide `load_wallet`: records after
   it, including later ones with the same address, are never consulted.
   */
  lemma LoadDecidedByFirstMatch(c: Crypto, records: seq<WalletRecord>, more: seq<WalletRecord>, address: string, password: string, j: nat)
    requires j < |records| && records[j].address == address
    ensures LoadWallet(c, Some(records + more), address, password) == LoadWallet(c, Some(records), address, password)
  {
    var k := FirstMatch(records, address).value;
    var all := records + more;
    assert all[k] == records[k];
    assert forall i :: 0 <= i < k ==> all[i] == records[i];
    assert FirstMatch(all, address) == Some(k);
  }

  /** Saving another wallet never changes what loading an address that is already in the file gives. */
  lemma SaveKeepsEarlierLoads(c: Crypto, store: Store, name: string, email: string, wallet: Wallet, password: string, nonce: Bytes, address: string, loadPassword: string, j: nat)
    requires j < |Records(store)| && Records(store)[j].address == address
    ensures LoadWallet(c, Some(SaveWallet(c, store, name, email, wallet, password, nonce)), address, loadPassword)
         == LoadWallet(c, store, address, loadPassword)
  {
    var saved := SaveWallet(c, store, name, email, wallet, password, nonce);
    assert saved == Records(store) + [saved[|Records(store)|]];
    LoadDecidedByFirstMatch(c, Records(store), [saved[|Records(store)|]], address, loadPassword, j);
  }

  /**
   A wallet saved with a password, whose address no earlier record carries,
   loads back with the same password as the same wallet.
   */
  lemma SaveThenLoad(c: Crypto, store: Store, name: string, email: string, wallet: Wallet, password: string, nonce: Bytes)
    requires Sound(c)
    requires wallet == NewWallet(c, wallet.sk)
    requires forall i :: 0 <= i < |Records(store)| ==> Records(store)[i].address != wallet.address
    ensures LoadWallet(c, Some(SaveWallet(c, store, name, email, wallet, password, nonce)), wallet.address, password) == Ok(wallet)
  {
  }

  /**
   Loading that wallet with a password whose derived key has a different
   signing half fails with the undifferentiated decryption error.
   */
  lemma SaveThenLoadOtherPassword(c: Crypto, store: Store, name: string, email: string, wallet: Wallet, password: string, other: string, nonce: Bytes)
    requires Sound(c) && Authenticated(c)
    requires forall i :: 0 <= i < |Records(store)| ==> Records(store)[i].address != wallet.address
    requires DeriveKey(c, other)[..FernetSigningKeySize] != DeriveKey(c, password)[..FernetSigningKeySize]
    ensures LoadWallet(c, Some(SaveWallet(c, store, name, email, wallet, password, nonce)), wallet.address, other)
         == Err(IncorrectPasswordOrCorruptedKey)
  {
  }

  /**
   Two wallets saved into a fresh file under passwords whose derived keys have
   different signing halves: the first loads with its own password, is refused
   under the other one, and an address neither carries is not found.
   */
  lemma TwoWallets(c: Crypto, a: Wallet, b: Wallet, pw1: string, pw2: string, n1: Bytes, n2: Bytes, probe: string)
    requires Sound(c) && Authenticated(c)
    requires a == NewWallet(c, a.sk) && b == NewWallet(c, b.sk)
    requires probe != a.address && probe != b.address
    requires DeriveKey(c, pw1)[..FernetSigningKeySize] != DeriveKey(c, pw2)[..FernetSigningKeySize]
    ensures var store := Some(SaveWallet(c, Some(SaveWallet(c, None, "A", "a@example.org", a, pw1, n1)), "B", "b@example.org", b, pw2, n2));
      && LoadWallet(c, store, a.address, pw1) == Ok(a)
      && LoadWallet(c, store, a.address, pw2) == Err(IncorrectPasswordOrCorruptedKey)
      && LoadWallet(c, store, probe, pw1) == Err(AddressNotFound)
  {
  }
}
