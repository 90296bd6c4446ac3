# PyChain core in Dafny

A model of the two pieces of logic in PyChain, a small educational ledger:

- **The hash-linked chain** (`base.py`). Blocks carry an index, a timestamp,
  a data string, the previous block's hash and their own hash. A chain starts
  with a fixed genesis block; `add_block` appends a block linked to the last
  one; `is_chain_valid` rescans blocks `1 .. n-1` and stops at the first block
  whose stored hash differs from the recomputed one or whose previous-hash
  field differs from the previous block's stored hash. The name-to-address
  lookup the transfer prompt builds from the wallet file is modelled too.
- **The wallet store** (`wallet_manager.py`). Keys are derived from passwords
  by one SHA-256 call. The private key is kept as a Fernet token. The address
  is the hex text of the first 20 bytes of the SHA-256 digest of the public
  key. `save_wallet` appends one record to the wallet file. `load_wallet`
  opens the first record with the requested address.

Files and modules:

| file | module | contents |
|---|---|---|
| `wrappers.dfy` | `Wrappers` | `Option` and `Result` |
| `hex.dfy` | `Hex` | bytes, `bytes.hex()` and `bytes.fromhex()`, and their round trip |
| `chain.dfy` | `Chain` | blocks, genesis, `add_block`, validation, chains built by appends |
| `crypto.dfy` | `Crypto` | the opaque primitives and the laws assumed of them |
| `wallet_manager.dfy` | `WalletManager` | key derivation, encryption, addresses, save and load |
| `name_map.dfy` | `NameMap` | the lower-cased name to address map |

Modelling choices:

- The chain's digest (`sha256(text.encode()).hexdigest()`) is a function
  parameter `H` with no assumptions. Every chain property holds for every `H`.
- SHA-256, UTF-8 encoding, the ECDSA key serialisation and Fernet are fields
  of a `Crypto` value. Wallet properties assume only these laws:
  - `Sound`: digests are 32 bytes; decrypting a token with its own key gives
    back the plaintext; a key read back from its serialisation is the same key.
  - `Authenticated`: a token is rejected under any 32-byte key whose first
    16 bytes, the half Fernet signs with, differ from those of the key that
    made it. Used
    only for wrong-password results.
  - `Crypto.LawsSatisfiable` shows one instance satisfies all of them.
- Each timestamp is the text Python prints for the float `time.time()`,
  supplied by the caller.
- Fernet's random IV and clock reading are one `nonce` input to encryption.
- A freshly generated signing key is an input to `NewWallet`.
- The wallet file is `Option<seq<WalletRecord>>`. `None` means the file does
  not exist. `save_wallet` returns the file's new contents.
- What `is_chain_valid` prints becomes the `Verdict` of `Chain.Check`. The
  verdict names the first failing block and which comparison failed.
  `IsChainValid` is `true` exactly when the verdict is `Intact`.
- The source compares the stored hash first and the link second. The model
  keeps that order.

Consequences of the code as written, which the model keeps:

- **Tampering with fields.** The hashed text has no separators, so a change
  to the fields of a block is not always detected. `calculate_hash` digests
  `str(index) + timestamp + data + previous_hash`, and two different field
  tuples can give the same text. Index 1 with timestamp `"23.5"` and index 12 with timestamp `"3.5"` are one
  example; moving characters between `data` and `previous_hash` is another.
  `Chain.IndexTamperUndetected` proves that such a change to block 1 of a valid
  chain leaves it valid, whatever the digest function. Tamper detection is
  therefore stated only as "stored hash differs from the recomputed hash
  implies invalid" (`Chain.IsChainValid`).
- **Load failures.** `load_wallet` calls `bytes.fromhex` on the stored token
  before the `try` (wallet_manager.py:91). So a record whose encrypted key is
  not hex text fails with a third, separate ValueError, besides the missing
  address and the undifferentiated decryption error: `MalformedKeyHex` in the
  model.
- **Address of a loaded wallet.** `load_wallet` rebuilds the wallet from the
  decrypted key, so the loaded address is derived again from that key. It is
  not copied from the record. `LoadWallet` states this. The loaded address
  equals the requested one when the record was written by `save_wallet`
  (`SaveThenLoad`).

## Model

| member | source | states |
|---|---|---|
| `Chain.CalculateHashFieldsOnly` | base.py:33-35 | `calculate_hash` digests the index, timestamp, data and previous hash only: two blocks agreeing on those four fields recompute the same hash, whatever hash they store |
| `Chain.NewBlock` | base.py:26-31 | the block keeps the given index, timestamp, data and previous hash, and its stored hash equals what `calculate_hash` recomputes from those fields |
| `Chain.CreateGenesisBlock` | base.py:41-42 | the genesis block has index 0, data "Genesis Block", previous hash "0", and an intact hash |
| `Chain.NewChain` | base.py:38-42 | a new chain has length 1 and its only block is the genesis block with an intact hash |
| `Chain.AddBlock` | base.py:44-47 | on a chain of length n > 0: length becomes n+1, blocks 0..n-1 are unchanged, the new block has index n, links to the hash of block n-1, and carries the given data and time with an intact hash; on an empty chain it fails, as `self.chain[-1]` raises |
| `Chain.NatToString` | base.py:34 | `str(index)` for a non-negative index: decimal digits without a leading zero, denoting the index |
| `Chain.CheckFrom` | base.py:50-60 | the loop of `is_chain_valid` from block i on, stopping at the first block whose stored hash or link fails; a failure it reports names a block between i and the end of the chain |
| `Chain.CheckFromIntact` | base.py:50-62 | the scan from block i succeeds exactly when every block from i on has an intact hash and links to its predecessor |
| `Chain.CheckFromFailure` | base.py:50-60 | a failing scan from block i names the first failing block: all blocks before it pass, a stored-hash mismatch is reported as such, and a link failure is reported only for a block whose hash is intact |
| `Chain.Check` | base.py:49-62 | the verdict is success exactly when every block after genesis passes both checks; otherwise it names the first failing block, at index ≥ 1, and which of the two checks it failed first |
| `Chain.IsChainValid` | base.py:49-62 | true iff every block i ≥ 1 has an intact hash and links to block i-1; always true for a chain of at most one block; false whenever some block i ≥ 1 has a stored hash different from its recomputed hash; it is a pure function, so the chain is not modified |
| `Chain.Build` | base.py:37-47 | the constructor followed by k `add_block` calls gives k+1 blocks, the first of which is the genesis block |
| `Chain.BuildContents` | base.py:44-47 | in a built chain, block k+1 holds index k+1 and the data and time of the k-th `add_block` call |
| `Chain.AddBlockPreservesValid` | base.py:44-62 | appending to a valid chain gives a valid chain, for any data and timestamp |
| `Chain.BuildIsValid` | base.py:37-62 | every chain built only from the constructor and `add_block`, with any timestamps, is valid |
| `Chain.CheckFromIgnoresGenesis` | base.py:50-60 | the scan from any i ≥ 1 gives the same verdict after the genesis block is replaced by any block with the same stored hash |
| `Chain.GenesisNeverRechecked` | base.py:50-58 | the genesis block's own fields are never checked: only its stored hash affects the verdict |
| `Chain.HashInputAmbiguous` | base.py:33-35 | the hashed text is not injective: (index 1, timestamp "23.5") and (index 12, timestamp "3.5") give the same text and the same recomputed hash for any digest |
| `Chain.IndexTamperUndetected` | base.py:33-62 | a valid two-block chain stays valid after its block 1's index and timestamp are changed to another pair with the same concatenation, so not every field mutation is detected |
| `Chain.TwoTransfers` | base.py:44-62 | two transfers appended to a fresh chain give three blocks, a valid chain, and block 2 linked to block 1's hash |
| `Hex.ToHex` | wallet_manager.py:42 | `bytes.hex()` gives two lower-case hex digits per byte |
| `Hex.FromHex` | wallet_manager.py:91 | `bytes.fromhex`: a result has at most half as many bytes as the text has characters (whitespace, case and rejection are stated by the lemmas below) |
| `Hex.FromHexSkipsSpace` | wallet_manager.py:91 | ASCII whitespace before a digit pair is skipped: the text converts exactly as it does without it |
| `Hex.FromHexSpaceInsidePair` | wallet_manager.py:91 | whitespace between the two digits of a pair is not skipped: the conversion fails |
| `Hex.FromHexToUpperHex` | wallet_manager.py:91 | upper-case digits are accepted: text written with upper-case digits reads back as the original bytes |
| `Hex.FromHexLength` | wallet_manager.py:91 | text without whitespace that converts has exactly two characters per byte of the result |
| `Hex.FromHexRejectsNonHex` | wallet_manager.py:91 | a single character that is neither whitespace nor a hex digit, anywhere in the text, makes the conversion fail |
| `Hex.FromHexToHex` | wallet_manager.py:91 | `bytes.fromhex` reading back text written by `bytes.hex()` returns the original bytes |
| `WalletManager.DeriveKey` | wallet_manager.py:9-10 | the key depends on the password alone, with no per-wallet input, and is 32 bytes given 32-byte digests |
| `WalletManager.DecryptPrivateKey` | wallet_manager.py:22-27 | under the digest and cipher laws, a token made under the same password decrypts to its plaintext, whatever IV and clock reading it was made with; under authenticated encryption, a token made under a password whose derived key has a different first 16 bytes (Fernet's signing half) is rejected |
| `WalletManager.EncryptPrivateKey` | wallet_manager.py:13-27 | under the cipher laws, decrypting the token with the same password returns the original private-key bytes, whatever the IV and clock reading |
| `WalletManager.DecryptRejectsOtherPassword` | wallet_manager.py:22-27 | under authenticated encryption, a token is rejected by any password whose derived key differs in its first 16 bytes, the signing half, from the one it was made with |
| `WalletManager.DeriveAddress` | wallet_manager.py:39-42 | the address is lower-case hex that decodes to exactly the first 20 digest bytes of the serialised public key, and is 40 characters long given 32-byte digests |
| `WalletManager.NewWallet` | wallet_manager.py:31-42 | a wallet built from a key keeps that key and its public key; its address is lower-case hex decoding to the first 20 digest bytes of that public key, 40 characters long; it depends on nothing but the key |
| `WalletManager.PublicKeyHex` | wallet_manager.py:44-46 | the public-key text is lower-case hex, twice as long as the key bytes, and decodes back to the serialised public key |
| `WalletManager.OpenRecord` | wallet_manager.py:91-99 | a record fails with the malformed-hex error exactly when its token is not hex text; every other failure is the single incorrect-password-or-corrupted-key error; it succeeds exactly when the token decodes, decrypts and deserialises, giving that key |
| `WalletManager.SaveWallet` | wallet_manager.py:58-79 | the file's records, or none if it is missing, unchanged and followed by exactly one new record with the given name and email, the wallet's address, its public key as lower-case hex that decodes to it, the Fernet token of the serialised key as lower-case hex that decodes to it, a token that opens to the wallet's key under the same password; no duplicate check is made |
| `WalletManager.FirstMatch` | wallet_manager.py:89-90 | finds nothing exactly when no record has the address; otherwise gives the first record with that address |
| `WalletManager.LoadWallet` | wallet_manager.py:82-101 | a missing file fails with the file error; with a file present, fails with address-not-found exactly when no record has the address; otherwise the outcome is that of opening the first matching record, and a loaded wallet is rebuilt from the decrypted key |
| `WalletManager.LoadDecidedByFirstMatch` | wallet_manager.py:89-99 | records after the first match, including later records with the same address, never change the result of a load |
| `WalletManager.SaveKeepsEarlierLoads` | wallet_manager.py:58-101 | saving a wallet never changes the result of loading an address already in the file, even when the new wallet has the same address |
| `WalletManager.SaveThenLoad` | wallet_manager.py:58-101 | a wallet saved when no earlier record has its address loads back with the same password as the same wallet, with the same address |
| `WalletManager.SaveThenLoadOtherPassword` | wallet_manager.py:91-99 | loading such a wallet with a password whose derived key has a different signing half fails with the incorrect-password-or-corrupted-key error |
| `WalletManager.TwoWallets` | wallet_manager.py:58-101 | with two wallets saved into a fresh file under passwords whose derived keys have different signing halves, whether or not their addresses coincide, the first loads with its password, is refused under the other, and an unknown address is not found |
| `NameMap.NamesToAddresses` | base.py:23 | the dict comprehension over the records in order: every lower-cased record name is a key, and every key maps to the address of some record carrying that lower-cased name |
| `NameMap.NameMapKeys` | base.py:23 | the keys of the name map are exactly the lower-cased names of the records |
| `NameMap.NameMapLastWins` | base.py:23 | each lower-cased name maps to the address of the last record carrying that name, so later duplicates win |
| `NameMap.LoadNameAddressMap` | base.py:7-23 | a missing file and a file with fewer than two records are distinct errors, the latter reporting the count; otherwise the map of the records, keyed by the lower-cased names |

## Left out

- File reading and writing, JSON, `Path.exists`, `print`, `input` and `getpass`, both `main` entry points, and `__repr__`: these are I/O and command-line glue. The wallet file is a value; the printed failure index is the `Verdict`.
- `time.time()` and the rendering of the float timestamp: non-deterministic. The timestamp is the rendered text, passed in.
- Key generation (`Wallet()` with no key) and address uniqueness across wallets: randomness and probability. The key is an input, and uniqueness is a precondition where needed.
- `Wallet.sign`: an ECDSA signature followed by `.hex()`. It has no logic of the repository's own beyond the hex encoding.
- SHA-256, ECDSA and Fernet internals, including the base64 wrapping of the Fernet key: foreign library code. They are opaque functions with the laws in `Crypto`. `Authenticated` idealises a property that holds only with overwhelming probability, and only for keys whose signing halves differ; two passwords whose SHA-256 digests share their first 16 bytes are not covered.
- Wallet records with missing fields or a malformed JSON file (`KeyError`, decoding errors): records always carry all five fields.
- Concurrent writers to the wallet file: the model is single-process.
- NameMap.Lower: only ASCII letters are lower-cased. Python's `str.lower` also lower-cases other Unicode letters, and may change a string's length.
- `Wallet.private_key_bytes`: written inline as the key serialisation `signingKeyToString`.
