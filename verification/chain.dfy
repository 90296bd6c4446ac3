/**
 The hash-linked chain of `base.py`: blocks that carry their own hash, a chain
 that starts from a fixed genesis block, `add_block`, and `is_chain_valid`.

 The digest function (SHA-256 over the UTF-8 text, rendered as a hex digest)
 is the parameter `H`; nothing is assumed about it. A block's timestamp is the
 text Python renders for the float `time.time()` returned when the block was
 built, supplied by the caller.
 */
module Chain {
  import opened Wrappers

  /** The digest of a block's text, `hashlib.sha256(value.encode()).hexdigest()`. */
  type Digest = string -> string

  datatype Block = Block(index: int, timestamp: string, data: string, previousHash: string, hash: string)

  const GenesisData: string := "Genesis Block"
  const GenesisPreviousHash: string := "0"

  // ---------------------------------------------------------------------------
  // Rendering of `str(int)`, used for the index inside the hashed text.

  function DigitChar(d: int): (c: char)
    requires 0 <= d < 10
    ensures '0' <= c <= '9'
  {
    ('0' as int + d) as char
  }

  /** The number a string of decimal digits denotes, most significant digit first. */
  function DecimalValue(s: string): nat
    requires forall i :: 0 <= i < |s| ==> '0' <= s[i] <= '9'
  {
    if s == [] then 0
    else DecimalValue(s[..|s| - 1]) * 10 + (s[|s| - 1] as int - '0' as int)
  }

  /** Decimal digits of a natural number, most significant first, no leading zero, denoting the number. */
  function NatToString(n: nat): (s: string)
    ensures 1 <= |s|
    ensures forall i :: 0 <= i < |s| ==> '0' <= s[i] <= '9'
    ensures |s| > 1 ==> s[0] != '0'
    ensures DecimalValue(s) == n
    decreases n
  {
    if n < 10 then [DigitChar(n)]
    else
      var s := NatToString(n / 10) + [DigitChar(n % 10)];
      assert s[..|s| - 1] == NatToString(n / 10);
      s
  }

  /** `str(i)` for a Python int: a minus sign before the digits of a negative number. */
  function IntToString(i: int): (s: string)
    ensures 1 <= |s|
    ensures s[0] == '-' <==> i < 0
    decreases if i < 0 then 1 else 0
  {
    if i < 0 then "-" + IntToString(-i) else NatToString(i)
  }

  // ---------------------------------------------------------------------------
  // Blocks

  /** The text `calculate_hash` digests: the four fields written one after the other, with no separator. */
  function HashInput(index: int, timestamp: string, data: string, previousHash: string): string {
    IntToString(index) + timestamp + data + previousHash
  }

  /** `Block.calculate_hash`: the digest recomputed from the block's current fields. */
  function CalculateHash(H: Digest, b: Block): string {
    H(HashInput(b.index, b.timestamp, b.data, b.previousHash))
  }

  /**
   `calculate_hash` reads the index, timestamp, data and previous hash and
   nothing else: blocks that agree on those four fields recompute the same
   hash, whatever hash they store.
   */
  lemma CalculateHashFieldsOnly(H: Digest, a: Block, b: Block)
    requires a.index == b.index && a.timestamp == b.timestamp
    requires a.data == b.data && a.previousHash == b.previousHash
    ensures CalculateHash(H, a) == CalculateHash(H, b)
  {
  }

  /** A block whose stored hash is the one its own fields produce. */
  predicate HashIntact(H: Digest, b: Block) {
    b.hash == CalculateHash(H, b)
  }

  /** `Block.__init__`: stores the fields and the hash computed from them. */
  function NewBlock(H: Digest, index: int, timestamp: string, data: string, previousHash: string): (b: Block)
    ensures b.index == index && b.timestamp == timestamp
    ensures b.data == data && b.previousHash == previousHash
    ensures HashIntact(H, b)
  {
    var b := Block(index, timestamp, data, previousHash, "");
    b.(hash := CalculateHash(H, b))
  }

  /** `Blockchain.create_genesis_block`. */
  function CreateGenesisBlock(H: Digest, timestamp: string): (b: Block)
    ensures b.index == 0 && b.data == GenesisData && b.previousHash == GenesisPreviousHash
    ensures b.timestamp == timestamp && HashIntact(H, b)
  {
    NewBlock(H, 0, timestamp, GenesisData, GenesisPreviousHash)
  }

  /** `Blockchain.__init__`: a chain holding only the genesis block. */
  function NewChain(H: Digest, timestamp: string): (chain: seq<Block>)
    ensures |chain| == 1
    ensures chain[0].index == 0 && chain[0].data == GenesisData
    ensures chain[0].previousHash == GenesisPreviousHash && HashIntact(H, chain[0])
  {
    [CreateGenesisBlock(H, timestamp)]
  }

  /** `self.chain[-1]` on an empty list raises IndexError. */
  datatype ChainError = EmptyChain

  /**
   `Blockchain.add_block`: append a block whose index is the current length and
   whose previous hash is the stored hash of the last block.
   */
  function AddBlock(H: Digest, chain: seq<Block>, timestamp: string, data: string): (r: Result<seq<Block>, ChainError>)
    ensures r.Err? <==> |chain| == 0
    ensures r.Ok? ==> var n := |chain|;
      && |r.value| == n + 1
      && r.value[..n] == chain
      && r.value[n].index == n
      && r.value[n].previousHash == chain[n - 1].hash
      && r.value[n].data == data && r.value[n].timestamp == timestamp
      && HashIntact(H, r.value[n])
  {
    if |chain| == 0 then Err(EmptyChain)
    else Ok(chain + [NewBlock(H, |chain|, timestamp, data, chain[|chain| - 1].hash)])
  }

  // ---------------------------------------------------------------------------
  // Validation

  /** Both checks `is_chain_valid` makes of block `i`. */
  ghost predicate LinkedAt(H: Digest, chain: seq<Block>, i: int)
    requires 1 <= i < |chain|
  {
    HashIntact(H, chain[i]) && chain[i].previousHash == chain[i - 1].hash
  }

  /** Every block with an index in `[lo, hi)` passes both checks. */
  ghost predicate LinkedBetween(H: Digest, chain: seq<Block>, lo: int, hi: int)
    requires 1 <= lo && hi <= |chain|
  {
    forall i :: lo <= i < hi ==> LinkedAt(H, chain, i)
  }

  /** The chain `is_chain_valid` accepts: every block after the genesis block passes both checks. */
  ghost predicate Valid(H: Digest, chain: seq<Block>) {
    forall i :: 1 <= i < |chain| ==> LinkedAt(H, chain, i)
  }

  /** What the scan reports: success, or the first failing block and which check it failed. */
  datatype Verdict = Intact | InvalidHash(at: nat) | InvalidPreviousHash(at: nat)

  /**
   The loop of `is_chain_valid` from block `i` on: the stored hash is checked
   before the link, and the first failure ends the scan.
   */
  function CheckFrom(H: Digest, chain: seq<Block>, i: nat): (v: Verdict)
    requires 1 <= i
    ensures !v.Intact? ==> i <= v.at < |chain|
    decreases |chain| - i
  {
    if i >= |chain| then Intact
    else if !HashIntact(H, chain[i]) then InvalidHash(i)
    else if chain[i].previousHash != chain[i - 1].hash then InvalidPreviousHash(i)
    else CheckFrom(H, chain, i + 1)
  }

  /** The scan from `i` succeeds exactly when every block from `i` on passes both checks. */
  lemma {:induction false} CheckFromIntact(H: Digest, chain: seq<Block>, i: nat)
    requires 1 <= i
    ensures CheckFrom(H, chain, i).Intact? <==> LinkedBetween(H, chain, i, |chain|)
    decreases |chain| - i
  {
    if i < |chain| && LinkedAt(H, chain, i) {
      CheckFromIntact(H, chain, i + 1);
    }
  }

  /**
   A failing scan from `i` names the first failing block: every block before
   it passes, and the reason is the first of the two checks it fails.
   */
  lemma {:induction false} CheckFromFailure(H: Digest, chain: seq<Block>, i: nat)
    requires 1 <= i
    ensures var v := CheckFrom(H, chain, i);
      && (!v.Intact? ==> !LinkedAt(H, chain, v.at) && LinkedBetween(H, chain, i, v.at))
      && (v.InvalidHash? ==> !HashIntact(H, chain[v.at]))
      && (v.InvalidPreviousHash? ==> HashIntact(H, chain[v.at]) && chain[v.at].previousHash != chain[v.at - 1].hash)
    decreases |chain| - i
  {
    if i < |chain| && LinkedAt(H, chain, i) {
      CheckFromFailure(H, chain, i + 1);
    }
  }

  /** The scan over blocks `1 .. |chain| - 1`, with the index and reason the source prints. */
  function Check(H: Digest, chain: seq<Block>): (v: Verdict)
    ensures v.Intact? <==> Valid(H, chain)
    ensures !v.Intact? ==> 1 <= v.at < |chain| && !LinkedAt(H, chain, v.at) && LinkedBetween(H, chain, 1, v.at)
    ensures v.InvalidHash? ==> chain[v.at].hash != CalculateHash(H, chain[v.at])
    ensures v.InvalidPreviousHash? ==>
      HashIntact(H, chain[v.at]) && chain[v.at].previousHash != chain[v.at - 1].hash
  {
    CheckFromIntact(H, chain, 1);
    CheckFromFailure(H, chain, 1);
    CheckFrom(H, chain, 1)
  }

  /**
   `Blockchain.is_chain_valid`. A chain of at most one block is valid, since the
   loop has no iterations, and a stored hash that differs from the recomputed
   one at any position after the genesis block makes the chain invalid.
   */
  function IsChainValid(H: Digest, chain: seq<Block>): (valid: bool)
    ensures valid <==> Valid(H, chain)
    ensures |chain| <= 1 ==> valid
    ensures forall i :: 1 <= i < |chain| && chain[i].hash != CalculateHash(H, chain[i]) ==> !valid
  {
    assert forall i :: 1 <= i < |chain| && chain[i].hash != CalculateHash(H, chain[i]) ==> !LinkedAt(H, chain, i);
    Check(H, chain).Intact?
  }

  // ---------------------------------------------------------------------------
  // Chains built by the constructor and `add_block`

  /** The arguments of one `add_block` call, with the time the block was created. */
  datatype Entry = Entry(timestamp: string, data: string)

  /** The chain after the constructor and one `add_block` call per entry, in order. */
  function Build(H: Digest, genesisTimestamp: string, entries: seq<Entry>): (chain: seq<Block>)
    ensures |chain| == |entries| + 1
    ensures chain[0] == CreateGenesisBlock(H, genesisTimestamp)
    decreases |entries|
  {
    if entries == [] then NewChain(H, genesisTimestamp)
    else
      var last := entries[|entries| - 1];
      var prefix := Build(H, genesisTimestamp, entries[..|entries| - 1]);
      AddBlock(H, prefix, last.timestamp, last.data).value
  }

  /** Block `k + 1` of a built chain holds index `k + 1` and the data and time of the `k`-th `add_block` call. */
  lemma {:induction false} BuildContents(H: Digest, genesisTimestamp: string, entries: seq<Entry>, k: nat)
    requires k < |entries|
    ensures var chain := Build(H, genesisTimestamp, entries);
      chain[k + 1].index == k + 1 && chain[k + 1].data == entries[k].data
      && chain[k + 1].timestamp == entries[k].timestamp
    decreases |entries|
  {
    var init := entries[..|entries| - 1];
    var prefix := Build(H, genesisTimestamp, init);
    var chain := Build(H, genesisTimestamp, entries);
    if k < |init| {
      BuildContents(H, genesisTimestamp, init, k);
      assert chain[..|prefix|] == prefix;
      assert chain[k + 1] == prefix[k + 1];
      assert init[k] == entries[k];
    }
  }

  /** `add_block` keeps a valid chain valid, whatever the new block's data and time. */
  lemma {:induction false} AddBlockPreservesValid(H: Digest, chain: seq<Block>, timestamp: string, data: string)
    requires |chain| > 0 && Valid(H, chain)
    ensures Valid(H, AddBlock(H, chain, timestamp, data).value)
  {
    var c' := AddBlock(H, chain, timestamp, data).value;
    forall i | 1 <= i < |c'|
      ensures LinkedAt(H, c', i)
    {
      if i < |chain| {
        assert c'[i] == chain[i] && c'[i - 1] == chain[i - 1];
        assert LinkedAt(H, chain, i);
      }
    }
  }

  /** Any chain built only by the constructor and `add_block` is valid, for any timestamps and data. */
  lemma {:induction false} BuildIsValid(H: Digest, genesisTimestamp: string, entries: seq<Entry>)
    ensures IsChainValid(H, Build(H, genesisTimestamp, entries))
    decreases |entries|
  {
    if entries != [] {
      var last := entries[|entries| - 1];
      var prefix := Build(H, genesisTimestamp, entries[..|entries| - 1]);
      BuildIsValid(H, genesisTimestamp, entries[..|entries| - 1]);
      AddBlockPreservesValid(H, prefix, last.timestamp, last.data);
    }
  }

  /**
   The genesis block's own fields are never checked: replacing it by any block
   with the same stored hash leaves the scan from `i` unchanged.
   */
  lemma {:induction false} CheckFromIgnoresGenesis(H: Digest, chain: seq<Block>, g: Block, i: nat)
    requires |chain| > 0 && g.hash == chain[0].hash && 1 <= i
    ensures CheckFrom(H, chain[0 := g], i) == CheckFrom(H, chain, i)
    decreases |chain| - i
  {
    var c' := chain[0 := g];
    if i < |chain| {
      assert c'[i] == chain[i];
      assert c'[i - 1].hash == chain[i - 1].hash;
      CheckFromIgnoresGenesis(H, chain, g, i + 1);
    }
  }

  /** `is_chain_valid` never rechecks the genesis block: only its stored hash matters. */
  lemma GenesisNeverRechecked(H: Digest, chain: seq<Block>, g: Block)
    requires |chain| > 0 && g.hash == chain[0].hash
    ensures Check(H, chain[0 := g]) == Check(H, chain)
  {
    CheckFromIgnoresGenesis(H, chain, g, 1);
  }

  /**
   The hashed text does not separate its fields, so different blocks can share
   it: index 1 with timestamp "23.5" and index 12 with timestamp "3.5" give the
   same text and hence the same recomputed hash under every digest function.
   */
  lemma HashInputAmbiguous(H: Digest, data: string, previousHash: string)
    ensures HashInput(1, "23.5", data, previousHash) == HashInput(12, "3.5", data, previousHash)
    ensures CalculateHash(H, Block(1, "23.5", data, previousHash, ""))
         == CalculateHash(H, Block(12, "3.5", data, previousHash, ""))
  {
  }

  /**
   Consequently a post-hoc change to a block's fields can go unnoticed: moving
   a digit from the timestamp into the index of block 1 of a valid chain keeps
   the chain valid.
   */
  lemma IndexTamperUndetected(H: Digest, genesisTimestamp: string, data: string)
    ensures var chain := Build(H, genesisTimestamp, [Entry("23.5", data)]);
      var tampered := chain[1 := chain[1].(index := 12, timestamp := "3.5")];
      && tampered != chain
      && IsChainValid(H, chain)
      && IsChainValid(H, tampered)
  {
    var chain := Build(H, genesisTimestamp, [Entry("23.5", data)]);
    BuildIsValid(H, genesisTimestamp, [Entry("23.5", data)]);
    var tampered := chain[1 := chain[1].(index := 12, timestamp := "3.5")];
    HashInputAmbiguous(H, data, chain[1].previousHash);
    assert tampered[1].hash == chain[1].hash;
    assert CalculateHash(H, tampered[1]) == CalculateHash(H, chain[1]);
    assert LinkedAt(H, tampered, 1) by { assert LinkedAt(H, chain, 1); }
  }

  /**
   Two transfers appended to a fresh chain: three blocks, valid, and the last
   block links to the hash of the first transfer.
   */
  lemma TwoTransfers(H: Digest, t0: string, t1: string, t2: string)
    ensures var chain := Build(H, t0, [Entry(t1, "Alice pays Bob 10 coins"), Entry(t2, "Bob pays Alice 3 coins")]);
      && |chain| == 3
      && IsChainValid(H, chain)
      && chain[2].previousHash == chain[1].hash
      && chain[1].data == "Alice pays Bob 10 coins"
  {
  }
}
