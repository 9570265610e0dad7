/// The chain store (blockchain.go, blockchain_iterator.go): the coinbase
/// transaction, the store opened at genesis or reopened, block appending with
/// the tip pointer under key "l", and the iterator that walks the chain back
/// through each header's previous hash.
module Chain {
  import opened Wire
  import opened VarInt
  import Transactions
  import Headers
  import ProofOfWork
  import Blocks

  type Transaction = Transactions.Transaction
  type Block = Blocks.Block

  /// The key under which the store keeps the tip's hash: "l".
  const LastKey: seq<Byte> := [0x6c]

  /// genesisCoinbaseData, as bytes:
  /// "The Times 03/Jan/2009 Chancellor on brink of second bailout for banks",
  /// written word group by word group.
  const GenesisCoinbaseData: seq<Byte> :=
      [0x54, 0x68, 0x65, 0x20, 0x54, 0x69, 0x6d, 0x65, 0x73, 0x20]
    + [0x30, 0x33, 0x2f, 0x4a, 0x61, 0x6e, 0x2f, 0x32, 0x30, 0x30, 0x39, 0x20]
    + [0x43, 0x68, 0x61, 0x6e, 0x63, 0x65, 0x6c, 0x6c, 0x6f, 0x72, 0x20]
    + [0x6f, 0x6e, 0x20, 0x62, 0x72, 0x69, 0x6e, 0x6b, 0x20, 0x6f, 0x66, 0x20]
    + [0x73, 0x65, 0x63, 0x6f, 0x6e, 0x64, 0x20, 0x62, 0x61, 0x69, 0x6c, 0x6f, 0x75, 0x74, 0x20]
    + [0x66, 0x6f, 0x72, 0x20, 0x62, 0x61, 0x6e, 0x6b, 0x73]

  /// "Reward to '", the start of the default coinbase data.
  const RewardTo: seq<Byte> := [0x52, 0x65, 0x77, 0x61, 0x72, 0x64, 0x20, 0x74, 0x6f, 0x20, 0x27]

  /// "coinbase_tx_id_placeholder", whose SHA-256 every coinbase takes as its id.
  const IdPlaceholder: seq<Byte> := [
    0x63, 0x6f, 0x69, 0x6e, 0x62, 0x61, 0x73, 0x65, 0x5f, 0x74, 0x78, 0x5f, 0x69,
    0x64, 0x5f, 0x70, 0x6c, 0x61, 0x63, 0x65, 0x68, 0x6f, 0x6c, 0x64, 0x65, 0x72]

  // ---------------------------------------------------------------------------
  // The coinbase transaction.

  /// The data a coinbase carries: the given data, or "Reward to '<to>'" when
  /// it is empty.
  function CoinbaseData(to: seq<Byte>, data: seq<Byte>): (d: seq<Byte>)
    ensures data != [] ==> d == data
    ensures data == [] ==> |d| == |RewardTo| + |to| + 1 && d[..|RewardTo|] == RewardTo && d[|RewardTo|..|d| - 1] == to && d[|d| - 1] == 0x27
  {
    if data == [] then RewardTo + to + [0x27] else data
  }

  /// NewCoinbaseTX: version 1, one input spending nothing (empty previous id,
  /// index -1, no signature) that carries the data, one output of 10 to `to`,
  /// lock time 0, fee 0, and the id of the fixed placeholder.
  function NewCoinbaseTX(sha: Hasher, to: seq<Byte>, data: seq<Byte>): Transaction {
    Transactions.Transaction(
      version := 1,
      id := sha(IdPlaceholder),
      vin := [Transactions.TxInput([], -1, [], CoinbaseData(to, data))],
      vout := [Transactions.TxOutput(10, to)],
      lockTime := 0,
      fee := 0)
  }

  /// Every coinbase has the same id, whatever its recipient and data.
  lemma CoinbaseIdIsFixed(sha: Hasher, to1: seq<Byte>, data1: seq<Byte>, to2: seq<Byte>, data2: seq<Byte>)
    ensures NewCoinbaseTX(sha, to1, data1).id == NewCoinbaseTX(sha, to2, data2).id
    ensures |NewCoinbaseTX(sha, to1, data1).id| == 32
  {
  }

  /// A coinbase spends nothing, carries its (never empty) data as the public
  /// key of its only input, unsigned, and pays 10 to its recipient; version 1,
  /// lock time 0, fee 0.
  lemma CoinbaseShape(sha: Hasher, to: seq<Byte>, data: seq<Byte>)
    ensures var tx := NewCoinbaseTX(sha, to, data);
      && tx.version == 1 && tx.lockTime == 0 && tx.fee == 0
      && |tx.vin| == 1 && |tx.vout| == 1
      && tx.vin[0].prevTxId == [] && tx.vin[0].prevOutIndex == -1 && tx.vin[0].signature == []
      && tx.vin[0].pubKey == CoinbaseData(to, data) && tx.vin[0].pubKey != []
      && tx.vout[0].value == 10 && tx.vout[0].pubKeyHash == to
  {
  }

  /// The serialised coinbase is at least as long as its data plus the other
  /// fixed fields.
  lemma CoinbaseBytesLength(sha: Hasher, to: seq<Byte>, data: seq<Byte>)
    ensures |Transactions.TxBytes(NewCoinbaseTX(sha, to, data))| >= 4 + 4 + |CoinbaseData(to, data)| + 8 + 4
  {
    var tx := NewCoinbaseTX(sha, to, data);
    assert Concat(Transactions.InputBytes, tx.vin) == Transactions.InputBytes(tx.vin[0]);
    assert Concat(Transactions.OutputBytes, tx.vout) == Transactions.OutputBytes(tx.vout[0]);
  }

  /// A coinbase input does not read back: its previous id is empty on the wire,
  /// so the decoder's 32-byte id starts with the ff ff ff ff of its index.
  lemma CoinbaseInputMisread(sha: Hasher, to: seq<Byte>, data: seq<Byte>)
    ensures var i := NewCoinbaseTX(sha, to, data).vin[0];
      var d := Transactions.ParseInput(Transactions.InputBytes(i), 0).0;
      d.prevTxId[..4] == [0xff, 0xff, 0xff, 0xff] && d != i
  {
    var i := NewCoinbaseTX(sha, to, data).vin[0];
    var bytes := Transactions.InputBytes(i);
    Transactions.CoinbaseIndexOnTheWire(i);
    assert Wire.ReadFull(bytes, 0, 32).0[..4] == bytes[..4];
  }

  /// A coinbase whose data is at least 30 bytes long (the genesis text, or the
  /// reward text for an address-length recipient) and shorter than 0xfd: the
  /// decoder's 32-byte id ends inside the data, and it takes the index from
  /// bytes 26..30 of the data, whatever follows the input in the stream.
  lemma CoinbaseIndexFromData(sha: Hasher, to: seq<Byte>, data: seq<Byte>, rest: seq<Byte>)
    requires 30 <= |CoinbaseData(to, data)| < 0xfd
    ensures var i := NewCoinbaseTX(sha, to, data).vin[0];
      Transactions.ParseInput(Transactions.InputBytes(i) + rest, 0).0.prevOutIndex
        == FromLE(CoinbaseData(to, data)[26..30])
  {
    var d := CoinbaseData(to, data);
    var i := NewCoinbaseTX(sha, to, data).vin[0];
    var bytes := Transactions.InputBytes(i) + rest;
    CoinbaseInputBytes(sha, to, data);
    assert Transactions.InputBytes(i) == [0xff, 0xff, 0xff, 0xff, 0, |d|] + d;
    assert bytes[32..36] == d[26..30];
    assert Wire.ReadFull(bytes, 0, 32).1 == 32;
    Pow256Of4();
    assert Wire.ReadLE(bytes, 32, 4).0 == FromLE(d[26..30]);
  }

  /// For the genesis coinbase the decoder takes the index from the data text:
  /// bytes 26..30 of it, "cell", read little-endian.
  lemma GenesisCoinbaseIndexMisread(sha: Hasher, address: seq<Byte>)
    ensures var i := NewCoinbaseTX(sha, address, GenesisCoinbaseData).vin[0];
      Transactions.ParseInput(Transactions.InputBytes(i), 0).0.prevOutIndex == 0x6c6c_6563
  {
    var i := NewCoinbaseTX(sha, address, GenesisCoinbaseData).vin[0];
    var bytes := Transactions.InputBytes(i);
    GenesisInputBytes(sha, address);
    assert bytes[32..36] == GenesisCoinbaseData[26..30] == [0x63, 0x65, 0x6c, 0x6c];
    Pow256Of4();
    assert Wire.ReadLE(bytes, 32, 4).0 == FromLE([0x63, 0x65, 0x6c, 0x6c]);
    assert FromLE([0x6c]) == 0x6c;
    assert FromLE([0x6c, 0x6c]) == 0x6c6c;
    assert FromLE([0x65, 0x6c, 0x6c]) == 0x6c_6c65;
  }

  /// A coinbase input on the wire: no id bytes, the index as ff ff ff ff, an
  /// empty signature, then the data behind its length.
  lemma CoinbaseInputBytes(sha: Hasher, to: seq<Byte>, data: seq<Byte>)
    ensures Transactions.InputBytes(NewCoinbaseTX(sha, to, data).vin[0])
      == [0xff, 0xff, 0xff, 0xff, 0] + VarBytes(CoinbaseData(to, data))
  {
    var i := NewCoinbaseTX(sha, to, data).vin[0];
    assert ToUint32(i.prevOutIndex) == 0xffff_ffff;
    Transactions.AllOnes();
    assert VarBytes(i.signature) == [0];
  }

  /// A coinbase input whose data is shorter than 0xfd bytes: its length takes a
  /// single byte.
  lemma ShortCoinbaseInputBytes(sha: Hasher, to: seq<Byte>, data: seq<Byte>)
    requires data != [] && |data| < 0xfd
    ensures Transactions.InputBytes(NewCoinbaseTX(sha, to, data).vin[0])
      == [0xff, 0xff, 0xff, 0xff, 0, |data|] + data
  {
    CoinbaseInputBytes(sha, to, data);
  }

  /// The genesis coinbase input: the 69 data bytes behind their one-byte length.
  lemma GenesisInputBytes(sha: Hasher, address: seq<Byte>)
    ensures Transactions.InputBytes(NewCoinbaseTX(sha, address, GenesisCoinbaseData).vin[0])
      == [0xff, 0xff, 0xff, 0xff, 0, 69] + GenesisCoinbaseData
  {
    assert |GenesisCoinbaseData| == 69;
    ShortCoinbaseInputBytes(sha, address, GenesisCoinbaseData);
  }

  // ---------------------------------------------------------------------------
  // The store.

  /// The Badger database of one node: whether its directory already holds a
  /// database (the MANIFEST probe), and its key-value contents.
  class Database {
    var present: bool
    var kv: map<seq<Byte>, seq<Byte>>

    constructor(present: bool, kv: map<seq<Byte>, seq<Byte>>)
      ensures this.present == present && this.kv == kv
    {
      this.present := present;
      this.kv := kv;
    }
  }

  /// The genesis block InitBlockchain mines: the coinbase paying `address`
  /// with the genesis data, alone on an all-zero previous hash, at the chain's
  /// difficulty.
  function Genesis(sha: Hasher, address: seq<Byte>, now: int): Result<Block> {
    Blocks.Assemble(sha, [NewCoinbaseTX(sha, address, GenesisCoinbaseData)], Zeros(32), 0, ProofOfWork.DefaultBits, now)
  }

  /// The store holding only `b`, under its header hash, and the tip pointer to
  /// it.
  function GenesisStore(sha: Hasher, b: Block): map<seq<Byte>, seq<Byte>> {
    map[Headers.Hash(sha, b.header) := Blocks.BlockBytes(b), LastKey := Headers.Hash(sha, b.header)]
  }

  /// The block stored under `hash`, as the decoder reads it back.
  function Fetch(kv: map<seq<Byte>, seq<Byte>>, hash: seq<Byte>): (r: Result<Block>)
    ensures hash !in kv ==> r == Failure(MissingKey)
    ensures hash in kv ==> r == Blocks.ParseBlock(kv[hash])
  {
    if hash !in kv then Failure(MissingKey) else Blocks.ParseBlock(kv[hash])
  }

  /// The block AddBlock mines on top of the decoded tip `last`: linked to the
  /// hash of its header, one above its height, at the chain's difficulty.
  function MineOn(sha: Hasher, last: Block, txs: seq<Transaction>, now: int): Result<Block> {
    Blocks.Assemble(sha, txs, Headers.Hash(sha, last.header), last.height + 1, ProofOfWork.DefaultBits, now)
  }

  /// The block AddBlock mines on top of the tip `lastHash`, read from the
  /// store.
  function NextBlock(sha: Hasher, kv: map<seq<Byte>, seq<Byte>>, lastHash: seq<Byte>, txs: seq<Transaction>, now: int): Result<Block> {
    match Fetch(kv, lastHash)
    case Failure(e) => Failure(e)
    case Success(last) => MineOn(sha, last, txs, now)
  }

  /// NextBlock step by step: the lookup, the decoding, then the mining.
  lemma NextBlockSteps(sha: Hasher, kv: map<seq<Byte>, seq<Byte>>, lastHash: seq<Byte>, txs: seq<Transaction>, now: int)
    requires lastHash in kv
    ensures Blocks.ParseBlock(kv[lastHash]).Failure? ==>
      NextBlock(sha, kv, lastHash, txs, now) == Failure(Blocks.ParseBlock(kv[lastHash]).error)
    ensures Blocks.ParseBlock(kv[lastHash]).Success? ==>
      NextBlock(sha, kv, lastHash, txs, now) == MineOn(sha, Blocks.ParseBlock(kv[lastHash]).value, txs, now)
  {
  }

  /// The store after `b` is written: `b` under its header hash, and the tip
  /// pointer moved to it; every other key is as it was.
  function Append(sha: Hasher, kv: map<seq<Byte>, seq<Byte>>, b: Block): map<seq<Byte>, seq<Byte>> {
    kv[Headers.Hash(sha, b.header) := Blocks.BlockBytes(b)][LastKey := Headers.Hash(sha, b.header)]
  }

  /// The store's hash linkage: every key other than "l" is the header hash of
  /// the block stored under it, and "l", when present, names a stored block.
  predicate Linked(sha: Hasher, kv: map<seq<Byte>, seq<Byte>>) {
    (forall k | k in kv && k != LastKey :: StoredUnder(sha, kv[k], k))
    && (LastKey in kv ==> kv[LastKey] in kv && kv[LastKey] != LastKey)
  }

  /// `data` decodes to a block whose header hashes to `key`.
  predicate StoredUnder(sha: Hasher, data: seq<Byte>, key: seq<Byte>) {
    Blocks.ParseBlock(data).Success? && Headers.Hash(sha, Blocks.ParseBlock(data).value.header) == key
  }

  /// Blockchain: the tip's hash and the store it lives in.
  class Blockchain {
    var lastHash: seq<Byte>
    const database: Database

    constructor(lastHash: seq<Byte>, database: Database)
      ensures this.lastHash == lastHash && this.database == database
    {
      this.lastHash := lastHash;
      this.database := database;
    }

    /// AddBlock: mines the next block on the tip read from the store, writes
    /// it under its header hash, and moves "l" and the tip to it. A tip missing
    /// from the store, or whose stored bytes do not decode, panics before
    /// anything is written; so does a failed mining.
    method AddBlock(sha: Hasher, txs: seq<Transaction>, now: int) returns (r: Result<Block>)
      modifies this, database
      ensures r == NextBlock(sha, old(database.kv), old(lastHash), txs, now)
      ensures r.Failure? ==> lastHash == old(lastHash) && database.kv == old(database.kv)
      ensures r.Success? ==>
        lastHash == Headers.Hash(sha, r.value.header) && database.kv == Append(sha, old(database.kv), r.value)
      ensures database.present == old(database.present)
    {
      r := MineNext(sha, database.kv, lastHash, txs, now);
      if r.Success? {
        lastHash := Put(sha, database, r.value);
      }
    }

    /// Iterator: starts at the tip, over the same store.
    method Iterator() returns (it: BlockchainIterator)
      ensures fresh(it) && it.currentHash == lastHash && it.database == database
    {
      it := new BlockchainIterator(lastHash, database);
    }
  }

  /// The read-only part of AddBlock: the tip's bytes looked up and decoded,
  /// then the next block mined on the decoded tip.
  method MineNext(sha: Hasher, kv: map<seq<Byte>, seq<Byte>>, lastHash: seq<Byte>, txs: seq<Transaction>, now: int)
    returns (r: Result<Block>)
    ensures r == NextBlock(sha, kv, lastHash, txs, now)
  {
    if lastHash !in kv {
      return Failure(MissingKey);
    }
    var blockData := kv[lastHash];
    var lastBlock := Blocks.DeserializeBlock(blockData);
    NextBlockSteps(sha, kv, lastHash, txs, now);
    if lastBlock.Failure? {
      return Failure(lastBlock.error);
    }
    var last := lastBlock.value;
    r := Blocks.NewBlock(sha, txs, Headers.Hash(sha, last.header), last.height + 1, ProofOfWork.DefaultBits, now);
    MineOnAssembles(sha, last, txs, now);
  }

  /// MineOn in terms of Assemble, as a fact of its own: MineNext needs it after
  /// NewBlock, and proved there, next to the decoder's definitions, the same
  /// equation runs out of resource.
  lemma MineOnAssembles(sha: Hasher, last: Block, txs: seq<Transaction>, now: int)
    ensures MineOn(sha, last, txs, now)
      == Blocks.Assemble(sha, txs, Headers.Hash(sha, last.header), last.height + 1, ProofOfWork.DefaultBits, now)
  {
  }

  /// The update transaction of InitBlockchain and AddBlock: the block's bytes
  /// under its header hash, then that hash under "l".
  method Put(sha: Hasher, db: Database, b: Block) returns (hash: seq<Byte>)
    modifies db
    ensures hash == Headers.Hash(sha, b.header)
    ensures db.kv == Append(sha, old(db.kv), b) && db.present == old(db.present)
  {
    hash := Headers.Hash(sha, b.header);
    var serialised := Blocks.Serialize(b);
    db.kv := db.kv[hash := serialised];
    db.kv := db.kv[LastKey := hash];
  }

  /// BlockchainIterator: the hash of the next block to read, and the store.
  class BlockchainIterator {
    var currentHash: seq<Byte>
    const database: Database

    constructor(currentHash: seq<Byte>, database: Database)
      ensures this.currentHash == currentHash && this.database == database
    {
      this.currentHash := currentHash;
      this.database := database;
    }

    /// Next: decodes the block stored under the current hash and steps to its
    /// previous hash; the store is only read. A missing key panics.
    method Next() returns (r: Result<Block>)
      modifies this
      ensures r == Fetch(database.kv, old(currentHash))
      ensures r.Success? ==> currentHash == r.value.header.prevBlockHash
      ensures r.Failure? ==> currentHash == old(currentHash)
    {
      if currentHash !in database.kv {
        return Failure(MissingKey);
      }
      var encodedBlock := database.kv[currentHash];
      r := Blocks.DeserializeBlock(encodedBlock);
      if r.Success? {
        currentHash := r.value.header.prevBlockHash;
      }
    }
  }

  /// InitBlockchain: an existing store is refused and left alone. Otherwise
  /// the store is created empty, the genesis block is mined and written with
  /// the tip pointer in one update, and the chain starts at it; a failure
  /// while mining leaves the new store empty.
  method InitBlockchain(sha: Hasher, db: Database, address: seq<Byte>, now: int) returns (r: Result<Blockchain>)
    modifies db
    ensures old(db.present) ==> r == Failure(AlreadyExists) && db.present && db.kv == old(db.kv)
    ensures !old(db.present) ==> db.present
    ensures !old(db.present) && Genesis(sha, address, now).Failure? ==>
      r == Failure(Genesis(sha, address, now).error) && db.kv == map[]
    ensures !old(db.present) && Genesis(sha, address, now).Success? ==>
      r.Success? && fresh(r.value) && r.value.database == db
      && r.value.lastHash == Headers.Hash(sha, Genesis(sha, address, now).value.header)
      && db.kv == GenesisStore(sha, Genesis(sha, address, now).value)
  {
    if db.present {
      return Failure(AlreadyExists);
    }
    var genesisBlock := MineGenesis(sha, address, now);
    db.present := true;
    db.kv := map[];
    if genesisBlock.Failure? {
      return Failure(genesisBlock.error);
    }
    var hash := Put(sha, db, genesisBlock.value);
    GenesisStoreIsAppend(sha, genesisBlock.value);
    var chain := new Blockchain(hash, db);
    r := Success(chain);
  }

  /// The genesis block as InitBlockchain builds it: the coinbase for
  /// `address` with the genesis data, mined alone.
  method MineGenesis(sha: Hasher, address: seq<Byte>, now: int) returns (r: Result<Block>)
    ensures r == Genesis(sha, address, now)
  {
    var cbtx := NewCoinbaseTX(sha, address, GenesisCoinbaseData);
    r := Blocks.NewGenesisBlock(sha, cbtx, ProofOfWork.DefaultBits, now);
  }

  /// ContinueBlockchain: a missing store is refused; otherwise the chain
  /// starts at the hash stored under "l", whose absence panics.
  method ContinueBlockchain(db: Database) returns (r: Result<Blockchain>)
    ensures !db.present ==> r == Failure(NotFound)
    ensures db.present && LastKey !in db.kv ==> r == Failure(MissingKey)
    ensures db.present && LastKey in db.kv ==>
      r.Success? && fresh(r.value) && r.value.database == db && r.value.lastHash == db.kv[LastKey]
  {
    if !db.present {
      return Failure(NotFound);
    }
    if LastKey !in db.kv {
      return Failure(MissingKey);
    }
    var chain := new Blockchain(db.kv[LastKey], db);
    r := Success(chain);
  }

  // ---------------------------------------------------------------------------
  // Properties.

  /// As written, InitBlockchain can never succeed: the genesis coinbase
  /// serialises to far more than 32 bytes, and with one transaction that
  /// serialisation is the Merkle root itself, so the genesis header is not 80
  /// bytes and Run panics.
  lemma GenesisAlwaysFails(sha: Hasher, address: seq<Byte>, now: int)
    ensures Genesis(sha, address, now) == Failure(HeaderNot80Bytes)
  {
    var coinbase := NewCoinbaseTX(sha, address, GenesisCoinbaseData);
    GenesisCoinbaseIsLong(sha, address);
    Blocks.GenesisNeeds32ByteCoinbase(sha, coinbase, ProofOfWork.DefaultBits, now);
  }

  /// The genesis coinbase carries 69 bytes of data, so it serialises to more
  /// than 32 bytes.
  lemma GenesisCoinbaseIsLong(sha: Hasher, address: seq<Byte>)
    ensures |Transactions.TxBytes(NewCoinbaseTX(sha, address, GenesisCoinbaseData))| > 32
  {
    CoinbaseBytesLength(sha, address, GenesisCoinbaseData);
    assert |CoinbaseData(address, GenesisCoinbaseData)| == 69;
  }

  /// What AddBlock mines, spelled out: a tip missing from the store fails with
  /// MissingKey; otherwise the new block carries the given transactions, links
  /// to the hash of the tip's header, sits at height 1 (the decoder always
  /// reports height 0), passes Validate and meets the chain's target.
  lemma NextBlockSpec(sha: Hasher, kv: map<seq<Byte>, seq<Byte>>, lastHash: seq<Byte>, txs: seq<Transaction>, now: int)
    ensures lastHash !in kv ==> NextBlock(sha, kv, lastHash, txs, now) == Failure(MissingKey)
    ensures NextBlock(sha, kv, lastHash, txs, now).Success? ==>
      var b := NextBlock(sha, kv, lastHash, txs, now).value;
      lastHash in kv && Blocks.ParseBlock(kv[lastHash]).Success?
      && b.header.prevBlockHash == Headers.Hash(sha, Blocks.ParseBlock(kv[lastHash]).value.header)
      && b.height == 1 && b.transactions == txs
      && Headers.Validate(b.header) == Pass
      && ProofOfWork.Validate(sha, ProofOfWork.Pow(b.header, ProofOfWork.BitsToTarget(ProofOfWork.DefaultBits).value))
  {
    if lastHash in kv {
      NextBlockSteps(sha, kv, lastHash, txs, now);
      if Blocks.ParseBlock(kv[lastHash]).Success? {
        MineOnSpec(sha, Blocks.ParseBlock(kv[lastHash]).value, txs, now);
      }
    }
  }

  /// A block mined on top of `last` links to the hash of its header, sits one
  /// above it, carries the given transactions, passes Validate and meets the
  /// chain's target.
  lemma MineOnSpec(sha: Hasher, last: Block, txs: seq<Transaction>, now: int)
    ensures MineOn(sha, last, txs, now).Success? ==>
      var b := MineOn(sha, last, txs, now).value;
      b.header.prevBlockHash == Headers.Hash(sha, last.header)
      && b.height == last.height + 1 && b.transactions == txs
      && Headers.Validate(b.header) == Pass
      && ProofOfWork.Validate(sha, ProofOfWork.Pow(b.header, ProofOfWork.BitsToTarget(ProofOfWork.DefaultBits).value))
  {
    Blocks.AssembleSpec(sha, txs, Headers.Hash(sha, last.header), last.height + 1, ProofOfWork.DefaultBits, now);
  }

  /// A block written under its header hash decodes back to that header.
  lemma StoredHeaderHashes(sha: Hasher, b: Block)
    requires Headers.Validate(b.header) == Pass
    ensures Blocks.ParseBlock(Blocks.BlockBytes(b)).Success?
    ensures Blocks.ParseBlock(Blocks.BlockBytes(b)).value.header == b.header
  {
    var rest := EncodeVarInt(|b.transactions|) + Concat(Transactions.TxBytes, b.transactions);
    assert Blocks.BlockBytes(b) == Headers.HeaderBytes(b.header) + rest;
    Headers.HeaderRoundTrip(b.header, rest);
  }

  /// A header hash is 32 bytes, so it never collides with the tip key "l".
  lemma HashIsNotLastKey(sha: Hasher, h: Headers.BlockHeader)
    ensures Headers.Hash(sha, h) != LastKey
  {
    assert |Headers.Hash(sha, h)| != |LastKey|;
  }

  /// Append stores the block's bytes under its header hash.
  lemma AppendStoresBlock(sha: Hasher, kv: map<seq<Byte>, seq<Byte>>, b: Block)
    ensures Headers.Hash(sha, b.header) in Append(sha, kv, b)
    ensures Append(sha, kv, b)[Headers.Hash(sha, b.header)] == Blocks.BlockBytes(b)
  {
    HashIsNotLastKey(sha, b.header);
  }

  /// Append leaves every other block key as it was.
  lemma AppendKeepsOthers(sha: Hasher, kv: map<seq<Byte>, seq<Byte>>, b: Block, k: seq<Byte>)
    requires k in kv && k != LastKey && k != Headers.Hash(sha, b.header)
    ensures k in Append(sha, kv, b) && Append(sha, kv, b)[k] == kv[k]
  {
  }

  /// Every key of the appended store other than "l" holds a block stored
  /// under its own header hash.
  lemma AppendedKeyLinked(sha: Hasher, kv: map<seq<Byte>, seq<Byte>>, b: Block, k: seq<Byte>)
    requires Linked(sha, kv) && Headers.Validate(b.header) == Pass
    requires k in Append(sha, kv, b) && k != LastKey
    ensures StoredUnder(sha, Append(sha, kv, b)[k], k)
  {
    if k == Headers.Hash(sha, b.header) {
      AppendStoresBlock(sha, kv, b);
      StoredHeaderHashes(sha, b);
    } else {
      AppendKeepsOthers(sha, kv, b, k);
    }
  }

  /// Appending a block with a valid header keeps the store linked.
  lemma AppendKeepsLinked(sha: Hasher, kv: map<seq<Byte>, seq<Byte>>, b: Block)
    requires Linked(sha, kv) && Headers.Validate(b.header) == Pass
    ensures Linked(sha, Append(sha, kv, b))
  {
    forall k | k in Append(sha, kv, b) && k != LastKey
      ensures StoredUnder(sha, Append(sha, kv, b)[k], k)
    {
      AppendedKeyLinked(sha, kv, b, k);
    }
    AppendStoresBlock(sha, kv, b);
  }

  /// AddBlock keeps the store linked.
  lemma AddBlockKeepsLinked(sha: Hasher, kv: map<seq<Byte>, seq<Byte>>, lastHash: seq<Byte>, txs: seq<Transaction>, now: int)
    requires Linked(sha, kv) && NextBlock(sha, kv, lastHash, txs, now).Success?
    ensures Linked(sha, Append(sha, kv, NextBlock(sha, kv, lastHash, txs, now).value))
  {
    NextBlockSpec(sha, kv, lastHash, txs, now);
    AppendKeepsLinked(sha, kv, NextBlock(sha, kv, lastHash, txs, now).value);
  }

  /// The store InitBlockchain would write is linked.
  lemma GenesisStoreLinked(sha: Hasher, b: Block)
    requires Headers.Validate(b.header) == Pass
    ensures Linked(sha, GenesisStore(sha, b))
  {
    AppendKeepsLinked(sha, map[], b);
    GenesisStoreIsAppend(sha, b);
  }

  /// Writing the genesis block into an empty store gives the genesis store.
  lemma GenesisStoreIsAppend(sha: Hasher, b: Block)
    ensures GenesisStore(sha, b) == Append(sha, map[], b)
  {
    HashIsNotLastKey(sha, b.header);
  }

  /// Fetching the appended block's hash reads the block back (its
  /// transactions without id and fee, at height 0).
  lemma FetchAppended(sha: Hasher, kv: map<seq<Byte>, seq<Byte>>, b: Block)
    requires Headers.Validate(b.header) == Pass
    requires |b.transactions| < 0x8000_0000_0000_0000 && All(Transactions.WellFormedTx, b.transactions)
    ensures Fetch(Append(sha, kv, b), Headers.Hash(sha, b.header))
      == Success(Blocks.Block(b.header, Blocks.BareAll(b.transactions), 0))
  {
    AppendStoresBlock(sha, kv, b);
    Blocks.BlockRoundTrip(b);
  }

  /// After AddBlock, the iterator's first step reads back the new block (its
  /// transactions without id and fee, at height 0) and moves to the old tip's
  /// header hash.
  lemma NextAfterAddBlock(sha: Hasher, kv: map<seq<Byte>, seq<Byte>>, lastHash: seq<Byte>, txs: seq<Transaction>, now: int)
    requires NextBlock(sha, kv, lastHash, txs, now).Success?
    requires |txs| < 0x8000_0000_0000_0000 && All(Transactions.WellFormedTx, txs)
    ensures var b := NextBlock(sha, kv, lastHash, txs, now).value;
      var tip := Headers.Hash(sha, b.header);
      Fetch(Append(sha, kv, b), tip) == Success(Blocks.Block(b.header, Blocks.BareAll(txs), 0))
      && b.header.prevBlockHash == Headers.Hash(sha, Fetch(kv, lastHash).value.header)
  {
    NextBlockSpec(sha, kv, lastHash, txs, now);
    FetchAppended(sha, kv, NextBlock(sha, kv, lastHash, txs, now).value);
  }

  /// The header half of FetchAppended, for any transactions: the block just
  /// stored decodes under its hash with its own header, at height 0.
  lemma FetchAppendedHeader(sha: Hasher, kv: map<seq<Byte>, seq<Byte>>, b: Block)
    requires Headers.Validate(b.header) == Pass
    ensures var r := Fetch(Append(sha, kv, b), Headers.Hash(sha, b.header));
      r.Success? && r.value.header == b.header && r.value.height == 0
  {
    AppendStoresBlock(sha, kv, b);
    StoredHeaderHashes(sha, b);
  }

  /// After AddBlock, whatever its transactions, the iterator's first step
  /// returns the new block's header and moves the cursor to the hash of the old
  /// tip's header; in a linked store that is the old tip itself.
  lemma IteratorAfterAddBlock(sha: Hasher, kv: map<seq<Byte>, seq<Byte>>, lastHash: seq<Byte>, txs: seq<Transaction>, now: int)
    requires NextBlock(sha, kv, lastHash, txs, now).Success?
    ensures var b := NextBlock(sha, kv, lastHash, txs, now).value;
      var r := Fetch(Append(sha, kv, b), Headers.Hash(sha, b.header));
      && r.Success? && r.value.header == b.header
      && r.value.header.prevBlockHash == Headers.Hash(sha, Fetch(kv, lastHash).value.header)
      && (Linked(sha, kv) && lastHash != LastKey ==> r.value.header.prevBlockHash == lastHash)
  {
    NextBlockSpec(sha, kv, lastHash, txs, now);
    FetchAppendedHeader(sha, kv, NextBlock(sha, kv, lastHash, txs, now).value);
    if Linked(sha, kv) && lastHash != LastKey {
      assert StoredUnder(sha, kv[lastHash], lastHash);
    }
  }
}
