/// Blocks (block.go, and DeserializeBlock in transaction.go): the block
/// encoding, the Merkle root over the transactions, block assembly with
/// mining, and the block decoder.
module Blocks {
  import opened Wire
  import opened VarInt
  import Merkle
  import Transactions
  import Headers
  import ProofOfWork

  type Transaction = Transactions.Transaction
  type BlockHeader = Headers.BlockHeader

  /// Block. `height` is carried in memory but never written to the wire.
  datatype Block = Block(header: BlockHeader, transactions: seq<Transaction>, height: int)

  /// Block.Serialize: the header, the transaction count, then every
  /// transaction's serialisation in order.
  function BlockBytes(b: Block): seq<Byte> {
    Headers.HeaderBytes(b.header) + EncodeVarInt(|b.transactions|) + Concat(Transactions.TxBytes, b.transactions)
  }

  method Serialize(b: Block) returns (buf: seq<Byte>)
    ensures buf == BlockBytes(b)
  {
    var prefix := Headers.Serialize(b.header);
    prefix := prefix + EncodeVarInt(|b.transactions|);
    buf := prefix;
    var i := 0;
    while i < |b.transactions|
      invariant 0 <= i <= |b.transactions|
      invariant buf == prefix + Concat(Transactions.TxBytes, b.transactions[..i])
    {
      var txBytes := Transactions.Serialize(b.transactions[i]);
      ConcatSnoc(prefix, Transactions.TxBytes, b.transactions, i);
      buf := buf + txBytes;
      i := i + 1;
    }
    assert b.transactions[..i] == b.transactions;
  }

  /// The Merkle leaves of a block: the full serialisation of every transaction,
  /// in block order (not the transaction ids).
  function Leaves(txs: seq<Transaction>): (leaves: seq<seq<Byte>>)
    ensures |leaves| == |txs|
    ensures forall i :: 0 <= i < |txs| ==> leaves[i] == Transactions.TxBytes(txs[i])
  {
    seq(|txs|, i requires 0 <= i < |txs| => Transactions.TxBytes(txs[i]))
  }

  /// Block.BuildMerkleRoot: collects the serialisations, then reduces them.
  method BuildMerkleRoot(sha: Hasher, b: Block) returns (root: seq<Byte>)
    ensures root == Merkle.MerkleRoot(sha, Leaves(b.transactions))
  {
    var txIds: seq<seq<Byte>> := [];
    var i := 0;
    while i < |b.transactions|
      invariant 0 <= i <= |b.transactions|
      invariant txIds == Leaves(b.transactions)[..i]
    {
      var txBytes := Transactions.Serialize(b.transactions[i]);
      Merkle.TakeOneMore(Leaves(b.transactions), i, txBytes);
      txIds := txIds + [txBytes];
      i := i + 1;
    }
    assert txIds == Leaves(b.transactions);
    root := Merkle.BuildMerkleRoot(sha, txIds);
  }

  // ---------------------------------------------------------------------------
  // Assembly.

  /// The header NewBlock starts mining from: version 1, the given previous
  /// hash and bits, the Merkle root of the transactions, the clock truncated to
  /// uint32, and nonce 0.
  function Template(sha: Hasher, txs: seq<Transaction>, prevHash: seq<Byte>, bits: Uint32, now: int): BlockHeader {
    Headers.BlockHeader(1, prevHash, Merkle.MerkleRoot(sha, Leaves(txs)), ToUint32(now), 0, bits)
  }

  /// What NewBlock returns: the template with the nonce Run found, or the panic
  /// of BitsToTarget or of Run.
  function Assemble(sha: Hasher, txs: seq<Transaction>, prevHash: seq<Byte>, height: int, bits: Uint32, now: int): Result<Block> {
    var template := Template(sha, txs, prevHash, bits, now);
    match ProofOfWork.NewProofOfWork(template)
    case Failure(e) => Failure(e)
    case Success(pow) =>
      match ProofOfWork.Mine(sha, pow)
      case Failure(e) => Failure(e)
      case Success(found) => Success(Block(template.(nonce := found.0), txs, height))
  }

  /// NewBlock: builds the block with an empty root, fills in the root, mines
  /// the header, and stores the nonce. `now` stands for time.Now().Unix().
  method NewBlock(sha: Hasher, txs: seq<Transaction>, prevHash: seq<Byte>, height: int, bits: Uint32, now: int)
    returns (r: Result<Block>)
    ensures r == Assemble(sha, txs, prevHash, height, bits, now)
  {
    var block := Block(Headers.BlockHeader(1, prevHash, [], ToUint32(now), 0, bits), txs, height);
    var root := BuildMerkleRoot(sha, block);
    block := block.(header := block.header.(merkleRoot := root));
    var pow := ProofOfWork.NewProofOfWork(block.header);
    if pow.Failure? {
      return Failure(pow.error);
    }
    var mined := ProofOfWork.Run(sha, pow.value);
    if mined.Failure? {
      return Failure(mined.error);
    }
    block := block.(header := block.header.(nonce := mined.value.0));
    r := Success(block);
  }

  /// A block NewBlock returns carries the given transactions, height, previous
  /// hash and bits, version 1, the Merkle root of the transactions and the
  /// clock; its header meets the target of its bits and no smaller nonce does.
  /// With a 32-byte previous hash the header also passes Validate. Invalid
  /// bits and a header that is not 80 bytes are the panics it reports.
  lemma AssembleSpec(sha: Hasher, txs: seq<Transaction>, prevHash: seq<Byte>, height: int, bits: Uint32, now: int)
    ensures ProofOfWork.BitsToTarget(bits).Failure? ==>
      Assemble(sha, txs, prevHash, height, bits, now) == Failure(InvalidBits)
    ensures ProofOfWork.BitsToTarget(bits).Success? && |Headers.HeaderBytes(Template(sha, txs, prevHash, bits, now))| != 80 ==>
      Assemble(sha, txs, prevHash, height, bits, now) == Failure(HeaderNot80Bytes)
    ensures Assemble(sha, txs, prevHash, height, bits, now).Success? ==>
      var b := Assemble(sha, txs, prevHash, height, bits, now).value;
      var pow := ProofOfWork.Pow(b.header, ProofOfWork.BitsToTarget(bits).value);
      b.transactions == txs && b.height == height
      && b.header == Template(sha, txs, prevHash, bits, now).(nonce := b.header.nonce)
      && ProofOfWork.Validate(sha, pow)
      && (forall m: Uint32 :: m < b.header.nonce ==> !ProofOfWork.Solves(sha, pow, m))
      && (|prevHash| == 32 ==> Headers.Validate(b.header) == Pass)
  {
    var template := Template(sha, txs, prevHash, bits, now);
    if ProofOfWork.BitsToTarget(bits).Success? {
      var pow := ProofOfWork.NewProofOfWork(template).value;
      ProofOfWork.MineSpec(sha, pow);
      if ProofOfWork.Mine(sha, pow).Success? {
        var n := ProofOfWork.Mine(sha, pow).value.0;
        assert pow.(header := pow.header.(nonce := n)) == ProofOfWork.Pow(template.(nonce := n), pow.target);
        forall m: Uint32 | m < n
          ensures !ProofOfWork.Solves(sha, ProofOfWork.Pow(template.(nonce := n), pow.target), m)
        {
          assert template.(nonce := n).(nonce := m) == template.(nonce := m);
          assert !ProofOfWork.Solves(sha, pow, m);
        }
      }
    }
  }

  /// NewGenesisBlock: the coinbase alone, on an all-zero previous hash, at
  /// height 0.
  method NewGenesisBlock(sha: Hasher, coinbase: Transaction, bits: Uint32, now: int) returns (r: Result<Block>)
    ensures r == Assemble(sha, [coinbase], Zeros(32), 0, bits, now)
  {
    r := NewBlock(sha, [coinbase], Zeros(32), 0, bits, now);
  }

  /// With one transaction the Merkle root is its raw serialisation, so the
  /// genesis header is 80 bytes only when the coinbase serialises to exactly 32
  /// bytes; any other coinbase makes Run panic.
  lemma GenesisNeeds32ByteCoinbase(sha: Hasher, coinbase: Transaction, bits: Uint32, now: int)
    requires ProofOfWork.BitsToTarget(bits).Success?
    requires |Transactions.TxBytes(coinbase)| != 32
    ensures Assemble(sha, [coinbase], Zeros(32), 0, bits, now) == Failure(HeaderNot80Bytes)
  {
    assert Leaves([coinbase]) == [Transactions.TxBytes(coinbase)];
    Merkle.SingleLeafUnhashed(sha, Transactions.TxBytes(coinbase));
    AssembleSpec(sha, [coinbase], Zeros(32), 0, bits, now);
  }

  // ---------------------------------------------------------------------------
  // Decoding.

  lemma TxReader()
    ensures Reader(Transactions.ParseTransaction)
  {
  }

  /// DeserializeBlock: the header from the reader, the count, then one
  /// transaction per iteration from the same reader. The header's error is
  /// discarded and the nil header then dereferenced, so a short header panics;
  /// the height is always 0.
  function ParseBlock(data: seq<Byte>): (r: Result<Block>)
    ensures r.Success? <==> |data| >= 80
    ensures r.Success? ==> r.value.height == 0 && Success(r.value.header) == Headers.ParseHeader(data)
  {
    Headers.ReadHeaderAgrees(data, 0);
    assert data[0..] == data;
    match Headers.ReadHeader(data, 0)
    case Failure(e) => Failure(e)
    case Success(header) =>
      TxReader();
      var txCount := ReadVarInt(data, header.1);
      var txs := Repeat(Transactions.ParseTransaction, data, txCount.1, Transactions.LoopCount(txCount.0));
      Success(Block(header.0, txs.0, 0))
  }

  method DeserializeBlock(data: seq<Byte>) returns (r: Result<Block>)
    ensures r == ParseBlock(data)
  {
    TxReader();
    var header := Headers.ReadHeader(data, 0);
    if header.Failure? {
      return Failure(header.error);
    }
    var txCount := ReadVarInt(data, header.value.1);
    var transactions: seq<Transaction> := [];
    var next := txCount.1;
    var i := 0;
    while i < Signed64(txCount.0)
      invariant 0 <= i <= Transactions.LoopCount(txCount.0)
      invariant (transactions, next) == Repeat(Transactions.ParseTransaction, data, txCount.1, i)
    {
      var tx, p := Transactions.DeserializeTransactionFromReader(data, next);
      RepeatSnoc(Transactions.ParseTransaction, data, txCount.1, i, transactions, next, tx, p);
      transactions := transactions + [tx];
      next := p;
      i := i + 1;
    }
    assert i == Transactions.LoopCount(txCount.0);
    r := Success(Block(header.value.0, transactions, 0));
  }

  // ---------------------------------------------------------------------------
  // Round trip. The wire does not carry a transaction's `id` and `fee`, nor the
  // block's height: they come back as [], 0 and 0.

  /// A transaction as the decoder returns it.
  function Bare(tx: Transaction): Transaction {
    tx.(id := [], fee := 0)
  }

  function BareAll(txs: seq<Transaction>): (r: seq<Transaction>)
    ensures |r| == |txs| && forall i :: 0 <= i < |txs| ==> r[i] == Bare(txs[i])
  {
    seq(|txs|, i requires 0 <= i < |txs| => Bare(txs[i]))
  }

  /// A transaction the decoder reads back unchanged.
  predicate Decodable(tx: Transaction) {
    Transactions.WellFormedTx(tx) && tx.id == [] && tx.fee == 0
  }

  lemma TxDecodes()
    ensures Reader(Transactions.ParseTransaction) && Decodes(Transactions.ParseTransaction, Transactions.TxBytes, Decodable)
  {
    forall x, d: seq<Byte>, p: nat | Decodable(x) && At(d, p, Transactions.TxBytes(x))
      ensures Transactions.ParseTransaction(d, p).0 == x
      ensures Transactions.ParseTransaction(d, p).1 == p + |Transactions.TxBytes(x)|
    {
      Transactions.ParseTransactionRoundTrip(x, d, p);
    }
  }

  /// Dropping `id` and `fee` changes neither the bytes nor well-formedness.
  lemma {:induction false} BareAllOnTheWire(txs: seq<Transaction>)
    requires All(Transactions.WellFormedTx, txs)
    ensures Concat(Transactions.TxBytes, BareAll(txs)) == Concat(Transactions.TxBytes, txs)
    ensures All(Decodable, BareAll(txs))
    decreases |txs|
  {
    if txs != [] {
      var init := txs[..|txs| - 1];
      assert BareAll(txs)[..|txs| - 1] == BareAll(init);
      BareAllOnTheWire(init);
    }
  }

  /// Decoding a serialised block whose header passes Validate and whose
  /// transactions are well formed gives back its header and its transactions
  /// without `id` and `fee`, at height 0.
  lemma BlockRoundTrip(b: Block)
    requires Headers.Validate(b.header) == Pass
    requires |b.transactions| < 0x8000_0000_0000_0000 && All(Transactions.WellFormedTx, b.transactions)
    ensures ParseBlock(BlockBytes(b)) == Success(Block(b.header, BareAll(b.transactions), 0))
  {
    var data := BlockBytes(b);
    var count := EncodeVarInt(|b.transactions|);
    var body := Concat(Transactions.TxBytes, b.transactions);
    assert data == Headers.HeaderBytes(b.header) + (count + body);
    HeaderAtStart(b.header, count + body);
    var p := BodyAt(b, data);
    BareAllOnTheWire(b.transactions);
    TxDecodes();
    RepeatRoundTrip(Transactions.ParseTransaction, Transactions.TxBytes, Decodable, BareAll(b.transactions), data, p);
    ParseBlockFrom(data, b.header, |b.transactions|, BareAll(b.transactions), p);
  }

  /// The reader decoder reads a valid header back from the start of the input.
  lemma HeaderAtStart(h: BlockHeader, rest: seq<Byte>)
    requires Headers.Validate(h) == Pass
    ensures Headers.ReadHeader(Headers.HeaderBytes(h) + rest, 0).Success?
    ensures Headers.ReadHeader(Headers.HeaderBytes(h) + rest, 0).value.0 == h
    ensures Headers.ReadHeader(Headers.HeaderBytes(h) + rest, 0).value.1 == 80
  {
    var data := Headers.HeaderBytes(h) + rest;
    Headers.HeaderRoundTrip(h, rest);
    Headers.ReadHeaderAgrees(data, 0);
    assert data[0..] == data;
  }

  /// The count after the header, and where the transactions start.
  lemma BodyAt(b: Block, data: seq<Byte>) returns (p: nat)
    requires Headers.Validate(b.header) == Pass && data == BlockBytes(b)
    requires |b.transactions| < 0x8000_0000_0000_0000
    ensures 80 <= p <= |data|
    ensures ReadVarInt(data, 80).0 == |b.transactions| && ReadVarInt(data, 80).1 == p
    ensures At(data, p, Concat(Transactions.TxBytes, b.transactions))
  {
    var header := Headers.HeaderBytes(b.header);
    var count := EncodeVarInt(|b.transactions|);
    var body := Concat(Transactions.TxBytes, b.transactions);
    ThreeParts(data, header, count, body);
    DecodeEncoded(|b.transactions|, data, 80);
    p := 80 + |count|;
  }

  /// ParseBlock from the results of its reads.
  lemma ParseBlockFrom(data: seq<Byte>, h: BlockHeader, n: nat, txs: seq<Transaction>, p: nat)
    requires Headers.ReadHeader(data, 0).Success?
    requires Headers.ReadHeader(data, 0).value.0 == h && Headers.ReadHeader(data, 0).value.1 == 80
    requires n < 0x8000_0000_0000_0000 && p <= |data|
    requires ReadVarInt(data, 80).0 == n && ReadVarInt(data, 80).1 == p
    requires Reader(Transactions.ParseTransaction)
    requires Repeat(Transactions.ParseTransaction, data, p, n).0 == txs
    ensures ParseBlock(data) == Success(Block(h, txs, 0))
  {
    assert Transactions.LoopCount(n) == n;
  }
}
