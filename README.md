# blockchain-impl-study: the block-construction engine, in Dafny

This project models the core of a small Go blockchain. Each piece below is written the way the Go code does it, and properties of it are proved.

- **Varint codec** (`varint.dfy`). Bitcoin's CompactSize integer:
  - values below 0xfd are one byte;
  - otherwise a tag 0xfd/0xfe/0xff is followed by 2/4/8 little-endian bytes;
  - byte strings carry a length prefix in this encoding.
- **Transactions** (`transaction.dfy`):
  - the wire encoding, built by appending to a buffer with a reused 4-byte scratch array;
  - the two decoders that advance a `bytes.Reader`, modelled as a byte sequence and a cursor;
  - the fee rule, summed in Go's wrapping `int64`.
- **Block headers** (`header.dfy`):
  - the header layout, 80 bytes when both hash fields are 32 bytes;
  - the double-SHA-256 header hash;
  - structural validation;
  - both header decoders.
- **Merkle tree** (`merkle.dfy`). A pairwise double-SHA reduction where an odd last node is paired with itself. A single leaf is returned unhashed.
- **Proof of work** (`pow.dfy`):
  - compact `bits` to an integer target;
  - the nonce search that writes each nonce into the header bytes in place;
  - the validity check.
- **Blocks** (`block.dfy`):
  - the block encoding;
  - the Merkle root over full transaction serialisations;
  - block assembly (`NewBlock`, `NewGenesisBlock`);
  - `DeserializeBlock`, which always reports height 0.
- **Base58** (`base58.dfy`). The big-integer base conversion with leading-zero handling, its in-place reversal, and the decoder.
- **Chain store and iterator** (`chain.dfy`):
  - the coinbase transaction;
  - the Badger database as a class holding a `present` flag and a key-value map;
  - `InitBlockchain`, `ContinueBlockchain` and `AddBlock`, with the tip pointer under key `"l"`;
  - the iterator that walks back through each header's previous hash.

`wire.dfy` holds the shared pieces:
- bytes and fixed-width integers;
- little- and big-endian conversions;
- the reader primitives with `bytes.Reader`'s short-read behaviour;
- the `Result` type whose failures stand for the source's panics and discarded errors.

SHA-256 is a parameter `sha` of type `Hasher`: any function on byte strings whose results are 32 bytes long. `big.Int` is `nat`. The clock is a parameter `now`.

Where the code has a quirk, the model keeps it and proves it:
- the genesis block can never be mined: a single-transaction Merkle root is the raw serialisation of the coinbase, so the header is not 80 bytes (`Chain.GenesisAlwaysFails`);
- every decoded block has height 0, so `AddBlock` always builds height 1 (`Chain.NextBlockSpec`);
- `Run` never tries the nonce 0xffffffff (`ProofOfWork.MineSpec`);
- a coinbase input does not read back: its index −1 is written as ff ff ff ff right after its empty previous id, so the decoder takes those four bytes as the start of a 32-byte id (`Chain.CoinbaseInputMisread`). When the coinbase data is at least 30 (and fewer than 0xfd) bytes long, as the genesis text is and the reward text is for a recipient of 18 bytes or more, that id ends inside the data and the index is read from bytes 26..30 of the data, whatever follows in the stream (`Chain.CoinbaseIndexFromData`); for the genesis coinbase it is 0x6c6c6563, the bytes of "cell" (`Chain.GenesisCoinbaseIndexMisread`). With shorter data the input ends before byte 36, so some or all of the index is read from the bytes that follow it.

## Model

| member | source | states |
|---|---|---|
| VarInt.EncodeVarInt | utils.go:8-31 | below 0xfd the value is its own single byte; up to 0xffff, 0xffff_ffff and up to 2^64 − 1, the tag 0xfd, 0xfe or 0xff is followed by the value little-endian in 2, 4 or 8 bytes |
| VarInt.EncodedLength | utils.go:8-31 | the encoding is 1, 3, 5 or 9 bytes long according to the value's range |
| VarInt.EncodeExamples | utils.go:13-29 | 252 encodes as [0xfc], 253 as [0xfd, 0xfd, 0x00], 65536 as [0xfe, 0x00, 0x00, 0x01, 0x00] |
| VarInt.DecodeVarInt | utils.go:33-55 | fails with end-of-input on an empty reader and with a short-read error when the tag is not followed by its full width; on success the cursor advances by 1 + width and a first byte below 0xfd is the value |
| VarInt.ReadVarInt | transaction.go:74 | the decoder with its error discarded yields a value below 2^64 and a cursor within the input |
| VarInt.DecodeEncoded | utils.go:8-55 | decoding the encoding of any v < 2^64, followed by anything, yields v and leaves the cursor just after the encoding |
| VarInt.DecodeSingleByte | utils.go:52-53 | a first byte below 0xfd decodes to itself and consumes exactly one byte |
| VarInt.AppendVarInt | utils.go:57-77 | appending to a buffer yields the buffer followed by the encoding |
| VarInt.AppendKeepsPrefix | utils.go:57-77 | the appended buffer is longer and its prefix is the old buffer, untouched |
| VarInt.AppendVarBytes | utils.go:79-82 | appending a byte string yields the buffer, then the varint of its length, then the string |
| Merkle.HashPair | merkletree.go:7-11 | the pair hash is 32 bytes |
| Merkle.NextLevel | merkletree.go:20-31 | a level of n nodes has ⌈n/2⌉ parents, parent j hashing nodes 2j and 2j+1 (or 2j with itself at the odd end) |
| Merkle.BuildMerkleRoot | merkletree.go:13-34 | the nested loops compute the recursive Merkle root of the ordered leaf list |
| Merkle.PairUp | merkletree.go:21-29 | the inner indexed loop builds exactly the next level |
| Merkle.EmptyRoot | merkletree.go:14-16 | no leaves give the empty byte string |
| Merkle.SingleLeafUnhashed | merkletree.go:18-33 | a single leaf is the root, never hashed |
| Merkle.TwoLeaves | merkletree.go:7-25 | two leaves a, b give SHA256(SHA256(a ++ b)) |
| Merkle.LevelShape | merkletree.go:20-31 | each round strictly shrinks the level to ⌈n/2⌉; pairs are hashed in order; an odd last node is paired with itself |
| Merkle.RootIs32Bytes | merkletree.go:7-11 | with two or more leaves the root is exactly 32 bytes |
| Transactions.Serialize | transaction.go:19-50 | the appending loops, with the reused scratch array, produce exactly the wire layout: version, input count, inputs (raw previous id, index truncated to 32 bits, signature, public key), output count, outputs (value as 64 bits, key hash), lock time; id and fee are not written |
| Transactions.DeserializeTransaction | transaction.go:68-113 | the decoder reading from a fresh reader yields the transaction the cursor-level reading defines at position 0 |
| Transactions.DeserializeTransactionFromReader | transaction.go:136-179 | the decoder on a shared reader yields the same reading from its cursor, and moves the cursor past what it read |
| Transactions.ParseInput | transaction.go:76-94 | a decoded input has a 32-byte previous id and an index in [0, 2^32) |
| Transactions.LoopCount | transaction.go:74-75 | a count of 2^63 or more turns negative in `int` and runs the loop zero times |
| Transactions.ParseInputRoundTrip | transaction.go:76-94 | a well-formed input written at a position reads back as itself and consumes exactly its bytes |
| Transactions.ParseOutput | transaction.go:97-108 | reads an output (8-byte value, then the public key hash behind its length) without moving past the end of the input |
| Transactions.ParseOutputRoundTrip | transaction.go:97-108 | likewise for an output |
| Transactions.InputsRoundTrip | transaction.go:74-94 | the input list reads back in order |
| Transactions.OutputsRoundTrip | transaction.go:96-108 | the output list reads back in order |
| Transactions.ParseTransaction | transaction.go:136-179 | reads version, inputs, outputs and lock time from a position without moving past the end of the input; its round trip is `Transactions.ParseTransactionRoundTrip` |
| Transactions.ParseTransactionRoundTrip | transaction.go:136-179 | a well-formed transaction written anywhere in a stream reads back with version, inputs, outputs and lock time intact, id and fee empty, and the cursor just after it |
| Transactions.DeserializeSerialized | transaction.go:19-113 | DeserializeTransaction(Serialize(tx)) is tx without its id and fee |
| Transactions.CoinbaseIndexOnTheWire | transaction.go:30-83 | index −1 is written as ff ff ff ff right after the previous id, whatever that id's length; only behind a 32-byte id does it read back, as 4294967295 |
| Transactions.Hex | transaction.go:57 | the hex key is two characters per byte |
| Transactions.HexInjective | transaction.go:57 | distinct ids give distinct hex keys, so the lookup finds the referenced transaction |
| Transactions.Wrap64 | transaction.go:53-65 | the `int64` wrap is the identity in range and congruent modulo 2^64 |
| Transactions.InputSum | transaction.go:56-59 | the spent values sum exactly when every input's id and index resolve, and fails otherwise |
| Transactions.CalculateFee | transaction.go:52-66 | the accumulating loops compute the wrapped fee: spent minus paid, or the failure of an unresolved input |
| Transactions.FeeExact | transaction.go:52-66 | when the exact difference fits in `int64`, the fee is inputs spent minus outputs paid |
| Headers.HeaderBytes | block.go:21-42 | the header is 16 + both hash lengths bytes long |
| Headers.Serialize | block.go:21-42 | the appending with the reused scratch array produces version, previous hash, Merkle root, timestamp, bits, nonce |
| Headers.Hash | block.go:44-48 | the header hash is 32 bytes |
| Headers.Validate | block.go:50-58 | passes iff both hash fields are 32 bytes, reporting the previous hash first |
| Headers.ValidIs80Bytes | block.go:21-58 | a valid header serialises to 80 bytes with the nonce in bytes 76..80 |
| Headers.NonceSplice | block.go:38-39 | overwriting bytes 76..80 of an 80-byte header with a nonce gives the header carrying that nonce |
| Headers.ParseHeader | block.go:116-144 | fails iff fewer than 80 bytes are given; its result always passes Validate |
| Headers.DeserializeBlockHeader | block.go:116-144 | the offset-stepping decoder computes exactly that reading |
| Headers.HeaderRoundTrip | block.go:116-144 | a valid header decodes back from its bytes, whatever follows them |
| Headers.ReadHeader | block.go:146-177 | reads the six header fields from a position, failing on the first field that runs past the end; what it returns is stated by `Headers.ReadHeaderAgrees` |
| Headers.ReadHeaderAgrees | block.go:146-177 | the reader decoder succeeds iff 80 bytes remain, then agrees with DeserializeBlockHeader and consumes 80 bytes; a short input fails with end-of-input exactly at a field boundary |
| ProofOfWork.BitsToTarget | proof_of_work.go:54-67 | fails iff the mantissa is 0 or the exponent is below 3; every target returned is positive |
| ProofOfWork.TargetOf | proof_of_work.go:62-64 | the target is mantissa · 256^(exponent − 3) |
| ProofOfWork.TargetIncreasesWithMantissa | proof_of_work.go:62-64 | for a fixed exponent the target strictly increases with the mantissa |
| ProofOfWork.TargetScalesWithExponent | proof_of_work.go:62-64 | one more exponent multiplies the target by 256 |
| ProofOfWork.DefaultTarget | proof_of_work.go:54-67 | 0x1d00ffff gives 0xffff · 256^26 |
| ProofOfWork.NewProofOfWork | proof_of_work.go:47-52 | pairs the header with its target, failing as BitsToTarget does |
| ProofOfWork.Run | proof_of_work.go:15-36 | the loop writing each nonce into the header bytes in place computes the search result |
| ProofOfWork.MineSpec | proof_of_work.go:15-36 | a non-80-byte header fails; a result is the first nonce below 0xffffffff whose hash is below the target, with that hash; exhaustion means no such nonce exists |
| ProofOfWork.SearchSpec | proof_of_work.go:19-35 | the ascending search finds the least passing nonce, or none exists |
| ProofOfWork.Validate | proof_of_work.go:38-45 | the header's double SHA-256, read as a big-endian number, is below the target; `ProofOfWork.MinedHeaderValidates` shows every mined header passes it |
| ProofOfWork.MinedHeaderValidates | proof_of_work.go:15-45 | the header carrying the found nonce hashes to the returned hash and passes Validate |
| Blocks.Serialize | block.go:66-76 | the buffer holds the header, the varint transaction count and each transaction in order; height is not written |
| Blocks.Leaves | block.go:78-86 | the leaves are the full transaction serialisations, in order |
| Blocks.BuildMerkleRoot | block.go:78-86 | the loop computes the Merkle root of those leaves |
| Blocks.NewBlock | block.go:88-110 | the construction, then the root and nonce updates, compute the assembled block |
| Blocks.AssembleSpec | block.go:88-110 | invalid bits and a non-80-byte header fail; otherwise the block keeps its transactions and height and has version 1, the given previous hash, bits and clock, and the root; its nonce meets the target and no smaller nonce does; with a 32-byte previous hash it passes Validate |
| Blocks.NewGenesisBlock | block.go:112-114 | the coinbase alone, on 32 zero bytes, at height 0 |
| Blocks.GenesisNeeds32ByteCoinbase | block.go:112-114 | with valid bits, a coinbase whose serialisation is not 32 bytes cannot be mined |
| Blocks.ParseBlock | transaction.go:115-134 | succeeds iff 80 header bytes are present; the header is DeserializeBlockHeader's and the height is always 0 |
| Blocks.DeserializeBlock | transaction.go:115-134 | the reading loop computes that decoding |
| Blocks.BareAll | transaction.go:137 | a decoded transaction starts from a zero `Transaction`, so its id stays empty and its fee 0; BareAll clears both in every element of the list, which is what `Blocks.BlockRoundTrip` reads back |
| Blocks.BlockRoundTrip | block.go:66-76 | a valid block with well-formed transactions decodes back with its header and transactions, at height 0 |
| Base58.IndexOf | base58.go:45-48 | a character's position in the alphabet, −1 iff it is not in it |
| Base58.Encode | base58.go:11-39 | the digit loop, the leading-ones loop and the in-place reversal compute: one '1' per leading zero byte, then the base-58 digits of the big-endian value, most significant first |
| Base58.ReverseInPlace | base58.go:33-36 | the swap loop reverses the array |
| Base58.Decoding | base58.go:44-48 | decoding fails iff some character is outside the alphabet |
| Base58.Decode | base58.go:40-66 | the accumulation and zero-count loops compute that decoding |
| Base58.EncodingInAlphabet | base58.go:9-27 | every output byte is in the alphabet |
| Base58.LeadingOnesCountZeros | base58.go:24-36 | the encoding has as many leading '1's as the input has leading zero bytes |
| Base58.EncodeZeros | base58.go:19-31 | k zero bytes encode to k '1's; the empty input encodes to nothing |
| Base58.DecodingOfEncoding | base58.go:49-65 | decoding an encoding gives the leading zeros followed by the minimal big-endian bytes of its value |
| Base58.ZerosThenMinimal | base58.go:53-65 | the leading zeros followed by the minimal big-endian bytes of the value rebuild the input |
| Base58.RoundTrip | base58.go:11-66 | decoding the encoding of any byte string gives it back |
| Base58.EncodingInjective | base58.go:11-39 | distinct inputs have distinct encodings |
| Chain.CoinbaseData | blockchain.go:159-161 | empty data becomes "Reward to '<to>'"; other data is kept |
| Chain.CoinbaseIdIsFixed | blockchain.go:176-177 | every coinbase gets the same 32-byte id, whatever its recipient and data |
| Chain.NewCoinbaseTX | blockchain.go:158-179 | builds the coinbase; what it builds is stated by `Chain.CoinbaseData`, `Chain.CoinbaseShape` and `Chain.CoinbaseIdIsFixed` |
| Chain.CoinbaseShape | blockchain.go:163-175 | version 1, lock time 0, fee 0; one unsigned input with empty previous id, index −1 and the (never empty) data as public key; one output of 10 to `to` |
| Chain.CoinbaseBytesLength | blockchain.go:163-175 | a coinbase serialises to at least 20 bytes more than its data |
| Chain.CoinbaseInputBytes | blockchain.go:163-168 | a coinbase input is written as ff ff ff ff, an empty signature, then the data behind its length: no previous-id bytes at all |
| Chain.ShortCoinbaseInputBytes | blockchain.go:163-168 | with data shorter than 0xfd bytes that length is a single byte |
| Chain.CoinbaseInputMisread | transaction.go:76-83 | decoding a coinbase input yields a previous id starting with ff ff ff ff, so never the input that was written |
| Chain.CoinbaseIndexFromData | transaction.go:76-83 | for coinbase data of 30 to 0xfc bytes, the decoded index is bytes 26..30 of the data read little-endian, whatever follows the input |
| Chain.GenesisInputBytes | blockchain.go:14 | the genesis coinbase input is ff ff ff ff, 0, 69 and the 69 bytes of the genesis text |
| Chain.GenesisCoinbaseIndexMisread | transaction.go:76-83 | the decoder reads the genesis coinbase's index from bytes 26 to 29 of its text, as 0x6c6c6563 |
| Chain.Fetch | blockchain_iterator.go:22-33 | a missing key fails; a present key gives the decoding of its bytes |
| Chain.Blockchain.AddBlock | blockchain.go:106-152 | a missing or undecodable tip, or a failed mining, changes nothing; on success the block is stored under its hash, "l" and the tip move to that hash, and no other key changes |
| Chain.Blockchain.Iterator | blockchain_iterator.go:14-16 | the iterator starts at the tip, over the same store |
| Chain.MineNext | blockchain.go:110-131 | reading and decoding the tip, then mining on it, compute the block AddBlock stores |
| Chain.Put | blockchain.go:133-146 | the two writes store the block under its header hash and point "l" at it; nothing else changes |
| Chain.BlockchainIterator.Next | blockchain_iterator.go:18-44 | the stored bytes under the current hash are decoded (a missing key fails), and the cursor moves to the block's previous hash; the store is untouched |
| Chain.InitBlockchain | blockchain.go:29-69 | an existing store fails and is untouched; otherwise the store now exists and, once the genesis is mined, holds exactly the genesis block under its hash and "l" pointing at it, with the tip there |
| Chain.MineGenesis | blockchain.go:46-47 | computes the genesis block as NewGenesisBlock does |
| Chain.ContinueBlockchain | blockchain.go:71-104 | a missing store fails; a store without "l" fails; otherwise the tip is the stored value of "l" |
| Chain.GenesisAlwaysFails | blockchain.go:46-47 | the genesis block is never mined: its header is not 80 bytes, so InitBlockchain always panics |
| Chain.GenesisCoinbaseIsLong | blockchain.go:14-46 | the genesis coinbase serialises to more than 32 bytes |
| Chain.NextBlockSpec | blockchain.go:110-131 | a missing tip fails; a mined block links to the hash of the decoded tip header, has height 1, carries the given transactions, passes Validate and meets the difficulty target |
| Chain.MineOnSpec | blockchain.go:131 | a block mined on a tip links to its hash, is one higher, carries the transactions and meets the target |
| Chain.StoredHeaderHashes | blockchain.go:134 | the bytes stored for a valid block decode to its header |
| Chain.AppendKeepsLinked | blockchain.go:133-146 | storing a valid block keeps every non-"l" key the hash of the header stored under it, and "l" pointing at a stored key |
| Chain.AddBlockKeepsLinked | blockchain.go:106-152 | AddBlock preserves that linkage |
| Chain.GenesisStoreLinked | blockchain.go:51-56 | the store InitBlockchain writes is linked |
| Chain.FetchAppended | blockchain_iterator.go:22-33 | the block just stored reads back under its hash with its header and transactions, at height 0 |
| Chain.NextAfterAddBlock | blockchain.go:133-146 | after AddBlock, the iterator's first step returns the new block, whose previous hash is the old tip's header hash |
| Chain.FetchAppendedHeader | blockchain_iterator.go:22-33 | for any transactions, the block just stored reads back under its hash with its own header, at height 0 |
| Chain.IteratorAfterAddBlock | blockchain.go:133-146 | for any transactions, after AddBlock the iterator's first step returns the new header and moves the cursor to the old tip's header hash, which in a linked store is the old tip itself |

## Left out

- Badger internals are not modelled: transactions, isolation, durability, `Open` errors and `Close`. The `os.Stat` probe of MANIFEST is the `present` flag of `Chain.Database`.
- The node id and the directory path it names are not modelled. Each `Database` object stands for one node's directory.
- Printing, `os.Exit`, `log.Panic` and `panic` are modelled as `Failure` results, except the allocation panic named on the next line. A panic while mining the genesis block leaves the database created and empty, as Badger's rolled-back update does.
- Transactions.ParseInput, Transactions.ParseOutput, Transactions.ParseTransaction: a decoded signature, public key or public key hash length too large to allocate makes Go's `make` panic (transaction.go:86-90, transaction.go:104, transaction.go:152-156, transaction.go:170), or run out of memory. The model has no allocation bound: it takes the bytes that are left and pads them with zeros, as `io.ReadFull` leaves an allocatable buffer.
- VarInt.EncodeVarInt: takes a `nat` where Go takes a `uint64`. Every caller passes a slice length, which Go keeps below 2^63. For a value of 2^64 or more, which no caller reaches, the low 64 bits follow the tag 0xff, where Go's conversion would already have wrapped the value before choosing the tag.
- SHA-256 internals are not modelled: `Hasher` is any 32-byte-valued function. Nothing is claimed about whether mining ever succeeds.
- `time.Now()` is the parameter `now`. Its truncation to `uint32` is modelled.
- Go strings are their bytes. The hex key of `CalculateFee` is modelled as a `string` of ASCII characters.
- Go slice aliasing in `append(left, right...)` (merkletree.go:8) and in buffers returned by `bytes.Buffer` is not modelled. It has no visible effect on results.
- cli.go, main.go and main_test.go are not part of this model: argument parsing, usage text, wallet calls and files on disk.
- `TransactionInput` and `TransactionOutput` are defined outside the files modelled here. Their fields are inferred from how transaction.go and blockchain.go use them.
- Transactions.ParseTransactionRoundTrip, Transactions.DeserializeSerialized, Blocks.BlockRoundTrip: require every previous id to be 32 bytes, every index in [0, 2^32), and lists shorter than 2^63. Other transactions do not read back as written, because the encoding does not record the id length.
- Transactions.FeeExact: states the exact difference only when it fits in `int64`. Outside that range `CalculateFee` is stated through the wrap.
- Chain.InitBlockchain: states the success state only conditionally on the genesis being mined, which `Chain.GenesisAlwaysFails` shows never happens.
