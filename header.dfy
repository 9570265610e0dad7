/// Block headers (block.go): the 80-byte Bitcoin layout, the double-SHA-256
/// header hash, the structural check, and the two header decoders.
module Headers {
  import opened Wire

  /// BlockHeader. Both hash fields are byte strings of any length; Validate is
  /// what insists on 32 bytes.
  datatype BlockHeader = BlockHeader(
    version: Uint32,
    prevBlockHash: seq<Byte>,
    merkleRoot: seq<Byte>,
    timestamp: Uint32,
    nonce: Uint32,
    bits: Uint32)

  /// The header on the wire: version, the two hashes as they are, timestamp,
  /// bits, and the nonce last (bits are written before the nonce although the
  /// struct declares them the other way round).
  function HeaderBytes(h: BlockHeader): (s: seq<Byte>)
    ensures |s| == 16 + |h.prevBlockHash| + |h.merkleRoot|
  {
    LE(h.version, 4) + h.prevBlockHash + h.merkleRoot + LE(h.timestamp, 4) + LE(h.bits, 4) + LE(h.nonce, 4)
  }

  /// BlockHeader.Serialize: appends field by field, reusing one 4-byte buffer
  /// for every integer field.
  method Serialize(h: BlockHeader) returns (buf: seq<Byte>)
    ensures buf == HeaderBytes(h)
  {
    var tmp := new Byte[4];
    buf := Put32(tmp, h.version);
    buf := buf + h.prevBlockHash;
    buf := buf + h.merkleRoot;
    var timestamp := Put32(tmp, h.timestamp);
    buf := buf + timestamp;
    var bits := Put32(tmp, h.bits);
    buf := buf + bits;
    var nonce := Put32(tmp, h.nonce);
    buf := buf + nonce;
  }

  /// BlockHeader.Hash: SHA-256 applied twice to the serialised header.
  function Hash(sha: Hasher, h: BlockHeader): (d: seq<Byte>)
    ensures |d| == 32
  {
    sha(sha(HeaderBytes(h)))
  }

  /// BlockHeader.Validate: the previous hash is checked first, then the root.
  function Validate(h: BlockHeader): (r: Outcome)
    ensures r == Pass <==> |h.prevBlockHash| == 32 && |h.merkleRoot| == 32
    ensures r.Fail? && |h.prevBlockHash| != 32 ==> r.error == BadPrevHashLength
    ensures r.Fail? && |h.prevBlockHash| == 32 ==> r.error == BadMerkleRootLength
  {
    if |h.prevBlockHash| != 32 then Fail(BadPrevHashLength)
    else if |h.merkleRoot| != 32 then Fail(BadMerkleRootLength)
    else Pass
  }

  /// A header passing Validate is 80 bytes long with the nonce in its last four.
  lemma ValidIs80Bytes(h: BlockHeader)
    requires Validate(h) == Pass
    ensures |HeaderBytes(h)| == 80 && HeaderBytes(h)[76..] == LE(h.nonce, 4)
  {
  }

  /// In an 80-byte header the nonce is exactly the last four bytes: writing
  /// another nonce there gives the header with that nonce.
  lemma NonceSplice(h: BlockHeader, n: Uint32)
    requires |HeaderBytes(h)| == 80
    ensures HeaderBytes(h)[..76] + LE(n, 4) == HeaderBytes(h.(nonce := n))
  {
    var fixed := LE(h.version, 4) + h.prevBlockHash + h.merkleRoot + LE(h.timestamp, 4) + LE(h.bits, 4);
    assert HeaderBytes(h) == fixed + LE(h.nonce, 4);
    assert HeaderBytes(h)[..76] == fixed;
  }

  // ---------------------------------------------------------------------------
  // Decoding.

  /// The header DeserializeBlockHeader reads from the first 80 bytes of `data`;
  /// whatever follows them is ignored.
  function ParseHeader(data: seq<Byte>): (r: Result<BlockHeader>)
    ensures r.Success? <==> |data| >= 80
    ensures r.Failure? ==> r.error == ShortHeader
    ensures r.Success? ==> Validate(r.value) == Pass
  {
    if |data| < 80 then Failure(ShortHeader)
    else
      Pow256Of4();
      Success(BlockHeader(
        version := FromLE(data[0..4]),
        prevBlockHash := data[4..36],
        merkleRoot := data[36..68],
        timestamp := FromLE(data[68..72]),
        nonce := FromLE(data[76..80]),
        bits := FromLE(data[72..76])))
  }

  /// DeserializeBlockHeader: a length check, then the fields at an advancing
  /// offset, each hash copied into a fresh 32-byte slice.
  method DeserializeBlockHeader(data: seq<Byte>) returns (r: Result<BlockHeader>)
    ensures r == ParseHeader(data)
  {
    if |data| < 80 {
      return Failure(ShortHeader);
    }
    Pow256Of4();
    var offset := 0;
    var version := FromLE(data[offset..offset + 4]);
    offset := offset + 4;
    var prevBlockHash := data[offset..offset + 32];
    offset := offset + 32;
    var merkleRoot := data[offset..offset + 32];
    offset := offset + 32;
    var timestamp := FromLE(data[offset..offset + 4]);
    offset := offset + 4;
    var bits := FromLE(data[offset..offset + 4]);
    offset := offset + 4;
    var nonce := FromLE(data[offset..offset + 4]);
    r := Success(BlockHeader(version, prevBlockHash, merkleRoot, timestamp, nonce, bits));
  }

  /// Decoding a serialised valid header gives it back, whatever follows it.
  lemma HeaderRoundTrip(h: BlockHeader, rest: seq<Byte>)
    requires Validate(h) == Pass
    ensures ParseHeader(HeaderBytes(h) + rest) == Success(h)
  {
    var data := HeaderBytes(h) + rest;
    assert data[0..4] == LE(h.version, 4);
    assert data[4..36] == h.prevBlockHash;
    assert data[36..68] == h.merkleRoot;
    assert data[68..72] == LE(h.timestamp, 4);
    assert data[72..76] == LE(h.bits, 4);
    assert data[76..80] == LE(h.nonce, 4);
    Pow256Of4();
    FromLEOfLE(h.version, 4);
    FromLEOfLE(h.timestamp, 4);
    FromLEOfLE(h.bits, 4);
    FromLEOfLE(h.nonce, 4);
  }

  /// DeserializeBlockHeaderFromReader: six reads from the shared reader, the
  /// first failing one ending the decoding with its error.
  function ReadHeader(data: seq<Byte>, pos: nat): (r: Result<(BlockHeader, nat)>)
    requires pos <= |data|
  {
    match ReadUint(data, pos, 4)
    case Failure(e) => Failure(e)
    case Success(version) =>
      match ReadExact(data, version.1, 32)
      case Failure(e) => Failure(e)
      case Success(prevBlockHash) =>
        match ReadExact(data, prevBlockHash.1, 32)
        case Failure(e) => Failure(e)
        case Success(merkleRoot) =>
          match ReadUint(data, merkleRoot.1, 4)
          case Failure(e) => Failure(e)
          case Success(timestamp) =>
            match ReadUint(data, timestamp.1, 4)
            case Failure(e) => Failure(e)
            case Success(bits) =>
              match ReadUint(data, bits.1, 4)
              case Failure(e) => Failure(e)
              case Success(nonce) =>
                Pow256Of4();
                Success((BlockHeader(version.0, prevBlockHash.0, merkleRoot.0, timestamp.0, nonce.0, bits.0), nonce.1))
  }

  /// The reader decoder succeeds exactly when 80 bytes are left, then agrees
  /// with DeserializeBlockHeader on them and consumes exactly them; a short
  /// input fails with io.EOF when it ends at a field boundary and with
  /// io.ErrUnexpectedEOF inside a field.
  lemma ReadHeaderAgrees(data: seq<Byte>, pos: nat)
    requires pos <= |data|
    ensures ReadHeader(data, pos).Success? <==> pos + 80 <= |data|
    ensures ReadHeader(data, pos).Success? ==>
      ReadHeader(data, pos).value.1 == pos + 80 && Success(ReadHeader(data, pos).value.0) == ParseHeader(data[pos..])
    ensures ReadHeader(data, pos).Failure? ==>
      (ReadHeader(data, pos).error == EndOfInput <==> |data| - pos in {0, 4, 36, 68, 72, 76})
  {
    if pos + 80 <= |data| {
      var rest := data[pos..];
      assert data[pos..pos + 4] == rest[0..4];
      assert data[pos + 4..pos + 36] == rest[4..36];
      assert data[pos + 36..pos + 68] == rest[36..68];
      assert data[pos + 68..pos + 72] == rest[68..72];
      assert data[pos + 72..pos + 76] == rest[72..76];
      assert data[pos + 76..pos + 80] == rest[76..80];
    }
  }
}
