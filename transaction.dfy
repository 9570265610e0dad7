/// Transactions (transaction.go): the wire encoding, the fee rule, and the
/// decoders that read a transaction from a buffer or from a shared reader.
module Transactions {
  import opened Wire
  import opened VarInt

  /// TransactionInput: the referenced output and the unlocking data. There is no
  /// sequence field.
  datatype TxInput = TxInput(prevTxId: seq<Byte>, prevOutIndex: Int64, signature: seq<Byte>, pubKey: seq<Byte>)

  /// TransactionOutput: an amount and the recipient's key hash.
  datatype TxOutput = TxOutput(value: Int64, pubKeyHash: seq<Byte>)

  /// Transaction. `id` and `fee` are carried but never written to the wire.
  datatype Transaction = Transaction(
    version: Int32,
    id: seq<Byte>,
    vin: seq<TxInput>,
    vout: seq<TxOutput>,
    lockTime: Uint32,
    fee: Int64)

  // ---------------------------------------------------------------------------
  // The wire format written by Serialize.

  /// One input: the previous transaction id as it is (no length prefix, no
  /// padding), the output index truncated to 32 bits, then the signature and
  /// the public key, each prefixed by its length.
  function InputBytes(i: TxInput): seq<Byte> {
    i.prevTxId + LE(ToUint32(i.prevOutIndex), 4) + VarBytes(i.signature) + VarBytes(i.pubKey)
  }

  /// One output: the value as 8 little-endian bytes, then the key hash prefixed
  /// by its length.
  function OutputBytes(o: TxOutput): seq<Byte> {
    LE(ToUint64(o.value), 8) + VarBytes(o.pubKeyHash)
  }

  /// The whole transaction: version, counted inputs, counted outputs, lock time.
  function TxBytes(tx: Transaction): seq<Byte> {
    LE(ToUint32(tx.version), 4)
    + EncodeVarInt(|tx.vin|) + Concat(InputBytes, tx.vin)
    + EncodeVarInt(|tx.vout|) + Concat(OutputBytes, tx.vout)
    + LE(tx.lockTime, 4)
  }

  /// Transaction.Serialize: appends field by field to `buf`, reusing the 4-byte
  /// scratch buffer `tmp4` for every 32-bit field.
  method Serialize(tx: Transaction) returns (buf: seq<Byte>)
    ensures buf == TxBytes(tx)
  {
    var tmp4 := new Byte[4];
    buf := Put32(tmp4, ToUint32(tx.version));
    buf := AppendVarInt(buf, |tx.vin|);
    buf := AppendInputs(buf, tmp4, tx.vin);
    buf := AppendVarInt(buf, |tx.vout|);
    buf := AppendOutputs(buf, tx.vout);
    var lockTime := Put32(tmp4, tx.lockTime);
    buf := buf + lockTime;
  }

  /// Serialize's input loop.
  method AppendInputs(buf: seq<Byte>, tmp4: array<Byte>, vin: seq<TxInput>) returns (r: seq<Byte>)
    requires tmp4.Length == 4
    modifies tmp4
    ensures r == buf + Concat(InputBytes, vin)
  {
    r := buf;
    var i := 0;
    while i < |vin|
      invariant 0 <= i <= |vin|
      invariant r == buf + Concat(InputBytes, vin[..i])
    {
      r := AppendInput(r, tmp4, vin[i]);
      ConcatSnoc(buf, InputBytes, vin, i);
      i := i + 1;
    }
    assert vin[..i] == vin;
  }

  /// Serialize's output loop.
  method AppendOutputs(buf: seq<Byte>, vout: seq<TxOutput>) returns (r: seq<Byte>)
    ensures r == buf + Concat(OutputBytes, vout)
  {
    r := buf;
    var j := 0;
    while j < |vout|
      invariant 0 <= j <= |vout|
      invariant r == buf + Concat(OutputBytes, vout[..j])
    {
      r := AppendOutput(r, vout[j]);
      ConcatSnoc(buf, OutputBytes, vout, j);
      j := j + 1;
    }
    assert vout[..j] == vout;
  }

  /// The body of Serialize's input loop: one input appended to `buf`, its index
  /// passing through the shared scratch buffer.
  method AppendInput(buf: seq<Byte>, tmp4: array<Byte>, vin: TxInput) returns (r: seq<Byte>)
    requires tmp4.Length == 4
    modifies tmp4
    ensures r == buf + InputBytes(vin)
  {
    r := buf + vin.prevTxId;
    var index := Put32(tmp4, ToUint32(vin.prevOutIndex));
    r := r + index;
    r := AppendVarBytes(r, vin.signature);
    r := AppendVarBytes(r, vin.pubKey);
    ConcatAssoc4(buf, vin.prevTxId, LE(ToUint32(vin.prevOutIndex), 4), VarBytes(vin.signature), VarBytes(vin.pubKey));
  }

  /// The body of Serialize's output loop: the value through a fresh 8-byte
  /// buffer, then the length-prefixed key hash.
  method AppendOutput(buf: seq<Byte>, vout: TxOutput) returns (r: seq<Byte>)
    ensures r == buf + OutputBytes(vout)
  {
    var tmp8 := new Byte[8];
    PutUint(tmp8, 0, ToUint64(vout.value), 8);
    assert tmp8[..] == LE(ToUint64(vout.value), 8);
    r := buf + tmp8[..];
    r := AppendVarBytes(r, vout.pubKeyHash);
    ConcatAssoc2(buf, LE(ToUint64(vout.value), 8), VarBytes(vout.pubKeyHash));
  }

  lemma ConcatAssoc2(x: seq<Byte>, a: seq<Byte>, b: seq<Byte>)
    ensures x + (a + b) == x + a + b
  {
  }

  lemma ConcatAssoc4(x: seq<Byte>, a: seq<Byte>, b: seq<Byte>, c: seq<Byte>, d: seq<Byte>)
    ensures x + (a + b + c + d) == x + a + b + c + d
  {
  }

  // ---------------------------------------------------------------------------
  // Decoding. The source discards every read error, so a short input yields
  // zero values and zero-filled byte strings rather than a failure.

  /// A length-prefixed byte string as the decoders read it: the length, then
  /// io.ReadFull into a buffer of that length.
  function ReadVarBytes(data: seq<Byte>, pos: nat): (r: (seq<Byte>, nat))
    requires pos <= |data|
    ensures pos <= r.1 <= |data|
  {
    var n := ReadVarInt(data, pos);
    ReadFull(data, n.1, n.0)
  }

  /// One input, as the loop body of the decoders reads it: always 32 id bytes.
  function ParseInput(data: seq<Byte>, pos: nat): (r: (TxInput, nat))
    requires pos <= |data|
    ensures pos <= r.1 <= |data| && |r.0.prevTxId| == 32 && 0 <= r.0.prevOutIndex < U32
  {
    Pow256Of4();
    var prevTxId := ReadFull(data, pos, 32);
    var index := ReadLE(data, prevTxId.1, 4);
    var signature := ReadVarBytes(data, index.1);
    var pubKey := ReadVarBytes(data, signature.1);
    (TxInput(prevTxId.0, index.0, signature.0, pubKey.0), pubKey.1)
  }

  /// One output, as the loop body of the decoders reads it: the value as a
  /// uint64 taken as `int`, then the key hash.
  function ParseOutput(data: seq<Byte>, pos: nat): (r: (TxOutput, nat))
    requires pos <= |data|
    ensures pos <= r.1 <= |data|
  {
    Pow256Of8();
    var value := ReadLE(data, pos, 8);
    var pubKeyHash := ReadVarBytes(data, value.1);
    (TxOutput(Signed64(value.0), pubKeyHash.0), pubKeyHash.1)
  }

  /// How often `for i := 0; i < int(count); i++` runs for a `uint64` count: a
  /// count of 2^63 or more is a negative `int`, and the loop does not run.
  function LoopCount(count: Uint64): (n: nat)
    ensures n == if Signed64(count) < 0 then 0 else Signed64(count)
  {
    if count < 0x8000_0000_0000_0000 then count else 0
  }

  /// The transaction the decoders read at `pos`, and the cursor after it.
  function ParseTransaction(data: seq<Byte>, pos: nat): (r: (Transaction, nat))
    requires pos <= |data|
    ensures pos <= r.1 <= |data|
  {
    InputReader();
    OutputReader();
    Pow256Of4();
    var version := ReadLE(data, pos, 4);
    var vinCount := ReadVarInt(data, version.1);
    var vin := Repeat(ParseInput, data, vinCount.1, LoopCount(vinCount.0));
    var voutCount := ReadVarInt(data, vin.1);
    var vout := Repeat(ParseOutput, data, voutCount.1, LoopCount(voutCount.0));
    var lockTime := ReadLE(data, vout.1, 4);
    (Transaction(Signed32(version.0), [], vin.0, vout.0, lockTime.0, 0), lockTime.1)
  }

  /// DeserializeTransactionFromReader: reads one transaction from the shared
  /// reader at `pos` and returns the reader's new position.
  method DeserializeTransactionFromReader(data: seq<Byte>, pos: nat) returns (tx: Transaction, next: nat)
    requires pos <= |data|
    ensures (tx, next) == ParseTransaction(data, pos)
  {
    Pow256Of4();
    var version := ReadLE(data, pos, 4);
    var vinCount := ReadVarInt(data, version.1);
    var vin, p3 := ReadInputs(data, vinCount.1, vinCount.0);
    var voutCount := ReadVarInt(data, p3);
    var vout, p5 := ReadOutputs(data, voutCount.1, voutCount.0);
    var lockTime := ReadLE(data, p5, 4);
    tx := Transaction(Signed32(version.0), [], vin, vout, lockTime.0, 0);
    next := lockTime.1;
  }

  /// The input loop of the decoders: `int(count)` inputs, each appended to the
  /// list as it is read.
  method ReadInputs(data: seq<Byte>, pos: nat, count: Uint64) returns (vin: seq<TxInput>, next: nat)
    requires pos <= |data|
    ensures (vin, next) == Repeat(ParseInput, data, pos, LoopCount(count))
  {
    InputReader();
    vin, next := [], pos;
    var i := 0;
    while i < Signed64(count)
      invariant 0 <= i <= LoopCount(count)
      invariant (vin, next) == Repeat(ParseInput, data, pos, i)
    {
      var (input, p) := ParseInput(data, next);
      RepeatSnoc(ParseInput, data, pos, i, vin, next, input, p);
      vin := vin + [input];
      next := p;
      i := i + 1;
    }
    assert i == LoopCount(count);
  }

  /// The output loop of the decoders.
  method ReadOutputs(data: seq<Byte>, pos: nat, count: Uint64) returns (vout: seq<TxOutput>, next: nat)
    requires pos <= |data|
    ensures (vout, next) == Repeat(ParseOutput, data, pos, LoopCount(count))
  {
    OutputReader();
    vout, next := [], pos;
    var j := 0;
    while j < Signed64(count)
      invariant 0 <= j <= LoopCount(count)
      invariant (vout, next) == Repeat(ParseOutput, data, pos, j)
    {
      var (output, p) := ParseOutput(data, next);
      RepeatSnoc(ParseOutput, data, pos, j, vout, next, output, p);
      vout := vout + [output];
      next := p;
      j := j + 1;
    }
    assert j == LoopCount(count);
  }

  /// DeserializeTransaction: the same decoding on a reader of its own over
  /// `data`. (The source repeats the body; here it is the reader version at
  /// position 0.)
  method DeserializeTransaction(data: seq<Byte>) returns (tx: Transaction)
    ensures tx == ParseTransaction(data, 0).0
  {
    var next;
    tx, next := DeserializeTransactionFromReader(data, 0);
  }

  // ---------------------------------------------------------------------------
  // Round trips. Decoding what Serialize wrote gives the transaction back, with
  // the fields the wire does not carry (`id`, `fee`) at their zero values.

  /// The inputs the wire format can carry: a 32-byte previous id (the decoder
  /// always reads 32), an index that survives the 32-bit truncation, and byte
  /// strings whose length fits a uint64 length prefix.
  predicate WellFormedInput(i: TxInput) {
    |i.prevTxId| == 32 && 0 <= i.prevOutIndex < U32 && |i.signature| < U64 && |i.pubKey| < U64
  }

  predicate WellFormedOutput(o: TxOutput) {
    |o.pubKeyHash| < U64
  }

  /// Counts the decoders' `int(count)` loops run in full, and well-formed items.
  predicate WellFormedTx(tx: Transaction) {
    |tx.vin| < 0x8000_0000_0000_0000 && |tx.vout| < 0x8000_0000_0000_0000
    && All(WellFormedInput, tx.vin) && All(WellFormedOutput, tx.vout)
  }

  lemma ReadVarBytesAt(data: seq<Byte>, pos: nat, d: seq<Byte>)
    requires |d| < U64 && At(data, pos, VarBytes(d))
    ensures ReadVarBytes(data, pos) == (d, pos + |VarBytes(d)|)
  {
    AtSplit(data, pos, EncodeVarInt(|d|), d);
    DecodeEncoded(|d|, data, pos);
    ReadFullAt(data, pos + |EncodeVarInt(|d|)|, d);
  }

  /// ParseInput from the results of its four reads.
  lemma ParseInputFrom(data: seq<Byte>, pos: nat, i: TxInput, p1: nat, p2: nat, p3: nat, p4: nat)
    requires WellFormedInput(i) && p1 == pos + |i.prevTxId| && p1 <= |data|
    requires ReadFull(data, pos, |i.prevTxId|).0 == i.prevTxId && ReadFull(data, pos, |i.prevTxId|).1 == p1
    requires ReadLE(data, p1, 4).0 == ToUint32(i.prevOutIndex) && ReadLE(data, p1, 4).1 == p2
    requires p2 <= |data| && ReadVarBytes(data, p2).0 == i.signature && ReadVarBytes(data, p2).1 == p3
    requires p3 <= |data| && ReadVarBytes(data, p3).0 == i.pubKey && ReadVarBytes(data, p3).1 == p4
    ensures ParseInput(data, pos).0 == i && ParseInput(data, pos).1 == p4
  {
  }

  /// The four reads of the input loop body, on an encoded input.
  lemma InputReads(i: TxInput, data: seq<Byte>, pos: nat) returns (p1: nat, p2: nat, p3: nat, p4: nat)
    requires WellFormedInput(i) && At(data, pos, InputBytes(i))
    ensures p1 == pos + |i.prevTxId| && p1 <= |data|
    ensures ReadFull(data, pos, |i.prevTxId|).0 == i.prevTxId && ReadFull(data, pos, |i.prevTxId|).1 == p1
    ensures ReadLE(data, p1, 4).0 == ToUint32(i.prevOutIndex) && ReadLE(data, p1, 4).1 == p2
    ensures p2 <= |data| && ReadVarBytes(data, p2).0 == i.signature && ReadVarBytes(data, p2).1 == p3
    ensures p3 <= |data| && ReadVarBytes(data, p3).0 == i.pubKey && ReadVarBytes(data, p3).1 == p4
    ensures p4 == pos + |InputBytes(i)|
  {
    Pow256Of4();
    var index := ToUint32(i.prevOutIndex);
    var idx := LE(index, 4);
    AtSplit4(data, pos, i.prevTxId, idx, VarBytes(i.signature), VarBytes(i.pubKey));
    p1 := pos + |i.prevTxId|;
    p2 := p1 + |idx|;
    p3 := p2 + |VarBytes(i.signature)|;
    p4 := p3 + |VarBytes(i.pubKey)|;
    ReadFullAt(data, pos, i.prevTxId);
    ReadLEAt(data, p1, index, 4);
    ReadVarBytesAt(data, p2, i.signature);
    ReadVarBytesAt(data, p3, i.pubKey);
  }

  lemma ParseInputRoundTrip(i: TxInput, data: seq<Byte>, pos: nat)
    requires WellFormedInput(i) && At(data, pos, InputBytes(i))
    ensures ParseInput(data, pos).0 == i && ParseInput(data, pos).1 == pos + |InputBytes(i)|
  {
    var p1, p2, p3, p4 := InputReads(i, data, pos);
    ParseInputFrom(data, pos, i, p1, p2, p3, p4);
  }

  /// ParseInput is a loop body: it reads at any position and stays within the input.
  lemma InputReader()
    ensures Reader(ParseInput)
  {
  }

  /// The loop body reads back every well-formed input, wherever it sits.
  lemma InputDecodes()
    ensures Reader(ParseInput) && Decodes(ParseInput, InputBytes, WellFormedInput)
  {
    InputReader();
    ParseInputAnywhere();
  }

  lemma ParseInputAnywhere()
    ensures forall x, d: seq<Byte>, p: nat {:trigger At(d, p, InputBytes(x))} |
      WellFormedInput(x) && At(d, p, InputBytes(x)) :: ParseInput(d, p).0 == x && ParseInput(d, p).1 == p + |InputBytes(x)|
  {
    forall x, d: seq<Byte>, p: nat | WellFormedInput(x) && At(d, p, InputBytes(x))
      ensures ParseInput(d, p).0 == x && ParseInput(d, p).1 == p + |InputBytes(x)|
    {
      ParseInputRoundTrip(x, d, p);
    }
  }

  /// The decoders' input loop reads back every list of well-formed inputs.
  lemma InputsRoundTrip(vin: seq<TxInput>, data: seq<Byte>, pos: nat)
    requires All(WellFormedInput, vin) && At(data, pos, Concat(InputBytes, vin))
    ensures Repeat(ParseInput, data, pos, |vin|).0 == vin
    ensures Repeat(ParseInput, data, pos, |vin|).1 == pos + |Concat(InputBytes, vin)|
  {
    InputDecodes();
    RepeatRoundTrip(ParseInput, InputBytes, WellFormedInput, vin, data, pos);
  }

  lemma ParseOutputRoundTrip(o: TxOutput, data: seq<Byte>, pos: nat)
    requires WellFormedOutput(o) && At(data, pos, OutputBytes(o))
    ensures ParseOutput(data, pos).0 == o && ParseOutput(data, pos).1 == pos + |OutputBytes(o)|
  {
    Pow256Of8();
    var value := LE(ToUint64(o.value), 8);
    AtSplit(data, pos, value, VarBytes(o.pubKeyHash));
    ReadLEAt(data, pos, ToUint64(o.value), 8);
    ReadVarBytesAt(data, pos + |value|, o.pubKeyHash);
  }

  /// ParseOutput is a loop body: it reads at any position and stays within the input.
  lemma OutputReader()
    ensures Reader(ParseOutput)
  {
  }

  /// The loop body reads back every well-formed output, wherever it sits.
  lemma OutputDecodes()
    ensures Reader(ParseOutput) && Decodes(ParseOutput, OutputBytes, WellFormedOutput)
  {
    OutputReader();
    ParseOutputAnywhere();
  }

  lemma ParseOutputAnywhere()
    ensures forall x, d: seq<Byte>, p: nat {:trigger At(d, p, OutputBytes(x))} |
      WellFormedOutput(x) && At(d, p, OutputBytes(x)) :: ParseOutput(d, p).0 == x && ParseOutput(d, p).1 == p + |OutputBytes(x)|
  {
    forall x, d: seq<Byte>, p: nat | WellFormedOutput(x) && At(d, p, OutputBytes(x))
      ensures ParseOutput(d, p).0 == x && ParseOutput(d, p).1 == p + |OutputBytes(x)|
    {
      ParseOutputRoundTrip(x, d, p);
    }
  }

  /// The decoders' output loop reads back every list of well-formed outputs.
  lemma OutputsRoundTrip(vout: seq<TxOutput>, data: seq<Byte>, pos: nat)
    requires All(WellFormedOutput, vout) && At(data, pos, Concat(OutputBytes, vout))
    ensures Repeat(ParseOutput, data, pos, |vout|).0 == vout
    ensures Repeat(ParseOutput, data, pos, |vout|).1 == pos + |Concat(OutputBytes, vout)|
  {
    OutputDecodes();
    RepeatRoundTrip(ParseOutput, OutputBytes, WellFormedOutput, vout, data, pos);
  }

  /// ParseTransaction from the results of its six reads.
  lemma ParseTransactionFrom(data: seq<Byte>, pos: nat, tx: Transaction,
                             p1: nat, p2: nat, p3: nat, p4: nat, p5: nat, p6: nat)
    requires pos <= |data| && |tx.vin| < 0x8000_0000_0000_0000 && |tx.vout| < 0x8000_0000_0000_0000
    requires ReadLE(data, pos, 4).0 == ToUint32(tx.version) && ReadLE(data, pos, 4).1 == p1
    requires p1 <= |data| && ReadVarInt(data, p1).0 == |tx.vin| && ReadVarInt(data, p1).1 == p2
    requires p2 <= |data| && Repeat(ParseInput, data, p2, |tx.vin|).0 == tx.vin && Repeat(ParseInput, data, p2, |tx.vin|).1 == p3
    requires p3 <= |data| && ReadVarInt(data, p3).0 == |tx.vout| && ReadVarInt(data, p3).1 == p4
    requires p4 <= |data| && Repeat(ParseOutput, data, p4, |tx.vout|).0 == tx.vout && Repeat(ParseOutput, data, p4, |tx.vout|).1 == p5
    requires p5 <= |data| && ReadLE(data, p5, 4).0 == tx.lockTime && ReadLE(data, p5, 4).1 == p6
    ensures ParseTransaction(data, pos).0 == tx.(id := [], fee := 0) && ParseTransaction(data, pos).1 == p6
  {
    assert LoopCount(|tx.vin|) == |tx.vin| && LoopCount(|tx.vout|) == |tx.vout|;
  }

  /// The six fields of an encoded transaction, each at its offset.
  lemma TxPieces(tx: Transaction, data: seq<Byte>, pos: nat) returns (p1: nat, p2: nat, p3: nat, p4: nat, p5: nat, p6: nat)
    requires At(data, pos, TxBytes(tx))
    ensures At(data, pos, LE(ToUint32(tx.version), 4)) && p1 == pos + 4
    ensures At(data, p1, EncodeVarInt(|tx.vin|)) && p2 == p1 + |EncodeVarInt(|tx.vin|)|
    ensures At(data, p2, Concat(InputBytes, tx.vin)) && p3 == p2 + |Concat(InputBytes, tx.vin)|
    ensures At(data, p3, EncodeVarInt(|tx.vout|)) && p4 == p3 + |EncodeVarInt(|tx.vout|)|
    ensures At(data, p4, Concat(OutputBytes, tx.vout)) && p5 == p4 + |Concat(OutputBytes, tx.vout)|
    ensures At(data, p5, LE(tx.lockTime, 4)) && p6 == p5 + 4 && p6 == pos + |TxBytes(tx)|
  {
    var version := LE(ToUint32(tx.version), 4);
    var vinCount := EncodeVarInt(|tx.vin|);
    var inputs := Concat(InputBytes, tx.vin);
    var voutCount := EncodeVarInt(|tx.vout|);
    var outputs := Concat(OutputBytes, tx.vout);
    p1, p2, p3, p4, p5, p6 := AtSplit6(data, pos, version, vinCount, inputs, voutCount, outputs, LE(tx.lockTime, 4));
  }

  /// The first three reads of the decoders, on an encoded transaction: the
  /// version, the input count and the inputs.
  lemma TxHeadReads(tx: Transaction, data: seq<Byte>, pos: nat, p1: nat, p2: nat, p3: nat)
    requires |tx.vin| < U64 && All(WellFormedInput, tx.vin)
    requires At(data, pos, LE(ToUint32(tx.version), 4)) && p1 == pos + 4
    requires At(data, p1, EncodeVarInt(|tx.vin|)) && p2 == p1 + |EncodeVarInt(|tx.vin|)|
    requires At(data, p2, Concat(InputBytes, tx.vin)) && p3 == p2 + |Concat(InputBytes, tx.vin)|
    ensures ReadLE(data, pos, 4).0 == ToUint32(tx.version) && ReadLE(data, pos, 4).1 == p1
    ensures p1 <= |data| && ReadVarInt(data, p1).0 == |tx.vin| && ReadVarInt(data, p1).1 == p2
    ensures p2 <= |data| && Repeat(ParseInput, data, p2, |tx.vin|).0 == tx.vin
    ensures Repeat(ParseInput, data, p2, |tx.vin|).1 == p3
  {
    Pow256Of4();
    ReadLEAt(data, pos, ToUint32(tx.version), 4);
    DecodeEncoded(|tx.vin|, data, p1);
    InputsRoundTrip(tx.vin, data, p2);
  }

  /// The last three reads of the decoders, on an encoded transaction: the
  /// output count, the outputs and the lock time.
  lemma TxTailReads(tx: Transaction, data: seq<Byte>, p3: nat, p4: nat, p5: nat, p6: nat)
    requires |tx.vout| < U64 && All(WellFormedOutput, tx.vout)
    requires At(data, p3, EncodeVarInt(|tx.vout|)) && p4 == p3 + |EncodeVarInt(|tx.vout|)|
    requires At(data, p4, Concat(OutputBytes, tx.vout)) && p5 == p4 + |Concat(OutputBytes, tx.vout)|
    requires At(data, p5, LE(tx.lockTime, 4)) && p6 == p5 + 4
    ensures p3 <= |data| && ReadVarInt(data, p3).0 == |tx.vout| && ReadVarInt(data, p3).1 == p4
    ensures p4 <= |data| && Repeat(ParseOutput, data, p4, |tx.vout|).0 == tx.vout
    ensures Repeat(ParseOutput, data, p4, |tx.vout|).1 == p5
    ensures p5 <= |data| && ReadLE(data, p5, 4).0 == tx.lockTime && ReadLE(data, p5, 4).1 == p6
  {
    Pow256Of4();
    DecodeEncoded(|tx.vout|, data, p3);
    OutputsRoundTrip(tx.vout, data, p4);
    ReadLEAt(data, p5, tx.lockTime, 4);
  }

  /// A well-formed transaction read back from anywhere in a buffer that holds
  /// its serialisation: every wire field is recovered and the reader stops right
  /// after it.
  lemma ParseTransactionRoundTrip(tx: Transaction, data: seq<Byte>, pos: nat)
    requires WellFormedTx(tx) && At(data, pos, TxBytes(tx))
    ensures ParseTransaction(data, pos).0 == tx.(id := [], fee := 0)
    ensures ParseTransaction(data, pos).1 == pos + |TxBytes(tx)|
  {
    var p1, p2, p3, p4, p5, p6 := TxPieces(tx, data, pos);
    TxHeadReads(tx, data, pos, p1, p2, p3);
    TxTailReads(tx, data, p3, p4, p5, p6);
    ParseTransactionFrom(data, pos, tx, p1, p2, p3, p4, p5, p6);
  }

  /// DeserializeTransaction inverts Serialize on well-formed transactions.
  lemma DeserializeSerialized(tx: Transaction)
    requires WellFormedTx(tx)
    ensures ParseTransaction(TxBytes(tx), 0).0 == tx.(id := [], fee := 0)
  {
    assert TxBytes(tx)[0..|TxBytes(tx)|] == TxBytes(tx);
    ParseTransactionRoundTrip(tx, TxBytes(tx), 0);
  }

  /// An index of -1, as a coinbase input carries, goes on the wire as
  /// ff ff ff ff right after the previous id, whatever that id's length. Only
  /// behind a 32-byte id does the decoder find it there, and then it comes back
  /// as 4294967295.
  lemma CoinbaseIndexOnTheWire(i: TxInput)
    requires i.prevOutIndex == -1
    ensures |InputBytes(i)| >= |i.prevTxId| + 4
    ensures InputBytes(i)[|i.prevTxId|..|i.prevTxId| + 4] == [0xff, 0xff, 0xff, 0xff]
    ensures |i.prevTxId| == 32 ==> ParseInput(InputBytes(i), 0).0.prevOutIndex == 0xffff_ffff
  {
    var data := InputBytes(i);
    var n := |i.prevTxId|;
    var idx := LE(ToUint32(i.prevOutIndex), 4);
    assert ToUint32(i.prevOutIndex) == 0xffff_ffff;
    assert data[0..|data|] == data;
    AtSplit4(data, 0, i.prevTxId, idx, VarBytes(i.signature), VarBytes(i.pubKey));
    AllOnes();
    if n == 32 {
      Pow256Of4();
      ReadLEAt(data, 32, 0xffff_ffff, 4);
      assert ReadFull(data, 0, 32).1 == 32;
    }
  }

  lemma AllOnes()
    ensures LE(0xffff_ffff, 4) == [0xff, 0xff, 0xff, 0xff]
  {
    assert Pow256(1) == 0x100 && Pow256(2) == 0x1_0000 && Pow256(3) == 0x100_0000;
  }

  // ---------------------------------------------------------------------------
  // The fee: the values of the outputs the inputs spend, less the values of the
  // transaction's own outputs, in int64 arithmetic.

  const HEX_DIGITS: string := "0123456789abcdef"

  /// hex.EncodeToString: two lower-case digits per byte, high nibble first.
  function Hex(b: seq<Byte>): (s: string)
    ensures |s| == 2 * |b|
  {
    if b == [] then "" else [HEX_DIGITS[b[0] / 16], HEX_DIGITS[b[0] % 16]] + Hex(b[1..])
  }

  /// Byte `k` becomes characters `2k` (its high nibble) and `2k + 1` (its low
  /// nibble).
  lemma {:induction false} HexDigits(b: seq<Byte>)
    ensures forall k :: 0 <= k < |b| ==>
      Hex(b)[2 * k] == HEX_DIGITS[b[k] / 16] && Hex(b)[2 * k + 1] == HEX_DIGITS[b[k] % 16]
    decreases |b|
  {
    if b != [] {
      HexDigits(b[1..]);
      forall k | 1 <= k < |b|
        ensures Hex(b)[2 * k] == HEX_DIGITS[b[k] / 16] && Hex(b)[2 * k + 1] == HEX_DIGITS[b[k] % 16]
      {
        assert Hex(b)[2 * k] == Hex(b[1..])[2 * (k - 1)];
        assert Hex(b)[2 * k + 1] == Hex(b[1..])[2 * (k - 1) + 1];
      }
    }
  }

  lemma HexDigitsIncrease()
    ensures forall a, b :: 0 <= a < b < 16 ==> HEX_DIGITS[a] < HEX_DIGITS[b]
  {
  }

  /// Distinct ids give distinct map keys.
  lemma HexInjective(a: seq<Byte>, b: seq<Byte>)
    requires Hex(a) == Hex(b)
    ensures a == b
  {
    HexDigitsIncrease();
    HexDigits(a);
    HexDigits(b);
    forall k | 0 <= k < |a|
      ensures a[k] == b[k]
    {
      assert Hex(a)[2 * k] == Hex(b)[2 * k] && Hex(a)[2 * k + 1] == Hex(b)[2 * k + 1];
      assert a[k] / 16 == b[k] / 16 && a[k] % 16 == b[k] % 16;
    }
  }

  /// Go's int64 addition and subtraction: the exact result wrapped into range.
  function Wrap64(x: int): (w: Int64)
    ensures -0x8000_0000_0000_0000 <= x < 0x8000_0000_0000_0000 ==> w == x
    ensures (w - x) % U64 == 0
  {
    Signed64(ToUint64(x))
  }

  /// Values that agree modulo 2^64 wrap to the same int64: wrapping after
  /// every step of a sum is wrapping once at the end.
  lemma WrapCongruent(x: int, y: int)
    requires (x - y) % U64 == 0
    ensures Wrap64(x) == Wrap64(y)
  {
    assert ToUint64(x) == ToUint64(y);
  }

  /// Adding to a wrapped running sum is adding to the exact sum, then wrapping.
  lemma WrapAdd(acc: int, exact: int, v: int)
    requires acc == Wrap64(exact)
    ensures Wrap64(acc + v) == Wrap64(exact + v)
  {
    WrapCongruent(acc + v, exact + v);
  }

  /// Differences of values congruent modulo 2^64 are congruent.
  lemma SubCongruent(a: int, x: int, b: int, y: int)
    requires (a - x) % U64 == 0 && (b - y) % U64 == 0
    ensures ((a - b) - (x - y)) % U64 == 0
  {
    var k1, k2 := (a - x) / U64, (b - y) / U64;
    assert a - x == U64 * k1 && b - y == U64 * k2;
    assert (a - b) - (x - y) == U64 * (k1 - k2);
  }

  /// Input `i` can be resolved: its previous transaction is in the map and has
  /// an output at its index. Otherwise the lookup yields an empty transaction or
  /// the index is out of range, and the source panics.
  predicate Resolves(prevTxs: map<string, Transaction>, i: TxInput) {
    Hex(i.prevTxId) in prevTxs && 0 <= i.prevOutIndex < |prevTxs[Hex(i.prevTxId)].vout|
  }

  function SpentValue(prevTxs: map<string, Transaction>, i: TxInput): Int64
    requires Resolves(prevTxs, i)
  {
    prevTxs[Hex(i.prevTxId)].vout[i.prevOutIndex].value
  }

  /// The exact sum of the values the inputs spend, or the panic of the first
  /// input that cannot be resolved.
  function InputSum(prevTxs: map<string, Transaction>, vin: seq<TxInput>): (r: Result<int>)
    ensures r.Success? <==> forall k :: 0 <= k < |vin| ==> Resolves(prevTxs, vin[k])
    ensures r.Failure? ==> r.error == UnresolvedInput
    decreases |vin|
  {
    if vin == [] then Success(0)
    else
      match InputSum(prevTxs, vin[..|vin| - 1])
      case Failure(e) => Failure(e)
      case Success(s) =>
        if Resolves(prevTxs, vin[|vin| - 1]) then Success(s + SpentValue(prevTxs, vin[|vin| - 1]))
        else Failure(UnresolvedInput)
  }

  function OutputSum(vout: seq<TxOutput>): int
    decreases |vout|
  {
    if vout == [] then 0 else OutputSum(vout[..|vout| - 1]) + vout[|vout| - 1].value
  }

  /// What CalculateFee returns: the exact difference wrapped to int64, or a
  /// failure when an input cannot be resolved.
  function Fee(prevTxs: map<string, Transaction>, tx: Transaction): Result<Int64> {
    match InputSum(prevTxs, tx.vin)
    case Failure(e) => Failure(e)
    case Success(s) => Success(Wrap64(s - OutputSum(tx.vout)))
  }

  /// Transaction.CalculateFee: the two accumulating loops, then the difference,
  /// all in int64.
  method CalculateFee(tx: Transaction, prevTxs: map<string, Transaction>) returns (r: Result<Int64>)
    ensures r == Fee(prevTxs, tx)
  {
    var spent := SumSpent(tx.vin, prevTxs);
    if spent.Failure? {
      return Failure(spent.error);
    }
    var inputSum := spent.value;
    var outputSum := SumValues(tx.vout);
    SubCongruent(inputSum, InputSum(prevTxs, tx.vin).value, outputSum, OutputSum(tx.vout));
    WrapCongruent(inputSum as int - outputSum as int, InputSum(prevTxs, tx.vin).value - OutputSum(tx.vout));
    r := Success(Wrap64(inputSum as int - outputSum as int));
  }

  /// The first loop of CalculateFee: looks up the spent output of every input by
  /// the hex form of its previous id and adds its value; an input that cannot be
  /// resolved panics.
  method SumSpent(vin: seq<TxInput>, prevTxs: map<string, Transaction>) returns (r: Result<Int64>)
    ensures InputSum(prevTxs, vin).Failure? ==> r == Failure(UnresolvedInput)
    ensures InputSum(prevTxs, vin).Success? ==> r == Success(Wrap64(InputSum(prevTxs, vin).value))
  {
    var inputSum: Int64 := 0;
    var i := 0;
    while i < |vin|
      invariant 0 <= i <= |vin|
      invariant InputSum(prevTxs, vin[..i]).Success?
      invariant inputSum == Wrap64(InputSum(prevTxs, vin[..i]).value)
    {
      var input := vin[i];
      var key := Hex(input.prevTxId);
      if !(key in prevTxs && 0 <= input.prevOutIndex < |prevTxs[key].vout|) {
        assert !Resolves(prevTxs, vin[i]);
        return Failure(UnresolvedInput);
      }
      var prevTx := prevTxs[key];
      var value := prevTx.vout[input.prevOutIndex].value;
      assert value == SpentValue(prevTxs, vin[i]);
      InputSumSnoc(prevTxs, vin, i);
      WrapAdd(inputSum, InputSum(prevTxs, vin[..i]).value, value);
      inputSum := Wrap64(inputSum + value);
      i := i + 1;
    }
    assert vin[..i] == vin;
    r := Success(inputSum);
  }

  /// The second loop of CalculateFee: the outputs' values summed in int64.
  method SumValues(vout: seq<TxOutput>) returns (sum: Int64)
    ensures sum == Wrap64(OutputSum(vout))
  {
    sum := 0;
    var j := 0;
    while j < |vout|
      invariant 0 <= j <= |vout|
      invariant sum == Wrap64(OutputSum(vout[..j]))
    {
      assert vout[..j + 1][..j] == vout[..j];
      WrapAdd(sum, OutputSum(vout[..j]), vout[j].value);
      sum := Wrap64(sum + vout[j].value);
      j := j + 1;
    }
    assert vout[..j] == vout;
  }

  /// One more resolved input adds its spent value to the sum.
  lemma InputSumSnoc(prevTxs: map<string, Transaction>, vin: seq<TxInput>, i: nat)
    requires i < |vin| && InputSum(prevTxs, vin[..i]).Success? && Resolves(prevTxs, vin[i])
    ensures InputSum(prevTxs, vin[..i + 1]) == Success(InputSum(prevTxs, vin[..i]).value + SpentValue(prevTxs, vin[i]))
  {
    assert vin[..i + 1][..i] == vin[..i];
  }

  /// The fee is the exact difference whenever that difference fits an int64.
  lemma FeeExact(prevTxs: map<string, Transaction>, tx: Transaction)
    requires forall k :: 0 <= k < |tx.vin| ==> Resolves(prevTxs, tx.vin[k])
    requires -0x8000_0000_0000_0000 <= InputSum(prevTxs, tx.vin).value - OutputSum(tx.vout) < 0x8000_0000_0000_0000
    ensures Fee(prevTxs, tx) == Success(InputSum(prevTxs, tx.vin).value - OutputSum(tx.vout))
  {
  }
}
