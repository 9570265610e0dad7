/// Bitcoin's CompactSize integer (utils.go): one byte below 0xfd, otherwise a tag
/// byte 0xfd, 0xfe or 0xff followed by the value in 2, 4 or 8 little-endian
/// bytes; and byte strings prefixed by their length in that form.
module VarInt {
  import opened Wire

  /// encodeVarInt. Its argument is a Go `uint64`, and every caller passes a
  /// slice length, below 2^63. For a `nat` of 2^64 or more the tag is 0xff
  /// and the low 64 bits of the value follow it.
  function EncodeVarInt(v: nat): (r: seq<Byte>)
    ensures v < 0xfd ==> r == [v]
    ensures 0xfd <= v <= 0xffff ==> |r| == 3 && r[0] == 0xfd && FromLE(r[1..]) == v
    ensures 0xffff < v <= 0xffff_ffff ==> |r| == 5 && r[0] == 0xfe && FromLE(r[1..]) == v
    ensures 0xffff_ffff < v ==> |r| == 9 && r[0] == 0xff && FromLE(r[1..]) == ToUint64(v)
  {
    if v < 0xfd then [v]
    else if v <= 0xffff then Tagged(0xfd, v, 2)
    else if v <= 0xffff_ffff then Tagged(0xfe, v, 4)
    else Tagged(0xff, ToUint64(v), 8)
  }

  /// A tag byte followed by `w` little-endian bytes of `v`.
  function Tagged(tag: Byte, v: nat, w: nat): (r: seq<Byte>)
    requires v < Pow256(w)
    ensures |r| == w + 1 && r[0] == tag && FromLE(r[1..]) == v
  {
    FromLEOfLE(v, w);
    var r := [tag] + LE(v, w);
    assert r[1..] == LE(v, w);
    r
  }

  /// How many value bytes follow a tag byte.
  function PayloadWidth(tag: Byte): nat {
    if tag == 0xfd then 2 else if tag == 0xfe then 4 else if tag == 0xff then 8 else 0
  }

  lemma PayloadFitsUint64(tag: Byte)
    ensures Pow256(PayloadWidth(tag)) <= U64
  {
    Pow256Of4();
    Pow256Of8();
    assert Pow256(2) == 0x1_0000;
  }

  /// decodeVarInt on a reader at `pos`: the value and the cursor after it, or
  /// io.EOF when nothing is left and the error of binary.Read when the tag is
  /// not followed by its full width. The three tagged cases of the source's
  /// switch differ only in the width they read, so they share one read here.
  function DecodeVarInt(data: seq<Byte>, pos: nat): (r: Result<(nat, nat)>)
    requires pos <= |data|
    ensures pos == |data| ==> r == Failure(EndOfInput)
    ensures pos < |data| ==>
      (r.Success? <==> pos + 1 + PayloadWidth(data[pos]) <= |data|)
    ensures r.Success? ==> r.value.1 == pos + 1 + PayloadWidth(data[pos]) && r.value.0 < U64
    ensures r.Success? && data[pos] < 0xfd ==> r.value.0 == data[pos]
  {
    if pos == |data| then Failure(EndOfInput)
    else
      var tag := data[pos];
      if tag < 0xfd then Success((tag, pos + 1))
      else
        PayloadFitsUint64(tag);
        ReadUint(data, pos + 1, PayloadWidth(tag))
  }

  /// decodeVarInt where the caller discards the error (`n, _ := decodeVarInt(r)`):
  /// zero, with the reader at the end of the input.
  function ReadVarInt(data: seq<Byte>, pos: nat): (r: (nat, nat))
    requires pos <= |data|
    ensures r.0 < U64 && pos <= r.1 <= |data|
  {
    match DecodeVarInt(data, pos)
    case Success(x) => x
    case Failure(_) => (0, |data|)
  }

  /// appendVarInt: the source's own case split, appending to the caller's buffer.
  function AppendVarInt(buf: seq<Byte>, v: nat): (r: seq<Byte>)
    ensures r == buf + EncodeVarInt(v)
  {
    if v < 0xfd then
      buf + [v]
    else if v <= 0xffff then
      var payload := LE(v, 2);
      assert (buf + [0xfd]) + payload == buf + ([0xfd] + payload);
      (buf + [0xfd]) + payload
    else if v <= 0xffff_ffff then
      var payload := LE(v, 4);
      assert (buf + [0xfe]) + payload == buf + ([0xfe] + payload);
      (buf + [0xfe]) + payload
    else
      var payload := LE(ToUint64(v), 8);
      assert (buf + [0xff]) + payload == buf + ([0xff] + payload);
      (buf + [0xff]) + payload
  }

  /// A byte string on the wire: its length as a varint, then the bytes.
  function VarBytes(d: seq<Byte>): (r: seq<Byte>)
    ensures |r| == |EncodeVarInt(|d|)| + |d|
  {
    EncodeVarInt(|d|) + d
  }

  /// appendVarBytes: the length prefix, then the bytes themselves.
  function AppendVarBytes(buf: seq<Byte>, d: seq<Byte>): (r: seq<Byte>)
    ensures r == buf + VarBytes(d)
  {
    AppendVarInt(buf, |d|) + d
  }

  /// The encoding is 1, 3, 5 or 9 bytes long, by the smallest width that holds
  /// the value.
  lemma EncodedLength(v: nat)
    ensures |EncodeVarInt(v)| == if v < 0xfd then 1 else if v <= 0xffff then 3
                                 else if v <= 0xffff_ffff then 5 else 9
  {
  }

  /// The values quoted for the format: 252, 253 and 65536.
  lemma EncodeExamples()
    ensures EncodeVarInt(252) == [0xfc]
    ensures EncodeVarInt(253) == [0xfd, 0xfd, 0x00]
    ensures EncodeVarInt(65536) == [0xfe, 0x00, 0x00, 0x01, 0x00]
  {
  }

  /// Decoding an encoded value, wherever it sits in the input, gives the value
  /// back and leaves the cursor just after it.
  lemma {:induction false} DecodeEncoded(v: nat, data: seq<Byte>, pos: nat)
    requires v < U64 && At(data, pos, EncodeVarInt(v))
    ensures DecodeVarInt(data, pos) == Success((v, pos + |EncodeVarInt(v)|))
    ensures ReadVarInt(data, pos) == (v, pos + |EncodeVarInt(v)|)
  {
    var e := EncodeVarInt(v);
    assert data[pos] == e[0];
    if v >= 0xfd {
      assert data[pos + 1..pos + |e|] == e[1..];
    }
  }

  /// A first byte below 0xfd is the value and consumes exactly one byte.
  lemma DecodeSingleByte(data: seq<Byte>, pos: nat)
    requires pos < |data| && data[pos] < 0xfd
    ensures DecodeVarInt(data, pos).Success?
    ensures DecodeVarInt(data, pos).value.0 == data[pos] && DecodeVarInt(data, pos).value.1 == pos + 1
  {
  }

  /// Appending keeps the existing buffer as a prefix.
  lemma AppendKeepsPrefix(buf: seq<Byte>, v: nat)
    ensures |AppendVarInt(buf, v)| > |buf| && AppendVarInt(buf, v)[..|buf|] == buf
  {
  }
}
