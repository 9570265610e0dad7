/// Byte-level vocabulary shared by every codec of the chain: bytes, Go's
/// fixed-width integers and their conversions, little- and big-endian integers,
/// the failure type that stands for the source's panics and discarded errors, the
/// hash function, and the `bytes.Reader` that the decoders advance.
module Wire {

  type Byte = b: int | 0 <= b < 256

  const U32: nat := 0x1_0000_0000
  const U64: nat := 0x1_0000_0000_0000_0000

  type Uint32 = x: int | 0 <= x < 0x1_0000_0000
  type Uint64 = x: int | 0 <= x < 0x1_0000_0000_0000_0000
  type Int32 = x: int | -0x8000_0000 <= x < 0x8000_0000
  type Int64 = x: int | -0x8000_0000_0000_0000 <= x < 0x8000_0000_0000_0000

  /// Every way an operation of the core can stop: the errors it returns and the
  /// panics (`panic`, `log.Panic`, `os.Exit`, a nil dereference, an index out of
  /// range) it raises.
  datatype Error =
    | EndOfInput             // io.EOF: nothing left to read
    | UnexpectedEndOfInput   // io.ErrUnexpectedEOF: a value was cut short
    | ShortHeader            // fewer than 80 bytes where a header is read
    | BadPrevHashLength      // BlockHeader.Validate: PrevBlockHash is not 32 bytes
    | BadMerkleRootLength    // BlockHeader.Validate: MerkleRoot is not 32 bytes
    | InvalidBits            // BitsToTarget: zero mantissa or exponent below 3
    | HeaderNot80Bytes       // Run: the serialised header is not 80 bytes
    | NonceExhausted         // Run: no nonce below 0xffffffff meets the target
    | UnresolvedInput        // CalculateFee: the referenced output does not exist
    | InvalidBase58Character // Base58Decode: a byte outside the alphabet
    | AlreadyExists          // InitBlockchain on an existing store
    | NotFound               // ContinueBlockchain on a missing store
    | MissingKey             // a store lookup of a key that is not there

  datatype Result<T> = Success(value: T) | Failure(error: Error)

  datatype Outcome = Pass | Fail(error: Error)

  /// SHA-256, kept uninterpreted: any function whose digests are 32 bytes long.
  type Hasher = f: seq<Byte> -> seq<Byte> | forall m :: |f(m)| == 32 witness ZeroDigest

  function ZeroDigest(m: seq<Byte>): seq<Byte> { Zeros(32) }

  function Zeros(n: nat): (z: seq<Byte>)
    ensures |z| == n && forall i :: 0 <= i < n ==> z[i] == 0
  {
    seq(n, _ => 0)
  }

  /// Go's `uint32(x)`: two's-complement truncation to 32 bits.
  function ToUint32(x: int): (u: Uint32)
    ensures 0 <= x < U32 ==> u == x
    ensures -0x8000_0000 <= x < 0x8000_0000 ==> Signed32(u) == x
  {
    x % U32
  }

  /// Go's `uint64(x)`: two's-complement truncation to 64 bits.
  function ToUint64(x: int): (u: Uint64)
    ensures 0 <= x < U64 ==> u == x
    ensures -0x8000_0000_0000_0000 <= x < 0x8000_0000_0000_0000 ==> Signed64(u) == x
  {
    x % U64
  }

  /// Go's `int32(u)` for a `uint32` u.
  function Signed32(u: Uint32): Int32 {
    if u < 0x8000_0000 then u else u - U32
  }

  /// Go's `int(u)` (64-bit) for a `uint64` u.
  function Signed64(u: Uint64): Int64 {
    if u < 0x8000_0000_0000_0000 then u else u - U64
  }

  function Pow256(n: nat): (p: nat)
    ensures p >= 1
  {
    if n == 0 then 1 else 256 * Pow256(n - 1)
  }

  lemma Pow256Of4()
    ensures Pow256(4) == U32
  {
  }

  lemma Pow256Of8()
    ensures Pow256(8) == U64
  {
  }

  /// binary.LittleEndian.PutUintN(b[off:], v): the `w` bytes of `v` are written
  /// over `b[off..off + w]` in place, and nothing else in `b` changes.
  method PutUint(b: array<Byte>, off: nat, v: nat, w: nat)
    requires off + w <= b.Length
    modifies b
    ensures b[..] == old(b[..off]) + LE(v, w) + old(b[off + w..])
  {
    var bytes := LE(v, w);
    forall k | off <= k < off + w {
      b[k] := bytes[k - off];
    }
    assert b[..] == old(b[..off]) + bytes + old(b[off + w..]);
  }

  /// binary.LittleEndian.PutUint32 into a 4-byte scratch buffer that the
  /// encoders reuse for every 32-bit field; the caller appends its bytes.
  method Put32(tmp4: array<Byte>, v: Uint32) returns (bytes: seq<Byte>)
    requires tmp4.Length == 4
    modifies tmp4
    ensures bytes == tmp4[..] == LE(v, 4)
  {
    PutUint(tmp4, 0, v, 4);
    bytes := tmp4[..];
    assert bytes == LE(v, 4);
  }

  /// The value of `s` read little-endian (binary.LittleEndian.UintN).
  function FromLE(s: seq<Byte>): (v: nat)
    ensures v < Pow256(|s|)
  {
    if s == [] then 0
    else
      var rest := FromLE(s[1..]);
      assert rest <= Pow256(|s| - 1) - 1;
      assert 256 * rest <= 256 * Pow256(|s| - 1) - 256;
      s[0] + 256 * rest
  }

  /// The low `w` bytes of `v`, least significant first
  /// (binary.LittleEndian.PutUintN after truncation to the width).
  function LE(v: nat, w: nat): (s: seq<Byte>)
    ensures |s| == w
  {
    seq(w, i requires 0 <= i < w => (v / Pow256(i)) % 256)
  }

  /// The first byte is the lowest; the rest are the bytes of `v / 256`.
  lemma LETail(v: nat, w: nat)
    requires w > 0
    ensures LE(v, w) == [v % 256] + LE(v / 256, w - 1)
  {
    forall i | 1 <= i < w
      ensures LE(v, w)[i] == LE(v / 256, w - 1)[i - 1]
    {
      DivDiv(v, 256, Pow256(i - 1));
    }
  }

  /// Reading the low `w` bytes back gives `v` whenever it fits in them.
  lemma {:induction false} FromLEOfLE(v: nat, w: nat)
    requires v < Pow256(w)
    ensures FromLE(LE(v, w)) == v
  {
    if w > 0 {
      LETail(v, w);
      assert v / 256 < Pow256(w - 1);
      FromLEOfLE(v / 256, w - 1);
      assert LE(v, w)[1..] == LE(v / 256, w - 1);
    }
  }

  lemma DivDiv(a: nat, b: nat, c: nat)
    requires b > 0 && c > 0
    ensures a / (b * c) == (a / b) / c
  {
    var q := (a / b) / c;
    var x := (a / b) % c;
    DivDivSum(a, b, c, q, x);
    DivDivBound(a % b, b, c, x);
    DivUnique(a, b * c, q, x * b + a % b);
  }

  /// Regrouping `a` by `b * c`: its quotient by `b` is `c * q + x`.
  lemma DivDivSum(a: nat, b: nat, c: nat, q: nat, x: nat)
    requires b > 0 && a / b == c * q + x
    ensures a == (b * c) * q + (x * b + a % b)
  {
    calc {
      a;
      b * (a / b) + a % b;
      b * (c * q + x) + a % b;
      { MulAdd(b, c * q, x); }
      b * (c * q) + b * x + a % b;
    }
  }

  /// The remainder part stays below `b * c`.
  lemma DivDivBound(y: nat, b: nat, c: nat, x: nat)
    requires y < b && x < c
    ensures x * b + y < b * c
  {
    MulLe(x, c - 1, b);
    assert (c - 1) * b == c * b - b;
  }

  lemma MulLe(x: nat, y: nat, m: nat)
    requires x <= y
    ensures x * m <= y * m
  {
  }

  lemma MulAdd(m: nat, x: nat, d: nat)
    ensures m * (x + d) == m * x + m * d
  {
  }

  /// Euclidean division has one quotient.
  lemma DivUnique(a: nat, m: nat, q: nat, r: nat)
    requires m > 0 && r < m && a == m * q + r
    ensures a / m == q
  {
    var q' := a / m;
    var r' := a % m;
    assert a == m * q' + r';
    if q' > q {
      MulAdd(m, q, q' - q);
      MulLe(1, q' - q, m);
    } else if q' < q {
      MulAdd(m, q', q - q');
      MulLe(1, q - q', m);
    }
  }

  /// The value of `s` read big-endian, most significant byte first
  /// (big.Int.SetBytes).
  function BE(s: seq<Byte>): (v: nat)
    ensures v < Pow256(|s|)
  {
    if s == [] then 0
    else
      var high := BE(s[..|s| - 1]);
      assert high <= Pow256(|s| - 1) - 1;
      assert 256 * high <= 256 * Pow256(|s| - 1) - 256;
      high * 256 + s[|s| - 1]
  }

  /// The shortest big-endian bytes of `n`: empty for zero, never a leading zero
  /// byte otherwise (big.Int.Bytes).
  function MinimalBE(n: nat): (s: seq<Byte>)
    ensures BE(s) == n
    ensures s == [] <==> n == 0
    ensures s != [] ==> s[0] != 0
  {
    if n == 0 then []
    else
      var s := MinimalBE(n / 256) + [n % 256];
      assert s[..|s| - 1] == MinimalBE(n / 256);
      s
  }

  /// Bytes without a leading zero are the minimal encoding of their own value.
  lemma {:induction false} MinimalBEOfBE(s: seq<Byte>)
    requires s == [] || s[0] != 0
    ensures MinimalBE(BE(s)) == s
  {
    if s != [] {
      var init := s[..|s| - 1];
      BEPositive(s);
      if init != [] {
        MinimalBEOfBE(init);
      }
      assert BE(s) == BE(init) * 256 + s[|s| - 1];
      DivModByte(BE(init), s[|s| - 1]);
      assert s == init + [s[|s| - 1]];
    }
  }

  lemma DivModByte(high: nat, low: Byte)
    ensures (high * 256 + low) / 256 == high && (high * 256 + low) % 256 == low
  {
  }

  /// Bytes starting with a non-zero byte have a positive value.
  lemma {:induction false} BEPositive(s: seq<Byte>)
    requires s != [] && s[0] != 0
    ensures BE(s) > 0
  {
    if |s| > 1 {
      BEPositive(s[..|s| - 1]);
    }
  }

  /// Leading zero bytes do not change a big-endian value.
  lemma {:induction false} BEZerosPrefix(k: nat, s: seq<Byte>)
    ensures BE(Zeros(k) + s) == BE(s)
    decreases |s|
  {
    if s == [] {
      assert Zeros(k) + s == Zeros(k);
      BEZeros(k);
    } else {
      var init := s[..|s| - 1];
      assert (Zeros(k) + s)[..|Zeros(k) + s| - 1] == Zeros(k) + init;
      BEZerosPrefix(k, init);
    }
  }

  lemma {:induction false} BEZeros(k: nat)
    ensures BE(Zeros(k)) == 0
  {
    if k > 0 {
      assert Zeros(k)[..k - 1] == Zeros(k - 1);
      BEZeros(k - 1);
    }
  }

  // ---------------------------------------------------------------------------
  // The bytes.Reader the decoders share, as the whole input and a cursor.

  /// The unread input at `pos` begins with `s`.
  predicate At(data: seq<Byte>, pos: nat, s: seq<Byte>) {
    pos + |s| <= |data| && data[pos..pos + |s|] == s
  }

  lemma AtSplit(data: seq<Byte>, pos: nat, a: seq<Byte>, b: seq<Byte>)
    requires At(data, pos, a + b)
    ensures At(data, pos, a) && At(data, pos + |a|, b)
  {
    assert data[pos..pos + |a|] == (a + b)[..|a|];
    assert data[pos + |a|..pos + |a| + |b|] == (a + b)[|a|..];
  }

  /// An input made of three pieces holds the second and the third at their
  /// offsets.
  lemma ThreeParts(data: seq<Byte>, a: seq<Byte>, b: seq<Byte>, c: seq<Byte>)
    requires data == a + b + c
    ensures At(data, |a|, b) && At(data, |a| + |b|, c)
  {
    assert data[|a|..|a| + |b|] == b;
    assert data[|a| + |b|..|a| + |b| + |c|] == c;
  }

  /// Four consecutive pieces of the input, each at its own offset.
  lemma AtSplit4(data: seq<Byte>, pos: nat, a: seq<Byte>, b: seq<Byte>, c: seq<Byte>, d: seq<Byte>)
    requires At(data, pos, a + b + c + d)
    ensures At(data, pos, a) && At(data, pos + |a|, b)
    ensures At(data, pos + |a| + |b|, c) && At(data, pos + |a| + |b| + |c|, d)
  {
    AtSplit(data, pos, a + b + c, d);
    AtSplit(data, pos, a + b, c);
    AtSplit(data, pos, a, b);
  }

  /// Six consecutive pieces of the input, and the offset after each.
  lemma AtSplit6(data: seq<Byte>, pos: nat, a: seq<Byte>, b: seq<Byte>, c: seq<Byte>,
                 d: seq<Byte>, e: seq<Byte>, f: seq<Byte>) returns (p1: nat, p2: nat, p3: nat, p4: nat, p5: nat, p6: nat)
    requires At(data, pos, a + b + c + d + e + f)
    ensures At(data, pos, a) && p1 == pos + |a|
    ensures At(data, p1, b) && p2 == p1 + |b|
    ensures At(data, p2, c) && p3 == p2 + |c|
    ensures At(data, p3, d) && p4 == p3 + |d|
    ensures At(data, p4, e) && p5 == p4 + |e|
    ensures At(data, p5, f) && p6 == p5 + |f| && p6 == pos + |a + b + c + d + e + f|
  {
    AtSplit(data, pos, a + b + c + d + e, f);
    AtSplit(data, pos, a + b + c + d, e);
    AtSplit4(data, pos, a, b, c, d);
    p1 := pos + |a|;
    p2 := p1 + |b|;
    p3 := p2 + |c|;
    p4 := p3 + |d|;
    p5 := p4 + |e|;
    p6 := p5 + |f|;
  }

  /// io.ReadFull into a fresh `n`-byte buffer: the bytes that are left, then zeros
  /// where the input ran out (the buffer keeps its zero fill); the cursor never
  /// passes the end.
  function ReadFull(data: seq<Byte>, pos: nat, n: nat): (r: (seq<Byte>, nat))
    requires pos <= |data|
    ensures |r.0| == n && pos <= r.1 <= |data|
  {
    if pos + n <= |data| then (data[pos..pos + n], pos + n)
    else (data[pos..] + Zeros(n - (|data| - pos)), |data|)
  }

  /// io.ReadFull of `n` bytes, with its error: io.EOF when nothing is left,
  /// io.ErrUnexpectedEOF when some but fewer than `n` bytes are left.
  function ReadExact(data: seq<Byte>, pos: nat, n: nat): (r: Result<(seq<Byte>, nat)>)
    requires pos <= |data|
    ensures r.Success? <==> pos + n <= |data|
    ensures r.Failure? ==> r.error == if pos == |data| then EndOfInput else UnexpectedEndOfInput
    ensures r.Success? ==> r.value.0 == data[pos..pos + n] && r.value.1 == pos + n
  {
    if pos + n <= |data| then Success((data[pos..pos + n], pos + n))
    else if pos == |data| then Failure(EndOfInput)
    else Failure(UnexpectedEndOfInput)
  }

  /// binary.Read of a `w`-byte little-endian unsigned integer, with its error:
  /// io.EOF when nothing is left, io.ErrUnexpectedEOF when some but fewer than
  /// `w` bytes are left.
  function ReadUint(data: seq<Byte>, pos: nat, w: nat): (r: Result<(nat, nat)>)
    requires pos <= |data|
    ensures r.Success? <==> pos + w <= |data|
    ensures r.Failure? ==> r.error == if pos == |data| then EndOfInput else UnexpectedEndOfInput
    ensures r.Success? ==> r.value.0 < Pow256(w) && r.value.1 == pos + w
  {
    if pos + w <= |data| then Success((FromLE(data[pos..pos + w]), pos + w))
    else if pos == |data| then Failure(EndOfInput)
    else Failure(UnexpectedEndOfInput)
  }

  /// The same read when the caller discards the error: on a short read the
  /// variable keeps its zero value and the reader has consumed everything that
  /// was left.
  function ReadLE(data: seq<Byte>, pos: nat, w: nat): (r: (nat, nat))
    requires pos <= |data|
    ensures r.0 < Pow256(w) && pos <= r.1 <= |data|
  {
    match ReadUint(data, pos, w)
    case Success(x) => x
    case Failure(_) => (0, |data|)
  }

  lemma ReadFullAt(data: seq<Byte>, pos: nat, s: seq<Byte>)
    requires At(data, pos, s)
    ensures ReadFull(data, pos, |s|) == (s, pos + |s|)
  {
  }

  lemma ReadLEAt(data: seq<Byte>, pos: nat, v: nat, w: nat)
    requires v < Pow256(w) && At(data, pos, LE(v, w))
    ensures ReadLE(data, pos, w) == (v, pos + w)
  {
    FromLEOfLE(v, w);
    assert data[pos..pos + w] == LE(v, w);
    assert ReadUint(data, pos, w) == Success((v, pos + w));
  }

  // ---------------------------------------------------------------------------
  // Counted lists: the decoders read a count and then run one loop body per
  // item; the encoders write the items one after the other.

  /// `step` reads one item at any position of any input and leaves the cursor
  /// between that position and the end.
  ghost predicate Reader<T(!new)>(step: (seq<Byte>, nat) --> (T, nat)) {
    forall data: seq<Byte>, p: nat :: p <= |data| ==> step.requires(data, p) && p <= step(data, p).1 <= |data|
  }

  /// `step` reads back every item satisfying `wf` from its encoding `enc`,
  /// wherever in the input that encoding sits, and stops right after it.
  ghost predicate Decodes<T(!new)>(step: (seq<Byte>, nat) --> (T, nat), enc: T -> seq<Byte>, wf: T -> bool)
    requires Reader(step)
  {
    forall x, d: seq<Byte>, p: nat {:trigger At(d, p, enc(x))} | wf(x) && At(d, p, enc(x)) ::
      step(d, p).0 == x && step(d, p).1 == p + |enc(x)|
  }

  /// `n` runs of the loop body `step`, starting at `pos`: the items in the order
  /// they were read, and the cursor after the last one.
  function Repeat<T(!new)>(step: (seq<Byte>, nat) --> (T, nat), data: seq<Byte>, pos: nat, n: nat): (r: (seq<T>, nat))
    requires Reader(step) && pos <= |data|
    ensures |r.0| == n && pos <= r.1 <= |data|
    decreases n
  {
    if n == 0 then ([], pos)
    else
      var prev := Repeat(step, data, pos, n - 1);
      var last := step(data, prev.1);
      (prev.0 + [last.0], last.1)
  }

  /// The items' encodings, one after the other.
  function Concat<T>(enc: T -> seq<Byte>, items: seq<T>): seq<Byte>
    decreases |items|
  {
    if items == [] then [] else Concat(enc, items[..|items| - 1]) + enc(items[|items| - 1])
  }

  /// Every item satisfies `wf`.
  predicate All<T>(wf: T -> bool, items: seq<T>)
    decreases |items|
  {
    items == [] || (All(wf, items[..|items| - 1]) && wf(items[|items| - 1]))
  }

  lemma {:induction false} AllIndex<T>(wf: T -> bool, items: seq<T>)
    ensures All(wf, items) <==> forall k :: 0 <= k < |items| ==> wf(items[k])
    decreases |items|
  {
    if items != [] {
      var init := items[..|items| - 1];
      AllIndex(wf, init);
      assert forall k :: 0 <= k < |init| ==> init[k] == items[k];
    }
  }

  /// One more loop iteration appends the item it read.
  lemma RepeatSnoc<T(!new)>(step: (seq<Byte>, nat) --> (T, nat), data: seq<Byte>, pos: nat, n: nat,
                            init: seq<T>, p: nat, last: T, q: nat)
    requires Reader(step) && pos <= |data|
    requires Repeat(step, data, pos, n) == (init, p) && p <= |data| && step(data, p) == (last, q)
    ensures Repeat(step, data, pos, n + 1) == (init + [last], q)
  {
  }

  /// Appending one more encoding to a prefix of the items.
  lemma ConcatSnoc<T>(buf: seq<Byte>, enc: T -> seq<Byte>, items: seq<T>, i: nat)
    requires i < |items|
    ensures buf + Concat(enc, items[..i]) + enc(items[i]) == buf + Concat(enc, items[..i + 1])
  {
    assert items[..i + 1][..i] == items[..i];
  }

  /// When the loop body reads back every well-formed item from its encoding,
  /// the loop reads back every list of such items from their concatenation.
  lemma {:induction false} RepeatRoundTrip<T(!new)>(step: (seq<Byte>, nat) --> (T, nat), enc: T -> seq<Byte>,
      wf: T -> bool, items: seq<T>, data: seq<Byte>, pos: nat)
    requires Reader(step) && Decodes(step, enc, wf)
    requires All(wf, items) && At(data, pos, Concat(enc, items))
    ensures Repeat(step, data, pos, |items|).0 == items
    ensures Repeat(step, data, pos, |items|).1 == pos + |Concat(enc, items)|
    decreases |items|
  {
    if items != [] {
      var init := items[..|items| - 1];
      var last := items[|items| - 1];
      var p := pos + |Concat(enc, init)|;
      AtSplit(data, pos, Concat(enc, init), enc(last));
      RepeatRoundTrip(step, enc, wf, init, data, pos);
      assert step(data, p).0 == last && step(data, p).1 == p + |enc(last)|;
      assert init + [last] == items;
    }
  }
}
