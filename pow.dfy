/// Proof of work (proof_of_work.go): the compact difficulty encoding, the
/// bounded nonce search, and the check that a header meets its target.
module ProofOfWork {
  import opened Wire
  import opened Headers

  /// ProofOfWork: the header being mined and the target its hash must stay
  /// below, both read as unsigned big-endian integers.
  datatype Pow = Pow(header: BlockHeader, target: nat)

  /// The difficulty every block of the chain is mined at.
  const DefaultBits: Uint32 := 0x1d00ffff

  /// The last nonce the search is allowed to try is one below this bound:
  /// `range uint32(math.MaxUint32)` stops before 0xffffffff.
  const NonceBound: nat := 0xffff_ffff

  /// BitsToTarget: the top byte is a base-256 exponent, the low three bytes a
  /// mantissa; a zero mantissa or an exponent below 3 panics.
  function BitsToTarget(bits: Uint32): (r: Result<nat>)
    ensures r.Success? <==> bits % 0x100_0000 != 0 && bits / 0x100_0000 >= 3
    ensures r.Failure? ==> r.error == InvalidBits
    ensures r.Success? ==> r.value > 0
  {
    var exponent := bits / 0x100_0000;
    var mantissa := bits % 0x100_0000;
    if mantissa == 0 || exponent < 3 then Failure(InvalidBits)
    else
      MulLe(1, mantissa, Pow256(exponent - 3));
      Success(mantissa * Pow256(exponent - 3))
  }

  /// The compact form of an exponent and a mantissa.
  function Compact(exponent: nat, mantissa: nat): (bits: Uint32)
    requires exponent < 256 && mantissa < 0x100_0000
    ensures bits / 0x100_0000 == exponent && bits % 0x100_0000 == mantissa
  {
    exponent * 0x100_0000 + mantissa
  }

  /// The target is the mantissa shifted left by eight bits per exponent step
  /// above 3.
  lemma TargetOf(exponent: nat, mantissa: nat)
    requires 3 <= exponent < 256 && 0 < mantissa < 0x100_0000
    ensures BitsToTarget(Compact(exponent, mantissa)) == Success(mantissa * Pow256(exponent - 3))
  {
  }

  /// At a fixed exponent a larger mantissa gives a strictly larger target.
  lemma TargetIncreasesWithMantissa(exponent: nat, m1: nat, m2: nat)
    requires 3 <= exponent < 256 && 0 < m1 < m2 < 0x100_0000
    ensures BitsToTarget(Compact(exponent, m1)).value < BitsToTarget(Compact(exponent, m2)).value
  {
    TargetOf(exponent, m1);
    TargetOf(exponent, m2);
    MulLe(m1 + 1, m2, Pow256(exponent - 3));
  }

  /// One more exponent step multiplies the target by 256.
  lemma TargetScalesWithExponent(exponent: nat, mantissa: nat)
    requires 3 <= exponent < 255 && 0 < mantissa < 0x100_0000
    ensures BitsToTarget(Compact(exponent + 1, mantissa)).value == 256 * BitsToTarget(Compact(exponent, mantissa)).value
  {
    TargetOf(exponent, mantissa);
    TargetOf(exponent + 1, mantissa);
    assert Pow256(exponent + 1 - 3) == 256 * Pow256(exponent - 3);
  }

  /// The chain's difficulty: 0xffff shifted by 26 bytes.
  lemma DefaultTarget()
    ensures BitsToTarget(DefaultBits) == Success(0xffff * Pow256(26))
  {
    assert DefaultBits == Compact(0x1d, 0xffff);
    TargetOf(0x1d, 0xffff);
  }

  /// NewProofOfWork: the target comes from the header's bits, and invalid
  /// bits panic.
  function NewProofOfWork(h: BlockHeader): (r: Result<Pow>)
    ensures r.Success? <==> BitsToTarget(h.bits).Success?
    ensures r.Success? ==> r.value.header == h && r.value.target == BitsToTarget(h.bits).value
    ensures r.Failure? ==> r.error == InvalidBits
  {
    match BitsToTarget(h.bits)
    case Failure(e) => Failure(e)
    case Success(target) => Success(Pow(h, target))
  }

  /// ProofOfWork.Validate: the header's hash, read big-endian, is below the
  /// target.
  predicate Validate(sha: Hasher, pow: Pow) {
    BE(Hash(sha, pow.header)) < pow.target
  }

  /// Nonce `n` solves the puzzle: the header with that nonce validates.
  predicate Solves(sha: Hasher, pow: Pow, n: Uint32) {
    Validate(sha, pow.(header := pow.header.(nonce := n)))
  }

  /// The puzzle as a test on nonces.
  function Solver(sha: Hasher, pow: Pow): Uint32 -> bool {
    (n: Uint32) => Solves(sha, pow, n)
  }

  /// The nonces from `from` on, in ascending order up to the bound: the first
  /// one that passes `solves`, or exhaustion.
  function Search(solves: Uint32 -> bool, from: nat): Result<Uint32>
    requires from <= NonceBound
    decreases NonceBound - from
  {
    if from == NonceBound then Failure(NonceExhausted)
    else if solves(from) then Success(from)
    else Search(solves, from + 1)
  }

  /// What Run returns: the first solving nonce and the hash it gives, or a
  /// panic when the header is not 80 bytes or no nonce below the bound works.
  function Mine(sha: Hasher, pow: Pow): Result<(Uint32, seq<Byte>)> {
    if |HeaderBytes(pow.header)| != 80 then Failure(HeaderNot80Bytes)
    else
      match Search(Solver(sha, pow), 0)
      case Failure(e) => Failure(e)
      case Success(n) => Success((n, Hash(sha, pow.header.(nonce := n))))
  }

  /// ProofOfWork.Run: serialises the header once, then writes each nonce in
  /// turn over its last four bytes and hashes the buffer twice.
  method Run(sha: Hasher, pow: Pow) returns (r: Result<(Uint32, seq<Byte>)>)
    ensures r == Mine(sha, pow)
  {
    var serialised := Serialize(pow.header);
    var headerBytes := NewBuffer(serialised);
    var nonce := 0;
    while nonce < NonceBound
      invariant 0 <= nonce <= NonceBound
      invariant headerBytes.Length == |serialised| && serialised == HeaderBytes(pow.header)
      invariant headerBytes.Length == 80 ==> headerBytes[..76] == serialised[..76]
      invariant nonce > 0 ==> headerBytes.Length == 80
      invariant Search(Solver(sha, pow), 0) == Search(Solver(sha, pow), nonce)
    {
      if headerBytes.Length != 80 {
        return Failure(HeaderNot80Bytes);
      }
      var hash := HashWithNonce(sha, pow.header, headerBytes, nonce);
      if BE(hash) < pow.target {
        MineHit(sha, pow, nonce);
        return Success((nonce, hash));
      }
      SearchMiss(Solver(sha, pow), nonce);
      nonce := nonce + 1;
    }
    return Failure(NonceExhausted);
  }

  /// A fresh buffer holding `s`, which Run then overwrites in place.
  method NewBuffer(s: seq<Byte>) returns (a: array<Byte>)
    ensures fresh(a) && a[..] == s
  {
    a := new Byte[|s|](i requires 0 <= i < |s| => s[i]);
  }

  /// A nonce that solves the puzzle, with every smaller one failing, is what
  /// the search returns.
  lemma MineHit(sha: Hasher, pow: Pow, nonce: Uint32)
    requires |HeaderBytes(pow.header)| == 80 && nonce < NonceBound
    requires Search(Solver(sha, pow), 0) == Search(Solver(sha, pow), nonce)
    requires BE(Hash(sha, pow.header.(nonce := nonce))) < pow.target
    ensures Mine(sha, pow) == Success((nonce, Hash(sha, pow.header.(nonce := nonce))))
  {
    assert Solver(sha, pow)(nonce);
  }

  /// Skipping a nonce that fails does not change what the search finds.
  lemma SearchMiss(solves: Uint32 -> bool, from: nat)
    requires from < NonceBound && !solves(from)
    ensures Search(solves, from) == Search(solves, from + 1)
  {
  }

  /// One round of Run's loop: the nonce written over the last four bytes of
  /// the serialised header, which is then hashed twice.
  method HashWithNonce(sha: Hasher, h: BlockHeader, headerBytes: array<Byte>, nonce: Uint32) returns (hash: seq<Byte>)
    requires headerBytes.Length == |HeaderBytes(h)| == 80 && headerBytes[..76] == HeaderBytes(h)[..76]
    modifies headerBytes
    ensures headerBytes[..76] == HeaderBytes(h)[..76]
    ensures hash == Hash(sha, h.(nonce := nonce))
  {
    PutUint(headerBytes, 76, nonce, 4);
    NonceSplice(h, nonce);
    assert headerBytes[..] == HeaderBytes(h.(nonce := nonce));
    var first := sha(headerBytes[..]);
    hash := sha(first);
  }

  /// Run's result, spelled out: a header that is not 80 bytes panics; a
  /// returned nonce lies below 0xffffffff, solves the puzzle, comes with the
  /// hash of the header carrying it, and every smaller nonce fails; exhaustion
  /// means no nonce below 0xffffffff solves it.
  lemma MineSpec(sha: Hasher, pow: Pow)
    ensures Mine(sha, pow) == Failure(HeaderNot80Bytes) <==> |HeaderBytes(pow.header)| != 80
    ensures Mine(sha, pow).Success? ==>
      var (n, h) := Mine(sha, pow).value;
      n < NonceBound && Solves(sha, pow, n) && h == Hash(sha, pow.header.(nonce := n))
      && forall m: Uint32 :: m < n ==> !Solves(sha, pow, m)
    ensures Mine(sha, pow) == Failure(NonceExhausted) <==>
      |HeaderBytes(pow.header)| == 80 && forall m: Uint32 :: m < NonceBound ==> !Solves(sha, pow, m)
  {
    var solves := Solver(sha, pow);
    SearchSpec(solves, 0);
    forall m: Uint32
      ensures solves(m) == Solves(sha, pow, m)
    {
    }
  }

  /// The search from `from` finds the first passing nonce at or after it.
  lemma {:induction false} SearchSpec(solves: Uint32 -> bool, from: nat)
    requires from <= NonceBound
    ensures Search(solves, from).Failure? ==> Search(solves, from).error == NonceExhausted
    ensures Search(solves, from).Success? ==>
      var n := Search(solves, from).value;
      from <= n < NonceBound && solves(n) && forall m: Uint32 :: from <= m < n ==> !solves(m)
    ensures Search(solves, from).Failure? <==> forall m: Uint32 :: from <= m < NonceBound ==> !solves(m)
    decreases NonceBound - from
  {
    if from < NonceBound && !solves(from) {
      SearchSpec(solves, from + 1);
    }
  }

  /// Setting the nonce Run returned gives a header whose hash is the one Run
  /// returned and which passes Validate.
  lemma MinedHeaderValidates(sha: Hasher, pow: Pow)
    requires Mine(sha, pow).Success?
    ensures Hash(sha, pow.header.(nonce := Mine(sha, pow).value.0)) == Mine(sha, pow).value.1
    ensures Validate(sha, pow.(header := pow.header.(nonce := Mine(sha, pow).value.0)))
  {
    MineSpec(sha, pow);
  }
}
