/// Base58 (base58.go): the input read as one big-endian integer, written in
/// base 58 over Bitcoin's alphabet, with one '1' per leading zero byte.
module Base58 {
  import opened Wire

  /// The byte for digit `d` of b58Alphabet,
  /// "123456789ABCDEFGHJKLMNPQRSTUVWXYZabcdefghijkmnopqrstuvwxyz": the runs
  /// '1'-'9', 'A'-'H', 'J'-'N', 'P'-'Z', 'a'-'k' and 'm'-'z', which leave out
  /// '0', 'I', 'O' and 'l'.
  function Letter(d: nat): Byte
    requires d < 58
  {
    if d < 9 then 0x31 + d
    else if d < 17 then 0x41 + (d - 9)
    else if d < 22 then 0x4a + (d - 17)
    else if d < 33 then 0x50 + (d - 22)
    else if d < 44 then 0x61 + (d - 33)
    else 0x6d + (d - 44)
  }

  /// The 58 letters in digit order.
  function LetterTable(): (s: seq<Byte>)
    ensures |s| == 58 && forall d :: 0 <= d < 58 ==> s[d] == Letter(d)
  {
    seq(58, d requires 0 <= d < 58 => Letter(d))
  }

  /// b58Alphabet as bytes.
  const Alphabet: seq<Byte> := LetterTable()

  /// The character that stands for a zero digit and for a leading zero byte.
  const One: Byte := 0x31

  /// The alphabet is in strictly ascending byte order, so no character occurs
  /// twice.
  lemma AlphabetAscending(i: nat, j: nat)
    requires i < j < 58
    ensures Alphabet[i] < Alphabet[j]
  {
  }

  /// bytes.IndexByte over the alphabet from position `from` on.
  function IndexFrom(c: Byte, from: nat): (i: int)
    requires from <= 58
    ensures -1 <= i < 58
    ensures i >= 0 ==> from <= i && Alphabet[i] == c
    ensures i == -1 <==> forall k :: from <= k < 58 ==> Alphabet[k] != c
    decreases 58 - from
  {
    if from == 58 then -1
    else if Alphabet[from] == c then from
    else IndexFrom(c, from + 1)
  }

  /// bytes.IndexByte(b58Alphabet, c): the digit `c` stands for, or -1.
  function IndexOf(c: Byte): (i: int)
    ensures -1 <= i < 58
    ensures i >= 0 ==> Alphabet[i] == c
    ensures i == -1 <==> c !in Alphabet
  {
    IndexFrom(c, 0)
  }

  /// Every character of the alphabet stands for its own position.
  lemma IndexOfAlphabet(d: nat)
    requires d < 58
    ensures IndexOf(Alphabet[d]) == d
  {
    var i := IndexOf(Alphabet[d]);
    if i < d {
      AlphabetAscending(i, d);
    } else if d < i {
      AlphabetAscending(d, i);
    }
  }

  // ---------------------------------------------------------------------------
  // Digits.

  /// The base-58 digits of `n`, most significant first; none for zero.
  function Digits(n: nat): (ds: seq<nat>)
    ensures forall k :: 0 <= k < |ds| ==> ds[k] < 58
    ensures n > 0 ==> |ds| > 0 && ds[0] != 0
    decreases n
  {
    if n == 0 then []
    else
      assert n / 58 == 0 ==> n % 58 != 0;
      Digits(n / 58) + [n % 58]
  }

  /// The number written by base-58 digits, most significant first.
  function Value(ds: seq<nat>): nat
    decreases |ds|
  {
    if ds == [] then 0 else Value(ds[..|ds| - 1]) * 58 + ds[|ds| - 1]
  }

  /// Digits is the inverse of Value on numbers.
  lemma {:induction false} ValueOfDigits(n: nat)
    ensures Value(Digits(n)) == n
    decreases n
  {
    if n > 0 {
      ValueOfDigits(n / 58);
      assert Digits(n)[..|Digits(n)| - 1] == Digits(n / 58);
    }
  }

  /// The characters for a list of digits.
  function Letters(ds: seq<nat>): (s: seq<Byte>)
    requires forall k :: 0 <= k < |ds| ==> ds[k] < 58
    ensures |s| == |ds| && forall k :: 0 <= k < |ds| ==> s[k] == Alphabet[ds[k]]
  {
    seq(|ds|, k requires 0 <= k < |ds| => Alphabet[ds[k]])
  }

  /// Every character of `s` is in the alphabet.
  predicate InAlphabet(s: seq<Byte>) {
    forall k :: 0 <= k < |s| ==> s[k] in Alphabet
  }

  /// The number a string of alphabet characters spells, most significant
  /// digit first.
  function ValueOf(s: seq<Byte>): nat
    requires InAlphabet(s)
    decreases |s|
  {
    if s == [] then 0 else ValueOf(s[..|s| - 1]) * 58 + IndexOf(s[|s| - 1])
  }

  /// How many copies of `c` the input starts with.
  function LeadingRun(s: seq<Byte>, c: Byte): (n: nat)
    ensures n <= |s|
    ensures forall k :: 0 <= k < n ==> s[k] == c
    ensures n < |s| ==> s[n] != c
  {
    if s == [] || s[0] != c then 0 else 1 + LeadingRun(s[1..], c)
  }

  /// The leading run is where a scan stops.
  lemma LeadingRunAt(s: seq<Byte>, c: Byte, i: nat)
    requires i <= |s| && (forall k :: 0 <= k < i ==> s[k] == c) && (i < |s| ==> s[i] != c)
    ensures LeadingRun(s, c) == i
  {
  }

  function Ones(k: nat): (s: seq<Byte>)
    ensures |s| == k && forall i :: 0 <= i < k ==> s[i] == One
  {
    seq(k, _ => One)
  }

  /// What Base58Encode returns: a '1' per leading zero byte, then the base-58
  /// digits of the input's big-endian value.
  function Encoding(input: seq<Byte>): seq<Byte> {
    Ones(LeadingRun(input, 0)) + Letters(Digits(BE(input)))
  }

  /// `s` backwards.
  function Reverse(s: seq<Byte>): (r: seq<Byte>)
    ensures |r| == |s| && forall k :: 0 <= k < |s| ==> r[k] == s[|s| - 1 - k]
  {
    seq(|s|, k requires 0 <= k < |s| => s[|s| - 1 - k])
  }

  lemma ReverseConcat(a: seq<Byte>, b: seq<Byte>)
    ensures Reverse(a + b) == Reverse(b) + Reverse(a)
  {
  }

  // ---------------------------------------------------------------------------
  // Encoding.

  /// Base58Encode: the remainders of repeated division by 58, least
  /// significant first, then a '1' per leading zero byte, then the whole buffer
  /// reversed in place.
  method Encode(input: seq<Byte>) returns (result: seq<Byte>)
    ensures result == Encoding(input)
  {
    var low := LowDigitsFirst(BE(input));
    var digits := low;
    var i := 0;
    while i < |input| && input[i] == 0
      invariant 0 <= i <= |input| && forall k :: 0 <= k < i ==> input[k] == 0
      invariant digits == low + Ones(i)
    {
      digits := digits + [Alphabet[0]];
      i := i + 1;
    }
    LeadingRunAt(input, 0, i);
    ReversedDigits(input, low, i);
    var buffer := new Byte[|digits|](k requires 0 <= k < |digits| => digits[k]);
    assert buffer[..] == digits;
    ReverseInPlace(buffer);
    result := buffer[..];
  }

  /// Reversing the remainders followed by the '1's gives the encoding.
  lemma ReversedDigits(input: seq<Byte>, low: seq<Byte>, z: nat)
    requires Reverse(low) == Letters(Digits(BE(input))) && z == LeadingRun(input, 0)
    ensures Reverse(low + Ones(z)) == Encoding(input)
  {
    ReverseConcat(low, Ones(z));
    assert Reverse(Ones(z)) == Ones(z);
  }

  /// The division loop of Base58Encode: one character per remainder, least
  /// significant first.
  method LowDigitsFirst(n: nat) returns (digits: seq<Byte>)
    ensures Reverse(digits) == Letters(Digits(n))
  {
    digits := [];
    var x := n;
    while x != 0
      invariant Letters(Digits(n)) == Letters(Digits(x)) + Reverse(digits)
      decreases x
    {
      var mod := x % 58;
      LettersSnoc(x);
      ReverseConcat(digits, [Alphabet[mod]]);
      x := x / 58;
      digits := digits + [Alphabet[mod]];
    }
  }

  /// Dividing by 58 takes the last digit off.
  lemma LettersSnoc(x: nat)
    requires x > 0
    ensures Letters(Digits(x)) == Letters(Digits(x / 58)) + [Alphabet[x % 58]]
  {
    assert Digits(x) == Digits(x / 58) + [x % 58];
  }

  /// The swap loop of Base58Encode.
  method ReverseInPlace(a: array<Byte>)
    modifies a
    ensures a[..] == Reverse(old(a[..]))
  {
    var i, j := 0, a.Length - 1;
    while i < j
      invariant 0 <= i <= j + 1 <= a.Length && i + j == a.Length - 1
      invariant forall k :: 0 <= k < i ==> a[k] == old(a[a.Length - 1 - k]) && a[a.Length - 1 - k] == old(a[k])
      invariant forall k :: i <= k <= j ==> a[k] == old(a[k])
    {
      a[i], a[j] := a[j], a[i];
      i, j := i + 1, j - 1;
    }
  }

  // ---------------------------------------------------------------------------
  // Decoding.

  /// What Base58Decode returns: a zero byte per leading '1', then the minimal
  /// big-endian bytes of the number the digits spell; a character outside the
  /// alphabet panics.
  function Decoding(input: seq<Byte>): (r: Result<seq<Byte>>)
    ensures r.Failure? <==> exists k :: 0 <= k < |input| && input[k] !in Alphabet
    ensures r.Failure? ==> r.error == InvalidBase58Character
  {
    if InAlphabet(input) then Success(Zeros(LeadingRun(input, One)) + MinimalBE(ValueOf(input)))
    else Failure(InvalidBase58Character)
  }

  /// Base58Decode: the digits accumulated into one integer, then its bytes
  /// behind as many zero bytes as the input has leading '1's.
  method Decode(input: seq<Byte>) returns (r: Result<seq<Byte>>)
    ensures r == Decoding(input)
  {
    var result := 0;
    var i := 0;
    while i < |input|
      invariant 0 <= i <= |input| && InAlphabet(input[..i])
      invariant result == ValueOf(input[..i])
    {
      var charIndex := IndexOf(input[i]);
      if charIndex < 0 {
        return Failure(InvalidBase58Character);
      }
      assert input[..i + 1][..i] == input[..i];
      result := result * 58 + charIndex;
      i := i + 1;
    }
    assert input[..i] == input;
    var decoded := MinimalBE(result);
    var zeroCount := 0;
    while zeroCount < |input| && input[zeroCount] == One
      invariant 0 <= zeroCount <= |input| && forall k :: 0 <= k < zeroCount ==> input[k] == One
    {
      zeroCount := zeroCount + 1;
    }
    LeadingRunAt(input, One, zeroCount);
    r := Success(Zeros(zeroCount) + decoded);
  }

  // ---------------------------------------------------------------------------
  // Properties.

  /// Every character of an encoding is in the alphabet.
  lemma EncodingInAlphabet(input: seq<Byte>)
    ensures InAlphabet(Encoding(input))
  {
    var e := Encoding(input);
    forall k | 0 <= k < |e|
      ensures e[k] in Alphabet
    {
      assert e[k] == Alphabet[0] || e[k] == Alphabet[Digits(BE(input))[k - LeadingRun(input, 0)]];
    }
  }

  /// The encoding starts with exactly as many '1's as the input has zero bytes.
  lemma LeadingOnesCountZeros(input: seq<Byte>)
    ensures LeadingRun(Encoding(input), One) == LeadingRun(input, 0)
  {
    var z := LeadingRun(input, 0);
    var e := Encoding(input);
    if z < |e| {
      var ds := Digits(BE(input));
      assert e[z] == Alphabet[ds[0]];
      AlphabetAscending(0, ds[0]);
    }
    LeadingRunAt(e, One, z);
  }

  /// Zero bytes only, and the empty input, encode to one '1' each.
  lemma EncodeZeros(k: nat)
    ensures Encoding(Zeros(k)) == Ones(k)
  {
    BEZeros(k);
    LeadingRunAt(Zeros(k), 0, k);
  }

  /// Leading '1's do not change the number an encoding spells.
  lemma {:induction false} ValueOfOnesPrefix(z: nat, s: seq<Byte>)
    requires InAlphabet(s)
    ensures InAlphabet(Ones(z) + s) && ValueOf(Ones(z) + s) == ValueOf(s)
    decreases |s|
  {
    IndexOfAlphabet(0);
    if s == [] {
      assert Ones(z) + s == Ones(z);
      ValueOfOnes(z);
    } else {
      assert (Ones(z) + s)[..|Ones(z) + s| - 1] == Ones(z) + s[..|s| - 1];
      ValueOfOnesPrefix(z, s[..|s| - 1]);
    }
  }

  lemma {:induction false} ValueOfOnes(z: nat)
    ensures InAlphabet(Ones(z)) && ValueOf(Ones(z)) == 0
  {
    IndexOfAlphabet(0);
    if z > 0 {
      assert Ones(z)[..z - 1] == Ones(z - 1);
      ValueOfOnes(z - 1);
    }
  }

  /// The letters of a digit list spell the number the digits stand for.
  lemma {:induction false} ValueOfLetters(ds: seq<nat>)
    requires forall k :: 0 <= k < |ds| ==> ds[k] < 58
    ensures InAlphabet(Letters(ds)) && ValueOf(Letters(ds)) == Value(ds)
    decreases |ds|
  {
    if ds != [] {
      assert Letters(ds)[..|ds| - 1] == Letters(ds[..|ds| - 1]);
      ValueOfLetters(ds[..|ds| - 1]);
      IndexOfAlphabet(ds[|ds| - 1]);
    }
  }

  /// Decoding an encoding gives back the leading zero bytes and the minimal
  /// big-endian bytes of the input's value.
  lemma DecodingOfEncoding(input: seq<Byte>)
    ensures Decoding(Encoding(input)) == Success(Zeros(LeadingRun(input, 0)) + MinimalBE(BE(input)))
  {
    var z := LeadingRun(input, 0);
    var ds := Digits(BE(input));
    ValueOfLetters(ds);
    ValueOfOnesPrefix(z, Letters(ds));
    ValueOfDigits(BE(input));
    LeadingOnesCountZeros(input);
  }

  /// Any byte string is its leading zero bytes followed by the minimal
  /// big-endian bytes of its value.
  lemma ZerosThenMinimal(input: seq<Byte>)
    ensures Zeros(LeadingRun(input, 0)) + MinimalBE(BE(input)) == input
  {
    var z := LeadingRun(input, 0);
    var rest := input[z..];
    assert input == Zeros(z) + rest;
    BEZerosPrefix(z, rest);
    MinimalBEOfBE(rest);
  }

  /// Decoding an encoding gives the input back.
  lemma RoundTrip(input: seq<Byte>)
    ensures Decoding(Encoding(input)) == Success(input)
  {
    DecodingOfEncoding(input);
    ZerosThenMinimal(input);
  }

  /// Different inputs have different encodings.
  lemma EncodingInjective(a: seq<Byte>, b: seq<Byte>)
    requires Encoding(a) == Encoding(b)
    ensures a == b
  {
    RoundTrip(a);
    RoundTrip(b);
  }
}
