/// Merkle reduction (merkletree.go): each round hashes adjacent nodes in pairs
/// with double SHA-256, an odd last node paired with itself, until one node is
/// left. A single leaf is that node already and is returned without hashing.
module Merkle {
  import opened Wire

  /// hashPair: SHA-256 of SHA-256 of `left ++ right`.
  function HashPair(sha: Hasher, left: seq<Byte>, right: seq<Byte>): (h: seq<Byte>)
    ensures |h| == 32
  {
    sha(sha(left + right))
  }

  /// One round of the reduction: parent `j` hashes nodes `2j` and `2j + 1`, or
  /// node `2j` with itself when it is the odd last node.
  function NextLevel(sha: Hasher, nodes: seq<seq<Byte>>): (level: seq<seq<Byte>>)
    ensures |level| == (|nodes| + 1) / 2
    ensures forall j :: 0 <= j < |level| ==> level[j] == Parent(sha, nodes, j)
  {
    seq((|nodes| + 1) / 2, j requires 0 <= j < (|nodes| + 1) / 2 => Parent(sha, nodes, j))
  }

  function Parent(sha: Hasher, nodes: seq<seq<Byte>>, j: nat): (h: seq<Byte>)
    requires 2 * j < |nodes|
    ensures |h| == 32
  {
    if 2 * j + 1 < |nodes| then HashPair(sha, nodes[2 * j], nodes[2 * j + 1])
    else HashPair(sha, nodes[2 * j], nodes[2 * j])
  }

  /// Rounds repeated until one node is left.
  function Reduce(sha: Hasher, nodes: seq<seq<Byte>>): seq<Byte>
    requires |nodes| >= 1
    decreases |nodes|
  {
    if |nodes| == 1 then nodes[0] else Reduce(sha, NextLevel(sha, nodes))
  }

  /// The root BuildMerkleRoot computes: empty for no leaves.
  function MerkleRoot(sha: Hasher, leaves: seq<seq<Byte>>): seq<Byte> {
    if |leaves| == 0 then [] else Reduce(sha, leaves)
  }

  /// BuildMerkleRoot: `nodes` is replaced by the next `level` each round, and
  /// `level` is built by appending one parent per pair.
  method BuildMerkleRoot(sha: Hasher, txHashes: seq<seq<Byte>>) returns (root: seq<Byte>)
    ensures root == MerkleRoot(sha, txHashes)
  {
    if |txHashes| == 0 {
      return [];
    }
    var nodes := txHashes;
    while |nodes| > 1
      invariant |nodes| >= 1
      invariant Reduce(sha, nodes) == Reduce(sha, txHashes)
      decreases |nodes|
    {
      var level := PairUp(sha, nodes);
      nodes := level;
    }
    root := nodes[0];
  }

  /// The inner loop of BuildMerkleRoot: one parent appended per pair of nodes.
  method PairUp(sha: Hasher, nodes: seq<seq<Byte>>) returns (level: seq<seq<Byte>>)
    ensures level == NextLevel(sha, nodes)
  {
    level := [];
    var i := 0;
    while i < |nodes|
      invariant 0 <= i <= |nodes| + 1 && i == 2 * |level|
      invariant level == NextLevel(sha, nodes)[..|level|]
    {
      var parent;
      if i + 1 < |nodes| {
        parent := HashPair(sha, nodes[i], nodes[i + 1]);
      } else {
        parent := HashPair(sha, nodes[i], nodes[i]);
      }
      TakeOneMore(NextLevel(sha, nodes), |level|, parent);
      level := level + [parent];
      i := i + 2;
    }
    assert |level| == |NextLevel(sha, nodes)|;
  }

  lemma TakeOneMore<T>(s: seq<T>, k: nat, x: T)
    requires k < |s| && s[k] == x
    ensures s[..k] + [x] == s[..k + 1]
  {
  }

  /// No leaves give an empty root.
  lemma EmptyRoot(sha: Hasher)
    ensures MerkleRoot(sha, []) == []
  {
  }

  /// A single leaf is the root itself, never hashed, whatever its length.
  lemma SingleLeafUnhashed(sha: Hasher, leaf: seq<Byte>)
    ensures MerkleRoot(sha, [leaf]) == leaf
  {
  }

  /// Two leaves give the double hash of their concatenation, left first.
  lemma TwoLeaves(sha: Hasher, a: seq<Byte>, b: seq<Byte>)
    ensures MerkleRoot(sha, [a, b]) == sha(sha(a + b))
  {
    var level := NextLevel(sha, [a, b]);
    assert |level| == 1 && level[0] == Parent(sha, [a, b], 0);
    assert Reduce(sha, [a, b]) == Reduce(sha, level) == level[0];
  }

  /// Each round turns n nodes into ceil(n / 2) nodes, fewer than n while n > 1;
  /// parent `j` is built from nodes `2j` and `2j + 1` in that order, and in an
  /// odd-sized level the last node is paired with itself.
  lemma LevelShape(sha: Hasher, nodes: seq<seq<Byte>>)
    requires |nodes| > 1
    ensures |NextLevel(sha, nodes)| == (|nodes| + 1) / 2 < |nodes|
    ensures forall j :: 0 <= j < |nodes| / 2 ==>
      NextLevel(sha, nodes)[j] == HashPair(sha, nodes[2 * j], nodes[2 * j + 1])
    ensures |nodes| % 2 == 1 ==>
      NextLevel(sha, nodes)[|nodes| / 2] == HashPair(sha, nodes[|nodes| - 1], nodes[|nodes| - 1])
  {
  }

  /// With two or more leaves the root is one of the hashes, so 32 bytes long.
  lemma {:induction false} RootIs32Bytes(sha: Hasher, leaves: seq<seq<Byte>>)
    requires |leaves| >= 2
    ensures |MerkleRoot(sha, leaves)| == 32
  {
    ReduceOfDigests(sha, NextLevel(sha, leaves));
  }

  lemma {:induction false} ReduceOfDigests(sha: Hasher, nodes: seq<seq<Byte>>)
    requires |nodes| >= 1 && forall j :: 0 <= j < |nodes| ==> |nodes[j]| == 32
    ensures |Reduce(sha, nodes)| == 32
    decreases |nodes|
  {
    if |nodes| > 1 {
      ReduceOfDigests(sha, NextLevel(sha, nodes));
    }
  }
}
