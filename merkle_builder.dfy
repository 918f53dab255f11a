/**
 * The root computation as the Rust Merkle root calculator runs it: copy
 * the leaves into a current level, and while more than one digest remains,
 * walk it two at a time, pushing each parent onto a fresh next level.
 */
module MerkleBuilder {
  import opened LexOrder
  import opened MerkleSpec

  /**
   * The Merkle root of `leaves`. The method has no `modifies` clause, so the
   * caller's array is only read.
   */
  method CalculateMerkleRoot(hash: seq<byte> -> seq<byte>, leaves: array<seq<byte>>) returns (root: seq<byte>)
    requires IsHash(hash) && IsLevel(leaves[..])
    ensures IsDigest(root)
    ensures root == Root(hash, leaves[..])
  {
    if leaves.Length == 0 {
      return seq(DigestLength, _ => 0);
    }
    var current := leaves[..];
    while |current| > 1
      invariant IsLevel(current) && |current| >= 1
      invariant Reduce(hash, current) == Reduce(hash, leaves[..])
      decreases |current|
    {
      var next := BuildNextLevel(hash, current);
      current := next;
    }
    root := current[0];
  }

  /**
   * One pass over a level: step through it two at a time, pairing the last
   * element with itself when the length is odd, and append each parent to
   * a new buffer.
   */
  method BuildNextLevel(hash: seq<byte> -> seq<byte>, current: seq<seq<byte>>) returns (next: seq<seq<byte>>)
    requires IsHash(hash) && IsLevel(current)
    ensures next == NextLevel(hash, current)
  {
    next := [];
    var i := 0;
    while i < |current|
      invariant i == 2 * |next| <= |current| + 1
      invariant forall k :: 0 <= k < |next| ==> next[k] == Parent(hash, current, k)
    {
      var left := current[i];
      var right := if i + 1 < |current| then current[i + 1] else current[i];
      var parent := HashPair(hash, left, right);
      next := next + [parent];
      i := i + 2;
    }
    NextLevelByIndex(hash, current, next);
  }

  /**
   * The parent of one pair: the two children in lexicographic order,
   * concatenated and hashed.
   */
  method HashPair(hash: seq<byte> -> seq<byte>, left: seq<byte>, right: seq<byte>) returns (parent: seq<byte>)
    requires IsHash(hash) && IsDigest(left) && IsDigest(right)
    ensures IsDigest(parent)
    ensures parent == Combine(hash, left, right)
  {
    var combined: seq<byte>;
    if LexLe(left, right) {
      combined := left + right;
    } else {
      combined := right + left;
    }
    parent := hash(combined);
  }
}
