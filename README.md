# Merkle root calculator — a Dafny model

This project models `calculate_merkle_root` from the Rust Merkle root calculator. The function takes an
ordered sequence of 32-byte digests (the leaves) and reduces it to one digest, the Merkle root:

- no leaves give the sentinel root, 32 zero bytes;
- otherwise, while the current level has more than one digest, consecutive pairs are combined;
- an odd last element is paired with itself;
- to combine a pair, the two children are put in unsigned byte-wise lexicographic order, the 64
  bytes `lo || hi` are hashed with SHA-256, and the parent is pushed onto the next level;
- the single digest that remains is the root.

Files and modules:

- `lex_order.dfy` (module `LexOrder`): the `byte` type (Rust's `u8`) and `LexLe`, the lexicographic
  `<=` that Rust uses to compare two `[u8; 32]` arrays. LexLe is proved total, antisymmetric,
  reflexive and transitive. For byte strings of one length it is also proved equal to the
  "first differing byte" definition.
- `merkle_spec.dfy` (module `MerkleSpec`): the reduction as pure functions.
  `Preimage` and `Combine` are the combine step. `Parent` is the k-th parent read off by index.
  `NextLevel` is one pass over a level. `Reduce` and `Root` give the root. Lemmas about them follow.
- `merkle_builder.dfy` (module `MerkleBuilder`): the routine as the source runs it.
  - `CalculateMerkleRoot` has the outer `while` loop over levels and is proved to return
    `Root(hash, leaves[..])`.
  - `BuildNextLevel` is the inner `while` loop, with the index stepping by two and the
    `next_level` buffer grown by appending. It is proved to return `NextLevel`. The outer loop
    calls it once per level, so at run time the two loops are nested as in the source.
  - `HashPair` compares, concatenates and hashes one pair, and is proved to return `Combine`.

SHA-256 is a call into a library, so it is a parameter `hash: seq<byte> -> seq<byte>`. The model's
only assumption about it is `IsHash(hash)`: every output is 32 bytes long. A digest is a
`seq<byte>` of length 32 (`IsDigest`). So "every digest of every level, the root included, is 32
bytes" is proved (the `ensures` of `Combine`, `NextLevel`, `Reduce`, `Root`), not assumed.

The leaves `&Vec<[u8; 32]>` are an `array<seq<byte>>`. `CalculateMerkleRoot` has no `modifies`
clause, so Dafny guarantees that the caller's array is left unchanged. The method works on a
copy, `leaves[..]`, as the source works on `leaves.clone()`.

Determinism (the same leaves always give the same root) holds because `Root` is a function.

Two consequences of the design are proved as lemmas. Neither is a defect; both follow from the
documented rules:

- Because pairs are sorted before hashing, swapping two sibling leaves does not change the root
  (`RootSwapSiblings`), and swapping the children of any pair on one level does not change the
  next level (`NextLevelSwapSiblings`).
- Because of the duplicate-last rule, an odd leaf sequence of length 3 or more has the same root as
  the same sequence with its last leaf appended again (`RootIgnoresDuplicatedLast`). For example,
  `[h1, h2, h3]` and `[h1, h2, h3, h3]` have one root. For a single leaf `d` the two roots are
  `d` (`RootOfSingleton`) and `Combine(hash, d, d)` (`RootOfDuplicatedSingleton`). They differ
  only if the hash does not send `d` followed by `d` to `d`, which is not provable of an abstract
  hash.

## Model

| member | source | states |
|---|---|---|
| `LexOrder.LexLeTotal` | src/main.rs:30-36 | any two byte strings compare one way or the other under `<=`; this is what makes the `else` branch, which concatenates `right` then `left`, also put the smaller child first (the third `ensures` of `Preimage`) |
| `LexOrder.LexLeAntisymmetric` | src/main.rs:30-36 | if `a <= b` and `b <= a`, then `a == b` |
| `LexOrder.LexLeFirstDifference` | src/main.rs:30 | for equal-length arrays, `a <= b` holds exactly when `a == b` or `a` has the smaller byte at the first index where they differ (both directions) |
| `LexOrder.LexLe` | src/main.rs:30 | Rust's `left <= right` on `[u8; 32]`: the first bytes compared unsigned, and on a tie the rests |
| `MerkleSpec.IsDigest` | src/main.rs:5 | a digest is exactly 32 bytes, the type `[u8; 32]` |
| `MerkleSpec.IsLevel` | src/main.rs:5 | every element of a level is a 32-byte digest, the type `Vec<[u8; 32]>` |
| `MerkleSpec.IsHash` | src/main.rs:39-41 | the only assumption made of SHA-256: every output is 32 bytes |
| `MerkleSpec.ZeroDigest` | src/main.rs:6-8 | the sentinel is 32 bytes, each of them zero |
| `MerkleSpec.Preimage` | src/main.rs:30-36 | the hashed input is 64 bytes: the two children, one after the other, with the lexicographically smaller one first |
| `MerkleSpec.Combine` | src/main.rs:38-41 | the parent of two digests is itself a 32-byte digest |
| `MerkleSpec.CombineSymmetric` | src/main.rs:30-36 | `Combine(a, b) == Combine(b, a)` for all digests `a`, `b` |
| `MerkleSpec.Parent` | src/main.rs:20-41 | the parent of the pair that starts at index 2k is a digest |
| `MerkleSpec.NextLevel` | src/main.rs:16-48 | one pass over a level of length n gives a level of length ceil(n/2) (`n <= 2 * len <= n + 1`) whose elements are all digests |
| `MerkleSpec.NextLevelPairs` | src/main.rs:19-45 | the k-th element of the next level combines `cur[2k]` with `cur[2k+1]`, or with `cur[2k]` itself when `2k+1` is past the end; parents keep the order of their pairs |
| `MerkleSpec.NextLevelByIndex` | src/main.rs:16-46 | a buffer of ceil(n/2) digests whose k-th element is the k-th pair's parent is exactly the next level |
| `MerkleSpec.NextLevelShrinks` | src/main.rs:15-48 | a level with more than one digest gives a non-empty, strictly shorter level, so the outer loop ends |
| `MerkleSpec.NextLevelDuplicatesLast` | src/main.rs:23-27 | on an odd level, the last parent is `Combine(last, last)`: the last element is paired with itself, not carried up |
| `MerkleSpec.NextLevelSwapSiblings` | src/main.rs:30-36 | swapping the two children of any pair leaves the next level unchanged |
| `MerkleSpec.NextLevelDuplicateIsInvisible` | src/main.rs:23-27 | appending a copy of the last element of an odd level leaves the next level unchanged |
| `MerkleSpec.Reduce` | src/main.rs:15-52 | repeated passes over a non-empty level end in one 32-byte digest |
| `MerkleSpec.Root` | src/main.rs:5-53 | the root of any leaf sequence, the empty one included, is a 32-byte digest |
| `MerkleSpec.RootOfEmpty` | src/main.rs:6-8 | no leaves give exactly 32 zero bytes |
| `MerkleSpec.RootOfSingleton` | src/main.rs:12-52 | one leaf is returned unchanged: the outer loop runs zero times |
| `MerkleSpec.RootStep` | src/main.rs:15-48 | a level of two or more digests has the same root as its next level |
| `MerkleSpec.RootOfPair` | src/main.rs:19-44 | two leaves have root `Combine(a, b)`, whatever their order |
| `MerkleSpec.RootOfThree` | src/main.rs:86-93 | three leaves give `Combine(Combine(h1, h2), Combine(h3, h3))` |
| `MerkleSpec.RootOfFour` | src/main.rs:57-74 | four leaves give `Combine(Combine(h1, h2), Combine(h3, h4))` |
| `MerkleSpec.RootIgnoresDuplicatedLast` | src/main.rs:23-27 | an odd leaf sequence of length 3 or more has the same root as the sequence with its last leaf appended again |
| `MerkleSpec.RootOfDuplicatedSingleton` | src/main.rs:23-27 | `[d, d]` has root `Combine(d, d)`; the root of `[d]` is `d` itself, and the two differ only if the hash does not send `d` followed by `d` to `d` |
| `MerkleSpec.RootSwapSiblings` | src/main.rs:30-36 | swapping two sibling leaves does not change the root |
| `MerkleBuilder.CalculateMerkleRoot` | src/main.rs:5-53 | the outer loop, with the empty-input sentinel, returns `Root(hash, leaves)`, a 32-byte digest; the input array is only read |
| `MerkleBuilder.BuildNextLevel` | src/main.rs:16-46 | the inner loop builds the buffer `NextLevel(hash, current)` |
| `MerkleBuilder.HashPair` | src/main.rs:30-41 | comparing, concatenating and hashing one pair gives `Combine(hash, left, right)`, a 32-byte digest |

## Left out

- `main` (src/main.rs:55-79): the sample addresses, hashing raw strings into leaves, and the
  printed leaf count and hex root. This is demonstration and output code. The leaf hasher exists
  only there, so it is not modelled either.
- SHA-256 (the `sha2` crate): a parameter whose only known property is a 32-byte output.
- The test's check that the root of three leaves is not all zeros (src/main.rs:99). It holds only
  if SHA-256 never outputs 32 zero bytes, which cannot be proved about an abstract hash.
- For the same reason, the model does not promise that `[d]` and `[d, d]` have different roots.
- Concrete root values, such as the root of the four sample addresses. They can be pinned only by
  running the real hash.
- Memory allocation and its failure; the `Vec` buffers are sequences.
- The count of hash calls (O(n) for n leaves) and of levels (O(log n)). Only termination is proved.
