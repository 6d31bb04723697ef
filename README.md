# EV firmware Merkle tree, modelled in Dafny

This project models the EV over-the-air update simulator. A firmware image
is split into fixed-size chunks, and each chunk is hashed with SHA-256 into
a leaf. The leaves are folded into a Merkle root. Before pairing, an
odd-length level duplicates its last node, Bitcoin-style, and there is no
leaf/node domain separation. An inclusion proof lists one sibling per fold
round, and the verifier climbs from the leaf back to the root.

The repository contains two implementations, and both are modelled:

- **Rust engine** (`simulate.rs`):
  - `hash_pair` works over raw 32-byte digests.
  - `build_merkle_root`, `gen_proof` and `verify_proof` are written as loops.
  - Chunking happens in `leaf_hashes_from_file`.
  - The demonstration tamper happens in `interactive_modify_chunk`.
- **Python script** (`simulate.py`):
  - `build_merkle`, `generate_proof` and `verify_proof` work over hex-digest
    strings.
  - A pair is hashed as the digest of the text `a + b`.
  - The proof generator never advances the tracked index.
  - The verifier always puts the running digest on the left.

Modules:

- `Hashing` (`hashing.dfy`):
  - Byte is `bv8`.
  - A digest is 32 bytes.
  - `sha256_bytes` is an arbitrary function `HashFn` passed as a parameter.
  - `hash_pair` is `HashPair(sha, l, r) = sha(l + r)`, and `Combiner` is the same thing as a function value.
- `MerkleSpec` (`merkle_spec.dfy`): the tree as pure functions, generic in the node type and the pair hash. It defines:
  - `Pad`, `Pairs`, `FoldLevel`, `Root`, `Sibling`, `Proof`, `Climb`, `Verifies` and `Rounds`;
  - the round-trip, proof-length and log2 theorems.
- `MerkleEngine` (`merkle_engine.dfy`): the Rust loops as methods, each proved equal to its specification function.
- `FirmwareFile` (`firmware_file.dfy`): the byte-level helpers of the Rust engine. It covers:
  - an in-memory `File` (its contents and a cursor) with `Seek`, `Read` and `WriteAll`;
  - the chunking and its properties;
  - the tamper and its properties.
- `MerklePy` (`merkle_py.dfy`): the Python script.
  - The script's lists are a `PyList` class, because `build_merkle` and `generate_proof` append to the caller's list.
  - Its root is `MerkleSpec.Root` instantiated with the string pair hash.
  - Its proof generator and verifier are modelled as written: `PyProof` and `PyClimb`.

## Model

| member | source | states |
|---|---|---|
| MerkleSpec.Pad | simulate.rs:43-46 | the padded level is even; it keeps the level as a prefix; it adds at most one node, a copy of the last |
| MerkleSpec.FoldLevel | simulate.rs:43-52 | one fold round of n nodes yields ceil(n/2) nodes |
| MerkleSpec.PairsAt | simulate.rs:47-51 | entry k of the paired level is `hash_pair(nodes[2k], nodes[2k+1])` |
| MerkleSpec.FoldLevelAt | simulate.rs:43-52 | entry k of the next level hashes pair k of the padded level |
| MerkleSpec.SingleLeaf | simulate.rs:42-54 | one leaf is its own root, and its proof is empty (the loop never runs) |
| MerkleSpec.ThreeLeaves | simulate.rs:43-52 | `[a,b,c]` has root `H(H(a,b), H(c,c))` |
| MerkleSpec.FourLeaves | simulate.rs:40-86 | `[a,b,c,d]`: the root is `H(H(a,b),H(c,d))`; the proof of leaf 2 is `[d, H(a,b)]`, and it verifies |
| MerkleSpec.EmptyProof | simulate.rs:77-86 | with an empty proof the verdict is `leaf == root`, for any index |
| MerkleSpec.SiblingCompletesPair | simulate.rs:65-68 | the recorded sibling is the right neighbour for an even index and the left one for an odd index; hashed on that side with the node, it gives node `index/2` of the next level |
| MerkleSpec.RoundTrip | simulate.rs:57-86 | for every level and every `i < len`, the proof of `i` verifies `level[i]` at `i` against the root |
| MerkleSpec.ProofLength | simulate.rs:59-74 | the proof has exactly one sibling per fold round |
| MerkleSpec.RoundsIsCeilLog2 | simulate.rs:59-74 | the number of rounds is ceil(log2 n): `n <= 2^r`, and `2^(r-1) < n` for n > 1 |
| MerkleEngine.HashLevel | simulate.rs:47-51 | the `for` loop over a padded level produces exactly `Pairs` of that level |
| MerkleEngine.BuildMerkleRoot | simulate.rs:40-55 | returns the spec root; an empty input gives `sha256("")`; one leaf gives that leaf |
| MerkleEngine.ReassignedIndexNeverRematches | simulate.rs:62-70 | after a match at pair `i`, the index becomes `i/2 == index/2`, and no later pair of the same level can match it again |
| MerkleEngine.HashLevelTracking | simulate.rs:62-71 | one level of `gen_proof` builds the next level, pushes exactly one sibling (`Sibling(nodes, index)`) and leaves `index/2` |
| MerkleEngine.GenProof | simulate.rs:57-75 | the generated proof equals the spec `Proof`, and its length is the number of fold rounds |
| MerkleEngine.VerifyProof | simulate.rs:77-86 | the verdict is the spec `Verifies` (climb by index parity, halve the index); an empty proof compares leaf and root |
| MerkleEngine.GenerateAndVerify | simulate.rs:148-157 | menu option 3 on a valid index: the proof has `Rounds(n)` siblings and always verifies |
| MerkleEngine.EngineRoundTrip | simulate.rs:40-86 | the engine's proof of every valid index verifies against the engine's root |
| FirmwareFile.File.Open | simulate.rs:29 | opening a file positions the cursor at 0 |
| FirmwareFile.File.Seek | simulate.rs:90 | seek from the start sets the cursor |
| FirmwareFile.File.Read | simulate.rs:33 | a read copies `min(buffer, remaining)` bytes from the cursor (0 at or past the end), advances the cursor and leaves the rest of the buffer alone |
| FirmwareFile.File.WriteAll | simulate.rs:99 | writing overwrites at the cursor, extends the file if needed and advances the cursor |
| FirmwareFile.Overwrite | simulate.rs:99 | the written bytes land at the position; every other existing byte is kept; the length grows only as far as the write reaches |
| FirmwareFile.ChunksConcat | simulate.rs:31-36 | for `chunk_size > 0` the chunks concatenate back to the whole file |
| FirmwareFile.ChunkSizes | simulate.rs:31-36 | no chunk is empty, none exceeds `chunk_size`, and all but the last are exactly `chunk_size` |
| FirmwareFile.ChunkCount | simulate.rs:31-36 | the number of chunks is ceil(len / chunk_size) |
| FirmwareFile.ChunkAt | simulate.rs:31-36 | chunk k is the byte window `[k*size, min((k+1)*size, len))` |
| FirmwareFile.LeafHashesOfChunks | simulate.rs:31-36 | there is one leaf per chunk, and leaf k is `sha256_bytes(chunk k)` |
| FirmwareFile.LeafHashesFromFile | simulate.rs:28-38 | the read loop over a file opened at 0 returns exactly `LeafHashes(contents, chunk_size)` |
| FirmwareFile.ModifyChunk | simulate.rs:88-103 | afterwards the file is `Tamper(old contents)`; an empty chunk leaves it unchanged |
| FirmwareFile.FlipByOverwrite | simulate.rs:96-99 | writing back the chunk read, with its first byte flipped, changes exactly that one byte of the file |
| FirmwareFile.TamperFlipsOneByte | simulate.rs:90-99 | when offset `chunk_index*chunk_size` lies inside the file, that byte changes and every other byte stays; past the end nothing changes |
| FirmwareFile.TamperTwiceRestores | simulate.rs:96 | tampering the same chunk twice restores the file |
| FirmwareFile.TamperKeepsOtherChunks | simulate.rs:90-99 | tampering keeps the chunk count and every other chunk |
| FirmwareFile.TamperKeepsOtherLeaves | simulate.rs:31-36 | after a tamper, every leaf digest except the tampered chunk's is unchanged |
| MerklePy.HashChunks | simulate.py:15-18 | one leaf per chunk, in order; leaf k is `hash_chunk(chunk k)` |
| MerklePy.PyList.Append | simulate.py:24 | `append` adds one element at the end of the shared list |
| MerklePy.CallerListAfter | simulate.py:22-29 | the caller's list either stays as it was or gains one element, a copy of its last; it gains one exactly when its length is odd and above one |
| MerklePy.PairLevel | simulate.py:25-28 | the inner loop builds a fresh list of `H(hashes[i] + hashes[i+1])`, equal to `Pairs` of the level |
| MerklePy.BuildMerkle | simulate.py:21-30 | on a non-empty list it returns the spec root for the string pair hash; the caller's list ends as `CallerListAfter` |
| MerklePy.PairLevelTracking | simulate.py:55-62 | one level of `generate_proof` pairs the level and records `Sibling(level, index)` if and only if `0 <= index < len`, at most once |
| MerklePy.GenerateProof | simulate.py:52-64 | returns the as-written proof `PyProof` (the index is never advanced); the caller's list ends as `CallerListAfter` |
| MerklePy.VerifyProof | simulate.py:72-76 | the verdict folds every sibling in on the right of the running digest; an empty proof compares leaf and root |
| MerklePy.PyProofLength | simulate.py:52-64 | at most one sibling per round; a negative index gives an empty proof |
| MerklePy.PyProofAtZero | simulate.py:52-64 | at index 0 the script's proof is the spec proof |
| MerklePy.PyClimbAtZero | simulate.py:72-76 | at index 0 the script's verifier is the spec verifier |
| MerklePy.IndexZeroRoundTrip | simulate.py:52-76 | the proof of the first leaf verifies against the root, for every non-empty list |
| MerklePy.ProofTooShortAtIndexTwo | simulate.py:52-64 | with four leaves the proof of index 2 is `[d]`, where the tree needs `[d, H(a+b)]` |
| MerklePy.RoundTripFailsAtIndexOne | simulate.py:52-76 | with two leaves `a`, `b`, the proof of index 1 does not verify against the root (shown with a concatenating hash) |
| MerklePy.CorrectedRoundTrip | simulate.py:52-76 | with the index halved each round and the side chosen by parity, every position round-trips under the script's pair hash |

## Left out

- SHA-256 (FIPS 180-4) and hex encoding are left out. Every hash is an arbitrary function given as a parameter (`HashFn`, `PyHasher`), so every theorem holds for any hash function.
  - `sha256_bytes` and `hash_pair` are `HashFn` and `Hashing.HashPair`.
  - `hash_chunk` is `PyHasher.ofBytes`, and the pair hash of the script is `PyHasher.ofText`.
- Collision resistance cannot be stated without an axiom about SHA-256. So the model does not claim that a tamper changes the root. It proves only which chunks and leaves a tamper touches.
- File I/O is in memory. Opening by path, `anyhow` error contexts and I/O failures are left out.
  - A read is always full: `min(buffer, remaining)` bytes. Short reads are not modelled.
  - `interactive_modify_chunk` opens a second, write-only handle. The model writes through the same `File` after seeking back, which ends in the same contents.
- `usize` overflow of `chunk_index * chunk_size` (`simulate.rs:90`) is not modelled; offsets are unbounded naturals.
- Several parts of the script are left out:
  - the interactive menu, including `parse().unwrap_or(0)`;
  - demo firmware generation;
  - the `println!` messages;
  - Python's random firmware and all Streamlit calls (`simulate.py:10-12`, `simulate.py:35-79`).
- MerkleEngine.GenerateAndVerify: requires `idx < |leaves|` and does not model the out-of-range `leaves[idx]` panic at `simulate.rs:151`. It starts from the leaf sequence, not from the file.
- MerkleEngine.GenProof: requires `index < |leaves|`. For an out-of-range index the Rust code returns a proof that the model does not describe.
- MerklePy.BuildMerkle: requires a non-empty list, because the script fails at `hashes[0]` on an empty one.
- The inner `for` loops of `build_merkle_root`, `gen_proof`, `build_merkle` and `generate_proof` are modelled as separate methods (`HashLevel`, `HashLevelTracking`, `PairLevel`, `PairLevelTracking`) that the outer loops call. The order of operations is the same.
- The Python index is any integer. A negative index never matches a pair, which the model reflects.

## Findings

| source | as written | input that shows it | evidently intended | confidence | as-written member | corrected member |
|---|---|---|---|---|---|---|
| simulate.py:52-76 | `generate_proof` never advances `index` after a level, and `verify_proof` always hashes `cur + sibling` | two leaves `a`, `b` with index 1: the proof is `[a]`, the verifier computes `H(b + a)`, and the root is `H(a + b)`; with four leaves, index 2 gets a one-element proof where two rounds need two siblings | the index is halved each round, and the side is chosen by the index's parity, as in the Rust engine; then every valid index round-trips | not executed; high | MerklePy.RoundTripFailsAtIndexOne | MerklePy.CorrectedRoundTrip |
