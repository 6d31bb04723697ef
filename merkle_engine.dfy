/** The Rust engine (simulate.rs): root construction, proof generation and
    proof verification, each written as the loops of the source and proved
    against the level specification in MerkleSpec. */
module MerkleEngine {
  import opened Hashing
  import opened MerkleSpec

  /** The root of a leaf sequence; an empty sequence has the digest of the empty string. */
  function MerkleRoot(sha: HashFn, leaves: seq<Digest>): Digest
  {
    if |leaves| == 0 then sha([]) else Root(Combiner(sha), leaves)
  }

  /** The `for` loop of `build_merkle_root` over a padded level: each pair
      (nodes[i], nodes[i+1]) is hashed and pushed onto `next`. */
  method HashLevel(sha: HashFn, nodes: seq<Digest>) returns (next: seq<Digest>)
    requires |nodes| % 2 == 0
    ensures next == Pairs(Combiner(sha), nodes)
  {
    ghost var half := |nodes| / 2;
    assert |nodes| == 2 * half;
    next := [];
    var i := 0;
    while i < |nodes|
      invariant i == 2 * |next| && |next| <= half
      invariant forall k :: 0 <= k < |next| ==> next[k] == HashPair(sha, nodes[2 * k], nodes[2 * k + 1])
    {
      var parent := HashPair(sha, nodes[i], nodes[i + 1]);
      next := next + [parent];
      i := i + 2;
    }
    PairsAt(Combiner(sha), nodes);
  }

  /** `build_merkle_root`: pads and pairs level after level until one node is left. */
  method BuildMerkleRoot(sha: HashFn, leaves: seq<Digest>) returns (root: Digest)
    ensures root == MerkleRoot(sha, leaves)
    ensures |leaves| == 0 ==> root == sha([])
    ensures |leaves| == 1 ==> root == leaves[0]
  {
    if |leaves| == 0 {
      return sha([]);
    }
    var nodes := leaves;
    while |nodes| > 1
      invariant |nodes| >= 1
      invariant Root(Combiner(sha), nodes) == Root(Combiner(sha), leaves)
      decreases |nodes|
    {
      ghost var level := nodes;
      if |nodes| % 2 == 1 {
        nodes := nodes + [nodes[|nodes| - 1]];
      }
      assert nodes == Pad(level);
      nodes := HashLevel(sha, nodes);
    }
    root := nodes[0];
  }

  /** The index update of `gen_proof`: once the pair starting at `i` has matched
      the tracked index `t`, the index becomes `i / 2`, and no pair that starts
      later in the same level can match it again. */
  lemma ReassignedIndexNeverRematches(t: nat, i: nat, j: nat)
    requires i % 2 == 0 && (i == t || i + 1 == t)
    requires j % 2 == 0 && i < j
    ensures i / 2 == t / 2
    ensures j != i / 2 && j + 1 != i / 2
  {
  }

  /** The `for` loop of `gen_proof` over one padded level: every pair is hashed
      into the next level, and at the pair that holds `index` the other member
      is pushed onto the proof and `index` is reassigned to `next.len()`.
      Exactly one sibling is pushed. */
  method HashLevelTracking(sha: HashFn, nodes: seq<Digest>, index: nat, proof: seq<Digest>)
    returns (next: seq<Digest>, proof': seq<Digest>, index': nat)
    requires |nodes| % 2 == 0 && index < |nodes|
    ensures next == Pairs(Combiner(sha), nodes)
    ensures proof' == proof + [Sibling(nodes, index)]
    ensures index' == index / 2
  {
    ghost var half := |nodes| / 2;
    assert |nodes| == 2 * half;
    next, proof', index' := [], proof, index;
    var i := 0;
    while i < |nodes|
      invariant i == 2 * |next| && |next| <= half
      invariant forall k :: 0 <= k < |next| ==> next[k] == HashPair(sha, nodes[2 * k], nodes[2 * k + 1])
      invariant i <= index ==> index' == index && proof' == proof
      invariant index < i ==> index' == index / 2 && proof' == proof + [Sibling(nodes, index)]
    {
      var left := nodes[i];
      var right := nodes[i + 1];
      if i == index' || i + 1 == index' {
        var sibling := if i == index' then right else left;
        proof' := proof' + [sibling];
        index' := |next|;
        ReassignedIndexNeverRematches(index, i, i + 2);
      }
      next := next + [HashPair(sha, left, right)];
      i := i + 2;
    }
    PairsAt(Combiner(sha), nodes);
  }

  /** `gen_proof`: replays the fold of `build_merkle_root` and records one
      sibling per level, leaf level first. */
  method GenProof(sha: HashFn, leaves: seq<Digest>, target: nat) returns (proof: seq<Digest>)
    requires target < |leaves|
    ensures proof == Proof(Combiner(sha), leaves, target)
    ensures |proof| == Rounds(|leaves|)
  {
    var nodes := leaves;
    var index: nat := target;
    proof := [];
    while |nodes| > 1
      invariant index < |nodes|
      invariant proof + Proof(Combiner(sha), nodes, index) == Proof(Combiner(sha), leaves, target)
      decreases |nodes|
    {
      ghost var level, t, before := nodes, index, proof;
      if |nodes| % 2 == 1 {
        nodes := nodes + [nodes[|nodes| - 1]];
      }
      assert nodes == Pad(level);
      nodes, proof, index := HashLevelTracking(sha, nodes, index, proof);
      ProofPrepend(Combiner(sha), level, t, before);
    }
    ProofLength(Combiner(sha), leaves, target);
  }

  /** `verify_proof`: climbs from the leaf, placing the running digest left of
      the sibling for an even index and right of it for an odd one. */
  method VerifyProof(sha: HashFn, leaf: Digest, index: nat, proof: seq<Digest>, root: Digest)
    returns (ok: bool)
    ensures ok == Verifies(Combiner(sha), leaf, index, proof, root)
    ensures proof == [] ==> (ok <==> leaf == root)
  {
    var cur := leaf;
    var idx := index;
    for k := 0 to |proof|
      invariant Climb(Combiner(sha), cur, idx, proof[k..]) == Climb(Combiner(sha), leaf, index, proof)
    {
      assert proof[k..][1..] == proof[k + 1..];
      if idx % 2 == 0 {
        cur := HashPair(sha, cur, proof[k]);
      } else {
        cur := HashPair(sha, proof[k], cur);
      }
      idx := idx / 2;
    }
    ok := cur == root;
  }

  /** Menu option 3: build the root, generate the proof of chunk `idx` and
      verify it; on an unchanged leaf sequence the answer is always yes. */
  method GenerateAndVerify(sha: HashFn, leaves: seq<Digest>, idx: nat)
    returns (proof: seq<Digest>, ok: bool)
    requires idx < |leaves|
    ensures |proof| == Rounds(|leaves|)
    ensures ok
  {
    var root := BuildMerkleRoot(sha, leaves);
    proof := GenProof(sha, leaves, idx);
    var leafHash := leaves[idx];
    ok := VerifyProof(sha, leafHash, idx, proof, root);
    RoundTrip(Combiner(sha), leaves, idx);
  }

  /** Round trip on the engine's own root: every valid position's proof
      verifies against the root of the whole leaf sequence. */
  lemma {:induction false} EngineRoundTrip(sha: HashFn, leaves: seq<Digest>, i: nat)
    requires i < |leaves|
    ensures Verifies(Combiner(sha), leaves[i], i, Proof(Combiner(sha), leaves, i), MerkleRoot(sha, leaves))
  {
    RoundTrip(Combiner(sha), leaves, i);
  }
}
