/** The Python simulator (simulate.py): the same tree over hex-digest strings,
    whose proof generator never advances the tracked index and whose verifier
    always puts the running digest on the left.  Its root is the MerkleSpec
    root for the string pair hash; its proofs agree with MerkleSpec only at
    index 0. */
module MerklePy {
  import opened Hashing
  import opened MerkleSpec

  /** The two hashing primitives of the script, both returning a hex digest:
      `ofBytes` stands for `sha256(bytes(chunk)).hexdigest()` and `ofText` for
      `sha256(text.encode()).hexdigest()`. */
  datatype PyHasher = PyHasher(ofBytes: seq<Byte> -> string, ofText: string -> string)

  /** The pair hash: the digest of the two hex strings written one after the other. */
  function Combine(h: PyHasher, a: string, b: string): string
  {
    h.ofText(a + b)
  }

  function PyPair(h: PyHasher): (string, string) -> string
  {
    (a: string, b: string) => Combine(h, a, b)
  }

  /** `[hash_chunk(c) for c in firmware]`: one leaf per chunk, in order. */
  function HashChunks(h: PyHasher, firmware: seq<seq<Byte>>): (r: seq<string>)
    ensures |r| == |firmware|
    ensures forall k :: 0 <= k < |r| ==> r[k] == h.ofBytes(firmware[k])
  {
    if firmware == [] then [] else [h.ofBytes(firmware[0])] + HashChunks(h, firmware[1..])
  }

  /** A Python list: a mutable object that the caller and callee share. */
  class PyList {
    var items: seq<string>

    constructor ()
      ensures items == []
    {
      items := [];
    }

    /** `list.append(x)`. */
    method Append(x: string)
      modifies this
      ensures items == old(items) + [x]
    {
      items := items + [x];
    }
  }

  /** The caller's list after `build_merkle` or `generate_proof`: only the
      first round pads the caller's own list; later rounds pad a new list. */
  function CallerListAfter(items: seq<string>): (r: seq<string>)
    ensures |r| == |items| || |r| == |items| + 1
    ensures r[..|items|] == items
    ensures |r| == |items| + 1 <==> |items| > 1 && |items| % 2 == 1
    ensures |r| == |items| + 1 ==> r[|items|] == items[|items| - 1]
  {
    if |items| > 1 then Pad(items) else items
  }

  /** The inner `for` loop of `build_merkle`: a new list holding the pair
      hash of each adjacent pair of the padded level. */
  method PairLevel(h: PyHasher, level: PyList) returns (next: PyList)
    requires |level.items| % 2 == 0
    ensures fresh(next)
    ensures next.items == Pairs(PyPair(h), level.items)
  {
    ghost var half := |level.items| / 2;
    assert |level.items| == 2 * half;
    next := new PyList();
    var i := 0;
    while i < |level.items|
      invariant fresh(next)
      invariant i == 2 * |next.items| && |next.items| <= half
      invariant forall k :: 0 <= k < |next.items| ==>
        next.items[k] == Combine(h, level.items[2 * k], level.items[2 * k + 1])
    {
      next.Append(Combine(h, level.items[i], level.items[i + 1]));
      i := i + 2;
    }
    PairsAt(PyPair(h), level.items);
  }

  /** `build_merkle`: the root of the MerkleSpec tree over the list, which
      must not be empty (the script indexes `hashes[0]`).  The caller's list
      is padded in place when its length is odd and above one. */
  method BuildMerkle(h: PyHasher, hashes: PyList) returns (root: string)
    requires |hashes.items| > 0
    modifies hashes
    ensures root == Root(PyPair(h), old(hashes.items))
    ensures hashes.items == CallerListAfter(old(hashes.items))
  {
    var level := hashes;
    while |level.items| > 1
      invariant |level.items| >= 1
      invariant Root(PyPair(h), level.items) == Root(PyPair(h), old(hashes.items))
      invariant level == hashes ==> hashes.items == old(hashes.items)
      invariant level != hashes ==> fresh(level) && hashes.items == CallerListAfter(old(hashes.items))
      decreases |level.items|
    {
      ghost var before := level.items;
      if |level.items| % 2 == 1 {
        level.Append(level.items[|level.items| - 1]);
      }
      assert level.items == Pad(before);
      level := PairLevel(h, level);
    }
    root := level.items[0];
  }

  /** The proof the script produces: at every round the sibling of the
      unchanged `index` is recorded if `index` still lies inside the padded
      level, and nothing is recorded otherwise. */
  function PyProof(h: PyHasher, level: seq<string>, index: int): seq<string>
    decreases |level|
  {
    if |level| <= 1 then []
    else
      var p := Pad(level);
      (if 0 <= index < |p| then [Sibling(p, index)] else []) + PyProof(h, FoldLevel(PyPair(h), level), index)
  }

  /** The inner `for` loop of `generate_proof`: pairs the level like
      PairLevel and, at the one pair that holds `index`, records its other
      member. */
  method PairLevelTracking(h: PyHasher, level: PyList, index: int, proof: seq<string>)
    returns (next: PyList, proof': seq<string>)
    requires |level.items| % 2 == 0
    ensures fresh(next)
    ensures next.items == Pairs(PyPair(h), level.items)
    ensures proof' == proof + (if 0 <= index < |level.items| then [Sibling(level.items, index)] else [])
  {
    ghost var half := |level.items| / 2;
    assert |level.items| == 2 * half;
    next := new PyList();
    proof' := proof;
    var i := 0;
    while i < |level.items|
      invariant fresh(next)
      invariant i == 2 * |next.items| && |next.items| <= half
      invariant forall k :: 0 <= k < |next.items| ==>
        next.items[k] == Combine(h, level.items[2 * k], level.items[2 * k + 1])
      invariant proof' == proof + (if 0 <= index < i then [Sibling(level.items, index)] else [])
    {
      next.Append(Combine(h, level.items[i], level.items[i + 1]));
      if i == index || i + 1 == index {
        proof' := proof' + [if i == index then level.items[i + 1] else level.items[i]];
      }
      i := i + 2;
    }
    PairsAt(PyPair(h), level.items);
  }

  /** Unrolls one round of PyProof behind an already collected prefix. */
  lemma PyProofPrepend(h: PyHasher, level: seq<string>, index: int, before: seq<string>)
    requires |level| > 1
    ensures before + PyProof(h, level, index)
         == (before + (if 0 <= index < |Pad(level)| then [Sibling(Pad(level), index)] else []))
            + PyProof(h, FoldLevel(PyPair(h), level), index)
  {
  }

  /** `generate_proof`: the as-written proof, with the same in-place padding
      of the caller's list as `build_merkle`.  An empty list gives an empty
      proof. */
  method GenerateProof(h: PyHasher, hashes: PyList, index: int) returns (proof: seq<string>)
    modifies hashes
    ensures proof == PyProof(h, old(hashes.items), index)
    ensures hashes.items == CallerListAfter(old(hashes.items))
  {
    proof := [];
    var level := hashes;
    while |level.items| > 1
      invariant proof + PyProof(h, level.items, index) == PyProof(h, old(hashes.items), index)
      invariant level == hashes ==> hashes.items == old(hashes.items)
      invariant level != hashes ==> fresh(level) && hashes.items == CallerListAfter(old(hashes.items))
      decreases |level.items|
    {
      ghost var before, collected := level.items, proof;
      if |level.items| % 2 == 1 {
        level.Append(level.items[|level.items| - 1]);
      }
      assert level.items == Pad(before);
      level, proof := PairLevelTracking(h, level, index, proof);
      PyProofPrepend(h, before, index, collected);
    }
  }

  /** The script's verifier: the running digest always goes on the left. */
  function PyClimb(h: PyHasher, cur: string, proof: seq<string>): string
    decreases |proof|
  {
    if proof == [] then cur else PyClimb(h, Combine(h, cur, proof[0]), proof[1..])
  }

  predicate PyVerifies(h: PyHasher, leaf: string, proof: seq<string>, root: string)
  {
    PyClimb(h, leaf, proof) == root
  }

  /** `verify_proof`: folds the siblings into the leaf from the left and
      compares with the root. */
  method VerifyProof(h: PyHasher, leafHash: string, proof: seq<string>, root: string) returns (ok: bool)
    ensures ok == PyVerifies(h, leafHash, proof, root)
    ensures proof == [] ==> (ok <==> leafHash == root)
  {
    var cur := leafHash;
    for k := 0 to |proof|
      invariant PyClimb(h, cur, proof[k..]) == PyClimb(h, leafHash, proof)
    {
      assert proof[k..][1..] == proof[k + 1..];
      cur := Combine(h, cur, proof[k]);
    }
    ok := cur == root;
  }

  /** At most one sibling per round, and none for a negative index. */
  lemma {:induction false} PyProofLength(h: PyHasher, level: seq<string>, index: int)
    ensures |PyProof(h, level, index)| <= Rounds(|level|)
    ensures index < 0 ==> PyProof(h, level, index) == []
    decreases |level|
  {
    if |level| > 1 {
      PyProofLength(h, FoldLevel(PyPair(h), level), index);
    }
  }

  /** At index 0 the script's proof is the MerkleSpec proof: position 0
      stays 0 from round to round. */
  lemma {:induction false} PyProofAtZero(h: PyHasher, level: seq<string>)
    requires |level| > 0
    ensures PyProof(h, level, 0) == Proof(PyPair(h), level, 0)
    decreases |level|
  {
    if |level| > 1 {
      PyProofAtZero(h, FoldLevel(PyPair(h), level));
    }
  }

  /** At index 0 the script's verifier is the MerkleSpec verifier: the
      running digest is on the left at every round. */
  lemma {:induction false} PyClimbAtZero(h: PyHasher, cur: string, proof: seq<string>)
    ensures PyClimb(h, cur, proof) == Climb(PyPair(h), cur, 0, proof)
    decreases |proof|
  {
    if proof != [] {
      PyClimbAtZero(h, Combine(h, cur, proof[0]), proof[1..]);
    }
  }

  /** The round trip the script does satisfy: the proof of the first leaf
      verifies against the root of a non-empty list. */
  lemma IndexZeroRoundTrip(h: PyHasher, level: seq<string>)
    requires |level| > 0
    ensures PyVerifies(h, level[0], PyProof(h, level, 0), Root(PyPair(h), level))
  {
    PyProofAtZero(h, level);
    PyClimbAtZero(h, level[0], Proof(PyPair(h), level, 0));
    RoundTrip(PyPair(h), level, 0);
  }

  /** With four leaves the script's proof of position 2 has one sibling where
      two rounds need two: at the second round index 2 is past the end of the
      two-node level. */
  lemma ProofTooShortAtIndexTwo(h: PyHasher, a: string, b: string, c: string, d: string)
    ensures PyProof(h, [a, b, c, d], 2) == [d]
    ensures Proof(PyPair(h), [a, b, c, d], 2) == [d, Combine(h, a, b)]
  {
    FourLeaves(PyPair(h), a, b, c, d);
    var up := FoldLevel(PyPair(h), [a, b, c, d]);
    assert |up| == 2;
    assert PyProof(h, up, 2) == [];
  }

  /** A hasher whose text digest is the text itself. */
  function Concatenating(): (h: PyHasher)
    ensures forall a: string, b: string :: Combine(h, a, b) == a + b
  {
    PyHasher(bytes => "", text => text)
  }

  /** The script's round trip fails at index 1 of two leaves: its verifier
      puts the running digest on the left although the leaf is the right
      member of the pair. */
  lemma RoundTripFailsAtIndexOne()
    ensures PyProof(Concatenating(), ["a", "b"], 1) == ["a"]
    ensures Root(PyPair(Concatenating()), ["a", "b"]) == "ab"
    ensures !PyVerifies(Concatenating(), "b", PyProof(Concatenating(), ["a", "b"], 1),
                        Root(PyPair(Concatenating()), ["a", "b"]))
  {
    var h := Concatenating();
    var up := FoldLevel(PyPair(h), ["a", "b"]);
    FoldLevelAt(PyPair(h), ["a", "b"]);
    assert Pad(["a", "b"]) == ["a", "b"];
    assert up[0] == Combine(h, "a", "b") == "ab";
    assert up == ["ab"];
    assert PyClimb(h, "b", ["a"]) == PyClimb(h, "ba", []);
    assert "ba" != "ab" by { assert "ba"[0] != "ab"[0]; }
  }

  /** The evidently intended generator and verifier, with the index halved
      each round and the side chosen by its parity, as in the Rust engine:
      for the script's pair hash every position round-trips. */
  lemma CorrectedRoundTrip(h: PyHasher, level: seq<string>, i: nat)
    requires i < |level|
    ensures Verifies(PyPair(h), level[i], i, Proof(PyPair(h), level, i), Root(PyPair(h), level))
  {
    RoundTrip(PyPair(h), level, i);
  }
}
