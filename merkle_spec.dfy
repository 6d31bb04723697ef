/** The Merkle tree as pure functions over levels.

    A level is folded into the next one by padding it (an odd level gets a
    copy of its last node) and hashing adjacent pairs; the root is what is
    left when one node remains.  An inclusion proof lists, level by level,
    the other member of the pair that holds the tracked node; the verifier
    climbs back up, putting the running digest on the left for an even index
    and on the right for an odd one.

    Everything is generic in the node type `T` and the pair hash `pair`, so
    that both engines (raw 32-byte digests, hex strings) share one definition
    of the tree. */
module MerkleSpec {

  /** An odd level gets a duplicate of its last node; an even one is left alone. */
  function Pad<T>(level: seq<T>): (p: seq<T>)
    ensures |p| % 2 == 0
    ensures |level| <= |p| <= |level| + 1
    ensures p[..|level|] == level
    ensures |level| < |p| ==> p[|level|] == level[|level| - 1]
  {
    if |level| % 2 == 1 then level + [level[|level| - 1]] else level
  }

  /** Hashes the adjacent pairs (p[0], p[1]), (p[2], p[3]), ... in order. */
  function Pairs<T>(pair: (T, T) -> T, p: seq<T>): (r: seq<T>)
    requires |p| % 2 == 0
    ensures |r| == |p| / 2
    decreases |p|
  {
    if |p| == 0 then [] else [pair(p[0], p[1])] + Pairs(pair, p[2..])
  }

  /** Entry k of the paired level is the hash of the k-th adjacent pair. */
  lemma {:induction false} PairsAt<T>(pair: (T, T) -> T, p: seq<T>)
    requires |p| % 2 == 0
    ensures forall k :: 0 <= k < |p| / 2 ==> Pairs(pair, p)[k] == pair(p[2 * k], p[2 * k + 1])
    decreases |p|
  {
    if |p| > 0 {
      PairsAt(pair, p[2..]);
    }
  }

  /** One fold round: pad, then pair; the next level has ceil(n/2) nodes. */
  function FoldLevel<T>(pair: (T, T) -> T, level: seq<T>): (r: seq<T>)
    ensures |r| == (|level| + 1) / 2
  {
    Pairs(pair, Pad(level))
  }

  /** Entry k of the next level hashes the k-th pair of the padded level. */
  lemma FoldLevelAt<T>(pair: (T, T) -> T, level: seq<T>)
    ensures forall k :: 0 <= k < |FoldLevel(pair, level)| ==>
      FoldLevel(pair, level)[k] == pair(Pad(level)[2 * k], Pad(level)[2 * k + 1])
  {
    PairsAt(pair, Pad(level));
  }

  /** Folds a non-empty level until a single node remains. */
  function Root<T>(pair: (T, T) -> T, level: seq<T>): T
    requires |level| > 0
    decreases |level|
  {
    if |level| == 1 then level[0] else Root(pair, FoldLevel(pair, level))
  }

  /** The other member of the pair that holds position `i` of a padded level. */
  function Sibling<T>(p: seq<T>, i: nat): T
    requires |p| % 2 == 0 && i < |p|
  {
    if i % 2 == 0 then p[i + 1] else p[i - 1]
  }

  /** The inclusion proof of position `i`: one sibling per fold round, leaf level first. */
  function Proof<T>(pair: (T, T) -> T, level: seq<T>, i: nat): seq<T>
    requires i < |level|
    decreases |level|
  {
    if |level| == 1 then []
    else [Sibling(Pad(level), i)] + Proof(pair, FoldLevel(pair, level), i / 2)
  }

  /** Unrolls one round of Proof behind an already collected prefix. */
  lemma ProofPrepend<T>(pair: (T, T) -> T, level: seq<T>, i: nat, before: seq<T>)
    requires 1 < |level| && i < |level|
    ensures before + Proof(pair, level, i)
         == (before + [Sibling(Pad(level), i)]) + Proof(pair, FoldLevel(pair, level), i / 2)
  {
  }

  /** Recomputes a root from `cur` at position `idx` and the siblings in `proof`. */
  function Climb<T>(pair: (T, T) -> T, cur: T, idx: nat, proof: seq<T>): T
    decreases |proof|
  {
    if proof == [] then cur
    else
      var next := if idx % 2 == 0 then pair(cur, proof[0]) else pair(proof[0], cur);
      Climb(pair, next, idx / 2, proof[1..])
  }

  /** The verifier's verdict. */
  predicate Verifies<T(==)>(pair: (T, T) -> T, leaf: T, idx: nat, proof: seq<T>, root: T)
  {
    Climb(pair, leaf, idx, proof) == root
  }

  /** The number of fold rounds that take `n` nodes down to one. */
  function Rounds(n: nat): nat
    decreases n
  {
    if n <= 1 then 0 else 1 + Rounds((n + 1) / 2)
  }

  function Pow2(k: nat): (r: nat)
    ensures r >= 1
  {
    if k == 0 then 1 else 2 * Pow2(k - 1)
  }

  /** A single node is its own root, and its proof is empty. */
  lemma SingleLeaf<T>(pair: (T, T) -> T, d: T)
    ensures Root(pair, [d]) == d
    ensures Proof(pair, [d], 0) == []
  {
  }

  /** Odd-count folding: the dangling third leaf is paired with itself. */
  lemma ThreeLeaves<T>(pair: (T, T) -> T, a: T, b: T, c: T)
    ensures Root(pair, [a, b, c]) == pair(pair(a, b), pair(c, c))
  {
    var up := FoldLevel(pair, [a, b, c]);
    FoldLevelAt(pair, [a, b, c]);
    FoldLevelAt(pair, up);
    assert up == [pair(a, b), pair(c, c)];
    assert FoldLevel(pair, up) == [pair(pair(a, b), pair(c, c))];
    assert Root(pair, up) == Root(pair, FoldLevel(pair, up));
  }

  /** Four leaves: the root, the proof of leaf 2 and its verification. */
  lemma FourLeaves<T>(pair: (T, T) -> T, a: T, b: T, c: T, d: T)
    ensures Root(pair, [a, b, c, d]) == pair(pair(a, b), pair(c, d))
    ensures Proof(pair, [a, b, c, d], 2) == [d, pair(a, b)]
    ensures Verifies(pair, c, 2, [d, pair(a, b)], pair(pair(a, b), pair(c, d)))
  {
    var up := FoldLevel(pair, [a, b, c, d]);
    FoldLevelAt(pair, [a, b, c, d]);
    FoldLevelAt(pair, up);
    assert up == [pair(a, b), pair(c, d)];
    assert FoldLevel(pair, up) == [pair(pair(a, b), pair(c, d))];
    assert Root(pair, up) == Root(pair, FoldLevel(pair, up));
    assert Proof(pair, up, 1) == [pair(a, b)];
    assert Climb(pair, pair(c, d), 1, [pair(a, b)]) == pair(pair(a, b), pair(c, d));
  }

  /** With no siblings to apply, the verifier compares the leaf with the root. */
  lemma EmptyProof<T>(pair: (T, T) -> T, leaf: T, idx: nat, root: T)
    ensures Verifies(pair, leaf, idx, [], root) <==> leaf == root
  {
  }

  /** Hashing the tracked node with its recorded sibling, on the side given by
      the parity of its position, yields the node that holds it one level up. */
  lemma SiblingCompletesPair<T>(pair: (T, T) -> T, level: seq<T>, i: nat)
    requires i < |level|
    ensures i / 2 < |FoldLevel(pair, level)|
    ensures FoldLevel(pair, level)[i / 2]
         == if i % 2 == 0 then pair(level[i], Sibling(Pad(level), i))
            else pair(Sibling(Pad(level), i), level[i])
  {
    var p := Pad(level);
    FoldLevelAt(pair, level);
    assert p[i] == level[i];
  }

  /** Round trip: the proof of any valid position verifies against the root. */
  lemma {:induction false} RoundTrip<T>(pair: (T, T) -> T, level: seq<T>, i: nat)
    requires i < |level|
    ensures Verifies(pair, level[i], i, Proof(pair, level, i), Root(pair, level))
    decreases |level|
  {
    if |level| > 1 {
      var up := FoldLevel(pair, level);
      SiblingCompletesPair(pair, level, i);
      RoundTrip(pair, up, i / 2);
    }
  }

  /** Exactly one sibling per fold round. */
  lemma {:induction false} ProofLength<T>(pair: (T, T) -> T, level: seq<T>, i: nat)
    requires i < |level|
    ensures |Proof(pair, level, i)| == Rounds(|level|)
    decreases |level|
  {
    if |level| > 1 {
      ProofLength(pair, FoldLevel(pair, level), i / 2);
    }
  }

  /** Rounds(n) is ceil(log2 n): the least k with n <= 2^k. */
  lemma {:induction false} RoundsIsCeilLog2(n: nat)
    requires n >= 1
    ensures n <= Pow2(Rounds(n))
    ensures n > 1 ==> Pow2(Rounds(n) - 1) < n
    decreases n
  {
    if n > 1 {
      var m := (n + 1) / 2;
      RoundsIsCeilLog2(m);
      assert Pow2(Rounds(n)) == 2 * Pow2(Rounds(m));
      if m > 1 {
        assert Pow2(Rounds(m)) == 2 * Pow2(Rounds(m) - 1);
      }
    }
  }
}
