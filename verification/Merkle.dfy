/** The binary Merkle tree of the reward and inventory examples: root, inclusion proof, verifier. */
module Merkle {
  import opened Bytes

  /** A 32-byte hash value; nothing below depends on its length. */
  datatype Digest = Digest(bytes: seq<Byte>)

  const ZERO := Digest([0, 0, 0, 0, 0, 0, 0, 0, 0, 0, 0, 0, 0, 0, 0, 0,
                        0, 0, 0, 0, 0, 0, 0, 0, 0, 0, 0, 0, 0, 0, 0, 0])

  /** `merkle_hash_pair` is SHA-256 of two concatenated digests; here it is any function. */
  type PairHash = (Digest, Digest) -> Digest

  datatype Step = Step(sibling: Digest, isRight: bool)

  /** The right partner of an even position; the last node of an odd level is its own partner. */
  function Partner(level: seq<Digest>, i: nat): Digest
    requires i < |level|
  {
    if i + 1 < |level| then level[i + 1] else level[i]
  }

  function NextLevel(h: PairHash, level: seq<Digest>): (next: seq<Digest>)
    ensures |next| == (|level| + 1) / 2
    ensures forall k :: 0 <= k < |next| ==> next[k] == h(level[2 * k], Partner(level, 2 * k))
  {
    seq((|level| + 1) / 2, k requires 0 <= k < (|level| + 1) / 2 => h(level[2 * k], Partner(level, 2 * k)))
  }

  /** The leaf a provable index stands for: one past an odd list is the duplicated last leaf. */
  function LeafAt(leaves: seq<Digest>, index: nat): Digest
    requires |leaves| > 0
  {
    if index < |leaves| then leaves[index] else leaves[|leaves| - 1]
  }

  function Padded(level: seq<Digest>): (padded: seq<Digest>)
    ensures |padded| == |level| + |level| % 2
    ensures forall i :: 0 <= i < |padded| ==> padded[i] == LeafAt(level, i)
  {
    if |level| % 2 != 0 then level + [level[|level| - 1]] else level
  }

  /** What the tree stores at the top. */
  function Root(h: PairHash, leaves: seq<Digest>): Digest
    decreases |leaves|
  {
    if |leaves| == 0 then ZERO
    else if |leaves| == 1 then leaves[0]
    else Root(h, NextLevel(h, leaves))
  }

  /** The indices for which no slice access of the proof builder is out of range. */
  predicate ProvableIndex(n: nat, index: nat) {
    n <= 1 || index < n + n % 2
  }

  /** The sibling that the builder takes lies in the padded level for exactly these indices. */
  lemma ProvableExactly(level: seq<Digest>, index: nat)
    requires |level| > 1
    ensures ProvableIndex(|level|, index)
       <==> (if index % 2 == 0 then index + 1 else index - 1) < |Padded(level)|
  {
  }

  /** The neighbour of position `index` in the padded level, and the side it is on. */
  function SiblingStep(level: seq<Digest>, index: nat): Step
    requires |level| > 1 && ProvableIndex(|level|, index)
  {
    Step(Padded(level)[if index % 2 == 0 then index + 1 else index - 1], index % 2 == 0)
  }

  function Proof(h: PairHash, leaves: seq<Digest>, index: nat): seq<Step>
    requires ProvableIndex(|leaves|, index)
    decreases |leaves|
  {
    if |leaves| <= 1 then [] else [SiblingStep(leaves, index)] + Proof(h, NextLevel(h, leaves), index / 2)
  }

  function Combine(h: PairHash, node: Digest, step: Step): Digest {
    if step.isRight then h(node, step.sibling) else h(step.sibling, node)
  }

  /** The digest a verifier reaches from `leaf` by following `proof`. */
  function Climb(h: PairHash, leaf: Digest, proof: seq<Step>): Digest
    decreases |proof|
  {
    if |proof| == 0 then leaf else Combine(h, Climb(h, leaf, proof[..|proof| - 1]), proof[|proof| - 1])
  }

  // ---- the three operations, in the loops of the source ----

  method HashLevel(h: PairHash, level: seq<Digest>) returns (next: seq<Digest>)
    ensures next == NextLevel(h, level)
  {
    next := [];
    var i := 0;
    while i < |level|
      invariant i % 2 == 0 && 0 <= i <= |level| + 1
      invariant |next| == i / 2
      invariant forall k :: 0 <= k < |next| ==> next[k] == NextLevel(h, level)[k]
    {
      var left := level[i];
      var right := if i + 1 < |level| then level[i + 1] else level[i];
      next := next + [h(left, right)];
      i := i + 2;
    }
  }

  method MerkleRoot(h: PairHash, leaves: seq<Digest>) returns (root: Digest)
    ensures root == Root(h, leaves)
  {
    if |leaves| == 0 {
      return ZERO;
    }
    if |leaves| == 1 {
      return leaves[0];
    }
    var level := leaves;
    while |level| > 1
      invariant |level| > 0
      invariant Root(h, level) == Root(h, leaves)
      decreases |level|
    {
      level := HashLevel(h, level);
    }
    root := level[0];
  }

  /** The variant without the single-leaf branch computes the same root. */
  method MerkleRootNoSingleLeafBranch(h: PairHash, leaves: seq<Digest>) returns (root: Digest)
    ensures root == Root(h, leaves)
  {
    if |leaves| == 0 {
      return ZERO;
    }
    var level := leaves;
    while |level| > 1
      invariant |level| > 0
      invariant Root(h, level) == Root(h, leaves)
      decreases |level|
    {
      level := HashLevel(h, level);
    }
    root := level[0];
  }

  /** Padding a level in place and duplicating its last node inline build the same next level. */
  lemma PaddingIsInlineDuplication(h: PairHash, level: seq<Digest>)
    ensures NextLevel(h, Padded(level)) == NextLevel(h, level)
  {
    var padded := Padded(level);
    forall k | 0 <= k < (|level| + 1) / 2
      ensures NextLevel(h, padded)[k] == NextLevel(h, level)[k]
    {
      assert padded[2 * k] == level[2 * k];
      assert Partner(padded, 2 * k) == Partner(level, 2 * k);
    }
  }

  /** The body of the proof builder's loop: pad the level in place, take the sibling, hash the level. */
  method ProofTurn(h: PairHash, start: seq<Digest>, idx: nat) returns (step: Step, next: seq<Digest>)
    requires |start| > 1 && ProvableIndex(|start|, idx)
    ensures step == SiblingStep(start, idx)
    ensures next == NextLevel(h, start)
  {
    var level := start;
    if |level| % 2 != 0 {
      level := level + [level[|level| - 1]];
    }
    var siblingIdx := if idx % 2 == 0 then idx + 1 else idx - 1;
    var isRight := idx % 2 == 0;
    step := Step(level[siblingIdx], isRight);
    next := HashLevel(h, level);
    PaddingIsInlineDuplication(h, start);
  }

  lemma HalfIsProvable(n: nat, index: nat)
    requires n > 1 && ProvableIndex(n, index)
    ensures ProvableIndex((n + 1) / 2, index / 2)
  {
  }

  lemma ProofUnrolls(h: PairHash, level: seq<Digest>, idx: nat, done: seq<Step>)
    requires |level| > 1 && ProvableIndex(|level|, idx)
    ensures var next := NextLevel(h, level);
            && 0 < |next| < |level| && ProvableIndex(|next|, idx / 2)
            && done + [SiblingStep(level, idx)] + Proof(h, next, idx / 2) == done + Proof(h, level, idx)
  {
    HalfIsProvable(|level|, idx);
    hide NextLevel, SiblingStep, ProvableIndex;
    ConcatAssoc(done, [SiblingStep(level, idx)], Proof(h, NextLevel(h, level), idx / 2));
  }

  lemma ProofOfOneNode(h: PairHash, level: seq<Digest>, idx: nat)
    requires ProvableIndex(|level|, idx)
    ensures |level| <= 1 ==> Proof(h, level, idx) == []
  {
  }

  method MerkleProof(h: PairHash, leaves: seq<Digest>, index: nat) returns (proof: seq<Step>)
    requires ProvableIndex(|leaves|, index)
    ensures proof == Proof(h, leaves, index)
  {
    hide NextLevel, Proof;
    proof := [];
    ProofOfOneNode(h, leaves, index);
    if |leaves| <= 1 {
      return;
    }
    var level := leaves;
    var idx: nat := index;
    while |level| > 1
      invariant |level| > 0 && ProvableIndex(|level|, idx)
      invariant proof + Proof(h, level, idx) == Proof(h, leaves, index)
      decreases |level|
    {
      var step, next := ProofTurn(h, level, idx);
      ProofUnrolls(h, level, idx, proof);
      proof := proof + [step];
      level := next;
      idx := idx / 2;
    }
    ProofOfOneNode(h, level, idx);
    assert proof + [] == proof;
  }

  method VerifyMerkleProof(h: PairHash, leaf: Digest, proof: seq<Step>, root: Digest) returns (ok: bool)
    ensures ok <==> Climb(h, leaf, proof) == root
  {
    var current := leaf;
    for i := 0 to |proof|
      invariant current == Climb(h, leaf, proof[..i])
    {
      current := if proof[i].isRight then h(current, proof[i].sibling) else h(proof[i].sibling, current);
      assert proof[..i + 1][..i] == proof[..i];
    }
    assert proof[..|proof|] == proof;
    ok := current == root;
  }

  // ---- completeness ----

  /** Climbing one step first and then the rest is climbing the whole proof. */
  lemma {:induction false} ClimbFromTheLeaf(h: PairHash, leaf: Digest, step: Step, rest: seq<Step>)
    ensures Climb(h, leaf, [step] + rest) == Climb(h, Combine(h, leaf, step), rest)
    decreases |rest|
  {
    var whole := [step] + rest;
    if |rest| == 0 {
      assert whole == [step];
      assert Climb(h, leaf, whole[..0]) == leaf;
    } else {
      ClimbFromTheLeaf(h, leaf, step, rest[..|rest| - 1]);
      assert whole[..|whole| - 1] == [step] + rest[..|rest| - 1];
    }
  }

  /** A node combined with its sibling is its parent. */
  lemma SiblingLeadsToParent(h: PairHash, level: seq<Digest>, index: nat)
    requires |level| > 1 && ProvableIndex(|level|, index)
    ensures Combine(h, LeafAt(level, index), SiblingStep(level, index)) == LeafAt(NextLevel(h, level), index / 2)
  {
    var k := index / 2;
    assert k < |NextLevel(h, level)|;
    assert LeafAt(NextLevel(h, level), k) == h(level[2 * k], Partner(level, 2 * k));
    if index % 2 == 0 {
      assert Padded(level)[index + 1] == Partner(level, index);
    } else {
      assert Padded(level)[index - 1] == level[2 * k];
    }
  }

  lemma {:induction false} ProofReachesRoot(h: PairHash, leaves: seq<Digest>, index: nat)
    requires |leaves| > 0 && ProvableIndex(|leaves|, index)
    ensures Climb(h, LeafAt(leaves, index), Proof(h, leaves, index)) == Root(h, leaves)
    decreases |leaves|
  {
    if |leaves| > 1 {
      var next := NextLevel(h, leaves);
      SiblingLeadsToParent(h, leaves, index);
      ProofReachesRoot(h, next, index / 2);
      ClimbFromTheLeaf(h, LeafAt(leaves, index), SiblingStep(leaves, index), Proof(h, next, index / 2));
    }
  }

  /** Every leaf of every tree verifies against its root with the proof built for it. */
  method ProveAndVerify(h: PairHash, leaves: seq<Digest>, index: nat) returns (ok: bool)
    requires index < |leaves|
    ensures ok
  {
    var root := MerkleRoot(h, leaves);
    var proof := MerkleProof(h, leaves, index);
    ok := VerifyMerkleProof(h, leaves[index], proof, root);
    ProofReachesRoot(h, leaves, index);
  }

  // ---- shape ----

  function Flags(proof: seq<Step>): (flags: seq<bool>)
    ensures |flags| == |proof|
    ensures forall i :: 0 <= i < |proof| ==> flags[i] == proof[i].isRight
  {
    if |proof| == 0 then [] else [proof[0].isRight] + Flags(proof[1..])
  }

  function Pow2(n: nat): (p: nat)
    ensures p > 0
  {
    if n == 0 then 1 else 2 * Pow2(n - 1)
  }

  /** The index whose binary digits, lowest first, are the complements of the direction flags. */
  function IndexOf(flags: seq<bool>): nat {
    if |flags| == 0 then 0 else (if flags[0] then 0 else 1) + 2 * IndexOf(flags[1..])
  }

  lemma FlagsOfCons(step: Step, rest: seq<Step>)
    ensures Flags([step] + rest) == [step.isRight] + Flags(rest)
  {
    assert ([step] + rest)[1..] == rest;
  }

  lemma IndexOfCons(flag: bool, rest: seq<bool>)
    ensures IndexOf([flag] + rest) == (if flag then 0 else 1) + 2 * IndexOf(rest)
  {
    assert ([flag] + rest)[1..] == rest;
  }

  lemma {:induction false} ProofShape(h: PairHash, leaves: seq<Digest>, index: nat)
    requires index < |leaves|
    ensures var depth := |Proof(h, leaves, index)|;
            |leaves| <= Pow2(depth) && (depth > 0 ==> Pow2(depth - 1) < |leaves|)
    ensures IndexOf(Flags(Proof(h, leaves, index))) == index
    decreases |leaves|
  {
    if |leaves| > 1 {
      var step, rest := SiblingStep(leaves, index), Proof(h, NextLevel(h, leaves), index / 2);
      ProofShape(h, NextLevel(h, leaves), index / 2);
      FlagsOfCons(step, rest);
      assert Proof(h, leaves, index) == [step] + rest;
      hide Flags, NextLevel, Proof;
      IndexOfCons(step.isRight, Flags(rest));
    }
  }

  /** The nodes `k` levels above the leaves. */
  function Level(h: PairHash, leaves: seq<Digest>, k: nat): seq<Digest>
    decreases k
  {
    if k == 0 then leaves else Level(h, NextLevel(h, leaves), k - 1)
  }

  /**
   * The tree from the top: over 2^k leaves on the left, and at most as many on the right, the root is the hash
   * of the two subtree roots, the right one raised to the height of the left one.
   */
  lemma {:induction false} RootOfSubtrees(h: PairHash, left: seq<Digest>, right: seq<Digest>, k: nat)
    requires |left| == Pow2(k) && 0 < |right| <= Pow2(k)
    ensures |Level(h, right, k)| == 1
    ensures Root(h, left + right) == h(Root(h, left), Level(h, right, k)[0])
    decreases k
  {
    if k == 0 {
      var both := left + right;
      assert NextLevel(h, both) == [h(left[0], right[0])];
    } else {
      NextLevelOfTwo(h, left, right);
      RootOfSubtrees(h, NextLevel(h, left), NextLevel(h, right), k - 1);
      hide NextLevel;
    }
  }

  lemma NextLevelOfTwo(h: PairHash, x: seq<Digest>, y: seq<Digest>)
    requires |x| % 2 == 0
    ensures NextLevel(h, x + y) == NextLevel(h, x) + NextLevel(h, y)
  {
    var both := x + y;
    forall k | 0 <= k < |NextLevel(h, both)|
      ensures NextLevel(h, both)[k] == (NextLevel(h, x) + NextLevel(h, y))[k]
    {
      if 2 * k < |x| {
        assert both[2 * k] == x[2 * k] && Partner(both, 2 * k) == Partner(x, 2 * k);
      } else {
        var j := k - |x| / 2;
        assert both[2 * k] == y[2 * j] && Partner(both, 2 * k) == Partner(y, 2 * j);
      }
    }
  }

  /** The number of levels above the leaves. */
  function Depth(n: nat): nat {
    if n <= 1 then 0 else 1 + Depth((n + 1) / 2)
  }

  lemma {:induction false} ProofLength(h: PairHash, leaves: seq<Digest>, index: nat)
    requires ProvableIndex(|leaves|, index)
    ensures |Proof(h, leaves, index)| == Depth(|leaves|)
    decreases |leaves|
  {
    if |leaves| > 1 {
      var step, next := SiblingStep(leaves, index), NextLevel(h, leaves);
      ProofLength(h, next, index / 2);
      assert Proof(h, leaves, index) == [step] + Proof(h, next, index / 2);
      hide NextLevel, Proof, SiblingStep;
    }
  }

  /** Length and directions of a proof depend on the number of leaves and the index only. */
  lemma {:induction false} FlagsDependOnSizeOnly(h: PairHash, xs: seq<Digest>, ys: seq<Digest>, index: nat)
    requires |xs| == |ys| && ProvableIndex(|xs|, index)
    ensures Flags(Proof(h, xs, index)) == Flags(Proof(h, ys, index))
    decreases |xs|
  {
    if |xs| > 1 {
      var xs', ys' := NextLevel(h, xs), NextLevel(h, ys);
      FlagsOfCons(SiblingStep(xs, index), Proof(h, xs', index / 2));
      FlagsOfCons(SiblingStep(ys, index), Proof(h, ys', index / 2));
      FlagsDependOnSizeOnly(h, xs', ys', index / 2);
      hide Flags, NextLevel;
    }
  }
}
