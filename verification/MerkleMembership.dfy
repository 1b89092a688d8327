/** What an accepted proof says about its leaf: membership, and the proof lengths for which it fails. */
module MerkleMembership {
  import opened Wrappers
  import opened Bytes
  import opened Merkle
  import opened MerkleBinding
  import opened MerkleLengths

  // ---- proofs of the depth of the tree ----

  /** The first position from `k` on whose children differ from the given pair but have the same parent. */
  function CollisionWithPair(h: PairHash, level: seq<Digest>, left: Digest, right: Digest, k: nat)
    : (found: Option<Collision>)
    ensures found == None || Collides(h, found)
    decreases |level| + 1 - 2 * k
  {
    if 2 * k >= |level| then None
    else
      var c := Collision(left, right, level[2 * k], Partner(level, 2 * k));
      if IsCollision(h, c) then Some(c) else CollisionWithPair(h, level, left, right, k + 1)
  }

  /** Follows a climb from the top and returns the first children that differ from those in the tree. */
  function CollisionOnPath(h: PairHash, leaves: seq<Digest>, leaf: Digest, proof: seq<Step>)
    : (found: Option<Collision>)
    ensures found == None || Collides(h, found)
    decreases |proof|
  {
    if |proof| == 0 then None
    else
      var step := proof[0];
      match CollisionOnPath(h, NextLevel(h, leaves), Combine(h, leaf, step), proof[1..])
      case Some(c) => Some(c)
      case None =>
        if step.isRight then CollisionWithPair(h, leaves, leaf, step.sibling, 0)
        else CollisionWithPair(h, leaves, step.sibling, leaf, 0)
  }

  lemma {:induction false} ForeignPairCollides(h: PairHash, level: seq<Digest>, left: Digest, right: Digest,
                                               k: nat, i: nat)
    requires k <= i && 2 * i < |level| && h(left, right) == h(level[2 * i], Partner(level, 2 * i))
    requires left != level[2 * i] || right != Partner(level, 2 * i)
    ensures Collides(h, CollisionWithPair(h, level, left, right, k))
    decreases i - k
  {
    if k < i {
      ForeignPairCollides(h, level, left, right, k + 1, i);
    }
  }

  /** A pair of children whose parent is in the next level is a pair of this level, or a collision is computed. */
  lemma ChildrenAreListed(h: PairHash, level: seq<Digest>, left: Digest, right: Digest)
    requires h(left, right) in NextLevel(h, level)
    ensures (left in level && right in level) || Collides(h, CollisionWithPair(h, level, left, right, 0))
  {
    var i: nat :| i < |NextLevel(h, level)| && NextLevel(h, level)[i] == h(left, right);
    if left != level[2 * i] || right != Partner(level, 2 * i) {
      ForeignPairCollides(h, level, left, right, 0, i);
    }
  }

  /**
   * Membership: whatever proof of the tree's depth a verifier accepts, its leaf is one of the leaves, or a
   * collision is computed. Nothing is asked of the directions.
   */
  lemma {:induction false} AcceptedLeafIsListed(h: PairHash, leaves: seq<Digest>, leaf: Digest, proof: seq<Step>)
    requires |leaves| > 0 && |proof| == Depth(|leaves|)
    requires Climb(h, leaf, proof) == Root(h, leaves)
    ensures leaf in leaves || Collides(h, CollisionOnPath(h, leaves, leaf, proof))
    decreases |proof|
  {
    if |proof| > 0 {
      var step, rest := proof[0], proof[1..];
      assert proof == [step] + rest;
      ClimbFromTheLeaf(h, leaf, step, rest);
      var parent := Combine(h, leaf, step);
      AcceptedLeafIsListed(h, NextLevel(h, leaves), parent, rest);
      if parent in NextLevel(h, leaves) {
        if step.isRight {
          ChildrenAreListed(h, leaves, leaf, step.sibling);
        } else {
          ChildrenAreListed(h, leaves, step.sibling, leaf);
        }
      }
    }
  }

  // ---- proofs of any length ----

  lemma {:induction false} TreeAboveLevel(h: PairHash, leaves: seq<Digest>, k: nat)
    requires |leaves| > 0 && k <= Depth(|leaves|)
    ensures |Level(h, leaves, k)| > 0
    ensures Root(h, Level(h, leaves, k)) == Root(h, leaves)
    ensures Depth(|Level(h, leaves, k)|) == Depth(|leaves|) - k
    decreases k
  {
    if k > 0 {
      TreeAboveLevel(h, NextLevel(h, leaves), k - 1);
      hide NextLevel;
    }
  }

  /** A proof that is `k` steps short is accepted for nodes `k` levels up only, or a collision is computed. */
  lemma ShortProofIsForLevel(h: PairHash, leaves: seq<Digest>, k: nat, node: Digest, proof: seq<Step>)
    requires |leaves| > 0 && k + |proof| == Depth(|leaves|)
    requires Climb(h, node, proof) == Root(h, leaves)
    ensures node in Level(h, leaves, k) || Collides(h, CollisionOnPath(h, Level(h, leaves, k), node, proof))
  {
    TreeAboveLevel(h, leaves, k);
    AcceptedLeafIsListed(h, Level(h, leaves, k), node, proof);
  }

  function Ancestor(index: nat, k: nat): nat {
    if k == 0 then index else Ancestor(index / 2, k - 1)
  }

  /** The first step of a path, and what is one level up. */
  lemma PathOneLevelUp(h: PairHash, leaves: seq<Digest>, index: nat, k: nat)
    requires index < |leaves| && 0 < k <= Depth(|leaves|)
    ensures var step, next := SiblingStep(leaves, index), NextLevel(h, leaves);
      && index / 2 < |next| && Depth(|next|) == Depth(|leaves|) - 1
      && Proof(h, leaves, index) == [step] + Proof(h, next, index / 2)
      && Combine(h, leaves[index], step) == next[index / 2]
      && Root(h, leaves) == Root(h, next) && Level(h, leaves, k) == Level(h, next, k - 1)
  {
    SiblingLeadsToParent(h, leaves, index);
    HalfInRange(|leaves|, index);
    hide NextLevel, SiblingStep, Combine;
  }

  /**
   * On the way from every leaf, the node at every height is accepted with the rest of the path as its proof,
   * whether or not it is a leaf too.
   */
  lemma {:induction false} InnerNodeIsAccepted(h: PairHash, leaves: seq<Digest>, index: nat, k: nat)
    requires index < |leaves| && k <= Depth(|leaves|)
    ensures |Proof(h, leaves, index)| == Depth(|leaves|)
    ensures var path, level := Proof(h, leaves, index), Level(h, leaves, k);
      && Ancestor(index, k) < |level| && Climb(h, leaves[index], path[..k]) == level[Ancestor(index, k)]
      && Climb(h, level[Ancestor(index, k)], path[k..]) == Root(h, leaves)
    decreases k
  {
    hide NextLevel, SiblingStep, Combine, Proof, Root, Climb, Level, Depth, Ancestor;
    ProofLength(h, leaves, index);
    if k == 0 {
      PathAtLeaf(h, leaves, index);
    } else {
      PathOneLevelUp(h, leaves, index, k);
      var step, next := SiblingStep(leaves, index), NextLevel(h, leaves);
      var rest := Proof(h, next, index / 2);
      InnerNodeIsAccepted(h, next, index / 2, k - 1);
      PathOnce(step, rest, k);
      ClimbFromTheLeaf(h, leaves[index], step, rest[..k - 1]);
      AncestorOneLevelUp(index, k);
    }
  }

  lemma PathAtLeaf(h: PairHash, leaves: seq<Digest>, index: nat)
    requires index < |leaves|
    ensures var path := Proof(h, leaves, index);
      && Level(h, leaves, 0) == leaves && Ancestor(index, 0) == index
      && Climb(h, leaves[index], path[..0]) == leaves[index]
      && Climb(h, leaves[index], path[0..]) == Root(h, leaves)
  {
    var path := Proof(h, leaves, index);
    ProofReachesRoot(h, leaves, index);
    hide NextLevel, SiblingStep, Combine, Proof, Root;
    assert path[0..] == path && path[..0] == [];
  }

  lemma AncestorOneLevelUp(index: nat, k: nat)
    requires k > 0
    ensures Ancestor(index, k) == Ancestor(index / 2, k - 1)
  {
  }

  lemma HalfInRange(n: nat, index: nat)
    requires index < n
    ensures index / 2 < (n + 1) / 2
  {
  }

  lemma PathOnce(step: Step, rest: seq<Step>, k: nat)
    requires 0 < k <= |rest| + 1
    ensures ([step] + rest)[..k] == [step] + rest[..k - 1] && ([step] + rest)[k..] == rest[k - 1..]
  {
  }

  lemma {:induction false} ClimbInTwo(h: PairHash, leaf: Digest, proof: seq<Step>, n: nat)
    requires n <= |proof|
    ensures Climb(h, leaf, proof) == Climb(h, Climb(h, leaf, proof[..n]), proof[n..])
    decreases |proof|
  {
    if n == |proof| {
      assert proof[..n] == proof;
    } else {
      var front := proof[..|proof| - 1];
      ClimbInTwo(h, leaf, front, n);
      assert front[..n] == proof[..n] && front[n..] == proof[n..][..|proof| - n - 1];
    }
  }

  /** A proof that is `k` steps too long is accepted below leaves only, or a collision is computed. */
  lemma LongProofIsBelowLeaf(h: PairHash, leaves: seq<Digest>, k: nat, leaf: Digest, proof: seq<Step>)
    requires |leaves| > 0 && |proof| == Depth(|leaves|) + k
    requires Climb(h, leaf, proof) == Root(h, leaves)
    ensures var top := Climb(h, leaf, proof[..k]);
            top in leaves || Collides(h, CollisionOnPath(h, leaves, top, proof[k..]))
  {
    ClimbInTwo(h, leaf, proof, k);
    AcceptedLeafIsListed(h, leaves, Climb(h, leaf, proof[..k]), proof[k..]);
  }

  /** Whatever climbs to a leaf in `k` steps is accepted with a proof that is `k` steps too long. */
  lemma PreimageOfLeafIsAccepted(h: PairHash, leaves: seq<Digest>, index: nat, below: Digest, steps: seq<Step>)
    requires index < |leaves| && Climb(h, below, steps) == leaves[index]
    ensures var proof := steps + Proof(h, leaves, index);
            |proof| == Depth(|leaves|) + |steps| && Climb(h, below, proof) == Root(h, leaves)
  {
    var path := Proof(h, leaves, index);
    ProofLength(h, leaves, index);
    ProofReachesRoot(h, leaves, index);
    ClimbInTwo(h, below, steps + path, |steps|);
    assert (steps + path)[..|steps|] == steps && (steps + path)[|steps|..] == path;
  }

  // ---- the depth is the one length that accepts leaves only ----

  /** In trees of `n` leaves, proofs of `len` steps are accepted for leaves only, up to a computed collision. */
  ghost predicate AcceptsLeavesOnly(h: PairHash, n: nat, len: nat) {
    forall leaves: seq<Digest>, leaf: Digest, proof: seq<Step> ::
      |leaves| == n && |proof| == len && Climb(h, leaf, proof) == Root(h, leaves)
      ==> LeafOrCollision(h, leaves, leaf, proof)
  }

  predicate LeafOrCollision(h: PairHash, leaves: seq<Digest>, leaf: Digest, proof: seq<Step>) {
    leaf in leaves || Collides(h, CollisionOnPath(h, leaves, leaf, proof))
  }

  /** Hashing a digest with itself again and again gives no digest twice in the first `top` steps. */
  predicate NoRepeat(h: PairHash, d: Digest, top: nat) {
    forall i: nat, j: nat :: i < j <= top ==> Up(h, d, i) != Up(h, d, j)
  }

  /** The proof in which every node is its own sibling. */
  function Chain(h: PairHash, d: Digest, len: nat): (proof: seq<Step>)
    ensures |proof| == len
    decreases len
  {
    if len == 0 then [] else [Step(d, true)] + Chain(h, h(d, d), len - 1)
  }

  lemma {:induction false} ClimbOfChain(h: PairHash, d: Digest, len: nat)
    ensures Climb(h, d, Chain(h, d, len)) == Up(h, d, len)
    decreases len
  {
    if len > 0 {
      ClimbOfChain(h, h(d, d), len - 1);
      ClimbFromTheLeaf(h, d, Step(d, true), Chain(h, h(d, d), len - 1));
    }
  }

  lemma UpOnce(h: PairHash, d: Digest, k: nat)
    ensures Up(h, d, k + 1) == h(Up(h, d, k), Up(h, d, k))
  {
    UpTwice(h, d, k, 1);
    assert Up(h, Up(h, d, k), 1) == Up(h, h(Up(h, d, k), Up(h, d, k)), 0);
  }

  lemma {:induction false} OtherParentsDoNotCollide(h: PairHash, x: Digest, n: nat, y: Digest, k: nat)
    requires h(x, x) != h(y, y)
    ensures CollisionWithPair(h, Repeat(x, n), y, y, k) == None
    decreases n + 1 - 2 * k
  {
    if 2 * k < n {
      OtherParentsDoNotCollide(h, x, n, y, k + 1);
    }
  }

  lemma NextLevelOfRepeat(h: PairHash, x: Digest, n: nat)
    ensures NextLevel(h, Repeat(x, n)) == Repeat(h(x, x), (n + 1) / 2)
  {
  }

  /** A chain that runs beside a tree of equal leaves, at another height, meets none of its nodes. */
  lemma {:induction false} ChainDoesNotCollide(h: PairHash, d: Digest, a: nat, b: nat, n: nat, len: nat, top: nat)
    requires NoRepeat(h, d, top) && a != b && a + len <= top && b + len <= top
    ensures CollisionOnPath(h, Repeat(Up(h, d, a), n), Up(h, d, b), Chain(h, Up(h, d, b), len)) == None
    decreases len
  {
    if len > 0 {
      var x, y := Up(h, d, a), Up(h, d, b);
      UpOnce(h, d, a);
      UpOnce(h, d, b);
      assert h(x, x) != h(y, y);
      ChainDoesNotCollide(h, d, a + 1, b + 1, (n + 1) / 2, len - 1, top);
      OtherParentsDoNotCollide(h, x, n, y, 0);
      NextLevelOfRepeat(h, x, n);
      assert Chain(h, y, len)[1..] == Chain(h, h(y, y), len - 1);
      hide NoRepeat, Up, NextLevel, CollisionWithPair;
    }
  }

  /**
   * For every other length something is accepted: an ancestor of equal leaves, or what they are an ancestor
   * of. It is listed only if hashing `d` with itself comes back to `d` after the missing or surplus steps, and
   * no collision is found if it never comes back to any digest.
   */
  lemma OtherLengthsAcceptMore(h: PairHash, n: nat, len: nat, d: Digest)
    returns (leaves: seq<Digest>, leaf: Digest, proof: seq<Step>)
    requires n > 0 && len != Depth(n)
    ensures |leaves| == n && |proof| == len && Climb(h, leaf, proof) == Root(h, leaves)
    ensures leaf in leaves <==> Up(h, d, if len < Depth(n) then Depth(n) - len else len - Depth(n)) == d
    ensures NoRepeat(h, d, Depth(n) + 2 * len) ==> !LeafOrCollision(h, leaves, leaf, proof)
  {
    var depth := Depth(n);
    var a: nat := if len < depth then 0 else len - depth;
    var b: nat := if len < depth then depth - len else 0;
    leaves, leaf := Repeat(Up(h, d, a), n), Up(h, d, b);
    proof := Chain(h, leaf, len);
    RootOfRepeat(h, Up(h, d, a), n);
    ClimbOfChain(h, leaf, len);
    UpTwice(h, d, a, depth);
    UpTwice(h, d, b, len);
    assert leaves[0] == Up(h, d, a);
    if NoRepeat(h, d, depth + 2 * len) {
      ChainDoesNotCollide(h, d, a, b, n, len, depth + 2 * len);
    }
  }

  /** Where hashing some digest with itself does not come back, proofs of the depth accept leaves only, no others. */
  lemma OnlyTheDepth(h: PairHash, n: nat, len: nat, d: Digest)
    requires n > 0 && NoRepeat(h, d, Depth(n) + 2 * len)
    ensures AcceptsLeavesOnly(h, n, len) <==> len == Depth(n)
  {
    if len == Depth(n) {
      DepthAcceptsLeavesOnly(h, n);
    } else {
      var leaves, leaf, proof := OtherLengthsAcceptMore(h, n, len, d);
      assert !LeafOrCollision(h, leaves, leaf, proof);
    }
  }

  lemma DepthAcceptsLeavesOnly(h: PairHash, n: nat)
    requires n > 0
    ensures AcceptsLeavesOnly(h, n, Depth(n))
  {
    forall leaves: seq<Digest>, leaf: Digest, proof: seq<Step>
      | |leaves| == n && |proof| == Depth(n) && Climb(h, leaf, proof) == Root(h, leaves)
      ensures LeafOrCollision(h, leaves, leaf, proof)
    {
      AcceptedLeafIsListed(h, leaves, leaf, proof);
    }
  }

  // ---- no assumption on the hash ----

  /** A pair hash without repetitions: its results get longer. */
  function Longer(x: Digest, y: Digest): Digest {
    Digest([1] + x.bytes + y.bytes)
  }

  lemma {:induction false} LongerGrows(d: Digest, i: nat, j: nat)
    requires i < j
    ensures |Up(Longer, d, i).bytes| < |Up(Longer, d, j).bytes|
    decreases j
  {
    UpOnce(Longer, d, j - 1);
    if i < j - 1 {
      LongerGrows(d, i, j - 1);
    }
  }

  lemma LongerDoesNotRepeat(d: Digest, top: nat)
    ensures NoRepeat(Longer, d, top)
  {
    forall i: nat, j: nat | i < j <= top
      ensures Up(Longer, d, i) != Up(Longer, d, j)
    {
      LongerGrows(d, i, j);
    }
  }

  /** The depth is exactly the length for which every pair hash makes the verifier accept leaves only. */
  lemma DepthIsWhatToCheck(n: nat, len: nat)
    requires n > 0
    ensures (forall h: PairHash :: AcceptsLeavesOnly(h, n, len)) <==> len == Depth(n)
  {
    if len == Depth(n) {
      forall h: PairHash
        ensures AcceptsLeavesOnly(h, n, len)
      {
        DepthAcceptsLeavesOnly(h, n);
      }
    } else {
      LongerDoesNotRepeat(ZERO, Depth(n) + 2 * len);
      OnlyTheDepth(Longer, n, len, ZERO);
      assert !AcceptsLeavesOnly(Longer, n, len);
    }
  }

  /** The tree of no leaves accepts the zero digest. */
  lemma EmptyTreeAcceptsZero(h: PairHash)
    ensures !AcceptsLeavesOnly(h, 0, Depth(0))
  {
    assert Climb(h, ZERO, []) == Root(h, []);
    assert !LeafOrCollision(h, [], ZERO, []);
  }

  /** The root of two zero leaves is accepted with the empty proof, and it is no leaf. */
  lemma RootOfZerosIsNoLeaf()
    ensures var leaves := [ZERO, ZERO];
      && Climb(Longer, Root(Longer, leaves), []) == Root(Longer, leaves)
      && !LeafOrCollision(Longer, leaves, Root(Longer, leaves), [])
  {
    var leaves := [ZERO, ZERO];
    assert NextLevel(Longer, leaves) == [Longer(ZERO, ZERO)];
    assert Root(Longer, leaves) == Longer(ZERO, ZERO);
    assert Longer(ZERO, ZERO).bytes[0] != ZERO.bytes[0];
  }
}
