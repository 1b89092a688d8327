/**
 * Binding of the Merkle tree. A collision of the pair hash always exists, so "no collision exists" is no
 * usable assumption: every result here computes the colliding pairs out of the data at hand instead.
 */
module MerkleBinding {
  import opened Wrappers
  import opened Bytes
  import opened Merkle

  datatype Collision = Collision(left1: Digest, right1: Digest, left2: Digest, right2: Digest)

  /** Two different pairs of children with the same parent. */
  predicate IsCollision(h: PairHash, c: Collision) {
    (c.left1 != c.left2 || c.right1 != c.right2) && h(c.left1, c.right1) == h(c.left2, c.right2)
  }

  predicate Collides(h: PairHash, found: Option<Collision>) {
    found.Some? && IsCollision(h, found.value)
  }

  /** The first position from `k` on at which two levels have colliding pairs. */
  function CollisionBetweenLevels(h: PairHash, xs: seq<Digest>, ys: seq<Digest>, k: nat): Option<Collision>
    requires |xs| == |ys|
    decreases |xs| + 1 - 2 * k
  {
    if 2 * k >= |xs| then None
    else
      var c := Collision(xs[2 * k], Partner(xs, 2 * k), ys[2 * k], Partner(ys, 2 * k));
      if IsCollision(h, c) then Some(c) else CollisionBetweenLevels(h, xs, ys, k + 1)
  }

  /** Walks two trees of the same size from the top and returns the first colliding pairs of children. */
  function CollisionBetweenTrees(h: PairHash, xs: seq<Digest>, ys: seq<Digest>): Option<Collision>
    requires |xs| == |ys|
    decreases |xs|
  {
    if |xs| <= 1 then None
    else
      match CollisionBetweenTrees(h, NextLevel(h, xs), NextLevel(h, ys))
      case Some(c) => Some(c)
      case None => CollisionBetweenLevels(h, xs, ys, 0)
  }

  lemma {:induction false} DifferentLevelsCollide(h: PairHash, xs: seq<Digest>, ys: seq<Digest>, k: nat, i: nat)
    requires |xs| == |ys| && NextLevel(h, xs) == NextLevel(h, ys)
    requires 2 * k <= i < |xs| && xs[i] != ys[i]
    ensures Collides(h, CollisionBetweenLevels(h, xs, ys, k))
    decreases |xs| - k
  {
    assert NextLevel(h, xs)[k] == NextLevel(h, ys)[k];
    if i > 2 * k + 1 {
      DifferentLevelsCollide(h, xs, ys, k + 1, i);
    }
  }

  lemma {:induction false} OnlyCollisionsAreReported(h: PairHash, xs: seq<Digest>, ys: seq<Digest>, k: nat)
    requires |xs| == |ys|
    ensures var found := CollisionBetweenLevels(h, xs, ys, k); found == None || Collides(h, found)
    decreases |xs| + 1 - 2 * k
  {
    if 2 * k < |xs| {
      OnlyCollisionsAreReported(h, xs, ys, k + 1);
    }
  }

  /** The root binds the leaves: two lists of one length with one root are equal, or a collision is computed. */
  lemma {:induction false} RootBindsLeaves(h: PairHash, xs: seq<Digest>, ys: seq<Digest>)
    requires |xs| == |ys| && Root(h, xs) == Root(h, ys)
    ensures xs == ys || Collides(h, CollisionBetweenTrees(h, xs, ys))
    decreases |xs|
  {
    if |xs| > 1 && xs != ys {
      var xs', ys' := NextLevel(h, xs), NextLevel(h, ys);
      RootBindsLeaves(h, xs', ys');
      TreeCollisionsAreCollisions(h, xs', ys');
      if CollisionBetweenTrees(h, xs', ys') == None {
        var i :| 0 <= i < |xs| && xs[i] != ys[i];
        DifferentLevelsCollide(h, xs, ys, 0, i);
      }
    }
  }

  lemma {:induction false} TreeCollisionsAreCollisions(h: PairHash, xs: seq<Digest>, ys: seq<Digest>)
    requires |xs| == |ys|
    ensures var found := CollisionBetweenTrees(h, xs, ys); found == None || Collides(h, found)
    decreases |xs|
  {
    if |xs| > 1 {
      TreeCollisionsAreCollisions(h, NextLevel(h, xs), NextLevel(h, ys));
      OnlyCollisionsAreReported(h, xs, ys, 0);
    }
  }

  /** Walks two climbs with the same directions from the top and returns the first colliding children. */
  function CollisionBetweenClimbs(h: PairHash, x: Digest, px: seq<Step>, y: Digest, py: seq<Step>)
    : Option<Collision>
    decreases |px|
  {
    if |px| == 0 || |px| != |py| then None
    else
      var n := |px| - 1;
      var cx, cy := Climb(h, x, px[..n]), Climb(h, y, py[..n]);
      var c := if px[n].isRight
               then Collision(cx, px[n].sibling, cy, py[n].sibling)
               else Collision(px[n].sibling, cx, py[n].sibling, cy);
      if IsCollision(h, c) then Some(c) else CollisionBetweenClimbs(h, x, px[..n], y, py[..n])
  }

  lemma SameDirections(px: seq<Step>, py: seq<Step>, n: nat)
    requires Flags(px) == Flags(py) && n < |px|
    ensures |px| == |py| && px[n].isRight == py[n].isRight
    ensures Flags(px[..n]) == Flags(py[..n])
  {
    assert Flags(px)[n] == Flags(py)[n];
    forall i | 0 <= i < n
      ensures Flags(px[..n])[i] == Flags(py[..n])[i]
    {
      assert Flags(px)[i] == Flags(py)[i];
    }
  }

  lemma EqualUpToLast(px: seq<Step>, py: seq<Step>, n: nat)
    requires |px| == |py| == n + 1
    requires px[n] == py[n]
    ensures px[..n] == py[..n] ==> px == py
  {
    assert px == px[..n] + [px[n]];
    assert py == py[..n] + [py[n]];
  }

  lemma {:induction false} EqualClimbsAreEqual(h: PairHash, x: Digest, px: seq<Step>, y: Digest, py: seq<Step>)
    requires Flags(px) == Flags(py)
    requires Climb(h, x, px) == Climb(h, y, py)
    ensures (x == y && px == py) || Collides(h, CollisionBetweenClimbs(h, x, px, y, py))
    decreases |px|
  {
    if |px| > 0 {
      var n := |px| - 1;
      SameDirections(px, py, n);
      var cx, cy := Climb(h, x, px[..n]), Climb(h, y, py[..n]);
      assert Combine(h, cx, px[n]) == Combine(h, cy, py[n]);
      if cx == cy && px[n].sibling == py[n].sibling {
        EqualClimbsAreEqual(h, x, px[..n], y, py[..n]);
        EqualUpToLast(px, py, n);
      }
    }
  }

  /**
   * The root binds every accepted proof: whatever leaf and proof with the directions of `index` a verifier
   * accepts, they are the leaf and the proof the builder gives for `index`, or a collision is computed.
   */
  lemma RootBindsProofs(h: PairHash, leaves: seq<Digest>, index: nat, leaf: Digest, proof: seq<Step>)
    requires index < |leaves|
    ensures Climb(h, leaf, proof) == Root(h, leaves) && Flags(proof) == Flags(Proof(h, leaves, index)) ==>
              (leaf == leaves[index] && proof == Proof(h, leaves, index))
              || Collides(h, CollisionBetweenClimbs(h, leaf, proof, leaves[index], Proof(h, leaves, index)))
  {
    if Climb(h, leaf, proof) == Root(h, leaves) && Flags(proof) == Flags(Proof(h, leaves, index)) {
      ProofReachesRoot(h, leaves, index);
      EqualClimbsAreEqual(h, leaf, proof, leaves[index], Proof(h, leaves, index));
    }
  }

  /**
   * The inventory scenario: after an update that keeps the number of leaves, a leaf that changed no longer
   * verifies with its old proof against the new root, and the root has moved, unless a collision is computed.
   */
  method UpdateAndVerifyStale(h: PairHash, before: seq<Digest>, after: seq<Digest>, index: nat)
    returns (root1: Digest, root2: Digest, staleOk: bool)
    requires |before| == |after| && index < |before| && before[index] != after[index]
    ensures root1 == Root(h, before) && root2 == Root(h, after)
    ensures root1 == root2 ==> Collides(h, CollisionBetweenTrees(h, before, after))
    ensures staleOk ==>
      Collides(h, CollisionBetweenClimbs(h, before[index], Proof(h, before, index),
                                         after[index], Proof(h, after, index)))
  {
    root1 := MerkleRoot(h, before);
    var proof := MerkleProof(h, before, index);
    root2 := MerkleRoot(h, after);
    staleOk := VerifyMerkleProof(h, before[index], proof, root2);
    FlagsDependOnSizeOnly(h, before, after, index);
    if root1 == root2 {
      RootBindsLeaves(h, before, after);
    }
    if staleOk {
      RootBindsProofs(h, after, index, before[index], proof);
    }
  }
}
