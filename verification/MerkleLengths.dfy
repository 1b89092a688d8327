/** Lists of different lengths: which of them a Merkle root tells apart. */
module MerkleLengths {
  import opened Wrappers
  import opened Bytes
  import opened Merkle
  import opened MerkleBinding

  // ---- repeating the end of a list ----

  /** Repeating the last `size` leaves keeps the root. */
  predicate RepeatKeepsRoot(h: PairHash, leaves: seq<Digest>, size: nat) {
    size <= |leaves| && Root(h, leaves + leaves[|leaves| - size..]) == Root(h, leaves)
  }

  lemma RepeatedLastLeafKeepsRoot(h: PairHash, leaves: seq<Digest>)
    requires |leaves| >= 3 && |leaves| % 2 == 1
    ensures RepeatKeepsRoot(h, leaves, 1)
  {
    PaddingIsInlineDuplication(h, leaves);
    hide NextLevel;
    assert leaves[|leaves| - 1..] == [leaves[|leaves| - 1]];
  }

  lemma NextLevelOfRepeatedBlock(h: PairHash, leaves: seq<Digest>, half: nat)
    requires |leaves| % 2 == 0 && 2 * half <= |leaves|
    ensures var next := NextLevel(h, leaves);
            NextLevel(h, leaves + leaves[|leaves| - 2 * half..]) == next + next[|next| - half..]
  {
    var more, next := leaves + leaves[|leaves| - 2 * half..], NextLevel(h, leaves);
    forall k | 0 <= k < |next| + half
      ensures NextLevel(h, more)[k] == (next + next[|next| - half..])[k]
    {
      var j := if k < |next| then k else k - half;
      assert more[2 * k] == leaves[2 * j] && more[2 * k + 1] == leaves[2 * j + 1];
    }
  }

  lemma OneLevelUp(h: PairHash, leaves: seq<Digest>, half: nat)
    requires |leaves| == 2 * |NextLevel(h, leaves)| && half > 0 && RepeatKeepsRoot(h, NextLevel(h, leaves), half)
    ensures RepeatKeepsRoot(h, leaves, 2 * half)
  {
    NextLevelOfRepeatedBlock(h, leaves, half);
    hide NextLevel;
  }

  lemma NextLevelOfEven(h: PairHash, leaves: seq<Digest>, half: nat)
    requires |leaves| == 2 * half
    ensures |NextLevel(h, leaves)| == half
  {
  }

  /** `n` blocks of 2^k leaves. */
  function Blocks(n: nat, k: nat): (length: nat)
    ensures n > 0 ==> length >= Pow2(k)
  {
    if k == 0 then n else 2 * Blocks(n, k - 1)
  }

  /**
   * Repeating the last block keeps the root when the list is an odd number, three or more, of blocks of one
   * power of two.
   */
  lemma {:induction false} RepeatedLastBlockKeepsRoot(h: PairHash, leaves: seq<Digest>, k: nat, n: nat)
    requires |leaves| == Blocks(n, k) && n >= 3 && n % 2 == 1
    ensures RepeatKeepsRoot(h, leaves, Pow2(k))
    decreases k
  {
    hide RepeatKeepsRoot, NextLevel;
    if k == 0 {
      RepeatedLastLeafKeepsRoot(h, leaves);
    } else {
      NextLevelOfEven(h, leaves, Blocks(n, k - 1));
      RepeatedLastBlockKeepsRoot(h, NextLevel(h, leaves), k - 1, n);
      OneLevelUp(h, leaves, Pow2(k - 1));
    }
  }

  // ---- any two lengths ----

  function Repeat(d: Digest, n: nat): (s: seq<Digest>)
    ensures |s| == n && forall i :: 0 <= i < n ==> s[i] == d
  {
    seq(n, _ => d)
  }

  /** The node `k` levels above a leaf in a tree of equal leaves. */
  function Up(h: PairHash, d: Digest, k: nat): Digest
    decreases k
  {
    if k == 0 then d else Up(h, h(d, d), k - 1)
  }

  lemma {:induction false} UpTwice(h: PairHash, d: Digest, j: nat, k: nat)
    ensures Up(h, Up(h, d, j), k) == Up(h, d, j + k)
    decreases j
  {
    if j > 0 {
      UpTwice(h, h(d, d), j - 1, k);
    }
  }

  lemma {:induction false} RootOfRepeat(h: PairHash, d: Digest, n: nat)
    requires n > 0
    ensures Root(h, Repeat(d, n)) == Up(h, d, Depth(n))
    decreases n
  {
    if n > 1 {
      RootOfRepeat(h, h(d, d), (n + 1) / 2);
      assert NextLevel(h, Repeat(d, n)) == Repeat(h(d, d), (n + 1) / 2);
    }
  }

  lemma {:induction false} DepthMonotone(m: nat, n: nat)
    requires m <= n
    ensures Depth(m) <= Depth(n)
  {
    if m > 1 {
      DepthMonotone((m + 1) / 2, (n + 1) / 2);
    }
  }

  /** For any two positive lengths and any digest there are lists of these lengths with one root. */
  lemma EqualRootsOfLengths(h: PairHash, m: nat, n: nat, d: Digest) returns (xs: seq<Digest>, ys: seq<Digest>)
    requires 0 < m <= n
    ensures |xs| == m && |ys| == n && Root(h, xs) == Root(h, ys)
    ensures forall y :: y in ys ==> y == d
  {
    DepthMonotone(m, n);
    var rise := Depth(n) - Depth(m);
    xs, ys := Repeat(Up(h, d, rise), m), Repeat(d, n);
    RootOfRepeat(h, Up(h, d, rise), m);
    RootOfRepeat(h, d, n);
    UpTwice(h, d, rise, Depth(m));
  }

  /** One list, or two of one length with a computed collision between their trees. */
  predicate SameOrColliding(h: PairHash, xs: seq<Digest>, ys: seq<Digest>) {
    xs == ys || (|xs| == |ys| && Collides(h, CollisionBetweenTrees(h, xs, ys)))
  }

  /** Equal roots of lists of these lengths mean equal lists, up to a computed collision. */
  ghost predicate RootBinds(h: PairHash, m: nat, n: nat) {
    forall xs: seq<Digest>, ys: seq<Digest> ::
      |xs| == m && |ys| == n && Root(h, xs) == Root(h, ys) ==> SameOrColliding(h, xs, ys)
  }

  /** Whatever the pair hash is, the root binds non-empty lists exactly when their lengths are equal. */
  lemma RootBindsExactlyEqualLengths(h: PairHash, m: nat, n: nat)
    requires m > 0 && n > 0
    ensures RootBinds(h, m, n) <==> m == n
  {
    hide Root, CollisionBetweenTrees;
    if m == n {
      forall xs: seq<Digest>, ys: seq<Digest> | |xs| == m && |ys| == n && Root(h, xs) == Root(h, ys)
        ensures SameOrColliding(h, xs, ys)
      {
        RootBindsLeaves(h, xs, ys);
      }
    } else if m < n {
      var xs, ys := EqualRootsOfLengths(h, m, n, ZERO);
      assert !SameOrColliding(h, xs, ys);
    } else {
      var ys, xs := EqualRootsOfLengths(h, n, m, ZERO);
      assert !SameOrColliding(h, xs, ys);
    }
  }

  /** The empty list has the root of one zero leaf, so nothing binds its length either. */
  lemma EmptyListIsNotBound(h: PairHash)
    ensures !RootBinds(h, 0, 1) && !RootBinds(h, 1, 0)
    ensures |Root(h, []).bytes| == 32 && forall b :: b in Root(h, []).bytes ==> b == 0
  {
    assert Root(h, []) == Root(h, [ZERO]);
    assert !SameOrColliding(h, [], [ZERO]) && !SameOrColliding(h, [ZERO], []);
  }
}
