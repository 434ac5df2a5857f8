/** The RFC 6962 Merkle tree and the bottom-up inclusion-proof verifier.

    The hash is a parameter: every statement holds for every function from byte strings to 32-byte
    digests. The tree, its audit paths and the recomputed root are defined top-down, as sections 2.1
    and 2.1.1 of RFC 6962 define them; the verifier is the bottom-up walk over (fnode, snode). */
module Merkle {
  import opened ByteStrings
  import Seqs

  type Digest = d: Bytes | |d| == 32 witness seq(32, _ => 0)
  type Hash = Bytes -> Digest

  const U64_LIMIT := 0x1_0000_0000_0000_0000
  type U64 = n: nat | n < U64_LIMIT

  // ---------- Hashes with domain separation ----------

  function LeafInput(data: Bytes): Bytes {
    [0x00] + data
  }

  function NodeInput(left: Bytes, right: Bytes): Bytes {
    [0x01] + left + right
  }

  function LeafHash(h: Hash, data: Bytes): Digest {
    h(LeafInput(data))
  }

  function NodeHash(h: Hash, left: Bytes, right: Bytes): Digest {
    h(NodeInput(left, right))
  }

  lemma NodeInputInjective(a: Bytes, b: Bytes, c: Bytes, d: Bytes)
    requires |a| == |c| && NodeInput(a, b) == NodeInput(c, d)
    ensures a == c && b == d
  {
    assert a == NodeInput(a, b)[1..1 + |a|] && c == NodeInput(c, d)[1..1 + |c|];
    assert b == NodeInput(a, b)[1 + |a|..] && d == NodeInput(c, d)[1 + |c|..];
  }

  lemma LeafInputInjective(a: Bytes, b: Bytes)
    requires LeafInput(a) == LeafInput(b)
    ensures a == b
  {
    assert a == LeafInput(a)[1..] && b == LeafInput(b)[1..];
  }

  // ---------- The split point: the largest power of two below n ----------

  function Pow2(e: nat): nat {
    if e == 0 then 1 else 2 * Pow2(e - 1)
  }

  ghost predicate IsPow2(k: nat) {
    exists e: nat :: k == Pow2(e)
  }

  /** Doubling k while its double stays below n. */
  function Grow(k: nat, n: nat): (r: nat)
    requires 0 < k < n
    ensures k <= r < n <= 2 * r
    decreases n - k
  {
    if 2 * k >= n then k else Grow(2 * k, n)
  }

  function Split(n: nat): (k: nat)
    requires n >= 2
    ensures 0 < k < n <= 2 * k
  {
    Grow(1, n)
  }

  lemma {:induction false} Pow2Monotone(e: nat, f: nat)
    requires e <= f
    ensures 0 < Pow2(e) <= Pow2(f)
  {
    if e < f {
      Pow2Monotone(e, f - 1);
    } else if e > 0 {
      Pow2Monotone(e - 1, f - 1);
    }
  }

  lemma {:induction false} GrowIsPow2(e: nat, n: nat)
    requires 0 < Pow2(e) < n
    ensures IsPow2(Grow(Pow2(e), n))
    decreases n - Pow2(e)
  {
    if 2 * Pow2(e) < n {
      assert Pow2(e + 1) == 2 * Pow2(e);
      GrowIsPow2(e + 1, n);
    }
  }

  /** Split(n) is the power of two the standard names, and no other number is. */
  lemma SplitIsTheLargestPow2Below(n: nat, k: nat)
    requires n >= 2
    ensures k == Split(n) <==> IsPow2(k) && k < n && forall k': nat :: IsPow2(k') && k' < n ==> k' <= k
  {
    assert Pow2(0) == 1;
    GrowIsPow2(0, n);
    forall k': nat | IsPow2(k') && k' < n
      ensures k' <= Split(n)
    {
      var e: nat :| k' == Pow2(e);
      var f: nat :| Split(n) == Pow2(f);
      if e > f {
        Pow2Monotone(f + 1, e);
      } else {
        Pow2Monotone(e, f);
      }
    }
  }

  // ---------- The tree and its audit paths, top-down ----------

  /** MTH of section 2.1 of RFC 6962, on nonempty lists. */
  function Root(h: Hash, leaves: seq<Bytes>): Digest
    requires |leaves| > 0
    decreases |leaves|
  {
    if |leaves| == 1 then LeafHash(h, leaves[0])
    else
      var k := Split(|leaves|);
      NodeHash(h, Root(h, leaves[..k]), Root(h, leaves[k..]))
  }

  /** PATH of section 2.1.1 of RFC 6962: sibling hashes, lowest first. */
  function Path(h: Hash, i: nat, leaves: seq<Bytes>): (p: seq<Bytes>)
    requires i < |leaves|
    decreases |leaves|
  {
    if |leaves| == 1 then []
    else
      var k := Split(|leaves|);
      if i < k then Path(h, i, leaves[..k]) + [Root(h, leaves[k..])]
      else Path(h, i - k, leaves[k..]) + [Root(h, leaves[..k])]
  }

  /** The length of the audit path of leaf i among n, from i and n alone. */
  function PathLength(i: nat, n: nat): nat
    requires i < n
    decreases n
  {
    if n == 1 then 0
    else
      var k := Split(n);
      1 + if i < k then PathLength(i, k) else PathLength(i - k, n - k)
  }

  /** The root that a path claims for a node hash at position i of n, computed top-down. */
  function Recompute(h: Hash, hash: Bytes, i: nat, n: nat, proof: seq<Bytes>): Bytes
    requires i < n && |proof| == PathLength(i, n)
    decreases n
  {
    if n == 1 then hash
    else
      var k := Split(n);
      var lower, sibling := proof[..|proof| - 1], proof[|proof| - 1];
      if i < k then NodeHash(h, Recompute(h, hash, i, k, lower), sibling)
      else NodeHash(h, sibling, Recompute(h, hash, i - k, n - k, lower))
  }

  datatype Verdict =
    | Accepted
    | IndexOutOfRange
    | BadRootLength
    | BadNodeLength
    | TooLong
    | TooShort
    | RootMismatch

  /** What the verifier must answer about a node hash at position i of n nodes. */
  ghost function JudgeNode(h: Hash, hash: Bytes, i: nat, n: nat, root: Bytes, proof: seq<Bytes>): Verdict
    requires i < n
  {
    var need := PathLength(i, n);
    if exists j :: 0 <= j < |proof| && j <= need && |proof[j]| != 32 then BadNodeLength
    else if |proof| > need then TooLong
    else if |proof| < need then TooShort
    else if Recompute(h, hash, i, n, proof) == root then Accepted
    else RootMismatch
  }

  /** What the verifier must answer, with the standard's top-down definitions only. */
  ghost function Judge(h: Hash, leaf: Bytes, i: nat, n: nat, root: Bytes, proof: seq<Bytes>): Verdict {
    if i >= n then IndexOutOfRange
    else if |root| != 32 then BadRootLength
    else JudgeNode(h, LeafHash(h, leaf), i, n, root, proof)
  }

  // ---------- One level of the bottom-up walk ----------

  /** Position i of n nodes lies under position p of m nodes one level up. */
  ghost predicate Under(i: nat, n: nat, p: nat, m: nat) {
    i < n && (n == 2 * m || n == 2 * m - 1) && (i == 2 * p || i == 2 * p + 1)
  }

  ghost predicate HasSibling(i: nat, n: nat, p: nat) {
    i == 2 * p + 1 || i + 1 < n
  }

  /** The string hashed for the parent of position i (which is 2p or 2p + 1). */
  function MergeInput(hash: Bytes, i: nat, p: nat, sibling: Bytes): Bytes {
    if i == 2 * p + 1 then NodeInput(sibling, hash) else NodeInput(hash, sibling)
  }

  lemma {:induction false} GrowHalves(k: nat, n: nat, m: nat)
    requires 0 < k < m && (n == 2 * m || n == 2 * m - 1)
    ensures Grow(2 * k, n) == 2 * Grow(k, m)
    decreases m - k
  {
    if 2 * k < m {
      GrowHalves(2 * k, n, m);
    }
  }

  /** Splitting commutes with going one level up. */
  lemma SplitHalves(n: nat, m: nat)
    requires m >= 2 && (n == 2 * m || n == 2 * m - 1)
    ensures Split(n) == 2 * Split(m)
  {
    GrowHalves(1, n, m);
  }

  lemma {:induction false} LowestLevelLength(i: nat, n: nat, p: nat, m: nat)
    requires Under(i, n, p, m) && n >= 2
    ensures PathLength(i, n) == PathLength(p, m) + if HasSibling(i, n, p) then 1 else 0
    decreases n, 1
  {
    assert PathLength(0, 1) == 0;
    if n > 2 {
      SplitHalves(n, m);
      if p < Split(m) {
        LowestLevelLengthInLeft(i, n, p, m, Split(m));
      } else {
        LowestLevelLengthInRight(i, n, p, m, Split(m));
      }
    }
  }

  lemma {:induction false} LowestLevelLengthInLeft(i: nat, n: nat, p: nat, m: nat, k: nat)
    requires Under(i, n, p, m) && n > 2 && k == Split(m) && Split(n) == 2 * k && p < k
    ensures PathLength(i, n) == PathLength(p, m) + if HasSibling(i, n, p) then 1 else 0
    decreases n, 0
  {
    LowestLevelLength(i, 2 * k, p, k);
  }

  lemma {:induction false} LowestLevelLengthInRight(i: nat, n: nat, p: nat, m: nat, k: nat)
    requires Under(i, n, p, m) && n > 2 && k == Split(m) && Split(n) == 2 * k && p >= k
    ensures PathLength(i, n) == PathLength(p, m) + if HasSibling(i, n, p) then 1 else 0
    decreases n, 0
  {
    var i', n', p', m' := i - 2 * k, n - 2 * k, p - k, m - k;
    assert PathLength(i, n) == 1 + PathLength(i', n') && PathLength(p, m) == 1 + PathLength(p', m');
    assert HasSibling(i, n, p) == HasSibling(i', n', p');
    if n' > 1 {
      LowestLevelLength(i', n', p', m');
    }
  }

  /** A node with no sibling on its level is promoted: the claimed root does not change. */
  lemma {:induction false} PromoteLowestLevel(h: Hash, hash: Bytes, i: nat, n: nat, p: nat, m: nat, proof: seq<Bytes>)
    requires Under(i, n, p, m) && n >= 2 && !HasSibling(i, n, p)
    requires |proof| == PathLength(i, n) == PathLength(p, m)
    ensures Recompute(h, hash, i, n, proof) == Recompute(h, hash, p, m, proof)
    decreases n
  {
    var k := Split(m);
    SplitHalves(n, m);
    ShiftRight(i, n, p, m, k, [], []);
    var lower, sibling := proof[..|proof| - 1], proof[|proof| - 1];
    Seqs.SplitLast(proof);
    if m - k > 1 {
      LowestLevelLength(i - 2 * k, n - 2 * k, p - k, m - k);
      PromoteLowestLevel(h, hash, i - 2 * k, n - 2 * k, p - k, m - k, lower);
    }
    JoinRight(h, hash, hash, i, n, p, m, k, lower, lower, sibling);
  }

  lemma RecomputeLeft(h: Hash, hash: Bytes, i: nat, k: nat, n: nat, lower: seq<Bytes>, sibling: Bytes)
    requires n >= 2 && k == Split(n) && i < k && |lower| == PathLength(i, k)
    ensures PathLength(i, n) == |lower| + 1
    ensures Recompute(h, hash, i, n, lower + [sibling]) == NodeHash(h, Recompute(h, hash, i, k, lower), sibling)
  {
    Seqs.LastOfConcat(lower, sibling);
  }

  lemma RecomputeRight(h: Hash, hash: Bytes, i: nat, k: nat, n: nat, lower: seq<Bytes>, sibling: Bytes)
    requires n >= 2 && k == Split(n) && k <= i < n && |lower| == PathLength(i - k, n - k)
    ensures PathLength(i, n) == |lower| + 1
    ensures Recompute(h, hash, i, n, lower + [sibling]) == NodeHash(h, sibling, Recompute(h, hash, i - k, n - k, lower))
  {
    Seqs.LastOfConcat(lower, sibling);
  }

  lemma JoinLeft(h: Hash, hash: Bytes, next: Bytes, i: nat, n: nat, p: nat, m: nat, k: nat,
                 lower: seq<Bytes>, rest: seq<Bytes>, sibling: Bytes)
    requires n >= 2 && m >= 2 && Split(n) == 2 * k && Split(m) == k && i < 2 * k && p < k
    requires |lower| == PathLength(i, 2 * k) && |rest| == PathLength(p, k)
    requires Recompute(h, hash, i, 2 * k, lower) == Recompute(h, next, p, k, rest)
    ensures |lower| + 1 == PathLength(i, n) && |rest| + 1 == PathLength(p, m)
    ensures Recompute(h, hash, i, n, lower + [sibling]) == Recompute(h, next, p, m, rest + [sibling])
  {
    RecomputeLeft(h, hash, i, 2 * k, n, lower, sibling);
    RecomputeLeft(h, next, p, k, m, rest, sibling);
  }

  lemma JoinRight(h: Hash, hash: Bytes, next: Bytes, i: nat, n: nat, p: nat, m: nat, k: nat,
                  lower: seq<Bytes>, rest: seq<Bytes>, sibling: Bytes)
    requires n >= 2 && m >= 2 && Split(n) == 2 * k && Split(m) == k && 2 * k <= i < n && k <= p < m
    requires |lower| == PathLength(i - 2 * k, n - 2 * k) && |rest| == PathLength(p - k, m - k)
    requires Recompute(h, hash, i - 2 * k, n - 2 * k, lower) == Recompute(h, next, p - k, m - k, rest)
    ensures |lower| + 1 == PathLength(i, n) && |rest| + 1 == PathLength(p, m)
    ensures Recompute(h, hash, i, n, lower + [sibling]) == Recompute(h, next, p, m, rest + [sibling])
  {
    RecomputeRight(h, hash, i, 2 * k, n, lower, sibling);
    RecomputeRight(h, next, p, k, m, rest, sibling);
  }

  /** A position in the right half, counted from its start. */
  lemma ShiftRight(i: nat, n: nat, p: nat, m: nat, k: nat, hash: Bytes, sibling: Bytes)
    requires Under(i, n, p, m) && k <= p < m
    ensures 2 * k <= i && Under(i - 2 * k, n - 2 * k, p - k, m - k)
    ensures HasSibling(i - 2 * k, n - 2 * k, p - k) <==> HasSibling(i, n, p)
    ensures MergeInput(hash, i - 2 * k, p - k, sibling) == MergeInput(hash, i, p, sibling)
  {
  }

  lemma PathLengthRight(i: nat, n: nat, k: nat)
    requires n >= 2 && Split(n) == k && k <= i < n
    ensures PathLength(i, n) == PathLength(i - k, n - k) + 1
  {
  }

  lemma SiblingLength(i: nat, n: nat, p: nat, m: nat)
    requires Under(i, n, p, m) && HasSibling(i, n, p)
    ensures PathLength(i, n) == PathLength(p, m) + 1
  {
    LowestLevelLength(i, n, p, m);
  }

  lemma ShiftedLengths(i: nat, n: nat, p: nat, m: nat, k: nat)
    requires Under(i, n, p, m) && n > 2 && Split(m) == k && Split(n) == 2 * k && k <= p && HasSibling(i, n, p)
    ensures 2 * k <= i && PathLength(i - 2 * k, n - 2 * k) == PathLength(p - k, m - k) + 1
    ensures PathLength(i, n) == PathLength(i - 2 * k, n - 2 * k) + 1
  {
    ShiftRight(i, n, p, m, k, [], []);
    PathLengthRight(i, n, 2 * k);
    SiblingLength(i - 2 * k, n - 2 * k, p - k, m - k);
  }

  /** Merging a node with its sibling and moving one level up keeps the claimed root. With
      promotion, this is what makes the bottom-up walk agree with the top-down definition. */
  lemma {:induction false} MergeLowestLevel(h: Hash, hash: Bytes, next: Bytes,
                                            i: nat, n: nat, p: nat, m: nat, proof: seq<Bytes>)
    requires Under(i, n, p, m) && HasSibling(i, n, p)
    requires |proof| == PathLength(i, n) == PathLength(p, m) + 1
    requires next == h(MergeInput(hash, i, p, proof[0]))
    ensures Recompute(h, hash, i, n, proof) == Recompute(h, next, p, m, proof[1..])
    decreases n, 1
  {
    if n == 2 {
      assert PathLength(0, 1) == 0;
    } else {
      var k, lower, sibling := Split(m), proof[..|proof| - 1], proof[|proof| - 1];
      SplitHalves(n, m);
      Seqs.SplitLast(proof);
      if p < k {
        MergeInLeftHalf(h, hash, next, i, n, p, m, k, lower, sibling);
      } else {
        MergeInRightHalf(h, hash, next, i, n, p, m, k, lower, sibling);
      }
    }
  }

  lemma {:induction false} MergeInLeftHalf(h: Hash, hash: Bytes, next: Bytes, i: nat, n: nat, p: nat, m: nat, k: nat,
                                           lower: seq<Bytes>, sibling: Bytes)
    requires Under(i, n, p, m) && n > 2 && Split(m) == k && Split(n) == 2 * k && p < k
    requires |lower| + 1 == PathLength(i, n) == PathLength(p, m) + 1
    requires next == h(MergeInput(hash, i, p, (lower + [sibling])[0]))
    ensures Recompute(h, hash, i, n, lower + [sibling]) == Recompute(h, next, p, m, (lower + [sibling])[1..])
    decreases n, 0
  {
    LowestLevelLength(i, 2 * k, p, k);
    Seqs.FirstOfConcat(lower, [sibling]);
    MergeLowestLevel(h, hash, next, i, 2 * k, p, k, lower);
    JoinLeft(h, hash, next, i, n, p, m, k, lower, lower[1..], sibling);
  }

  lemma {:induction false} MergeInRightHalf(h: Hash, hash: Bytes, next: Bytes, i: nat, n: nat, p: nat, m: nat, k: nat,
                                            lower: seq<Bytes>, sibling: Bytes)
    requires Under(i, n, p, m) && n > 2 && Split(m) == k && Split(n) == 2 * k && k <= p && HasSibling(i, n, p)
    requires |lower| + 1 == PathLength(i, n) == PathLength(p, m) + 1
    requires next == h(MergeInput(hash, i, p, (lower + [sibling])[0]))
    ensures Recompute(h, hash, i, n, lower + [sibling]) == Recompute(h, next, p, m, (lower + [sibling])[1..])
    decreases n, 0
  {
    ShiftedLengths(i, n, p, m, k);
    Seqs.FirstOfConcat(lower, [sibling]);
    ShiftRight(i, n, p, m, k, hash, lower[0]);
    MergeLowestLevel(h, hash, next, i - 2 * k, n - 2 * k, p - k, m - k, lower);
    JoinRight(h, hash, next, i, n, p, m, k, lower, lower[1..], sibling);
  }

  // ---------- The walk ----------

  /** Where the inner loop stops: shift down until the node is a right child. */
  function Ascend(fnode: nat, snode: nat): (r: (nat, nat)) {
    if fnode % 2 == 0 && snode != 0 then Ascend(fnode / 2, snode / 2) else (fnode, snode)
  }

  /** The walk over the proof, one node at a time. */
  ghost function Walk(h: Hash, hash: Bytes, fnode: nat, snode: nat, root: Bytes, proof: seq<Bytes>): Verdict
    decreases |proof|
  {
    if proof == [] then
      if snode != 0 then TooShort else if hash == root then Accepted else RootMismatch
    else if |proof[0]| != 32 then BadNodeLength
    else if snode == 0 then TooLong
    else if fnode % 2 == 1 || fnode == snode then
      var (f, s) := Ascend(fnode, snode);
      Walk(h, NodeHash(h, proof[0], hash), f / 2, s / 2, root, proof[1..])
    else Walk(h, NodeHash(h, hash, proof[0]), fnode / 2, snode / 2, root, proof[1..])
  }

  lemma JudgeAfterMerge(h: Hash, hash: Bytes, i: nat, n: nat, p: nat, m: nat, root: Bytes, proof: seq<Bytes>)
    requires Under(i, n, p, m) && HasSibling(i, n, p) && |proof| > 0 && |proof[0]| == 32
    ensures JudgeNode(h, hash, i, n, root, proof) ==
            JudgeNode(h, h(MergeInput(hash, i, p, proof[0])), p, m, root, proof[1..])
  {
    var need := PathLength(p, m);
    LowestLevelLength(i, n, p, m);
    if j :| 0 <= j < |proof| && j <= need + 1 && |proof[j]| != 32 {
      assert |proof[1..][j - 1]| != 32;
    } else if |proof| == need + 1 {
      MergeLowestLevel(h, hash, h(MergeInput(hash, i, p, proof[0])), i, n, p, m, proof);
    }
  }

  lemma JudgeAfterPromotion(h: Hash, hash: Bytes, i: nat, n: nat, p: nat, m: nat, root: Bytes, proof: seq<Bytes>)
    requires Under(i, n, p, m) && n >= 2 && !HasSibling(i, n, p)
    ensures JudgeNode(h, hash, i, n, root, proof) == JudgeNode(h, hash, p, m, root, proof)
  {
    LowestLevelLength(i, n, p, m);
    if |proof| == PathLength(i, n) {
      PromoteLowestLevel(h, hash, i, n, p, m, proof);
    }
  }

  lemma {:induction false} JudgeAfterAscent(h: Hash, hash: Bytes, fnode: nat, snode: nat,
                                           root: Bytes, proof: seq<Bytes>)
    requires 0 < snode && fnode <= snode && (fnode % 2 == 1 || fnode == snode)
    ensures var (f, s) := Ascend(fnode, snode);
            f % 2 == 1 && f <= s &&
            JudgeNode(h, hash, fnode, snode + 1, root, proof) == JudgeNode(h, hash, f, s + 1, root, proof)
  {
    if fnode % 2 == 0 {
      var p := fnode / 2;
      assert Under(fnode, fnode + 1, p, p + 1);
      JudgeAfterPromotion(h, hash, fnode, fnode + 1, p, p + 1, root, proof);
      JudgeAfterAscent(h, hash, p, p, root, proof);
    }
  }

  lemma WalkEndIsJudge(h: Hash, hash: Bytes, fnode: nat, snode: nat, root: Bytes, proof: seq<Bytes>)
    requires fnode <= snode && (proof == [] || |proof[0]| != 32 || snode == 0)
    ensures Walk(h, hash, fnode, snode, root, proof) == JudgeNode(h, hash, fnode, snode + 1, root, proof)
  {
  }

  /** The bottom-up walk gives the verdict of the top-down definition. */
  lemma {:induction false} WalkIsJudge(h: Hash, hash: Bytes, fnode: nat, snode: nat, root: Bytes, proof: seq<Bytes>)
    requires fnode <= snode
    ensures Walk(h, hash, fnode, snode, root, proof) == JudgeNode(h, hash, fnode, snode + 1, root, proof)
    decreases |proof|, 1
  {
    if proof == [] || |proof[0]| != 32 || snode == 0 {
      WalkEndIsJudge(h, hash, fnode, snode, root, proof);
    } else if fnode % 2 == 1 || fnode == snode {
      RightWalkIsJudge(h, hash, fnode, snode, root, proof[0], proof[1..], proof);
    } else {
      LeftWalkIsJudge(h, hash, fnode, snode, root, proof[0], proof[1..], proof);
    }
  }

  lemma RightWalk(h: Hash, hash: Bytes, fnode: nat, snode: nat, root: Bytes, rest: seq<Bytes>, proof: seq<Bytes>)
    requires 0 < snode && (fnode % 2 == 1 || fnode == snode)
    requires proof != [] && rest == proof[1..] && |proof[0]| == 32
    ensures var (f, s) := Ascend(fnode, snode);
            Walk(h, hash, fnode, snode, root, proof) == Walk(h, NodeHash(h, proof[0], hash), f / 2, s / 2, root, rest)
  {
  }

  lemma {:induction false} RightWalkIsJudge(h: Hash, hash: Bytes, fnode: nat, snode: nat, root: Bytes,
                                            sibling: Bytes, rest: seq<Bytes>, proof: seq<Bytes>)
    requires 0 < snode && fnode <= snode && (fnode % 2 == 1 || fnode == snode)
    requires proof != [] && sibling == proof[0] && rest == proof[1..] && |sibling| == 32
    ensures Walk(h, hash, fnode, snode, root, proof) == JudgeNode(h, hash, fnode, snode + 1, root, proof)
    decreases |proof|, 0
  {
    var (f, s) := Ascend(fnode, snode);
    JudgeAfterAscent(h, hash, fnode, snode, root, proof);
    JudgeAfterMerge(h, hash, f, s + 1, f / 2, s / 2 + 1, root, proof);
    RightWalk(h, hash, fnode, snode, root, rest, proof);
    WalkIsJudge(h, NodeHash(h, sibling, hash), f / 2, s / 2, root, rest);
  }

  lemma {:induction false} LeftWalkIsJudge(h: Hash, hash: Bytes, fnode: nat, snode: nat, root: Bytes,
                                           sibling: Bytes, rest: seq<Bytes>, proof: seq<Bytes>)
    requires fnode < snode && fnode % 2 == 0
    requires proof != [] && sibling == proof[0] && rest == proof[1..] && |sibling| == 32
    ensures Walk(h, hash, fnode, snode, root, proof) == JudgeNode(h, hash, fnode, snode + 1, root, proof)
    decreases |proof|, 0
  {
    JudgeAfterMerge(h, hash, fnode, snode + 1, fnode / 2, snode / 2 + 1, root, proof);
    WalkIsJudge(h, NodeHash(h, hash, sibling), fnode / 2, snode / 2, root, rest);
  }

  // ---------- The verifier ----------

  method VerifyInclusionProof(h: Hash, leaf: Bytes, leafIndex: U64, treeSize: U64, rootHash: Bytes, proof: seq<Bytes>)
    returns (verdict: Verdict)
    ensures verdict == Judge(h, leaf, leafIndex, treeSize, rootHash, proof)
  {
    if leafIndex >= treeSize {
      return IndexOutOfRange;
    }
    if |rootHash| != 32 {
      return BadRootLength;
    }
    WalkIsJudge(h, LeafHash(h, leaf), leafIndex, treeSize - 1, rootHash, proof);
    var hash: Bytes := LeafHash(h, leaf);
    var fnode: U64, snode: U64 := leafIndex, treeSize - 1;
    assert proof == proof[0..];
    for j := 0 to |proof|
      invariant Walk(h, hash, fnode, snode, rootHash, proof[j..]) ==
                Judge(h, leaf, leafIndex, treeSize, rootHash, proof)
    {
      var sibling := proof[j];
      assert proof[j..][0] == sibling && proof[j..][1..] == proof[j + 1..];
      if |sibling| != 32 {
        return BadNodeLength;
      }
      if snode == 0 {
        return TooLong;
      }
      if fnode % 2 == 1 || fnode == snode {
        hash := NodeHash(h, sibling, hash);
        ghost var top := Ascend(fnode, snode);
        while fnode % 2 == 0 && snode != 0
          invariant Ascend(fnode, snode) == top
          decreases snode
        {
          fnode, snode := fnode / 2, snode / 2;
        }
      } else {
        hash := NodeHash(h, hash, sibling);
      }
      fnode, snode := fnode / 2, snode / 2;
    }
    if snode != 0 {
      return TooShort;
    }
    return if hash == rootHash then Accepted else RootMismatch;
  }
}
