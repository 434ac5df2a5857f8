/** What the inclusion verifier is for: completeness, binding, membership and root commitment.

    "Up to a collision" is never vacuous here: the two colliding strings are among the strings that
    were hashed to build the tree and to recompute the root, both finite and explicit sets. */
module MerkleProofs {
  import opened ByteStrings
  import opened Merkle
  import Seqs

  // ---------- The strings that are hashed ----------

  /** Every string hashed to build the tree. */
  ghost function TreeInputs(h: Hash, leaves: seq<Bytes>): set<Bytes>
    requires |leaves| > 0
    decreases |leaves|
  {
    if |leaves| == 1 then {LeafInput(leaves[0])}
    else
      var k := Split(|leaves|);
      {NodeInput(Root(h, leaves[..k]), Root(h, leaves[k..]))} + TreeInputs(h, leaves[..k]) + TreeInputs(h, leaves[k..])
  }

  /** Every string hashed to recompute a root from a node hash and its path. */
  ghost function RecomputeInputs(h: Hash, hash: Bytes, i: nat, n: nat, proof: seq<Bytes>): set<Bytes>
    requires i < n && |proof| == PathLength(i, n)
    decreases n
  {
    if n == 1 then {}
    else
      var k := Split(n);
      var lower, sibling := proof[..|proof| - 1], proof[|proof| - 1];
      if i < k then
        {NodeInput(Recompute(h, hash, i, k, lower), sibling)} + RecomputeInputs(h, hash, i, k, lower)
      else
        {NodeInput(sibling, Recompute(h, hash, i - k, n - k, lower))} + RecomputeInputs(h, hash, i - k, n - k, lower)
  }

  /** Every string hashed by an accepting run of the verifier. */
  ghost function ProofInputs(h: Hash, leaf: Bytes, i: nat, n: nat, proof: seq<Bytes>): set<Bytes>
    requires i < n && |proof| == PathLength(i, n)
  {
    {LeafInput(leaf)} + RecomputeInputs(h, LeafHash(h, leaf), i, n, proof)
  }

  ghost predicate Collide(h: Hash, xs: set<Bytes>, ys: set<Bytes>) {
    exists x, y :: x in xs && y in ys && x != y && h(x) == h(y)
  }

  ghost predicate AllDigests(proof: seq<Bytes>) {
    forall j :: 0 <= j < |proof| ==> |proof[j]| == 32
  }

  lemma AcceptedMeans(h: Hash, leaf: Bytes, i: nat, n: nat, root: Bytes, proof: seq<Bytes>)
    ensures Judge(h, leaf, i, n, root, proof) == Accepted <==>
            i < n && |root| == 32 && |proof| == PathLength(i, n) && AllDigests(proof) &&
            Recompute(h, LeafHash(h, leaf), i, n, proof) == root
  {
  }

  // ---------- Completeness ----------

  lemma PathInLeft(h: Hash, i: nat, leaves: seq<Bytes>, left: seq<Bytes>, right: seq<Bytes>)
    requires i < |left| && |right| > 0 && leaves == left + right && |left| == Split(|leaves|)
    ensures Root(h, leaves) == NodeHash(h, Root(h, left), Root(h, right))
    ensures Path(h, i, leaves) == Path(h, i, left) + [Root(h, right)]
  {
    Seqs.SplitsBack(left, right);
  }

  lemma PathInRight(h: Hash, i: nat, leaves: seq<Bytes>, left: seq<Bytes>, right: seq<Bytes>)
    requires 0 < |left| <= i < |leaves| && leaves == left + right && |left| == Split(|leaves|)
    ensures Root(h, leaves) == NodeHash(h, Root(h, left), Root(h, right))
    ensures Path(h, i, leaves) == Path(h, i - |left|, right) + [Root(h, left)]
  {
    Seqs.SplitsBack(left, right);
  }

  /** The path leads from the leaf to the root. */
  ghost predicate Leads(h: Hash, leaf: Bytes, i: nat, n: nat, path: seq<Bytes>, root: Bytes)
    requires i < n
  {
    |path| == PathLength(i, n) && AllDigests(path) && Recompute(h, LeafHash(h, leaf), i, n, path) == root
  }

  lemma LeadsFromLeft(h: Hash, leaf: Bytes, i: nat, k: nat, n: nat, lower: seq<Bytes>, root: Bytes, sibling: Digest)
    requires n >= 2 && k == Split(n) && i < k && Leads(h, leaf, i, k, lower, root)
    ensures Leads(h, leaf, i, n, lower + [sibling], NodeHash(h, root, sibling))
  {
    RecomputeLeft(h, LeafHash(h, leaf), i, k, n, lower, sibling);
  }

  lemma LeadsFromRight(h: Hash, leaf: Bytes, i: nat, k: nat, n: nat, lower: seq<Bytes>, root: Bytes, sibling: Digest)
    requires n >= 2 && k == Split(n) && k <= i < n && Leads(h, leaf, i - k, n - k, lower, root)
    ensures Leads(h, leaf, i, n, lower + [sibling], NodeHash(h, sibling, root))
  {
    RecomputeRight(h, LeafHash(h, leaf), i, k, n, lower, sibling);
  }

  lemma {:induction false} PathRecomputesRoot(h: Hash, i: nat, leaves: seq<Bytes>)
    requires i < |leaves|
    ensures Leads(h, leaves[i], i, |leaves|, Path(h, i, leaves), Root(h, leaves))
    decreases |leaves|
  {
    if |leaves| > 1 {
      var n, k := |leaves|, Split(|leaves|);
      var left, right := leaves[..k], leaves[k..];
      Seqs.SplitAt(leaves, k);
      if i < k {
        PathRecomputesRoot(h, i, left);
        PathInLeft(h, i, leaves, left, right);
        LeadsFromLeft(h, leaves[i], i, k, n, Path(h, i, left), Root(h, left), Root(h, right));
      } else {
        PathRecomputesRoot(h, i - k, right);
        PathInRight(h, i, leaves, left, right);
        LeadsFromRight(h, leaves[i], i, k, n, Path(h, i - k, right), Root(h, right), Root(h, left));
      }
    }
  }

  /** Every leaf of every nonempty tree is accepted with its audit path. */
  lemma Completeness(h: Hash, leaves: seq<Bytes>, i: nat)
    requires i < |leaves|
    ensures Judge(h, leaves[i], i, |leaves|, Root(h, leaves), Path(h, i, leaves)) == Accepted
  {
    PathRecomputesRoot(h, i, leaves);
    AcceptedMeans(h, leaves[i], i, |leaves|, Root(h, leaves), Path(h, i, leaves));
  }

  // ---------- Soundness ----------

  lemma {:induction false} RecomputeIsDigest(h: Hash, hash: Bytes, i: nat, n: nat, proof: seq<Bytes>)
    requires i < n && |proof| == PathLength(i, n) && |hash| == 32
    ensures |Recompute(h, hash, i, n, proof)| == 32
  {
  }

  function OrderedNodeInput(inner: Bytes, sibling: Bytes, left: bool): Bytes {
    if left then NodeInput(inner, sibling) else NodeInput(sibling, inner)
  }

  lemma OrderedInjective(a: Bytes, b: Bytes, c: Bytes, d: Bytes, left: bool)
    requires |a| == |c| && |b| == |d| && OrderedNodeInput(a, b, left) == OrderedNodeInput(c, d, left)
    ensures a == c && b == d
  {
    if left {
      NodeInputInjective(a, b, c, d);
    } else {
      NodeInputInjective(b, a, d, c);
    }
  }

  /** The 0x00 and 0x01 prefixes keep leaves and nodes apart. */
  lemma DomainsAreSeparate(data: Bytes, left: Bytes, right: Bytes)
    ensures LeafInput(data) != NodeInput(left, right)
  {
    assert LeafInput(data)[0] == 0x00 && NodeInput(left, right)[0] == 0x01;
  }

  lemma DistinctLeafInputs(a: Bytes, b: Bytes)
    requires a != b
    ensures LeafInput(a) != LeafInput(b)
  {
    if LeafInput(a) == LeafInput(b) {
      LeafInputInjective(a, b);
    }
  }

  lemma CollideMonotone(h: Hash, xs: set<Bytes>, ys: set<Bytes>, xs': set<Bytes>, ys': set<Bytes>)
    requires xs <= xs' && ys <= ys'
    ensures Collide(h, xs, ys) ==> Collide(h, xs', ys')
  {
  }

  // ---------- Positions ----------

  /** The turns on the way down to leaf i of n, the last one first: left is true. */
  function Turns(i: nat, n: nat): (turns: seq<bool>)
    requires i < n
    ensures |turns| == PathLength(i, n)
    decreases n
  {
    if n == 1 then []
    else
      var k := Split(n);
      if i < k then Turns(i, k) + [true] else Turns(i - k, n - k) + [false]
  }

  /** The half that leaf i of n is in. */
  function Half(i: nat, n: nat): (half: (nat, nat))
    requires i < n && n >= 2
    ensures half.0 < half.1 < n
  {
    if i < Split(n) then (i, Split(n)) else (i - Split(n), n - Split(n))
  }

  lemma TurnsDown(i: nat, n: nat)
    requires i < n && n >= 2
    ensures Turns(i, n) == Turns(Half(i, n).0, Half(i, n).1) + [i < Split(n)]
  {
  }

  lemma SameTurnsDown(i: nat, n: nat, j: nat, m: nat)
    requires i < n && j < m && n >= 2 && m >= 2 && Turns(i, n) == Turns(j, m)
    ensures i < Split(n) <==> j < Split(m)
    ensures Turns(Half(i, n).0, Half(i, n).1) == Turns(Half(j, m).0, Half(j, m).1)
  {
    TurnsDown(i, n);
    TurnsDown(j, m);
    Seqs.LastOfConcat(Turns(Half(i, n).0, Half(i, n).1), i < Split(n));
    Seqs.LastOfConcat(Turns(Half(j, m).0, Half(j, m).1), j < Split(m));
  }

  lemma {:induction false} TurnsTellLeavesApart(i: nat, j: nat, n: nat)
    requires i < n && j < n && Turns(i, n) == Turns(j, n)
    ensures i == j
    decreases n
  {
    if n > 1 {
      SameTurnsDown(i, n, j, n);
      TurnsTellLeavesApart(Half(i, n).0, Half(j, n).0, Half(i, n).1);
    }
  }

  /** Only the turns count: the same turns, in a tree of any size, recompute the same root. */
  lemma {:induction false} SameTurnsSameRoot(h: Hash, hash: Bytes, i: nat, n: nat, j: nat, m: nat, proof: seq<Bytes>)
    requires i < n && j < m && Turns(i, n) == Turns(j, m) && |proof| == |Turns(i, n)|
    ensures Recompute(h, hash, i, n, proof) == Recompute(h, hash, j, m, proof)
    decreases n
  {
    if n > 1 && m > 1 {
      SameTurnsDown(i, n, j, m);
      var (i', n') := Half(i, n);
      var (j', m') := Half(j, m);
      SameTurnsSameRoot(h, hash, i', n', j', m', proof[..|proof| - 1]);
    }
  }

  /** So two claims that differ only in index and size get the same verdict if the turns are the same. */
  lemma SameTurnsSameVerdict(h: Hash, leaf: Bytes, i: nat, n: nat, j: nat, m: nat, root: Bytes, proof: seq<Bytes>)
    requires i < n && j < m && Turns(i, n) == Turns(j, m)
    ensures Judge(h, leaf, i, n, root, proof) == Judge(h, leaf, j, m, root, proof)
  {
    if |proof| == |Turns(i, n)| {
      SameTurnsSameRoot(h, LeafHash(h, leaf), i, n, j, m, proof);
    }
  }

  /** For example, the first leaf of three and the first leaf of four cannot be told apart. */
  lemma TurnsDoNotTellSizes()
    ensures Turns(0, 3) == Turns(0, 4) == [true, true]
  {
    assert Split(2) == 1 && Split(3) == 2 && Split(4) == 2;
    assert Turns(0, 2) == Turns(0, 1) + [true] == [true];
  }

  /** The leaf at the end of these turns is this one, and the proof is its audit path. */
  ghost predicate ProvedAt(h: Hash, leaves: seq<Bytes>, leaf: Bytes, turns: seq<bool>, proof: seq<Bytes>) {
    exists j :: 0 <= j < |leaves| && turns == Turns(j, |leaves|) && leaf == leaves[j] && proof == Path(h, j, leaves)
  }

  // ---------- Soundness at any position ----------

  /** The last string hashed to recompute a root. */
  lemma LastInput(h: Hash, leaf: Bytes, i: nat, n: nat, half: (nat, nat), proof: seq<Bytes>, lower: seq<Bytes>)
    requires i < n && n >= 2 && half == Half(i, n) && |proof| == PathLength(i, n)
    requires lower == proof[..|proof| - 1] && |lower| == PathLength(half.0, half.1)
    ensures var claimed := Recompute(h, LeafHash(h, leaf), half.0, half.1, lower);
            var y := OrderedNodeInput(claimed, proof[|proof| - 1], i < Split(n));
            y in ProofInputs(h, leaf, i, n, proof) && h(y) == Recompute(h, LeafHash(h, leaf), i, n, proof)
    ensures ProofInputs(h, leaf, half.0, half.1, lower) <= ProofInputs(h, leaf, i, n, proof)
  {
  }

  lemma {:induction false} ProvedOrCollide(h: Hash, leaves: seq<Bytes>, leaf: Bytes, i: nat, n: nat, proof: seq<Bytes>)
    requires |leaves| > 0 && i < n && |proof| == PathLength(i, n) && AllDigests(proof)
    requires Recompute(h, LeafHash(h, leaf), i, n, proof) == Root(h, leaves)
    ensures ProvedAt(h, leaves, leaf, Turns(i, n), proof) ||
            Collide(h, TreeInputs(h, leaves), ProofInputs(h, leaf, i, n, proof))
    decreases n, 1
  {
    var ys := ProofInputs(h, leaf, i, n, proof);
    if n == 1 {
      LeafAgainstTree(h, leaves, leaf, ys);
    } else {
      var lower, sibling := proof[..|proof| - 1], proof[|proof| - 1];
      var half := Half(i, n);
      Seqs.SplitLast(proof);
      TurnsDown(i, n);
      LastInput(h, leaf, i, n, half, proof, lower);
      NodeAgainstTree(h, leaves, leaf, half.0, half.1, lower, sibling, i < Split(n), ys);
    }
  }

  lemma TreeInputsOfHalves(h: Hash, leaves: seq<Bytes>, left: seq<Bytes>, right: seq<Bytes>)
    requires |leaves| > 1 && left == leaves[..Split(|leaves|)] && right == leaves[Split(|leaves|)..]
    ensures TreeInputs(h, leaves) ==
            {NodeInput(Root(h, left), Root(h, right))} + TreeInputs(h, left) + TreeInputs(h, right)
    ensures Root(h, leaves) == NodeHash(h, Root(h, left), Root(h, right))
  {
  }

  /** A leaf hash that is a root: of the tree of that leaf alone, or of a collision. */
  lemma LeafAgainstTree(h: Hash, leaves: seq<Bytes>, leaf: Bytes, ys: set<Bytes>)
    requires |leaves| > 0 && LeafHash(h, leaf) == Root(h, leaves) && LeafInput(leaf) in ys
    ensures ProvedAt(h, leaves, leaf, [], []) || Collide(h, TreeInputs(h, leaves), ys)
  {
    if |leaves| == 1 {
      assert LeafInput(leaves[0]) in TreeInputs(h, leaves);
      assert Turns(0, 1) == [] && Path(h, 0, leaves) == [];
      if leaf != leaves[0] {
        DistinctLeafInputs(leaf, leaves[0]);
      }
    } else {
      var left, right := leaves[..Split(|leaves|)], leaves[Split(|leaves|)..];
      TreeInputsOfHalves(h, leaves, left, right);
      DomainsAreSeparate(leaf, Root(h, left), Root(h, right));
    }
  }

  lemma LeafOfFirst(h: Hash, leaves: seq<Bytes>, first: seq<Bytes>, second: seq<Bytes>, j: nat)
    requires j < |first| && |second| > 0 && leaves == first + second && |first| == Split(|leaves|)
    ensures leaves[j] == first[j] && Turns(j, |leaves|) == Turns(j, |first|) + [true]
    ensures Path(h, j, leaves) == Path(h, j, first) + [Root(h, second)]
  {
    TurnsDown(j, |leaves|);
    PathInLeft(h, j, leaves, first, second);
  }

  lemma LeafOfSecond(h: Hash, leaves: seq<Bytes>, first: seq<Bytes>, second: seq<Bytes>, j: nat)
    requires |first| > 0 && j < |second| && leaves == first + second && |first| == Split(|leaves|)
    ensures leaves[|first| + j] == second[j] && Turns(|first| + j, |leaves|) == Turns(j, |second|) + [false]
    ensures Path(h, |first| + j, leaves) == Path(h, j, second) + [Root(h, first)]
  {
    TurnsDown(|first| + j, |leaves|);
    PathInRight(h, |first| + j, leaves, first, second);
  }

  /** What is proved in one half is proved in the whole, one turn and one node up. */
  lemma ProvedInWhole(h: Hash, leaves: seq<Bytes>, first: seq<Bytes>, second: seq<Bytes>, left: bool,
                      leaf: Bytes, turns: seq<bool>, lower: seq<Bytes>)
    requires |first| > 0 && |second| > 0 && leaves == first + second && |first| == Split(|leaves|)
    requires ProvedAt(h, if left then first else second, leaf, turns, lower)
    ensures ProvedAt(h, leaves, leaf, turns + [left], lower + [Root(h, if left then second else first)])
  {
    var half := if left then first else second;
    var j :| 0 <= j < |half| && turns == Turns(j, |half|) && leaf == half[j] && lower == Path(h, j, half);
    if left {
      LeafOfFirst(h, leaves, first, second, j);
    } else {
      LeafOfSecond(h, leaves, first, second, j);
    }
  }

  /** A node hash that is a root: of a tree whose half the proof goes on into, or of a collision. */
  lemma {:induction false} NodeAgainstTree(h: Hash, leaves: seq<Bytes>, leaf: Bytes, i: nat, n: nat, lower: seq<Bytes>,
                                           sibling: Bytes, left: bool, ys: set<Bytes>)
    requires |leaves| > 0 && i < n && |lower| == PathLength(i, n) && AllDigests(lower) && |sibling| == 32
    requires ProofInputs(h, leaf, i, n, lower) <= ys
    requires var y := OrderedNodeInput(Recompute(h, LeafHash(h, leaf), i, n, lower), sibling, left);
             y in ys && h(y) == Root(h, leaves)
    ensures ProvedAt(h, leaves, leaf, Turns(i, n) + [left], lower + [sibling]) ||
            Collide(h, TreeInputs(h, leaves), ys)
    decreases n, 3
  {
    var claimed := Recompute(h, LeafHash(h, leaf), i, n, lower);
    if |leaves| == 1 {
      DomainsAreSeparate(leaves[0], if left then claimed else sibling, if left then sibling else claimed);
      assert LeafInput(leaves[0]) in TreeInputs(h, leaves);
    } else {
      var first, second := leaves[..Split(|leaves|)], leaves[Split(|leaves|)..];
      TreeInputsOfHalves(h, leaves, first, second);
      Seqs.SplitAt(leaves, Split(|leaves|));
      var half, other := if left then first else second, if left then second else first;
      ProvedInHalf(h, leaf, half, Root(h, other), i, n, lower, sibling, left, TreeInputs(h, leaves), ys);
      if !Collide(h, TreeInputs(h, leaves), ys) {
        ProvedInWhole(h, leaves, first, second, left, leaf, Turns(i, n), lower);
      }
    }
  }

  lemma {:induction false} ProvedInHalf(h: Hash, leaf: Bytes, half: seq<Bytes>, other: Digest, i: nat, n: nat,
                                        lower: seq<Bytes>, sibling: Bytes, left: bool, xs: set<Bytes>, ys: set<Bytes>)
    requires |half| > 0 && i < n && |lower| == PathLength(i, n) && AllDigests(lower) && |sibling| == 32
    requires TreeInputs(h, half) <= xs && ProofInputs(h, leaf, i, n, lower) <= ys
    requires var x := OrderedNodeInput(Root(h, half), other, left);
             var y := OrderedNodeInput(Recompute(h, LeafHash(h, leaf), i, n, lower), sibling, left);
             x in xs && y in ys && h(x) == h(y)
    ensures (ProvedAt(h, half, leaf, Turns(i, n), lower) && sibling == other) || Collide(h, xs, ys)
    decreases n, 2
  {
    var claimed := Recompute(h, LeafHash(h, leaf), i, n, lower);
    RecomputeIsDigest(h, LeafHash(h, leaf), i, n, lower);
    if OrderedNodeInput(Root(h, half), other, left) == OrderedNodeInput(claimed, sibling, left) {
      OrderedInjective(claimed, sibling, Root(h, half), other, left);
      ProvedOrCollide(h, half, leaf, i, n, lower);
      CollideMonotone(h, TreeInputs(h, half), ProofInputs(h, leaf, i, n, lower), xs, ys);
    }
  }

  /** Under any claimed index and tree size, also wrong ones, an accepted leaf is in the tree: at the
      end of the same turns, and with its own audit path. */
  lemma Membership(h: Hash, leaves: seq<Bytes>, leaf: Bytes, i: nat, n: nat, proof: seq<Bytes>)
    requires |leaves| > 0 && Judge(h, leaf, i, n, Root(h, leaves), proof) == Accepted
    ensures i < n && |proof| == PathLength(i, n)
    ensures (leaf in leaves && ProvedAt(h, leaves, leaf, Turns(i, n), proof)) ||
            Collide(h, TreeInputs(h, leaves), ProofInputs(h, leaf, i, n, proof))
  {
    AcceptedMeans(h, leaf, i, n, Root(h, leaves), proof);
    ProvedOrCollide(h, leaves, leaf, i, n, proof);
  }

  /** That is exactly what is checked of a claimed position, if no hashed strings collide. */
  lemma AcceptedExactlyAt(h: Hash, leaves: seq<Bytes>, leaf: Bytes, i: nat, n: nat, proof: seq<Bytes>)
    requires |leaves| > 0 && i < n
    requires |proof| == PathLength(i, n) ==>
               !Collide(h, TreeInputs(h, leaves), ProofInputs(h, leaf, i, n, proof))
    ensures Judge(h, leaf, i, n, Root(h, leaves), proof) == Accepted <==>
            ProvedAt(h, leaves, leaf, Turns(i, n), proof)
  {
    if Judge(h, leaf, i, n, Root(h, leaves), proof) == Accepted {
      Membership(h, leaves, leaf, i, n, proof);
    }
    if j :| 0 <= j < |leaves| && Turns(i, n) == Turns(j, |leaves|) && leaf == leaves[j] && proof == Path(h, j, leaves) {
      Completeness(h, leaves, j);
      SameTurnsSameVerdict(h, leaf, i, n, j, |leaves|, Root(h, leaves), proof);
    }
  }

  /** Accepting at the tree's own size pins down both the leaf and every node of the proof. */
  lemma Binding(h: Hash, leaves: seq<Bytes>, leaf: Bytes, i: nat, proof: seq<Bytes>)
    requires |leaves| > 0 && Judge(h, leaf, i, |leaves|, Root(h, leaves), proof) == Accepted
    ensures i < |leaves| && |proof| == PathLength(i, |leaves|)
    ensures (leaf == leaves[i] && proof == Path(h, i, leaves)) ||
            Collide(h, TreeInputs(h, leaves), ProofInputs(h, leaf, i, |leaves|, proof))
  {
    Membership(h, leaves, leaf, i, |leaves|, proof);
    if j :| 0 <= j < |leaves| && Turns(i, |leaves|) == Turns(j, |leaves|) && leaf == leaves[j] &&
            proof == Path(h, j, leaves) {
      TurnsTellLeavesApart(i, j, |leaves|);
    }
  }

  /** With no collision among the hashed strings, acceptance is exactly membership at that index. */
  lemma AcceptedIffMember(h: Hash, leaves: seq<Bytes>, leaf: Bytes, i: nat, proof: seq<Bytes>)
    requires i < |leaves|
    requires |proof| == PathLength(i, |leaves|) ==>
               !Collide(h, TreeInputs(h, leaves), ProofInputs(h, leaf, i, |leaves|, proof))
    ensures Judge(h, leaf, i, |leaves|, Root(h, leaves), proof) == Accepted <==>
            leaf == leaves[i] && proof == Path(h, i, leaves)
  {
    Completeness(h, leaves, i);
    if Judge(h, leaf, i, |leaves|, Root(h, leaves), proof) == Accepted {
      Binding(h, leaves, leaf, i, proof);
    }
  }

  // ---------- Root commitment ----------

  /** A root commits to its whole list, its length included. */
  lemma {:induction false} RootCommitment(h: Hash, a: seq<Bytes>, b: seq<Bytes>)
    requires |a| > 0 && |b| > 0 && Root(h, a) == Root(h, b)
    ensures a == b || Collide(h, TreeInputs(h, a), TreeInputs(h, b))
    decreases |a|, 1
  {
    if |a| == 1 && |b| == 1 {
      assert LeafInput(a[0]) in TreeInputs(h, a) && LeafInput(b[0]) in TreeInputs(h, b);
      if a[0] != b[0] {
        DistinctLeafInputs(a[0], b[0]);
      }
    } else if |a| == 1 {
      var l := Split(|b|);
      DomainsAreSeparate(a[0], Root(h, b[..l]), Root(h, b[l..]));
      assert LeafInput(a[0]) in TreeInputs(h, a) && NodeInput(Root(h, b[..l]), Root(h, b[l..])) in TreeInputs(h, b);
    } else if |b| == 1 {
      var k := Split(|a|);
      DomainsAreSeparate(b[0], Root(h, a[..k]), Root(h, a[k..]));
      assert NodeInput(Root(h, a[..k]), Root(h, a[k..])) in TreeInputs(h, a) && LeafInput(b[0]) in TreeInputs(h, b);
    } else {
      var k, l := Split(|a|), Split(|b|);
      CommitmentOfHalves(h, a, a[..k], a[k..], b, b[..l], b[l..]);
    }
  }

  lemma {:induction false} CommitmentOfHalves(h: Hash, a: seq<Bytes>, a1: seq<Bytes>, a2: seq<Bytes>,
                                              b: seq<Bytes>, b1: seq<Bytes>, b2: seq<Bytes>)
    requires |a1| > 0 && |a2| > 0 && |b1| > 0 && |b2| > 0 && a == a1 + a2 && b == b1 + b2
    requires TreeInputs(h, a) == {NodeInput(Root(h, a1), Root(h, a2))} + TreeInputs(h, a1) + TreeInputs(h, a2)
    requires TreeInputs(h, b) == {NodeInput(Root(h, b1), Root(h, b2))} + TreeInputs(h, b1) + TreeInputs(h, b2)
    requires NodeHash(h, Root(h, a1), Root(h, a2)) == NodeHash(h, Root(h, b1), Root(h, b2))
    ensures a == b || Collide(h, TreeInputs(h, a), TreeInputs(h, b))
    decreases |a|, 0
  {
    var x, y := NodeInput(Root(h, a1), Root(h, a2)), NodeInput(Root(h, b1), Root(h, b2));
    assert x in TreeInputs(h, a) && y in TreeInputs(h, b);
    if x == y {
      NodeInputInjective(Root(h, a1), Root(h, a2), Root(h, b1), Root(h, b2));
      RootCommitment(h, a1, b1);
      RootCommitment(h, a2, b2);
      CollideMonotone(h, TreeInputs(h, a1), TreeInputs(h, b1), TreeInputs(h, a), TreeInputs(h, b));
      CollideMonotone(h, TreeInputs(h, a2), TreeInputs(h, b2), TreeInputs(h, a), TreeInputs(h, b));
    }
  }

  // ---------- The standard's definition, byte by byte ----------

  lemma RootOfOneLeaf(h: Hash, d: Bytes)
    ensures Root(h, [d]) == h([0x00] + d)
  {
  }

  /** A list whose first part is a full power of two, at least as long as the rest, is split there. */
  lemma RootOfParts(h: Hash, a: seq<Bytes>, b: seq<Bytes>)
    requires IsPow2(|a|) && 0 < |b| <= |a|
    ensures Root(h, a + b) == h([0x01] + Root(h, a) + Root(h, b))
  {
    SplitOfParts(|a|, |b|);
    PathInLeft(h, 0, a + b, a, b);
  }

  lemma SplitOfParts(k: nat, rest: nat)
    requires IsPow2(k) && 0 < rest <= k
    ensures Split(k + rest) == k
  {
    var e: nat :| k == Pow2(e);
    forall k': nat | IsPow2(k') && k' < k + rest
      ensures k' <= k
    {
      var f: nat :| k' == Pow2(f);
      if f > e {
        Pow2Monotone(e + 1, f);
      } else {
        Pow2Monotone(f, e);
      }
    }
    SplitIsTheLargestPow2Below(k + rest, k);
  }

  /** Both leaves of the tree of two are accepted, the root and the one proof node written out. */
  lemma TwoLeaves(h: Hash, d0: Bytes, d1: Bytes)
    ensures var h0, h1 := h([0x00] + d0), h([0x00] + d1);
            Judge(h, d0, 0, 2, h([0x01] + h0 + h1), [h1]) == Accepted &&
            Judge(h, d1, 1, 2, h([0x01] + h0 + h1), [h0]) == Accepted
  {
    var h0, h1 := h([0x00] + d0), h([0x00] + d1);
    assert Pow2(0) == 1 && [d0] + [d1] == [d0, d1];
    RootOfOneLeaf(h, d0);
    RootOfOneLeaf(h, d1);
    RootOfParts(h, [d0], [d1]);
    SplitOfParts(1, 1);
    PathInLeft(h, 0, [d0, d1], [d0], [d1]);
    PathInRight(h, 1, [d0, d1], [d0], [d1]);
    assert Path(h, 0, [d0, d1]) == [h1] && Path(h, 1, [d0, d1]) == [h0];
    Completeness(h, [d0, d1], 0);
    Completeness(h, [d0, d1], 1);
  }

  // ---------- Exact proof length ----------

  lemma {:induction false} PathLengthBound(i: nat, n: nat, e: nat)
    requires i < n <= Pow2(e)
    ensures PathLength(i, n) <= e
    decreases n
  {
    if n > 1 {
      var k := Split(n);
      SplitIsTheLargestPow2Below(n, k);
      var f: nat :| k == Pow2(f);
      if f >= e {
        Pow2Monotone(e, f);
      }
      assert e > 0;
      Pow2Monotone(f, e - 1);
      if i < k {
        PathLengthBound(i, k, e - 1);
      } else {
        PathLengthBound(i - k, n - k, e - 1);
      }
    }
  }

  lemma Pow2Of64()
    ensures Pow2(64) == U64_LIMIT
  {
    assert Pow2(8) == 256;
    Pow2Add(8, 8);
    Pow2Add(16, 16);
    Pow2Add(32, 32);
  }

  /** With well-formed nodes the length verdicts are exact, and no proof for a u64 tree needs more
      than 64 nodes. */
  lemma ExactLength(h: Hash, leaf: Bytes, i: U64, n: U64, root: Bytes, proof: seq<Bytes>)
    requires i < n && |root| == 32 && AllDigests(proof)
    ensures Judge(h, leaf, i, n, root, proof) == TooLong <==> |proof| > PathLength(i, n)
    ensures Judge(h, leaf, i, n, root, proof) == TooShort <==> |proof| < PathLength(i, n)
    ensures PathLength(i, n) <= 64
  {
    Pow2Of64();
    PathLengthBound(i, n, 64);
  }

  lemma {:induction false} Pow2Add(e: nat, f: nat)
    ensures Pow2(e + f) == Pow2(e) * Pow2(f)
  {
    if e > 0 {
      Pow2Add(e - 1, f);
      assert Pow2(e + f) == 2 * (Pow2(e - 1) * Pow2(f));
    }
  }
}
