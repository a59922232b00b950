/** What a consistency proof tells a monitor that kept one digest of the log and not the log behind
    it: exactly when that digest is bound, and what is accepted otherwise. */
module LogMonitor {
  import opened ByteStrings
  import opened PowersOfTwo
  import opened TransparencyLog
  import opened LogVerifier
  import opened LogTheorems

  // ------------------------------------------------------------------
  // Powers of two seed the climb with the monitor's own digest
  // ------------------------------------------------------------------

  ghost predicate PowerOfTwo(m: nat) {
    exists t :: m == Pow2(t)
  }

  lemma SplitIsPowerOfTwo(n: nat)
    requires n >= 2
    ensures PowerOfTwo(SplitPoint(n))
  {
  }

  /** The tree never splits below a power of two that it exceeds. */
  lemma SplitCovers(m: nat, n: nat)
    requires PowerOfTwo(m) && m < n
    ensures n >= 2 && m <= SplitPoint(n)
  {
    var t: nat :| m == Pow2(t);
    if Level(n) < t { Pow2Monotone(Level(n) + 1, t); }
    if t < Level(n) { Pow2Monotone(t, Level(n)); }
  }

  /** A width of the first hash of a path with which the replay binds the older head: a digest's, or
      one that no accepted path can have. */
  ghost predicate BindingWidth(m: nat, k: nat) {
    PowerOfTwo(m) || k == 32 || k > 64
  }

  /** The strings that enter a replay without being hashed by it have widths that bind. */
  ghost predicate SeedsFit(m: nat, b: bool, root1: Bytes, path: seq<Bytes>) {
    |root1| == 32 && (path != [] ==> (b && PowerOfTwo(m)) || |path[0]| == 32 || |path[0]| > 64)
  }

  /** The append-only theorem for such a monitor.  If the verifier accepts any path from its digest to the
      head of e, the digest is the head of the first m entries of e, and the path is the log's own proof,
      unless the computations exhibit a collision: given, unless m is a power of two, the width of the
      first hash.  The widths of all others follow. */
  lemma ConsistencyBindsRoot(H: Hash, root1: Digest, m: nat, e: seq<Bytes>, proof: seq<Bytes>)
    requires 0 < m <= |e| && (m < |e| && proof != [] ==> BindingWidth(m, |proof[0]|))
    requires ConsistencyAccepts(H, m, |e|, root1, TreeHead(H, e), proof)
    ensures || (root1 == TreeHead(H, e[..m]) && proof == ConsistencyProof(H, m, e))
            || Collides(H, HeadInputs(H, e) + ReplayInputs(H, m, |e|, root1, proof))
  {
    var S := HeadInputs(H, e) + ReplayInputs(H, m, |e|, root1, proof);
    if m == |e| {
      assert e[..m] == e;
    } else if !Collides(H, S) {
      AcceptedRoot(H, S, m, e, true, root1, proof);
    }
  }

  lemma {:induction false} AcceptedRoot(H: Hash, S: set<Bytes>, m: nat, e: seq<Bytes>, b: bool, root1: Bytes, path: seq<Bytes>)
    requires !Collides(H, S)
    requires 0 < m <= |e| && SeedsFit(m, b, root1, path)
    requires HeadInputs(H, e) <= S && ConsistencyInputs(H, m, |e|, b, root1, path) <= S
    requires Newer(ConsistentHeads(H, m, |e|, b, root1, path)) == Some(TreeHead(H, e))
    ensures ConsistentHeads(H, m, |e|, b, root1, path).value.older == TreeHead(H, e[..m])
    ensures path == ConsistencyPath(H, m, e, b)
    decreases |e|
  {
    hide Collides, SplitPoint, TreeHead, HeadInputs, ConsistentHeads, ConsistencyPath, ConsistencyInputs, PowerOfTwo;
    var n := |e|;
    ConsistencyPathUnfolds(H, m, e, b);
    if m == n {
      ConsistentHeadsEnd(H, n, b, root1, path);
      assert e[..m] == e;
    } else {
      if path == [] { ConsistentHeadsStarve(H, m, n, b, root1); }
      var k, rest, z := SplitPoint(n), path[..|path| - 1], path[|path| - 1];
      var left, right := e[..k], e[k..];
      assert path == rest + [z];
      HeadUnfolds(H, e);
      ConsistentHeadsUnfolds(H, m, n, b, root1, rest, z);
      ConsistencyInputsUnfold(H, m, n, b, root1, rest, z);
      if m <= k {
        var h := ConsistentHeads(H, m, k, b, root1, rest).value;
        NewerHeadFits(H, m, k, b, root1, rest);
        NoCollision(H, S, NodeInput(h.newer, z), NodeInput(TreeHead(H, left), TreeHead(H, right)));
        NodeInputLength(h.newer, z, TreeHead(H, left), TreeHead(H, right));
        NodeInputInjective(h.newer, z, TreeHead(H, left), TreeHead(H, right));
        AcceptedRoot(H, S, m, left, b, root1, rest);
        assert left[..m] == e[..m];
      } else {
        if PowerOfTwo(m) { SplitCovers(m, n); }
        var h := ConsistentHeads(H, m - k, n - k, false, root1, rest).value;
        NewerHeadFits(H, m - k, n - k, false, root1, rest);
        NoCollision(H, S, NodeInput(z, h.newer), NodeInput(TreeHead(H, left), TreeHead(H, right)));
        NodeInputLength(z, h.newer, TreeHead(H, left), TreeHead(H, right));
        NodeInputInjective(z, h.newer, TreeHead(H, left), TreeHead(H, right));
        AcceptedRoot(H, S, m - k, right, false, root1, rest);
        SplitOfPrefix(m, n);
        TreeHeadUnfolds(H, e[..m]);
        assert e[..m][..k] == left && e[..m][k..] == right[..m - k];
      }
    }
  }

  lemma NodeInputLength(a: Bytes, b: Bytes, c: Bytes, d: Bytes)
    requires NodeInput(a, b) == NodeInput(c, d)
    ensures |a| + |b| == |c| + |d|
  {
    assert |NodeInput(a, b)| == 1 + |a| + |b| && |NodeInput(c, d)| == 1 + |c| + |d|;
  }

  lemma NewerHeadFits(H: Hash, m: nat, n: nat, b: bool, root1: Bytes, path: seq<Bytes>)
    requires 0 < m <= n && SeedsFit(m, b, root1, path)
    requires ConsistentHeads(H, m, n, b, root1, path).Some?
    ensures var w := |ConsistentHeads(H, m, n, b, root1, path).value.newer|; w == 32 || w > 64
  {
    hide ConsistentHeads;
    NewerHeadWidth(H, m, n, b, root1, path);
    if m == n { ConsistentHeadsEnd(H, n, b, root1, path); }
  }

  // ------------------------------------------------------------------
  // What is accepted at every other width
  // ------------------------------------------------------------------

  /** A path with its first two hashes, run together, cut at another place. */
  function Recut(path: seq<Bytes>, k: nat): seq<Bytes>
    requires |path| >= 2 && k <= |path[0] + path[1]|
  {
    var both := path[0] + path[1];
    [both[..k], both[k..]] + path[2..]
  }

  /** The older head that the recut proof of the first m entries rebuilds. */
  function RecutOlder(H: Hash, m: nat, e: seq<Bytes>, k: nat): Bytes
    requires 0 < m < |e| && k <= 64
    decreases |e|
  {
    var s := SplitPoint(|e|);
    var left, right := e[..s], e[s..];
    if m < s then RecutOlder(H, m, left, k)
    else if m == s then (TreeHead(H, left) + TreeHead(H, right))[..k]
    else NodeHash(H, TreeHead(H, left), RecutOlder(H, m - s, right, k))
  }

  /** The log's own proof, recut, still rebuilds the newer head, and the older one above. */
  lemma {:induction false} RecutRebuilds(H: Hash, m: nat, e: seq<Bytes>, b: bool, k: nat, root1: Bytes)
    requires 0 < m < |e| && k <= 64 && !(b && PowerOfTwo(m))
    ensures var path := ConsistencyPath(H, m, e, b);
            && |path| >= 2 && |path[0]| == |path[1]| == 32
            && ConsistentHeads(H, m, |e|, b, root1, Recut(path, k)) == Some(Heads(RecutOlder(H, m, e, k), TreeHead(H, e)))
    decreases |e|
  {
    hide SplitPoint, TreeHead, ConsistentHeads, ConsistencyPath, PowerOfTwo, RecutOlder, NodeHash;
    var n, s := |e|, SplitPoint(|e|);
    var left, right := e[..s], e[s..];
    ConsistencyPathUnfolds(H, m, e, b);
    RecutOlderUnfolds(H, m, e, k);
    TreeHeadUnfolds(H, e);
    SplitIsPowerOfTwo(n);
    if m == s {
      ConsistencyPathUnfolds(H, m, left, b);
      RecutLast(H, m, n, k, root1, TreeHead(H, left), TreeHead(H, right));
    } else if m < s {
      RecutRebuilds(H, m, left, b, k, root1);
      RecutKeepsEnd(ConsistencyPath(H, m, left, b), TreeHead(H, right), k);
      ConsistentHeadsUnfolds(H, m, n, b, root1, Recut(ConsistencyPath(H, m, left, b), k), TreeHead(H, right));
    } else {
      RecutRebuilds(H, m - s, right, false, k, root1);
      RecutKeepsEnd(ConsistencyPath(H, m - s, right, false), TreeHead(H, left), k);
      ConsistentHeadsUnfolds(H, m, n, b, root1, Recut(ConsistencyPath(H, m - s, right, false), k), TreeHead(H, left));
    }
  }

  lemma RecutOlderUnfolds(H: Hash, m: nat, e: seq<Bytes>, k: nat)
    requires 0 < m < |e| && k <= 64
    ensures var s := SplitPoint(|e|);
            && (m < s ==> RecutOlder(H, m, e, k) == RecutOlder(H, m, e[..s], k))
            && (m == s ==> RecutOlder(H, m, e, k) == (TreeHead(H, e[..s]) + TreeHead(H, e[s..]))[..k])
            && (m > s ==> RecutOlder(H, m, e, k) == NodeHash(H, TreeHead(H, e[..s]), RecutOlder(H, m - s, e[s..], k)))
  {
  }

  /** A path of two hashes, cut anywhere, joins to the same node. */
  lemma RecutLast(H: Hash, m: nat, n: nat, k: nat, root1: Bytes, x: Digest, y: Digest)
    requires 0 < m < n && m == SplitPoint(n) && k <= 64
    ensures Recut([x] + [y], k) == [(x + y)[..k]] + [(x + y)[k..]]
    ensures ConsistentHeads(H, m, n, false, root1, Recut([x] + [y], k)) == Some(Heads((x + y)[..k], NodeHash(H, x, y)))
  {
    hide ConsistentHeads, SplitPoint;
    var a, b := (x + y)[..k], (x + y)[k..];
    assert NodeInput(a, b) == NodeInput(x, y);
    ConsistentHeadsEnd(H, m, false, root1, [a]);
    ConsistentHeadsUnfolds(H, m, n, false, root1, [a], b);
  }

  lemma RecutKeepsEnd(path: seq<Bytes>, z: Bytes, k: nat)
    requires |path| >= 2 && k <= |path[0] + path[1]|
    ensures (path + [z])[0] == path[0] && (path + [z])[1] == path[1]
    ensures Recut(path + [z], k) == Recut(path, k) + [z]
  {
  }

  /** It is not the head of the first m entries, unless the computations collide. */
  lemma {:induction false} RecutIsAnother(H: Hash, S: set<Bytes>, m: nat, e: seq<Bytes>, b: bool, k: nat, root1: Bytes)
    requires !Collides(H, S)
    requires 0 < m < |e| && k <= 64 && k != 32 && !(b && PowerOfTwo(m))
    requires HeadInputs(H, e[..m]) <= S
    requires && |ConsistencyPath(H, m, e, b)| >= 2 && |ConsistencyPath(H, m, e, b)[0]| == |ConsistencyPath(H, m, e, b)[1]| == 32
             && ConsistencyInputs(H, m, |e|, b, root1, Recut(ConsistencyPath(H, m, e, b), k)) <= S
    ensures RecutOlder(H, m, e, k) != TreeHead(H, e[..m])
    decreases |e|
  {
    hide Collides, SplitPoint, TreeHead, HeadInputs, ConsistentHeads, ConsistencyPath, ConsistencyInputs, PowerOfTwo, RecutOlder, NodeHash;
    var n, s := |e|, SplitPoint(|e|);
    var left, right := e[..s], e[s..];
    ConsistencyPathUnfolds(H, m, e, b);
    RecutOlderUnfolds(H, m, e, k);
    if m < s {
      RecutRebuilds(H, m, left, b, k, root1);
      RecutKeepsEnd(ConsistencyPath(H, m, left, b), TreeHead(H, right), k);
      ConsistencyInputsUnfold(H, m, n, b, root1, Recut(ConsistencyPath(H, m, left, b), k), TreeHead(H, right));
      assert left[..m] == e[..m];
      RecutIsAnother(H, S, m, left, b, k, root1);
    } else if m > s {
      RecutRebuilds(H, m - s, right, false, k, root1);
      RecutKeepsEnd(ConsistencyPath(H, m - s, right, false), TreeHead(H, left), k);
      ConsistencyInputsUnfold(H, m, n, b, root1, Recut(ConsistencyPath(H, m - s, right, false), k), TreeHead(H, left));
      SplitOfPrefix(m, n);
      assert e[..m][..s] == left && e[..m][s..] == right[..m - s];
      HeadUnfolds(H, e[..m]);
      RecutIsAnother(H, S, m - s, right, false, k, root1);
      OtherNode(H, S, TreeHead(H, left), RecutOlder(H, m - s, right, k), TreeHead(H, right[..m - s]));
    }
  }

  lemma OtherNode(H: Hash, S: set<Bytes>, left: Digest, x: Bytes, y: Bytes)
    requires !Collides(H, S) && NodeInput(left, x) in S && NodeInput(left, y) in S && x != y
    ensures NodeHash(H, left, x) != NodeHash(H, left, y)
  {
    hide Collides, NodeInput;
    if NodeHash(H, left, x) == NodeHash(H, left, y) {
      NoCollision(H, S, NodeInput(left, x), NodeInput(left, y));
      NodeInputInjective(left, x, left, y);
    }
  }

  lemma {:induction false} RecutOlderIsDigest(H: Hash, m: nat, e: seq<Bytes>, k: nat)
    requires 0 < m < |e| && k <= 64 && !PowerOfTwo(m)
    ensures |RecutOlder(H, m, e, k)| == 32
    decreases |e|
  {
    hide SplitPoint, TreeHead, PowerOfTwo, RecutOlder;
    RecutOlderUnfolds(H, m, e, k);
    SplitIsPowerOfTwo(|e|);
    if m < SplitPoint(|e|) { RecutOlderIsDigest(H, m, e[..SplitPoint(|e|)], k); }
  }

  /** The log's own consistency proof, recut so that its first hash is k bytes wide. */
  function RecutProof(H: Hash, m: nat, e: seq<Bytes>, k: nat): (proof: seq<Bytes>)
    requires 0 < m < |e| && k <= 64
  {
    var path := ConsistencyProof(H, m, e);
    if |path| >= 2 && k <= |path[0] + path[1]| then Recut(path, k) else path
  }

  /** The width is needed for every m that is no power of two, in every log and at every place of the cut:
      the verifier accepts the recut proof with a digest that is not the head of the first m entries,
      unless the computations exhibit a collision. */
  lemma FirstHashWidthIsNeeded(H: Hash, m: nat, e: seq<Bytes>, k: nat) returns (root1: Digest, proof: seq<Bytes>)
    requires 0 < m < |e| && !PowerOfTwo(m) && k <= 64 && k != 32
    ensures proof == RecutProof(H, m, e, k) && proof != [] && |proof[0]| == k
    ensures root1 == RecutOlder(H, m, e, k)
    ensures ConsistencyAccepts(H, m, |e|, root1, TreeHead(H, e), proof)
    ensures root1 != TreeHead(H, e[..m]) || Collides(H, HeadInputs(H, e[..m]) + ReplayInputs(H, m, |e|, root1, proof))
  {
    hide Collides, TreeHead, HeadInputs, ConsistentHeads, ConsistencyPath, ConsistencyInputs, PowerOfTwo, RecutOlder;
    RecutOlderIsDigest(H, m, e, k);
    root1 := RecutOlder(H, m, e, k);
    RecutRebuilds(H, m, e, true, k, root1);
    proof := Recut(ConsistencyPath(H, m, e, true), k);
    var S := HeadInputs(H, e[..m]) + ReplayInputs(H, m, |e|, root1, proof);
    if !Collides(H, S) { RecutIsAnother(H, S, m, e, true, k, root1); }
  }

  // ------------------------------------------------------------------
  // The exact condition
  // ------------------------------------------------------------------

  /** From a digest, a path whose first hash is k bytes wide proves that a log of head TreeHead(e) extends
      what the digest is the head of: whatever digest and path, acceptance means the head of the first m
      entries, or a collision. */
  ghost predicate PathsBind(H: Hash, m: nat, e: seq<Bytes>, k: nat)
    requires 0 < m < |e|
  {
    forall root1: Digest, proof: seq<Bytes> ::
      proof != [] && |proof[0]| == k && ConsistencyAccepts(H, m, |e|, root1, TreeHead(H, e), proof)
      ==> root1 == TreeHead(H, e[..m]) || Collides(H, HeadInputs(H, e) + ReplayInputs(H, m, |e|, root1, proof))
  }

  /** Every string hashed while the heads of e and of its first m entries are computed and the recut proof
      is replayed, where there is one. */
  ghost function RecutInputs(H: Hash, m: nat, e: seq<Bytes>, k: nat): set<Bytes>
    requires 0 < m < |e|
  {
    HeadInputs(H, e) + HeadInputs(H, e[..m])
    + if k <= 64 then ReplayInputs(H, m, |e|, RecutOlder(H, m, e, k), RecutProof(H, m, e, k)) else {}
  }

  /** Paths bind the digest exactly when m is a power of two, or the first hash is one digest wide, or it
      is so wide that no path is accepted; in every log, unless it exhibits a collision. */
  lemma PathsBindIff(H: Hash, m: nat, e: seq<Bytes>, k: nat)
    requires 0 < m < |e|
    ensures (PathsBind(H, m, e, k) <==> BindingWidth(m, k)) || Collides(H, RecutInputs(H, m, e, k))
  {
    hide Collides, TreeHead, HeadInputs, ConsistencyAccepts, ReplayInputs, PowerOfTwo, RecutOlder, RecutProof;
    if BindingWidth(m, k) {
      forall root1: Digest, proof: seq<Bytes> |
        proof != [] && |proof[0]| == k && ConsistencyAccepts(H, m, |e|, root1, TreeHead(H, e), proof)
        ensures root1 == TreeHead(H, e[..m]) || Collides(H, HeadInputs(H, e) + ReplayInputs(H, m, |e|, root1, proof))
      {
        ConsistencyBindsRoot(H, root1, m, e, proof);
      }
    } else {
      var root1, proof := FirstHashWidthIsNeeded(H, m, e, k);
      CollidesInLarger(H, HeadInputs(H, e[..m]) + ReplayInputs(H, m, |e|, root1, proof), RecutInputs(H, m, e, k));
      CollidesInLarger(H, HeadInputs(H, e) + ReplayInputs(H, m, |e|, root1, proof), RecutInputs(H, m, e, k));
    }
  }
}
