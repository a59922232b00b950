/** The standalone verifier of the transparency log.  Its two bit-shifting loops are proved equal
    to a reconstruction that follows the tree from the top, and that reconstruction is proved
    complete and sound for the proofs and heads of TransparencyLog. */
module LogVerifier {
  import opened ByteStrings
  import opened PowersOfTwo
  import opened TransparencyLog

  /** The heads of the older and the newer tree, as a path rebuilds them. */
  datatype Heads = Heads(older: Bytes, newer: Bytes)

  // ------------------------------------------------------------------
  // The loops
  // ------------------------------------------------------------------

  /** What the shifting loops compute, one bit of `node` and `last` at a time: on an odd `node`
      the next hash is a left sibling of both, on an even `node` short of `last` it is a right
      sibling of the newer one only, and on the right edge nothing is read. */
  function Climb(H: Hash, node: nat, last: nat, h: Heads, path: seq<Bytes>): Option<Heads>
    requires node <= last
    decreases last
  {
    if last == 0 then
      if path == [] then Some(h) else None
    else if node % 2 == 1 then
      if path == [] then None
      else Climb(H, node / 2, last / 2, Both(H, path[0], h), path[1..])
    else if node < last then
      if path == [] then None
      else Climb(H, node / 2, last / 2, NewerOnly(H, h, path[0]), path[1..])
    else
      Climb(H, node / 2, last / 2, h, path)
  }

  function Both(H: Hash, sibling: Bytes, h: Heads): Heads {
    Heads(NodeHash(H, sibling, h.older), NodeHash(H, sibling, h.newer))
  }

  function NewerOnly(H: Hash, h: Heads, sibling: Bytes): Heads {
    Heads(h.older, NodeHash(H, h.newer, sibling))
  }

  /** The climb of verify_consistency: trailing one bits are shifted out first, and the climb
      starts from the older head when nothing is left and from the first hash otherwise. */
  function SeededClimb(H: Hash, node: nat, last: nat, b: bool, root1: Bytes, path: seq<Bytes>): Option<Heads>
    requires node <= last
    decreases node
  {
    if node % 2 == 1 then SeededClimb(H, node / 2, last / 2, b, root1, path)
    else if node == 0 && b then Climb(H, node, last, Heads(root1, root1), path)
    else if path == [] then None
    else Climb(H, node, last, Heads(path[0], path[0]), path[1..])
  }

  function ThenBoth(H: Hash, h: Option<Heads>, sibling: Bytes): Option<Heads> {
    if h == None then None else Some(Both(H, sibling, h.value))
  }

  function ThenNewer(H: Hash, h: Option<Heads>, sibling: Bytes): Option<Heads> {
    if h == None then None else Some(NewerOnly(H, h.value, sibling))
  }

  // ------------------------------------------------------------------
  // The reconstruction
  // ------------------------------------------------------------------

  /** Rebuilds the head of a size-n tree from one leaf and its path, splitting where the log
      splits and reading the path from its end. */
  function InclusionHead(H: Hash, i: nat, n: nat, leaf: Bytes, path: seq<Bytes>): Option<Bytes>
    requires i < n
    decreases n
  {
    if n == 1 then
      if path == [] then Some(leaf) else None
    else if path == [] then None
    else
      var k, sibling, rest := SplitPoint(n), path[|path| - 1], path[..|path| - 1];
      if i < k then
        match InclusionHead(H, i, k, leaf, rest)
        case None => None
        case Some(r) => Some(NodeHash(H, r, sibling))
      else
        match InclusionHead(H, i - k, n - k, leaf, rest)
        case None => None
        case Some(r) => Some(NodeHash(H, sibling, r))
  }

  /** Rebuilds the heads of the size-m tree and of the size-n tree that extends it. */
  function ConsistentHeads(H: Hash, m: nat, n: nat, b: bool, root1: Bytes, path: seq<Bytes>): Option<Heads>
    requires 0 < m <= n
    decreases n
  {
    if m == n then
      if b then
        if path == [] then Some(Heads(root1, root1)) else None
      else
        if |path| == 1 then Some(Heads(path[0], path[0])) else None
    else if path == [] then None
    else
      var k, sibling, rest := SplitPoint(n), path[|path| - 1], path[..|path| - 1];
      if m <= k then
        ThenNewer(H, ConsistentHeads(H, m, k, b, root1, rest), sibling)
      else
        ThenBoth(H, ConsistentHeads(H, m - k, n - k, false, root1, rest), sibling)
  }

  // ------------------------------------------------------------------
  // Loops and reconstruction agree
  // ------------------------------------------------------------------

  /** One level of the climb, with the halved arguments named. */
  lemma ClimbUnfolds(H: Hash, node: nat, last: nat, n2: nat, l2: nat, h: Heads, path: seq<Bytes>)
    requires node <= last && last > 0
    requires n2 == node / 2 && l2 == last / 2
    ensures node % 2 == 0 && node == last ==> Climb(H, node, last, h, path) == Climb(H, n2, l2, h, path)
    ensures (node % 2 == 1 || node < last) && path == [] ==> Climb(H, node, last, h, path) == None
    ensures (node % 2 == 1 || node < last) && path != [] ==>
              Climb(H, node, last, h, path) == Climb(H, n2, l2, Reads(H, node, h, path[0]), path[1..])
  {
  }

  /** How one hash of the path enters the two heads. */
  function Reads(H: Hash, node: nat, h: Heads, sibling: Bytes): Heads {
    if node % 2 == 1 then Both(H, sibling, h) else NewerOnly(H, h, sibling)
  }

  /** Inside a left subtree of 2^t leaves the climb is the climb of that subtree, and the last
      hash of the path is the right sibling of its head. */
  lemma {:induction false} ClimbLeft(H: Hash, t: nat, node: nat, last: nat, edge: nat, h: Heads, rest: seq<Bytes>, z: Bytes)
    requires node <= edge == Pow2(t) - 1 < last < Pow2(t + 1)
    ensures Climb(H, node, last, h, rest + [z]) == ThenNewer(H, Climb(H, node, edge, h, rest), z)
    decreases t
  {
    hide Climb, Both, NewerOnly, Pow2, NodeHash, Sum;
    Pow2Unfolds(t);
    var n2, l2, e2 := node / 2, last / 2, edge / 2;
    ClimbUnfolds(H, node, last, n2, l2, h, rest + [z]);
    if t == 0 {
      ClimbEnds(H, h, rest);
      ClimbEnds(H, Reads(H, node, h, (rest + [z])[0]), (rest + [z])[1..]);
      if rest == [] { assert ([] + [z])[1..] == []; }
    } else {
      ClimbUnfolds(H, node, edge, n2, e2, h, rest);
      if rest == [] {
        ClimbStarves(H, n2, l2, Reads(H, node, h, z));
        assert ([] + [z])[1..] == [];
      } else {
        var g := Reads(H, node, h, rest[0]);
        assert (rest + [z])[1..] == rest[1..] + [z];
        assert Climb(H, node, last, h, rest + [z]) == Climb(H, n2, l2, g, rest[1..] + [z]);
        assert Climb(H, node, edge, h, rest) == Climb(H, n2, e2, g, rest[1..]);
        ClimbLeft(H, t - 1, n2, l2, e2, g, rest[1..], z);
      }
    }
  }

  /** Beside a complete left subtree of 2^t leaves the climb is the climb of the right subtree,
      and the last hash of the path is the left sibling of both heads. */
  lemma {:induction false} ClimbRight(H: Hash, t: nat, node: nat, last: nat, f: nat, s: nat, h: Heads, rest: seq<Bytes>, z: Bytes)
    requires f <= s < Pow2(t) && node == Pow2(t) + f && last == Pow2(t) + s
    ensures Climb(H, node, last, h, rest + [z]) == ThenBoth(H, Climb(H, f, s, h, rest), z)
    decreases t
  {
    hide Climb, Both, NewerOnly, Pow2, NodeHash, Sum;
    Pow2Unfolds(t);
    var n2, l2, f2, s2 := node / 2, last / 2, f / 2, s / 2;
    ClimbUnfolds(H, node, last, n2, l2, h, rest + [z]);
    if t == 0 {
      ClimbEnds(H, h, rest);
      ClimbEnds(H, Reads(H, node, h, (rest + [z])[0]), (rest + [z])[1..]);
      if rest == [] { assert ([] + [z])[1..] == []; }
    } else {
      if s > 0 { ClimbUnfolds(H, f, s, f2, s2, h, rest); }
      if f == s && f % 2 == 0 {
        ClimbRight(H, t - 1, n2, l2, f2, s2, h, rest, z);
      } else if rest == [] {
        ClimbStarves(H, n2, l2, Reads(H, node, h, z));
        assert ([] + [z])[1..] == [];
      } else {
        var g := Reads(H, f, h, rest[0]);
        assert (rest + [z])[1..] == rest[1..] + [z];
        assert Climb(H, node, last, h, rest + [z]) == Climb(H, n2, l2, g, rest[1..] + [z]);
        assert Climb(H, f, s, h, rest) == Climb(H, f2, s2, g, rest[1..]);
        ClimbRight(H, t - 1, n2, l2, f2, s2, g, rest[1..], z);
      }
    }
  }

  lemma ClimbEnds(H: Hash, h: Heads, path: seq<Bytes>)
    ensures Climb(H, 0, 0, h, path) == if path == [] then Some(h) else None
  {
  }

  /** A climb that has levels left and nothing to read fails. */
  lemma {:induction false} ClimbStarves(H: Hash, node: nat, last: nat, h: Heads)
    requires node <= last && last > 0
    ensures Climb(H, node, last, h, []) == None
    decreases last
  {
    if node == last && node % 2 == 0 { ClimbStarves(H, node / 2, last / 2, h); }
  }

  /** The climb of verify_consistency inside a left subtree. */
  lemma {:induction false} SeededClimbLeft(H: Hash, t: nat, node: nat, last: nat, edge: nat, b: bool, root1: Bytes,
                                           rest: seq<Bytes>, z: Bytes)
    requires node <= edge == Pow2(t) - 1 < last < Pow2(t + 1)
    ensures SeededClimb(H, node, last, b, root1, rest + [z])
            == ThenNewer(H, SeededClimb(H, node, edge, b, root1, rest), z)
    decreases t
  {
    hide Climb, Both, NewerOnly, Pow2, ThenNewer;
    Pow2Unfolds(t);
    if node % 2 == 1 {
      SeededClimbLeft(H, t - 1, node / 2, last / 2, edge / 2, b, root1, rest, z);
    } else if node == 0 && b {
      ClimbLeft(H, t, node, last, edge, Heads(root1, root1), rest, z);
    } else if rest == [] {
      ClimbStarves(H, node, last, Heads(z, z));
      assert ([] + [z])[1..] == [];
      NoneThen(H, z);
    } else {
      ClimbLeft(H, t, node, last, edge, Heads(rest[0], rest[0]), rest[1..], z);
      assert (rest + [z])[1..] == rest[1..] + [z];
    }
  }

  /** The climb of verify_consistency inside the right subtree: from there on the older head is
      not available as a seed. */
  lemma {:induction false} SeededClimbRight(H: Hash, t: nat, node: nat, last: nat, f: nat, s: nat, b: bool,
                                            root1: Bytes, rest: seq<Bytes>, z: Bytes)
    requires f < s < Pow2(t) && node == Pow2(t) + f && last == Pow2(t) + s
    ensures SeededClimb(H, node, last, b, root1, rest + [z])
            == ThenBoth(H, SeededClimb(H, f, s, false, root1, rest), z)
    decreases t
  {
    hide Climb, Both, NewerOnly, Pow2, ThenBoth;
    Pow2Unfolds(t);
    if f % 2 == 1 {
      SeededClimbRight(H, t - 1, node / 2, last / 2, f / 2, s / 2, b, root1, rest, z);
    } else if rest == [] {
      ClimbStarves(H, node, last, Heads(z, z));
      assert ([] + [z])[1..] == [];
      NoneThen(H, z);
    } else {
      ClimbRight(H, t, node, last, f, s, Heads(rest[0], rest[0]), rest[1..], z);
      assert (rest + [z])[1..] == rest[1..] + [z];
    }
  }

  lemma NoneThen(H: Hash, z: Bytes)
    ensures ThenBoth(H, None, z) == None && ThenNewer(H, None, z) == None
  {
  }

  lemma {:induction false} SeededClimbStarves(H: Hash, node: nat, last: nat, b: bool, root1: Bytes)
    requires node < last
    ensures SeededClimb(H, node, last, b, root1, []) == None
    decreases node
  {
    if node % 2 == 1 {
      SeededClimbStarves(H, node / 2, last / 2, b, root1);
    } else if node == 0 && b {
      ClimbStarves(H, node, last, Heads(root1, root1));
    }
  }

  lemma {:induction false} SeededClimbAtPow2(H: Hash, t: nat, b: bool, root1: Bytes, path: seq<Bytes>)
    ensures SeededClimb(H, Pow2(t) - 1, Pow2(t) - 1, b, root1, path)
            == ConsistentHeads(H, Pow2(t), Pow2(t), b, root1, path)
    decreases t
  {
    Pow2Unfolds(t);
    if t > 0 {
      assert (Pow2(t) - 1) / 2 == Pow2(t - 1) - 1;
      SeededClimbAtPow2(H, t - 1, b, root1, path);
    }
  }

  /** The reconstruction, with the last hash of a nonempty path named. */
  lemma ConsistentHeadsUnfolds(H: Hash, m: nat, n: nat, b: bool, root1: Bytes, rest: seq<Bytes>, z: Bytes)
    requires 0 < m < n
    ensures var k := SplitPoint(n);
            && (m <= k ==> ConsistentHeads(H, m, n, b, root1, rest + [z])
                           == ThenNewer(H, ConsistentHeads(H, m, k, b, root1, rest), z))
            && (m > k ==> ConsistentHeads(H, m, n, b, root1, rest + [z])
                          == ThenBoth(H, ConsistentHeads(H, m - k, n - k, false, root1, rest), z))
  {
    assert (rest + [z])[..|rest + [z]| - 1] == rest;
  }

  lemma InclusionHeadUnfolds(H: Hash, i: nat, n: nat, leaf: Bytes, rest: seq<Bytes>, z: Bytes)
    requires i < n && n > 1
    ensures var k := SplitPoint(n);
            && (i < k ==> InclusionHead(H, i, n, leaf, rest + [z])
                          == match InclusionHead(H, i, k, leaf, rest)
                             case None => None
                             case Some(r) => Some(NodeHash(H, r, z)))
            && (i >= k ==> InclusionHead(H, i, n, leaf, rest + [z])
                           == match InclusionHead(H, i - k, n - k, leaf, rest)
                              case None => None
                              case Some(r) => Some(NodeHash(H, z, r)))
  {
    assert (rest + [z])[..|rest + [z]| - 1] == rest;
  }

  /** The consistency climb is the top-down reconstruction of the two heads. */
  lemma {:induction false} ConsistencyLoopIsReconstruction(H: Hash, m: nat, n: nat, t: nat, b: bool, root1: Bytes,
                                                           path: seq<Bytes>)
    requires 0 < m <= n
    requires m == n ==> n == Pow2(t)
    ensures SeededClimb(H, m - 1, n - 1, b, root1, path) == ConsistentHeads(H, m, n, b, root1, path)
    decreases n
  {
    hide SeededClimb, ConsistentHeads, ThenBoth, ThenNewer, Pow2;
    if m == n {
      SeededClimbAtPow2(H, t, b, root1, path);
    } else if path == [] {
      SeededClimbStarves(H, m - 1, n - 1, b, root1);
      ConsistentHeadsStarve(H, m, n, b, root1);
    } else {
      var k, rest, z := SplitPoint(n), path[..|path| - 1], path[|path| - 1];
      var l := Level(n);
      assert path == rest + [z];
      ConsistentHeadsUnfolds(H, m, n, b, root1, rest, z);
      if m <= k {
        SeededClimbLeft(H, l, m - 1, n - 1, k - 1, b, root1, rest, z);
        ConsistencyLoopIsReconstruction(H, m, k, l, b, root1, rest);
      } else {
        SeededClimbRight(H, l, m - 1, n - 1, m - k - 1, n - k - 1, b, root1, rest, z);
        ConsistencyLoopIsReconstruction(H, m - k, n - k, l, false, root1, rest);
      }
    }
  }

  lemma ConsistentHeadsStarve(H: Hash, m: nat, n: nat, b: bool, root1: Bytes)
    requires 0 < m < n
    ensures ConsistentHeads(H, m, n, b, root1, []) == None
  {
  }

  function Newer(h: Option<Heads>): Option<Bytes> {
    if h == None then None else Some(h.value.newer)
  }

  /** The inclusion climb is the top-down reconstruction of the head. */
  lemma {:induction false} InclusionLoopIsReconstruction(H: Hash, i: nat, n: nat, h: Heads, path: seq<Bytes>)
    requires i < n
    ensures Newer(Climb(H, i, n - 1, h, path)) == InclusionHead(H, i, n, h.newer, path)
    decreases n
  {
    hide Climb, InclusionHead, Pow2;
    if n == 1 {
      ClimbEnds(H, h, path);
      InclusionHeadEnds(H, 0, 1, h.newer, path);
    } else if path == [] {
      ClimbStarves(H, i, n - 1, h);
      InclusionHeadEnds(H, i, n, h.newer, path);
    } else {
      var k, rest, z := SplitPoint(n), path[..|path| - 1], path[|path| - 1];
      assert path == rest + [z];
      InclusionHeadUnfolds(H, i, n, h.newer, rest, z);
      if i < k {
        ClimbLeft(H, Level(n), i, n - 1, k - 1, h, rest, z);
        InclusionLoopIsReconstruction(H, i, k, h, rest);
      } else {
        ClimbRight(H, Level(n), i, n - 1, i - k, n - k - 1, h, rest, z);
        InclusionLoopIsReconstruction(H, i - k, n - k, h, rest);
      }
    }
  }

  lemma InclusionHeadEnds(H: Hash, i: nat, n: nat, leaf: Bytes, path: seq<Bytes>)
    requires i < n
    ensures n == 1 ==> InclusionHead(H, i, n, leaf, path) == if path == [] then Some(leaf) else None
    ensures n > 1 && path == [] ==> InclusionHead(H, i, n, leaf, path) == None
  {
  }

  // ------------------------------------------------------------------
  // The verifier
  // ------------------------------------------------------------------

  /** An inclusion proof is accepted when the path rebuilds the head. */
  predicate InclusionAccepts(H: Hash, idx: int, size: int, leaf: Bytes, root: Bytes, proof: seq<Bytes>) {
    0 <= idx < size && InclusionHead(H, idx, size, leaf, proof) == Some(root)
  }

  /** A consistency proof is accepted when the path rebuilds both heads; equal sizes need equal
      heads and no path, and an empty older tree needs no path. */
  predicate ConsistencyAccepts(H: Hash, m: int, n: int, root1: Bytes, root2: Bytes, proof: seq<Bytes>) {
    && 0 <= m <= n
    && if m == n then proof == [] && root1 == root2
       else if m == 0 then proof == []
       else ConsistentHeads(H, m, n, true, root1, proof) == Some(Heads(root1, root2))
  }

  method VerifyInclusion(H: Hash, idx: int, size: int, leaf: Bytes, root: Bytes, proof: seq<Bytes>) returns (ok: bool)
    ensures ok == InclusionAccepts(H, idx, size, leaf, root, proof)
  {
    if idx < 0 || idx >= size { return false; }
    var fn, sn, r := idx, size - 1, leaf;
    ghost var h := Heads(leaf, leaf);
    ghost var goal := Climb(H, idx, size - 1, h, proof);
    InclusionLoopIsReconstruction(H, idx, size, h, proof);
    assert proof[0..] == proof;
    for j := 0 to |proof|
      invariant 0 <= fn <= sn
      invariant h.newer == r
      invariant Climb(H, fn, sn, h, proof[j..]) == goal
    {
      if sn == 0 { return false; }
      assert proof[j..][0] == proof[j] && proof[j..][1..] == proof[j + 1..];
      var p := proof[j];
      if fn % 2 == 1 || fn == sn {
        r := NodeHash(H, p, r);
        if fn % 2 == 0 {
          while fn != 0 && fn % 2 == 0
            invariant 0 < fn == sn
            invariant Climb(H, fn, sn, h, proof[j..]) == goal
            decreases fn
          {
            fn, sn := fn / 2, sn / 2;
          }
        }
        h := Both(H, p, h);
      } else {
        r := NodeHash(H, r, p);
        h := NewerOnly(H, h, p);
      }
      fn, sn := fn / 2, sn / 2;
    }
    if sn != 0 { ClimbStarves(H, fn, sn, h); }
    ok := sn == 0 && r == root;
  }

  method VerifyConsistency(H: Hash, m: int, n: int, root1: Bytes, root2: Bytes, proof: seq<Bytes>) returns (ok: bool)
    ensures ok == ConsistencyAccepts(H, m, n, root1, root2, proof)
  {
    hide ConsistentHeads, NodeHash;
    if m < 0 || n < m { return false; }
    if m == n { return proof == [] && root1 == root2; }
    if m == 0 { return proof == []; }
    if proof == [] {
      ConsistentHeadsStarve(H, m, n, true, root1);
      return false;
    }
    ghost var goal := ConsistentHeads(H, m, n, true, root1, proof);
    ConsistencyLoopIsReconstruction(H, m, n, 0, true, root1, proof);
    var node, last := m - 1, n - 1;
    while node % 2 == 1
      invariant 0 <= node < last
      invariant SeededClimb(H, node, last, true, root1, proof) == goal
      decreases node
    {
      node, last := node / 2, last / 2;
    }
    var j, h1, h2 := 0, root1, root1;
    if node != 0 {
      j, h1, h2 := 1, proof[0], proof[0];
    }
    assert proof[0..] == proof;
    while node != 0
      invariant 0 <= node <= last && 0 <= j <= |proof|
      invariant Climb(H, node, last, Heads(h1, h2), proof[j..]) == goal
      decreases node
    {
      if node % 2 == 1 || node < last {
        if j == |proof| { return false; }
        assert proof[j..][0] == proof[j] && proof[j..][1..] == proof[j + 1..];
        var s := proof[j];
        if node % 2 == 1 {
          h1, h2 := NodeHash(H, s, h1), NodeHash(H, s, h2);
        } else {
          h2 := NodeHash(H, h2, s);
        }
        j := j + 1;
      }
      node, last := node / 2, last / 2;
    }
    while last != 0
      invariant 0 <= last && 0 <= j <= |proof|
      invariant Climb(H, 0, last, Heads(h1, h2), proof[j..]) == goal
      decreases last
    {
      if j == |proof| { return false; }
      assert proof[j..][0] == proof[j] && proof[j..][1..] == proof[j + 1..];
      h2 := NodeHash(H, h2, proof[j]);
      j, last := j + 1, last / 2;
    }
    ok := h1 == root1 && h2 == root2 && j == |proof|;
  }
}
