/** What an accepted inclusion or consistency proof establishes, and that honest proofs are
    accepted.  No length is assumed of any hash in a path: the verifier checks none. */
module LogTheorems {
  import opened ByteStrings
  import opened TransparencyLog
  import opened LogVerifier

  // ------------------------------------------------------------------
  // Completeness
  // ------------------------------------------------------------------

  lemma InclusionComplete(H: Hash, idx: int, entries: seq<Bytes>)
    requires 0 <= idx < |entries|
    ensures InclusionAccepts(H, idx, |entries|, LeafHash(H, entries[idx]), TreeHead(H, entries),
                             InclusionProof(H, idx, entries))
  {
    InclusionPathRebuilds(H, idx, entries);
  }

  lemma {:induction false} InclusionPathRebuilds(H: Hash, i: nat, entries: seq<Bytes>)
    requires i < |entries|
    ensures InclusionHead(H, i, |entries|, LeafHash(H, entries[i]), InclusionPath(H, i, entries))
            == Some(TreeHead(H, entries))
    decreases |entries|
  {
    hide InclusionHead, InclusionPath, SplitPoint, LeafHash, NodeHash;
    var n := |entries|;
    InclusionPathUnfolds(H, i, entries);
    if n == 1 {
      InclusionHeadEnds(H, i, n, LeafHash(H, entries[i]), []);
    } else {
      var k := SplitPoint(n);
      TreeHeadUnfolds(H, entries);
      if i < k {
        InclusionPathRebuilds(H, i, entries[..k]);
        InclusionHeadUnfolds(H, i, n, LeafHash(H, entries[i]), InclusionPath(H, i, entries[..k]), TreeHead(H, entries[k..]));
      } else {
        InclusionPathRebuilds(H, i - k, entries[k..]);
        InclusionHeadUnfolds(H, i, n, LeafHash(H, entries[i]), InclusionPath(H, i - k, entries[k..]), TreeHead(H, entries[..k]));
      }
    }
  }

  lemma ConsistencyComplete(H: Hash, m: int, entries: seq<Bytes>)
    requires 0 <= m <= |entries|
    ensures ConsistencyAccepts(H, m, |entries|, TreeHead(H, entries[..m]), TreeHead(H, entries),
                               ConsistencyProof(H, m, entries))
  {
    if m == |entries| {
      assert entries[..m] == entries;
    } else if m > 0 {
      ConsistencyPathRebuilds(H, m, entries, true);
    }
  }

  lemma {:induction false} ConsistencyPathRebuilds(H: Hash, m: nat, entries: seq<Bytes>, b: bool)
    requires 0 < m <= |entries|
    ensures ConsistentHeads(H, m, |entries|, b, TreeHead(H, entries[..m]), ConsistencyPath(H, m, entries, b))
            == Some(Heads(TreeHead(H, entries[..m]), TreeHead(H, entries)))
    decreases |entries|
  {
    hide ConsistentHeads, ConsistencyPath, SplitPoint, TreeHead, NodeHash;
    var n := |entries|;
    var root1 := TreeHead(H, entries[..m]);
    ConsistencyPathUnfolds(H, m, entries, b);
    if m == n {
      assert entries[..m] == entries;
      ConsistentHeadsEnd(H, m, b, root1, ConsistencyPath(H, m, entries, b));
    } else {
      var k := SplitPoint(n);
      var left, right := entries[..k], entries[k..];
      TreeHeadUnfolds(H, entries);
      if m <= k {
        assert left[..m] == entries[..m];
        ConsistencyPathRebuilds(H, m, left, b);
        ConsistentHeadsUnfolds(H, m, n, b, root1, ConsistencyPath(H, m, left, b), TreeHead(H, right));
      } else {
        SplitOfPrefix(m, n);
        assert entries[..m][..k] == left && entries[..m][k..] == right[..m - k];
        TreeHeadUnfolds(H, entries[..m]);
        ConsistencyPathRebuilds(H, m - k, right, false);
        ConsistentHeadsIgnoresRoot(H, m - k, n - k, root1, TreeHead(H, right[..m - k]), ConsistencyPath(H, m - k, right, false));
        ConsistentHeadsUnfolds(H, m, n, b, root1, ConsistencyPath(H, m - k, right, false), TreeHead(H, left));
      }
    }
  }

  /** Past its split point a prefix of a log splits where the log does. */
  lemma SplitOfPrefix(m: nat, n: nat)
    requires n >= 2 && SplitPoint(n) < m <= n
    ensures SplitPoint(m) == SplitPoint(n)
  {
    PowersOfTwo.LevelUnique(m, PowersOfTwo.Level(n));
  }

  lemma ConsistencyPathUnfolds(H: Hash, m: nat, entries: seq<Bytes>, b: bool)
    requires 0 < m <= |entries|
    ensures m == |entries| ==> ConsistencyPath(H, m, entries, b) == if b then [] else [TreeHead(H, entries)]
    ensures m < |entries| ==>
              var k := SplitPoint(|entries|);
              ConsistencyPath(H, m, entries, b)
              == if m <= k then ConsistencyPath(H, m, entries[..k], b) + [TreeHead(H, entries[k..])]
                 else ConsistencyPath(H, m - k, entries[k..], false) + [TreeHead(H, entries[..k])]
  {
  }

  lemma ConsistentHeadsEnd(H: Hash, n: nat, b: bool, root1: Bytes, path: seq<Bytes>)
    requires n > 0
    ensures ConsistentHeads(H, n, n, b, root1, path)
            == if b then (if path == [] then Some(Heads(root1, root1)) else None)
               else if |path| == 1 then Some(Heads(path[0], path[0])) else None
  {
  }

  lemma {:induction false} ConsistentHeadsIgnoresRoot(H: Hash, m: nat, n: nat, root1: Bytes, root1': Bytes, path: seq<Bytes>)
    requires 0 < m <= n
    ensures ConsistentHeads(H, m, n, false, root1, path) == ConsistentHeads(H, m, n, false, root1', path)
    decreases n
  {
    hide ConsistentHeads, SplitPoint;
    if m == n {
      ConsistentHeadsEnd(H, n, false, root1, path);
      ConsistentHeadsEnd(H, n, false, root1', path);
    } else if path == [] {
      ConsistentHeadsStarve(H, m, n, false, root1);
      ConsistentHeadsStarve(H, m, n, false, root1');
    } else {
      var k, rest, z := SplitPoint(n), path[..|path| - 1], path[|path| - 1];
      assert path == rest + [z];
      ConsistentHeadsUnfolds(H, m, n, false, root1, rest, z);
      ConsistentHeadsUnfolds(H, m, n, false, root1', rest, z);
      if m <= k {
        ConsistentHeadsIgnoresRoot(H, m, k, root1, root1', rest);
      } else {
        ConsistentHeadsIgnoresRoot(H, m - k, n - k, root1, root1', rest);
      }
    }
  }

  // ------------------------------------------------------------------
  // Soundness
  // ------------------------------------------------------------------

  /** Every string hashed while the inclusion path is replayed. */
  ghost function InclusionInputs(H: Hash, i: nat, n: nat, leaf: Bytes, path: seq<Bytes>): set<Bytes>
    requires i < n
    decreases n
  {
    if n == 1 || path == [] then {}
    else
      var k, z, rest := SplitPoint(n), path[|path| - 1], path[..|path| - 1];
      if i < k then
        InclusionInputs(H, i, k, leaf, rest)
        + (match InclusionHead(H, i, k, leaf, rest) case None => {} case Some(r) => {NodeInput(r, z)})
      else
        InclusionInputs(H, i - k, n - k, leaf, rest)
        + (match InclusionHead(H, i - k, n - k, leaf, rest) case None => {} case Some(r) => {NodeInput(z, r)})
  }

  /** Every string hashed while the consistency path is replayed. */
  ghost function ConsistencyInputs(H: Hash, m: nat, n: nat, b: bool, root1: Bytes, path: seq<Bytes>): set<Bytes>
    requires 0 < m <= n
    decreases n
  {
    if m == n || path == [] then {}
    else
      var k, z, rest := SplitPoint(n), path[|path| - 1], path[..|path| - 1];
      if m <= k then
        ConsistencyInputs(H, m, k, b, root1, rest)
        + (match ConsistentHeads(H, m, k, b, root1, rest)
           case None => {}
           case Some(h) => {NodeInput(h.newer, z)})
      else
        ConsistencyInputs(H, m - k, n - k, false, root1, rest)
        + (match ConsistentHeads(H, m - k, n - k, false, root1, rest)
           case None => {}
           case Some(h) => {NodeInput(z, h.older), NodeInput(z, h.newer)})
  }

  /** An accepted inclusion proof for an entry at a position names the entry of the log there,
      and is the log's own proof, unless the two computations exhibit a collision. */
  lemma InclusionSound(H: Hash, entries: seq<Bytes>, idx: int, entry: Bytes, proof: seq<Bytes>)
    requires InclusionAccepts(H, idx, |entries|, LeafHash(H, entry), TreeHead(H, entries), proof)
    ensures || (entry == entries[idx] && proof == InclusionProof(H, idx, entries))
            || Collides(H, HeadInputs(H, entries) + {[0x00] + entry}
                           + InclusionInputs(H, idx, |entries|, LeafHash(H, entry), proof))
  {
    var S := HeadInputs(H, entries) + {[0x00] + entry} + InclusionInputs(H, idx, |entries|, LeafHash(H, entry), proof);
    if !Collides(H, S) {
      AcceptedInclusion(H, S, entries, idx, entry, proof);
    }
  }

  lemma {:induction false} AcceptedInclusion(H: Hash, S: set<Bytes>, entries: seq<Bytes>, i: nat, entry: Bytes, path: seq<Bytes>)
    requires !Collides(H, S)
    requires i < |entries|
    requires HeadInputs(H, entries) <= S && [0x00] + entry in S
    requires InclusionInputs(H, i, |entries|, LeafHash(H, entry), path) <= S
    requires InclusionHead(H, i, |entries|, LeafHash(H, entry), path) == Some(TreeHead(H, entries))
    ensures entry == entries[i] && path == InclusionPath(H, i, entries)
    decreases |entries|
  {
    hide Collides, SplitPoint, TreeHead, HeadInputs, InclusionHead, InclusionPath, InclusionInputs;
    var n, leaf := |entries|, LeafHash(H, entry);
    InclusionPathUnfolds(H, i, entries);
    InclusionHeadEnds(H, i, n, leaf, path);
    if n == 1 {
      NoCollision(H, S, [0x00] + entry, HeadInput(H, entries));
      assert entry == ([0x00] + entry)[1..] && entries[0] == ([0x00] + entries[0])[1..];
    } else {
      var k, rest, z := SplitPoint(n), path[..|path| - 1], path[|path| - 1];
      var left, right := entries[..k], entries[k..];
      assert path == rest + [z];
      HeadUnfolds(H, entries);
      InclusionHeadUnfolds(H, i, n, leaf, rest, z);
      InclusionInputsUnfold(H, i, n, leaf, rest, z);
      if i < k {
        var r := InclusionHead(H, i, k, leaf, rest).value;
        InclusionHeadWidth(H, i, k, leaf, rest);
        NoCollision(H, S, NodeInput(r, z), NodeInput(TreeHead(H, left), TreeHead(H, right)));
        NodeInputInjective(r, z, TreeHead(H, left), TreeHead(H, right));
        AcceptedInclusion(H, S, left, i, entry, rest);
      } else {
        var r := InclusionHead(H, i - k, n - k, leaf, rest).value;
        InclusionHeadWidth(H, i - k, n - k, leaf, rest);
        NoCollision(H, S, NodeInput(z, r), NodeInput(TreeHead(H, left), TreeHead(H, right)));
        NodeInputInjective(z, r, TreeHead(H, left), TreeHead(H, right));
        AcceptedInclusion(H, S, right, i - k, entry, rest);
      }
    }
  }

  lemma InclusionHeadWidth(H: Hash, i: nat, n: nat, leaf: Bytes, path: seq<Bytes>)
    requires i < n && |leaf| == 32
    requires InclusionHead(H, i, n, leaf, path).Some?
    ensures |InclusionHead(H, i, n, leaf, path).value| == 32
  {
  }

  lemma InclusionInputsUnfold(H: Hash, i: nat, n: nat, leaf: Bytes, rest: seq<Bytes>, z: Bytes)
    requires i < n && n > 1
    ensures var k, S := SplitPoint(n), InclusionInputs(H, i, n, leaf, rest + [z]);
            && (i < k ==>
                  && InclusionInputs(H, i, k, leaf, rest) <= S
                  && (var r := InclusionHead(H, i, k, leaf, rest); r.Some? ==> NodeInput(r.value, z) in S))
            && (i >= k ==>
                  && InclusionInputs(H, i - k, n - k, leaf, rest) <= S
                  && (var r := InclusionHead(H, i - k, n - k, leaf, rest); r.Some? ==> NodeInput(z, r.value) in S))
  {
    assert (rest + [z])[..|rest + [z]| - 1] == rest;
  }

  /** The append-only theorem.  If the verifier accepts any path between the head of d and the
      head of e then d is the beginning of e, and the path is the log's own proof, unless the
      computations exhibit a collision. */
  lemma ConsistencySound(H: Hash, d: seq<Bytes>, e: seq<Bytes>, proof: seq<Bytes>)
    requires ConsistencyAccepts(H, |d|, |e|, TreeHead(H, d), TreeHead(H, e), proof)
    ensures || (d == e[..|d|] && proof == ConsistencyProof(H, |d|, e))
            || Collides(H, HeadInputs(H, d) + HeadInputs(H, e) + ReplayInputs(H, |d|, |e|, TreeHead(H, d), proof))
  {
    hide Collides, HeadInputs, TreeHead, ConsistencyPath, ConsistencyInputs, ConsistentHeads;
    var S := HeadInputs(H, d) + HeadInputs(H, e) + ReplayInputs(H, |d|, |e|, TreeHead(H, d), proof);
    if d == [] {
      assert e[..0] == d;
      if e == [] { assert proof == []; }
    } else if !Collides(H, S) {
      if |d| == |e| {
        ConsistencyPathUnfolds(H, |d|, e, true);
        HeadInjective(H, S, d, e);
        assert e[..|d|] == e;
      } else {
        AcceptedConsistency(H, S, d, e, true, TreeHead(H, d), proof);
      }
    }
  }

  ghost function ReplayInputs(H: Hash, m: nat, n: nat, root1: Bytes, proof: seq<Bytes>): set<Bytes>
    requires m <= n
  {
    if m == 0 then {} else ConsistencyInputs(H, m, n, true, root1, proof)
  }

  lemma {:induction false} AcceptedConsistency(H: Hash, S: set<Bytes>, d: seq<Bytes>, e: seq<Bytes>, b: bool, root1: Bytes,
                                               path: seq<Bytes>)
    requires !Collides(H, S)
    requires 0 < |d| <= |e|
    requires HeadInputs(H, d) <= S && HeadInputs(H, e) <= S
    requires ConsistencyInputs(H, |d|, |e|, b, root1, path) <= S
    requires ConsistentHeads(H, |d|, |e|, b, root1, path) == Some(Heads(TreeHead(H, d), TreeHead(H, e)))
    ensures d == e[..|d|] && path == ConsistencyPath(H, |d|, e, b)
    decreases |e|
  {
    hide Collides, SplitPoint, TreeHead, HeadInputs, ConsistentHeads, ConsistencyPath, ConsistencyInputs, HeadInput;
    var m, n := |d|, |e|;
    ConsistencyPathUnfolds(H, m, e, b);
    if m == n {
      ConsistentHeadsEnd(H, n, b, root1, path);
      HeadInjective(H, S, d, e);
      assert e[..m] == e;
    } else {
      if path == [] { ConsistentHeadsStarve(H, m, n, b, root1); }
      var k, rest, z := SplitPoint(n), path[..|path| - 1], path[|path| - 1];
      var left, right := e[..k], e[k..];
      assert path == rest + [z];
      HeadUnfolds(H, e);
      ConsistentHeadsUnfolds(H, m, n, b, root1, rest, z);
      ConsistencyInputsUnfold(H, m, n, b, root1, rest, z);
      if m <= k {
        var h := ConsistentHeads(H, m, k, b, root1, rest).value;
        NewerHeadWidth(H, m, k, b, root1, rest);
        NoCollision(H, S, NodeInput(h.newer, z), NodeInput(TreeHead(H, left), TreeHead(H, right)));
        NodeInputInjective(h.newer, z, TreeHead(H, left), TreeHead(H, right));
        AcceptedConsistency(H, S, d, left, b, root1, rest);
        assert left[..m] == e[..m];
      } else {
        var h := ConsistentHeads(H, m - k, n - k, false, root1, rest).value;
        NewerHeadWidth(H, m - k, n - k, false, root1, rest);
        SplitOfPrefix(m, n);
        HeadUnfolds(H, d);
        NoCollision(H, S, NodeInput(z, h.newer), NodeInput(TreeHead(H, left), TreeHead(H, right)));
        NodeInputInjective(z, h.newer, TreeHead(H, left), TreeHead(H, right));
        NoCollision(H, S, NodeInput(z, h.older), NodeInput(TreeHead(H, d[..k]), TreeHead(H, d[k..])));
        NodeInputInjective(z, h.older, TreeHead(H, d[..k]), TreeHead(H, d[k..]));
        HeadInjective(H, S, d[..k], left);
        AcceptedConsistency(H, S, d[k..], right, false, root1, rest);
        assert d == d[..k] + d[k..] && e[..m] == left + right[..m - k];
      }
    }
  }

  /** The newer head a path rebuilds is a digest, unless no step was taken and it is the older
      head itself. */
  lemma NewerHeadWidth(H: Hash, m: nat, n: nat, b: bool, root1: Bytes, path: seq<Bytes>)
    requires 0 < m <= n
    requires ConsistentHeads(H, m, n, b, root1, path).Some?
    ensures var h := ConsistentHeads(H, m, n, b, root1, path).value;
            if m == n then h.newer == h.older else |h.newer| == 32
  {
  }

  lemma ConsistencyInputsUnfold(H: Hash, m: nat, n: nat, b: bool, root1: Bytes, rest: seq<Bytes>, z: Bytes)
    requires 0 < m < n
    ensures var k, S := SplitPoint(n), ConsistencyInputs(H, m, n, b, root1, rest + [z]);
            && (m <= k ==>
                  && ConsistencyInputs(H, m, k, b, root1, rest) <= S
                  && (var h := ConsistentHeads(H, m, k, b, root1, rest); h.Some? ==> NodeInput(h.value.newer, z) in S))
            && (m > k ==>
                  && ConsistencyInputs(H, m - k, n - k, false, root1, rest) <= S
                  && (var h := ConsistentHeads(H, m - k, n - k, false, root1, rest);
                      h.Some? ==> NodeInput(z, h.value.older) in S && NodeInput(z, h.value.newer) in S))
  {
    assert (rest + [z])[..|rest + [z]| - 1] == rest;
  }
}
