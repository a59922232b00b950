/** The transparency log: the RFC 6962 tree head over an append-only list of entries, with its
    inclusion and consistency proofs.  An entry is taken as its UTF-8 bytes. */
module TransparencyLog {
  import opened ByteStrings
  import opened PowersOfTwo

  function LeafHash(H: Hash, entry: Bytes): Digest {
    Sum(H, [0x00] + entry)
  }

  function NodeHash(H: Hash, left: Bytes, right: Bytes): Digest {
    Sum(H, NodeInput(left, right))
  }

  function NodeInput(left: Bytes, right: Bytes): Bytes {
    [0x01] + left + right
  }

  /** The largest power of two strictly below n, where a tree over n entries splits. */
  function SplitPoint(n: nat): (k: nat)
    requires n >= 2
    ensures 0 < k < n <= 2 * k
  {
    Pow2(Level(n))
  }

  method LogK(n: nat) returns (k: nat)
    ensures n < 2 ==> k == 0
    ensures n >= 2 ==> k == SplitPoint(n)
  {
    k := 1;
    ghost var t := 0;
    while k < n
      invariant k == Pow2(t)
      invariant t > 0 ==> Pow2(t - 1) < n
      decreases n - k
    {
      k, t := 2 * k, t + 1;
    }
    if n >= 2 { LevelUnique(n, t - 1); }
    k := k / 2;
  }

  function TreeHead(H: Hash, entries: seq<Bytes>): Digest
    decreases |entries|
  {
    var n := |entries|;
    if n == 0 then Sum(H, [])
    else if n == 1 then LeafHash(H, entries[0])
    else
      var k := SplitPoint(n);
      NodeHash(H, TreeHead(H, entries[..k]), TreeHead(H, entries[k..]))
  }

  function ConsistencyPath(H: Hash, m: nat, entries: seq<Bytes>, b: bool): seq<Bytes>
    requires 0 < m <= |entries|
    decreases |entries|
  {
    var n := |entries|;
    if m == n then
      if b then [] else [TreeHead(H, entries)]
    else
      var k := SplitPoint(n);
      if m <= k then
        ConsistencyPath(H, m, entries[..k], b) + [TreeHead(H, entries[k..])]
      else
        ConsistencyPath(H, m - k, entries[k..], false) + [TreeHead(H, entries[..k])]
  }

  /** Outside 1..|entries| the proof is the empty list. */
  function ConsistencyProof(H: Hash, m: int, entries: seq<Bytes>): seq<Bytes> {
    if m <= 0 || m > |entries| then [] else ConsistencyPath(H, m, entries, true)
  }

  function InclusionPath(H: Hash, i: nat, entries: seq<Bytes>): seq<Bytes>
    requires i < |entries|
    decreases |entries|
  {
    var n := |entries|;
    if n <= 1 then []
    else
      var k := SplitPoint(n);
      if i < k then
        InclusionPath(H, i, entries[..k]) + [TreeHead(H, entries[k..])]
      else
        InclusionPath(H, i - k, entries[k..]) + [TreeHead(H, entries[..k])]
  }

  /** Outside the log the proof is the empty list. */
  function InclusionProof(H: Hash, idx: int, entries: seq<Bytes>): seq<Bytes> {
    if idx < 0 || idx >= |entries| then [] else InclusionPath(H, idx, entries)
  }

  // ------------------------------------------------------------------
  // Proof lengths
  // ------------------------------------------------------------------

  lemma InclusionProofLength(H: Hash, idx: int, entries: seq<Bytes>)
    ensures !(0 <= idx < |entries|) ==> InclusionProof(H, idx, entries) == []
    ensures entries != [] ==> |InclusionProof(H, idx, entries)| <= Depth(|entries|)
  {
    if 0 <= idx < |entries| { InclusionPathLength(H, idx, entries); }
  }

  lemma {:induction false} InclusionPathLength(H: Hash, i: nat, entries: seq<Bytes>)
    requires i < |entries|
    ensures |InclusionPath(H, i, entries)| <= Depth(|entries|)
    decreases |entries|
  {
    hide SplitPoint, Depth, TreeHead, InclusionPath;
    InclusionPathUnfolds(H, i, entries);
    var n := |entries|;
    if n > 1 {
      var k := SplitPoint(n);
      HalvesAreShallower(n);
      if i < k {
        InclusionPathLength(H, i, entries[..k]);
      } else {
        InclusionPathLength(H, i - k, entries[k..]);
      }
    }
  }

  lemma InclusionPathUnfolds(H: Hash, i: nat, entries: seq<Bytes>)
    requires i < |entries|
    ensures |entries| == 1 ==> InclusionPath(H, i, entries) == []
    ensures |entries| > 1 ==>
              var k := SplitPoint(|entries|);
              InclusionPath(H, i, entries)
              == if i < k then InclusionPath(H, i, entries[..k]) + [TreeHead(H, entries[k..])]
                 else InclusionPath(H, i - k, entries[k..]) + [TreeHead(H, entries[..k])]
  {
  }

  lemma ConsistencyProofLength(H: Hash, m: int, entries: seq<Bytes>)
    ensures !(0 < m < |entries|) ==> ConsistencyProof(H, m, entries) == []
    ensures entries != [] ==> |ConsistencyProof(H, m, entries)| <= Depth(|entries|) + 1
  {
    if 0 < m <= |entries| { ConsistencyPathLength(H, m, entries, true); }
  }

  lemma {:induction false} ConsistencyPathLength(H: Hash, m: nat, entries: seq<Bytes>, b: bool)
    requires 0 < m <= |entries|
    ensures |ConsistencyPath(H, m, entries, b)| <= Depth(|entries|) + 1
    decreases |entries|
  {
    hide SplitPoint, Depth, TreeHead;
    var n := |entries|;
    if m < n {
      var k := SplitPoint(n);
      HalvesAreShallower(n);
      if m <= k {
        ConsistencyPathLength(H, m, entries[..k], b);
        assert |ConsistencyPath(H, m, entries, b)| == |ConsistencyPath(H, m, entries[..k], b)| + 1;
      } else {
        ConsistencyPathLength(H, m - k, entries[k..], false);
        assert |ConsistencyPath(H, m, entries, b)| == |ConsistencyPath(H, m - k, entries[k..], false)| + 1;
      }
    }
  }

  lemma HalvesAreShallower(n: nat)
    requires n >= 2
    ensures Depth(SplitPoint(n)) < Depth(n)
    ensures Depth(n - SplitPoint(n)) < Depth(n)
  {
    DepthOfPow2(Level(n));
    DepthMonotone(n - SplitPoint(n), SplitPoint(n));
  }

  // ------------------------------------------------------------------
  // The head commits to the whole sequence
  // ------------------------------------------------------------------

  /** Every string hashed while computing TreeHead(H, entries). */
  ghost function HeadInputs(H: Hash, entries: seq<Bytes>): set<Bytes>
    decreases |entries|
  {
    var n := |entries|;
    if n == 0 then {[]}
    else if n == 1 then {[0x00] + entries[0]}
    else
      var k := SplitPoint(n);
      HeadInputs(H, entries[..k]) + HeadInputs(H, entries[k..])
      + {NodeInput(TreeHead(H, entries[..k]), TreeHead(H, entries[k..]))}
  }

  /** The string whose digest is the head itself. */
  ghost function HeadInput(H: Hash, entries: seq<Bytes>): (x: Bytes)
    ensures Sum(H, x) == TreeHead(H, entries)
    ensures x in HeadInputs(H, entries)
  {
    var n := |entries|;
    if n == 0 then []
    else if n == 1 then [0x00] + entries[0]
    else
      var k := SplitPoint(n);
      NodeInput(TreeHead(H, entries[..k]), TreeHead(H, entries[k..]))
  }

  /** Two logs of any lengths, the empty one included, with one head are one log, unless
      computing the two heads exhibits a collision. */
  lemma HeadCommitsToLog(H: Hash, d: seq<Bytes>, e: seq<Bytes>)
    requires TreeHead(H, d) == TreeHead(H, e)
    ensures d == e || Collides(H, HeadInputs(H, d) + HeadInputs(H, e))
  {
    var S := HeadInputs(H, d) + HeadInputs(H, e);
    if !Collides(H, S) { HeadInjective(H, S, d, e); }
  }

  lemma {:induction false} HeadInjective(H: Hash, S: set<Bytes>, d: seq<Bytes>, e: seq<Bytes>)
    requires !Collides(H, S)
    requires HeadInputs(H, d) <= S && HeadInputs(H, e) <= S
    requires TreeHead(H, d) == TreeHead(H, e)
    ensures d == e
    decreases |d|
  {
    hide SplitPoint, Collides, HeadInputs, TreeHead;
    var x, y := HeadInput(H, d), HeadInput(H, e);
    NoCollision(H, S, x, y);
    if |d| == 0 {
      assert |y| == 0;
    } else if |d| == 1 {
      assert y[0] == 0x00;
      assert |e| == 1 && e[0] == y[1..] && d[0] == x[1..];
    } else {
      assert |e| >= 2 by { assert x[0] == 0x01; }
      HeadUnfolds(H, d);
      HeadUnfolds(H, e);
      var j, k := SplitPoint(|d|), SplitPoint(|e|);
      NodeInputInjective(TreeHead(H, d[..j]), TreeHead(H, d[j..]), TreeHead(H, e[..k]), TreeHead(H, e[k..]));
      HeadInjective(H, S, d[..j], e[..k]);
      HeadInjective(H, S, d[j..], e[k..]);
      assert d == d[..j] + d[j..] && e == e[..k] + e[k..];
    }
  }

  lemma TreeHeadUnfolds(H: Hash, entries: seq<Bytes>)
    requires |entries| >= 2
    ensures var k := SplitPoint(|entries|);
            TreeHead(H, entries) == NodeHash(H, TreeHead(H, entries[..k]), TreeHead(H, entries[k..]))
  {
  }

  lemma HeadUnfolds(H: Hash, entries: seq<Bytes>)
    requires |entries| >= 2
    ensures var k := SplitPoint(|entries|);
            && TreeHead(H, entries) == NodeHash(H, TreeHead(H, entries[..k]), TreeHead(H, entries[k..]))
            && HeadInputs(H, entries[..k]) <= HeadInputs(H, entries)
            && HeadInputs(H, entries[k..]) <= HeadInputs(H, entries)
            && NodeInput(TreeHead(H, entries[..k]), TreeHead(H, entries[k..])) in HeadInputs(H, entries)
  {
  }

  lemma NodeInputInjective(a: Bytes, b: Bytes, c: Bytes, d: Bytes)
    requires NodeInput(a, b) == NodeInput(c, d)
    requires |b| == |d| || |a| == |c|
    ensures a == c && b == d
  {
    assert NodeInput(a, b)[1..] == a + b && NodeInput(c, d)[1..] == c + d;
    assert |a| + |b| == |c| + |d|;
    SplitEqual(a, b, c, d);
  }
}
