/** What a batch root and its proofs establish, and what they do not. */
module BatchTheorems {
  import opened ByteStrings
  import opened PowersOfTwo
  import opened AnchorBatch

  // ------------------------------------------------------------------
  // Completeness
  // ------------------------------------------------------------------

  /** The proof of every leaf of every nonempty row list is accepted and has one step a level. */
  lemma ProofComplete(H: AnyHash, leaves: seq<Bytes>, i: nat)
    requires i < |leaves|
    ensures Accepts(H, leaves[i], Proof(H, leaves, i), Root(H, leaves))
    ensures |Proof(H, leaves, i)| == Depth(|leaves|)
  {
    ProofClimbs(H, leaves, i);
  }

  lemma {:induction false} ProofClimbs(H: AnyHash, row: seq<Bytes>, i: nat)
    requires i < |row|
    ensures Walk(H, row[i], Proof(H, row, i)) == Some(Root(H, row))
    ensures |Proof(H, row, i)| == Depth(|row|)
    decreases |row|
  {
    hide Walk, Proof, Depth, Combine, NextRow;
    ProofUnfolds(H, row, i);
    if |row| == 1 {
      WalkFirst(H, row[i], ProofStep(row, i), []);
    } else {
      DepthHalves(|row|);
      StepClimbs(H, row, i);
      ProofClimbs(H, NextRow(H, row), i / 2);
      WalkFirst(H, row[i], ProofStep(row, i), Proof(H, NextRow(H, row), i / 2));
    }
  }

  /** One step leads from a node to the node above it. */
  lemma StepClimbs(H: AnyHash, row: seq<Bytes>, i: nat)
    requires i < |row|
    ensures i / 2 < |NextRow(H, row)|
    ensures Combine(H, row[i], ProofStep(row, i)) == Some(NextRow(H, row)[i / 2])
  {
    hide PairHash;
    assert NextRow(H, row)[i / 2] == PairHash(H, row[2 * (i / 2)], RightOf(row, 2 * (i / 2)));
  }

  /** A walk, taken from its front. */
  lemma {:induction false} WalkFirst(H: AnyHash, leaf: Bytes, step: Step, rest: seq<Step>)
    ensures Walk(H, leaf, []) == Some(leaf)
    ensures Walk(H, leaf, [step] + rest)
            == match Combine(H, leaf, step)
               case None => None
               case Some(v) => Walk(H, v, rest)
    decreases |rest|
  {
    if rest == [] {
      assert ([step] + rest)[..0] == [];
    } else {
      WalkFirst(H, leaf, step, rest[..|rest| - 1]);
      assert ([step] + rest)[..|rest|] == [step] + rest[..|rest| - 1];
    }
  }

  /** A proof with a malformed step leads nowhere, whatever its other steps. */
  lemma {:induction false} MalformedIsRefused(H: AnyHash, leaf: Bytes, proof: seq<Step>, j: nat, root: Bytes)
    requires j < |proof| && proof[j].side == Malformed
    ensures !Accepts(H, leaf, proof, root)
  {
    assert proof[..j + 1][..j] == proof[..j];
    assert Walk(H, leaf, proof[..j + 1]) == None;
    MalformedStaysLost(H, leaf, proof, j + 1);
  }

  /** A batch is refused exactly when it is empty. */
  lemma RefusedIffEmpty(H: AnyHash, anchors: seq<Anchor>)
    ensures BatchOf(H, anchors) == Err(EmptyBatch) <==> anchors == []
  {
    if anchors != [] { BatchIs(H, anchors); }
  }

  /** In a batch of distinct ids every anchor has an accepted proof of ceil(log2 n) steps. */
  lemma BatchComplete(H: AnyHash, anchors: seq<Anchor>, a: Anchor)
    requires a in anchors && DistinctIds(anchors)
    ensures var b := BatchOf(H, anchors);
            && b.Ok? && Decimal(a.id) in b.value.proofs
            && Accepts(H, LeafHash(H, a), b.value.proofs[Decimal(a.id)], b.value.root)
            && |b.value.proofs[Decimal(a.id)]| == Depth(|anchors|)
  {
    var sorted := SortById(anchors);
    SortedDistinct(anchors);
    assert a in multiset(anchors) && a in multiset(sorted);
    var i :| 0 <= i < |sorted| && sorted[i] == a;
    ProofTableFinds(H, sorted, |sorted|, i);
    ProofComplete(H, Leaves(H, sorted), i);
  }

  lemma {:induction false} ProofTableFinds(H: AnyHash, sorted: seq<Anchor>, count: nat, i: nat)
    requires i < count <= |sorted| && DistinctIds(sorted)
    ensures var t := ProofTable(H, sorted, count);
            Decimal(sorted[i].id) in t && t[Decimal(sorted[i].id)] == Proof(H, Leaves(H, sorted), i)
    decreases count
  {
    hide Proof, Decimal, Leaves;
    if i < count - 1 {
      ProofTableFinds(H, sorted, count - 1, i);
      if Decimal(sorted[i].id) == Decimal(sorted[count - 1].id) {
        DecimalInjective(sorted[i].id, sorted[count - 1].id);
      }
    }
  }

  /** The anchors with one id, in their order. */
  function WithId(s: seq<Anchor>, id: int): seq<Anchor> {
    if s == [] then []
    else WithId(s[..|s| - 1], id) + if s[|s| - 1].id == id then [s[|s| - 1]] else []
  }

  lemma WithIdExtends(s: seq<Anchor>, a: Anchor, id: int)
    ensures WithId(s + [a], id) == WithId(s, id) + if a.id == id then [a] else []
  {
    assert (s + [a])[..|s|] == s;
  }

  lemma {:induction false} InsertIsStable(s: seq<Anchor>, a: Anchor, id: int)
    ensures WithId(Insert(s, a), id) == WithId(s + [a], id)
  {
    hide WithId;
    if s != [] && s[|s| - 1].id > a.id {
      var init, last := s[..|s| - 1], s[|s| - 1];
      InsertIsStable(init, a, id);
      WithIdExtends(Insert(init, a), last, id);
      WithIdExtends(init, a, id);
      WithIdExtends(s, a, id);
      WithIdExtends(init, last, id);
      assert s == init + [last];
    }
  }

  /** Anchors with one id keep the order they were given in. */
  lemma {:induction false} SortIsStable(s: seq<Anchor>, id: int)
    ensures WithId(SortById(s), id) == WithId(s, id)
  {
    if s != [] {
      var init, last := s[..|s| - 1], s[|s| - 1];
      SortIsStable(init, id);
      InsertIsStable(SortById(init), last, id);
      WithIdExtends(SortById(init), last, id);
    }
  }

  /** The proof table holds, under the text of each id there is and no other, the proof of the last anchor
      given with that id. */
  lemma TableHoldsLast(H: AnyHash, anchors: seq<Anchor>, id: int)
    requires anchors != []
    ensures var b, same := BatchOf(H, anchors), WithId(anchors, id);
            && b.Ok?
            && (Decimal(id) in b.value.proofs <==> same != [])
            && (same != [] ==> Accepts(H, LeafHash(H, same[|same| - 1]), b.value.proofs[Decimal(id)], b.value.root))
    ensures forall key :: key in BatchOf(H, anchors).value.proofs ==> key == Decimal(ReadDecimal(key))
  {
    hide *;
    var sorted := Sorted(anchors);
    BatchIs(H, anchors);
    SortIsStable(anchors, id);
    assert sorted[..|sorted|] == sorted;
    TableHoldsLastUpTo(H, sorted, |sorted|, id);
    TableKeys(H, sorted, |sorted|);
    if WithId(sorted, id) != [] {
      var i: nat :| i < |sorted| && sorted[i] == WithId(sorted, id)[|WithId(sorted, id)| - 1]
                    && ProofTable(H, sorted, |sorted|)[Decimal(id)] == Proof(H, Leaves(H, sorted), i);
      LeafAt(H, sorted, i);
      ProofComplete(H, Leaves(H, sorted), i);
    }
  }

  lemma BatchIs(H: AnyHash, anchors: seq<Anchor>)
    requires anchors != []
    ensures Sorted(anchors) == SortById(anchors)
    ensures BatchOf(H, anchors) == Ok(Batch(Root(H, Leaves(H, Sorted(anchors))), ProofTable(H, Sorted(anchors), |Sorted(anchors)|)))
  {
  }

  lemma LeafAt(H: AnyHash, sorted: seq<Anchor>, i: nat)
    requires i < |sorted|
    ensures Leaves(H, sorted)[i] == LeafHash(H, sorted[i])
  {
  }

  lemma {:induction false} TableKeys(H: AnyHash, sorted: seq<Anchor>, count: nat)
    requires count <= |sorted|
    ensures forall key :: key in ProofTable(H, sorted, count) ==> key == Decimal(ReadDecimal(key))
  {
    hide Decimal, ReadDecimal, Proof, Leaves;
    if count > 0 {
      TableKeys(H, sorted, count - 1);
      DecimalReads(sorted[count - 1].id);
    }
  }

  lemma {:induction false} TableHoldsLastUpTo(H: AnyHash, sorted: seq<Anchor>, count: nat, id: int)
    requires count <= |sorted|
    ensures var t, same := ProofTable(H, sorted, count), WithId(sorted[..count], id);
            && (Decimal(id) in t <==> same != [])
            && (same != [] ==>
                  exists i: nat :: i < count && sorted[i] == same[|same| - 1] && t[Decimal(id)] == Proof(H, Leaves(H, sorted), i))
    decreases count
  {
    hide Decimal, Proof, Leaves;
    if count > 0 {
      TableHoldsLastUpTo(H, sorted, count - 1, id);
      assert sorted[..count] == sorted[..count - 1] + [sorted[count - 1]];
      WithIdExtends(sorted[..count - 1], sorted[count - 1], id);
      if Decimal(sorted[count - 1].id) == Decimal(id) { DecimalInjective(sorted[count - 1].id, id); }
    }
  }

  lemma SortedDistinct(s: seq<Anchor>)
    requires DistinctIds(s)
    ensures Ascending(SortById(s)) && DistinctIds(SortById(s)) && multiset(SortById(s)) == multiset(s)
    ensures |SortById(s)| == |s|
  {
    var t := SortById(s);
    SortedPermutation(s);
    assert |multiset(t)| == |multiset(s)|;
    if i, j :| 0 <= i < j < |t| && t[i].id == t[j].id {
      DistinctInPermutation(s, t, i, j);
    }
  }

  lemma DistinctInPermutation(s: seq<Anchor>, t: seq<Anchor>, i: nat, j: nat)
    requires DistinctIds(s) && multiset(t) == multiset(s) && i < j < |t|
    ensures t[i].id != t[j].id
  {
    assert t[i] in multiset(s) && t[j] in multiset(s);
    if t[i] == t[j] {
      assert t == t[..j] + [t[j]] + t[j + 1..];
      assert t[..j] == t[..i] + [t[i]] + t[i + 1..j];
      assert multiset(t)[t[i]] >= 2;
      AtMostOnce(s, t[i]);
    }
  }

  lemma {:induction false} AtMostOnce(s: seq<Anchor>, a: Anchor)
    requires DistinctIds(s)
    ensures multiset(s)[a] <= 1
  {
    if s != [] {
      AtMostOnce(s[1..], a);
      assert s == [s[0]] + s[1..];
      if s[0] == a {
        assert forall k :: 0 < k < |s| ==> s[k].id != a.id;
        assert a !in s[1..];
      }
    }
  }

  /** The order in which the anchors of a batch are given changes neither root nor proofs. */
  lemma BatchIgnoresOrder(H: AnyHash, a: seq<Anchor>, b: seq<Anchor>)
    requires multiset(a) == multiset(b) && DistinctIds(a)
    ensures BatchOf(H, a) == BatchOf(H, b)
  {
    SortedDistinct(a);
    SortedPermutation(b);
    SortedUnique(SortById(a), SortById(b));
  }

  lemma {:induction false} SortedUnique(s: seq<Anchor>, t: seq<Anchor>)
    requires Ascending(s) && Ascending(t) && DistinctIds(s) && multiset(s) == multiset(t)
    ensures s == t
    decreases |s|
  {
    hide Ascending, DistinctIds;
    SameLength(s, t);
    if s != [] {
      LeastFirst(s, t);
      TailKeepsOrder(s);
      TailKeepsOrder(t);
      TailsAgree(s, t);
      SortedUnique(s[1..], t[1..]);
      assert s == [s[0]] + s[1..] && t == [t[0]] + t[1..];
    }
  }

  lemma SameLength(s: seq<Anchor>, t: seq<Anchor>)
    requires multiset(s) == multiset(t)
    ensures |s| == |t|
  {
    assert |s| == |multiset(s)| == |multiset(t)| == |t|;
  }

  lemma TailsAgree(s: seq<Anchor>, t: seq<Anchor>)
    requires multiset(s) == multiset(t) && s != [] && t != [] && s[0] == t[0]
    ensures multiset(s[1..]) == multiset(t[1..])
  {
    assert s == [s[0]] + s[1..] && t == [t[0]] + t[1..];
    assert multiset(s[1..]) == multiset(s) - multiset{s[0]} == multiset(t[1..]);
  }

  lemma TailKeepsOrder(s: seq<Anchor>)
    requires s != [] && Ascending(s)
    ensures Ascending(s[1..]) && (DistinctIds(s) ==> DistinctIds(s[1..]))
  {
  }

  lemma LeastFirst(s: seq<Anchor>, t: seq<Anchor>)
    requires Ascending(s) && Ascending(t) && DistinctIds(s) && multiset(s) == multiset(t)
    requires s != [] && t != []
    ensures s[0] == t[0]
  {
    assert s[0] in multiset(t) && t[0] in multiset(s);
    var k :| 0 <= k < |s| && s[k] == t[0];
    var j :| 0 <= j < |t| && t[j] == s[0];
    assert t[0].id <= t[j].id && s[0].id <= s[k].id;
  }

  // ------------------------------------------------------------------
  // What a proof binds
  // ------------------------------------------------------------------

  /** Every string hashed while the batch root is computed. */
  ghost function TreeInputs(H: AnyHash, sorted: seq<Anchor>): set<Bytes>
    requires sorted != []
  {
    (set i | 0 <= i < |sorted| :: RowText(sorted[i])) + PairInputs(Rows(H, Leaves(H, sorted)))
  }

  ghost function PairInputs(t: seq<seq<Bytes>>): set<Bytes> {
    set l, i | 0 <= l < |t| - 1 && 0 <= i < |t[l]| && i % 2 == 0 :: t[l][i] + RightOf(t[l], i)
  }

  /** Every string hashed while a proof is walked. */
  ghost function WalkInputs(H: AnyHash, leaf: Bytes, proof: seq<Step>): set<Bytes> {
    if proof == [] then {}
    else
      var init, step := proof[..|proof| - 1], proof[|proof| - 1];
      WalkInputs(H, leaf, init)
      + (match Walk(H, leaf, init)
         case None => {}
         case Some(v) => {if step.side == Left then step.sibling + v else v + step.sibling})
  }

  ghost predicate SiblingWidth(proof: seq<Step>, width: nat) {
    forall j :: 0 <= j < |proof| ==> |proof[j].sibling| == width
  }

  /** A proof of any length accepted for the leaf recomputed from a row puts that row in the
      batch, unless the computations exhibit a collision: given siblings of one width, no text in
      the batch as long as a sibling and a digest, and a row text not as long as two digests. */
  lemma BatchProofBinds(H: AnyHash, anchors: seq<Anchor>, row: Anchor, proof: seq<Step>, k: nat)
    requires anchors != []
    requires SiblingWidth(proof, k) && AvoidsLength(anchors, k + H.width) && |RowText(row)| != 2 * H.width
    requires Accepts(H, LeafHash(H, row), proof, BatchRoot(H, anchors))
    ensures row in anchors || Collides(H, BindingInputs(H, anchors, row, proof))
  {
    hide Collides, RowText, Walk, WalkInputs, TreeInputs, LeafHash;
    var sorted := Sorted(anchors);
    var leaves := Leaves(H, sorted);
    var S := BindingInputs(H, anchors, row, proof);
    if !Collides(H, S) {
      RowsShape(H, leaves);
      forall a | a in sorted ensures a in anchors { assert a in multiset(anchors); }
      Descend(H, S, sorted, |Rows(H, leaves)| - 1, 0, row, proof, k);
    }
  }

  /** No anchor of a batch has a text of this length. */
  ghost predicate AvoidsLength(anchors: seq<Anchor>, n: nat) {
    forall a :: a in anchors ==> |RowText(a)| != n
  }

  /** Every string hashed while a batch is closed and a proof for a row is checked against it. */
  ghost function BindingInputs(H: AnyHash, anchors: seq<Anchor>, row: Anchor, proof: seq<Step>): set<Bytes>
    requires anchors != []
  {
    TreeInputs(H, Sorted(anchors)) + {RowText(row)} + WalkInputs(H, LeafHash(H, row), proof)
  }

  /** The batch in its leaf order. */
  ghost function Sorted(anchors: seq<Anchor>): (s: seq<Anchor>)
    requires anchors != []
    ensures s == SortById(anchors) && s != [] && multiset(s) == multiset(anchors)
  {
    SortedPermutation(anchors);
    assert |multiset(SortById(anchors))| == |multiset(anchors)|;
    SortById(anchors)
  }

  /** The root a batch is closed with. */
  ghost function BatchRoot(H: AnyHash, anchors: seq<Anchor>): (root: Bytes)
    requires anchors != []
    ensures BatchOf(H, anchors).Ok? && root == BatchOf(H, anchors).value.root
  {
    Root(H, Leaves(H, Sorted(anchors)))
  }

  /** A walk that reaches a node of the tree began at one of its leaves. */
  lemma {:induction false} Descend(H: AnyHash, S: set<Bytes>, sorted: seq<Anchor>, l: nat, i: nat, row: Anchor, proof: seq<Step>,
                                   k: nat)
    requires !Collides(H, S) && sorted != []
    requires TreeInputs(H, sorted) <= S && RowText(row) in S && WalkInputs(H, LeafHash(H, row), proof) <= S
    requires SiblingWidth(proof, k) && AvoidsLength(sorted, k + H.width) && |RowText(row)| != 2 * H.width
    requires l < |Rows(H, Leaves(H, sorted))| && i < |Rows(H, Leaves(H, sorted))[l]|
    requires Walk(H, LeafHash(H, row), proof) == Some(Rows(H, Leaves(H, sorted))[l][i])
    ensures row in sorted
    decreases |proof|
  {
    hide Collides, Walk, WalkInputs, Rows, TreeInputs, RowText;
    var t := Rows(H, Leaves(H, sorted));
    var x := WalkInput(H, S, row, proof, k);
    var y := NodeInput(H, S, sorted, l, i);
    NoCollision(H, S, x, y);
    if l == 0 {
      assert y == RowText(sorted[i]);
      assert proof == [];
      RowTextInjective(row, sorted[i]);
    } else {
      var below := t[l - 1];
      assert y == below[2 * i] + RightOf(below, 2 * i);
      assert |y| == 2 * H.width;
      assert proof != [];
      var j := |proof| - 1;
      var v, sibling := Walk(H, LeafHash(H, row), proof[..j]).value, proof[j].sibling;
      if proof[j].side == Left {
        SplitEqual(sibling, v, below[2 * i], RightOf(below, 2 * i));
        Descend(H, S, sorted, l - 1, if 2 * i + 1 < |below| then 2 * i + 1 else 2 * i, row, proof[..j], k);
      } else {
        SplitEqual(v, sibling, below[2 * i], RightOf(below, 2 * i));
        Descend(H, S, sorted, l - 1, 2 * i, row, proof[..j], k);
      }
    }
  }

  /** The string whose digest ends a successful walk. */
  lemma WalkInput(H: AnyHash, S: set<Bytes>, row: Anchor, proof: seq<Step>, k: nat) returns (x: Bytes)
    requires RowText(row) in S && WalkInputs(H, LeafHash(H, row), proof) <= S
    requires SiblingWidth(proof, k)
    requires Walk(H, LeafHash(H, row), proof).Some?
    ensures x in S && Sum(H, x) == Walk(H, LeafHash(H, row), proof).value
    ensures proof == [] ==> x == RowText(row)
    ensures proof != [] ==>
              var j := |proof| - 1;
              && |x| == k + H.width
              && WalkInputs(H, LeafHash(H, row), proof[..j]) <= S
              && SiblingWidth(proof[..j], k)
              && Walk(H, LeafHash(H, row), proof[..j]).Some?
              && (var v := Walk(H, LeafHash(H, row), proof[..j]).value;
                  && |v| == H.width && |proof[j].sibling| == k
                  && x == if proof[j].side == Left then proof[j].sibling + v else v + proof[j].sibling)
  {
    if proof == [] {
      x := RowText(row);
    } else {
      var j := |proof| - 1;
      var v := Walk(H, LeafHash(H, row), proof[..j]).value;
      WalkWidth(H, LeafHash(H, row), proof[..j]);
      x := if proof[j].side == Left then proof[j].sibling + v else v + proof[j].sibling;
    }
  }

  lemma WalkWidth(H: AnyHash, leaf: Bytes, proof: seq<Step>)
    requires |leaf| == H.width && Walk(H, leaf, proof).Some?
    ensures |Walk(H, leaf, proof).value| == H.width
  {
  }

  /** The string whose digest is a node of the tree. */
  lemma NodeInput(H: AnyHash, S: set<Bytes>, sorted: seq<Anchor>, l: nat, i: nat) returns (y: Bytes)
    requires sorted != [] && TreeInputs(H, sorted) <= S
    requires l < |Rows(H, Leaves(H, sorted))| && i < |Rows(H, Leaves(H, sorted))[l]|
    ensures var t := Rows(H, Leaves(H, sorted));
            && y in S && Sum(H, y) == t[l][i]
            && (l == 0 ==> i < |sorted| && y == RowText(sorted[i]))
            && (l > 0 ==>
                  && 2 * i < |t[l - 1]|
                  && y == t[l - 1][2 * i] + RightOf(t[l - 1], 2 * i)
                  && |t[l - 1][2 * i]| == |RightOf(t[l - 1], 2 * i)| == H.width)
  {
    hide Rows, RowText, PairInputs, NextRow, Chained, Depth;
    var leaves := Leaves(H, sorted);
    var t := Rows(H, leaves);
    RowsShape(H, leaves);
    if l == 0 {
      y := RowText(sorted[i]);
    } else {
      ChainStep(H, t, l);
      y := t[l - 1][2 * i] + RightOf(t[l - 1], 2 * i);
      PairHashed(t, l - 1, 2 * i);
      RowWidth(H, sorted, l - 1);
    }
  }

  lemma PairHashed(t: seq<seq<Bytes>>, l: nat, i: nat)
    requires l < |t| - 1 && i < |t[l]| && i % 2 == 0
    ensures t[l][i] + RightOf(t[l], i) in PairInputs(t)
  {
  }

  lemma RowWidth(H: AnyHash, sorted: seq<Anchor>, l: nat)
    requires sorted != [] && l < |Rows(H, Leaves(H, sorted))|
    ensures forall x :: x in Rows(H, Leaves(H, sorted))[l] ==> |x| == H.width
  {
    hide Rows, NextRow;
    RowsShape(H, Leaves(H, sorted));
    if l > 0 { NextRowWidth(H, Rows(H, Leaves(H, sorted))[l - 1]); }
  }

  lemma NextRowWidth(H: AnyHash, row: seq<Bytes>)
    ensures forall x :: x in NextRow(H, row) ==> |x| == H.width
  {
  }

  // ------------------------------------------------------------------
  // Exactly when proofs bind
  // ------------------------------------------------------------------

  /** Proofs with siblings of width k bind this row: under every hash with digests of width w, and in
      every batch without a text of length n. */
  ghost predicate Binds(w: nat, k: nat, n: nat, row: Anchor) {
    forall H: AnyHash, anchors: seq<Anchor>, proof: seq<Step> ::
      && H.width == w && anchors != [] && SiblingWidth(proof, k) && AvoidsLength(anchors, n)
      && Accepts(H, LeafHash(H, row), proof, BatchRoot(H, anchors))
      ==> row in anchors || Collides(H, BindingInputs(H, anchors, row, proof))
  }

  /** Each condition of BatchProofBinds is needed, for every row and whatever the widths: proofs bind
      exactly when the batch holds no text as long as a sibling and a digest, and the row's own text
      is not as long as two digests.  For a batch without a text of two digests (n == 2 * w) the first
      condition says that a sibling is one digest wide. */
  lemma BindsIff(w: nat, k: nat, n: nat, row: Anchor)
    requires w >= 3
    ensures Binds(w, k, n, row) <==> n == k + w && |RowText(row)| != 2 * w
  {
    hide RowText, LeafHash, TreeInputs, BatchOf, Collides, BatchRoot, Sorted, Accepts, WalkInputs;
    if n != k + w {
      var H, anchors, proof := SiblingSpellsText(w, k, row);
      assert AvoidsLength(anchors, n);
    } else if |RowText(row)| == 2 * w {
      var H, anchors := TextSpellsNode(w, row, []);
      assert AvoidsLength(anchors, n);
      NothingWalked(H, LeafHash(H, row));
      assert BindingInputs(H, anchors, row, []) == TreeInputs(H, Sorted(anchors)) + {RowText(row)};
    } else {
      forall H: AnyHash, anchors: seq<Anchor>, proof: seq<Step> |
        && H.width == w && anchors != [] && SiblingWidth(proof, k) && AvoidsLength(anchors, n)
        && Accepts(H, LeafHash(H, row), proof, BatchRoot(H, anchors))
        ensures row in anchors || Collides(H, BindingInputs(H, anchors, row, proof))
      {
        BatchProofBinds(H, anchors, row, proof, k);
      }
    }
  }

  const SEVEN: byte := 0x37

  /** A one-anchor batch that takes a row for its own: the sibling is the beginning of the anchor's
      text and the row's digest is the rest of it. */
  lemma SiblingSpellsText(w: nat, k: nat, row: Anchor) returns (H: AnyHash, anchors: seq<Anchor>, proof: seq<Step>)
    requires w >= 2
    ensures H.width == w && |anchors| == 1 && row !in anchors && |RowText(anchors[0])| == k + w
    ensures SiblingWidth(proof, k) && Accepts(H, LeafHash(H, row), proof, BatchRoot(H, anchors))
    ensures !Collides(H, BindingInputs(H, anchors, row, proof))
  {
    hide RowText, LeafHash, TreeInputs, BatchOf, Decimal, Collides, Walk, WalkInputs;
    var inside := Anchor(if row.id == 1 then 2 else 1, seq(k + w - 2, _ => SEVEN));
    var text := RowText(inside);
    LongText(inside.id, inside.commitment);
    var sibling, digest := text[..k], text[k..];
    assert digest[|digest| - 1] == text[|text| - 1];
    assert sibling + digest == text;
    H := TwoValued(RowText(row), digest);
    anchors, proof := [inside], [Step(sibling, Left)];
    if text == RowText(row) { RowTextInjective(inside, row); }
    SpelledText(H, inside, row, sibling, digest);
    assert Sum(H, text)[|digest| - 1] == 0;
    NoneOfThree(H, text, text, RowText(row));
  }

  lemma LongText(id: int, commitment: Bytes)
    requires 1 <= id <= 2 && forall j :: 0 <= j < |commitment| ==> commitment[j] == SEVEN
    ensures var text := RowText(Anchor(id, commitment)); |text| == |commitment| + 2 && text[|text| - 1] != 0
  {
    assert Decimal(id) == [0x30 + id];
  }

  lemma SpelledText(H: AnyHash, inside: Anchor, row: Anchor, sibling: Bytes, digest: Bytes)
    requires sibling + digest == RowText(inside) && Sum(H, RowText(row)) == digest
    ensures Accepts(H, LeafHash(H, row), [Step(sibling, Left)], BatchRoot(H, [inside]))
    ensures BindingInputs(H, [inside], row, [Step(sibling, Left)]) == {RowText(inside), RowText(inside), RowText(row)}
  {
    hide RowText, TreeInputs, BatchOf, Walk, WalkInputs;
    SingleBatch(H, inside);
    OneStep(H, LeafHash(H, row), Step(sibling, Left));
  }

  /** A hash that gives one string a digest of its own and every other string zeros. */
  ghost function TwoValued(special: Bytes, digest: Bytes): (H: AnyHash)
    ensures H.width == |digest|
    ensures forall x :: Sum(H, x) == if x == special then digest else seq(|digest|, _ => 0)
  {
    var f: Bytes -> Bytes := (x: Bytes) => if x == special then digest else seq(|digest|, _ => 0);
    HashFunction(|digest|, f)
  }

  lemma SingleBatch(H: AnyHash, a: Anchor)
    ensures Sorted([a]) == [a] && Leaves(H, [a]) == [LeafHash(H, a)]
    ensures BatchRoot(H, [a]) == LeafHash(H, a) && TreeInputs(H, [a]) == {RowText(a)}
  {
    hide PairHash, LeafHash, RowText;
    assert [a][..0] == [];
    assert Leaves(H, [a]) == [LeafHash(H, a)];
    RowsOfOne(H, LeafHash(H, a));
  }

  lemma RowsOfOne(H: AnyHash, x: Bytes)
    ensures Rows(H, [x]) == [[x]] && Root(H, [x]) == x && PairInputs(Rows(H, [x])) == {}
  {
  }

  lemma RowsOfTwo(H: AnyHash, x: Bytes, y: Bytes)
    ensures Rows(H, [x, y]) == [[x, y], [PairHash(H, x, y)]] && Root(H, [x, y]) == PairHash(H, x, y)
    ensures PairInputs(Rows(H, [x, y])) == {x + y}
  {
    hide PairHash;
    assert NextRow(H, [x, y]) == [PairHash(H, x, y)];
    RowsOfOne(H, PairHash(H, x, y));
    var t := Rows(H, [x, y]);
    assert t == [[x, y], [PairHash(H, x, y)]];
    assert t[0][0] + RightOf(t[0], 0) == x + y;
  }

  lemma OneStep(H: AnyHash, leaf: Bytes, step: Step)
    ensures Walk(H, leaf, [step]) == Combine(H, leaf, step)
    ensures step.side == Left ==> WalkInputs(H, leaf, [step]) == {step.sibling + leaf}
  {
    assert [step][..0] == [];
    assert Walk(H, leaf, []) == Some(leaf) && WalkInputs(H, leaf, []) == {};
  }

  /** A row whose text is as long as two digests can spell an inner node: a batch of two other anchors,
      of any commitment c, is closed with that row's leaf for its root. */
  lemma TextSpellsNode(w: nat, row: Anchor, c: Bytes) returns (H: AnyHash, anchors: seq<Anchor>)
    requires w > 0 && |RowText(row)| == 2 * w != |c| + 2
    ensures H.width == w && |anchors| == 2 && row !in anchors && forall a :: a in anchors ==> |RowText(a)| == |c| + 2
    ensures RowText(row)[..w] != RowText(row)[w..] ==> DistinctIds(anchors)
    ensures BatchRoot(H, anchors) == LeafHash(H, row) == BatchRoot(H, [row])
    ensures !Collides(H, TreeInputs(H, Sorted(anchors)) + {RowText(row)})
  {
    hide *;
    var text := RowText(row);
    var left, right := text[..w], text[w..];
    var a, b := Anchor(1, c), Anchor(if left == right then 1 else 2, c);
    ShortText(a.id, c);
    ShortText(b.id, c);
    H := ThreeValued(RowText(a), left, RowText(b), right);
    anchors := [a, b];
    assert left + right == text;
    TwoIds(a, b);
    SpelledNode(H, a, b, row);
    NoneOfThree(H, RowText(a), RowText(b), text);
  }

  lemma TwoIds(a: Anchor, b: Anchor)
    ensures a.id != b.id ==> DistinctIds([a, b])
  {
  }

  lemma SpelledNode(H: AnyHash, a: Anchor, b: Anchor, row: Anchor)
    requires a.id <= b.id && Sum(H, RowText(a)) + Sum(H, RowText(b)) == RowText(row)
    ensures BatchRoot(H, [a, b]) == LeafHash(H, row) == BatchRoot(H, [row])
    ensures LeafHash(H, row) == Sum(H, RowText(row))
    ensures TreeInputs(H, Sorted([a, b])) + {RowText(row)} == {RowText(a), RowText(b), RowText(row)}
  {
    hide RowText, TreeInputs, BatchOf;
    PairBatch(H, a, b);
    SingleBatch(H, row);
  }

  lemma NoneOfThree(H: AnyHash, x: Bytes, y: Bytes, z: Bytes)
    requires x == y || Sum(H, x) != Sum(H, y)
    requires Sum(H, x) != Sum(H, z) && Sum(H, y) != Sum(H, z)
    ensures !Collides(H, {x, y, z})
  {
  }

  lemma ShortText(id: int, c: Bytes)
    requires 1 <= id <= 2
    ensures RowText(Anchor(id, c)) == [0x30 + id, BAR] + c && |RowText(Anchor(id, c))| == |c| + 2
    ensures RowText(Anchor(id, c))[0] == 0x30 + id
  {
  }

  /** A hash that gives two strings digests of their own, and every other string a third. */
  ghost function ThreeValued(s: Bytes, x: Bytes, t: Bytes, y: Bytes): (H: AnyHash)
    requires |x| == |y| > 0 && (s == t ==> x == y)
    ensures H.width == |x| && Sum(H, s) == x && Sum(H, t) == y
    ensures forall u :: u != s && u != t ==> Sum(H, u) != x && Sum(H, u) != y
  {
    var other := Besides(x[0], y[0]);
    var f: Bytes -> Bytes := (u: Bytes) => if u == s then x else if u == t then y else seq(|x|, _ => other);
    var H := HashFunction(|x|, f);
    assert forall u :: u != s && u != t ==> Sum(H, u)[0] == other;
    H
  }

  function Besides(x: byte, y: byte): (z: byte)
    ensures z != x && z != y
  {
    if x != 0 && y != 0 then 0 else if x != 1 && y != 1 then 1 else 2
  }

  lemma PairBatch(H: AnyHash, a: Anchor, b: Anchor)
    requires a.id <= b.id
    ensures Sorted([a, b]) == [a, b] && BatchRoot(H, [a, b]) == PairHash(H, LeafHash(H, a), LeafHash(H, b))
    ensures TreeInputs(H, [a, b]) == {RowText(a), RowText(b), LeafHash(H, a) + LeafHash(H, b)}
  {
    hide PairHash, LeafHash, RowText, Rows, Root, PairInputs;
    assert [a, b][..1] == [a] && [a][..0] == [];
    assert SortById([a]) == Insert([], a) == [a];
    assert SortById([a, b]) == Insert([a], b) == [a, b];
    assert Leaves(H, [a, b]) == [LeafHash(H, a), LeafHash(H, b)];
    RowsOfTwo(H, LeafHash(H, a), LeafHash(H, b));
    assert (set i | 0 <= i < 2 :: RowText([a, b][i])) == {RowText(a), RowText(b)};
  }

  // ------------------------------------------------------------------
  // What a root binds
  // ------------------------------------------------------------------

  /** Two batches of distinct ids are closed with one root exactly when they hold the same anchors,
      unless closing them exhibits a collision: given that no text is as long as two digests, without
      which TextSpellsNode closes two different batches with one root. */
  lemma RootsAgreeIff(H: AnyHash, a: seq<Anchor>, b: seq<Anchor>)
    requires a != [] && b != [] && DistinctIds(a) && DistinctIds(b)
    requires AvoidsLength(a, 2 * H.width) && AvoidsLength(b, 2 * H.width)
    ensures || (BatchRoot(H, a) == BatchRoot(H, b) <==> multiset(a) == multiset(b))
            || Collides(H, TreeInputs(H, Sorted(a)) + TreeInputs(H, Sorted(b)))
  {
    hide TreeInputs, BatchOf, RowText, Collides;
    if multiset(a) == multiset(b) {
      BatchIgnoresOrder(H, a, b);
    } else if BatchRoot(H, a) == BatchRoot(H, b) && !Collides(H, TreeInputs(H, Sorted(a)) + TreeInputs(H, Sorted(b))) {
      assert TreeInputs(H, Sorted(b)) + TreeInputs(H, Sorted(a)) == TreeInputs(H, Sorted(a)) + TreeInputs(H, Sorted(b));
      forall x ensures multiset(a)[x] == multiset(b)[x] {
        AtMostOnce(a, x);
        AtMostOnce(b, x);
        if x in a { RootBinds(H, a, b, x); }
        if x in b { RootBinds(H, b, a, x); }
      }
    }
  }

  /** A root determines its batch, under every hash with digests of width w and among batches of
      distinct ids without a text of length n. */
  ghost predicate RootsBind(w: nat, n: nat) {
    forall H: AnyHash, a: seq<Anchor>, b: seq<Anchor> ::
      && H.width == w && a != [] && b != [] && DistinctIds(a) && DistinctIds(b) && AvoidsLength(a, n) && AvoidsLength(b, n)
      && BatchRoot(H, a) == BatchRoot(H, b)
      ==> multiset(a) == multiset(b) || Collides(H, TreeInputs(H, Sorted(a)) + TreeInputs(H, Sorted(b)))
  }

  /** The length to keep out of a batch is that of two digests, and no other will do. */
  lemma RootsBindIff(w: nat, n: nat)
    requires w >= 3
    ensures RootsBind(w, n) <==> n == 2 * w
  {
    hide RowText, TreeInputs, BatchOf, Collides, BatchRoot, Sorted, DistinctIds;
    if n == 2 * w {
      forall H: AnyHash, a: seq<Anchor>, b: seq<Anchor> |
        && H.width == w && a != [] && b != [] && DistinctIds(a) && DistinctIds(b) && AvoidsLength(a, n) && AvoidsLength(b, n)
        && BatchRoot(H, a) == BatchRoot(H, b)
        ensures multiset(a) == multiset(b) || Collides(H, TreeInputs(H, Sorted(a)) + TreeInputs(H, Sorted(b)))
      {
        RootsAgreeIff(H, a, b);
      }
    } else {
      var row := Anchor(1, seq(2 * w - 2, _ => SEVEN));
      ShortText(1, row.commitment);
      assert RowText(row)[..w][0] != RowText(row)[w..][0];
      var H, a := TextSpellsNode(w, row, if n == 2 then [SEVEN] else []);
      OneId(row);
      SingleBatch(H, row);
      assert AvoidsLength(a, n) && AvoidsLength([row], n);
      assert |multiset(a)| == 2 && |multiset([row])| == 1;
    }
  }

  lemma OneId(a: Anchor)
    ensures DistinctIds([a])
  {
  }

  /** Every anchor of a batch is in every batch with the same root, repeated ids or not. */
  lemma RootBinds(H: AnyHash, a: seq<Anchor>, b: seq<Anchor>, x: Anchor)
    requires a != [] && b != [] && BatchRoot(H, a) == BatchRoot(H, b) && x in a
    requires AvoidsLength(a, 2 * H.width) && AvoidsLength(b, 2 * H.width)
    ensures x in b || Collides(H, TreeInputs(H, Sorted(a)) + TreeInputs(H, Sorted(b)))
  {
    hide BatchOf, RowText, Collides, LeafHash, Proof, WalkInputs, Rows, PairInputs, Walk;
    var sorted := Sorted(a);
    var leaves := Leaves(H, sorted);
    assert x in multiset(a) && x in multiset(sorted);
    var i :| 0 <= i < |sorted| && sorted[i] == x;
    var proof := Proof(H, leaves, i);
    ProofComplete(H, leaves, i);
    LeafWidths(H, sorted);
    HonestProof(H, leaves, i);
    BatchProofBinds(H, b, x, proof, H.width);
    assert RowText(sorted[i]) in TreeInputs(H, sorted);
    CollidesInLarger(H, BindingInputs(H, b, x, proof), TreeInputs(H, Sorted(a)) + TreeInputs(H, Sorted(b)));
  }

  lemma LeafWidths(H: AnyHash, sorted: seq<Anchor>)
    ensures forall x :: x in Leaves(H, sorted) ==> |x| == H.width
  {
  }

  /** The tree's own proofs have siblings one digest wide, and walking them hashes nothing that
      building the tree did not. */
  lemma {:induction false} HonestProof(H: AnyHash, row: seq<Bytes>, i: nat)
    requires i < |row| && forall x :: x in row ==> |x| == H.width
    ensures SiblingWidth(Proof(H, row, i), H.width)
    ensures WalkInputs(H, row[i], Proof(H, row, i)) <= PairInputs(Rows(H, row))
    decreases |row|
  {
    hide Walk, Proof, Combine, NextRow, WalkInputs, PairInputs, PairHash, ProofStep, StepInput, SiblingWidth;
    ProofUnfolds(H, row, i);
    if |row| == 1 {
      NothingWalked(H, row[i]);
      assert SiblingWidth([], H.width) by { WidthOfNothing(H.width); }
    } else {
      NextRowWidth(H, row);
      HonestProof(H, NextRow(H, row), i / 2);
      HonestStep(H, row, i, Proof(H, NextRow(H, row), i / 2));
    }
  }

  lemma RowsUnfold(H: AnyHash, row: seq<Bytes>)
    requires |row| > 1
    ensures NextRow(H, row) != [] && Rows(H, NextRow(H, row)) != []
    ensures Rows(H, row) == [row] + Rows(H, NextRow(H, row))
  {
  }

  lemma HonestStep(H: AnyHash, row: seq<Bytes>, i: nat, rest: seq<Step>)
    requires i < |row| && |row| > 1 && forall x :: x in row ==> |x| == H.width
    requires i / 2 < |NextRow(H, row)| == (|row| + 1) / 2 && SiblingWidth(rest, H.width)
    requires WalkInputs(H, NextRow(H, row)[i / 2], rest) <= PairInputs(Rows(H, NextRow(H, row)))
    ensures SiblingWidth([ProofStep(row, i)] + rest, H.width)
    ensures WalkInputs(H, row[i], [ProofStep(row, i)] + rest) <= PairInputs(Rows(H, row))
  {
    hide *;
    var u := Rows(H, NextRow(H, row));
    RowsUnfold(H, row);
    StepClimbs(H, row, i);
    WalkInputsFirst(H, row[i], ProofStep(row, i), rest);
    StepHashesAPair(row, i);
    PairInputsGrow(row, u, 2 * (i / 2));
    WidthOfFirst(ProofStep(row, i), rest, H.width);
  }

  lemma StepHashesAPair(row: seq<Bytes>, i: nat)
    requires i < |row|
    ensures StepInput(row[i], ProofStep(row, i)) == row[2 * (i / 2)] + RightOf(row, 2 * (i / 2))
    ensures ProofStep(row, i).sibling in row
  {
  }

  lemma WidthOfNothing(width: nat)
    ensures SiblingWidth([], width)
  {
  }

  lemma WidthOfFirst(step: Step, rest: seq<Step>, width: nat)
    requires |step.sibling| == width && SiblingWidth(rest, width)
    ensures SiblingWidth([step] + rest, width)
  {
  }

  /** What a well-formed step hashes. */
  function StepInput(current: Bytes, step: Step): Bytes {
    if step.side == Left then step.sibling + current else current + step.sibling
  }

  lemma NothingWalked(H: AnyHash, leaf: Bytes)
    ensures WalkInputs(H, leaf, []) == {} && Walk(H, leaf, []) == Some(leaf) && Accepts(H, leaf, [], leaf)
  {
  }

  /** What a walk hashes, taken from its front. */
  lemma {:induction false} WalkInputsFirst(H: AnyHash, leaf: Bytes, step: Step, rest: seq<Step>)
    requires Combine(H, leaf, step).Some?
    ensures WalkInputs(H, leaf, [step] + rest)
            == {StepInput(leaf, step)} + WalkInputs(H, Combine(H, leaf, step).value, rest)
    decreases |rest|
  {
    hide Combine;
    var path := [step] + rest;
    if rest == [] {
      assert path[..0] == [] && path == [step];
      WalkFirst(H, leaf, step, []);
      NothingWalked(H, leaf);
    } else {
      var init := rest[..|rest| - 1];
      assert path[..|path| - 1] == [step] + init && path[|path| - 1] == rest[|rest| - 1];
      WalkInputsFirst(H, leaf, step, init);
      WalkFirst(H, leaf, step, init);
    }
  }

  lemma PairInputsGrow(row: seq<Bytes>, u: seq<seq<Bytes>>, i: nat)
    requires i < |row| && i % 2 == 0 && u != []
    ensures row[i] + RightOf(row, i) in PairInputs([row] + u)
    ensures PairInputs(u) <= PairInputs([row] + u)
  {
    var t := [row] + u;
    assert t[0] == row;
    forall x | x in PairInputs(u) ensures x in PairInputs(t) {
      var l, j :| 0 <= l < |u| - 1 && 0 <= j < |u[l]| && j % 2 == 0 && x == u[l][j] + RightOf(u[l], j);
      assert t[l + 1] == u[l];
    }
  }

  /** How often an anchor occurs is not bound: repeating the last leaf of an odd row of three or more
      keeps the root.  A batch of distinct ids has no repeated leaf to be confused with. */
  lemma RootIgnoresRepeatedLast(H: AnyHash, leaves: seq<Bytes>)
    requires |leaves| > 1 && |leaves| % 2 == 1
    ensures Root(H, leaves + [leaves[|leaves| - 1]]) == Root(H, leaves)
  {
    assert NextRow(H, leaves + [leaves[|leaves| - 1]]) == NextRow(H, leaves);
  }
}
