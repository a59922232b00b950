/** The per-batch anchor tree: leaves sorted by anchor id, rows paired level by level, the last
    node of an odd row paired with itself.  Hex strings are taken as the bytes they spell. */
module AnchorBatch {
  import opened ByteStrings
  import opened PowersOfTwo

  // ------------------------------------------------------------------
  // Rows and leaves
  // ------------------------------------------------------------------

  /** One anchor: its serial id and its commitment text, as UTF-8 bytes. */
  datatype Anchor = Anchor(id: int, commitment: Bytes)

  const BAR: byte := 0x7C
  const MINUS: byte := 0x2D

  function Digits(n: nat): (s: Bytes)
    ensures |s| >= 1 && (|s| == 1 <==> n < 10)
    ensures forall k :: 0 <= k < |s| ==> 0x30 <= s[k] <= 0x39
  {
    if n < 10 then [0x30 + n] else Digits(n / 10) + [0x30 + n % 10]
  }

  /** The decimal text of an integer. */
  function Decimal(i: int): (s: Bytes)
    ensures s != [] && (s[0] == MINUS <==> i < 0)
    ensures BAR !in s
  {
    if i < 0 then [MINUS] + Digits(-i) else Digits(i)
  }

  /** What a reader of decimal text makes of it, digit by digit from the front. */
  function ReadDigits(s: Bytes, soFar: int): int {
    if s == [] then soFar else ReadDigits(s[1..], soFar * 10 + s[0] - 0x30)
  }

  function ReadDecimal(s: Bytes): int {
    if s != [] && s[0] == 0x2D then -ReadDigits(s[1..], 0) else ReadDigits(s, 0)
  }

  lemma {:induction false} ReadDigitsLast(s: Bytes, c: byte, soFar: int)
    ensures ReadDigits(s + [c], soFar) == ReadDigits(s, soFar) * 10 + c - 0x30
    decreases |s|
  {
    if s == [] {
      assert ([] + [c])[1..] == [];
    } else {
      assert (s + [c])[1..] == s[1..] + [c];
      ReadDigitsLast(s[1..], c, soFar * 10 + s[0] - 0x30);
    }
  }

  lemma {:induction false} DigitsRead(n: nat)
    ensures ReadDigits(Digits(n), 0) == n
    ensures n > 0 ==> Digits(n)[0] != 0x30
  {
    if n < 10 {
      assert Digits(n)[1..] == [];
    } else {
      DigitsRead(n / 10);
      ReadDigitsLast(Digits(n / 10), 0x30 + n % 10, 0);
    }
  }

  /** The text of an id is its decimal numeral: it reads as the id, and has no digit too many. */
  lemma DecimalReads(i: int)
    ensures ReadDecimal(Decimal(i)) == i
    ensures i > 0 ==> Decimal(i)[0] != 0x30
    ensures i < 0 ==> |Decimal(i)| > 1 && Decimal(i)[1] != 0x30
    ensures Decimal(0) == [0x30]
  {
    if i < 0 {
      DigitsRead(-i);
      assert Decimal(i)[1..] == Digits(-i);
    } else {
      DigitsRead(i);
    }
  }

  /** The text a leaf hashes: id, separator, commitment. */
  function RowText(a: Anchor): Bytes {
    Decimal(a.id) + [BAR] + a.commitment
  }

  function LeafHash(H: AnyHash, a: Anchor): Bytes {
    Sum(H, RowText(a))
  }

  lemma {:induction false} DigitsInjective(m: nat, n: nat)
    requires Digits(m) == Digits(n)
    ensures m == n
    decreases m
  {
    if m >= 10 && n >= 10 {
      SplitEqual(Digits(m / 10), [0x30 + m % 10], Digits(n / 10), [0x30 + n % 10]);
      assert [0x30 + m % 10][0] == [0x30 + n % 10][0];
      DigitsInjective(m / 10, n / 10);
    } else {
      assert Digits(m)[0] == Digits(n)[0];
    }
  }

  lemma DecimalInjective(i: int, j: int)
    requires Decimal(i) == Decimal(j)
    ensures i == j
  {
    if i < 0 && j < 0 {
      assert Decimal(i)[1..] == Digits(-i) && Decimal(j)[1..] == Digits(-j);
      DigitsInjective(-i, -j);
    } else if i >= 0 && j >= 0 {
      DigitsInjective(i, j);
    }
  }

  /** The first separator of a row's text ends its id. */
  lemma FirstBar(a: Anchor, j: nat)
    requires j < |RowText(a)|
    ensures RowText(a)[j] == BAR ==> |Decimal(a.id)| <= j
  {
    if j < |Decimal(a.id)| { assert Decimal(a.id)[j] in Decimal(a.id); }
  }

  /** The separator can appear in no id, so the text determines the row, whatever the
      commitment holds. */
  lemma RowTextInjective(a: Anchor, b: Anchor)
    requires RowText(a) == RowText(b)
    ensures a == b
  {
    var p, q := Decimal(a.id), Decimal(b.id);
    assert RowText(a)[|p|] == BAR && RowText(b)[|q|] == BAR;
    FirstBar(a, |q|);
    FirstBar(b, |p|);
    assert RowText(a)[|p| + 1..] == a.commitment && RowText(b)[|q| + 1..] == b.commitment;
    assert RowText(a)[..|p|] == p && RowText(b)[..|q|] == q;
    DecimalInjective(a.id, b.id);
  }

  /** Where the first separator stands, or the length of the text. */
  function FirstBarAt(text: Bytes): (k: nat)
    ensures k <= |text|
  {
    if text == [] || text[0] == 0x7C then 0 else 1 + FirstBarAt(text[1..])
  }

  /** What a reader makes of a row's text: the id in front of the first separator, the commitment behind
      it. */
  function ReadRow(text: Bytes): Option<Anchor> {
    var k := FirstBarAt(text);
    if k == |text| then None else Some(Anchor(ReadDecimal(text[..k]), text[k + 1..]))
  }

  lemma {:induction false} FirstBarBehind(p: Bytes, rest: Bytes)
    requires BAR !in p
    ensures FirstBarAt(p + [0x7C] + rest) == |p|
    decreases |p|
  {
    if p != [] {
      assert (p + [0x7C] + rest)[1..] == p[1..] + [0x7C] + rest;
      FirstBarBehind(p[1..], rest);
    }
  }

  /** A leaf hashes the row as it is: its text reads back to id and commitment. */
  lemma RowReads(a: Anchor)
    ensures ReadRow(RowText(a)) == Some(a)
  {
    var p := Decimal(a.id);
    FirstBarBehind(p, a.commitment);
    DecimalReads(a.id);
    assert RowText(a)[..|p|] == p && RowText(a)[|p| + 1..] == a.commitment;
  }

  // ------------------------------------------------------------------
  // The tree
  // ------------------------------------------------------------------

  function PairHash(H: AnyHash, left: Bytes, right: Bytes): Bytes {
    Sum(H, left + right)
  }

  /** The right partner of node i on an even position: its neighbour, or itself at the end of an
      odd row. */
  function RightOf(row: seq<Bytes>, i: nat): Bytes
    requires i < |row|
  {
    if i + 1 < |row| then row[i + 1] else row[i]
  }

  function NextRow(H: AnyHash, row: seq<Bytes>): (next: seq<Bytes>)
    ensures |next| == (|row| + 1) / 2
    ensures forall i :: 0 <= i < |next| ==> next[i] == PairHash(H, row[2 * i], RightOf(row, 2 * i))
  {
    seq((|row| + 1) / 2, i requires 0 <= i < (|row| + 1) / 2 => PairHash(H, row[2 * i], RightOf(row, 2 * i)))
  }

  /** All rows, the leaves first and the root row last. */
  function Rows(H: AnyHash, row: seq<Bytes>): seq<seq<Bytes>>
    requires row != []
    decreases |row|
  {
    if |row| == 1 then [row] else [row] + Rows(H, NextRow(H, row))
  }

  function Root(H: AnyHash, row: seq<Bytes>): Bytes
    requires row != []
    decreases |row|
  {
    if |row| == 1 then row[0] else Root(H, NextRow(H, row))
  }

  /** A step of a proof: a sibling and its side.  Any other side text is `Malformed`. */
  datatype Side = Left | Right | Malformed

  datatype Step = Step(sibling: Bytes, side: Side)

  function ProofStep(row: seq<Bytes>, i: nat): Step
    requires i < |row|
  {
    if i % 2 == 0 then Step(RightOf(row, i), Right) else Step(row[i - 1], Left)
  }

  function Proof(H: AnyHash, row: seq<Bytes>, i: nat): seq<Step>
    requires i < |row|
    decreases |row|
  {
    if |row| == 1 then [] else [ProofStep(row, i)] + Proof(H, NextRow(H, row), i / 2)
  }

  /** The value one step leads to; a malformed step leads nowhere. */
  function Combine(H: AnyHash, current: Bytes, step: Step): Option<Bytes> {
    match step.side
    case Right => Some(PairHash(H, current, step.sibling))
    case Left => Some(PairHash(H, step.sibling, current))
    case Malformed => None
  }

  /** The value a whole proof leads to, taken from its end. */
  function Walk(H: AnyHash, leaf: Bytes, proof: seq<Step>): Option<Bytes>
  {
    if proof == [] then Some(leaf)
    else
      match Walk(H, leaf, proof[..|proof| - 1])
      case None => None
      case Some(v) => Combine(H, v, proof[|proof| - 1])
  }

  predicate Accepts(H: AnyHash, leaf: Bytes, proof: seq<Step>, root: Bytes) {
    Walk(H, leaf, proof) == Some(root)
  }

  // ------------------------------------------------------------------
  // The loops
  // ------------------------------------------------------------------

  datatype BatchError = EmptyBatch | NoSuchIndex

  method MerkleTree(H: AnyHash, leaves: seq<Bytes>) returns (r: Result<seq<seq<Bytes>>, BatchError>)
    ensures r == if leaves == [] then Err(EmptyBatch) else Ok(Rows(H, leaves))
  {
    if leaves == [] { return Err(EmptyBatch); }
    var levels := [leaves];
    while |levels[|levels| - 1]| > 1
      invariant levels != [] && levels[|levels| - 1] != []
      invariant levels[..|levels| - 1] + Rows(H, levels[|levels| - 1]) == Rows(H, leaves)
      decreases |levels[|levels| - 1]|
    {
      var current := levels[|levels| - 1];
      var nextLevel := PairUp(H, current);
      ghost var done := levels[..|levels| - 1];
      assert Rows(H, current) == [current] + Rows(H, nextLevel);
      assert done + ([current] + Rows(H, nextLevel)) == (done + [current]) + Rows(H, nextLevel);
      assert (levels + [nextLevel])[..|levels|] == done + [current];
      levels := levels + [nextLevel];
    }
    assert Rows(H, levels[|levels| - 1]) == [levels[|levels| - 1]];
    assert levels == levels[..|levels| - 1] + [levels[|levels| - 1]];
    r := Ok(levels);
  }

  /** The inner loop of the tree construction: one row from the row below. */
  method PairUp(H: AnyHash, current: seq<Bytes>) returns (nextLevel: seq<Bytes>)
    ensures nextLevel == NextRow(H, current)
  {
    nextLevel := [];
    var i := 0;
    while i < |current|
      invariant i % 2 == 0 && i <= |current| + 1
      invariant |nextLevel| == i / 2
      invariant forall j :: 0 <= j < |nextLevel| ==> nextLevel[j] == PairHash(H, current[2 * j], RightOf(current, 2 * j))
    {
      var left := current[i];
      var right := if i + 1 < |current| then current[i + 1] else current[i];
      nextLevel := nextLevel + [PairHash(H, left, right)];
      i := i + 2;
    }
  }

  method MerkleRoot(H: AnyHash, leaves: seq<Bytes>) returns (r: Result<Bytes, BatchError>)
    ensures r == if leaves == [] then Err(EmptyBatch) else Ok(Root(H, leaves))
  {
    var tree := MerkleTree(H, leaves);
    if tree.Err? { return Err(tree.error); }
    RowsShape(H, leaves);
    r := Ok(tree.value[|tree.value| - 1][0]);
  }

  /** An index is answered as the source's lists answer it: from the end when it is negative, and with
      an error when a level has nothing there. */
  method InclusionProof(H: AnyHash, leaves: seq<Bytes>, target: int) returns (r: Result<seq<Step>, BatchError>)
    ensures r == if leaves == [] then Err(EmptyBatch) else ProofFrom(H, leaves, target)
    ensures 0 <= target < |leaves| ==> r == Ok(Proof(H, leaves, target))
  {
    hide Proof, ProofFrom, Rows, NextRow, PairHash, SiblingAt;
    var built := MerkleTree(H, leaves);
    if built.Err? { return Err(built.error); }
    var tree := built.value;
    RowsShape(H, leaves);
    if 0 <= target < |leaves| { ProofFromIsProof(H, leaves, target); }
    var proof: seq<Step>, idx := [], target;
    PrependAssociates([], [], ProofFrom(H, leaves, target));
    for l := 0 to |tree| - 1
      invariant Prepend(proof, ProofFrom(H, tree[l], idx)) == ProofFrom(H, leaves, target)
    {
      var level := tree[l];
      ProofFromUnfolds(H, level, idx);
      var step := SiblingAt(level, idx);
      if step == None { return Err(NoSuchIndex); }
      PrependAssociates(proof, [step.value], ProofFrom(H, tree[l + 1], idx / 2));
      proof := proof + [step.value];
      idx := idx / 2;
    }
    ProofFromUnfolds(H, tree[|tree| - 1], idx);
    assert proof + [] == proof;
    r := Ok(proof);
  }

  /** The element a list gives for an index that may count from its end. */
  function At(row: seq<Bytes>, i: int): Option<Bytes> {
    if 0 <= i < |row| then Some(row[i]) else if -|row| <= i < 0 then Some(row[|row| + i]) else None
  }

  function SiblingAt(row: seq<Bytes>, idx: int): Option<Step> {
    var side := if idx % 2 == 0 then Right else Left;
    var at := if idx % 2 == 1 then idx - 1 else if idx + 1 < |row| then idx + 1 else idx;
    match At(row, at)
    case None => None
    case Some(sibling) => Some(Step(sibling, side))
  }

  function Prepend(steps: seq<Step>, r: Result<seq<Step>, BatchError>): Result<seq<Step>, BatchError> {
    if r.Err? then r else Ok(steps + r.value)
  }

  /** The proof for any index, a leaf's or not. */
  function ProofFrom(H: AnyHash, row: seq<Bytes>, idx: int): Result<seq<Step>, BatchError>
    requires row != []
    decreases |row|
  {
    if |row| == 1 then Ok([])
    else
      match SiblingAt(row, idx)
      case None => Err(NoSuchIndex)
      case Some(step) => Prepend([step], ProofFrom(H, NextRow(H, row), idx / 2))
  }

  lemma PrependAssociates(a: seq<Step>, b: seq<Step>, r: Result<seq<Step>, BatchError>)
    ensures Prepend(a, Prepend(b, r)) == Prepend(a + b, r) && Prepend([], r) == r
  {
    if r.Ok? { assert a + (b + r.value) == (a + b) + r.value && [] + r.value == r.value; }
  }

  lemma ProofFromUnfolds(H: AnyHash, row: seq<Bytes>, idx: int)
    requires row != []
    ensures |row| == 1 ==> ProofFrom(H, row, idx) == Ok([])
    ensures |row| > 1 ==>
              ProofFrom(H, row, idx)
              == match SiblingAt(row, idx)
                 case None => Err(NoSuchIndex)
                 case Some(step) => Prepend([step], ProofFrom(H, NextRow(H, row), idx / 2))
  {
  }

  lemma {:induction false} ProofFromIsProof(H: AnyHash, row: seq<Bytes>, i: nat)
    requires i < |row|
    ensures ProofFrom(H, row, i) == Ok(Proof(H, row, i))
    decreases |row|
  {
    hide Proof, ProofFrom, NextRow;
    ProofUnfolds(H, row, i);
    ProofFromUnfolds(H, row, i);
    if |row| > 1 { ProofFromIsProof(H, NextRow(H, row), i / 2); }
  }

  lemma ProofUnfolds(H: AnyHash, row: seq<Bytes>, i: nat)
    requires i < |row|
    ensures |row| == 1 ==> Proof(H, row, i) == []
    ensures |NextRow(H, row)| == (|row| + 1) / 2
    ensures |row| > 1 ==> Proof(H, row, i) == [ProofStep(row, i)] + Proof(H, NextRow(H, row), i / 2)
  {
  }

  /** In a full tree an index that counts from the end is answered as the leaf it counts to. */
  lemma {:induction false} ProofFromEnd(H: AnyHash, row: seq<Bytes>, i: int, t: nat)
    requires |row| == Pow2(t) && -|row| <= i < 0
    ensures ProofFrom(H, row, i) == Ok(Proof(H, row, |row| + i))
    decreases t
  {
    hide *;
    ProofFromUnfolds(H, row, i);
    ProofUnfolds(H, row, |row| + i);
    Pow2Unfolds(t);
    if t > 0 {
      StepFromEnd(row, i);
      ProofFromEnd(H, NextRow(H, row), i / 2, t - 1);
      PrependToOk(ProofStep(row, |row| + i), Proof(H, NextRow(H, row), (|row| + i) / 2));
    }
  }

  lemma StepFromEnd(row: seq<Bytes>, i: int)
    requires |row| % 2 == 0 && -|row| <= i < 0
    ensures SiblingAt(row, i) == Some(ProofStep(row, |row| + i))
    ensures -(|row| / 2) <= i / 2 < 0 && (|row| + i) / 2 == |row| / 2 + i / 2
  {
  }

  lemma PrependToOk(step: Step, rest: seq<Step>)
    ensures Prepend([step], Ok(rest)) == Ok([step] + rest)
  {
  }

  method VerifyProof(H: AnyHash, leaf: Bytes, proof: seq<Step>, root: Bytes) returns (ok: bool)
    ensures ok == Accepts(H, leaf, proof, root)
  {
    var current := leaf;
    for j := 0 to |proof|
      invariant Walk(H, leaf, proof[..j]) == Some(current)
    {
      var step := proof[j];
      assert proof[..j + 1][..j] == proof[..j];
      match step.side {
        case Right => current := PairHash(H, current, step.sibling);
        case Left => current := PairHash(H, step.sibling, current);
        case Malformed =>
          assert Walk(H, leaf, proof[..j + 1]) == None;
          MalformedStaysLost(H, leaf, proof, j + 1);
          return false;
      }
    }
    assert proof[..|proof|] == proof;
    ok := current == root;
  }

  lemma {:induction false} MalformedStaysLost(H: AnyHash, leaf: Bytes, proof: seq<Step>, j: nat)
    requires j <= |proof|
    requires Walk(H, leaf, proof[..j]) == None
    ensures Walk(H, leaf, proof) == None
    decreases |proof| - j
  {
    if j == |proof| {
      assert proof[..j] == proof;
    } else {
      assert proof[..j + 1][..j] == proof[..j];
      MalformedStaysLost(H, leaf, proof, j + 1);
    }
  }

  /** Every row but the last is longer than one node and is followed by its next row, up to a
      row of one node. */
  ghost predicate Chained(H: AnyHash, t: seq<seq<Bytes>>) {
    && t != [] && |t[|t| - 1]| == 1
    && (forall l :: 0 <= l < |t| ==> t[l] != [])
    && (forall l :: 0 <= l < |t| - 1 ==> |t[l]| > 1)
    && (forall l, m :: 0 <= l && m == l + 1 < |t| ==> t[m] == NextRow(H, t[l]))
  }

  lemma {:induction false} RowsShape(H: AnyHash, row: seq<Bytes>)
    requires row != []
    ensures var t := Rows(H, row);
            Chained(H, t) && t[0] == row && |t| == Depth(|row|) + 1 && t[|t| - 1][0] == Root(H, row)
    decreases |row|
  {
    if |row| > 1 {
      hide NextRow, Depth, Chained;
      ProofUnfolds(H, row, 0);
      RowsShape(H, NextRow(H, row));
      DepthHalves(|row|);
      ChainExtends(H, row, Rows(H, NextRow(H, row)));
    }
  }

  lemma ChainStep(H: AnyHash, t: seq<seq<Bytes>>, m: nat)
    requires Chained(H, t) && 0 < m < |t|
    ensures t[m - 1] != [] && t[m] == NextRow(H, t[m - 1])
  {
  }

  lemma ChainExtends(H: AnyHash, row: seq<Bytes>, u: seq<seq<Bytes>>)
    requires |row| > 1 && Chained(H, u) && u[0] == NextRow(H, row)
    ensures Chained(H, [row] + u) && ([row] + u)[|u|] == u[|u| - 1]
  {
  }

  lemma {:induction false} DepthHalves(n: nat)
    requires n > 1
    ensures Depth(n) == Depth((n + 1) / 2) + 1
  {
    if n > 2 { LevelUnique(n, Level((n + 1) / 2) + 1); }
  }

  // ------------------------------------------------------------------
  // Batches
  // ------------------------------------------------------------------

  /** Stable insertion: after every anchor whose id is not greater. */
  function Insert(s: seq<Anchor>, a: Anchor): seq<Anchor> {
    if s == [] || s[|s| - 1].id <= a.id then s + [a]
    else Insert(s[..|s| - 1], a) + [s[|s| - 1]]
  }

  /** The anchors by ascending id, equal ids in their given order. */
  function SortById(s: seq<Anchor>): seq<Anchor> {
    if s == [] then [] else Insert(SortById(s[..|s| - 1]), s[|s| - 1])
  }

  function Leaves(H: AnyHash, anchors: seq<Anchor>): (r: seq<Bytes>)
    ensures |r| == |anchors|
  {
    seq(|anchors|, i requires 0 <= i < |anchors| => LeafHash(H, anchors[i]))
  }

  /** A closed batch: its root, and the proof of each anchor under the text of its id. */
  datatype Batch = Batch(root: Bytes, proofs: map<Bytes, seq<Step>>)

  /** The proofs of the first `count` anchors; a repeated id keeps the last one. */
  function ProofTable(H: AnyHash, sorted: seq<Anchor>, count: nat): map<Bytes, seq<Step>>
    requires count <= |sorted|
  {
    if count == 0 then map[]
    else ProofTable(H, sorted, count - 1)[Decimal(sorted[count - 1].id) := Proof(H, Leaves(H, sorted), count - 1)]
  }

  function BatchOf(H: AnyHash, anchors: seq<Anchor>): Result<Batch, BatchError> {
    var sorted := SortById(anchors);
    if sorted == [] then Err(EmptyBatch)
    else Ok(Batch(Root(H, Leaves(H, sorted)), ProofTable(H, sorted, |sorted|)))
  }

  method ComputeBatch(H: AnyHash, anchors: seq<Anchor>) returns (r: Result<Batch, BatchError>)
    ensures r == BatchOf(H, anchors)
  {
    if anchors == [] { return Err(EmptyBatch); }
    var sorted := SortById(anchors);
    SortedPermutation(anchors);
    var leaves := Leaves(H, sorted);
    assert |sorted| == |anchors| by { assert |multiset(sorted)| == |multiset(anchors)|; }
    var root := MerkleRoot(H, leaves);
    var proofs := map[];
    for i := 0 to |sorted|
      invariant proofs == ProofTable(H, sorted, i)
    {
      var proof := InclusionProof(H, leaves, i);
      proofs := proofs[Decimal(sorted[i].id) := proof.value];
    }
    r := Ok(Batch(root.value, proofs));
  }

  ghost predicate Ascending(s: seq<Anchor>) {
    forall i, j :: 0 <= i < j < |s| ==> s[i].id <= s[j].id
  }

  ghost predicate DistinctIds(s: seq<Anchor>) {
    forall i, j :: 0 <= i < j < |s| ==> s[i].id != s[j].id
  }

  lemma {:induction false} SortedPermutation(s: seq<Anchor>)
    ensures Ascending(SortById(s)) && multiset(SortById(s)) == multiset(s)
  {
    hide Ascending, Insert;
    if s == [] {
      NothingAscends();
    } else {
      SortedPermutation(s[..|s| - 1]);
      InsertKeepsOrder(SortById(s[..|s| - 1]), s[|s| - 1]);
      assert s == s[..|s| - 1] + [s[|s| - 1]];
    }
  }

  lemma {:induction false} InsertKeepsOrder(s: seq<Anchor>, a: Anchor)
    requires Ascending(s)
    ensures Ascending(Insert(s, a)) && multiset(Insert(s, a)) == multiset(s) + multiset{a}
  {
    hide Ascending;
    if s != [] { LastIsGreatest(s); }
    if s == [] || s[|s| - 1].id <= a.id {
      Extends(s, a);
    } else {
      var init, last := s[..|s| - 1], s[|s| - 1];
      InsertKeepsOrder(init, a);
      assert s == init + [last];
      var r := Insert(init, a);
      forall x | x in r ensures x.id <= last.id {
        assert x in multiset(r);
        assert x in multiset(init) || x == a;
      }
      Extends(r, last);
    }
  }

  lemma NothingAscends()
    ensures Ascending([])
  {
  }

  lemma LastIsGreatest(s: seq<Anchor>)
    requires s != [] && Ascending(s)
    ensures Ascending(s[..|s| - 1]) && forall x :: x in s ==> x.id <= s[|s| - 1].id
  {
  }

  lemma Extends(s: seq<Anchor>, last: Anchor)
    requires Ascending(s) && forall x :: x in s ==> x.id <= last.id
    ensures Ascending(s + [last])
  {
  }
}
