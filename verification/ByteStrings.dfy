/** Bytes, digests and the two result types every other module uses. */
module ByteStrings {

  datatype Option<+T> = None | Some(value: T)

  datatype Result<+T, +E> = Ok(value: T) | Err(error: E)

  type byte = x: int | 0 <= x < 0x100

  type Bytes = seq<byte>

  /** A hash function with outputs of a fixed width.  Nothing else is assumed of it. */
  datatype HashFunction = HashFunction(width: nat, f: Bytes -> Bytes)

  ghost predicate ValidHash(h: HashFunction) { forall x :: |h.f(x)| == h.width }

  type AnyHash = h: HashFunction | ValidHash(h)
    ghost witness HashFunction(0, (x: Bytes) => [])

  /** SHA3-256 as far as the model knows it: some function to 32 bytes. */
  type Hash = h: AnyHash | h.width == 32
    ghost witness HashFunction(32, (x: Bytes) => seq(32, _ => 0))

  type Digest = d: Bytes | |d| == 32 witness seq(32, _ => 0)

  function Sum(H: AnyHash, x: Bytes): (d: Bytes)
    ensures |d| == H.width
  {
    H.f(x)
  }

  /** Two different strings of the finite set S share a digest.  S is always the set of strings
      one particular computation hashes, so a collision is a pair that computation exhibits. */
  ghost predicate Collides(H: AnyHash, S: set<Bytes>) {
    exists x, y {:trigger Sum(H, x), Sum(H, y)} :: x in S && y in S && x != y && Sum(H, x) == Sum(H, y)
  }

  lemma NoCollision(H: AnyHash, S: set<Bytes>, x: Bytes, y: Bytes)
    requires !Collides(H, S)
    requires x in S && y in S && Sum(H, x) == Sum(H, y)
    ensures x == y
  {
  }

  lemma CollidesInLarger(H: AnyHash, S: set<Bytes>, T: set<Bytes>)
    requires S <= T
    ensures Collides(H, S) ==> Collides(H, T)
  {
    if Collides(H, S) {
      var x, y :| x in S && y in S && x != y && Sum(H, x) == Sum(H, y);
    }
  }

  /** Big-endian unsigned integers of the given width, as struct.pack writes them. */
  function BigEndian(n: nat, width: nat): (r: Bytes)
    ensures |r| == width
    decreases width
  {
    if width == 0 then [] else BigEndian(n / 0x100, width - 1) + [n % 0x100]
  }

  function FromBigEndian(b: Bytes): nat {
    if b == [] then 0 else FromBigEndian(b[..|b| - 1]) * 0x100 + b[|b| - 1]
  }

  /** 256 to the power `width`: the first integer that does not fit in `width` bytes. */
  function Limit(width: nat): (r: nat)
    ensures r >= 1
  {
    if width == 0 then 1 else 0x100 * Limit(width - 1)
  }

  lemma {:induction false} BigEndianRoundTrip(n: nat, width: nat)
    requires n < Limit(width)
    ensures FromBigEndian(BigEndian(n, width)) == n
    decreases width
  {
    if width > 0 {
      BigEndianRoundTrip(n / 0x100, width - 1);
      assert BigEndian(n, width)[..width - 1] == BigEndian(n / 0x100, width - 1);
    }
  }

  lemma LimitUnfolds(width: nat)
    ensures Limit(0) == 1 && Limit(width + 1) == 0x100 * Limit(width)
  {
  }

  /** Byte k of an integer's encoding is its digit at that place, counted from the most significant. */
  lemma {:induction false} BigEndianAt(n: nat, width: nat, k: nat)
    requires k < width
    ensures BigEndian(n, width)[k] == n / Limit(width - 1 - k) % 0x100
    decreases width
  {
    LimitUnfolds(0);
    if k < width - 1 {
      BigEndianAt(n / 0x100, width - 1, k);
      LimitUnfolds(width - 2 - k);
      DivideTwice(n, Limit(width - 2 - k));
    }
  }

  /** The integer two bytes spell, the high one first. */
  function Word(high: byte, low: byte): (n: nat)
    ensures n < 0x10000
  {
    var h: int := high;
    h * 0x100 + low
  }

  lemma TwoBytes(n: nat)
    requires n < 0x10000
    ensures BigEndian(n, 2) == [n / 0x100, n % 0x100] && Word(n / 0x100, n % 0x100) == n
    ensures Limit(1) == 0x100 && Limit(2) == 0x10000
  {
    LimitUnfolds(0);
    LimitUnfolds(1);
    BigEndianAt(n, 2, 0);
    BigEndianAt(n, 2, 1);
  }

  lemma WordReads(b: Bytes)
    requires |b| == 2
    ensures FromBigEndian(b) == Word(b[0], b[1])
  {
    assert b[..1] == [b[0]] && [b[0]][..0] == [];
    assert FromBigEndian([b[0]]) == b[0];
  }

  lemma DivideTwice(n: nat, d: nat)
    requires d > 0
    ensures n / 0x100 / d == n / (0x100 * d)
  {
    var q, r := n / 0x100 / d, n / 0x100 % d;
    assert n / 0x100 == q * d + r;
    assert n == 0x100 * (q * d + r) + n % 0x100;
    assert 0x100 * (q * d) == q * (0x100 * d);
    QuotientIs(n, 0x100 * d, q, 0x100 * r + n % 0x100);
  }

  lemma QuotientIs(n: nat, d: nat, q: nat, r: nat)
    requires d > 0 && n == q * d + r && r < d
    ensures n / d == q
  {
    var p := n / d;
    assert n == p * d + n % d;
    assert p < q ==> (p + 1) * d <= q * d;
    assert q < p ==> (q + 1) * d <= p * d;
  }

  lemma {:induction false} FromBigEndianRoundTrip(b: Bytes)
    ensures FromBigEndian(b) < Limit(|b|)
    ensures BigEndian(FromBigEndian(b), |b|) == b
  {
    if b != [] {
      FromBigEndianRoundTrip(b[..|b| - 1]);
      assert b == b[..|b| - 1] + [b[|b| - 1]];
    }
  }

  /** Equal concatenations whose second halves have equal length have equal halves. */
  lemma SplitEqual(a: Bytes, b: Bytes, c: Bytes, d: Bytes)
    requires a + b == c + d
    requires |b| == |d|
    ensures a == c && b == d
  {
    assert a == (a + b)[..|a|] && c == (c + d)[..|c|];
    assert b == (a + b)[|a|..] && d == (c + d)[|c|..];
  }
}
