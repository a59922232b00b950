/** Powers of two and the position of an integer between them. */
module PowersOfTwo {

  function Pow2(t: nat): (p: nat)
    ensures p >= 1
  {
    if t == 0 then 1 else 2 * Pow2(t - 1)
  }

  lemma Pow2Unfolds(t: nat)
    ensures Pow2(0) == 1
    ensures Pow2(t + 1) == 2 * Pow2(t)
    ensures t > 0 ==> Pow2(t) == 2 * Pow2(t - 1)
  {
  }

  /** The exponent of the largest power of two strictly below n. */
  function Level(n: nat): (t: nat)
    requires n >= 2
    ensures Pow2(t) < n <= Pow2(t + 1)
  {
    if n == 2 then 0 else Level((n + 1) / 2) + 1
  }

  /** The least d with n <= 2^d: the height of a binary tree over n leaves. */
  function Depth(n: nat): (d: nat)
    requires n >= 1
    ensures n <= Pow2(d)
    ensures d > 0 ==> Pow2(d - 1) < n
  {
    if n == 1 then 0 else Level(n) + 1
  }

  lemma {:induction false} Pow2Monotone(s: nat, t: nat)
    requires s <= t
    ensures Pow2(s) <= Pow2(t)
    decreases t
  {
    if s < t { Pow2Monotone(s, t - 1); }
  }

  lemma {:induction false} LevelUnique(n: nat, t: nat)
    requires Pow2(t) < n <= Pow2(t + 1)
    ensures n >= 2 && Level(n) == t
  {
    var l := Level(n);
    if l < t { Pow2Monotone(l + 1, t); }
    if t < l { Pow2Monotone(t + 1, l); }
  }

  lemma {:induction false} DepthMonotone(m: nat, n: nat)
    requires 1 <= m <= n
    ensures Depth(m) <= Depth(n)
  {
    if Depth(m) > Depth(n) { Pow2Monotone(Depth(n), Depth(m) - 1); }
  }

  lemma {:induction false} DepthOfPow2(t: nat)
    ensures Depth(Pow2(t)) == t
  {
    var d := Depth(Pow2(t));
    if d < t { Pow2Monotone(d + 1, t); }
    if t < d { Pow2Monotone(t, d - 1); }
  }
}
