/** Facts about powers and finite counting that the two generators share. */
module Numbers {

  function Pow(b: nat, k: nat): (p: nat)
    ensures b > 0 ==> p > 0
  {
    if k == 0 then 1 else b * Pow(b, k - 1)
  }

  lemma {:induction false} PowAdd(b: nat, j: nat, k: nat)
    ensures Pow(b, j + k) == Pow(b, j) * Pow(b, k)
  {
    if j == 0 {
      assert Pow(b, 0) * Pow(b, k) == Pow(b, k);
    } else {
      PowAdd(b, j - 1, k);
      assert b * (Pow(b, j - 1) * Pow(b, k)) == (b * Pow(b, j - 1)) * Pow(b, k);
    }
  }

  /** Two numbers that differ by a multiple of p and are less than p apart are the same. */
  lemma MultipleWithin(p: int, d: int, k: int)
    requires d == p * k && -p < d < p
    ensures d == 0
  {
    if k >= 1 {
      AtLeastOnce(p, k);
    } else if k <= -1 {
      AtLeastOnce(p, -k);
    }
  }

  lemma AtLeastOnce(p: int, k: int)
    requires p >= 0 && k >= 1
    ensures p * k >= p
  {
  }

  lemma DivModUnique(p: nat, k: nat, r: nat)
    requires r < p
    ensures (p * k + r) / p == k && (p * k + r) % p == r
  {
    var x := p * k + r;
    assert x == p * (x / p) + x % p;
    assert p * (k - x / p) == p * k - p * (x / p);
    MultipleWithin(p, x % p - r, k - x / p);
    if k != x / p {
      AtLeastOnce(p, if k > x / p then k - x / p else x / p - k);
    }
  }

  lemma AddMultiples(p: nat, x: nat, k: nat)
    requires p > 0
    ensures (x + p * k) % p == x % p
  {
    var q, r := x / p, x % p;
    assert x + p * k == p * (q + k) + r;
    DivModUnique(p, q + k, r);
  }

  // ----- counting -----

  function Below(m: nat): (s: set<nat>)
    ensures forall x: nat :: x in s <==> x < m
    ensures |s| == m
  {
    if m == 0 then {} else Below(m - 1) + {m - 1}
  }

  lemma SubsetSize(a: set<nat>, b: set<nat>)
    requires a <= b
    ensures |a| <= |b|
    ensures |a| == |b| ==> a == b
  {
    assert b == a + (b - a);
    assert |b| == |a| + |b - a|;
  }

  /** The values f takes on the first k numbers. */
  function Image(f: nat -> nat, k: nat): set<nat> {
    if k == 0 then {} else Image(f, k - 1) + {f(k - 1)}
  }

  lemma {:induction false} ImageHas(f: nat -> nat, k: nat, v: nat)
    ensures v in Image(f, k) <==> exists i: nat :: i < k && f(i) == v
  {
    if k > 0 {
      ImageHas(f, k - 1, v);
    }
  }

  ghost predicate InjectiveBelow(f: nat -> nat, k: nat) {
    forall i: nat, j: nat :: i < j < k ==> f(i) != f(j)
  }

  lemma {:induction false} ImageSize(f: nat -> nat, k: nat)
    requires InjectiveBelow(f, k)
    ensures |Image(f, k)| == k
  {
    if k > 0 {
      ImageSize(f, k - 1);
      ImageHas(f, k - 1, f(k - 1));
    }
  }

  lemma ImageBelow(f: nat -> nat, k: nat, m: nat)
    requires forall i: nat :: i < k ==> f(i) < m
    ensures Image(f, k) <= Below(m)
  {
    forall v | v in Image(f, k) ensures v in Below(m) {
      ImageHas(f, k, v);
    }
  }

  /** m + 1 values below m cannot all differ. */
  lemma Pigeonhole(f: nat -> nat, m: nat)
    requires forall i: nat :: i <= m ==> f(i) < m
    ensures exists i: nat, j: nat :: i < j <= m && f(i) == f(j)
  {
    if InjectiveBelow(f, m + 1) {
      ImageSize(f, m + 1);
      ImageBelow(f, m + 1, m);
      SubsetSize(Image(f, m + 1), Below(m));
    }
  }

  /** m different values below m are all of them. */
  lemma InjectionIsOnto(f: nat -> nat, m: nat, v: nat)
    requires InjectiveBelow(f, m)
    requires forall i: nat :: i < m ==> f(i) < m
    requires v < m
    ensures exists i: nat :: i < m && f(i) == v
  {
    ImageSize(f, m);
    ImageBelow(f, m, m);
    SubsetSize(Image(f, m), Below(m));
    ImageHas(f, m, v);
  }
}
