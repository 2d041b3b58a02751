/** The double-and-add ladder of ScalarMultiply over any addition of coordinates that maps
    homomorphically onto a monoid. */
module Ladder {
  import opened Modular

  /** An operation with a neutral element on the values that `carrier` admits. */
  datatype Monoid<!G> = Monoid(carrier: G -> bool, add: (G, G) -> G, zero: G)

  ghost predicate IsMonoid<G(!new)>(g: Monoid<G>) {
    g.carrier(g.zero) &&
    (forall a {:trigger g.add(a, g.zero)} {:trigger g.add(g.zero, a)} ::
      g.carrier(a) ==> g.add(a, g.zero) == a && g.add(g.zero, a) == a) &&
    (forall a, b {:trigger g.carrier(g.add(a, b))} :: g.carrier(a) && g.carrier(b) ==> g.carrier(g.add(a, b))) &&
    (forall a, b, c {:trigger g.add(g.add(a, b), c)} :: g.carrier(a) && g.carrier(b) && g.carrier(c) ==>
      g.add(g.add(a, b), c) == g.add(a, g.add(b, c)))
  }

  /** [n]a by repeated addition. */
  function Times<G>(g: Monoid<G>, n: nat, a: G): G {
    if n == 0 then g.zero else g.add(Times(g, n - 1, a), a)
  }

  lemma {:induction false} TimesIsCarried<G(!new)>(g: Monoid<G>, n: nat, a: G)
    requires IsMonoid(g) && g.carrier(a)
    ensures g.carrier(Times(g, n, a))
  {
    if n > 0 {
      TimesIsCarried(g, n - 1, a);
    }
  }

  lemma {:induction false} TimesAdds<G(!new)>(g: Monoid<G>, m: nat, n: nat, a: G)
    requires IsMonoid(g) && g.carrier(a)
    ensures Times(g, m + n, a) == g.add(Times(g, m, a), Times(g, n, a))
  {
    TimesIsCarried(g, m, a);
    if n > 0 {
      TimesIsCarried(g, n - 1, a);
      TimesAdds(g, m, n - 1, a);
      assert m + n - 1 == m + (n - 1);
      var x, y := Times(g, m, a), Times(g, n - 1, a);
      assert g.add(g.add(x, y), a) == g.add(x, g.add(y, a));
    }
  }

  lemma {:induction false} TimesTimes<G(!new)>(g: Monoid<G>, m: nat, n: nat, a: G)
    requires IsMonoid(g) && g.carrier(a)
    ensures m * n >= 0 && Times(g, m, Times(g, n, a)) == Times(g, m * n, a)
  {
    if m > 0 {
      TimesTimes(g, m - 1, n, a);
      assert m * n == (m - 1) * n + n;
      TimesAdds(g, (m - 1) * n, n, a);
    }
  }

  /** Coordinates of group elements: an addition on the values that `proper` admits, and what they mean. */
  datatype Coordinates<!Q, !G> = Coordinates(proper: Q -> bool, add: (Q, Q) -> Q, identity: Q, meaning: Q -> G)

  ghost predicate IsHomomorphism<Q(!new), G(!new)>(c: Coordinates<Q, G>, g: Monoid<G>) {
    c.proper(c.identity) && c.meaning(c.identity) == g.zero &&
    (forall p {:trigger g.carrier(c.meaning(p))} :: c.proper(p) ==> g.carrier(c.meaning(p))) &&
    (forall p, q {:trigger c.add(p, q)} :: c.proper(p) && c.proper(q) ==>
      c.proper(c.add(p, q)) && c.meaning(c.add(p, q)) == g.add(c.meaning(p), c.meaning(q)))
  }

  datatype LadderState<Q> = LadderState(output: Q, point: Q)

  /** One round: the scalar bit decides which working point is doubled; the other gets the sum. */
  function Step<Q>(add: (Q, Q) -> Q, s: LadderState<Q>, bit: int): LadderState<Q> {
    if bit == 0 then LadderState(add(s.output, s.output), add(s.point, s.output))
    else LadderState(add(s.output, s.point), add(s.point, s.point))
  }

  /** The working points after `rounds` rounds over the binary digits of n, highest first. */
  function Run<Q>(add: (Q, Q) -> Q, identity: Q, point: Q, n: int, rounds: nat): LadderState<Q>
    decreases rounds
  {
    if rounds == 0 then LadderState(identity, point)
    else Step(add, Run(add, identity, point, n / 2, rounds - 1), n % 2)
  }

  ghost predicate Holds<Q(!new), G(!new)>(c: Coordinates<Q, G>, g: Monoid<G>, s: LadderState<Q>, n: nat, a: G) {
    c.proper(s.output) && c.proper(s.point) &&
    c.meaning(s.output) == Times(g, n, a) && c.meaning(s.point) == Times(g, n + 1, a)
  }

  lemma StepKeepsMultiples<Q(!new), G(!new)>(c: Coordinates<Q, G>, g: Monoid<G>, s: LadderState<Q>, n: nat, a: G,
                                             bit: int)
    requires IsMonoid(g) && IsHomomorphism(c, g) && g.carrier(a) && Holds(c, g, s, n, a)
    requires bit == 0 || bit == 1
    ensures Holds(c, g, Step(c.add, s, bit), 2 * n + bit, a)
  {
    if bit == 0 {
      TimesAdds(g, n, n, a);
      TimesAdds(g, n + 1, n, a);
      assert n + n == 2 * n && n + 1 + n == 2 * n + 1;
    } else {
      TimesAdds(g, n, n + 1, a);
      TimesAdds(g, n + 1, n + 1, a);
      assert n + (n + 1) == 2 * n + 1 && n + 1 + (n + 1) == 2 * n + 1 + 1;
    }
  }

  /** After any number of rounds the ladder holds [n]P and [n + 1]P, n being the bits consumed so far. */
  lemma {:induction false} LadderHoldsMultiples<Q(!new), G(!new)>(c: Coordinates<Q, G>, g: Monoid<G>, point: Q, n: nat,
                                                                  rounds: nat)
    requires IsMonoid(g) && IsHomomorphism(c, g) && c.proper(point) && n < Pow(2, rounds)
    ensures Holds(c, g, Run(c.add, c.identity, point, n, rounds), n, c.meaning(point))
  {
    var a := c.meaning(point);
    if rounds == 0 {
      assert Times(g, 1, a) == g.add(Times(g, 0, a), a);
    } else {
      assert Pow(2, rounds) == 2 * Pow(2, rounds - 1);
      LadderHoldsMultiples(c, g, point, n / 2, rounds - 1);
      StepKeepsMultiples(c, g, Run(c.add, c.identity, point, n / 2, rounds - 1), n / 2, a, n % 2);
    }
  }

  // ---- Multiples of inverses and of elements of finite order ----

  lemma AddAssociates<G(!new)>(g: Monoid<G>, x: G, y: G, z: G)
    requires IsMonoid(g) && g.carrier(x) && g.carrier(y) && g.carrier(z)
    ensures g.add(g.add(x, y), z) == g.add(x, g.add(y, z))
  {
  }

  lemma ZeroAdds<G(!new)>(g: Monoid<G>, x: G)
    requires IsMonoid(g) && g.carrier(x)
    ensures g.add(g.zero, x) == x && g.add(x, g.zero) == x && g.carrier(g.zero)
  {
  }

  /** x + (y + z) = z when x and y cancel. */
  lemma CancelLeft<G(!new)>(g: Monoid<G>, x: G, y: G, z: G)
    requires IsMonoid(g) && g.carrier(x) && g.carrier(y) && g.carrier(z) && g.add(x, y) == g.zero
    ensures g.add(x, g.add(y, z)) == z
  {
    AddAssociates(g, x, y, z);
    ZeroAdds(g, z);
  }

  /** (x + n) + (a + y) = x + y when n and a cancel. */
  lemma CancelMiddle<G(!new)>(g: Monoid<G>, x: G, n: G, a: G, y: G)
    requires IsMonoid(g) && g.carrier(x) && g.carrier(n) && g.carrier(a) && g.carrier(y) && g.add(n, a) == g.zero
    ensures g.add(g.add(x, n), g.add(a, y)) == g.add(x, y)
  {
    assert g.carrier(g.add(a, y));
    AddAssociates(g, x, n, g.add(a, y));
    CancelLeft(g, n, a, y);
  }

  lemma TimesOneMore<G(!new)>(g: Monoid<G>, n: nat, a: G)
    requires IsMonoid(g) && g.carrier(a)
    ensures Times(g, n + 1, a) == g.add(a, Times(g, n, a))
  {
    TimesAdds(g, 1, n, a);
    ZeroAdds(g, a);
    assert Times(g, 1, a) == g.add(Times(g, 0, a), a);
  }

  lemma {:induction false} InverseMultiplesCancel<G(!new)>(g: Monoid<G>, h: nat, a: G, negative: G)
    requires IsMonoid(g) && g.carrier(a) && g.carrier(negative) && g.add(negative, a) == g.zero
    ensures g.add(Times(g, h, negative), Times(g, h, a)) == g.zero
  {
    if h == 0 {
      ZeroAdds(g, g.zero);
    } else {
      TimesIsCarried(g, h - 1, negative);
      TimesIsCarried(g, h - 1, a);
      InverseMultiplesCancel(g, h - 1, a, negative);
      TimesOneMore(g, h - 1, a);
      CancelMiddle(g, Times(g, h - 1, negative), negative, a, Times(g, h - 1, a));
    }
  }

  lemma {:induction false} MultiplesOfOrder<G(!new)>(g: Monoid<G>, k: nat, order: nat, b: G)
    requires IsMonoid(g) && g.carrier(b) && Times(g, order, b) == g.zero
    ensures k * order >= 0 && Times(g, k * order, b) == g.zero
  {
    if k > 0 {
      MultiplesOfOrder(g, k - 1, order, b);
      assert k * order == (k - 1) * order + order;
      TimesAdds(g, (k - 1) * order, order, b);
      ZeroAdds(g, g.zero);
    }
  }

  lemma TimesModuloOrder<G(!new)>(g: Monoid<G>, n: nat, order: nat, b: G)
    requires IsMonoid(g) && g.carrier(b) && order > 0 && Times(g, order, b) == g.zero
    ensures Times(g, n % order, b) == Times(g, n, b)
  {
    var k := n / order;
    MultiplesOfOrder(g, k, order, b);
    assert n == k * order + n % order;
    TimesAdds(g, k * order, n % order, b);
    TimesIsCarried(g, n % order, b);
    ZeroAdds(g, Times(g, n % order, b));
  }

  /** [(h s + r) mod order]b = [h][s]b + [r]b. */
  lemma ResponseMultiple<G(!new)>(g: Monoid<G>, b: G, order: nat, s: nat, r: nat, h: nat, n: nat)
    requires IsMonoid(g) && g.carrier(b) && order > 0 && Times(g, order, b) == g.zero && n == h * s
    ensures Times(g, (n + r) % order, b) == g.add(Times(g, h, Times(g, s, b)), Times(g, r, b))
  {
    TimesModuloOrder(g, n + r, order, b);
    TimesAdds(g, n, r, b);
    TimesTimes(g, h, s, b);
  }

  /** With a = [s]b, the verification sum [h](-a) + [(h s + r) mod order]b is [r]b. */
  lemma SignatureEquation<G(!new)>(g: Monoid<G>, b: G, order: nat, s: nat, r: nat, h: nat, n: nat, negative: G)
    requires IsMonoid(g) && g.carrier(b) && order > 0 && Times(g, order, b) == g.zero && n == h * s
    requires g.carrier(negative) && g.add(negative, Times(g, s, b)) == g.zero
    ensures g.add(Times(g, h, negative), Times(g, (n + r) % order, b)) == Times(g, r, b)
  {
    var a := Times(g, s, b);
    ResponseMultiple(g, b, order, s, r, h, n);
    TimesIsCarried(g, s, b);
    TimesIsCarried(g, r, b);
    TimesIsCarried(g, h, a);
    TimesIsCarried(g, h, negative);
    InverseMultiplesCancel(g, h, a, negative);
    CancelLeft(g, Times(g, h, negative), Times(g, h, a), Times(g, r, b));
  }
}
