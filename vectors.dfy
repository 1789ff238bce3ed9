/** Ten-component stoichiometric vectors over exact reals.

    Every reaction of the thermodynamic model is a vector of ten coefficients in the
    fixed order [donor, h2o, hco3, nh4, hpo4, hs, h, e, acceptor, biom]; a negative
    coefficient is consumed, a positive one produced.  numpy's element-wise array
    arithmetic becomes the functions below. */
module Vectors {

  /** Component indices, in the fixed order shared by all reaction vectors. */
  const DonorSlot := 0
  const H2oSlot := 1
  const Hco3Slot := 2
  const Nh4Slot := 3
  const Hpo4Slot := 4
  const HsSlot := 5
  const ProtonSlot := 6
  const ElectronSlot := 7
  const AcceptorSlot := 8
  const BiomassSlot := 9

  type Vec = v: seq<real> | |v| == 10 witness [0.0, 0.0, 0.0, 0.0, 0.0, 0.0, 0.0, 0.0, 0.0, 0.0]

  /** numpy `u + v` */
  function Add(u: Vec, v: Vec): (w: Vec)
    ensures forall i :: 0 <= i < 10 ==> w[i] == u[i] + v[i]
  {
    seq(10, i requires 0 <= i < 10 => u[i] + v[i])
  }

  /** numpy `u - v` */
  function Sub(u: Vec, v: Vec): (w: Vec)
    ensures forall i :: 0 <= i < 10 ==> w[i] == u[i] - v[i]
  {
    seq(10, i requires 0 <= i < 10 => u[i] - v[i])
  }

  /** numpy `k * v` */
  function Scale(k: real, v: Vec): (w: Vec)
    ensures forall i :: 0 <= i < 10 ==> w[i] == k * v[i]
  {
    seq(10, i requires 0 <= i < 10 => k * v[i])
  }

  /** numpy `v / k`, for a non-zero divisor */
  function Div(v: Vec, k: real): (w: Vec)
    requires k != 0.0
    ensures forall i :: 0 <= i < 10 ==> w[i] == v[i] / k
  {
    seq(10, i requires 0 <= i < 10 => v[i] / k)
  }

  /** numpy `np.dot(u, v)` */
  function Dot(u: Vec, v: Vec): real
  {
    DotFrom(u, v, 0)
  }

  /** The sum of `u[i] * v[i]` over the components from `k` on. */
  function DotFrom(u: Vec, v: Vec, k: nat): real
    requires k <= 10
    decreases 10 - k
  {
    if k == 10 then 0.0 else u[k] * v[k] + DotFrom(u, v, k + 1)
  }

  /** The dot product written out over the ten components. */
  lemma DotExpand(u: Vec, v: Vec)
    ensures Dot(u, v) == u[0] * v[0] + u[1] * v[1] + u[2] * v[2] + u[3] * v[3] + u[4] * v[4]
                       + u[5] * v[5] + u[6] * v[6] + u[7] * v[7] + u[8] * v[8] + u[9] * v[9]
  {
    assert DotFrom(u, v, 9) == u[9] * v[9];
    assert DotFrom(u, v, 8) == u[8] * v[8] + u[9] * v[9];
    assert DotFrom(u, v, 7) == u[7] * v[7] + u[8] * v[8] + u[9] * v[9];
    assert DotFrom(u, v, 6) == u[6] * v[6] + u[7] * v[7] + u[8] * v[8] + u[9] * v[9];
    assert DotFrom(u, v, 5) == u[5] * v[5] + u[6] * v[6] + u[7] * v[7] + u[8] * v[8] + u[9] * v[9];
    assert DotFrom(u, v, 4) == u[4] * v[4] + DotFrom(u, v, 5);
    assert DotFrom(u, v, 3) == u[3] * v[3] + DotFrom(u, v, 4);
    assert DotFrom(u, v, 2) == u[2] * v[2] + DotFrom(u, v, 3);
    assert DotFrom(u, v, 1) == u[1] * v[1] + DotFrom(u, v, 2);
  }

  /** The tail sums of the dot product are linear in the second argument. */
  lemma {:induction false} DotFromLinear(f: Vec, k: real, u: Vec, v: Vec, i: nat)
    requires i <= 10
    ensures DotFrom(f, Add(Scale(k, u), v), i) == k * DotFrom(f, u, i) + DotFrom(f, v, i)
    decreases 10 - i
  {
    if i < 10 {
      DotFromLinear(f, k, u, v, i + 1);
      var w := Add(Scale(k, u), v);
      assert w[i] == k * u[i] + v[i];
      ComponentLinear(f[i], k, u[i], v[i]);
      MulAdd(k, f[i] * u[i], DotFrom(f, u, i + 1));
    }
  }

  /** One component of the subtraction step: a * (c - k * b) == a * c - k * (a * b). */
  lemma ComponentSub(a: real, k: real, b: real, c: real)
    ensures a * (c - k * b) == a * c - k * (a * b)
  {
  }

  /** One component of the linearity step: a * (k * b + c) == k * (a * b) + a * c. */
  lemma ComponentLinear(a: real, k: real, b: real, c: real)
    ensures a * (k * b + c) == k * (a * b) + a * c
  {
  }

  /** Multiplication distributes over addition. */
  lemma MulAdd(k: real, a: real, b: real)
    ensures k * (a + b) == k * a + k * b
  {
  }

  /** The dot product is linear in its second argument. */
  lemma DotLinear(f: Vec, k: real, u: Vec, v: Vec)
    ensures Dot(f, Add(Scale(k, u), v)) == k * Dot(f, u) + Dot(f, v)
  {
    DotFromLinear(f, k, u, v, 0);
    assert Dot(f, Add(Scale(k, u), v)) == DotFrom(f, Add(Scale(k, u), v), 0);
    assert Dot(f, u) == DotFrom(f, u, 0) && Dot(f, v) == DotFrom(f, v, 0);
  }

  /** The zero vector. */
  const Zero: Vec := [0.0, 0.0, 0.0, 0.0, 0.0, 0.0, 0.0, 0.0, 0.0, 0.0]

  /** The dot product commutes with scaling. */
  lemma DotScale(f: Vec, k: real, v: Vec)
    ensures Dot(f, Scale(k, v)) == k * Dot(f, v)
  {
    DotLinear(f, k, v, Zero);
    DotExpand(f, Zero);
    assert Add(Scale(k, v), Zero) == Scale(k, v);
  }

  /** Dividing by `k` is scaling by `1 / k`. */
  lemma DivIsScale(v: Vec, k: real)
    requires k != 0.0
    ensures Div(v, k) == Scale(1.0 / k, v)
  {
    var r := 1.0 / k;
    assert r * k == 1.0;
    forall i | 0 <= i < 10
      ensures Div(v, k)[i] == Scale(r, v)[i]
    {
      var q := v[i] / k;
      assert q * k == v[i];
      calc {
        q;
        q * (r * k);
        (q * k) * r;
        r * v[i];
      }
    }
  }

  /** A vector orthogonal to `f` stays orthogonal after numpy's division by a scalar. */
  lemma DotDivZero(f: Vec, v: Vec, k: real)
    requires k != 0.0 && Dot(f, v) == 0.0
    ensures Dot(f, Div(v, k)) == 0.0
  {
    DivIsScale(v, k);
    DotScale(f, 1.0 / k, v);
  }

  /** numpy `u + k * v` spreads over the dot product. */
  lemma DotAddScale(f: Vec, u: Vec, k: real, v: Vec)
    ensures Dot(f, Add(u, Scale(k, v))) == Dot(f, u) + k * Dot(f, v)
  {
    assert Add(u, Scale(k, v)) == Add(Scale(k, v), u);
    DotLinear(f, k, v, u);
  }

  /** numpy `u - k * v` spreads over the dot product. */
  lemma DotSubScale(f: Vec, u: Vec, k: real, v: Vec)
    ensures Dot(f, Sub(u, Scale(k, v))) == Dot(f, u) - k * Dot(f, v)
  {
    DotFromSubScale(f, u, k, v, 0);
  }

  /** The tail sums of the dot product spread over `u - k * v`. */
  lemma {:induction false} DotFromSubScale(f: Vec, u: Vec, k: real, v: Vec, i: nat)
    requires i <= 10
    ensures DotFrom(f, Sub(u, Scale(k, v)), i) == DotFrom(f, u, i) - k * DotFrom(f, v, i)
    decreases 10 - i
  {
    if i < 10 {
      DotFromSubScale(f, u, k, v, i + 1);
      var w := Sub(u, Scale(k, v));
      var fu, fv, tv := f[i] * u[i], f[i] * v[i], DotFrom(f, v, i + 1);
      assert w[i] == u[i] - k * v[i];
      ComponentSub(f[i], k, v[i], u[i]);
      assert f[i] * w[i] == fu - k * fv;
      assert DotFrom(f, v, i) == fv + tv;
      MulAdd(k, fv, tv);
    }
  }

  /** A non-zero number divided by itself is one. */
  lemma DivSelf(k: real)
    requires k != 0.0
    ensures k / k == 1.0
  {
  }

  /** Dividing by a non-zero number and multiplying back gives the number again. */
  lemma DivCancel(q: real, k: real)
    requires k != 0.0
    ensures (q / k) * k == q
  {
  }
}
