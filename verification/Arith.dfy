/** Products and quotients by name, with the few laws the proofs need.  Proofs hide these bodies so
    that the solver never sees a nonlinear term outside this module. */
module Arith {
  function Times(a: nat, b: nat): nat {
    a * b
  }

  function Quot(a: nat, b: nat): (q: nat)
    requires b > 0
    ensures q <= a
  {
    QuotientBound(a, b);
    a / b
  }

  function Rem(a: nat, b: nat): (r: nat)
    requires b > 0
    ensures r < b
  {
    a % b
  }

  lemma Nonneg(a: nat, b: nat)
    ensures a * b >= 0
  {
  }

  lemma QuotientBound(a: nat, b: nat)
    requires b > 0
    ensures 0 <= a / b <= a
  {
    var q := a / b;
    assert a == b * q + a % b;
    assert b * q == q + (b - 1) * q;
    if q >= 0 { Nonneg(b - 1, q); }
  }

  lemma TimesMono(w: nat, a: nat, b: nat)
    requires a <= b
    ensures Times(w, a) <= Times(w, b)
  {
    assert w * b == w * a + w * (b - a);
  }

  lemma TimesAdd(w: nat, a: nat, b: nat)
    ensures Times(w, a + b) == Times(w, a) + Times(w, b)
  {
  }

  lemma TimesComm(a: nat, b: nat)
    ensures Times(a, b) == Times(b, a)
  {
  }

  lemma TimesAssoc(a: nat, b: nat, c: nat)
    ensures Times(Times(a, b), c) == Times(a, Times(b, c))
  {
  }

  lemma TimesOne(a: nat)
    ensures Times(1, a) == a == Times(a, 1)
    ensures Times(0, a) == 0 == Times(a, 0)
  {
  }

  lemma TimesConst(a: nat)
    ensures Times(a, 2) == 2 * a && Times(a, 34) == 34 * a && Times(a, 35) == 35 * a && Times(a, 59) == 59 * a
  {
  }

  lemma QuotRem(a: nat, b: nat)
    requires b > 0
    ensures a == Times(b, Quot(a, b)) + Rem(a, b)
  {
  }

  lemma QuotRemUnique(r: nat, q: nat, b: nat)
    requires r < b
    ensures Quot(r + Times(b, q), b) == q && Rem(r + Times(b, q), b) == r
  {
    var a := r + Times(b, q);
    var q', r' := Quot(a, b), Rem(a, b);
    QuotRem(a, b);
    if q' < q {
      TimesMono(b, q' + 1, q);
      TimesAdd(b, q', 1);
      assert false;
    } else if q' > q {
      TimesMono(b, q + 1, q');
      TimesAdd(b, q, 1);
      assert false;
    }
  }
}
