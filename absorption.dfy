/** `species_mole_fraction` of `knightshock/absorption.py`: the Beer-Lambert
    law solved for the mole fraction, over the reals and for one scalar set
    of inputs (the array form applies the same formula element by element). */
module Absorption {
  import opened Wrappers

  /** Avogadro's number, molecules per mole. */
  const AvogadroNumber: real := 602214076000000000000000.0

  /** The module's universal gas constant, 8.31432e3. */
  const GasConstant: real := 8314.32

  /** Cross-section in cm^2 to the unit the formula works in. */
  const PerMillion: real := 1000000.0

  /** The number density factor `sigma / 1E6 * AVOGADRO_NUMBER * L`, the
      first divisor of the formula. */
  function Attenuation(sigma: real, L: real): (d: real)
    ensures d == 0.0 <==> sigma == 0.0 || L == 0.0
    ensures sigma > 0.0 && L > 0.0 ==> d > 0.0
  {
    sigma / PerMillion * AvogadroNumber * L
  }

  /** `A / (sigma / 1E6 * AVOGADRO_NUMBER * L) * (GAS_CONSTANT * T) / P`,
      evaluated left to right. Either division by zero raises
      `ZeroDivisionError`, which is `None` here. */
  function SpeciesMoleFraction(A: real, sigma: real, T: real, P: real, L: real): (X: Option<real>)
    ensures X.None? <==> sigma == 0.0 || L == 0.0 || P == 0.0
    ensures X.Some? ==> X.value == A * (GasConstant * T) / (Attenuation(sigma, L) * P)
  {
    var d := Attenuation(sigma, L);
    if d == 0.0 then None
    else if P == 0.0 then None
    else
      var x := A / d * (GasConstant * T) / P;
      DivideTwice(A, d, GasConstant * T, P);
      Some(x)
  }

  lemma DivideTwice(a: real, d: real, n: real, p: real)
    requires d != 0.0 && p != 0.0
    ensures a / d * n / p == a * n / (d * p)
  {
  }

  /** The law of the docstring, `A = sigma X N_A L P / (R T)`, with the
      cross-section in the formula's unit: the absorbance a mole fraction `X`
      produces. The temperature divides, so it must not be zero. */
  function Absorbance(X: real, sigma: real, T: real, P: real, L: real): (A: Option<real>)
    ensures A.None? <==> T == 0.0
    ensures A.Some? ==> A.value == X * (Attenuation(sigma, L) * P) / (GasConstant * T)
  {
    if T == 0.0 then None
    else
      var a := sigma / PerMillion * X * AvogadroNumber * L * P / (GasConstant * T);
      ForwardRegrouped(X, sigma, T, P, L);
      Some(a)
  }

  lemma ForwardRegrouped(X: real, sigma: real, T: real, P: real, L: real)
    requires T != 0.0
    ensures sigma / PerMillion * X * AvogadroNumber * L * P / (GasConstant * T) ==
            X * (Attenuation(sigma, L) * P) / (GasConstant * T)
  {
  }

  /** The result satisfies the law it inverts: put back into the law, the
      mole fraction gives back the measured absorbance. */
  lemma LawRecoversAbsorbance(A: real, sigma: real, T: real, P: real, L: real)
    requires sigma != 0.0 && L != 0.0 && P != 0.0 && T != 0.0
    ensures var X := SpeciesMoleFraction(A, sigma, T, P, L);
      X.Some? && Absorbance(X.value, sigma, T, P, L) == Some(A)
  {
    var X := SpeciesMoleFraction(A, sigma, T, P, L).value;
    var d := Attenuation(sigma, L) * P;
    var n := GasConstant * T;
    assert d != 0.0 && n != 0.0;
    assert X == A * n / d;
    Cancel(A, n, d);
    assert X * d / n == A;
    assert Absorbance(X, sigma, T, P, L).value == X * d / n;
  }

  /** The inversion is exact the other way too: the mole fraction computed
      from the absorbance a mole fraction produces is that mole fraction. */
  lemma InverseRecoversMoleFraction(X: real, sigma: real, T: real, P: real, L: real)
    requires sigma != 0.0 && L != 0.0 && P != 0.0 && T != 0.0
    ensures var A := Absorbance(X, sigma, T, P, L);
      A.Some? && SpeciesMoleFraction(A.value, sigma, T, P, L) == Some(X)
  {
    var d := Attenuation(sigma, L) * P;
    var n := GasConstant * T;
    assert d != 0.0 && n != 0.0;
    var A := Absorbance(X, sigma, T, P, L).value;
    assert A == X * d / n;
    Cancel(X, d, n);
    assert A * n / d == X;
    assert SpeciesMoleFraction(A, sigma, T, P, L).value == A * n / d;
  }

  /** `(a * n / d) * d / n == a` once neither factor is zero. */
  lemma Cancel(a: real, n: real, d: real)
    requires n != 0.0 && d != 0.0
    ensures a * n / d * d / n == a
  {
    assert a * n / d * d == a * n;
  }

  /** No absorbance, no absorber. */
  lemma ZeroAbsorbance(sigma: real, T: real, P: real, L: real)
    requires sigma != 0.0 && L != 0.0 && P != 0.0
    ensures SpeciesMoleFraction(0.0, sigma, T, P, L) == Some(0.0)
  {
  }

  /** The mole fraction is linear in the absorbance. */
  lemma LinearInAbsorbance(k: real, A: real, sigma: real, T: real, P: real, L: real)
    requires sigma != 0.0 && L != 0.0 && P != 0.0
    ensures SpeciesMoleFraction(k * A, sigma, T, P, L).value ==
            k * SpeciesMoleFraction(A, sigma, T, P, L).value
  {
    var n := GasConstant * T;
    var d := Attenuation(sigma, L) * P;
    assert d != 0.0;
    assert (k * A) * n / d == k * (A * n / d);
  }

  /** With every parameter positive, a larger absorbance or a higher
      temperature means more of the species. */
  lemma GrowsWithAbsorbanceAndTemperature(A: real, A': real, sigma: real, T: real, T': real, P: real, L: real)
    requires sigma > 0.0 && L > 0.0 && P > 0.0 && T > 0.0 && A > 0.0
    ensures A < A' ==> SpeciesMoleFraction(A, sigma, T, P, L).value < SpeciesMoleFraction(A', sigma, T, P, L).value
    ensures T < T' ==> SpeciesMoleFraction(A, sigma, T, P, L).value < SpeciesMoleFraction(A, sigma, T', P, L).value
  {
    var d := Attenuation(sigma, L) * P;
    assert d > 0.0;
    if A < A' {
      QuotientGrows(A * (GasConstant * T), A' * (GasConstant * T), d);
    }
    if T < T' {
      QuotientGrows(A * (GasConstant * T), A * (GasConstant * T'), d);
    }
  }

  /** The attenuation grows with the cross-section and with the path. */
  lemma AttenuationGrows(sigma: real, sigma': real, L: real, L': real)
    requires 0.0 < sigma <= sigma' && 0.0 < L <= L'
    ensures sigma < sigma' || L < L' ==> Attenuation(sigma, L) < Attenuation(sigma', L')
  {
    var u, u' := sigma / PerMillion * AvogadroNumber, sigma' / PerMillion * AvogadroNumber;
    assert 0.0 < u <= u' && (sigma < sigma' ==> u < u');
    assert u * L <= u' * L <= u' * L';
  }

  lemma ProductGrows(a: real, b: real, p: real)
    requires 0.0 < a < b && p > 0.0
    ensures 0.0 < a * p < b * p
  {
  }

  lemma QuotientGrows(a: real, b: real, d: real)
    requires d > 0.0 && a < b
    ensures a / d < b / d
  {
  }

  lemma QuotientShrinks(n: real, d: real, e: real)
    requires n > 0.0 && 0.0 < d < e
    ensures n / e < n / d
  {
  }

  /** With every parameter positive, a larger cross-section, a longer path
      or a higher pressure means less of the species for the same
      absorbance. */
  lemma ShrinksWithCrossSectionPathAndPressure(A: real, sigma: real, sigma': real, T: real, P: real, P': real,
                                               L: real, L': real)
    requires sigma > 0.0 && L > 0.0 && P > 0.0 && T > 0.0 && A > 0.0
    ensures sigma < sigma' ==>
              SpeciesMoleFraction(A, sigma', T, P, L).value < SpeciesMoleFraction(A, sigma, T, P, L).value
    ensures L < L' ==>
              SpeciesMoleFraction(A, sigma, T, P, L').value < SpeciesMoleFraction(A, sigma, T, P, L).value
    ensures P < P' ==>
              SpeciesMoleFraction(A, sigma, T, P', L).value < SpeciesMoleFraction(A, sigma, T, P, L).value
  {
    if sigma < sigma' {
      AttenuationGrows(sigma, sigma', L, L);
      ProductGrows(Attenuation(sigma, L), Attenuation(sigma', L), P);
      DivisorShrinks(A, sigma, T, P, L, sigma', P, L);
    }
    if L < L' {
      AttenuationGrows(sigma, sigma, L, L');
      ProductGrows(Attenuation(sigma, L), Attenuation(sigma, L'), P);
      DivisorShrinks(A, sigma, T, P, L, sigma, P, L');
    }
    if P < P' {
      assert Attenuation(sigma, L) > 0.0;
      DivisorShrinks(A, sigma, T, P, L, sigma, P', L);
    }
  }

  /** A larger divisor `Attenuation * P`, the same absorbance and
      temperature: a smaller mole fraction. */
  lemma DivisorShrinks(A: real, sigma: real, T: real, P: real, L: real, sigma': real, P': real, L': real)
    requires sigma > 0.0 && L > 0.0 && P > 0.0 && T > 0.0 && A > 0.0
    requires sigma' != 0.0 && L' != 0.0 && P' != 0.0
    requires Attenuation(sigma, L) * P < Attenuation(sigma', L') * P'
    ensures SpeciesMoleFraction(A, sigma', T, P', L').value < SpeciesMoleFraction(A, sigma, T, P, L).value
  {
    var n := A * (GasConstant * T);
    assert n > 0.0 && Attenuation(sigma, L) * P > 0.0;
    QuotientShrinks(n, Attenuation(sigma, L) * P, Attenuation(sigma', L') * P');
  }
}
