/**
 * The ligand descriptors the row reports and the four efficiency metrics
 * `calculate_efficiency_metrics` derives from them and from the affinity:
 * LE, LLE, SILE_N and SILE_SASA, each behind its own guard.
 */
module Efficiency {
  import opened Wrappers

  /**
   * What `calculate_ligand_metrics` reports. The values come from RDKit and
   * are not modelled; each may be missing.
   */
  datatype LigandMetrics = LigandMetrics(
    mw: Option<real>, logP: Option<real>, tpsa: Option<real>,
    nha: Option<int>, nrb: Option<int>, hbd: Option<int>, hba: Option<int>,
    sasa: Option<real>, qed: Option<real>)

  /** The record for a molecule that could not be loaded or described. */
  const NO_METRICS := LigandMetrics(None, None, None, None, None, None, None, None, None)

  /** `nha ** 0.3`: a positive value for every positive heavy-atom count. */
  type HeavyAtomPower = f: int -> real | forall n :: 0 < n ==> 0.0 < f(n)
    witness (n: int) => 1.0

  /** SASA at or below this is treated as zero. */
  const SASA_FLOOR: real := 0.000001

  /** What `calculate_efficiency_metrics` returns: the same four entries every time, each possibly None. */
  datatype EfficiencyMetrics = EfficiencyMetrics(le: Option<real>, lle: Option<real>, sileN: Option<real>, sileSasa: Option<real>)

  /**
   * `calculate_pKi`: the conversion itself (an exponential and a logarithm
   * in floating point) is the parameter `pKiOf`; a missing affinity gives no
   * pKi.
   */
  function CalculatePKi(affinity: Option<real>, pKiOf: real -> Option<real>): (pki: Option<real>)
    ensures affinity.None? ==> pki.None?
    ensures affinity.Some? ==> pki == pKiOf(affinity.value)
  {
    match affinity
    case None => None
    case Some(a) => pKiOf(a)
  }

  /** The heavy-atom count when it is usable as a divisor. */
  predicate HasHeavyAtoms(m: LigandMetrics) {
    m.nha.Some? && m.nha.value > 0
  }

  function LigandEfficiency(affinity: Option<real>, m: LigandMetrics): Option<real> {
    if affinity.Some? && HasHeavyAtoms(m) then Some(-affinity.value / m.nha.value as real) else None
  }

  function SizeIndependentEfficiency(affinity: Option<real>, m: LigandMetrics, power: HeavyAtomPower): Option<real> {
    if affinity.Some? && HasHeavyAtoms(m) then Some(-affinity.value / power(m.nha.value)) else None
  }

  function LipophilicEfficiency(pki: Option<real>, m: LigandMetrics): Option<real> {
    if pki.Some? && m.logP.Some? then Some(pki.value - m.logP.value) else None
  }

  function SurfaceEfficiency(pki: Option<real>, m: LigandMetrics): Option<real> {
    if pki.Some? && m.sasa.Some? && m.sasa.value > SASA_FLOOR then Some(pki.value / m.sasa.value) else None
  }

  /**
   * `calculate_efficiency_metrics`: each metric is present exactly when the
   * inputs it needs are, and has the value the formula gives.
   */
  function CalculateEfficiencyMetrics(affinity: Option<real>, pki: Option<real>, m: LigandMetrics,
                                      power: HeavyAtomPower): (metrics: EfficiencyMetrics)
    ensures metrics.le.Some? <==> affinity.Some? && m.nha.Some? && m.nha.value > 0
    ensures metrics.le.Some? ==> metrics.le.value * m.nha.value as real == -affinity.value
    ensures metrics.sileN.Some? <==> affinity.Some? && m.nha.Some? && m.nha.value > 0
    ensures metrics.sileN.Some? ==> metrics.sileN.value * power(m.nha.value) == -affinity.value
    ensures metrics.lle.Some? <==> pki.Some? && m.logP.Some?
    ensures metrics.lle.Some? ==> metrics.lle.value + m.logP.value == pki.value
    ensures metrics.sileSasa.Some? <==> pki.Some? && m.sasa.Some? && m.sasa.value > SASA_FLOOR
    ensures metrics.sileSasa.Some? ==> metrics.sileSasa.value * m.sasa.value == pki.value
  {
    EfficiencyMetrics(LigandEfficiency(affinity, m), LipophilicEfficiency(pki, m),
                      SizeIndependentEfficiency(affinity, m, power), SurfaceEfficiency(pki, m))
  }

  /** A favourable (negative) affinity gives a positive LE and SILE_N. */
  lemma BindingGivesPositiveEfficiency(affinity: real, pki: Option<real>, m: LigandMetrics, power: HeavyAtomPower)
    requires affinity < 0.0 && HasHeavyAtoms(m)
    ensures var metrics := CalculateEfficiencyMetrics(Some(affinity), pki, m, power);
            metrics.le.value > 0.0 && metrics.sileN.value > 0.0
  {
    var n := m.nha.value;
    assert 0.0 < power(n);
    var metrics := CalculateEfficiencyMetrics(Some(affinity), pki, m, power);
    var le, sile := metrics.le.value, metrics.sileN.value;
    assert le * n as real > 0.0;
    assert sile * power(n) > 0.0;
  }

  /** The same affinity spread over more heavy atoms gives a lower LE. */
  lemma LargerLigandLowerEfficiency(affinity: real, m1: LigandMetrics, m2: LigandMetrics)
    requires affinity < 0.0 && HasHeavyAtoms(m1) && HasHeavyAtoms(m2)
    requires m1.nha.value < m2.nha.value
    ensures LigandEfficiency(Some(affinity), m2).value < LigandEfficiency(Some(affinity), m1).value
  {
    QuotientDecreases(-affinity, m1.nha.value as real, m2.nha.value as real);
  }

  /** A positive amount shared among more parts gives each part less. */
  lemma QuotientDecreases(a: real, n1: real, n2: real)
    requires 0.0 < a && 0.0 < n1 < n2
    ensures a / n2 < a / n1
  {
    var q1, q2 := a / n1, a / n2;
    assert q1 * n1 == a && q2 * n2 == a;
    assert (q1 - q2) * n2 == q1 * (n2 - n1);
    assert q1 * (n2 - n1) > 0.0;
  }

  /** Without an affinity, LE and SILE_N are missing while LLE and SILE_SASA may not be. */
  lemma NoAffinityNoSizeEfficiency(pki: Option<real>, m: LigandMetrics, power: HeavyAtomPower)
    ensures var metrics := CalculateEfficiencyMetrics(None, pki, m, power);
            metrics.le.None? && metrics.sileN.None? &&
            metrics.lle == LipophilicEfficiency(pki, m) && metrics.sileSasa == SurfaceEfficiency(pki, m)
  {
  }

  /** A Vina affinity of -8.5 kcal/mol over 17 heavy atoms is an LE of 0.5. */
  lemma EfficiencyExample(m: LigandMetrics)
    requires m.nha == Some(17)
    ensures LigandEfficiency(Some(-8.5), m) == Some(0.5)
  {
  }
}
