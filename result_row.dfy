/**
 * The main block of `calculate_docking_metrics.py`: the results dictionary
 * it fills step by step, and the CSV row it formats from it in header
 * order.
 */
module ResultRow {
  import opened Wrappers
  import opened Columns
  import VinaLog
  import Efficiency
  import LigandFiles

  type Results = map<Key, Value>

  /**
   * What the script gets from outside its own logic: the paths that exist,
   * whether RDKit loads and sanitizes a ligand file, the descriptors it
   * computes for the molecule loaded, the affinity to pKi conversion and
   * `nha ** 0.3`.
   */
  datatype Environment = Environment(
    existing: set<string>,
    loads: LigandFiles.LigandFile -> bool,
    describe: LigandFiles.LigandFile -> Efficiency.LigandMetrics,
    pKiOf: real -> Option<real>,
    power: Efficiency.HeavyAtomPower)

  function StrValue(o: Option<string>): Value {
    if o.Some? then Str(o.value) else Null
  }

  function RealValue(o: Option<real>): Value {
    if o.Some? then Float(o.value) else Null
  }

  function IntValue(o: Option<int>): Value {
    if o.Some? then Whole(o.value) else Null
  }

  /** Python truthiness of an optional string: present and not empty. */
  predicate Truthy(o: Option<string>) {
    o.Some? && o.value != ""
  }

  /** The entry the dictionary starts with under `k`: one of the log's three fields, or None. */
  function InitialValue(fields: VinaLog.LogFields, k: Key): Value {
    match k
    case Receptor => StrValue(fields.receptor)
    case Ligand => StrValue(fields.ligand)
    case Affinity => RealValue(fields.affinity)
    case _ => Null
  }

  /** The dictionary before any metric is computed: every key, the log's three fields, the rest None. */
  function InitialResults(fields: VinaLog.LogFields): Results {
    map k: Key :: InitialValue(fields, k)
  }

  /** The keys `calculate_ligand_metrics` always returns. */
  const DESCRIPTOR_KEYS: set<Key> := {Mw, LogP, Tpsa, Nha, Nrb, Hbd, Hba, Sasa, Qed}

  /** The keys `calculate_efficiency_metrics` always returns. */
  const EFFICIENCY_KEYS: set<Key> := {Le, Lle, SileN, SileSasa}

  /** `results.update(ligand_metrics)`: the nine descriptors overwrite their entries, the rest stays. */
  function WithMetrics(r: Results, m: Efficiency.LigandMetrics): (r': Results)
  {
    r[Mw := RealValue(m.mw)][LogP := RealValue(m.logP)][Tpsa := RealValue(m.tpsa)]
     [Nha := IntValue(m.nha)][Nrb := IntValue(m.nrb)][Hbd := IntValue(m.hbd)]
     [Hba := IntValue(m.hba)][Sasa := RealValue(m.sasa)][Qed := RealValue(m.qed)]
  }

  /** `results.update(efficiency_metrics)`: the four metrics overwrite their entries, the rest stays. */
  function WithEfficiency(r: Results, metrics: Efficiency.EfficiencyMetrics): (r': Results)
  {
    r[Le := RealValue(metrics.le)][Lle := RealValue(metrics.lle)]
     [SileN := RealValue(metrics.sileN)][SileSasa := RealValue(metrics.sileSasa)]
  }

  /**
   * The ligand's descriptors: those of the file found when RDKit loads it,
   * otherwise those of no molecule (all None).
   */
  function LigandMetricsFor(env: Environment, dirs: seq<string>, ligand: string): Efficiency.LigandMetrics {
    match LigandFiles.LigandFileIn(env.existing, dirs, ligand)
    case None => Efficiency.NO_METRICS
    case Some(file) => if env.loads(file) then env.describe(file) else Efficiency.NO_METRICS
  }

  /** The dictionary once steps 2 to 5 have run with this pKi and these descriptors. */
  function Computed(fields: VinaLog.LogFields, pki: Option<real>, m: Efficiency.LigandMetrics,
                    power: Efficiency.HeavyAtomPower): Results {
    if fields.affinity.None? then Described(fields, pki, m)
    else WithEfficiency(Described(fields, pki, m), Efficiency.CalculateEfficiencyMetrics(fields.affinity, pki, m, power))
  }

  /** The results dictionary once steps 2 to 5 of the main block have run. */
  function ResultsOf(fields: VinaLog.LogFields, dirs: seq<string>, env: Environment): Results {
    if !(Truthy(fields.receptor) && Truthy(fields.ligand)) then InitialResults(fields)
    else Computed(fields, Efficiency.CalculatePKi(fields.affinity, env.pKiOf),
                  LigandMetricsFor(env, dirs, fields.ligand.value), env.power)
  }

  /** Steps 2 to 5 of the main block, updating the dictionary in place. */
  method BuildResults(fields: VinaLog.LogFields, dirs: seq<string>, env: Environment) returns (results: Results)
    ensures results == ResultsOf(fields, dirs, env)
  {
    results := InitialResults(fields);
    if Truthy(fields.receptor) && Truthy(fields.ligand) {
      var pki := Efficiency.CalculatePKi(fields.affinity, env.pKiOf);
      results := results[PKi := RealValue(pki)];
      var found := LigandFiles.FindLigandFile(env.existing, dirs, fields.ligand.value);
      var m := Efficiency.NO_METRICS;
      if found.Some? && env.loads(found.value) {
        m := env.describe(found.value);
      }
      assert m == LigandMetricsFor(env, dirs, fields.ligand.value);
      results := WithMetrics(results, m);
      if fields.affinity.Some? {
        var metrics := Efficiency.CalculateEfficiencyMetrics(fields.affinity, pki, m, env.power);
        results := WithEfficiency(results, metrics);
      }
    }
  }

  /** Every key of the dictionary is always present. */
  lemma ResultsKeys(fields: VinaLog.LogFields, dirs: seq<string>, env: Environment)
    ensures forall k: Key :: k in ResultsOf(fields, dirs, env)
  {
    forall k: Key ensures k in InitialResults(fields) {
      match k
      case Receptor => case Ligand => case Affinity => case PKi => case Mw => case LogP =>
      case Tpsa => case Nha => case Nrb => case Hbd => case Hba => case Sasa => case Qed =>
      case Le => case Lle => case SileN => case SileSasa =>
    }
  }

  /** Writing the efficiency metrics leaves every other entry as it was. */
  lemma EfficiencyKeeps(r: Results, metrics: Efficiency.EfficiencyMetrics, k: Key)
    requires k !in EFFICIENCY_KEYS
    ensures k in r ==> k in WithEfficiency(r, metrics) && WithEfficiency(r, metrics)[k] == r[k]
  {
  }

  /** Writing the descriptors leaves every other entry as it was. */
  lemma MetricsKeep(r: Results, m: Efficiency.LigandMetrics, k: Key)
    requires k !in DESCRIPTOR_KEYS
    ensures k in r ==> k in WithMetrics(r, m) && WithMetrics(r, m)[k] == r[k]
  {
  }

  /** The dictionary before the efficiency metrics are written. */
  function Described(fields: VinaLog.LogFields, pki: Option<real>, m: Efficiency.LigandMetrics): Results {
    WithMetrics(InitialResults(fields)[PKi := RealValue(pki)], m)
  }

  /** Every entry but the four metrics is as the descriptors left it. */
  lemma ComputedKeeps(fields: VinaLog.LogFields, pki: Option<real>, m: Efficiency.LigandMetrics,
                      power: Efficiency.HeavyAtomPower, k: Key)
    requires k !in EFFICIENCY_KEYS
    ensures k in Described(fields, pki, m) ==> Computed(fields, pki, m, power)[k] == Described(fields, pki, m)[k]
  {
    if fields.affinity.Some? {
      EfficiencyKeeps(Described(fields, pki, m), Efficiency.CalculateEfficiencyMetrics(fields.affinity, pki, m, power), k);
    }
  }

  /** The log's fields and the pKi, whatever the affinity. */
  lemma ComputedNames(fields: VinaLog.LogFields, pki: Option<real>, m: Efficiency.LigandMetrics,
                      power: Efficiency.HeavyAtomPower)
    ensures var results := Computed(fields, pki, m, power);
            && results[Receptor] == StrValue(fields.receptor) && results[Ligand] == StrValue(fields.ligand)
            && results[Affinity] == RealValue(fields.affinity) && results[PKi] == RealValue(pki)
  {
    var r := InitialResults(fields)[PKi := RealValue(pki)];
    forall k | k in {Receptor, Ligand, Affinity, PKi} ensures Computed(fields, pki, m, power)[k] == r[k] {
      MetricsKeep(r, m, k);
      ComputedKeeps(fields, pki, m, power, k);
    }
  }

  /** The descriptors, whatever the affinity. */
  lemma ComputedDescriptors(fields: VinaLog.LogFields, pki: Option<real>, m: Efficiency.LigandMetrics,
                            power: Efficiency.HeavyAtomPower)
    ensures var results := Computed(fields, pki, m, power);
            && results[Mw] == RealValue(m.mw) && results[LogP] == RealValue(m.logP)
            && results[Tpsa] == RealValue(m.tpsa) && results[Nha] == IntValue(m.nha)
            && results[Nrb] == IntValue(m.nrb) && results[Hbd] == IntValue(m.hbd)
            && results[Hba] == IntValue(m.hba) && results[Sasa] == RealValue(m.sasa)
            && results[Qed] == RealValue(m.qed)
  {
    forall k | k in DESCRIPTOR_KEYS ensures Computed(fields, pki, m, power)[k] == Described(fields, pki, m)[k] {
      ComputedKeeps(fields, pki, m, power, k);
    }
  }

  /** The four efficiency metrics: all None without an affinity, the formulas' values with one. */
  lemma ComputedEfficiency(fields: VinaLog.LogFields, pki: Option<real>, m: Efficiency.LigandMetrics,
                           power: Efficiency.HeavyAtomPower)
    ensures var results := Computed(fields, pki, m, power);
            && results[Le] == RealValue(Efficiency.LigandEfficiency(fields.affinity, m))
            && results[Lle] == (if fields.affinity.None? then Null else RealValue(Efficiency.LipophilicEfficiency(pki, m)))
            && results[SileN] == RealValue(Efficiency.SizeIndependentEfficiency(fields.affinity, m, power))
            && results[SileSasa] == (if fields.affinity.None? then Null else RealValue(Efficiency.SurfaceEfficiency(pki, m)))
  {
    if fields.affinity.None? {
      var d := Described(fields, pki, m);
      forall k | k in EFFICIENCY_KEYS ensures d[k] == Null {
        MetricsKeep(InitialResults(fields)[PKi := RealValue(pki)], m, k);
      }
    }
  }

  /** The log's fields are reported whether or not anything else is computed. */
  lemma LogFieldsReported(fields: VinaLog.LogFields, dirs: seq<string>, env: Environment)
    ensures var results := ResultsOf(fields, dirs, env);
            results[Receptor] == StrValue(fields.receptor) && results[Ligand] == StrValue(fields.ligand) &&
            results[Affinity] == RealValue(fields.affinity)
  {
    if Truthy(fields.receptor) && Truthy(fields.ligand) {
      ComputedNames(fields, Efficiency.CalculatePKi(fields.affinity, env.pKiOf),
                    LigandMetricsFor(env, dirs, fields.ligand.value), env.power);
    }
  }

  /** Unless both names are non-empty, nothing but the log's three fields is filled in. */
  lemma NamesGateMetrics(fields: VinaLog.LogFields, dirs: seq<string>, env: Environment)
    requires !(Truthy(fields.receptor) && Truthy(fields.ligand))
    ensures forall k :: 3 <= k < |KEYS| ==> ResultsOf(fields, dirs, env)[KEYS[k]] == Null
  {
  }

  /** With both names, the pKi is that of the affinity, or None without one. */
  lemma PKiReported(fields: VinaLog.LogFields, dirs: seq<string>, env: Environment)
    requires Truthy(fields.receptor) && Truthy(fields.ligand)
    ensures ResultsOf(fields, dirs, env)[PKi] ==
            if fields.affinity.None? then Null else RealValue(env.pKiOf(fields.affinity.value))
  {
    ComputedNames(fields, Efficiency.CalculatePKi(fields.affinity, env.pKiOf),
                   LigandMetricsFor(env, dirs, fields.ligand.value), env.power);
  }

  /** With both names, the descriptors reported are those of the ligand file found and loaded. */
  lemma MetricsOfFoundFile(fields: VinaLog.LogFields, dirs: seq<string>, env: Environment)
    requires Truthy(fields.receptor) && Truthy(fields.ligand)
    ensures var m := LigandMetricsFor(env, dirs, fields.ligand.value);
            var results := ResultsOf(fields, dirs, env);
            && results[Mw] == RealValue(m.mw) && results[LogP] == RealValue(m.logP)
            && results[Tpsa] == RealValue(m.tpsa) && results[Nha] == IntValue(m.nha)
            && results[Nrb] == IntValue(m.nrb) && results[Hbd] == IntValue(m.hbd)
            && results[Hba] == IntValue(m.hba) && results[Sasa] == RealValue(m.sasa)
            && results[Qed] == RealValue(m.qed)
  {
    ComputedDescriptors(fields, Efficiency.CalculatePKi(fields.affinity, env.pKiOf),
                   LigandMetricsFor(env, dirs, fields.ligand.value), env.power);
  }

  /** Without an affinity, the four efficiency metrics stay None. */
  lemma AffinityGatesEfficiency(fields: VinaLog.LogFields, dirs: seq<string>, env: Environment)
    requires fields.affinity.None?
    ensures forall k :: k in EFFICIENCY_KEYS ==> ResultsOf(fields, dirs, env)[k] == Null
  {
    if Truthy(fields.receptor) && Truthy(fields.ligand) {
      ComputedEfficiency(fields, Efficiency.CalculatePKi(fields.affinity, env.pKiOf),
                         LigandMetricsFor(env, dirs, fields.ligand.value), env.power);
    }
  }

  /** With both names and an affinity, the four metrics are those the formulas give. */
  lemma EfficiencyReported(fields: VinaLog.LogFields, dirs: seq<string>, env: Environment)
    requires Truthy(fields.receptor) && Truthy(fields.ligand) && fields.affinity.Some?
    ensures var pki := env.pKiOf(fields.affinity.value);
            var m := LigandMetricsFor(env, dirs, fields.ligand.value);
            var results := ResultsOf(fields, dirs, env);
            && results[Le] == RealValue(Efficiency.LigandEfficiency(fields.affinity, m))
            && results[Lle] == RealValue(Efficiency.LipophilicEfficiency(pki, m))
            && results[SileN] == RealValue(Efficiency.SizeIndependentEfficiency(fields.affinity, m, env.power))
            && results[SileSasa] == RealValue(Efficiency.SurfaceEfficiency(pki, m))
  {
    ComputedEfficiency(fields, Efficiency.CalculatePKi(fields.affinity, env.pKiOf),
                       LigandMetricsFor(env, dirs, fields.ligand.value), env.power);
  }

  /** With both names and an affinity, LE is `-affinity / NHA` whenever NHA is positive. */
  lemma LigandEfficiencyReported(fields: VinaLog.LogFields, dirs: seq<string>, env: Environment)
    requires Truthy(fields.receptor) && Truthy(fields.ligand) && fields.affinity.Some?
    requires Efficiency.HasHeavyAtoms(LigandMetricsFor(env, dirs, fields.ligand.value))
    ensures var n := LigandMetricsFor(env, dirs, fields.ligand.value).nha.value;
            ResultsOf(fields, dirs, env)[Le] == Float(-fields.affinity.value / n as real)
  {
    EfficiencyReported(fields, dirs, env);
  }

  /** Without a ligand file, no descriptor, LE or SILE_N is reported. */
  lemma NoLigandFileNoDescriptors(fields: VinaLog.LogFields, dirs: seq<string>, env: Environment)
    requires fields.ligand.Some?
    requires LigandFiles.LigandFileIn(env.existing, dirs, fields.ligand.value).None?
    ensures var results := ResultsOf(fields, dirs, env);
            (forall k :: k in DESCRIPTOR_KEYS ==> results[k] == Null) && results[Le] == Null && results[SileN] == Null
  {
    if Truthy(fields.receptor) && Truthy(fields.ligand) {
      var pki := Efficiency.CalculatePKi(fields.affinity, env.pKiOf);
      assert LigandMetricsFor(env, dirs, fields.ligand.value) == Efficiency.NO_METRICS;
      ComputedDescriptors(fields, pki, Efficiency.NO_METRICS, env.power);
      ComputedEfficiency(fields, pki, Efficiency.NO_METRICS, env.power);
    }
  }
}
