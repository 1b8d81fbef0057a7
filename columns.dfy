/**
 * The columns of the output row: the keys of the results dictionary, the
 * header names and the mapping from one to the other.
 */
module Columns {
  import opened Wrappers
  import opened Text

  /** A value of the results dictionary: None, a string, an int or a float. */
  datatype Value = Null | Str(s: string) | Whole(i: int) | Float(x: real)

  /** The keys of the results dictionary. */
  datatype Key =
    | Receptor | Ligand | Affinity | PKi | Mw | LogP | Tpsa | Nha | Nrb
    | Hbd | Hba | Sasa | Qed | Le | Lle | SileN | SileSasa

  /** The text of each key, as the dictionary spells it. */
  function Name(k: Key): string {
    match k
    case Receptor => "Receptor" case Ligand => "Ligand" case Affinity => "Affinity"
    case PKi => "pKi" case Mw => "MW" case LogP => "LogP" case Tpsa => "TPSA"
    case Nha => "NHA" case Nrb => "NRB" case Hbd => "HBD" case Hba => "HBA"
    case Sasa => "SASA" case Qed => "QED" case Le => "LE" case Lle => "LLE"
    case SileN => "SILE_N" case SileSasa => "SILE_SASA"
  }

  /** The key a text spells, if any: what `results.get(text)` looks under. */
  function KeyNamed(text: string): (r: Option<Key>)
    ensures r.Some? ==> Name(r.value) == text
  {
    if text == "Receptor" then Some(Receptor) else if text == "Ligand" then Some(Ligand)
    else if text == "Affinity" then Some(Affinity) else if text == "pKi" then Some(PKi)
    else if text == "MW" then Some(Mw) else if text == "LogP" then Some(LogP)
    else if text == "TPSA" then Some(Tpsa) else if text == "NHA" then Some(Nha)
    else if text == "NRB" then Some(Nrb) else if text == "HBD" then Some(Hbd)
    else if text == "HBA" then Some(Hba) else if text == "SASA" then Some(Sasa)
    else if text == "QED" then Some(Qed) else if text == "LE" then Some(Le)
    else if text == "LLE" then Some(Lle) else if text == "SILE_N" then Some(SileN)
    else if text == "SILE_SASA" then Some(SileSasa) else None
  }

  /** The keys of the results dictionary, in the order of the header. */
  const KEYS: seq<Key> :=
    [Receptor, Ligand, Affinity, PKi, Mw, LogP, Tpsa, Nha, Nrb, Hbd, Hba, Sasa, Qed, Le, Lle, SileN, SileSasa]

  /** The column names of the output row. */
  const HEADER: seq<string> :=
    ["Receptor", "Ligand", "Affinity_kcal_mol", "pKi", "MW", "LogP", "TPSA", "NHA", "NRB",
     "HBD", "HBA", "SASA_A2", "QED", "LE", "LLE", "SILE_N", "SILE_SASA"]

  /** The position of a key's column in the header. */
  function Position(k: Key): (i: nat)
    ensures i < |KEYS| && KEYS[i] == k
  {
    match k
    case Receptor => 0 case Ligand => 1 case Affinity => 2 case PKi => 3 case Mw => 4 case LogP => 5
    case Tpsa => 6 case Nha => 7 case Nrb => 8 case Hbd => 9 case Hba => 10 case Sasa => 11
    case Qed => 12 case Le => 13 case Lle => 14 case SileN => 15 case SileSasa => 16
  }

  /** The header name of a key's column. */
  function Column(k: Key): (column: string)
    ensures column == HEADER[Position(k)]
  {
    match k
    case Affinity => "Affinity_kcal_mol" case Sasa => "SASA_A2" case _ => Name(k)
  }

  const KCAL_SUFFIX: string := "_kcal_mol"
  const AREA_SUFFIX: string := "_A2"

  /** `key.replace('_kcal_mol', '').replace('_A2', '')` */
  function InternalKey(key: string): string {
    ReplaceAll(ReplaceAll(key, KCAL_SUFFIX, ""), AREA_SUFFIX, "")
  }

  /** A key whose only '_' (if any) at `j` starts neither suffix is its own internal key. */
  lemma KeyWithoutSuffix(key: string, j: nat)
    requires forall q :: 0 <= q < |key| && q != j ==> key[q] != '_'
    requires !At(key, j, KCAL_SUFFIX) && !At(key, j, AREA_SUFFIX)
    ensures InternalKey(key) == key
  {
    OccurrenceOnlyAt(key, KCAL_SUFFIX, j);
    ReplaceAllAbsent(key, KCAL_SUFFIX, "");
    OccurrenceOnlyAt(key, AREA_SUFFIX, j);
    ReplaceAllAbsent(key, AREA_SUFFIX, "");
  }

  /** A suffix put after a key without '_' is deleted, and nothing else. */
  lemma SuffixDeleted(stem: string, suffix: string)
    requires suffix == KCAL_SUFFIX || suffix == AREA_SUFFIX
    requires forall q :: 0 <= q < |stem| ==> stem[q] != '_'
    ensures InternalKey(stem + suffix) == stem
  {
    assert KCAL_SUFFIX[0] == '_' && AREA_SUFFIX[0] == '_';
    assert stem + "" == stem;
    OccurrenceOnlyAt(stem, KCAL_SUFFIX, |stem|);
    ReplaceAllAbsent(stem, KCAL_SUFFIX, "");
    OccurrenceOnlyAt(stem, AREA_SUFFIX, |stem|);
    ReplaceAllAbsent(stem, AREA_SUFFIX, "");
    if suffix == KCAL_SUFFIX {
      ReplaceAllAfterStem(stem, KCAL_SUFFIX, "");
    } else {
      OccurrenceOnlyAt(stem + suffix, KCAL_SUFFIX, |stem|);
      ReplaceAllAbsent(stem + suffix, KCAL_SUFFIX, "");
      ReplaceAllAfterStem(stem, AREA_SUFFIX, "");
    }
  }

  /** Column `i` is looked up under the dictionary key at position `i`. */
  lemma ColumnKey(i: nat)
    requires i < |HEADER|
    ensures InternalKey(HEADER[i]) == Name(KEYS[i])
  {
    if i < 3 {
      NameColumns(i);
    } else if i < 6 {
      DescriptorColumnsA(i);
    } else if i < 9 {
      DescriptorColumnsB(i);
    } else if i < 12 {
      DescriptorColumnsC(i);
    } else if i < 15 {
      EfficiencyColumnsA(i);
    } else {
      EfficiencyColumnsB(i);
    }
  }

  /** The two names and the affinity. */
  lemma NameColumns(i: nat)
    requires 0 <= i < 3
    ensures InternalKey(HEADER[i]) == Name(KEYS[i])
  {
    if i == 0 {
      assert HEADER[0] == Name(KEYS[0]) == "Receptor";
      KeyWithoutSuffix("Receptor", 8);
    } else if i == 1 {
      assert HEADER[1] == Name(KEYS[1]) == "Ligand";
      KeyWithoutSuffix("Ligand", 6);
    } else {
      assert HEADER[2] == "Affinity" + KCAL_SUFFIX;
      SuffixDeleted("Affinity", KCAL_SUFFIX);
    }
  }

  /** The pKi, MW and LogP. */
  lemma DescriptorColumnsA(i: nat)
    requires 3 <= i < 6
    ensures InternalKey(HEADER[i]) == Name(KEYS[i])
  {
    if i == 3 {
      KeyWithoutSuffix("pKi", 3);
    } else if i == 4 {
      KeyWithoutSuffix("MW", 2);
    } else {
      KeyWithoutSuffix("LogP", 4);
    }
  }

  /** TPSA and the atom counts. */
  lemma DescriptorColumnsB(i: nat)
    requires 6 <= i < 9
    ensures InternalKey(HEADER[i]) == Name(KEYS[i])
  {
    if i == 6 {
      KeyWithoutSuffix("TPSA", 4);
    } else if i == 7 {
      KeyWithoutSuffix("NHA", 3);
    } else {
      KeyWithoutSuffix("NRB", 3);
    }
  }

  /** HBD, HBA and SASA. */
  lemma DescriptorColumnsC(i: nat)
    requires 9 <= i < 12
    ensures InternalKey(HEADER[i]) == Name(KEYS[i])
  {
    if i == 9 {
      KeyWithoutSuffix("HBD", 3);
    } else if i == 10 {
      KeyWithoutSuffix("HBA", 3);
    } else {
      assert HEADER[11] == "SASA" + AREA_SUFFIX;
      SuffixDeleted("SASA", AREA_SUFFIX);
    }
  }

  /** QED, LE and LLE. */
  lemma EfficiencyColumnsA(i: nat)
    requires 12 <= i < 15
    ensures InternalKey(HEADER[i]) == Name(KEYS[i])
  {
    if i == 12 {
      KeyWithoutSuffix("QED", 3);
    } else if i == 13 {
      KeyWithoutSuffix("LE", 2);
    } else {
      KeyWithoutSuffix("LLE", 3);
    }
  }

  /** SILE_N and SILE_SASA. */
  lemma EfficiencyColumnsB(i: nat)
    requires 15 <= i < 17
    ensures InternalKey(HEADER[i]) == Name(KEYS[i])
  {
    if i == 15 {
      KeyWithoutSuffix("SILE_N", 4);
    } else {
      assert "SILE_SASA"[4..7][1] == 'S' != AREA_SUFFIX[1];
      KeyWithoutSuffix("SILE_SASA", 4);
    }
  }

  /** Every column is looked up under the dictionary key of the same position. */
  lemma HeaderKeys()
    ensures |HEADER| == |KEYS|
    ensures forall i :: 0 <= i < |HEADER| ==> InternalKey(HEADER[i]) == Name(KEYS[i])
  {
    forall i | 0 <= i < |HEADER| ensures InternalKey(HEADER[i]) == Name(KEYS[i]) {
      ColumnKey(i);
    }
  }

  /** Every key is found again under its own name. */
  lemma KeyNamedName(k: Key)
    ensures KeyNamed(Name(k)) == Some(k)
  {
  }
}
