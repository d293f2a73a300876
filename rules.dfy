/** The constant tables of the feature engineer and the row-level rules built
    on them: the TBG default by (age band, sex), the diagnostic code to class
    mapping, and the predicate the row-dropping pass uses. */
module Rules {
  import opened Values

  /** The boolean flag columns the first pass removes. */
  const MeasuredFlags: set<string> :=
    {"TSH_measured", "T3_measured", "TT4_measured", "T4U_measured", "FTI_measured", "TBG_measured"}

  /** The five lab columns that must be present for a row to be kept with
      class "No Condition". */
  const Labs: seq<string> := ["TSH", "T3", "TT4", "T4U", "FTI"]

  const NoCondition: string := "No Condition"

  /** None of the other columns the passes use is a flag column. */
  lemma NotFlags()
    ensures forall c :: c in {"sex", "TBG", "age", "target", "class", "patient_id", "Patient_ID"} ==> c !in MeasuredFlags
    ensures forall c :: c in Labs ==> c !in MeasuredFlags
  {
    forall g | g in MeasuredFlags ensures |g| >= 11 {
      assert g == "TSH_measured" || g == "T3_measured" || g == "TT4_measured" ||
             g == "T4U_measured" || g == "FTI_measured" || g == "TBG_measured";
    }
  }

  // ---------------------------------------------------------------------------
  // TBG defaults

  /** One entry `(low, high, sex): value` of the replacement table. */
  datatype Band = Band(low: int, high: int, sex: string, value: real)

  /** The replacement table, in the order the source's dictionary iterates. */
  const ReplacementValues: seq<Band> := [
    Band(1, 9, "M", 3.75), Band(1, 9, "F", 3.75),
    Band(10, 19, "M", 3.35), Band(10, 19, "F", 3.35),
    Band(20, 100, "M", 1.85), Band(20, 100, "F", 2.2)
  ]

  /** `low <= age <= high and sex == g`: both bounds inclusive. */
  predicate Matches(b: Band, age: real, sex: Cell): (m: bool)
    ensures m ==> b.low as real <= age <= b.high as real
    ensures sex.None? || sex.value.Num? ==> !m
  {
    b.low as real <= age <= b.high as real && sex == Some(Str(b.sex))
  }

  /** Both bounds of a band are inclusive, an age just outside them does
      not match, and the sex must be the band's own. */
  lemma MatchesBounds(b: Band, sex: string, other: Cell)
    requires b.low <= b.high && other != Some(Str(b.sex))
    ensures Matches(b, b.low as real, Some(Str(sex))) <==> sex == b.sex
    ensures Matches(b, b.high as real, Some(Str(sex))) <==> sex == b.sex
    ensures !Matches(b, b.low as real - 0.5, Some(Str(b.sex))) && !Matches(b, b.high as real + 0.5, Some(Str(b.sex)))
    ensures forall age :: !Matches(b, age, other)
  {
  }

  /** The loop over the table: the value of the first matching band. */
  function Lookup(bands: seq<Band>, age: real, sex: Cell): (r: Option<real>)
    ensures r.Some? ==> exists k :: 0 <= k < |bands| && Matches(bands[k], age, sex) && bands[k].value == r.value
    ensures r.None? <==> forall k :: 0 <= k < |bands| ==> !Matches(bands[k], age, sex)
  {
    if bands == [] then None
    else if Matches(bands[0], age, sex) then Some(bands[0].value)
    else
      var r := Lookup(bands[1..], age, sex);
      assert forall k :: 1 <= k < |bands| ==> bands[k] == bands[1..][k - 1];
      r
  }

  /** No two bands for the same sex share an age. */
  ghost predicate Disjoint(bands: seq<Band>)
  {
    forall j, k :: 0 <= j < k < |bands| && bands[j].sex == bands[k].sex ==>
      bands[j].high < bands[k].low || bands[k].high < bands[j].low
  }

  lemma ReplacementValuesDisjoint()
    ensures Disjoint(ReplacementValues)
  {
  }

  /** Over disjoint bands, whichever band matches is the one whose value the
      lookup returns. */
  lemma LookupAnyMatch(bands: seq<Band>, age: real, sex: Cell, k: nat)
    requires Disjoint(bands) && k < |bands| && Matches(bands[k], age, sex)
    ensures Lookup(bands, age, sex) == Some(bands[k].value)
  {
    var r := Lookup(bands, age, sex);
    var k' :| 0 <= k' < |bands| && Matches(bands[k'], age, sex) && bands[k'].value == r.value;
    if k' != k {
      assert bands[k].sex == bands[k'].sex;
    }
  }

  /** The lookup over disjoint bands does not depend on the order in which
      the bands are tried. */
  lemma LookupOrderFree(b1: seq<Band>, b2: seq<Band>, age: real, sex: Cell)
    requires Disjoint(b1) && Disjoint(b2)
    requires forall b :: b in b1 <==> b in b2
    ensures Lookup(b1, age, sex) == Lookup(b2, age, sex)
  {
    var r1 := Lookup(b1, age, sex);
    if r1.Some? {
      var k :| 0 <= k < |b1| && Matches(b1[k], age, sex) && b1[k].value == r1.value;
      assert b1[k] in b2;
      var k' :| 0 <= k' < |b2| && b2[k'] == b1[k];
      LookupAnyMatch(b2, age, sex, k');
    } else {
      forall k' | 0 <= k' < |b2| ensures !Matches(b2[k'], age, sex) {
        assert b2[k'] in b1;
        var k :| 0 <= k < |b1| && b1[k] == b2[k'];
      }
    }
  }

  /** The replacement table, read as a decision: ages 1-9 get 3.75 and
      10-19 get 3.35 for both sexes, 20-100 get 1.85 (M) or 2.2 (F); any
      other age or sex gets nothing. */
  lemma {:induction false} TbgDefaults(age: real, sex: Cell)
    ensures Lookup(ReplacementValues, age, sex) ==
      if sex != Some(Str("M")) && sex != Some(Str("F")) then None
      else if 1.0 <= age <= 9.0 then Some(3.75)
      else if 10.0 <= age <= 19.0 then Some(3.35)
      else if 20.0 <= age <= 100.0 then Some(if sex == Some(Str("M")) then 1.85 else 2.2)
      else None
  {
    var t := ReplacementValues;
    ReplacementValuesDisjoint();
    var m, f := sex == Some(Str("M")), sex == Some(Str("F"));
    if m && 1.0 <= age <= 9.0 { LookupAnyMatch(t, age, sex, 0); }
    else if f && 1.0 <= age <= 9.0 { LookupAnyMatch(t, age, sex, 1); }
    else if m && 10.0 <= age <= 19.0 { LookupAnyMatch(t, age, sex, 2); }
    else if f && 10.0 <= age <= 19.0 { LookupAnyMatch(t, age, sex, 3); }
    else if m && 20.0 <= age <= 100.0 { LookupAnyMatch(t, age, sex, 4); }
    else if f && 20.0 <= age <= 100.0 { LookupAnyMatch(t, age, sex, 5); }
    else {
      forall k | 0 <= k < |t| ensures !Matches(t[k], age, sex) {
        assert k == 0 || k == 1 || k == 2 || k == 3 || k == 4 || k == 5;
      }
    }
  }

  /** The inner `replace(row)`: `tbg`, `age` and `sex` are the row's cells,
      with None for a column the table lacks (`row['age']` raises KeyError);
      `position` names the row in a TypeError. A missing age compares false
      with every bound, so the TBG stays missing; a string age cannot be
      compared with an int bound. */
  function ReplaceRow(tbg: Cell, age: Option<Cell>, sex: Option<Cell>, position: nat): (r: Result<Cell, Error>)
    ensures tbg.Some? ==> r == Ok(tbg)
    ensures r.Ok? && r.value.Some? && tbg.None? ==>
      exists k :: 0 <= k < |ReplacementValues| &&
        age.Some? && age.value.Some? && age.value.value.Num? && sex.Some? &&
        Matches(ReplacementValues[k], age.value.value.x, sex.value) &&
        r.value == Some(Num(ReplacementValues[k].value))
    ensures tbg.None? && age.None? ==> r == Err(MissingColumn("age"))
    ensures tbg.None? && age.Some? && sex.None? ==> r == Err(MissingColumn("sex"))
    ensures tbg.None? && age.Some? && sex.Some? && age.value.None? ==> r == Ok(None)
    ensures tbg.None? && age.Some? && sex.Some? && age.value.Some? && age.value.value.Str? ==>
      r == Err(IncomparableAge(position))
  {
    if tbg.Some? then Ok(tbg)
    else if age.None? then Err(MissingColumn("age"))
    else if sex.None? then Err(MissingColumn("sex"))
    else
      match age.value
      case None => Ok(None)
      case Some(Str(_)) => Err(IncomparableAge(position))
      case Some(Num(a)) =>
        match Lookup(ReplacementValues, a, sex.value)
        case None => Ok(None)
        case Some(v) => Ok(Some(Num(v)))
  }

  /** A missing TBG of a row with a numeric age receives the value of a band
      that contains the age (inclusively) and has the row's sex, and stays
      missing when no band does. */
  lemma ReplaceRowFromBand(age: real, sex: Cell, position: nat, v: real)
    ensures ReplaceRow(None, Some(Some(Num(age))), Some(sex), position) == Ok(Some(Num(v))) <==>
      exists k :: 0 <= k < |ReplacementValues| && Matches(ReplacementValues[k], age, sex) && ReplacementValues[k].value == v
    ensures ReplaceRow(None, Some(Some(Num(age))), Some(sex), position) == Ok(None) <==>
      forall k :: 0 <= k < |ReplacementValues| ==> !Matches(ReplacementValues[k], age, sex)
  {
    ReplacementValuesDisjoint();
    if exists k :: 0 <= k < |ReplacementValues| && Matches(ReplacementValues[k], age, sex) && ReplacementValues[k].value == v {
      var k :| 0 <= k < |ReplacementValues| && Matches(ReplacementValues[k], age, sex) && ReplacementValues[k].value == v;
      LookupAnyMatch(ReplacementValues, age, sex, k);
    }
  }

  // ---------------------------------------------------------------------------
  // Diagnostic code -> class

  /** The seven coarse classes. */
  const ClassNames: set<string> := {
    "Hyperthyroid", "Hypothyroid", "Binding Protein", "General Health",
    "Replacement Therapy", "Miscellaneous", "No Condition"
  }

  const TargetMapping: map<string, string> := map[
    "A" := "Hyperthyroid", "B" := "Hyperthyroid", "C" := "Hyperthyroid", "D" := "Hyperthyroid",
    "AK" := "Hyperthyroid",
    "E" := "Hypothyroid", "F" := "Hypothyroid", "G" := "Hypothyroid", "H" := "Hypothyroid",
    "GK" := "Hypothyroid", "GI" := "Hypothyroid", "FK" := "Hypothyroid", "GKJ" := "Hypothyroid",
    "I" := "Binding Protein", "J" := "Binding Protein", "C|I" := "Binding Protein",
    "K" := "General Health", "KJ" := "General Health", "H|K" := "General Health",
    "M" := "Replacement Therapy", "L" := "Replacement Therapy", "N" := "Replacement Therapy",
    "MK" := "Replacement Therapy", "MI" := "Replacement Therapy", "LJ" := "Replacement Therapy",
    "O" := "Miscellaneous", "P" := "Miscellaneous", "Q" := "Miscellaneous", "OI" := "Miscellaneous",
    "R" := "Miscellaneous", "S" := "Miscellaneous", "T" := "Miscellaneous", "D|R" := "Miscellaneous",
    "-" := NoCondition
  ]

  /** Every class is reached by some code, and every code reaches a class. */
  lemma MappingOntoClasses()
    ensures TargetMapping.Values == ClassNames
  {
    assert TargetMapping["A"] == "Hyperthyroid" && TargetMapping["E"] == "Hypothyroid";
    assert TargetMapping["I"] == "Binding Protein" && TargetMapping["K"] == "General Health";
    assert TargetMapping["M"] == "Replacement Therapy" && TargetMapping["O"] == "Miscellaneous";
    assert TargetMapping["-"] == NoCondition;
  }

  /** `Series.map(target_mapping)` on one cell: a known code gives its class,
      anything else (an unknown code, a number, a missing cell) gives a
      missing cell. */
  function MapCode(code: Cell): (r: Cell)
    ensures r.Some? <==> code.Some? && code.value.Str? && code.value.s in TargetMapping
    ensures r.Some? ==> r == Some(Str(TargetMapping[code.value.s])) && r.value.s in ClassNames
  {
    MappingOntoClasses();
    match code
    case Some(Str(k)) => if k in TargetMapping then Some(Str(TargetMapping[k])) else None
    case _ => None
  }

  /** A few codes through the mapping: single letters, a compound code, the
      healthy code, and codes the mapping does not know. */
  lemma MapCodeExamples()
    ensures MapCode(Some(Str("A"))) == Some(Str("Hyperthyroid"))
    ensures MapCode(Some(Str("GKJ"))) == Some(Str("Hypothyroid"))
    ensures MapCode(Some(Str("C|I"))) == Some(Str("Binding Protein"))
    ensures MapCode(Some(Str("-"))) == Some(Str(NoCondition))
    ensures MapCode(Some(Str("Z"))) == None && MapCode(Some(Num(1.0))) == None && MapCode(None) == None
  {
    assert "Z" !in TargetMapping by {
      forall k | k in TargetMapping ensures k != "Z" {
        assert k[0] != 'Z';
      }
    }
  }

  // ---------------------------------------------------------------------------
  // The row-dropping condition

  /** Some lab value is missing and the class is "No Condition"; a missing
      class never compares equal. */
  predicate DropsRow(labs: seq<Cell>, cls: Cell)
  {
    (exists i :: 0 <= i < |labs| && labs[i].None?) && cls == Some(Str(NoCondition))
  }
}
