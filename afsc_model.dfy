/** The AFSC entity: the `AFSC` class of modules/models/Afsc.js and its
    `fromCSV` column mapping. */
module AfscModel {
  import opened Dicts

  /** A `{ min, max }` pair. */
  datatype Bounds = Bounds(min: real, max: real)

  /** The seven fields an `AFSC` object carries. All numbers are JavaScript numbers. */
  datatype Afsc = Afsc(
    afsc: string,
    target: real,
    overclassFactor: real,
    mandatoryDegreeBounds: Bounds,
    usaCadetBounds: Bounds,
    meritBounds: Bounds,
    weightedDistribution: real)

  /** `new AFSC(afsc, target, overclassFactor, mandatoryDegreeBounds, usaCadetBounds, meritBounds)`:
      the six arguments are stored unchanged and the weight starts at 0. */
  function NewAfsc(afsc: string, target: real, overclassFactor: real,
                   mandatoryDegreeBounds: Bounds, usaCadetBounds: Bounds, meritBounds: Bounds): (a: Afsc)
    ensures a.afsc == afsc && a.target == target && a.overclassFactor == overclassFactor
    ensures a.mandatoryDegreeBounds == mandatoryDegreeBounds
    ensures a.usaCadetBounds == usaCadetBounds && a.meritBounds == meritBounds
    ensures a.weightedDistribution == 0.0
  {
    Afsc(afsc, target, overclassFactor, mandatoryDegreeBounds, usaCadetBounds, meritBounds, 0.0)
  }

  /** The nine columns `fromCSV` reads into the six constructor arguments are all among `keys`. */
  predicate ColumnsIn(keys: seq<string>) {
    && "afsc" in keys && "target" in keys && "overclass_factor" in keys
    && "mandatory_education_min" in keys && "mandatory_education_max" in keys
    && "usafa_bound_min" in keys && "usafa_bound_max" in keys
    && "merit_bound_min" in keys && "merit_bound_max" in keys
  }

  /** The column `fromCSV` reads into its seventh argument. */
  const WeightColumn: string := "weighted_distribution"

  predicate HasColumns(row: Dict<string>) {
    ColumnsIn(Keys(row))
  }

  function Column(row: Dict<string>, c: string): string
    requires c in Keys(row)
  {
    Get(row, c).value
  }

  /** `AFSC.fromCSV(row)`. `parseInt` and `parseFloat` stand for JavaScript's
      number parsing. The call passes a seventh argument, the parsed
      `weighted_distribution` column (or 0), which the six-parameter
      constructor never binds; it is therefore not computed here. */
  function FromCsv(row: Dict<string>, parseInt: string -> real, parseFloat: string -> real): (a: Afsc)
    requires HasColumns(row)
    ensures a.afsc == Column(row, "afsc")
    ensures a.target == parseInt(Column(row, "target"))
    ensures a.overclassFactor == parseFloat(Column(row, "overclass_factor"))
    ensures a.mandatoryDegreeBounds
            == Bounds(parseFloat(Column(row, "mandatory_education_min")), parseFloat(Column(row, "mandatory_education_max")))
    ensures a.usaCadetBounds
            == Bounds(parseFloat(Column(row, "usafa_bound_min")), parseFloat(Column(row, "usafa_bound_max")))
    ensures a.meritBounds
            == Bounds(parseFloat(Column(row, "merit_bound_min")), parseFloat(Column(row, "merit_bound_max")))
    ensures a.weightedDistribution == 0.0
  {
    NewAfsc(
      Column(row, "afsc"),
      parseInt(Column(row, "target")),
      parseFloat(Column(row, "overclass_factor")),
      Bounds(parseFloat(Column(row, "mandatory_education_min")), parseFloat(Column(row, "mandatory_education_max"))),
      Bounds(parseFloat(Column(row, "usafa_bound_min")), parseFloat(Column(row, "usafa_bound_max"))),
      Bounds(parseFloat(Column(row, "merit_bound_min")), parseFloat(Column(row, "merit_bound_max"))))
  }

  /** Whatever the `weighted_distribution` column holds, the imported weight is the same. */
  lemma ImportIgnoresWeightColumn(row: Dict<string>, text: string, parseInt: string -> real, parseFloat: string -> real)
    requires HasColumns(row)
    ensures HasColumns(Put(row, WeightColumn, text))
    ensures FromCsv(Put(row, WeightColumn, text), parseInt, parseFloat) == FromCsv(row, parseInt, parseFloat)
  {
    var row' := Put(row, WeightColumn, text);
    PutKeys(row, WeightColumn, text);
    var a, b := FromCsv(row', parseInt, parseFloat), FromCsv(row, parseInt, parseFloat);
    OtherColumnKept(row, text, "afsc");
    OtherColumnKept(row, text, "target");
    OtherColumnKept(row, text, "overclass_factor");
    OtherColumnKept(row, text, "mandatory_education_min");
    OtherColumnKept(row, text, "mandatory_education_max");
    OtherColumnKept(row, text, "usafa_bound_min");
    OtherColumnKept(row, text, "usafa_bound_max");
    OtherColumnKept(row, text, "merit_bound_min");
    OtherColumnKept(row, text, "merit_bound_max");
  }

  lemma OtherColumnKept(row: Dict<string>, text: string, c: string)
    requires c != WeightColumn && c in Keys(row)
    ensures c in Keys(Put(row, WeightColumn, text))
    ensures Column(Put(row, WeightColumn, text), c) == Column(row, c)
  {
    PutKeys(row, WeightColumn, text);
    PutGet(row, WeightColumn, text);
  }
}
