/** src/app/afsc-editor.js: the AFSC table's handlers. Each handler is a
    function from the old AFSC list to the new one (the `setAfscs` call that
    stores it is not modelled). */
module AfscEditor {
  import opened Strings
  import opened Dicts
  import opened AfscModel
  import opened Pagination

  // ---------------------------------------------------------------------------
  // updateAFSCValue

  /** A JavaScript number as an input event delivers it: `parseFloat` and
      `parseInt` may give `NaN`. */
  datatype JsNumber = Num(x: real) | NaN

  /** What a cell passes as `value`: the text of the code cell, or a number. */
  datatype CellValue = CellText(text: string) | CellNumber(number: JsNumber)

  /** The ten cells of a table row, in column order. */
  datatype Field =
    | Code | Target | OverclassFactor
    | MandatoryMin | MandatoryMax | UsafaMin | UsafaMax | MeritMin | MeritMax
    | WeightedDistribution

  /** The `key` each cell passes to `updateAFSCValue`. */
  function FieldKey(f: Field): string {
    match f
    case Code => "afsc"
    case Target => "target"
    case OverclassFactor => "overclassFactor"
    case MandatoryMin => "mandatoryDegreeBounds.min"
    case MandatoryMax => "mandatoryDegreeBounds.max"
    case UsafaMin => "usaCadetBounds.min"
    case UsafaMax => "usaCadetBounds.max"
    case MeritMin => "meritBounds.min"
    case MeritMax => "meritBounds.max"
    case WeightedDistribution => "weightedDistribution"
  }

  /** The fields that live in a nested `{ min, max }` object. */
  predicate Nested(f: Field) {
    f.MandatoryMin? || f.MandatoryMax? || f.UsafaMin? || f.UsafaMax? || f.MeritMin? || f.MeritMax?
  }

  /** The property of the AFSC object that holds the bounds of a nested field. */
  function ParentKey(f: Field): string
    requires Nested(f)
  {
    if f.MandatoryMin? || f.MandatoryMax? then "mandatoryDegreeBounds"
    else if f.UsafaMin? || f.UsafaMax? then "usaCadetBounds"
    else "meritBounds"
  }

  /** The property of the bounds object a nested field writes. */
  function ChildKey(f: Field): string
    requires Nested(f)
  {
    if f.MandatoryMin? || f.UsafaMin? || f.MeritMin? then "min" else "max"
  }

  /** `key.includes(".")` is true exactly for the bound cells, and there
      `key.split(".")` names the bounds object and its property; every other
      cell writes a property of the AFSC itself. */
  lemma NestedKeySplits(f: Field)
    ensures '.' in FieldKey(f) <==> Nested(f)
    ensures Nested(f) ==> Split(FieldKey(f), '.') == [ParentKey(f), ChildKey(f)]
  {
    if Nested(f) {
      var p, c := ParentKey(f), ChildKey(f);
      assert FieldKey(f) == p + ['.'] + c;
      assert '.' !in p && '.' !in c;
      DottedKey(p, c);
    }
  }

  lemma DottedKey(p: string, c: string)
    requires '.' !in p && '.' !in c
    ensures '.' in p + ['.'] + c
    ensures Split(p + ['.'] + c, '.') == [p, c]
  {
    assert (p + ['.'] + c)[|p|] == '.';
    SplitAt(p, '.', c);
  }

  /** `if (isNaN(value) && key !== "afsc") value = 0`. The code cell passes
      text and its key is "afsc", so only a number cell's `NaN` is replaced. */
  function Sanitized(f: Field, value: CellValue): (v: CellValue)
    ensures f != Code && value == CellNumber(NaN) ==> v == CellNumber(Num(0.0))
    ensures f == Code || value != CellNumber(NaN) ==> v == value
  {
    if value == CellNumber(NaN) && FieldKey(f) != "afsc" then CellNumber(Num(0.0)) else value
  }

  /** The value a cell of `a` shows. */
  function FieldValue(a: Afsc, f: Field): CellValue {
    match f
    case Code => CellText(a.afsc)
    case Target => CellNumber(Num(a.target))
    case OverclassFactor => CellNumber(Num(a.overclassFactor))
    case MandatoryMin => CellNumber(Num(a.mandatoryDegreeBounds.min))
    case MandatoryMax => CellNumber(Num(a.mandatoryDegreeBounds.max))
    case UsafaMin => CellNumber(Num(a.usaCadetBounds.min))
    case UsafaMax => CellNumber(Num(a.usaCadetBounds.max))
    case MeritMin => CellNumber(Num(a.meritBounds.min))
    case MeritMax => CellNumber(Num(a.meritBounds.max))
    case WeightedDistribution => CellNumber(Num(a.weightedDistribution))
  }

  /** A value the field can hold: text for the code, a number (not `NaN`) for the rest. */
  predicate Fits(f: Field, v: CellValue) {
    if f == Code then v.CellText? else v.CellNumber? && v.number.Num?
  }

  /** `newAfscs[actualIndex][key] = value` or, for a bound,
      `newAfscs[actualIndex][parentKey][childKey] = value`. */
  function Assign(a: Afsc, f: Field, v: CellValue): Afsc
    requires Fits(f, v)
  {
    match f
    case Code => a.(afsc := v.text)
    case Target => a.(target := v.number.x)
    case OverclassFactor => a.(overclassFactor := v.number.x)
    case MandatoryMin => a.(mandatoryDegreeBounds := a.mandatoryDegreeBounds.(min := v.number.x))
    case MandatoryMax => a.(mandatoryDegreeBounds := a.mandatoryDegreeBounds.(max := v.number.x))
    case UsafaMin => a.(usaCadetBounds := a.usaCadetBounds.(min := v.number.x))
    case UsafaMax => a.(usaCadetBounds := a.usaCadetBounds.(max := v.number.x))
    case MeritMin => a.(meritBounds := a.meritBounds.(min := v.number.x))
    case MeritMax => a.(meritBounds := a.meritBounds.(max := v.number.x))
    case WeightedDistribution => a.(weightedDistribution := v.number.x)
  }

  /** After the assignment the cell shows the value written and every other
      cell of the row shows what it showed before. */
  lemma AssignReadsBack(a: Afsc, f: Field, v: CellValue, g: Field)
    requires Fits(f, v)
    ensures FieldValue(Assign(a, f, v), f) == v
    ensures g != f ==> FieldValue(Assign(a, f, v), g) == FieldValue(a, g)
  {
  }

  /** Assigning the value a cell already shows changes nothing. */
  lemma AssignShownValue(a: Afsc, f: Field)
    ensures Fits(f, FieldValue(a, f)) && Assign(a, f, FieldValue(a, f)) == a
  {
  }

  /** `updateAFSCValue(index, key, value)` called from row `row` of page
      `page`: the row's list position is `startIndex + index`. */
  function UpdateAfscValue(afscs: seq<Afsc>, page: nat, row: nat, f: Field, value: CellValue): (r: seq<Afsc>)
    requires page >= 1 && row < |PageSlice(afscs, page)|
    requires Fits(f, value) || value == CellNumber(NaN)
    requires f == Code <==> value.CellText?
  {
    RowPositionShown(afscs, page, row);
    var actualIndex := RowPosition(page, row);
    afscs[actualIndex := Assign(afscs[actualIndex], f, Sanitized(f, value))]
  }

  /** The edit lands on the AFSC the row shows: its cell now shows the value
      (0 for a `NaN`), its other cells and every other AFSC are unchanged. */
  lemma UpdateChangesShownCell(afscs: seq<Afsc>, page: nat, row: nat, f: Field, value: CellValue, g: Field)
    requires page >= 1 && row < |PageSlice(afscs, page)|
    requires Fits(f, value) || value == CellNumber(NaN)
    requires f == Code <==> value.CellText?
    ensures var r := UpdateAfscValue(afscs, page, row, f, value);
            var i := RowPosition(page, row);
            && |r| == |afscs| && i < |afscs| && afscs[i] == PageSlice(afscs, page)[row]
            && FieldValue(r[i], f) == (if value == CellNumber(NaN) then CellNumber(Num(0.0)) else value)
            && (g != f ==> FieldValue(r[i], g) == FieldValue(afscs[i], g))
            && (forall k :: 0 <= k < |afscs| && k != i ==> r[k] == afscs[k])
  {
    RowPositionShown(afscs, page, row);
    var i := RowPosition(page, row);
    AssignReadsBack(afscs[i], f, Sanitized(f, value), g);
  }

  // ---------------------------------------------------------------------------
  // deleteAFSC and addAFSC

  /** `afscs.filter((_, i) => i !== index)`. */
  function DeleteAfsc(afscs: seq<Afsc>, index: nat): seq<Afsc> {
    if afscs == [] then []
    else
      var last := |afscs| - 1;
      DeleteAfsc(afscs[..last], index) + if last != index then [afscs[last]] else []
  }

  /** The filter removes the one element at `index` and keeps the rest in
      order; an index past the end removes nothing. */
  lemma {:induction false} DeleteAfscSplices(afscs: seq<Afsc>, index: nat)
    ensures DeleteAfsc(afscs, index)
            == if index < |afscs| then afscs[..index] + afscs[index + 1..] else afscs
  {
    if afscs != [] {
      var last := |afscs| - 1;
      var init := afscs[..last];
      DeleteAfscSplices(init, index);
      assert afscs == init + [afscs[last]];
      if index < last {
        assert init[..index] == afscs[..index];
        assert init[index + 1..] + [afscs[last]] == afscs[index + 1..];
      } else if index == last {
        assert afscs[index + 1..] == [];
      }
    }
  }

  predicate DistinctAfscs(afscs: seq<Afsc>) {
    forall i, j :: 0 <= i < j < |afscs| ==> afscs[i] != afscs[j]
  }

  /** In a list of distinct AFSCs, the deleted one is gone and every other one stays. */
  lemma DeleteAfscRemoves(afscs: seq<Afsc>, index: nat)
    requires DistinctAfscs(afscs) && index < |afscs|
    ensures afscs[index] !in DeleteAfsc(afscs, index)
    ensures forall k :: 0 <= k < |afscs| && k != index ==> afscs[k] in DeleteAfsc(afscs, index)
  {
    DeleteAfscSplices(afscs, index);
    SpliceDropsOne(afscs, index);
    SpliceKeepsOthers(afscs, index);
  }

  lemma SpliceDropsOne(afscs: seq<Afsc>, index: nat)
    requires DistinctAfscs(afscs) && index < |afscs|
    ensures afscs[index] !in afscs[..index] + afscs[index + 1..]
  {
    var r := afscs[..index] + afscs[index + 1..];
    forall k | 0 <= k < |r| ensures r[k] != afscs[index] {
      if k >= index {
        assert r[k] == afscs[k + 1];
      }
    }
  }

  lemma SpliceKeepsOthers(afscs: seq<Afsc>, index: nat)
    requires index < |afscs|
    ensures forall k :: 0 <= k < |afscs| && k != index ==> afscs[k] in afscs[..index] + afscs[index + 1..]
  {
    var r := afscs[..index] + afscs[index + 1..];
    forall k | 0 <= k < |afscs| && k != index ensures afscs[k] in r {
      if k < index {
        assert r[k] == afscs[k];
      } else {
        assert r[k - 1] == afscs[k];
      }
    }
  }

  /** The delete button of row `row` as written: it passes the row's position
      on the page, where `updateAFSCValue` adds `startIndex`. */
  function DeleteRowAsWritten(afscs: seq<Afsc>, page: nat, row: nat): seq<Afsc>
    requires page >= 1
  {
    DeleteAfsc(afscs, row)
  }

  /** The delete button of row `row` with the page offset added. */
  function DeleteRow(afscs: seq<Afsc>, page: nat, row: nat): seq<Afsc>
    requires page >= 1
  {
    DeleteAfsc(afscs, RowPosition(page, row))
  }

  /** On any page after the first, the delete button of row `row` as written
      removes the AFSC at list position `row`, on an earlier page, and the AFSC
      the row shows stays. */
  lemma DeleteRowAsWrittenMissesRow(afscs: seq<Afsc>, page: nat, row: nat)
    requires page >= 2 && row < |PageSlice(afscs, page)| && DistinctAfscs(afscs)
    ensures row < RowPosition(page, row) < |afscs|
    ensures PageSlice(afscs, page)[row] in DeleteRowAsWritten(afscs, page, row)
    ensures afscs[row] !in DeleteRowAsWritten(afscs, page, row)
  {
    RowPositionShown(afscs, page, row);
    DeleteAfscRemoves(afscs, row);
  }

  /** With the offset, deleting row `row` removes exactly the AFSC the row shows
      and keeps every other one. */
  lemma DeleteRowRemovesShownAfsc(afscs: seq<Afsc>, page: nat, row: nat)
    requires page >= 1 && row < |PageSlice(afscs, page)| && DistinctAfscs(afscs)
    ensures PageSlice(afscs, page)[row] !in DeleteRow(afscs, page, row)
    ensures forall k :: 0 <= k < |afscs| && k != RowPosition(page, row) ==> afscs[k] in DeleteRow(afscs, page, row)
  {
    RowPositionShown(afscs, page, row);
    DeleteAfscRemoves(afscs, RowPosition(page, row));
  }

  /** The AFSC `addAFSC` appends. */
  function DefaultAfsc(): (a: Afsc)
    ensures a.afsc == "newafsc" && a.target == 0.0 && a.overclassFactor == 1.0
    ensures a.mandatoryDegreeBounds == Bounds(0.0, 1.0)
    ensures a.usaCadetBounds == Bounds(0.0, 1.0) && a.meritBounds == Bounds(0.0, 1.0)
    ensures a.weightedDistribution == 0.0
  {
    Afsc("newafsc", 0.0, 1.0, Bounds(0.0, 1.0), Bounds(0.0, 1.0), Bounds(0.0, 1.0), 0.0)
  }

  /** `setAfscs([...afscs, newAfsc])`. */
  function AddAfsc(afscs: seq<Afsc>): (r: seq<Afsc>)
    ensures |r| == |afscs| + 1 && r[..|afscs|] == afscs && r[|afscs|] == DefaultAfsc()
  {
    afscs + [DefaultAfsc()]
  }

  // ---------------------------------------------------------------------------
  // exportAFSCs

  /** One row of the exported sheet. */
  datatype AfscRow = AfscRow(
    afsc: string,
    target: real,
    overclass_factor: real,
    mandatory_education_min: real,
    mandatory_education_max: real,
    usafa_bound_min: real,
    usafa_bound_max: real,
    merit_bound_min: real,
    merit_bound_max: real,
    weighted_distribution: real)

  /** The callback of `afscs.map` in `exportAFSCs`. */
  function ExportAfsc(a: Afsc): AfscRow {
    AfscRow(
      a.afsc, a.target, a.overclassFactor,
      a.mandatoryDegreeBounds.min, a.mandatoryDegreeBounds.max,
      a.usaCadetBounds.min, a.usaCadetBounds.max,
      a.meritBounds.min, a.meritBounds.max,
      a.weightedDistribution)
  }

  /** `exportAFSCs(afscs)` up to the sheet it hands to the XLSX library: one row per AFSC, in order. */
  function ExportAfscs(afscs: seq<Afsc>): (rows: seq<AfscRow>)
    ensures |rows| == |afscs|
    ensures forall i :: 0 <= i < |afscs| ==> rows[i] == ExportAfsc(afscs[i])
  {
    seq(|afscs|, i requires 0 <= i < |afscs| => ExportAfsc(afscs[i]))
  }

  /** The exported row with its numbers written out by `render`, as the
      object the importer builds for that line of the sheet. */
  function RowAsRead(row: AfscRow, render: real -> string): Dict<string> {
    [ ("afsc", row.afsc),
      ("target", render(row.target)),
      ("overclass_factor", render(row.overclass_factor)),
      ("mandatory_education_min", render(row.mandatory_education_min)),
      ("mandatory_education_max", render(row.mandatory_education_max)),
      ("usafa_bound_min", render(row.usafa_bound_min)),
      ("usafa_bound_max", render(row.usafa_bound_max)),
      ("merit_bound_min", render(row.merit_bound_min)),
      ("merit_bound_max", render(row.merit_bound_max)),
      ("weighted_distribution", render(row.weighted_distribution)) ]
  }

  /** Re-importing an exported AFSC gives it back, except that the weight
      returns as 0 (the constructor drops it), provided the number parsers
      read back what `render` wrote. */
  lemma ExportImportRoundTrip(a: Afsc, render: real -> string, parseInt: string -> real, parseFloat: string -> real)
    requires forall x :: parseFloat(render(x)) == x
    requires parseInt(render(a.target)) == a.target
    ensures HasColumns(RowAsRead(ExportAfsc(a), render))
    ensures FromCsv(RowAsRead(ExportAfsc(a), render), parseInt, parseFloat) == a.(weightedDistribution := 0.0)
  {
    var d := RowAsRead(ExportAfsc(a), render);
    RowAsReadDistinct(ExportAfsc(a), render);
    ImportOfEntries(d, a, render, parseInt, parseFloat);
  }

  /** The ten column names are different. */
  lemma RowAsReadDistinct(row: AfscRow, render: real -> string)
    ensures DistinctKeys(RowAsRead(row, render))
  {
  }

  /** What `fromCSV` makes of an object holding an AFSC's exported columns. */
  lemma ImportOfEntries(d: Dict<string>, a: Afsc, render: real -> string, parseInt: string -> real, parseFloat: string -> real)
    requires |d| == 10 && DistinctKeys(d)
    requires d[0] == ("afsc", a.afsc) && d[1] == ("target", render(a.target))
    requires d[2] == ("overclass_factor", render(a.overclassFactor))
    requires d[3] == ("mandatory_education_min", render(a.mandatoryDegreeBounds.min))
    requires d[4] == ("mandatory_education_max", render(a.mandatoryDegreeBounds.max))
    requires d[5] == ("usafa_bound_min", render(a.usaCadetBounds.min))
    requires d[6] == ("usafa_bound_max", render(a.usaCadetBounds.max))
    requires d[7] == ("merit_bound_min", render(a.meritBounds.min))
    requires d[8] == ("merit_bound_max", render(a.meritBounds.max))
    requires forall x :: parseFloat(render(x)) == x
    requires parseInt(render(a.target)) == a.target
    ensures HasColumns(d)
    ensures FromCsv(d, parseInt, parseFloat) == a.(weightedDistribution := 0.0)
  {
    assert Keys(d)[0] == d[0].0 && Keys(d)[1] == d[1].0 && Keys(d)[2] == d[2].0;
    assert Keys(d)[3] == d[3].0 && Keys(d)[4] == d[4].0 && Keys(d)[5] == d[5].0;
    assert Keys(d)[6] == d[6].0 && Keys(d)[7] == d[7].0 && Keys(d)[8] == d[8].0;
    GetEntry(d, 0);
    GetEntry(d, 1);
    GetEntry(d, 2);
    GetEntry(d, 3);
    GetEntry(d, 4);
    GetEntry(d, 5);
    GetEntry(d, 6);
    GetEntry(d, 7);
    GetEntry(d, 8);
  }
}
