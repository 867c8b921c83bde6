/** modules/client/ImportCsv.js: `importAFSCs` and `importCadets`, both on the
    shared parser of `CsvParse`. */
module ImportCsv {
  import opened Dicts
  import opened CsvParse
  import opened AfscModel
  import opened CadetModel

  /** The header row names every column `AFSC.fromCSV` reads. */
  predicate HasAfscColumns(text: string)
    requires |KeptRows(text)| > 0
  {
    ColumnsIn(Headers(text))
  }

  /** `rows.slice(1).map(...)` with `AFSC.fromCSV` on each row object. */
  function AfscsOf(headers: seq<string>, lines: seq<string>, parseInt: string -> real, parseFloat: string -> real): (afscs: seq<Afsc>)
    requires ColumnsIn(headers)
    ensures |afscs| == |lines|
    ensures forall i :: 0 <= i < |lines| ==>
      HasColumns(RowObject(headers, Cells(lines[i]))) && afscs[i] == FromCsv(RowObject(headers, Cells(lines[i])), parseInt, parseFloat)
  {
    seq(|lines|, i requires 0 <= i < |lines| =>
      RowHasColumns(headers, Cells(lines[i]));
      FromCsv(RowObject(headers, Cells(lines[i])), parseInt, parseFloat))
  }

  /** `importAFSCs(text)`: one AFSC per data row, in row order, each with weight 0. */
  function ImportAfscs(text: string, parseInt: string -> real, parseFloat: string -> real): (afscs: seq<Afsc>)
    requires |KeptRows(text)| > 0 && HasAfscColumns(text)
    ensures |afscs| == |KeptRows(text)| - 1
    ensures forall i :: 0 <= i < |afscs| ==> afscs[i].weightedDistribution == 0.0
  {
    AfscsOf(Headers(text), KeptRows(text)[1..], parseInt, parseFloat)
  }

  /** When the headers name a column, every record built under them has it. */
  lemma RowHasColumns(headers: seq<string>, values: seq<string>)
    requires ColumnsIn(headers)
    ensures HasColumns(RowObject(headers, values))
  {
    var obj := RowObject(headers, values);
    assert forall h :: h in headers ==> h in Keys(obj);
  }

  lemma RecordHasColumns(text: string, i: nat)
    requires |KeptRows(text)| > 0 && HasAfscColumns(text) && i < |KeptRows(text)| - 1
    ensures HasColumns(Records(text)[i])
  {
    RowHasColumns(Headers(text), Cells(KeptRows(text)[i + 1]));
  }

  /** The code of imported AFSC `i` is the cell of data row `i` under the last `afsc` header. */
  lemma ImportedAfscCode(text: string, parseInt: string -> real, parseFloat: string -> real, i: nat)
    requires |KeptRows(text)| > 0 && HasAfscColumns(text) && i < |KeptRows(text)| - 1
    ensures ImportAfscs(text, parseInt, parseFloat)[i].afsc
            == Field(Cells(KeptRows(text)[i + 1]), LastIndex(Headers(text), "afsc"))
  {
    RecordHasColumns(text, i);
    RecordField(text, i, "afsc");
    assert KeptRows(text)[1..][i] == KeptRows(text)[i + 1];
  }

  /** The outcome of `importCadets`: the cadets, or the `TypeError` raised by
      calling a `Cadet.fromCSV` that the `Cadet` class does not define. */
  datatype CadetImport = Imported(cadets: seq<AppCadet>) | FromCsvIsNotAFunction

  /** `importCadets(text)`. The records are built as for AFSCs; the `map`
      callback then calls the missing `Cadet.fromCSV`, which throws as soon as
      there is a data row. A text with only a header row maps no row. */
  function ImportCadets(text: string): (r: CadetImport)
    requires |KeptRows(text)| > 0
    ensures r.Imported? <==> |KeptRows(text)| == 1
    ensures r.Imported? ==> r.cadets == []
  {
    if |Records(text)| == 0 then Imported([]) else FromCsvIsNotAFunction
  }
}
