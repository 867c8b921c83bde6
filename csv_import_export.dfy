/** modules/client/CsvImportExport.js: a second copy of `importAFSCs`, the one
    the AFSC editor imports. */
module CsvImportExport {
  import opened CsvParse
  import opened AfscModel
  import ImportCsv

  /** `importAFSCs(text)`, the same pipeline as in ImportCsv.js; the two
      functions agree on every input. */
  function ImportAfscs(text: string, parseInt: string -> real, parseFloat: string -> real): (afscs: seq<Afsc>)
    requires |KeptRows(text)| > 0 && ImportCsv.HasAfscColumns(text)
    ensures afscs == ImportCsv.ImportAfscs(text, parseInt, parseFloat)
  {
    var rows := KeptRows(text);
    var headers := Cells(rows[0]);
    ImportCsv.AfscsOf(headers, rows[1..], parseInt, parseFloat)
  }
}
