/** The text-to-records pipeline that `importAFSCs` and `importCadets` share
    (modules/client/ImportCsv.js, modules/client/CsvImportExport.js): split the
    text into lines, drop blank lines, take the first line's comma-separated,
    trimmed cells as headers, and turn every further line into an object that
    maps each header to the cell below it. No quoting is honoured. */
module CsvParse {
  import opened Strings
  import opened Dicts

  /** `lines.filter((row) => row.trim() !== "")`. */
  function FilterNonBlank(lines: seq<string>): (kept: seq<string>)
    ensures |kept| <= |lines|
    ensures forall x :: x in kept <==> x in lines && NonBlank(x)
  {
    if lines == [] then []
    else
      var init := FilterNonBlank(lines[..|lines| - 1]);
      var last := lines[|lines| - 1];
      assert lines == lines[..|lines| - 1] + [last];
      if NonBlank(last) then init + [last] else init
  }

  /** Lines that are all non-blank are all kept, in order. */
  lemma {:induction false} FilterKeepsNonBlank(lines: seq<string>)
    requires forall k :: 0 <= k < |lines| ==> NonBlank(lines[k])
    ensures FilterNonBlank(lines) == lines
  {
    if lines != [] {
      var init, last := lines[..|lines| - 1], lines[|lines| - 1];
      FilterKeepsNonBlank(init);
      assert NonBlank(last);
      assert FilterNonBlank(lines) == FilterNonBlank(init) + [last];
      assert init + [last] == lines;
    }
  }

  /** The filter works line by line: a single line is kept exactly when it is
      non-blank, and filtering two runs of lines one after the other gives the
      kept lines of each, in order. So the kept lines keep their order and
      their repetitions. */
  lemma {:induction false} FilterNonBlankConcat(a: seq<string>, b: seq<string>)
    ensures FilterNonBlank(a + b) == FilterNonBlank(a) + FilterNonBlank(b)
    ensures |b| == 1 ==> FilterNonBlank(b) == if NonBlank(b[0]) then b else []
    decreases |b|
  {
    if b != [] {
      var init, last := b[..|b| - 1], b[|b| - 1];
      FilterNonBlankConcat(a, init);
      assert (a + b)[..|a + b| - 1] == a + init;
      assert (a + b)[|a + b| - 1] == last;
      assert |b| == 1 ==> init == [];
    } else {
      assert a + b == a;
    }
  }

  /** Every non-blank line is kept as often as it occurs, and no blank line is kept. */
  lemma {:induction false} FilterNonBlankCounts(lines: seq<string>, x: string)
    ensures multiset(FilterNonBlank(lines))[x] == if NonBlank(x) then multiset(lines)[x] else 0
  {
    if lines != [] {
      var init, last := lines[..|lines| - 1], lines[|lines| - 1];
      FilterNonBlankCounts(init, x);
      assert lines == init + [last];
      assert multiset(lines) == multiset(init) + multiset{last};
    }
  }

  /** `text.split("\n").filter((row) => row.trim() !== "")`. */
  function KeptRows(text: string): seq<string> {
    FilterNonBlank(Split(text, '\n'))
  }

  /** `line.split(",").map((x) => x.trim())`. */
  function Cells(line: string): (cells: seq<string>)
    ensures |cells| >= 1
  {
    TrimAll(Split(line, ','))
  }

  /** `rows[0].split(",").map((header) => header.trim())`; with no kept row
      there is no `rows[0]` to split. */
  function Headers(text: string): seq<string>
    requires |KeptRows(text)| > 0
  {
    Cells(KeptRows(text)[0])
  }

  /** `values[index] || ""`: the cell, or "" past the end of a short row. */
  function Field(values: seq<string>, index: nat): (v: string)
    ensures index < |values| ==> v == values[index]
    ensures index >= |values| ==> v == ""
  {
    if index < |values| then values[index] else ""
  }

  /** Position of the last occurrence of `h` in `headers`. */
  function LastIndex(headers: seq<string>, h: string): (i: nat)
    requires h in headers
    ensures i < |headers| && headers[i] == h
    ensures forall j :: i < j < |headers| ==> headers[j] != h
  {
    if headers[|headers| - 1] == h then |headers| - 1
    else
      assert headers == headers[..|headers| - 1] + [headers[|headers| - 1]];
      LastIndex(headers[..|headers| - 1], h)
  }

  /** `headers.reduce((obj, header, index) => { obj[header] = values[index] || ""; return obj; }, {})`. */
  function RowObject(headers: seq<string>, values: seq<string>): (obj: Dict<string>)
    ensures DistinctKeys(obj)
    ensures forall h :: h in Keys(obj) <==> h in headers
  {
    if headers == [] then []
    else
      var n := |headers| - 1;
      assert headers == headers[..n] + [headers[n]];
      var prev := RowObject(headers[..n], values);
      PutKeys(prev, headers[n], Field(values, n));
      PutDistinct(prev, headers[n], Field(values, n));
      Put(prev, headers[n], Field(values, n))
  }

  /** Each header maps to the cell in its column; a repeated header keeps the
      cell of its last column; a name that is not a header is absent. */
  lemma {:induction false} RowObjectGet(headers: seq<string>, values: seq<string>, h: string)
    ensures h in headers ==> Get(RowObject(headers, values), h) == Some(Field(values, LastIndex(headers, h)))
    ensures h !in headers ==> Get(RowObject(headers, values), h) == None
  {
    if headers != [] {
      var n := |headers| - 1;
      var init := headers[..n];
      assert headers == init + [headers[n]];
      RowObjectGet(init, values, h);
      PutGet(RowObject(init, values), headers[n], Field(values, n));
    }
  }

  /** Cells beyond the last header never reach the record. */
  lemma {:induction false} ExtraFieldsDropped(headers: seq<string>, values: seq<string>, extra: seq<string>)
    requires |values| >= |headers|
    ensures RowObject(headers, values + extra) == RowObject(headers, values)
  {
    if headers != [] {
      var n := |headers| - 1;
      ExtraFieldsDropped(headers[..n], values, extra);
      assert Field(values + extra, n) == Field(values, n);
    }
  }

  /** Each header paired with the cell in its column. */
  function Columns(headers: seq<string>, values: seq<string>): (r: seq<(string, string)>)
    ensures |r| == |headers|
    ensures forall i :: 0 <= i < |headers| ==> r[i] == (headers[i], Field(values, i))
  {
    if headers == [] then []
    else Columns(headers[..|headers| - 1], values) + [(headers[|headers| - 1], Field(values, |headers| - 1))]
  }

  /** With distinct headers the record holds every header once, in header
      order, each with its own column's cell. */
  lemma {:induction false} RowObjectOfDistinctHeaders(headers: seq<string>, values: seq<string>)
    requires forall i, j :: 0 <= i < j < |headers| ==> headers[i] != headers[j]
    ensures RowObject(headers, values) == Columns(headers, values)
  {
    if headers != [] {
      var n := |headers| - 1;
      var init := headers[..n];
      assert headers == init + [headers[n]];
      assert forall i, j :: 0 <= i < j < |init| ==> init[i] != init[j] by {
        forall i, j | 0 <= i < j < |init| ensures init[i] != init[j] {
          assert init[i] == headers[i] && init[j] == headers[j];
        }
      }
      RowObjectOfDistinctHeaders(init, values);
      var prev := RowObject(init, values);
      assert headers[n] !in init by {
        forall i | 0 <= i < n ensures init[i] != headers[n] {
          assert init[i] == headers[i];
        }
      }
      assert headers[n] !in Keys(prev);
      PutNewKey(prev, headers[n], Field(values, n));
    }
  }

  /** One record per line, each mapping the headers to that line's cells. */
  function RecordsOf(headers: seq<string>, lines: seq<string>): (records: seq<Dict<string>>)
    ensures |records| == |lines|
    ensures forall i :: 0 <= i < |lines| ==> records[i] == RowObject(headers, Cells(lines[i]))
  {
    seq(|lines|, i requires 0 <= i < |lines| => RowObject(headers, Cells(lines[i])))
  }

  /** `rows.slice(1).map(...)`: one record per kept row after the header row, in order. */
  function Records(text: string): (records: seq<Dict<string>>)
    requires |KeptRows(text)| > 0
    ensures |records| == |KeptRows(text)| - 1
    ensures forall i :: 0 <= i < |records| ==> records[i] == RowObject(Headers(text), Cells(KeptRows(text)[i + 1]))
  {
    var rows := KeptRows(text);
    RecordsOf(Headers(text), rows[1..])
  }

  /** Every field of every record is the trimmed cell of its column, or "" when the row is short. */
  lemma RecordField(text: string, i: nat, h: string)
    requires |KeptRows(text)| > 0 && i < |KeptRows(text)| - 1
    ensures h in Headers(text) ==>
      Get(Records(text)[i], h) == Some(Field(Cells(KeptRows(text)[i + 1]), LastIndex(Headers(text), h)))
    ensures h !in Headers(text) ==> Get(Records(text)[i], h) == None
  {
    RowObjectGet(Headers(text), Cells(KeptRows(text)[i + 1]), h);
  }
}
