/** The two helpers of the forum front-end's utility file: the guarded
    timestamp conversion and the table writer. */
module Utils {
  import opened Wrappers
  import opened Records

  /** Conversion of a Unix timestamp to ISO-8601 text in UTC, or None where
      the conversion raises (a timestamp out of range). */
  type TimestampFormatter = real -> Option<string>

  /** to_utc_iso: "" for a missing or zero timestamp and for any conversion
      failure, the formatted time otherwise. */
  function ToUtcIso(format: TimestampFormatter, ts: Option<real>): (r: string)
    ensures ts == None || ts == Some(0.0) ==> r == ""
    ensures ts.Some? && ts.value != 0.0 && format(ts.value).None? ==> r == ""
    ensures ts.Some? && ts.value != 0.0 && format(ts.value).Some? ==> r == format(ts.value).value
    ensures r != "" ==> ts.Some? && ts.value != 0.0 && format(ts.value) == Some(r)
  {
    match ts
    case None => ""
    case Some(t) =>
      if t == 0.0 then ""
      else match format(t)
        case None => ""
        case Some(iso) => iso
  }

  /** A row handed to the writer: an ordered dictionary from field name to value. */
  type Dict = seq<(string, Cell)>

  /** One line of the written table. */
  type Line = seq<Cell>

  /** File contents by path; a written table is its sequence of lines. */
  type FileSystem = map<string, seq<Line>>

  function Keys(d: Dict): (k: seq<string>)
    ensures |k| == |d|
    ensures forall i :: 0 <= i < |d| ==> k[i] == d[i].0
  {
    seq(|d|, i requires 0 <= i < |d| => d[i].0)
  }

  predicate DistinctKeys(d: Dict) {
    forall i, j :: 0 <= i < j < |d| ==> d[i].0 != d[j].0
  }

  /** The value the writer puts under `key`: the row's value, or the empty
      string when the row lacks the key. */
  function Get(d: Dict, key: string): (c: Cell)
    ensures (forall i :: 0 <= i < |d| ==> d[i].0 != key) ==> c == Str("")
  {
    if |d| == 0 then Str("")
    else if d[0].0 == key then d[0].1
    else Get(d[1..], key)
  }

  /** In a dictionary, looking a key up gives the value stored under it. */
  lemma {:induction false} GetStored(d: Dict, i: nat)
    requires DistinctKeys(d)
    requires i < |d|
    ensures Get(d, d[i].0) == d[i].1
  {
    if i > 0 {
      assert d[0].0 != d[i].0;
      assert d[1..][i - 1] == d[i];
      GetStored(d[1..], i - 1);
    }
  }

  /** Every key of `d` is a column of the table (else the writer raises). */
  predicate KeysWithin(d: Dict, fieldnames: seq<string>) {
    forall i :: 0 <= i < |d| ==> d[i].0 in fieldnames
  }

  /** The values of `d` in column order. */
  function Project(fieldnames: seq<string>, d: Dict): (line: Line)
    ensures |line| == |fieldnames|
    ensures forall i :: 0 <= i < |fieldnames| ==> line[i] == Get(d, fieldnames[i])
  {
    seq(|fieldnames|, i requires 0 <= i < |fieldnames| => Get(d, fieldnames[i]))
  }

  /** The header line: the field names themselves. */
  function HeaderLine(fieldnames: seq<string>): (line: Line)
    ensures |line| == |fieldnames|
    ensures forall i :: 0 <= i < |fieldnames| ==> line[i] == Str(fieldnames[i])
  {
    seq(|fieldnames|, i requires 0 <= i < |fieldnames| => Str(fieldnames[i]))
  }

  /** The data lines the writer emits, and the index of the first row it
      rejects for having a key outside the header, if any. */
  function DataLines(fieldnames: seq<string>, rows: seq<Dict>): (out: (seq<Line>, Option<nat>))
    ensures out.1.None? <==> forall i :: 0 <= i < |rows| ==> KeysWithin(rows[i], fieldnames)
    ensures out.1.None? ==> |out.0| == |rows|
    ensures out.1.Some? ==>
      && out.1.value < |rows|
      && |out.0| == out.1.value
      && !KeysWithin(rows[out.1.value], fieldnames)
      && forall i :: 0 <= i < out.1.value ==> KeysWithin(rows[i], fieldnames)
    ensures forall i :: 0 <= i < |out.0| ==> out.0[i] == Project(fieldnames, rows[i])
  {
    if |rows| == 0 then ([], None)
    else if !KeysWithin(rows[0], fieldnames) then ([], Some(0))
    else
      var rest := DataLines(fieldnames, rows[1..]);
      ([Project(fieldnames, rows[0])] + rest.0, if rest.1.Some? then Some(rest.1.value + 1) else None)
  }

  /** write_csv: overwrites `path` with an empty file when there are no rows,
      otherwise with the header (the first row's keys, in order) and one line
      per row. The second component is the index of the row that made the
      writer raise, if one did; the lines before it are already written. */
  function WriteCsv(fs: FileSystem, path: string, rows: seq<Dict>): (r: (FileSystem, Option<nat>))
    ensures r.0.Keys == fs.Keys + {path}
    ensures forall p :: p in fs && p != path ==> r.0[p] == fs[p]
    ensures |rows| == 0 ==> r.0[path] == [] && r.1 == None
    ensures |rows| > 0 ==> |r.0[path]| >= 1 && r.0[path][0] == HeaderLine(Keys(rows[0]))
    ensures |rows| > 0 ==>
      (r.1 == None <==> forall i :: 0 <= i < |rows| ==> KeysWithin(rows[i], Keys(rows[0])))
    ensures r.1 == None ==> |r.0[path]| == (if |rows| == 0 then 0 else |rows| + 1)
    ensures r.1.Some? ==>
      && |rows| > 0
      && r.1.value < |rows|
      && |r.0[path]| == r.1.value + 1
      && !KeysWithin(rows[r.1.value], Keys(rows[0]))
      && forall i :: 0 <= i < r.1.value ==> KeysWithin(rows[i], Keys(rows[0]))
    ensures |r.0[path]| <= |rows| + 1
    ensures |rows| > 0 ==> forall i :: 0 <= i < |r.0[path]| - 1 ==>
      r.0[path][i + 1] == Project(Keys(rows[0]), rows[i])
  {
    if |rows| == 0 then (fs[path := []], None)
    else
      var fieldnames := Keys(rows[0]);
      var body := DataLines(fieldnames, rows);
      (fs[path := [HeaderLine(fieldnames)] + body.0], body.1)
  }

  /** What was at `path` before makes no difference to what is there after. */
  lemma WriteCsvOverwrites(fs1: FileSystem, fs2: FileSystem, path: string, rows: seq<Dict>)
    ensures WriteCsv(fs1, path, rows).0[path] == WriteCsv(fs2, path, rows).0[path]
    ensures WriteCsv(fs1, path, rows).1 == WriteCsv(fs2, path, rows).1
  {
  }

  /** A row's dictionary has no repeated key. */
  lemma RowFieldsDistinct(row: Row)
    ensures DistinctKeys(row.Fields())
  {
    var f := row.Fields();
    assert forall i :: 0 <= i < |f| ==> f[i].0 == row.Header()[i];
  }

  /** A row written under its own schema's header: its keys are all columns
      and its line holds its values in schema order. */
  lemma RowLine(row: Row, header: seq<string>)
    requires row.Header() == header
    ensures KeysWithin(row.Fields(), header)
    ensures forall j :: 0 <= j < |header| ==> Project(header, row.Fields())[j] == row.Fields()[j].1
  {
    var d := row.Fields();
    assert forall k :: 0 <= k < |d| ==> d[k].0 == header[k];
    RowFieldsDistinct(row);
    forall j | 0 <= j < |header|
      ensures Project(header, d)[j] == d[j].1
    {
      GetStored(d, j);
    }
  }

  /** Rows of one schema, as both front-ends produce, are written without
      error: the header is the schema's field names and each data line holds
      that row's values in schema order. */
  lemma WriteRowsOfOneSchema(fs: FileSystem, path: string, rows: seq<Row>)
    requires |rows| > 0
    requires forall i :: 0 <= i < |rows| ==> rows[i].Header() == rows[0].Header()
    ensures var dicts := seq(|rows|, i requires 0 <= i < |rows| => rows[i].Fields());
      var written := WriteCsv(fs, path, dicts);
      && written.1 == None
      && written.0[path][0] == HeaderLine(rows[0].Header())
      && |written.0[path]| == |rows| + 1
      && forall i, j :: 0 <= i < |rows| && 0 <= j < |rows[i].Header()| ==>
           written.0[path][i + 1][j] == rows[i].Fields()[j].1
  {
    var dicts := seq(|rows|, i requires 0 <= i < |rows| => rows[i].Fields());
    var header := rows[0].Header();
    assert Keys(dicts[0]) == header;
    forall i | 0 <= i < |rows|
      ensures KeysWithin(dicts[i], header)
      ensures forall j :: 0 <= j < |header| ==> Project(header, dicts[i])[j] == rows[i].Fields()[j].1
    {
      RowLine(rows[i], header);
    }
  }
}
