/** The read side of the dashboard (src/index.ts): the `/api/data` and `/api/combined-data`
    handlers turn a CSV file into one record per line, keyed by the header names, with a
    plain comma split that knows nothing of quoting. */
module Reader {
  import opened Text

  /** `cols[i] || ''`: the column at `i`, "" when the line has fewer columns. */
  function Column(cols: seq<string>, i: nat): string
  {
    if i < |cols| then cols[i] else ""
  }

  /** `headers.forEach((h, i) => { obj[h] = cols[i] || ''; })`: one key per header name. */
  function RowRecord(headers: seq<string>, cols: seq<string>): (obj: map<string, string>)
    ensures forall h :: h in obj <==> h in headers
  {
    if |headers| == 0 then map[]
    else
      var n := |headers| - 1;
      assert headers == headers[..n] + [headers[n]];
      RowRecord(headers[..n], cols)[headers[n] := Column(cols, n)]
  }

  /** Each header name maps to the column of its last occurrence: with distinct names,
      every name maps to its own column. */
  lemma {:induction false} LastColumnWins(headers: seq<string>, cols: seq<string>, i: nat)
    requires i < |headers|
    requires forall j :: i < j < |headers| ==> headers[j] != headers[i]
    ensures headers[i] in RowRecord(headers, cols) && RowRecord(headers, cols)[headers[i]] == Column(cols, i)
  {
    var n := |headers| - 1;
    if i < n {
      var init := headers[..n];
      assert init[i] == headers[i];
      LastColumnWins(init, cols, i);
    }
  }

  /** `csv.trim().split('\n')`, the first line split on ',' as the header, and every
      further line made a record. */
  function ParseTable(csv: string): seq<map<string, string>>
  {
    var lines := Split(Trim(csv), '\n');
    var headers := Split(lines[0], ',');
    seq(|lines| - 1, k requires 0 <= k < |lines| - 1 => RowRecord(headers, Split(lines[k + 1], ',')))
  }

  /** One record per line after the header, each keyed by exactly the names of the header
      line. */
  lemma {:induction false} ParseTableShape(csv: string)
    ensures var lines := Split(Trim(csv), '\n');
      |ParseTable(csv)| == |lines| - 1
      && forall k, h :: 0 <= k < |lines| - 1 ==> (h in ParseTable(csv)[k] <==> h in Split(lines[0], ','))
  {
    var lines := Split(Trim(csv), '\n');
    forall k | 0 <= k < |lines| - 1
      ensures ParseTable(csv)[k] == RowRecord(Split(lines[0], ','), Split(lines[k + 1], ','))
    {
    }
  }

  /** The lines of a table as the writers produce them: the header line, then one line per
      row, cells joined with commas. */
  function TableLines(header: seq<string>, rows: seq<seq<string>>): (lines: seq<string>)
    ensures |lines| == |rows| + 1
  {
    [Join(header, ',')] + seq(|rows|, k requires 0 <= k < |rows| => Join(rows[k], ','))
  }

  /** No comma and no line break: a cell the naive split keeps whole. */
  predicate Plain(s: string)
  {
    ',' !in s && '\n' !in s
  }

  /** A table the naive reader can read back: distinct header names, the first one
      starting with a non-space, every row as wide as the header, no name and no cell
      holding a comma or a line break, and the text not ending in whitespace. */
  predicate Readable(header: seq<string>, rows: seq<seq<string>>)
  {
    && ReadableHeader(header)
    && (forall k :: 0 <= k < |rows| ==> |rows[k]| == |header|)
    && (forall k, i :: 0 <= k < |rows| && 0 <= i < |rows[k]| ==> Plain(rows[k][i]))
    && var text := Join(TableLines(header, rows), '\n'); !IsSpace(text[|text| - 1])
  }

  /** Header names the naive reader keeps apart: distinct, none holding a comma or a line
      break, the first starting with a non-space. */
  predicate ReadableHeader(header: seq<string>)
  {
    && |header| >= 1 && |header[0]| >= 1 && !IsSpace(header[0][0])
    && (forall i, j :: 0 <= i < j < |header| ==> header[i] != header[j])
    && (forall i :: 0 <= i < |header| ==> Plain(header[i]))
  }

  /** The records a table stands for: one per row, built from the header names and the
      row's cells as the reader builds them. */
  function RecordsOf(header: seq<string>, rows: seq<seq<string>>): (records: seq<map<string, string>>)
    ensures |records| == |rows|
    ensures forall k :: 0 <= k < |rows| ==> records[k] == RowRecord(header, rows[k])
  {
    seq(|rows|, k requires 0 <= k < |rows| => RowRecord(header, rows[k]))
  }

  /** With distinct header names, every record maps each name to its row's cell. */
  lemma {:induction false} RecordsOfCells(header: seq<string>, rows: seq<seq<string>>, k: nat, i: nat)
    requires forall a, b :: 0 <= a < b < |header| ==> header[a] != header[b]
    requires k < |rows| && i < |header| && |rows[k]| == |header|
    ensures header[i] in RecordsOf(header, rows)[k] && RecordsOf(header, rows)[k][header[i]] == rows[k][i]
  {
    LastColumnWins(header, rows[k], i);
  }

  /** Reading back a readable table gives the records it stands for. */
  lemma {:induction false} ReadBack(header: seq<string>, rows: seq<seq<string>>)
    requires Readable(header, rows)
    ensures ParseTable(Join(TableLines(header, rows), '\n')) == RecordsOf(header, rows)
  {
    var lines := TableLines(header, rows);
    var text := Join(lines, '\n');
    TableSplits(header, rows);
    SplitOfJoin(header, ',');
    var records := ParseTable(text);
    forall k | 0 <= k < |rows|
      ensures records[k] == RowRecord(header, rows[k])
    {
      SplitOfJoin(rows[k], ',');
    }
  }

  /** Trimming and splitting the text of a table on line breaks gives its lines back. */
  lemma {:induction false} TableSplits(header: seq<string>, rows: seq<seq<string>>)
    requires |header| >= 1 && |header[0]| >= 1 && !IsSpace(header[0][0])
    requires forall i :: 0 <= i < |header| ==> Plain(header[i])
    requires forall k, i :: 0 <= k < |rows| && 0 <= i < |rows[k]| ==> Plain(rows[k][i])
    requires var text := Join(TableLines(header, rows), '\n'); !IsSpace(text[|text| - 1])
    ensures Split(Trim(Join(TableLines(header, rows), '\n')), '\n') == TableLines(header, rows)
  {
    var lines := TableLines(header, rows);
    var text := Join(lines, '\n');
    JoinStart(lines, '\n');
    JoinStart(header, ',');
    assert text[0] == header[0][0];
    TrimUnchanged(text);
    forall m | 0 <= m < |lines|
      ensures '\n' !in lines[m]
    {
      if m == 0 {
        JoinAvoids(header, ',', '\n');
      } else {
        JoinAvoids(rows[m - 1], ',', '\n');
      }
    }
    SplitOfJoin(lines, '\n');
  }
}
