/** Loading: the line processing of `read_students_from_file`. The file's lines arrive as a
    sequence (what `readlines()` returns); opening and reading the file is not modelled. */
module Parsing {
  import opened Strings
  import opened Records

  /** The column names: the first line, stripped and split on commas. */
  function Header(line: string): (headers: seq<string>)
    ensures |headers| >= 1 && Join(headers, ',') == Strip(line)
    ensures forall i :: 0 <= i < |headers| ==> ',' !in headers[i]
  {
    JoinSplit(Strip(line), ',');
    SplitPiecesHaveNoSeparator(Strip(line), ',');
    Split(Strip(line), ',')
  }

  /** The value kept for column `i`: column 0 as text, every other column through `int()`. */
  function ParseField(values: seq<string>, i: nat): Option<Field>
    requires i < |values|
  {
    if i == 0 then Some(Text(values[0]))
    else match ParseInt(values[i])
      case None => None
      case Some(n) => Some(Number(n))
  }

  /** The dictionary comprehension over the first `n` columns: `{headers[i]: value_i for i in range(n)}`.
      It fails when a row has no field `i` (the `IndexError`) or a field is not an integer (the
      `ValueError`); when a column name repeats, the later column wins. */
  function BuildRow(headers: seq<string>, values: seq<string>, n: nat): (r: Option<Row>)
    requires n <= |headers|
    ensures r.Some? <==> n <= |values| && forall i {:trigger ParseInt(values[i])} :: 1 <= i < n ==> ParseInt(values[i]).Some?
  {
    if n == 0 then Some(map[])
    else match BuildRow(headers, values, n - 1)
      case None => None
      case Some(row) =>
        if n - 1 >= |values| then None
        else match ParseField(values, n - 1)
          case None => None
          case Some(f) => Some(row[headers[n - 1] := f])
  }

  /** A parsed row has exactly the header names as keys. */
  lemma {:induction false} BuildRowKeys(headers: seq<string>, values: seq<string>, n: nat)
    requires n <= |headers|
    requires BuildRow(headers, values, n).Some?
    ensures BuildRow(headers, values, n).value.Keys == set i | 0 <= i < n :: headers[i]
  {
    if n > 0 {
      BuildRowKeys(headers, values, n - 1);
      var row := BuildRow(headers, values, n - 1).value;
      assert BuildRow(headers, values, n).value.Keys == row.Keys + {headers[n - 1]};
      assert (set i | 0 <= i < n :: headers[i]) == (set i | 0 <= i < n - 1 :: headers[i]) + {headers[n - 1]};
    }
  }

  /** Column `i`'s value is what the row holds under its name, unless a later column has the same name. */
  lemma {:induction false} BuildRowLastWins(headers: seq<string>, values: seq<string>, n: nat, i: nat)
    requires i < n <= |headers|
    requires BuildRow(headers, values, n).Some?
    requires forall j :: i < j < n ==> headers[j] != headers[i]
    ensures var row := BuildRow(headers, values, n).value;
      headers[i] in row && row[headers[i]] == ParseField(values, i).value
  {
    if i < n - 1 {
      BuildRowLastWins(headers, values, n - 1, i);
    }
  }

  /** One data line turned into a student dictionary: the line is stripped and split on commas,
      and a dictionary it yields is keyed by exactly the header names. */
  function ParseRow(headers: seq<string>, line: string): (r: Option<Row>)
    ensures r.Some? ==> r.value.Keys == (set i | 0 <= i < |headers| :: headers[i])
  {
    var values := Split(Strip(line), ',');
    var r := BuildRow(headers, values, |headers|);
    if r.Some? then BuildRowKeys(headers, values, |headers|); r else r
  }

  /** A data line as the file holds it: the identifier, then every score in decimal, separated by commas. */
  function FormatLine(name: string, scores: seq<int>): string
  {
    Join([name] + Decimals(scores), ',')
  }

  /** Each score in decimal. */
  function Decimals(scores: seq<int>): (texts: seq<string>)
    ensures |texts| == |scores|
  {
    if scores == [] then [] else Decimals(scores[..|scores| - 1]) + [IntToString(scores[|scores| - 1])]
  }

  lemma {:induction false} DecimalsAt(scores: seq<int>, k: nat)
    requires k < |scores|
    ensures Decimals(scores)[k] == IntToString(scores[k])
  {
    if k < |scores| - 1 {
      DecimalsAt(scores[..|scores| - 1], k);
    }
  }

  /** A written line has no whitespace at either end, so stripping leaves it as it is. */
  lemma FormatLineStripped(name: string, scores: seq<int>)
    requires Strip(name) == name
    ensures Strip(FormatLine(name, scores)) == FormatLine(name, scores)
  {
    var parts := [name] + Decimals(scores);
    var line := FormatLine(name, scores);
    JoinEnds(parts, ',');
    if line != [] {
      if name != [] {
        assert !IsSpace(line[0]);
      } else {
        assert |scores| > 0 && line[0] == ',';
      }
      if |scores| > 0 {
        var last := IntToString(scores[|scores| - 1]);
        DecimalsAt(scores, |scores| - 1);
        assert parts[|parts| - 1] == last;
        assert line[|line| - 1] == last[|last| - 1];
      } else {
        assert line == name;
      }
    }
    TrimUnchanged(line, StripSpace);
  }

  /** The fields of a written line: the name, then the decimal text of each score. */
  lemma FormatLineFields(name: string, scores: seq<int>)
    requires ',' !in name && Strip(name) == name
    ensures var values := Split(Strip(FormatLine(name, scores)), ',');
      && |values| == |scores| + 1 && values[0] == name
      && forall i :: 1 <= i < |values| ==> values[i] == IntToString(scores[i - 1])
  {
    var parts := [name] + Decimals(scores);
    DecimalsHaveNoComma(scores);
    assert forall k :: 0 <= k < |parts| ==> ',' !in parts[k];
    SplitJoin(parts, ',');
    FormatLineStripped(name, scores);
    forall i | 1 <= i < |parts|
      ensures parts[i] == IntToString(scores[i - 1])
    {
      DecimalsAt(scores, i - 1);
    }
  }

  lemma DecimalsHaveNoComma(scores: seq<int>)
    ensures forall k :: 0 <= k < |scores| ==> ',' !in Decimals(scores)[k]
  {
    forall k | 0 <= k < |scores|
      ensures ',' !in Decimals(scores)[k]
    {
      DecimalsAt(scores, k);
    }
  }

  /** Reading a written line gives back the record: under distinct column names, the identifier
      as text under the first name and each score under its own, and no other key. */
  lemma ParseRowOfFormatLine(headers: seq<string>, name: string, scores: seq<int>)
    requires |headers| == |scores| + 1
    requires forall i, j :: 0 <= i < j < |headers| ==> headers[i] != headers[j]
    requires ',' !in name && Strip(name) == name
    ensures var r := ParseRow(headers, FormatLine(name, scores));
      && r.Some?
      && r.value.Keys == (set i | 0 <= i < |headers| :: headers[i])
      && r.value[headers[0]] == Text(name)
      && forall i :: 1 <= i < |headers| ==> r.value[headers[i]] == Number(scores[i - 1])
  {
    var values := Split(Strip(FormatLine(name, scores)), ',');
    FormatLineFields(name, scores);
    forall i | 1 <= i < |headers|
      ensures ParseInt(values[i]) == Some(scores[i - 1])
    {
      assert values[i] == IntToString(scores[i - 1]);
      ParseIntOfIntToString(scores[i - 1]);
    }
    BuildRowKeys(headers, values, |headers|);
    var row := BuildRow(headers, values, |headers|).value;
    forall i | 0 <= i < |headers|
      ensures row[headers[i]] == ParseField(values, i).value
    {
      BuildRowLastWins(headers, values, |headers|, i);
    }
  }

  /** The results gathered into one list; `None` as soon as one of them is `None`. */
  function Collect<T>(parsed: seq<Option<T>>): (r: Option<seq<T>>)
    ensures r.Some? <==> forall k :: 0 <= k < |parsed| ==> parsed[k].Some?
    ensures r.Some? ==> |r.value| == |parsed|
    ensures r.Some? ==> forall k :: 0 <= k < |parsed| ==> r.value[k] == parsed[k].value
  {
    if parsed == [] then Some([])
    else match Collect(parsed[..|parsed| - 1])
      case None => None
      case Some(values) =>
        match parsed[|parsed| - 1]
          case None => None
          case Some(value) => Some(values + [value])
  }

  /** All data lines parsed in order; `None` as soon as one of them fails. */
  function ParseRows(headers: seq<string>, body: seq<string>): (r: Option<seq<Row>>)
    ensures r.Some? <==> forall k :: 0 <= k < |body| ==> ParseRow(headers, body[k]).Some?
    ensures r.Some? ==> |r.value| == |body|
    ensures r.Some? ==> forall k :: 0 <= k < |body| ==> r.value[k] == ParseRow(headers, body[k]).value
  {
    var parsed := seq(|body|, k requires 0 <= k < |body| => ParseRow(headers, body[k]));
    assert forall k :: 0 <= k < |body| ==> parsed[k] == ParseRow(headers, body[k]);
    Collect(parsed)
  }

  /** `read_students_from_file` after the file is read: one dictionary per line after the
      header, or the empty list when there is no header line or any data line fails. */
  function ParseLines(lines: seq<string>): (r: seq<Row>)
    ensures lines == [] ==> r == []
    ensures r == [] || |r| == |lines| - 1
    ensures forall k :: 0 <= k < |r| ==> Some(r[k]) == ParseRow(Header(lines[0]), lines[k + 1])
  {
    if lines == [] then []
    else match ParseRows(Header(lines[0]), lines[1..])
      case None => []
      case Some(rows) => rows
  }

  /** A successful load has one record per data line, each the parse of that line. */
  lemma ParseLinesSucceeds(lines: seq<string>)
    requires |lines| >= 1
    requires forall k :: 1 <= k < |lines| ==> ParseRow(Header(lines[0]), lines[k]).Some?
    ensures |ParseLines(lines)| == |lines| - 1
    ensures forall k :: 1 <= k < |lines| ==> ParseLines(lines)[k - 1] == ParseRow(Header(lines[0]), lines[k]).value
  {
    assert forall k :: 0 <= k < |lines| - 1 ==> lines[1..][k] == lines[k + 1];
  }

  /** The rows parsed one by one from the data lines are the load's result. */
  lemma ParseLinesAre(lines: seq<string>, rows: seq<Row>)
    requires |lines| >= 1 && |rows| == |lines| - 1
    requires forall k :: 0 <= k < |rows| ==> ParseRow(Header(lines[0]), lines[k + 1]) == Some(rows[k])
    ensures ParseLines(lines) == rows
  {
    forall k | 1 <= k < |lines|
      ensures ParseRow(Header(lines[0]), lines[k]).Some?
    {
      var j := k - 1;
      assert ParseRow(Header(lines[0]), lines[j + 1]) == Some(rows[j]);
    }
    ParseLinesSucceeds(lines);
    forall k | 0 <= k < |rows|
      ensures ParseLines(lines)[k] == rows[k]
    {
      assert ParseRow(Header(lines[0]), lines[k + 1]) == Some(rows[k]);
    }
  }

  /** A failing line, wherever it is, empties the whole result: no partial list. */
  lemma ParseLinesFails(lines: seq<string>, k: nat)
    requires 1 <= k < |lines|
    requires ParseRow(Header(lines[0]), lines[k]).None?
    ensures ParseLines(lines) == []
  {
    assert lines[1..][k - 1] == lines[k];
  }

  /** The loading loop: it builds one new dictionary per data line and appends it, and returns
      the empty list at the first line that fails. */
  method ReadStudents(lines: seq<string>) returns (students: seq<Student>)
    ensures Distinct(students)
    ensures forall s :: s in students ==> fresh(s)
    ensures |students| == |ParseLines(lines)|
    ensures forall k :: 0 <= k < |students| ==> students[k].fields == ParseLines(lines)[k]
  {
    if lines == [] {
      return [];
    }
    var headers := Header(lines[0]);
    students := [];
    ghost var rows: seq<Row> := [];
    var i := 0;
    while i < |lines| - 1
      invariant 0 <= i <= |lines| - 1
      invariant |rows| == i
      invariant forall k :: 0 <= k < i ==> ParseRow(headers, lines[k + 1]) == Some(rows[k])
      invariant |students| == |rows|
      invariant forall k :: 0 <= k < |students| ==> students[k].fields == rows[k]
      invariant forall s :: s in students ==> fresh(s)
      invariant Distinct(students)
    {
      var row := ParseRow(headers, lines[i + 1]);
      if row.None? {
        ParseLinesFails(lines, i + 1);
        return [];
      }
      var student := new Student(row.value);
      DistinctSnoc(students, student);
      students := students + [student];
      rows := rows + [row.value];
      i := i + 1;
    }
    ParseLinesAre(lines, rows);
  }
}
