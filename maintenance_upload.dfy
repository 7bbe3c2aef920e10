/** The maintenance CSV import of components/maintenance/maintenance-upload-form.tsx:
    the header is checked by name, every data row is validated in a fixed
    order, and the records are submitted one at a time, fail-fast. */
module MaintenanceUpload {
  import opened Wrappers
  import opened Text

  /** `Date.parse` (and `new Date(s)`, which parses the same way): the
      timestamp of a date text, or None for NaN. */
  type DateParser = string -> Option<int>

  datatype MaintenanceType = Preventive | Corrective

  /** The record sent to the service; the two dates are the parsed
      timestamps (the source sends them as ISO strings of those instants). */
  datatype Maintenance = Maintenance(vehicleId: string, startDate: int, endDate: int, kind: MaintenanceType)

  /** Why one data row was rejected; the checks run in the order listed. */
  datatype Reason =
    | UnknownVehicle(vehicleId: string)
    | InvalidStartDate
    | InvalidEndDate
    | EndNotAfterStart
    | InvalidType

  /** What `parseCSV` throws. */
  datatype ImportError =
    | NoLines                                // `lines[0]` is undefined
    | MissingColumns(names: seq<string>)
    | RowRejected(line: nat, reason: Reason)

  /** A data row: header name to trimmed value, with the row's line number. */
  type Row = map<string, string>
  datatype RawRow = RawRow(line: nat, fields: Row)

  const RequiredHeaders: seq<string> := ["vehicle_id", "start_date", "end_date", "type"]

  /** A maintenance record that satisfies what the import promises. */
  predicate WellFormed(m: Maintenance, vehicleIds: set<string>) {
    m.vehicleId != "" && m.vehicleId in vehicleIds && m.startDate < m.endDate
  }

  function KindName(kind: MaintenanceType): string {
    match kind
    case Preventive => "PREVENTIVE"
    case Corrective => "CORRECTIVE"
  }

  // ---------------------------------------------------------------------
  // header

  /** The column names of the header line: split on commas, each piece
      trimmed and lower-cased. */
  function HeaderNames(line: string): seq<string> {
    var parts := Split(line, ',');
    seq(|parts|, i requires 0 <= i < |parts| => ToLower(Trim(parts[i])))
  }

  /** The header check is case-insensitive: two header lines that differ only
      in the case of their letters give the same names. */
  lemma HeaderNamesIgnoreCase(a: string, b: string)
    requires ToLower(a) == ToLower(b)
    ensures HeaderNames(a) == HeaderNames(b)
  {
    SplitLower(a);
    SplitLower(b);
    var pa, pb := Split(a, ','), Split(b, ',');
    assert |pa| == |pb|;
    forall i | 0 <= i < |pa|
      ensures ToLower(Trim(pa[i])) == ToLower(Trim(pb[i]))
    {
      TrimLower(pa[i]);
      TrimLower(pb[i]);
      assert ToLower(pa[i]) == ToLower(pb[i]);
    }
  }

  /** The required names the header does not include: exactly the
      required names that the header lacks, in the order they are required. */
  function MissingFrom(required: seq<string>, headers: seq<string>): (missing: seq<string>)
    ensures forall h :: h in missing <==> h in required && h !in headers
    ensures IsSubsequence(missing, required)
  {
    if required == [] then []
    else
      var rest := MissingFrom(required[1..], headers);
      assert forall h | h in required :: h == required[0] || h in required[1..];
      if required[0] in headers then
        assert rest == [] || rest[0] != required[0];
        rest
      else [required[0]] + rest
  }

  function MissingHeaders(headers: seq<string>): seq<string> {
    MissingFrom(RequiredHeaders, headers)
  }

  // ---------------------------------------------------------------------
  // one data row

  /** The row dictionary: each header name mapped to the value in its
      column, a later column overwriting an earlier one of the same name;
      the keys are exactly the header names. */
  function RowOf(headers: seq<string>, values: seq<string>): (row: Row)
    requires |headers| == |values|
    ensures forall h :: h in row <==> h in headers
  {
    if headers == [] then map[]
    else
      var n := |headers| - 1;
      var prefix := RowOf(headers[..n], values[..n]);
      assert forall h | h in headers :: h in headers[..n] || h == headers[n];
      prefix[headers[n] := values[n]]
  }

  /** No column after column `j` has the same name. */
  predicate IsLastOccurrence(headers: seq<string>, j: nat)
    requires j < |headers|
  {
    forall j' | j < j' < |headers| :: headers[j'] != headers[j]
  }

  /** A name that heads two columns takes the value of the last of them. */
  lemma {:induction false} RowOfLastWins(headers: seq<string>, values: seq<string>, j: nat)
    requires |headers| == |values|
    requires j < |headers| && IsLastOccurrence(headers, j)
    ensures RowOf(headers, values)[headers[j]] == values[j]
  {
    var n := |headers| - 1;
    if j < n {
      assert headers[n] != headers[j];
      var h, v := headers[..n], values[..n];
      assert h[j] == headers[j] && v[j] == values[j];
      assert IsLastOccurrence(h, j) by {
        forall j' | j < j' < n ensures h[j'] != h[j] {
          assert h[j'] == headers[j'];
        }
      }
      RowOfLastWins(h, v, j);
    }
  }

  /** The `forEach` loop that fills the row dictionary. */
  method BuildRow(headers: seq<string>, values: seq<string>) returns (row: Row)
    requires |headers| == |values|
    ensures row == RowOf(headers, values)
  {
    row := map[];
    var j := 0;
    while j < |headers|
      invariant 0 <= j <= |headers|
      invariant row == RowOf(headers[..j], values[..j])
    {
      assert headers[..j + 1][..j] == headers[..j];
      assert values[..j + 1][..j] == values[..j];
      row := row[headers[j] := values[j]];
      j := j + 1;
    }
    assert headers[..j] == headers && values[..j] == values;
  }

  predicate HasRequired(row: Row) {
    "vehicle_id" in row && "start_date" in row && "end_date" in row && "type" in row
  }

  /** Check number `check` of the fixed order fails on `row`: 0 the vehicle
      id, 1 the start date, 2 the end date, 3 start before end, 4 the type. */
  predicate Violates(check: nat, row: Row, vehicleIds: set<string>, parseDate: DateParser)
    requires HasRequired(row)
  {
    var id, start, end := row["vehicle_id"], row["start_date"], row["end_date"];
    match check
    case 0 => id == "" || id !in vehicleIds
    case 1 => start == "" || parseDate(start).None?
    case 2 => end == "" || parseDate(end).None?
    case 3 => parseDate(start).Some? && parseDate(end).Some? && parseDate(start).value >= parseDate(end).value
    case 4 => ToUpper(row["type"]) != "PREVENTIVE" && ToUpper(row["type"]) != "CORRECTIVE"
    case _ => false
  }

  /** Position of a rejection reason in the order of the checks. */
  function Rank(reason: Reason): nat {
    match reason
    case UnknownVehicle(_) => 0
    case InvalidStartDate => 1
    case InvalidEndDate => 2
    case EndNotAfterStart => 3
    case InvalidType => 4
  }

  /** The body of the row loop after the row is built: the first check that
      fails rejects the row with its line number; a row that passes every
      check gives a well-formed record with the row's id, its parsed dates
      and its type upper-cased. */
  function ValidateRow(raw: RawRow, vehicleIds: set<string>, parseDate: DateParser)
    : (r: Result<Maintenance, ImportError>)
    requires HasRequired(raw.fields)
    ensures var row := raw.fields;
      r.Ok? <==> forall check | 0 <= check < 5 :: !Violates(check, row, vehicleIds, parseDate)
    ensures var row := raw.fields;
      r.Err? ==>
      && r.error.RowRejected? && r.error.line == raw.line
      && Violates(Rank(r.error.reason), row, vehicleIds, parseDate)
      && (forall check | 0 <= check < Rank(r.error.reason) :: !Violates(check, row, vehicleIds, parseDate))
      && (r.error.reason.UnknownVehicle? ==> r.error.reason.vehicleId == row["vehicle_id"])
    ensures var row := raw.fields;
      r.Ok? ==>
      && WellFormed(r.value, vehicleIds)
      && r.value.vehicleId == row["vehicle_id"]
      && parseDate(row["start_date"]) == Some(r.value.startDate)
      && parseDate(row["end_date"]) == Some(r.value.endDate)
      && KindName(r.value.kind) == ToUpper(row["type"])
  {
    var row, line := raw.fields, raw.line;
    var id, start, end := row["vehicle_id"], row["start_date"], row["end_date"];
    var kind := ToUpper(row["type"]);
    if Violates(0, row, vehicleIds, parseDate) then Err(RowRejected(line, UnknownVehicle(id)))
    else if Violates(1, row, vehicleIds, parseDate) then Err(RowRejected(line, InvalidStartDate))
    else if Violates(2, row, vehicleIds, parseDate) then Err(RowRejected(line, InvalidEndDate))
    else if Violates(3, row, vehicleIds, parseDate) then Err(RowRejected(line, EndNotAfterStart))
    else if Violates(4, row, vehicleIds, parseDate) then Err(RowRejected(line, InvalidType))
    else
      Ok(Maintenance(id, parseDate(start).value, parseDate(end).value,
                     if kind == "PREVENTIVE" then Preventive else Corrective))
  }

  // ---------------------------------------------------------------------
  // all data rows

  /** The trimmed comma-separated fields of every line. */
  function FieldTable(lines: seq<string>): (table: seq<seq<string>>)
    ensures |table| == |lines|
  {
    if lines == [] then [] else FieldTable(lines[..|lines| - 1]) + [Fields(lines[|lines| - 1])]
  }

  /** Entry `i` of the table holds the fields of line `i`. */
  lemma {:induction false} FieldTableAt(lines: seq<string>, i: nat)
    requires i < |lines|
    ensures FieldTable(lines)[i] == Fields(lines[i])
  {
    if i < |lines| - 1 {
      FieldTableAt(lines[..|lines| - 1], i);
    }
  }

  /** The data rows among lines 1 .. hi - 1 whose field count equals the
      header's, in file order, as their dictionaries; the row at index i
      carries line number i + 1 (an index into the blank-filtered lines, not
      into the original file). `table` holds the fields of every line. */
  function ShapedRows(headers: seq<string>, table: seq<seq<string>>, hi: nat): (rows: seq<RawRow>)
    requires hi <= |table|
    ensures rows == [] || |rows| < hi
    ensures forall k | 0 <= k < |rows| :: 2 <= rows[k].line <= hi
  {
    if hi <= 1 then []
    else
      var rows := ShapedRows(headers, table, hi - 1);
      if |table[hi - 1]| == |headers| then rows + [RawRow(hi, RowOf(headers, table[hi - 1]))] else rows
  }

  /** Each shaped row is the dictionary of a line of the header's width,
      and carries that line's number. */
  lemma {:induction false} ShapedRowAt(headers: seq<string>, table: seq<seq<string>>, hi: nat, k: nat)
    requires hi <= |table|
    requires k < |ShapedRows(headers, table, hi)|
    ensures var row := ShapedRows(headers, table, hi)[k];
      && |table[row.line - 1]| == |headers|
      && row.fields == RowOf(headers, table[row.line - 1])
  {
    var prefix := ShapedRows(headers, table, hi - 1);
    if k < |prefix| {
      ShapedRowAt(headers, table, hi - 1, k);
      assert ShapedRows(headers, table, hi)[k] == prefix[k];
    }
  }

  /** Every line of the header's width gives a row: none is skipped except
      for its width. */
  lemma {:induction false} ShapedRowsComplete(headers: seq<string>, table: seq<seq<string>>, hi: nat, i: nat)
    requires hi <= |table|
    requires 1 <= i < hi && |table[i]| == |headers|
    ensures exists k | 0 <= k < |ShapedRows(headers, table, hi)| :: ShapedRows(headers, table, hi)[k].line == i + 1
  {
    var rows := ShapedRows(headers, table, hi);
    if i == hi - 1 {
      assert rows[|rows| - 1].line == i + 1;
    } else {
      ShapedRowsComplete(headers, table, hi - 1, i);
      var prefix := ShapedRows(headers, table, hi - 1);
      var k :| 0 <= k < |prefix| && prefix[k].line == i + 1;
      assert rows[k] == prefix[k];
    }
  }

  /** The rows come in file order. */
  lemma {:induction false} ShapedRowsOrdered(headers: seq<string>, table: seq<seq<string>>, hi: nat)
    requires hi <= |table|
    ensures forall k, k' | 0 <= k < k' < |ShapedRows(headers, table, hi)| ::
      ShapedRows(headers, table, hi)[k].line < ShapedRows(headers, table, hi)[k'].line
  {
    if hi > 1 {
      ShapedRowsOrdered(headers, table, hi - 1);
      var prefix := ShapedRows(headers, table, hi - 1);
      var rows := ShapedRows(headers, table, hi);
      forall k, k' | 0 <= k < k' < |rows|
        ensures rows[k].line < rows[k'].line
      {
        assert rows[k] == prefix[k];
        if k' < |prefix| {
          assert rows[k'] == prefix[k'];
          assert prefix[k].line < prefix[k'].line;
        } else {
          assert prefix[k].line <= hi - 1;
          assert rows[k'].line == hi;
        }
      }
    }
  }

  /** What a line of the wrong width holds never matters: replacing it by any
      other line of the wrong width leaves the rows as they were. */
  lemma {:induction false} SkippedLineIgnored(headers: seq<string>, table: seq<seq<string>>, hi: nat,
                                              i: nat, other: seq<string>)
    requires hi <= |table| && i < |table|
    requires |table[i]| != |headers| && |other| != |headers|
    ensures ShapedRows(headers, table[i := other], hi) == ShapedRows(headers, table, hi)
  {
    if hi > 1 {
      SkippedLineIgnored(headers, table, hi - 1, i, other);
      assert table[i := other][hi - 1] == if i == hi - 1 then other else table[hi - 1];
    }
  }

  /** Every row of `rows` has the four required keys. */
  predicate AllHaveRequired(rows: seq<RawRow>) {
    forall k | 0 <= k < |rows| :: HasRequired(rows[k].fields)
  }

  /** Every row built under a header that has the required names has the
      required keys. */
  lemma RowsHaveRequired(headers: seq<string>, table: seq<seq<string>>, hi: nat)
    requires hi <= |table|
    requires forall h | h in RequiredHeaders :: h in headers
    ensures AllHaveRequired(ShapedRows(headers, table, hi))
  {
    assert "vehicle_id" in RequiredHeaders && "start_date" in RequiredHeaders;
    assert "end_date" in RequiredHeaders && "type" in RequiredHeaders;
    var rows := ShapedRows(headers, table, hi);
    forall k | 0 <= k < |rows|
      ensures HasRequired(rows[k].fields)
    {
      ShapedRowAt(headers, table, hi, k);
    }
  }

  /** The outcome of validating each row on its own. */
  function Checks(rows: seq<RawRow>, vehicleIds: set<string>, parseDate: DateParser)
    : (rs: seq<Result<Maintenance, ImportError>>)
    requires AllHaveRequired(rows)
    ensures |rs| == |rows|
    ensures forall k | 0 <= k < |rows| :: rs[k] == ValidateRow(rows[k], vehicleIds, parseDate)
  {
    seq(|rows|, k requires 0 <= k < |rows| => ValidateRow(rows[k], vehicleIds, parseDate))
  }

  /** The outcomes taken in order, stopping at the first error: what a loop
      that throws on the first bad row and otherwise collects the values
      produces. */
  function Collect<T, E>(rs: seq<Result<T, E>>): Result<seq<T>, E> {
    if rs == [] then Ok([]) else Append(Collect(rs[..|rs| - 1]), rs[|rs| - 1])
  }

  /** One more outcome after those collected so far. */
  function Append<T, E>(acc: Result<seq<T>, E>, next: Result<T, E>): Result<seq<T>, E> {
    match acc
    case Err(e) => Err(e)
    case Ok(done) =>
      match next
      case Err(e) => Err(e)
      case Ok(v) => Ok(done + [v])
  }

  /** First failure wins: the collection succeeds exactly when every outcome
      does, and then holds every value, in order; otherwise its error is
      that of the first failing outcome. */
  lemma {:induction false} CollectFirstFailure<T, E>(rs: seq<Result<T, E>>)
    ensures var r := Collect(rs);
      && (r.Ok? <==> forall k | 0 <= k < |rs| :: rs[k].Ok?)
      && (r.Ok? ==> |r.value| == |rs| && forall k | 0 <= k < |rs| :: rs[k] == Ok(r.value[k]))
      && (r.Err? ==> exists k | 0 <= k < |rs| :: rs[k] == Err(r.error) && forall j | 0 <= j < k :: rs[j].Ok?)
  {
    if rs != [] {
      var n := |rs| - 1;
      var prefix := rs[..n];
      assert forall k | 0 <= k < n :: prefix[k] == rs[k];
      CollectFirstFailure(prefix);
      var r := Collect(rs);
      match Collect(prefix)
      case Err(e) =>
        var k :| 0 <= k < n && prefix[k] == Err(e) && forall j | 0 <= j < k :: prefix[j].Ok?;
        assert rs[k] == Err(r.error);
      case Ok(done) =>
        match rs[n]
        case Err(e) =>
          assert rs[n] == Err(r.error);
        case Ok(v) =>
          assert r.value == done + [v];
    }
  }

  /** The rows validated in order, stopping at the first rejection: the
      reference meaning of the row loop. */
  function ValidateAll(rows: seq<RawRow>, vehicleIds: set<string>, parseDate: DateParser)
    : Result<seq<Maintenance>, ImportError>
    requires AllHaveRequired(rows)
  {
    Collect(Checks(rows, vehicleIds, parseDate))
  }

  /** Validating one more row after some others. */
  lemma ValidateAllSnoc(rows: seq<RawRow>, last: RawRow, vehicleIds: set<string>, parseDate: DateParser)
    requires AllHaveRequired(rows) && HasRequired(last.fields)
    ensures AllHaveRequired(rows + [last])
    ensures ValidateAll(rows + [last], vehicleIds, parseDate)
         == Append(ValidateAll(rows, vehicleIds, parseDate), ValidateRow(last, vehicleIds, parseDate))
  {
    var all := rows + [last];
    assert forall k | 0 <= k < |rows| :: all[k] == rows[k];
    var rs := Checks(all, vehicleIds, parseDate);
    assert rs[..|rs| - 1] == Checks(rows, vehicleIds, parseDate);
  }

  /** When nothing is missing every required name is in the header. */
  lemma NothingMissing(headers: seq<string>)
    requires MissingHeaders(headers) == []
    ensures forall h | h in RequiredHeaders :: h in headers
  {
  }

  /** A row built under a header that has the required names has the
      required keys. */
  lemma RowOfHasRequired(headers: seq<string>, values: seq<string>)
    requires |values| == |headers|
    requires forall h | h in RequiredHeaders :: h in headers
    ensures HasRequired(RowOf(headers, values))
  {
    assert "vehicle_id" in RequiredHeaders && "start_date" in RequiredHeaders;
    assert "end_date" in RequiredHeaders && "type" in RequiredHeaders;
  }

  // ---------------------------------------------------------------------
  // the row loop

  /** The outcome of the row loop of `parseCSV` once it has handled lines
      1 .. hi - 1: a line of the wrong width leaves it as it was, any other
      line's row is validated after the rows before it. */
  function RowLoop(headers: seq<string>, table: seq<seq<string>>, hi: nat,
                   vehicleIds: set<string>, parseDate: DateParser): Result<seq<Maintenance>, ImportError>
    requires hi <= |table|
    requires forall h | h in RequiredHeaders :: h in headers
  {
    if hi <= 1 then Ok([])
    else
      var before := RowLoop(headers, table, hi - 1, vehicleIds, parseDate);
      var values := table[hi - 1];
      if |values| != |headers| then before
      else
        RowOfHasRequired(headers, values);
        Append(before, ValidateRow(RawRow(hi, RowOf(headers, values)), vehicleIds, parseDate))
  }

  /** The row loop validates exactly the rows of the header's width, in
      order, and stops at the first rejection. */
  lemma {:induction false} RowLoopValidatesShapedRows(headers: seq<string>, table: seq<seq<string>>, hi: nat,
                                                      vehicleIds: set<string>, parseDate: DateParser)
    requires hi <= |table|
    requires forall h | h in RequiredHeaders :: h in headers
    ensures (RowsHaveRequired(headers, table, hi);
      RowLoop(headers, table, hi, vehicleIds, parseDate)
      == ValidateAll(ShapedRows(headers, table, hi), vehicleIds, parseDate))
  {
    RowsHaveRequired(headers, table, hi);
    if hi > 1 {
      RowLoopValidatesShapedRows(headers, table, hi - 1, vehicleIds, parseDate);
      RowsHaveRequired(headers, table, hi - 1);
      var values := table[hi - 1];
      if |values| == |headers| {
        RowOfHasRequired(headers, values);
        var prefix := ShapedRows(headers, table, hi - 1);
        var last := RawRow(hi, RowOf(headers, values));
        assert ShapedRows(headers, table, hi) == prefix + [last];
        ValidateAllSnoc(prefix, last, vehicleIds, parseDate);
      }
    }
  }

  /** Once a row is rejected no later line changes the error: the loop
      stops at the first bad row. */
  lemma {:induction false} RejectionIsFinal(headers: seq<string>, table: seq<seq<string>>, lo: nat, hi: nat,
                                            vehicleIds: set<string>, parseDate: DateParser)
    requires lo <= hi <= |table|
    requires forall h | h in RequiredHeaders :: h in headers
    requires RowLoop(headers, table, lo, vehicleIds, parseDate).Err?
    ensures RowLoop(headers, table, hi, vehicleIds, parseDate) == RowLoop(headers, table, lo, vehicleIds, parseDate)
    decreases hi - lo
  {
    if lo < hi {
      assert RowLoop(headers, table, lo + 1, vehicleIds, parseDate) == RowLoop(headers, table, lo, vehicleIds, parseDate);
      RejectionIsFinal(headers, table, lo + 1, hi, vehicleIds, parseDate);
    }
  }

  /** One turn of the row loop, on the fields of line `i`. */
  lemma RowLoopStep(headers: seq<string>, table: seq<seq<string>>, i: nat, values: seq<string>,
                    vehicleIds: set<string>, parseDate: DateParser)
    requires 1 <= i < |table| && table[i] == values
    requires forall h | h in RequiredHeaders :: h in headers
    ensures |values| != |headers| ==>
      RowLoop(headers, table, i + 1, vehicleIds, parseDate) == RowLoop(headers, table, i, vehicleIds, parseDate)
    ensures |values| == |headers| ==> (RowOfHasRequired(headers, values);
      RowLoop(headers, table, i + 1, vehicleIds, parseDate)
      == Append(RowLoop(headers, table, i, vehicleIds, parseDate),
                ValidateRow(RawRow(i + 1, RowOf(headers, values)), vehicleIds, parseDate)))
  {
    if |values| == |headers| {
      RowOfHasRequired(headers, values);
    }
  }

  /** Building and validating the dictionary of one line of the header's
      width (lines 53-84). */
  method CheckLine(headers: seq<string>, values: seq<string>, line: nat,
                   vehicleIds: set<string>, parseDate: DateParser)
    returns (checked: Result<Maintenance, ImportError>)
    requires |values| == |headers|
    requires forall h | h in RequiredHeaders :: h in headers
    ensures HasRequired(RowOf(headers, values))
    ensures checked == ValidateRow(RawRow(line, RowOf(headers, values)), vehicleIds, parseDate)
  {
    RowOfHasRequired(headers, values);
    var row := BuildRow(headers, values);
    checked := ValidateRow(RawRow(line, row), vehicleIds, parseDate);
  }

  /** One turn of the row loop on line `i`, whose trimmed fields are
      `values`: a line of the wrong width is skipped (lines 51-52), any other
      is validated and, when accepted, appended to the rows so far. */
  method NextLine(headers: seq<string>, ghost table: seq<seq<string>>, i: nat, values: seq<string>,
                  result: seq<Maintenance>, vehicleIds: set<string>, parseDate: DateParser)
    returns (r: Result<seq<Maintenance>, ImportError>)
    requires 1 <= i < |table| && table[i] == values
    requires forall h | h in RequiredHeaders :: h in headers
    requires RowLoop(headers, table, i, vehicleIds, parseDate) == Ok(result)
    ensures r == RowLoop(headers, table, i + 1, vehicleIds, parseDate)
  {
    RowLoopStep(headers, table, i, values, vehicleIds, parseDate);
    if |values| != |headers| {
      return Ok(result);
    }
    var checked := CheckLine(headers, values, i + 1, vehicleIds, parseDate);
    if checked.Err? {
      return Err(checked.error);
    }
    r := Ok(result + [checked.value]);
  }

  /** The row loop of `parseCSV` (lines 49-86): rows of the wrong width are
      skipped, the others built into dictionaries and validated, and the
      first invalid one throws. */
  method ValidateLines(headers: seq<string>, lines: seq<string>, vehicleIds: set<string>, parseDate: DateParser)
    returns (r: Result<seq<Maintenance>, ImportError>)
    requires |lines| >= 1
    requires forall h | h in RequiredHeaders :: h in headers
    ensures r == RowLoop(headers, FieldTable(lines), |lines|, vehicleIds, parseDate)
  {
    ghost var table := FieldTable(lines);
    var result: seq<Maintenance> := [];
    var i := 1;
    while i < |lines|
      invariant 1 <= i <= |lines|
      invariant RowLoop(headers, table, i, vehicleIds, parseDate) == Ok(result)
    {
      var values := Fields(lines[i]);
      FieldTableAt(lines, i);
      var next := NextLine(headers, table, i, values, result, vehicleIds, parseDate);
      if next.Err? {
        RejectionIsFinal(headers, table, i + 1, |lines|, vehicleIds, parseDate);
        return next;
      }
      result := next.value;
      i := i + 1;
    }
    r := Ok(result);
  }

  // ---------------------------------------------------------------------
  // parseCSV

  /** What `parseCSV` returns or throws, for the reference vehicle ids of the
      form and the date parser. */
  function Parse(text: string, vehicleIds: set<string>, parseDate: DateParser): Result<seq<Maintenance>, ImportError> {
    var lines := NonBlankLines(text);
    if |lines| == 0 then Err(NoLines)
    else
      var headers := HeaderNames(lines[0]);
      var missing := MissingHeaders(headers);
      if missing != [] then Err(MissingColumns(missing))
      else
        NothingMissing(headers);
        RowLoop(headers, FieldTable(lines), |lines|, vehicleIds, parseDate)
  }

  /** `parseCSV` (lines 34-89): blank lines dropped, the header checked, then
      the row loop. */
  method ParseCsv(text: string, vehicleIds: set<string>, parseDate: DateParser)
    returns (r: Result<seq<Maintenance>, ImportError>)
    ensures r == Parse(text, vehicleIds, parseDate)
  {
    var lines := NonBlankLines(text);
    if |lines| == 0 {
      return Err(NoLines);
    }
    var headers := HeaderNames(lines[0]);
    var missing := MissingHeaders(headers);
    if |missing| > 0 {
      return Err(MissingColumns(missing));
    }
    NothingMissing(headers);
    r := ValidateLines(headers, lines, vehicleIds, parseDate);
  }

  // ---------------------------------------------------------------------
  // what parseCSV returns

  /** The text has a header line that names every required column. */
  predicate HeaderAccepted(text: string) {
    var lines := NonBlankLines(text);
    lines != [] && MissingHeaders(HeaderNames(lines[0])) == []
  }

  /** The data rows of an accepted text: its lines of the header's width,
      as dictionaries, each with its line number. */
  function DataRows(text: string): seq<RawRow>
    requires HeaderAccepted(text)
  {
    var lines := NonBlankLines(text);
    ShapedRows(HeaderNames(lines[0]), FieldTable(lines), |lines|)
  }

  /** A text without lines or without a required column is refused before
      any data row is looked at; otherwise the outcome is that of validating
      the data rows in order, stopping at the first rejection. */
  lemma ParseMeaning(text: string, vehicleIds: set<string>, parseDate: DateParser)
    ensures !HeaderAccepted(text) ==>
      var r := Parse(text, vehicleIds, parseDate);
      r.Err? && (r.error.NoLines? || (r.error.MissingColumns? && r.error.names != []))
    ensures HeaderAccepted(text) ==>
      AllHaveRequired(DataRows(text))
      && Parse(text, vehicleIds, parseDate) == ValidateAll(DataRows(text), vehicleIds, parseDate)
  {
    var lines := NonBlankLines(text);
    if HeaderAccepted(text) {
      var headers := HeaderNames(lines[0]);
      NothingMissing(headers);
      RowsHaveRequired(headers, FieldTable(lines), |lines|);
      RowLoopValidatesShapedRows(headers, FieldTable(lines), |lines|, vehicleIds, parseDate);
    }
  }

  /** Validation in order accepts rows one record each, every record
      well-formed. */
  lemma ValidateAllAccepted(rows: seq<RawRow>, vehicleIds: set<string>, parseDate: DateParser)
    requires AllHaveRequired(rows)
    requires ValidateAll(rows, vehicleIds, parseDate).Ok?
    ensures var records := ValidateAll(rows, vehicleIds, parseDate).value;
      && |records| == |rows|
      && (forall k | 0 <= k < |rows| :: ValidateRow(rows[k], vehicleIds, parseDate) == Ok(records[k]))
      && forall m | m in records :: WellFormed(m, vehicleIds)
  {
    var rs := Checks(rows, vehicleIds, parseDate);
    CollectFirstFailure(rs);
    var records := ValidateAll(rows, vehicleIds, parseDate).value;
    forall m | m in records
      ensures WellFormed(m, vehicleIds)
    {
      var k :| 0 <= k < |records| && records[k] == m;
      assert rs[k] == Ok(records[k]);
    }
  }

  /** Validation in order fails with the error of the first row that fails
      its checks; every row before it passed. */
  lemma ValidateAllRejected(rows: seq<RawRow>, vehicleIds: set<string>, parseDate: DateParser)
    requires AllHaveRequired(rows)
    requires ValidateAll(rows, vehicleIds, parseDate).Err?
    ensures var e := ValidateAll(rows, vehicleIds, parseDate).error;
      exists k | 0 <= k < |rows| ::
        && ValidateRow(rows[k], vehicleIds, parseDate) == Err(e)
        && rows[k].line == e.line
        && forall j | 0 <= j < k :: ValidateRow(rows[j], vehicleIds, parseDate).Ok?
  {
    var rs := Checks(rows, vehicleIds, parseDate);
    CollectFirstFailure(rs);
    var e := ValidateAll(rows, vehicleIds, parseDate).error;
    var k :| 0 <= k < |rs| && rs[k] == Err(e) && forall j | 0 <= j < k :: rs[j].Ok?;
    assert ValidateRow(rows[k], vehicleIds, parseDate) == Err(e);
  }

  /** An accepted import holds one well-formed record per data row, in file
      order, so never more records than data lines. */
  lemma ParseAccepted(text: string, vehicleIds: set<string>, parseDate: DateParser)
    requires Parse(text, vehicleIds, parseDate).Ok?
    ensures HeaderAccepted(text) && AllHaveRequired(DataRows(text))
    ensures var records, rows := Parse(text, vehicleIds, parseDate).value, DataRows(text);
      && |records| == |rows| < |NonBlankLines(text)|
      && (forall k | 0 <= k < |rows| :: ValidateRow(rows[k], vehicleIds, parseDate) == Ok(records[k]))
      && forall m | m in records :: WellFormed(m, vehicleIds)
  {
    ParseMeaning(text, vehicleIds, parseDate);
    ValidateAllAccepted(DataRows(text), vehicleIds, parseDate);
  }

  /** A rejected data row aborts the import: the error is that of the first
      data row that fails its checks, and every row before it passed. */
  lemma ParseRejectsFirstBadRow(text: string, vehicleIds: set<string>, parseDate: DateParser)
    requires Parse(text, vehicleIds, parseDate).Err?
    requires Parse(text, vehicleIds, parseDate).error.RowRejected?
    ensures HeaderAccepted(text) && AllHaveRequired(DataRows(text))
    ensures var e, rows := Parse(text, vehicleIds, parseDate).error, DataRows(text);
      exists k | 0 <= k < |rows| ::
        && ValidateRow(rows[k], vehicleIds, parseDate) == Err(e)
        && rows[k].line == e.line
        && forall j | 0 <= j < k :: ValidateRow(rows[j], vehicleIds, parseDate).Ok?
  {
    ParseMeaning(text, vehicleIds, parseDate);
    ValidateAllRejected(DataRows(text), vehicleIds, parseDate);
  }

  // ---------------------------------------------------------------------
  // submission

  /** `Math.round` of the percentage k out of n, in exact arithmetic: the
      nearest whole percentage, halves rounded up. */
  function RoundedPercent(k: nat, n: nat): (p: nat)
    requires 0 < n
    ensures 2 * n * p <= 200 * k + n < 2 * n * p + 2 * n
  {
    (200 * k + n) / (2 * n)
  }

  /** The progress bar after `k` of `n` records were accepted: still 0 before
      the first success, which is the only time it is set. */
  function ProgressAfter(k: nat, n: nat): nat
    requires k <= n
  {
    if k == 0 then 0 else RoundedPercent(k, n)
  }

  /** Integer division never decreases as the dividend grows. */
  lemma DivMonotone(a: nat, b: nat, d: nat)
    requires a <= b && 0 < d
    ensures a / d <= b / d
  {
    var qa, qb := a / d, b / d;
    assert qa * d <= a;
    assert b < qb * d + d;
    if qa > qb {
      assert qa >= qb + 1;
      assert qa * d >= (qb + 1) * d by {
        MulMonotone(qb + 1, qa, d);
      }
    }
  }

  lemma MulMonotone(a: nat, b: nat, d: nat)
    requires a <= b
    ensures a * d <= b * d
  {
  }

  /** The rounded percentage of all `n` records is exactly 100. */
  lemma RoundedPercentFull(n: nat)
    requires 0 < n
    ensures RoundedPercent(n, n) == 100
  {
    var p := RoundedPercent(n, n);
    if p > 100 {
      MulMonotone(101, p, 2 * n);
    } else if p < 100 {
      MulMonotone(p, 99, 2 * n);
    }
  }

  /** Progress never goes down while records are accepted, reaches 100 when
      all of them are, and never exceeds it. */
  lemma ProgressMonotone(k: nat, k': nat, n: nat)
    requires k <= k' <= n
    ensures ProgressAfter(k, n) <= ProgressAfter(k', n) <= 100
    ensures k' == n && 0 < n ==> ProgressAfter(k', n) == 100
  {
    if 0 < k' {
      if 0 < k {
        DivMonotone(200 * k + n, 200 * k' + n, 2 * n);
      }
      DivMonotone(200 * k' + n, 200 * n + n, 2 * n);
      RoundedPercentFull(n);
    }
  }

  /** Rounding can show a full bar before the last record is sent: with 200
      records, 199 accepted already show 100. */
  lemma ProgressFullEarly()
    ensures ProgressAfter(199, 200) == 100
  {
  }

  /** The index of the first refused record among the first `n`, or `n` when
      the service accepts all of them. */
  function FirstRefusal(accepts: nat -> bool, n: nat): (k: nat)
    ensures k <= n
    ensures forall j | 0 <= j < k :: accepts(j)
    ensures k < n ==> !accepts(k)
  {
    if n == 0 then 0
    else
      var k := FirstRefusal(accepts, n - 1);
      if k < n - 1 || !accepts(n - 1) then k else n
  }

  /** The first refusal, once it happened, stays the first refusal. */
  lemma {:induction false} FirstRefusalFinal(accepts: nat -> bool, m: nat, n: nat)
    requires m <= n && FirstRefusal(accepts, m) < m
    ensures FirstRefusal(accepts, n) == FirstRefusal(accepts, m)
    decreases n - m
  {
    if m < n {
      FirstRefusalFinal(accepts, m + 1, n);
    }
  }

  /** The fail-fast submission loop (lines 110-116): the records are sent one
      at a time, in order; each acceptance raises `processed` and sets the
      rounded progress; the first refusal abandons the loop. `shown` lists
      the successive progress values set. */
  method SubmitAll(records: seq<Maintenance>, accepts: nat -> bool)
    returns (calls: seq<Maintenance>, processed: nat, progress: nat, shown: seq<nat>)
    ensures processed == FirstRefusal(accepts, |records|)
    ensures calls == if processed < |records| then records[..processed + 1] else records
    ensures progress == ProgressAfter(processed, |records|) <= 100
    ensures |shown| == processed
    ensures forall i | 0 <= i < |shown| :: shown[i] == RoundedPercent(i + 1, |records|)
    ensures forall i, j | 0 <= i <= j < |shown| :: shown[i] <= shown[j] <= progress
  {
    var n := |records|;
    calls, processed, progress, shown := [], 0, 0, [];
    while processed < n
      invariant processed <= n
      invariant FirstRefusal(accepts, processed) == processed
      invariant calls == records[..processed]
      invariant progress == ProgressAfter(processed, n)
      invariant |shown| == processed
      invariant forall i | 0 <= i < |shown| :: shown[i] == RoundedPercent(i + 1, n)
      invariant forall i, j | 0 <= i <= j < |shown| :: shown[i] <= shown[j] <= progress
    {
      calls := calls + [records[processed]];
      if !accepts(processed) {
        FirstRefusalFinal(accepts, processed + 1, n);
        ProgressMonotone(processed, processed, n);
        return;
      }
      ProgressMonotone(processed, processed + 1, n);
      processed := processed + 1;
      progress := RoundedPercent(processed, n);
      shown := shown + [progress];
    }
    assert calls == records;
    ProgressMonotone(processed, processed, n);
  }

  /** The upload status shown under the form. */
  datatype UploadStatus = Idle | Succeeded | Failed

  /** What ends an import: the parse error, or the record the service
      refused. The form shows the message of the thrown error. */
  datatype UploadError = ParseFailed(cause: ImportError) | CreateFailed(record: Maintenance)

  /** The toasts the form raises. */
  datatype Notice = NoFileSelected | Completed(count: nat) | Aborted(error: UploadError)

  /** The state of `MaintenanceUploadForm`: the selected file (as its text),
      the upload flag, the status, the error message (None for the empty
      message), the progress and the toasts raised so far. */
  class MaintenanceUploadForm {
    var file: Option<string>
    var uploading: bool
    var status: UploadStatus
    var errorMessage: Option<UploadError>
    var progress: nat
    var notices: seq<Notice>

    /** The initial state (lines 16-20). */
    constructor ()
      ensures file == None && !uploading && status == Idle
      ensures errorMessage == None && progress == 0 && notices == []
    {
      file, uploading, status := None, false, Idle;
      errorMessage, progress, notices := None, 0, [];
    }

    /** `handleFileChange` (lines 25-32): a chosen file replaces the previous
        one and clears the status and the message; no choice changes nothing. */
    method HandleFileChange(chosen: Option<string>)
      modifies this
      ensures chosen.Some? ==> file == chosen && status == Idle && errorMessage == None
      ensures chosen.None? ==> file == old(file) && status == old(status) && errorMessage == old(errorMessage)
      ensures uploading == old(uploading) && progress == old(progress) && notices == old(notices)
    {
      if chosen.Some? {
        file, status, errorMessage := chosen, Idle, None;
      }
    }

    /** `handleSubmit` (lines 91-141): without a file only a toast; otherwise
        the text is parsed and the records are submitted fail-fast. Any
        failure leaves the file selected and shows the error; full success
        clears the file but leaves an earlier message as it was. `calls` are
        the `createMaintenance` calls made, in order. */
    method HandleSubmit(vehicleIds: set<string>, parseDate: DateParser, accepts: nat -> bool)
      returns (calls: seq<Maintenance>)
      modifies this
      ensures old(file).None? ==>
        && calls == [] && notices == old(notices) + [NoFileSelected]
        && file == old(file) && status == old(status) && errorMessage == old(errorMessage)
        && progress == old(progress) && uploading == old(uploading)
      ensures old(file).Some? ==> !uploading
      ensures old(file).Some? && Parse(old(file).value, vehicleIds, parseDate).Err? ==>
        var e := ParseFailed(Parse(old(file).value, vehicleIds, parseDate).error);
        && calls == [] && progress == 0 && file == old(file)
        && status == Failed && errorMessage == Some(e) && notices == old(notices) + [Aborted(e)]
      ensures old(file).Some? && Parse(old(file).value, vehicleIds, parseDate).Ok? ==>
        var records := Parse(old(file).value, vehicleIds, parseDate).value;
        var k := FirstRefusal(accepts, |records|);
        && progress == ProgressAfter(k, |records|)
        && (k < |records| ==>
              && calls == records[..k + 1] && file == old(file) && status == Failed
              && errorMessage == Some(CreateFailed(records[k]))
              && notices == old(notices) + [Aborted(CreateFailed(records[k]))])
        && (k == |records| ==>
              && calls == records && file == None && status == Succeeded
              && errorMessage == old(errorMessage) && notices == old(notices) + [Completed(|records|)])
    {
      if file.None? {
        notices := notices + [NoFileSelected];
        return [];
      }
      uploading, status, progress := true, Idle, 0;
      var parsed := ParseCsv(file.value, vehicleIds, parseDate);
      if parsed.Err? {
        status, errorMessage := Failed, Some(ParseFailed(parsed.error));
        notices := notices + [Aborted(ParseFailed(parsed.error))];
        uploading := false;
        return [];
      }
      var records := parsed.value;
      var processed, shown;
      calls, processed, progress, shown := SubmitAll(records, accepts);
      if processed < |records| {
        status, errorMessage := Failed, Some(CreateFailed(records[processed]));
        notices := notices + [Aborted(CreateFailed(records[processed]))];
      } else {
        status, file := Succeeded, None;
        notices := notices + [Completed(|records|)];
      }
      uploading := false;
    }
  }
}
