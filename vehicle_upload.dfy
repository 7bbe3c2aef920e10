/** The vehicle CSV importer of `VehicleUploadForm`: fields are taken by
    position, short rows are skipped, and every vehicle is submitted once,
    failures being counted out rather than ending the run. */
module VehicleUpload {
  import opened Wrappers
  import opened Text
  import opened Fleet

  /** A position as the importer builds it; NaN coordinates are `None`. */
  datatype Position = Position(x: Option<real>, y: Option<real>)

  /** A vehicle as the importer builds it: the type is the text of the
      column, unchecked, and the numbers are what `parseFloat` makes of it. */
  datatype Vehicle = Vehicle(
    id: string,
    kind: string,
    glpCapacity: Option<real>,
    fuelCapacity: Option<real>,
    currentGLP: Option<real>,
    currentFuel: Option<real>,
    position: Position,
    status: VehicleStatus,
    combinedWeight: real,
    glpWeight: real)

  /** The number of positional columns: id, type, the two capacities, the
      two current levels, x and y. */
  const Columns: nat := 8

  /** Why an import ends before anything is submitted. */
  datatype ImportError =
    | NoLines     // `lines[0]` of an empty list: the TypeError thrown by `.split`
    | NoVehicles  // no data row had enough fields

  // ---------------------------------------------------------------------
  // parseCSV

  /** The vehicle a row of at least eight fields stands for (lines 36-50). */
  function VehicleOf(values: seq<string>, parseFloat: NumberParser): (v: Vehicle)
    requires |values| >= Columns
    ensures v.status == Available && v.combinedWeight == 0.0 && v.glpWeight == 0.0
  {
    Vehicle(
      values[0], values[1],
      parseFloat(values[2]), parseFloat(values[3]),
      parseFloat(values[4]), parseFloat(values[5]),
      Position(parseFloat(values[6]), parseFloat(values[7])),
      Available, 0.0, 0.0)
  }

  /** Fields after the eighth are ignored. */
  lemma ExtraFieldsIgnored(values: seq<string>, parseFloat: NumberParser)
    requires |values| >= Columns
    ensures VehicleOf(values, parseFloat) == VehicleOf(values[..Columns], parseFloat)
  {
    assert forall i | 0 <= i < Columns :: values[..Columns][i] == values[i];
  }

  /** The row is long enough to become a vehicle (line 35). */
  predicate LongEnough(line: string) {
    |Fields(line)| >= Columns
  }

  /** The vehicles the data lines stand for: one per line of at least eight
      fields, in order; shorter lines are dropped. */
  function VehiclesOf(data: seq<string>, parseFloat: NumberParser): (vs: seq<Vehicle>)
    ensures |vs| <= |data|
    ensures forall v | v in vs :: v.status == Available && v.combinedWeight == 0.0 && v.glpWeight == 0.0
  {
    if data == [] then []
    else
      var rest := VehiclesOf(data[..|data| - 1], parseFloat);
      var line := data[|data| - 1];
      if LongEnough(line) then rest + [VehicleOf(Fields(line), parseFloat)] else rest
  }

  /** One more line adds its vehicle at the end, if it is long enough. */
  lemma VehiclesOfSnoc(data: seq<string>, line: string, values: seq<string>, parseFloat: NumberParser)
    requires values == Fields(line)
    ensures VehiclesOf(data + [line], parseFloat)
      == VehiclesOf(data, parseFloat) + (if |values| >= Columns then [VehicleOf(values, parseFloat)] else [])
  {
    assert (data + [line])[..|data|] == data;
  }

  /** The vehicles of two runs of lines are those of each run, in order. */
  lemma {:induction false} VehiclesOfAppend(a: seq<string>, b: seq<string>, parseFloat: NumberParser)
    ensures VehiclesOf(a + b, parseFloat) == VehiclesOf(a, parseFloat) + VehiclesOf(b, parseFloat)
    decreases |b|
  {
    if b != [] {
      var b', line := b[..|b| - 1], b[|b| - 1];
      assert a + b == (a + b') + [line] && b == b' + [line];
      VehiclesOfSnoc(a + b', line, Fields(line), parseFloat);
      VehiclesOfSnoc(b', line, Fields(line), parseFloat);
      VehiclesOfAppend(a, b', parseFloat);
    } else {
      assert a + b == a;
    }
  }

  /** A line with fewer than eight fields is skipped wherever it stands. */
  lemma ShortLineSkipped(a: seq<string>, line: string, b: seq<string>, parseFloat: NumberParser)
    requires !LongEnough(line)
    ensures VehiclesOf(a + [line] + b, parseFloat) == VehiclesOf(a + b, parseFloat)
  {
    VehiclesOfAppend(a + [line], b, parseFloat);
    VehiclesOfAppend(a, b, parseFloat);
    assert (a + [line])[..|a + [line]| - 1] == a;
  }

  /** Every line of eight fields or more gives its vehicle. */
  lemma {:induction false} LongLineKept(data: seq<string>, i: nat, parseFloat: NumberParser)
    requires i < |data| && LongEnough(data[i])
    ensures VehicleOf(Fields(data[i]), parseFloat) in VehiclesOf(data, parseFloat)
  {
    var init, line := data[..|data| - 1], data[|data| - 1];
    assert data == init + [line];
    VehiclesOfSnoc(init, line, Fields(line), parseFloat);
    if i < |init| {
      assert init[i] == data[i];
      LongLineKept(init, i, parseFloat);
    }
  }

  /** Every vehicle comes from a line of eight fields or more. */
  lemma {:induction false} VehicleFromLongLine(data: seq<string>, v: Vehicle, parseFloat: NumberParser)
    requires v in VehiclesOf(data, parseFloat)
    ensures exists i | 0 <= i < |data| :: LongEnough(data[i]) && v == VehicleOf(Fields(data[i]), parseFloat)
  {
    var init, line := data[..|data| - 1], data[|data| - 1];
    assert data == init + [line];
    VehiclesOfSnoc(init, line, Fields(line), parseFloat);
    if v in VehiclesOf(init, parseFloat) {
      VehicleFromLongLine(init, v, parseFloat);
      var i :| 0 <= i < |init| && LongEnough(init[i]) && v == VehicleOf(Fields(init[i]), parseFloat);
      assert init[i] == data[i];
    } else {
      assert LongEnough(data[|data| - 1]);
    }
  }

  /** A row written by joining eight or more trimmed, comma-free fields is
      read back as the vehicle of those fields. */
  lemma RowRoundTrip(fields: seq<string>, parseFloat: NumberParser)
    requires |fields| >= Columns
    requires forall i | 0 <= i < |fields| :: ',' !in fields[i] && Trim(fields[i]) == fields[i]
    ensures VehiclesOf([Join(fields, ',')], parseFloat) == [VehicleOf(fields, parseFloat)]
  {
    FieldsOfJoin(fields);
    assert [Join(fields, ',')][..0] == [];
  }

  /** What `parseCSV` returns or throws: the header line is skipped unread. */
  function Parse(text: string, parseFloat: NumberParser): Result<seq<Vehicle>, ImportError> {
    var lines := NonBlankLines(text);
    if |lines| == 0 then Err(NoLines) else Ok(VehiclesOf(lines[1..], parseFloat))
  }

  /** The header line never becomes a vehicle and is not examined: two texts
      whose non-blank lines differ only in the first give the same result. */
  lemma HeaderIgnored(text: string, text': string, parseFloat: NumberParser)
    requires |NonBlankLines(text)| > 0 && |NonBlankLines(text')| > 0
    requires NonBlankLines(text)[1..] == NonBlankLines(text')[1..]
    ensures Parse(text, parseFloat) == Parse(text', parseFloat)
    ensures Parse(text, parseFloat).Ok? && |Parse(text, parseFloat).value| < |NonBlankLines(text)|
  {
  }

  /** The loop of `parseCSV` (lines 33-52) over the data lines: a vehicle is
      pushed for every row of at least eight fields. */
  method CollectVehicles(data: seq<string>, parseFloat: NumberParser) returns (vehicles: seq<Vehicle>)
    ensures vehicles == VehiclesOf(data, parseFloat)
  {
    vehicles := [];
    for i := 0 to |data|
      invariant vehicles == VehiclesOf(data[..i], parseFloat)
    {
      var values := Fields(data[i]);
      assert data[..i + 1] == data[..i] + [data[i]];
      VehiclesOfSnoc(data[..i], data[i], values, parseFloat);
      if |values| >= Columns {
        vehicles := vehicles + [VehicleOf(values, parseFloat)];
      }
    }
    assert data[..|data|] == data;
  }

  /** `parseCSV` (lines 26-55): blank lines dropped, the header line skipped
      (`lines[0]` throws when there is none), then the row loop. */
  method ParseCsv(text: string, parseFloat: NumberParser) returns (r: Result<seq<Vehicle>, ImportError>)
    ensures r == Parse(text, parseFloat)
  {
    var lines := NonBlankLines(text);
    if |lines| == 0 {
      return Err(NoLines);
    }
    var vehicles := CollectVehicles(lines[1..], parseFloat);
    return Ok(vehicles);
  }

  // ---------------------------------------------------------------------
  // submission

  /** `processed / n * 100` in exact arithmetic. */
  function Percent(k: nat, n: nat): real
    requires 0 < n
  {
    100.0 * k as real / n as real
  }

  /** The percentage grows with `k`, stays within 100 and is 100 only for
      all `n`. */
  lemma PercentMonotone(k: nat, k': nat, n: nat)
    requires k <= k' <= n && 0 < n
    ensures Percent(k, n) <= Percent(k', n) <= 100.0
    ensures Percent(k', n) == 100.0 <==> k' == n
  {
    var d := n as real;
    DivMonotone(100.0 * k as real, 100.0 * k' as real, d);
    DivMonotone(100.0 * k' as real, 100.0 * d, d);
    if k' < n {
      DivStrict(100.0 * k' as real, 100.0 * d, d);
    }
  }

  lemma DivMonotone(x: real, y: real, d: real)
    requires 0.0 < d && x <= y
    ensures x / d <= y / d
  {
  }

  lemma DivStrict(x: real, y: real, d: real)
    requires 0.0 < d && x < y
    ensures x / d < y / d
  {
  }

  /** How many of the first `n` create calls the service accepts. */
  function Successes(accepts: nat -> bool, n: nat): (s: nat)
    ensures s <= n
  {
    if n == 0 then 0 else Successes(accepts, n - 1) + (if accepts(n - 1) then 1 else 0)
  }

  /** All `n` calls succeed exactly when every one of them is accepted. */
  lemma {:induction false} SuccessesAll(accepts: nat -> bool, n: nat)
    ensures Successes(accepts, n) == n <==> forall j | 0 <= j < n :: accepts(j)
  {
    if n > 0 {
      SuccessesAll(accepts, n - 1);
    }
  }

  /** The best-effort submission loop (lines 78-87): every vehicle is sent
      exactly once, in order; a refusal is swallowed; each acceptance raises
      `processed` and sets the unrounded progress. `shown` lists the
      successive progress values set. */
  method SubmitEach(vehicles: seq<Vehicle>, accepts: nat -> bool)
    returns (calls: seq<Vehicle>, processed: nat, shown: seq<real>)
    requires 0 < |vehicles|
    ensures calls == vehicles
    ensures processed == Successes(accepts, |vehicles|)
    ensures |shown| == processed
    ensures forall i | 0 <= i < |shown| :: shown[i] == Percent(i + 1, |vehicles|)
    ensures forall i, j | 0 <= i <= j < |shown| :: shown[i] <= shown[j] <= 100.0
    ensures 100.0 in shown <==> forall j | 0 <= j < |vehicles| :: accepts(j)
  {
    var n := |vehicles|;
    calls, processed, shown := [], 0, [];
    for i := 0 to n
      invariant calls == vehicles[..i]
      invariant processed == Successes(accepts, i) == |shown|
      invariant forall m | 0 <= m < |shown| :: shown[m] == Percent(m + 1, n)
    {
      calls := calls + [vehicles[i]];
      if accepts(i) {
        processed := processed + 1;
        shown := shown + [Percent(processed, n)];
      }
    }
    assert calls == vehicles;
    forall i, j | 0 <= i <= j < |shown|
      ensures shown[i] <= shown[j] <= 100.0
    {
      PercentMonotone(i + 1, j + 1, n);
    }
    SuccessesAll(accepts, n);
    if 100.0 in shown {
      var m :| 0 <= m < |shown| && shown[m] == 100.0;
      PercentMonotone(m + 1, m + 1, n);
    }
    if processed == n {
      PercentMonotone(n, n, n);
      assert shown[n - 1] == 100.0;
    }
  }

  /** The toasts the importer raises. */
  datatype Notice = NoFileSelected | Completed(processed: nat, total: nat) | Aborted(error: ImportError)

  /** The state of `VehicleUploadForm`: the selected file (as its text), the
      upload flag, the progress and the toasts raised so far. */
  class VehicleUploadForm {
    var file: Option<string>
    var uploading: bool
    var progress: real
    var notices: seq<Notice>

    /** The initial state (lines 14-16). */
    constructor ()
      ensures file == None && !uploading && progress == 0.0 && notices == []
    {
      file, uploading, progress, notices := None, false, 0.0, [];
    }

    /** `handleFileChange` (lines 20-24): a chosen file replaces the previous
        one; no choice changes nothing. */
    method HandleFileChange(chosen: Option<string>)
      modifies this
      ensures file == if chosen.Some? then chosen else old(file)
      ensures uploading == old(uploading) && progress == old(progress) && notices == old(notices)
    {
      if chosen.Some? {
        file := chosen;
      }
    }

    /** `handleSubmit` (lines 57-104): without a file only a toast; a text
        with no lines or no vehicle aborts with the file kept; otherwise
        every vehicle is sent, the toast reports how many were accepted, and
        the file and the progress are cleared. `calls` are the
        `createVehicle` calls made, in order. */
    method HandleSubmit(parseFloat: NumberParser, accepts: nat -> bool) returns (calls: seq<Vehicle>)
      modifies this
      ensures old(file).None? ==>
        && calls == [] && notices == old(notices) + [NoFileSelected]
        && file == old(file) && uploading == old(uploading) && progress == old(progress)
      ensures old(file).Some? ==> !uploading
      ensures old(file).Some? && Parse(old(file).value, parseFloat).Err? ==>
        && calls == [] && file == old(file) && progress == old(progress)
        && notices == old(notices) + [Aborted(Parse(old(file).value, parseFloat).error)]
      ensures old(file).Some? && Parse(old(file).value, parseFloat) == Ok([]) ==>
        && calls == [] && file == old(file) && progress == old(progress)
        && notices == old(notices) + [Aborted(NoVehicles)]
      ensures old(file).Some? && Parse(old(file).value, parseFloat).Ok? && Parse(old(file).value, parseFloat) != Ok([]) ==>
        var vehicles := Parse(old(file).value, parseFloat).value;
        && calls == vehicles && file == None && progress == 0.0
        && notices == old(notices) + [Completed(Successes(accepts, |vehicles|), |vehicles|)]
    {
      if file.None? {
        notices := notices + [NoFileSelected];
        return [];
      }
      uploading := true;
      var parsed := ParseCsv(file.value, parseFloat);
      if parsed.Err? {
        notices := notices + [Aborted(parsed.error)];
        uploading := false;
        return [];
      }
      var vehicles := parsed.value;
      if |vehicles| == 0 {
        notices := notices + [Aborted(NoVehicles)];
        uploading := false;
        return [];
      }
      var processed, shown;
      calls, processed, shown := SubmitEach(vehicles, accepts);
      notices := notices + [Completed(processed, |vehicles|)];
      file, progress := None, 0.0;
      uploading := false;
    }
  }
}
