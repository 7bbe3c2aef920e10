# CSV bulk import of the fleet dashboard, in Dafny

This project models the bulk-import pipeline of the fleet dashboard, together
with two small pieces of domain logic that come with it.

Two upload components turn a CSV text into domain records and submit them
one at a time to the back end:

- **Maintenance import** (`MaintenanceUpload`, maintenance_upload.dfy).
  - Blank lines are dropped.
  - The header is checked by name, case-insensitively, for `vehicle_id`, `start_date`, `end_date` and `type`.
  - Rows whose width differs from the header's are skipped.
  - Every other row is validated in a fixed order:
    1. the vehicle id against the reference set;
    2. the start date;
    3. the end date;
    4. start strictly before end;
    5. the type, `PREVENTIVE` or `CORRECTIVE` in any case.
  - The first bad row aborts the import.
  - The records are submitted fail-fast: the first refusal ends the run.
  - The progress bar shows the rounded percentage of accepted records.
  - The form is a class with the state the component keeps: file, upload flag, status, error message, progress and toasts.
- **Vehicle import** (`VehicleUpload`, vehicle_upload.dfy).
  - Blank lines are dropped and the first line is skipped unread.
  - Fields are taken by position; a row needs eight of them, and extra fields are ignored.
  - Every vehicle is available, with both weights 0.
  - Every vehicle is submitted exactly once, in order, whatever happened to the previous ones.
  - Only acceptances are counted, and each one sets the unrounded percentage.
  - The final toast reports how many of the vehicles were accepted.
- **Vehicle form** (`VehicleForm`, vehicle_form.dfy).
  - The form record starts from a fixed initial value.
  - Each input changes exactly one field.
  - A coordinate that does not read as an integer becomes 0.
  - A capacity that reads as 0 or NaN becomes undefined, and a current level that reads as NaN becomes 0.
  - Submission is refused unless the id, the type and both capacities are truthy.
  - After a successful creation the record is reset to the initial one.
- **Orders table** (`OrdersTable`, orders_table.dfy).
  - The status derived from an order: delivered, en route or pending.
  - Its badge variant and its label.
  - When the record-delivery action is enabled, and the amount it sends.

Shared pieces:

- `Text` (text.dfy) holds the string primitives: JavaScript's `split` with a one-character separator, `trim` with the exact JavaScript whitespace set, case mapping, the blank-line filter and the trimmed fields of a line.
- `Fleet` (fleet.dfy) holds the vehicle status and the number-parser type.
- `Wrappers` (wrappers.dfy) holds `Option` and `Result`.

External collaborators are parameters:

- The date parser (`Date.parse`) is a `string -> Option<int>` function, with `None` for NaN.
- `parseFloat` and `parseInt` are `string -> Option<real>` and `string -> Option<int>` functions.
- The back end's answer to the k-th create call of a run is `accepts(k)`.
- The reference vehicle ids are a set.
- The file content is the text of the selected file.

Where the repository's design notes and its code differ, the model follows the code:

- A rejected row's line number is its index, plus one, in the list of non-blank lines, not its line in the file.
- In the vehicle import, progress is set only after an acceptance, to the unrounded percentage of acceptances. It is never set after a refusal, and it reaches 100 only when every vehicle is accepted. For three vehicles with the second refused, the values shown are 100/3 and 200/3.
- The vehicle import keeps no list of failures, and does not check the vehicle type or any numeric field.
- The maintenance import clears neither the error message on success nor the progress on failure.

## Model

| member | source | states |
|---|---|---|
| Text.Split | components/maintenance/maintenance-upload-form.tsx:35 | splitting always yields at least one piece, and no piece holds the separator |
| Text.JoinSplit | components/maintenance/maintenance-upload-form.tsx:35 | joining the pieces of a split gives the text back |
| Text.SplitJoin | components/maintenance/maintenance-upload-form.tsx:50 | separator-free pieces, joined, split back into the same pieces |
| Text.Trim | components/maintenance/maintenance-upload-form.tsx:50 | defined as the slice between the leading and the trailing run of JavaScript whitespace; TrimIsInfix states what that slice is |
| Text.NonBlankLines | components/maintenance/maintenance-upload-form.tsx:35 | defined as the blank-line filter applied to the text split on line feeds; DropBlank states what the filter keeps |
| Text.Fields | components/maintenance/maintenance-upload-form.tsx:50 | defined as the trimmed pieces of the line split on commas; TrimAllPointwise and FieldsOfJoin state their properties |
| Text.TrimIsInfix | components/maintenance/maintenance-upload-form.tsx:35 | trim keeps the infix that neither starts nor ends with whitespace, with only whitespace outside it; the result is empty exactly for all-whitespace text |
| Text.TrimLower | components/maintenance/maintenance-upload-form.tsx:36 | trimming and lower-casing commute |
| Text.SplitLower | components/maintenance/maintenance-upload-form.tsx:36 | splitting on commas and lower-casing commute |
| Text.DropBlank | components/maintenance/maintenance-upload-form.tsx:35 | the filter keeps only non-blank lines, each non-blank line as many times as it occurs, in their original order |
| Text.TrimAllPointwise | components/maintenance/maintenance-upload-form.tsx:50 | every field is trimmed on its own, in place |
| Text.FieldsOfJoin | components/maintenance/maintenance-upload-form.tsx:50 | a row joined from trimmed, comma-free fields is read back field for field |
| MaintenanceUpload.HeaderNames | components/maintenance/maintenance-upload-form.tsx:36 | defined as the pieces of the header line split on commas, each trimmed and lower-cased; HeaderNamesIgnoreCase states that letter case does not matter |
| MaintenanceUpload.HeaderNamesIgnoreCase | components/maintenance/maintenance-upload-form.tsx:36 | header lines that differ only in letter case give the same column names |
| MaintenanceUpload.MissingFrom | components/maintenance/maintenance-upload-form.tsx:40-41 | the missing names are exactly the required names absent from the header, in required order |
| MaintenanceUpload.RowOf | components/maintenance/maintenance-upload-form.tsx:53-56 | the row dictionary's keys are exactly the header names |
| MaintenanceUpload.RowOfLastWins | components/maintenance/maintenance-upload-form.tsx:53-56 | a repeated column name takes the value of its last column |
| MaintenanceUpload.BuildRow | components/maintenance/maintenance-upload-form.tsx:53-56 | the loop over the columns builds exactly that dictionary |
| MaintenanceUpload.Violates | components/maintenance/maintenance-upload-form.tsx:59-78 | defines the five checks in their order: empty or unknown vehicle id, empty or unparsable start date, the same for the end date, start not before end, type neither PREVENTIVE nor CORRECTIVE once upper-cased |
| MaintenanceUpload.ValidateRow | components/maintenance/maintenance-upload-form.tsx:58-85 | a row is accepted iff it passes all five checks; a rejection names the row's line and the first failing check, every earlier check having passed; an accepted row gives a well-formed record with the row's id, its parsed dates and its upper-cased type |
| MaintenanceUpload.FieldTableAt | components/maintenance/maintenance-upload-form.tsx:50 | entry i of the field table holds the trimmed fields of line i |
| MaintenanceUpload.ShapedRows | components/maintenance/maintenance-upload-form.tsx:49-56 | there are fewer data rows than lines, and each carries a line number between 2 and the line count |
| MaintenanceUpload.ShapedRowAt | components/maintenance/maintenance-upload-form.tsx:49-56 | each data row is the dictionary of a line of the header's width, with that line's number |
| MaintenanceUpload.ShapedRowsComplete | components/maintenance/maintenance-upload-form.tsx:49-51 | every line of the header's width gives a data row |
| MaintenanceUpload.ShapedRowsOrdered | components/maintenance/maintenance-upload-form.tsx:49 | the data rows come in strictly increasing line order |
| MaintenanceUpload.SkippedLineIgnored | components/maintenance/maintenance-upload-form.tsx:51 | a line of the wrong width yields neither a record nor an error: replacing it by any other such line changes nothing |
| MaintenanceUpload.RowsHaveRequired | components/maintenance/maintenance-upload-form.tsx:53-56 | under a header that has the required names, every data row has the required keys |
| MaintenanceUpload.RowOfHasRequired | components/maintenance/maintenance-upload-form.tsx:53-56 | the dictionary of one full-width row has the required keys |
| MaintenanceUpload.NothingMissing | components/maintenance/maintenance-upload-form.tsx:40-44 | an empty missing list means every required name is in the header |
| MaintenanceUpload.CollectFirstFailure | components/maintenance/maintenance-upload-form.tsx:49-86 | collecting outcomes succeeds iff every outcome does, and then holds every value in order; otherwise its error is that of the first failing outcome |
| MaintenanceUpload.ValidateAllSnoc | components/maintenance/maintenance-upload-form.tsx:49-86 | validating one more row appends its outcome to those of the rows before it |
| MaintenanceUpload.RowLoop | components/maintenance/maintenance-upload-form.tsx:49-86 | defines the outcome of the row loop after each line: a wrong-width line changes nothing, any other line's validation outcome is appended; RowLoopValidatesShapedRows and RejectionIsFinal state its meaning |
| MaintenanceUpload.RowLoopValidatesShapedRows | components/maintenance/maintenance-upload-form.tsx:49-86 | the row loop validates exactly the full-width rows, in order, stopping at the first rejection |
| MaintenanceUpload.RejectionIsFinal | components/maintenance/maintenance-upload-form.tsx:58-78 | once a row is rejected, no later line changes the error |
| MaintenanceUpload.RowLoopStep | components/maintenance/maintenance-upload-form.tsx:49-86 | one turn of the loop skips a wrong-width line, and otherwise appends that line's validation outcome |
| MaintenanceUpload.CheckLine | components/maintenance/maintenance-upload-form.tsx:53-85 | building and validating a full-width line gives that line's validation outcome |
| MaintenanceUpload.NextLine | components/maintenance/maintenance-upload-form.tsx:50-85 | one loop turn computes the loop's outcome over one more line |
| MaintenanceUpload.ValidateLines | components/maintenance/maintenance-upload-form.tsx:49-86 | the imperative row loop returns the outcome of the row loop over every line |
| MaintenanceUpload.Parse | components/maintenance/maintenance-upload-form.tsx:34-89 | defines what the parser returns or throws: no lines, missing columns, or the row loop's outcome; ParseMeaning, ParseAccepted and ParseRejectsFirstBadRow state its meaning |
| MaintenanceUpload.ParseCsv | components/maintenance/maintenance-upload-form.tsx:34-89 | the imperative parser returns what Parse specifies |
| MaintenanceUpload.ParseMeaning | components/maintenance/maintenance-upload-form.tsx:34-44 | without lines, or with a required column missing, the import fails with a non-empty missing list before any row is read; otherwise its outcome is that of validating the data rows in order |
| MaintenanceUpload.ValidateAllAccepted | components/maintenance/maintenance-upload-form.tsx:80-85 | an accepted validation gives one record per row, each the row's own validated record, all well-formed |
| MaintenanceUpload.ValidateAllRejected | components/maintenance/maintenance-upload-form.tsx:58-78 | a rejected validation carries the error and line of the first row that fails, all earlier rows having passed |
| MaintenanceUpload.ParseAccepted | components/maintenance/maintenance-upload-form.tsx:34-89 | an accepted import has a complete header, one well-formed record per data row in file order, and fewer records than lines |
| MaintenanceUpload.ParseRejectsFirstBadRow | components/maintenance/maintenance-upload-form.tsx:58-78 | a row rejection is that of the first failing data row, all earlier data rows having passed |
| MaintenanceUpload.RoundedPercent | components/maintenance/maintenance-upload-form.tsx:115 | the progress is the percentage k of n rounded to the nearest integer, halves up |
| MaintenanceUpload.ProgressAfter | components/maintenance/maintenance-upload-form.tsx:104-115 | defines the progress after k acceptances: 0 as reset before the loop, then the rounded percentage; ProgressMonotone states its bounds and growth |
| MaintenanceUpload.RoundedPercentFull | components/maintenance/maintenance-upload-form.tsx:115 | n of n rounds to exactly 100 |
| MaintenanceUpload.ProgressMonotone | components/maintenance/maintenance-upload-form.tsx:111-116 | the progress never decreases as acceptances grow, never exceeds 100, and is 100 after all n |
| MaintenanceUpload.ProgressFullEarly | components/maintenance/maintenance-upload-form.tsx:115 | rounding already shows 100 after 199 of 200 acceptances |
| MaintenanceUpload.FirstRefusal | components/maintenance/maintenance-upload-form.tsx:112-113 | the index of the first refused record: every record before it was accepted, and it was refused unless it equals n |
| MaintenanceUpload.FirstRefusalFinal | components/maintenance/maintenance-upload-form.tsx:112-116 | a refusal stays the first refusal however many records follow |
| MaintenanceUpload.SubmitAll | components/maintenance/maintenance-upload-form.tsx:111-116 | the loop sends the records in order up to and including the first refusal; it counts the acceptances before it; after the k-th acceptance it sets the progress to the rounded percentage k of n; the values set never decrease, and stay within the final one, at most 100 |
| MaintenanceUpload.MaintenanceUploadForm.constructor | components/maintenance/maintenance-upload-form.tsx:16-20 | no file, not uploading, idle, no message, progress 0 |
| MaintenanceUpload.MaintenanceUploadForm.HandleFileChange | components/maintenance/maintenance-upload-form.tsx:25-32 | a chosen file replaces the previous one and clears the status and the message; no choice changes nothing |
| MaintenanceUpload.MaintenanceUploadForm.HandleSubmit | components/maintenance/maintenance-upload-form.tsx:91-141 | without a file: only a toast. A parse error: failure state with that error, no call made, file kept. A refusal: calls up to and including the refused record, failure state naming it, file kept. All accepted: success, file cleared, message kept, toast with the count. Upload flag off at the end. |
| VehicleUpload.VehicleOf | components/vehicles/vehicle-upload-form.tsx:36-50 | a parsed vehicle is available, with both weights 0 |
| VehicleUpload.ExtraFieldsIgnored | components/vehicles/vehicle-upload-form.tsx:35-46 | fields after the eighth do not affect the vehicle |
| VehicleUpload.VehiclesOf | components/vehicles/vehicle-upload-form.tsx:33-52 | there are no more vehicles than data lines, and every vehicle is available with weights 0 |
| VehicleUpload.VehiclesOfSnoc | components/vehicles/vehicle-upload-form.tsx:33-52 | one more line adds its vehicle at the end when it has eight fields, and nothing otherwise |
| VehicleUpload.VehiclesOfAppend | components/vehicles/vehicle-upload-form.tsx:33-52 | the vehicles of two runs of lines are those of each run, in order |
| VehicleUpload.ShortLineSkipped | components/vehicles/vehicle-upload-form.tsx:35 | a line with fewer than eight fields contributes nothing, wherever it stands |
| VehicleUpload.LongLineKept | components/vehicles/vehicle-upload-form.tsx:34-51 | every line with eight fields or more gives its vehicle |
| VehicleUpload.VehicleFromLongLine | components/vehicles/vehicle-upload-form.tsx:34-51 | every vehicle comes from a line with eight fields or more |
| VehicleUpload.RowRoundTrip | components/vehicles/vehicle-upload-form.tsx:34-46 | a row joined from eight or more trimmed, comma-free fields is read back as the vehicle of those fields |
| VehicleUpload.HeaderIgnored | components/vehicles/vehicle-upload-form.tsx:27-33 | texts whose non-blank lines differ only in the first give the same vehicles, fewer than the lines |
| VehicleUpload.CollectVehicles | components/vehicles/vehicle-upload-form.tsx:31-54 | the loop pushes exactly the vehicles of the data lines |
| VehicleUpload.Parse | components/vehicles/vehicle-upload-form.tsx:26-55 | defines what the parser returns or throws: no lines, or the vehicles of every line after the first; HeaderIgnored, LongLineKept and VehicleFromLongLine state its meaning |
| VehicleUpload.ParseCsv | components/vehicles/vehicle-upload-form.tsx:26-55 | the imperative parser returns what Parse specifies |
| VehicleUpload.Percent | components/vehicles/vehicle-upload-form.tsx:83 | defines the unrounded percentage k of n; PercentMonotone states its bounds and growth |
| VehicleUpload.PercentMonotone | components/vehicles/vehicle-upload-form.tsx:83 | the unrounded percentage grows with the count, stays within 100, and is 100 only for all n |
| VehicleUpload.Successes | components/vehicles/vehicle-upload-form.tsx:79-87 | the accepted count never exceeds the number of calls |
| VehicleUpload.SuccessesAll | components/vehicles/vehicle-upload-form.tsx:82 | all n calls succeed iff every one is accepted |
| VehicleUpload.SubmitEach | components/vehicles/vehicle-upload-form.tsx:78-87 | every vehicle is sent exactly once, in order; processed is the number accepted; the i-th progress value is (i+1)/n of 100; the values never decrease and stay within 100; 100 is shown iff every call is accepted |
| VehicleUpload.VehicleUploadForm.constructor | components/vehicles/vehicle-upload-form.tsx:14-16 | no file, not uploading, progress 0 |
| VehicleUpload.VehicleUploadForm.HandleFileChange | components/vehicles/vehicle-upload-form.tsx:20-24 | a chosen file replaces the previous one; nothing else changes |
| VehicleUpload.VehicleUploadForm.HandleSubmit | components/vehicles/vehicle-upload-form.tsx:57-104 | without a file: only a toast. No lines, or no vehicle: an error toast, nothing sent, file kept. Otherwise: every vehicle sent in order, a toast with the accepted count out of the total, file and progress cleared. Upload flag off at the end. |
| VehicleForm.SameFields | components/vehicles/vehicle-form.tsx:26-28 | two records are equal iff every field agrees |
| VehicleForm.Apply | components/vehicles/vehicle-form.tsx:26-28 | the edited field holds the new value and every other field keeps its old one |
| VehicleForm.ApplyIdempotent | components/vehicles/vehicle-form.tsx:26-28 | writing a field's current value changes nothing; a second write to a field overrides the first |
| VehicleForm.Coordinate | components/vehicles/vehicle-form.tsx:31 | a coordinate is the parsed integer, or 0 for NaN |
| VehicleForm.MovePosition | components/vehicles/vehicle-form.tsx:30-39 | only the chosen coordinate changes; the other coordinate and every other field are kept |
| VehicleForm.CapacityInput | components/vehicles/vehicle-form.tsx:116 | a capacity is set iff its input reads as a non-zero number, and is then that number; it is never 0 |
| VehicleForm.LevelInput | components/vehicles/vehicle-form.tsx:145 | a current level is the parsed number, or 0 for NaN |
| VehicleForm.Complete | components/vehicles/vehicle-form.tsx:45 | defines the submit gate: id non-empty, type set and non-empty, both capacities set and non-zero; ZeroCapacityRefused and InitialIncomplete state what it refuses |
| VehicleForm.ZeroCapacityRefused | components/vehicles/vehicle-form.tsx:45 | a capacity typed as 0 or NaN keeps the form from passing the submit gate |
| VehicleForm.InitialIncomplete | components/vehicles/vehicle-form.tsx:13-22 | the initial record does not pass the submit gate |
| VehicleForm.Form.constructor | components/vehicles/vehicle-form.tsx:13-22 | the form starts from the initial record `Initial`: empty id, no type and no capacities, both levels 0, available, at (0, 0), the same record the reset at lines 58-67 writes; no toast raised |
| VehicleForm.Form.HandleChange | components/vehicles/vehicle-form.tsx:26-28 | exactly the edited field changes |
| VehicleForm.Form.HandlePositionChange | components/vehicles/vehicle-form.tsx:30-39 | only the chosen coordinate changes |
| VehicleForm.Form.HandleSubmit | components/vehicles/vehicle-form.tsx:41-76 | a record failing the gate: no call, record unchanged, a toast. Otherwise the record is sent; acceptance resets it to the initial record; refusal leaves it unchanged. |
| OrdersTable.OrderStatus | components/orders/orders-table.tsx:21-25 | delivered iff there is a delivery date; en route iff there is none and the remainder is exactly 0; pending otherwise, an absent remainder included |
| OrdersTable.StatusDependsOnDeliveryAndRemainder | components/orders/orders-table.tsx:21-25 | the status depends only on the delivery date and the remaining GLP |
| OrdersTable.StatusBadge | components/orders/orders-table.tsx:27-36 | default iff delivered, secondary iff en route, outline for every other string |
| OrdersTable.StatusLabel | components/orders/orders-table.tsx:89 | "Entregado" iff delivered, "En Ruta" iff en route |
| OrdersTable.BadgeAndLabelAgree | components/orders/orders-table.tsx:88-89 | badge and label each tell the three statuses apart, and the outline badge goes with the "Pendiente" label on every string |
| OrdersTable.DeliveryActionEnabled | components/orders/orders-table.tsx:113 | defines the action as enabled when the status is not delivered; DeliveryActionMeaning states that this means having no delivery date |
| OrdersTable.DeliveryAmount | components/orders/orders-table.tsx:112 | the amount is the remaining GLP, or 0 when absent |
| OrdersTable.DeliveryActionMeaning | components/orders/orders-table.tsx:112-113 | the action is enabled iff there is no delivery date; an order en route sends 0; a pending order sends 0 only when its remainder is absent |

## Left out

- Reading the file (`file.text()`) and its failure: the selected file is modelled as its text.
- Toast titles and descriptions: the thrown error messages, in Spanish, are modelled as the error value they report (a line number and a reason, the missing names, the refused record).
- Console logging, the DOM reset of the file input, and JSX rendering.
- The reference vehicles of the maintenance form arrive asynchronously, and nothing waits for them: an import started before they arrive checks against an empty id set and rejects its first full-width row as an unknown vehicle. The `vehicleIds` parameter of `MaintenanceUpload.Parse` covers this case, as the empty set.
- React's asynchronous state updates: each handler's effect is modelled as one atomic step. The progress values set during a run are the `shown` output of the submission loops.
- The submit buttons are disabled without a file or while uploading (maintenance line 207, vehicle line 112); the model does not represent the buttons, and treats each submission as one atomic step, so overlapping submissions are not modelled.
- What the back end does with a created record, and the hooks' own error toasts: each create call is answered by `accepts`.
- Calendar parsing by `Date.parse` and `new Date`, and `toISOString`: dates are an abstract parser to integer timestamps. A record carries the timestamps, not their ISO strings.
- The number syntax of `parseFloat` and `parseInt`, and negative zero: both are abstract parsers, with NaN as `None`.
- MaintenanceUpload.RoundedPercent: computed in exact arithmetic, not in floating point. Near a half the browser can round the other way: 29 of 200 is 14.499999999999998 in floating point and shows 14, where the model gives 15.
- VehicleUpload.Percent: an exact rational, not the floating-point quotient.
- Text.ToLower: maps only the ASCII letters; `toLowerCase` maps every Unicode letter. Column names outside ASCII are compared differently.
- Text.ToUpper: maps only the ASCII letters, for the same reason. Only `PREVENTIVE` and `CORRECTIVE` are accepted, but a non-ASCII letter that JavaScript upper-cases to an ASCII one, such as the dotless i, is refused by the model.
- VehicleForm.Apply: covers the writes the inputs make (id, type, the capacities, the levels, the status), not an arbitrary value written to an arbitrary field.
- The type and status selects restrict their values to the listed options; the model lets `SetKind` take any text.
