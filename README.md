# Statement binders of the Scylla Rust driver, in Dafny

This project models the statement-binding layer of the Scylla Rust driver
(`scylla/src/statement/bound.rs`). A prepared statement has a list of bind
markers, each with a name and a CQL type. A `StatementBinder` hands out one of
three binders. Each binder collects values for the markers step by step, and
its `finish` produces a `BoundStatement`: the prepared statement plus one
serialized value per marker.

- **Appending binder.** Values are bound in marker order. Each value is
  serialized at once against the type of the next marker. A value beyond the
  last marker is refused with `TooManyValues { required }`. `finish` succeeds
  only when every marker has a value; otherwise it returns
  `TooFewValues { required, provided }`.
- **By-index binder.** It starts with one empty slot per marker. A bind fills
  one slot; an index past the end gives `NoSuchIndex`, and a slot that is
  already filled gives `DuplicatedValue`. Serialization waits for `finish`, which
  walks the markers in order and stops at the first empty slot
  (`MissingValueAtIndex`) or the first value that fails to serialize
  (`Serialization`).
- **By-name binder.** It works like the by-index binder, but a name selects the
  slot of the *first* marker with that name. The errors carry the name.

The modules are:

- `Wrappers`: `Option`, `Result`, and `Outcome`, the result of one bind step.
- `Cql`: the serialization layer as the binders see it. `ColumnType` and
  `SerializationError` are opaque. A `DynValue` is a type-erased value that
  serializes itself against a column type, as `&dyn SerializeValue` does.
  `SerializedValues` is the sequence of encoded elements.
- `Prepared`: column specs and the prepared statement. The metadata's
  `col_count`, its `col_specs` and the statement's variable column specs
  describe the same markers, so one sequence stands for all three.
- `Bound`: `BoundStatement` and `calculate_token`, and `StatementBinder`. The
  three binders are classes. The appending binder keeps its `SerializedValues`
  in a field that `BindNextValue` updates. The by-index and by-name binders keep
  their slots in an array, and a bind overwrites one element of it. The
  `finish` methods over slots are loops, each proved equal to a specification
  function (`FinishByIndex`, `FinishByName`). Each bind step also has a pure
  counterpart (`BindNext`, `BindByIndex`, `BindByName`) whose contract gives
  the error cases and says which part of the state changes.
- `BoundProperties`: whole binding sessions, meaning a sequence of binds on a
  fresh binder followed by `finish`. Its lemmas cover four facts. An appending
  session finishes exactly when there is one encodable value per marker. The
  result of a by-index session does not depend on the order of its binds. If
  two markers share a name, only the first can ever be filled by name, so such
  a statement never finishes. Appending values and binding the same values by
  index in marker order give the same bound statement.

Serialization order follows the code. The appending binder serializes each
value as it is bound, so an encoding error can be reported before a count
mismatch. The slot binders serialize only in `finish`, and there the first
failing marker in marker order decides the error.

## Model

| member | source | states |
|---|---|---|
| `Bound.CalculateToken` | scylla/src/statement/bound.rs:63-82 | a statement that is not token aware yields `Ok(None)` whatever the key extraction would do; a token-aware one yields the computed token or its error |
| `Bound.EmptySlots` | scylla/src/statement/bound.rs:124-141 | the slot list a by-index or by-name binder starts from has exactly `col_count` slots, all empty |
| `Bound.StatementBinder.AppendingBinder` | scylla/src/statement/bound.rs:115-120 | a fresh appending binder for the same prepared statement with no values bound |
| `Bound.StatementBinder.ByIndexBinder` | scylla/src/statement/bound.rs:124-131 | a fresh by-index binder whose slot array has one empty slot per marker |
| `Bound.StatementBinder.ByNameBinder` | scylla/src/statement/bound.rs:135-142 | a fresh by-name binder whose slot array has one empty slot per marker |
| `Bound.AppendingStatementBinder.constructor` | scylla/src/statement/bound.rs:115-120 | starts with zero serialized values, which satisfies the invariant count <= required |
| `Bound.ByIndexStatementBinder.constructor` | scylla/src/statement/bound.rs:124-131 | allocates `col_count` empty slots |
| `Bound.ByNameStatementBinder.constructor` | scylla/src/statement/bound.rs:135-142 | allocates `col_count` empty slots |
| `Bound.BindNext` | scylla/src/statement/bound.rs:171-191 | `TooManyValues { required }` exactly when every marker already has a value; otherwise the value is encoded with the type of the marker at index = old count, and it is appended as exactly one new element after the earlier ones, or its serialization error is returned |
| `Bound.AppendingStatementBinder.BindNextValue` | scylla/src/statement/bound.rs:171-191 | updates the binder's values as `BindNext` says, keeps count <= required, and leaves the values unchanged on error |
| `Bound.FinishAppending` | scylla/src/statement/bound.rs:195-208 | succeeds iff count == required, and the bound statement then holds exactly the accumulated values; otherwise `TooFewValues { required, provided }`, where provided < required |
| `Bound.AppendingStatementBinder.Finish` | scylla/src/statement/bound.rs:195-208 | finishing the binder is `FinishAppending` on its current values |
| `Bound.ScanSlots` | scylla/src/statement/bound.rs:289-299 | walking the slots in order succeeds iff every slot is filled and encodes; the result appends one encoding per slot in slot order; an error names the first empty slot or the first failing encoding, and every earlier slot is ready |
| `Bound.BindByIndex` | scylla/src/statement/bound.rs:256-271 | `NoSuchIndex { idx }` iff idx >= slot count; `DuplicatedValue { idx }` iff that slot is filled; otherwise only that slot is filled, and the slot count and every other slot stay as they were |
| `Bound.ByIndexStatementBinder.BindValueByIndex` | scylla/src/statement/bound.rs:256-271 | updates the slot array as `BindByIndex` says, and leaves the array unchanged on error |
| `Bound.FinishByIndex` | scylla/src/statement/bound.rs:277-305 | succeeds iff every slot is filled and encodes for its marker's type, and the result then holds one encoding per column in column order; otherwise `MissingValueAtIndex` of the first empty slot or the `Serialization` error of the first failing value, whichever comes first |
| `Bound.ByIndexStatementBinder.Finish` | scylla/src/statement/bound.rs:277-305 | the loop over the slots returns exactly `FinishByIndex` of the slot array |
| `Bound.FirstIndexOf` | scylla/src/statement/bound.rs:349-353 | finds no index iff no column spec has the name; otherwise the index of a spec with that name, and no earlier spec has it |
| `Bound.BindByName` | scylla/src/statement/bound.rs:344-370 | `NoSuchName { name }` iff no marker has the name; `DuplicatedValue { name }` iff the first such marker's slot is filled; otherwise only that slot changes |
| `Bound.ByNameStatementBinder.BindValueByName` | scylla/src/statement/bound.rs:344-370 | searches for the first marker with the name and updates the slot array as `BindByName` says, leaving it unchanged on error |
| `Bound.FinishByName` | scylla/src/statement/bound.rs:376-405 | as `FinishByIndex`, except that a missing value is reported as `MissingValueForParameter` with the name of the first empty slot's spec |
| `Bound.ByNameStatementBinder.Finish` | scylla/src/statement/bound.rs:376-405 | the loop over the slots returns exactly `FinishByName` of the slot array |
| `BoundProperties.AppendAll` | scylla/src/statement/bound.rs:175-190 | a sequence of appending binds never leaves more values than markers |
| `BoundProperties.AppendAllSucceeds` | scylla/src/statement/bound.rs:171-191 | repeated binds succeed iff every value meets a marker and encodes; the earlier values stay, and the new encodings follow in marker order |
| `BoundProperties.AppendAllTooMany` | scylla/src/statement/bound.rs:175-186 | once every marker has an encodable value, one more bind fails with `TooManyValues { required }` |
| `BoundProperties.AppendAllFirstFailure` | scylla/src/statement/bound.rs:178-188 | a failing sequence of binds fails with `TooManyValues` or with the serialization error of the first value that does not encode |
| `BoundProperties.AppendingSession` | scylla/src/statement/bound.rs:195-208 | binding then finishing succeeds iff there is exactly one encodable value per marker, and the result then holds those encodings in order; with fewer values it gives `TooFewValues { required, provided }`, and with more it gives `TooManyValues { required }` |
| `BoundProperties.BindAllByIndex` | scylla/src/statement/bound.rs:256-271 | a sequence of by-index binds preserves the slot count |
| `BoundProperties.BindAllByIndexCharacterized` | scylla/src/statement/bound.rs:256-271 | a sequence of by-index binds succeeds iff each targets an existing empty slot and no two target the same slot; the targeted slots then hold the bound values and every other slot is unchanged |
| `BoundProperties.SwapAdjacent` | scylla/src/statement/bound.rs:256-271 | two successive successful by-index binds commute |
| `BoundProperties.PermutedBindsAgree` | scylla/src/statement/bound.rs:256-271 | a successful by-index session reaches the same slots when its binds come in any other order |
| `BoundProperties.BindOrderIrrelevant` | scylla/src/statement/bound.rs:277-305 | reordering the binds of a by-index session neither changes whether it succeeds nor changes the result of `finish` |
| `BoundProperties.BindAllByName` | scylla/src/statement/bound.rs:344-370 | a sequence of by-name binds preserves the slot count |
| `BoundProperties.ByNameFillsOnlyFirstOccurrences` | scylla/src/statement/bound.rs:349-353 | by-name binds from a state where only first occurrences are filled keep that property, so a marker that shares its name with an earlier marker stays empty |
| `BoundProperties.DuplicateNameNeverFinishes` | scylla/src/statement/bound.rs:388-399 | if two markers share a name, no by-name session from a fresh binder fills the later one, and `finish` always fails |
| `BoundProperties.AppendingAgreesWithByIndex` | scylla/src/statement/bound.rs:195-305 | binding one value per marker by appending, and binding the same values by index in marker order, either both fail or both finish with the same bound statement |

## Left out

- `BoundStatement::new_owned`, `new_borrowed` and `new_untyped`, and the `Cow` owned/borrowed distinction: they differ only in memory ownership, and the row serialization they call (`serialize_values`) is not part of this model.
- `extract_partition_key` and the token-aware branch of `calculate_token`: partition-key extraction and the partitioner hash are foreign code. They are one function parameter (`TokenComputation`), and only the short-circuit for a statement that is not token aware is modelled in detail.
- `BoundStatement::prepared()` is a plain field accessor (`BoundStatement.Prepared`), so it has no contract.
- The CQL codecs and the internal byte layout of `SerializedValues` belong to another crate. A value is an opaque serializer, and `add_value` appends that serializer's output or returns its error.
- The `u16` width of `SerializedValues::element_count`, and therefore of `TooFewValues::provided`: counts are unbounded naturals, and any `add_value` failure for too many elements is not modelled.
- Lifetimes: the by-index and by-name binders hold references to values until `finish`. The model stores the values themselves.
- Consuming `self`: in Rust a binder that returned an error is gone. The model keeps its state unchanged after an error, and the session functions stop at the first error.
- The `debug_assert_eq!` that the slot count equals the number of column specs is a precondition of the `finish` specifications and an invariant (`Valid`) of the slot binders.
- The `DynValue` `Debug` impl, the error messages of the `#[error(...)]` attributes, and `#[non_exhaustive]`: formatting and API evolution only.
- The integration tests, the example programs, the cloud TLS configuration and the execution module re-exports: they need a live cluster or are network, TLS or module glue. The tests' assertions were used only as evidence for the error variants and payloads.
