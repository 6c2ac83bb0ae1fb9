# doozerconfig, modelled in Dafny

`doozerconfig` binds the fields of a Go configuration struct to keys of a
doozer store and keeps them up to date. Each field carries a `doozer` tag;
the key bound to it is the configured prefix followed by the tag. `Load` reads
each tagged field's key once and decodes the JSON payload into the field.
`Monitor` then watches the store and writes each later mutation of a bound key
into its field. The watch loop `doozerWatch` resumes every wait one revision
after the event it has just delivered.

The model has these modules:

- `Doozer` (`doozer.dfy`) holds the shared values.
  - The struct is a sequence of field descriptors, each a tag and a Go
    `reflect.Kind` code. Its storage is an array of field values.
  - The store, as `Get` sees it, is a map from path to reply.
  - The answers to the watch's waits are a sequence of replies.
  - JSON decoding is an abstract codec: two total functions returning an
    optional `int64` or `string`.
- `Fields` (`fields.dfy`) models `setFieldWithData`.
- `Loading` (`load.dfy`) models the walk of `Load`. It is a function over the
  field descriptors, proved in closed form.
- `Watching` (`watch.dfy`) models the loop of `doozerWatch`, both as a
  function and as a method.
- `Monitoring` (`monitor.dfy`) models the event loop of `Monitor`.
- `Config` (`config.dfy`) holds the class `DoozerConfig`. Its `fields` map
  sends each path to a field index. Its methods `Load` and `Monitor` update
  `fields` and the struct's array in place. Each method is proved equal to the
  specification function of its loop.

The model follows the code as written, which differs from what a reader of
the package's purpose might expect:

- A key missing from the store is not an error, although the comment on
  `Load` says it is. doozer answers `Get` on a missing file with an empty body
  at revision 0. The code never looks at the revision, so the field gets its
  zero value and `Load` carries on (`Loading.MissingKeyLoadsZero`). The walk
  the comment describes is `Loading.LoadFromChecked`; see "## Findings".
- Map-typed fields are registered, then rejected. `Load` records the path in
  `c.fields` before `setFieldWithData` refuses the kind, and then returns the
  error. Every kind other than `int` and `string` is refused this way,
  including `int64`, which has its own kind.
- The unsupported-field error carries the message the code builds, with the
  kind's number as a single character (`Fields.UnsupportedMessageAsWritten`).
  The readable message is proved separately (`Fields.UnsupportedMessage`).
- There is no change callback. A failed decode is not reported: the field gets
  its zero value.
- The two fatal paths end monitoring with an outcome value (`MonitorEnd`).
  The code ends the process with `log.Fatal` on both: a field that cannot be
  set, and a wait error.

## Model

| member | source | states |
|---|---|---|
| `Fields.FieldValue` | doozerconfig.go:72-87 | Payloads are accepted exactly for kinds Int and String, and the result has the field's kind. A payload that decodes gives the decoded value. Undecodable payloads give the zero value (0 or ""), because the `json.Unmarshal` error is dropped. Every other kind gives the unsupported-field error with the message as the code builds it. |
| `Fields.SetFieldWithData` | doozerconfig.go:72-87 | For Int and String only the addressed field is overwritten, with the value `FieldValue` gives, and nil is returned. For any other kind the unsupported-field error with the code's message is returned and the struct is unchanged. |
| `Fields.UnsupportedMessage` | doozerconfig.go:84 | The corrected error message: the fixed prefix followed by the kind's name. It is printable throughout. |
| `Fields.UnsupportedMessageAsWritten` | doozerconfig.go:84 | The message as the code builds it: the prefix plus exactly one character, the kind's number read as a code point. |
| `Fields.AsWrittenMessageUnreadable` | doozerconfig.go:84 | For every kind, the as-written message contains a non-printable character and differs from the corrected message. |
| `Fields.MapFieldMessage` | doozerconfig.go:84 | For a map field, the code's message ends in U+0015 where "map" was meant. |
| `Loading.LoadFrom` | doozerconfig.go:30-54 | The loop of `Load` from field i. Its contract says only that the walk keeps the number of fields. Its behaviour is stated by `LoadStep` and the closed-form `Load*` lemmas below. |
| `Loading.FirstFailure` | doozerconfig.go:36-52 | The first field at or after i that is tagged and has a failing `Get` or an unsupported kind; no field before it fails. |
| `Loading.LoadStep` | doozerconfig.go:30-53 | One iteration: an untagged field changes nothing, a passing field hands on the updated state, and a failing field ends the walk with the path read and registered only if `Get` succeeded. |
| `Loading.LoadError` | doozerconfig.go:41-54 | `Load` returns nil iff no field fails. Otherwise it returns the error of the first failing field, and a `Get` error takes precedence over an unsupported kind. |
| `Loading.LoadReads` | doozerconfig.go:30-44 | `Load` reads exactly `prefix + tag` for the tagged fields, in declaration order, up to and including the first failing field. Untagged fields are never read. |
| `Loading.LoadValues` | doozerconfig.go:30-53 | Tagged fields before the first failure hold their decoded store value. The failing field, every later field and every untagged field keep their old value: nothing is rolled back. |
| `Loading.LoadRegisters` | doozerconfig.go:40-52 | `c.fields` gains exactly the paths of the tagged fields up to the first failure. It includes the failing field unless its `Get` failed. Other entries are unchanged. |
| `Loading.LoadRegistersTargets` | doozerconfig.go:40-46 | Each newly registered path maps to a tagged field whose `prefix + tag` is that path. |
| `Loading.LoadRegistersLast` | doozerconfig.go:46 | When several fields share a path, the last one registered is the one stored in `c.fields`. |
| `Loading.LoadSuccess` | doozerconfig.go:27-55 | When `Load` returns nil: every tagged field is Int or String and holds its decoded value, untagged fields are untouched, `c.fields` gained exactly the tagged paths, and they were read in order. |
| `Loading.MissingKeyLoadsZero` | doozerconfig.go:41-49 | A tagged Int field whose key is absent from the store does not end the walk: the first failure lies after it. The field is set to 0, provided the codec rejects an empty payload. |
| `Loading.LoadFromChecked` | doozerconfig.go:25-26 | The walk as documented: when it returns nil, every tagged key exists in the store (found at a revision other than the missing one). |
| `Loading.LoadCheckedAgrees` | doozerconfig.go:25-54 | When every tagged key that `Get` finds exists, the documented walk and the code's walk give the same state and error. |
| `Loading.LoadCheckedReportsMissing` | doozerconfig.go:25-44 | When every tagged field before j exists and has a supported kind, and j's key is missing, the documented walk returns `NotFound` for that key and leaves field j unchanged. |
| `Loading.SimpleLoad` | doozerconfig_test.go:16-28 | With prefix `/prefix/`, fields `foo` (int) and `bar` (string), and a store holding 42 and "hello world": the fields hold those values, both paths are registered, and they are read in order. |
| `Watching.Watch` | doozerconfig.go:92-110 | One wait is made per delivered event, plus one for the final error, and never more waits than the store answered. |
| `Watching.WatchResumesAfterDelivered` | doozerconfig.go:95-106 | The first wait starts at the given revision. After delivering an event at revision r, the next wait starts at r + 1. |
| `Watching.WatchDeliversReplies` | doozerconfig.go:95-107 | The delivered events are the store's answers, in order, up to the first wait error. An error ends the stream, and without one every answer is delivered. |
| `Watching.WatchEndsAtFailure` | doozerconfig.go:97-104 | Nothing answered after a wait error affects the run. |
| `Watching.WatchRevisionsIncrease` | doozerconfig.go:95-106 | If the store answers each wait with an event at or after the requested revision, the delivered revisions are at or after the initial revision and strictly increase. |
| `Watching.DoozerWatch` | doozerconfig.go:92-110 | The imperative loop delivers the events, waits at the revisions, and ends with the error that the specification `Watch` gives. |
| `Monitoring.ApplyEvents` | doozerconfig.go:59-66 | The event loop of `Monitor`. Its contract says only that it keeps the number of fields. What it does to the fields is stated by `MonitorLastEventWins` and `MonitorStopsAtFatal`. |
| `Monitoring.MonitorLastEventWins` | doozerconfig.go:59-66 | With no unsupported target, each registered field ends up decoded from the last event for its path, or unchanged when there is none. Unregistered fields never change. |
| `Monitoring.MonitorStopsAtFatal` | doozerconfig.go:60-64 | The first event for a registered field of unsupported kind ends monitoring with that error. The events before it are applied; it and all later events are not. |
| `Monitoring.MonitorSetsBoundField` | doozerconfig_test.go:34-44 | With field `Foo` bound to `/foo` and holding 42, a set of `/foo` to 69 leaves it holding 69. |
| `Config.DoozerConfig.New` | doozerconfig.go:21-23 | The new object holds the struct, its descriptors and the prefix, with an empty path registry. |
| `Config.DoozerConfig.Load` | doozerconfig.go:27-55 | The struct, `c.fields`, the paths read and the error are exactly those of `LoadFrom` from the old state. Every entry of `c.fields` stays bound to a tagged field with that key, and every field keeps its kind. |
| `Config.DoozerConfig.Monitor` | doozerconfig.go:58-68 | `c.fields` is unchanged and the struct is what `ApplyEvents` makes of the events `Watch` delivers. The outcome is the unsupported-field error if one occurred, else the wait error, else the end of the answers. |

## Findings

| source | as written | input that shows it | evidently intended | confidence | as-written member | corrected member |
|---|---|---|---|---|---|---|
| doozerconfig.go:84 | `string(field.Kind())` converts the kind's number to the one-character string with that code point | a field of type `map[string]string` (kind Map, number 21): the message ends in the control character U+0015 | the message names the kind, as `field.Kind().String()` would ("map") | high; not executed | `Fields.UnsupportedMessageAsWritten` (shown by `Fields.MapFieldMessage`, `Fields.AsWrittenMessageUnreadable`) | `Fields.UnsupportedMessage` |
| doozerconfig.go:25-41 | `Load` drops the revision `Get` returns and checks only the error, so a missing key gives an empty body and no error | a tagged `int` field whose key is absent from the store: `Load` sets it to 0 and returns nil | `Load` returns an error when a key is not found, as its comment says | medium; depends on doozer answering a missing file with revision 0 and no error; not executed | `Loading.MissingKeyLoadsZero` | `Loading.LoadCheckedReportsMissing` (with `Loading.LoadFromChecked`, `Loading.LoadCheckedAgrees`) |

Both rows describe corrections proved beside the model. The operations
themselves (`FieldValue`, `SetFieldWithData`, `LoadFrom` and the class
`DoozerConfig`) keep the behaviour of the code as written.

## Left out

- The doozer connection is replaced by explicit values.
  - `Dial`, `Close`, and the network behind `Get` and `Wait` are not modelled.
  - `Get` is a map from path to reply. The code drops the revision it returns. Only the documented walk `LoadFromChecked` looks at it.
  - `Wait` is the sequence of its answers.
- The glob passed to `Monitor` and `Wait` is not modelled. Matching a glob is the store's job, and the answers are already the matching events.
- The goroutine and the channel of `doozerWatch` are left out. The loop runs sequentially to the end of the answers, and `Monitor` applies what it delivered.
  - The interleaving of the two goroutines is not modelled.
  - Nor is the race between the watch goroutine's `log.Fatal` and `Monitor` applying the last event.
- The watch loop in the code never ends while the store answers. Here it ends when the finite sequence of answers runs out (`RepliesExhausted`).
- `log.Fatal` (lines 63 and 102) is an outcome value, not a process exit. The `log.Printf` of the struct after each update (line 65) is left out.
- Every field is assumed settable and `configStruct` is assumed to be a pointer to a struct. The code panics otherwise: `Elem` at line 28 on a non-pointer, and `SetInt` or `SetString` at lines 78 and 82 on an unexported field. These panics are not modelled.
- `reflect` is replaced by the explicit field-descriptor sequence. Field values other than `int` and `string` are opaque placeholders.
- `encoding/json` is an abstract codec. JSON itself (RFC 8259) is not modelled.
- Revisions are unbounded integers. The `int64` overflow of `evt.Rev + 1` at the largest revision is not modelled.
- The test file's helpers are not part of this model. They need a live doozerd, and they use another version of the API: `New` with four arguments, `Monitor` with a callback, and map-typed fields.
