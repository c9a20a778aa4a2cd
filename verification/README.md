# Differential update encoder of the simulation-manager monitor

The monitoring daemon keeps, for each simulation-manager record, the snapshot
it last reported to the experiment manager. When a record changes, the daemon
encodes only the fields that differ and sends that text as the `parameters`
value of an HTTP PUT. This project models that encoder and proves what it
produces. The encoder has three parts:

- `escape` rewrites newline, carriage return, tab, single quote and double
  quote as two-character backslash sequences. It does this in five
  successive replace-all passes.
- `inner_sm_record_marshal` compares one field's current and old value. Only
  when they differ, it appends `"name":"escaped value"` to the shared buffer,
  after a comma if the shared flag says an entry has already been written.
  It then sets the flag.
- `sm_record_marshal` writes `{`, makes nine such calls in a fixed field
  order (state, resource_status, cmd_to_execute, cmd_to_execute_code,
  error_log, job_id, pid, vm_id, res_id), and writes `}`.

The project has three modules:

- `Escaping` (escape.dfy) models `escape` faithfully as five `ReplaceAll`
  passes. It gives a per-character reference map, `EscapeByChar`, and
  proves the two equal. The properties of the escaping are proved from that.
- `Records` (records.dfy) holds the record and its nine tracked fields. The
  Go declaration of the record type is not part of this model. Its ten
  string fields are inferred from the field accesses at
  experimentManagerConnector.go:158-174 and :195.
- `Marshal` (marshal.dfy) holds:
  - the specification `Marshal`: `{`, the entries of the changed fields
    joined by commas, `}`;
  - the encoder as the daemon runs it: `InnerMarshal`, and `SmRecordMarshal`
    with its nine calls;
  - a proof that `SmRecordMarshal` returns exactly `Marshal`.

The output is modelled as a plain character sequence, not as JSON: the
escaping produces `\'`, which is not a JSON escape.

The encoder does not escape the backslash itself. So escaping is not
injective: a newline and the two characters `\` `n` give the same text (see
`Escaping.EscapeNotInjective`). Undoing the five substitutions therefore does
not always recover the original string. The model follows the code and
claims no such round trip.

## Model

| member | source | states |
|---|---|---|
| `Escaping.EscapeOneChar` | experimentManagerConnector.go:219-227 | The five passes turn a single newline, carriage return, tab, `'` or `"` into a backslash plus `n`, `r`, `t`, `'` or `"`. Every other character, backslash included, is left as it is. |
| `Escaping.EscapeIsCharMap` | experimentManagerConnector.go:219-227 | The five sequential replace-all passes equal the single per-character map. No pass rewrites a character an earlier pass produced. |
| `Escaping.EscapeIdentity` | experimentManagerConnector.go:219-227 | A string containing none of the five special characters is returned unchanged. |
| `Escaping.EscapeLength` | experimentManagerConnector.go:219-227 | The escaped length is the input length plus the number of special characters in the input. |
| `Escaping.EscapeRemovesControls` | experimentManagerConnector.go:219-227 | No newline, carriage return or tab remains after escaping. |
| `Escaping.EscapeGuardsQuotes` | experimentManagerConnector.go:219-227 | Every `'` and `"` in the escaped text is directly preceded by a backslash. |
| `Escaping.EscapeNewlineBetween` | experimentManagerConnector.go:219-227 | A newline between two strings without special characters becomes backslash-`n`, and the rest is unchanged. |
| `Escaping.EscapeNotInjective` | experimentManagerConnector.go:219-227 | A newline and the two characters backslash, `n` are different inputs with the same escaped text, because the backslash is never escaped. |
| `Records.FieldOrderComplete` | experimentManagerConnector.go:158-174 | The nine calls visit every tracked field exactly once, and distinct fields are written under distinct keys. |
| `Marshal.Marshal` | experimentManagerConnector.go:155-176 | The update always starts with `{` and ends with `}`. |
| `Marshal.InnerMarshal` | experimentManagerConnector.go:143-151 | Equal values leave the buffer and the flag unchanged. Otherwise the buffer gains a comma exactly when the flag was set, followed by `"name":"` + escaped value + `"`, and the flag becomes true. |
| `Marshal.CoversEmit` | experimentManagerConnector.go:143-151 | One call keeps the invariant: the buffer holds `{` plus the comma-joined entries of the changed fields visited so far, and the flag is set exactly when there is at least one such entry. |
| `Marshal.PrefixCovers` | experimentManagerConnector.go:156-174 | After the first k of the nine calls, the buffer and the flag satisfy that invariant for the first k fields of the field order. |
| `Marshal.SmRecordMarshal` | experimentManagerConnector.go:153-180 | The text the daemon builds is exactly the specification `Marshal` of the two records. |
| `Marshal.ChangedFields` | experimentManagerConnector.go:156-174 | A field's entry is written if and only if its two values differ. The entries follow the fixed field order, and no field is written twice. |
| `Marshal.MarshalSeparators` | experimentManagerConnector.go:156-174 | With k ≥ 1 changed fields, the update holds the commas inside the k entries plus exactly k − 1 separating commas. |
| `Marshal.MarshalUnchanged` | experimentManagerConnector.go:153-180 | Records that agree on all nine tracked fields give the empty update `{}`. |
| `Marshal.MarshalSelf` | experimentManagerConnector.go:153-180 | A record compared with itself gives `{}`. |
| `Marshal.MarshalIgnoresId` | experimentManagerConnector.go:153-180 | The `id` field is never compared or written: changing it in either snapshot leaves the update unchanged. |
| `Marshal.MarshalSingleField` | experimentManagerConnector.go:153-180 | When exactly one tracked field differs, the update is `{`, that field's single entry, `}`, with no comma. |
| `Marshal.MarshalErrorLogExample` | experimentManagerConnector.go:166 | When only the error log differs, with old value empty and current value `bad`, newline, `path`, the update is exactly `{"error_log":"bad\npath"}`, where `\n` is a backslash followed by `n`. |

## Left out

- `NewExperimentManagerConnector`, `GetExperimentManagerLocation`,
  `GetSimulationManagerRecords` and `GetSimulationManagerCode` are not
  modelled. They are TLS setup, HTTP requests, JSON decoding and file writes
  done by library code.
- `NotifyStateChange` is not modelled: an HTTP PUT and a status-code check.
  Its only use of the encoder, the call to `sm_record_marshal`, is
  `SmRecordMarshal`.
- The `log.Printf` of the update in `sm_record_marshal` is not modelled. It
  does not affect the returned text.
- model/configData.go is not part of this model. It reads a configuration
  file and an environment variable.
- `Marshal.InnerMarshal`: the daemon passes the comma flag and the buffer by
  pointer. The model passes them in and returns their new values, so
  aliasing of the two pointers is not modelled. `sm_record_marshal` never
  aliases them.
- Strings are sequences of characters rather than bytes. The five escaped
  characters are single ASCII bytes that never occur inside a multi-byte
  UTF-8 sequence, so replacing them per character matches replacing them
  per byte. Byte strings that are not valid UTF-8 are not modelled.
