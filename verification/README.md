# Automatic QR scanner: recording rule

This project models the core of `Lector.py`, a small scanner that reads camera
frames, decodes the QR codes it finds, and keeps a spreadsheet of the
distinct payloads it has seen. The model covers two parts:

- **camera acquisition** (`Camera`): device indices 0, 1 and 2 are tried in
  order and the first one that opens is used. If none opens, the program
  stops before scanning. Whether a device opens is the predicate `opens`.
- **the deduplicate-and-number rule** (`Scanner`): every detected code is
  decoded as UTF-8. A payload whose text is not yet in the in-memory list
  `datos` becomes a new record numbered `len(datos) + 1`, with the decoder's
  type label and the time the record is created. The whole list is then handed to the
  spreadsheet exporter (`guardar_excel`). A payload that is already recorded,
  or that fails to decode, changes nothing.

The state of a session is `Scanner(datos, exports, file)`:

- `datos` is the record list;
- `exports` is every list handed to the exporter, oldest first;
- `file` is what the spreadsheet holds after the last successful write.

`Step` handles one detection and `Run` folds it over a stream of detections.
`RunFrames` is the capture loop over frames: a failed read changes nothing.
`RunSession` is the whole program. The `Properties` module proves the
invariants: payloads are unique, numbers run 1..N, records appear in
first-seen order, repeats are no-ops, earlier records are never modified,
one export happens per new record and always carries the full list, and an
export failure never rolls back a record. `FirstSeen` is an independent
reference definition of stable deduplication over the decoded texts.

Inputs the model takes rather than computes:

- the decoder's output per frame, as a sequence of `Detection`s;
- the result of UTF-8 decoding, as `Option<string>`;
- the type label, and the formatted time read when a new record is built;
- whether each spreadsheet write succeeds (`Detection.saved`);
- which camera indices open (`opens`).

## Model

| member | source | states |
|---|---|---|
| Camera.ProbeFrom | Lector.py:31-39 | the index returned is the first index from `i` below 3 that opens; `None` exactly when no index from `i` below 3 opens |
| Camera.Probe | Lector.py:30-44 | a camera is found iff one of indices 0, 1, 2 opens, and then it is the smallest such index |
| Scanner.Step | Lector.py:57-76 | a detection changes the state iff it decodes to a text not yet recorded; then exactly one record is appended at the end with number `len(datos)+1`, the decoded text, type and time, the earlier records are kept, and the new full list is handed to the exporter once, which replaces the file only when the write succeeds (`guardar_excel`, Lector.py:102-108) |
| Scanner.Run | Lector.py:57-76 | the `for qr in qr_codes` loop only appends: earlier records and exports are prefixes of the new ones, each detection adds at most one record, and one export is made per new record; `RunValid` and `RunIsFirstSeen` give the rest of its meaning |
| Scanner.RunFrames | Lector.py:47-83 | the capture loop only appends records and makes one export per new record; `RunFramesIsRun` shows it handles exactly the detections of the frames read |
| Scanner.RunSession | Lector.py:28-57 | the session scans iff one of indices 0, 1, 2 opens, and then with the smallest such one; `SessionSpec` gives its final state |
| Properties.StepValid | Lector.py:62-69 | one step keeps the records numbered 1..N, their payloads distinct, and the exports equal to the successive prefixes of the list |
| Properties.StepIdempotent | Lector.py:62 | handling the same detection twice in a row equals handling it once |
| Properties.StepDatosIgnoresSave | Lector.py:69-74 | whether the export succeeds does not change the record list |
| Properties.RunAppend | Lector.py:57-76 | handling detections `a` and then `b` equals handling `a + b` |
| Properties.RunValid | Lector.py:57-76 | the session invariant holds after any run from a state where it holds |
| Properties.RunMembers | Lector.py:57-69 | after a run the recorded payloads are exactly the earlier ones plus every payload that decoded |
| Properties.RunIsFirstSeen | Lector.py:57-69 | starting from the empty list, the recorded payloads equal the first-seen deduplication of the decoded payloads |
| Properties.RunFromInit | Lector.py:28-76 | from the empty list: numbers run 1..N, payloads are distinct, listed in first-seen order, N is the number of distinct decoded payloads, and export k carried the first k+1 records |
| Properties.SkipUndecodable | Lector.py:57-76 | a detection that fails to decode is skipped and the later detections are handled as if it were absent |
| Properties.RepeatIsNoOp | Lector.py:62 | a detection whose payload is already recorded, or decoded earlier in the stream, is a no-op wherever it occurs |
| Properties.RunDatosIgnoresSaves | Lector.py:102-108 | the record list after a run does not depend on which exports failed |
| Properties.FileIsPrefix | Lector.py:104-108 | whatever the file holds is a prefix of the record list |
| Properties.RunAllSavedFileCurrent | Lector.py:69-74 | when every write succeeds, the file holds the full record list whenever that list is non-empty, so the persisted table has one row per recorded payload |
| Properties.RunFramesIsRun | Lector.py:47-57 | the capture loop handles exactly the detections of the frames that were read, in order; a failed read changes nothing |
| Properties.SessionSpec | Lector.py:28-76 | after scanning, the final state is valid, its payloads are the first-seen list of all payloads decoded in the frames read, and there is one record per distinct payload; with no camera there is no state at all, so nothing is recorded or written |
| Properties.ExampleABAC | Lector.py:57-69 | the stream "A" at t1, "B" at t2, "A" at t3, "C" at t4 yields the records A as 1 at t1, B as 2 at t2, C as 3 at t4 |

## Left out

- Camera capture, the preview window, the 'q' key and the 0.1 s pause after a failed frame read (`Lector.py:48-52, 78-83`): device I/O and UI. Frames are given as a sequence, and a failed read is the `ReadFailed` frame.
- The QR decoder `decode(frame)` (`Lector.py:55`): a foreign image library. Its output is given as the detections of each frame.
- UTF-8 decoding itself (`Lector.py:59`): a library routine. Its result is the `Option<string>` carried by each detection.
- `datetime.now().strftime` (`Lector.py:67`): the wall clock and library formatting. The formatted time is an opaque input.
- The pandas `DataFrame`/`to_excel` write (`Lector.py:105-106`): file I/O through a library. It is modelled only as the snapshot handed over and whether the write succeeds.
- A write that fails part-way is modelled as leaving the file as it was; a partly written file is not modelled.
- A spreadsheet left on disk by an earlier run of the program: `file` only tracks writes made in the modelled session.
- Console output, `input()` prompts, the `KeyboardInterrupt` handler and the `finally` cleanup (`Lector.py:22-26, 85-100`): process control and console I/O.
- `resource_path` (`Lector.py:10-17`): an OS path lookup that is never called.
