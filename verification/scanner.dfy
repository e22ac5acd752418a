/** The deduplicate-and-number recording rule of the QR scanner.

    The scanner keeps an in-memory list of records (`datos`). Every QR code
    found in a camera frame is a `Detection`; its payload is decoded as
    UTF-8 and, when the text is not yet in the list, a record numbered
    `|datos| + 1` is appended and the whole list is handed to the
    spreadsheet exporter. The camera, the QR decoder, the clock and the
    file system are outside the model: their results arrive as inputs. */
module Scanner {
  import opened Wrappers
  import Camera

  /** One row of the spreadsheet: sequence number, decoded payload, symbol
      type reported by the decoder, and the time the record was created,
      as formatted text. */
  datatype Record = Record(numero: nat, contenido: string, tipo: string, fechaHora: string)

  /** One QR code found in a frame, together with what the environment
      answers while it is handled:
      - `text`: the payload decoded as UTF-8, `None` when decoding fails;
      - `tipo`: the symbol-type label from the decoder;
      - `stamp`: the formatted current time, read when a new record is
        built and used only then;
      - `saved`: whether the spreadsheet write attempted for this detection
        succeeds, consulted only when a write is attempted. */
  datatype Detection = Detection(text: Option<string>, tipo: string, stamp: string, saved: bool)

  /** One iteration of the capture loop: either the frame could not be read
      (the loop waits and retries), or a frame was read and the decoder
      found these codes in it, in order. */
  datatype Frame = ReadFailed | Captured(detections: seq<Detection>)

  /** The observable state of a scanning session:
      - `datos`: the in-memory record list;
      - `exports`: every list handed to the exporter, oldest first;
      - `file`: what the spreadsheet holds after the last successful write
        of this session, `None` while nothing has been written. */
  datatype Scanner = Scanner(datos: seq<Record>, exports: seq<seq<Record>>, file: Option<seq<Record>>)

  /** How a session ends: with no camera (nothing is scanned or written),
      or after scanning with the camera index that was opened. */
  datatype Session = NoCamera | Scanned(camera: nat, final: Scanner)

  /** The state at program start: an empty list, nothing exported. */
  const Init := Scanner([], [], None)

  /** The payloads already recorded, in list order. */
  function Contents(datos: seq<Record>): seq<string>
  {
    seq(|datos|, k requires 0 <= k < |datos| => datos[k].contenido)
  }

  /** Handle one detection. A payload that fails to decode, or whose text
      is already recorded, changes nothing. A new text is appended as
      record number `|datos| + 1` and the whole list is handed to the
      exporter, which either replaces the file with it or fails; a failure
      is reported and swallowed, and the new record stays in memory. */
  function Step(s: Scanner, d: Detection): (r: Scanner)
    ensures s.datos <= r.datos
    ensures r == s <==> d.text.None? || d.text.value in Contents(s.datos)
    ensures r != s ==> |r.datos| == |s.datos| + 1
    ensures r != s ==> r.datos[|s.datos|] == Record(|s.datos| + 1, d.text.value, d.tipo, d.stamp)
    ensures r != s ==> r.exports == s.exports + [r.datos]
    ensures r != s ==> r.file == (if d.saved then Some(r.datos) else s.file)
  {
    match d.text
    case None => s
    case Some(c) =>
      if c in Contents(s.datos) then s
      else
        var datos := s.datos + [Record(|s.datos| + 1, c, d.tipo, d.stamp)];
        Scanner(datos, s.exports + [datos], if d.saved then Some(datos) else s.file)
  }

  /** Handle the detections of a frame in order. A run only appends:
      earlier records and exports are kept, each detection adds at most one
      record, and exactly one export is made per appended record. */
  function Run(s: Scanner, ds: seq<Detection>): (r: Scanner)
    ensures s.datos <= r.datos && s.exports <= r.exports
    ensures |r.datos| <= |s.datos| + |ds|
    ensures |r.exports| - |s.exports| == |r.datos| - |s.datos|
  {
    if ds == [] then s
    else Step(Run(s, ds[..|ds| - 1]), ds[|ds| - 1])
  }

  /** The capture loop over the frames read until the user quits. Like a
      run, it only appends records and makes one export per new record. */
  function RunFrames(s: Scanner, fs: seq<Frame>): (r: Scanner)
    ensures s.datos <= r.datos && s.exports <= r.exports
    ensures |r.exports| - |s.exports| == |r.datos| - |s.datos|
  {
    if fs == [] then s
    else
      var before := RunFrames(s, fs[..|fs| - 1]);
      match fs[|fs| - 1]
      case ReadFailed => before
      case Captured(ds) => Run(before, ds)
  }

  /** All detections of a frame sequence, in the order they are handled. */
  function Flatten(fs: seq<Frame>): seq<Detection>
  {
    if fs == [] then []
    else
      Flatten(fs[..|fs| - 1]) +
      match fs[|fs| - 1]
      case ReadFailed => []
      case Captured(ds) => ds
  }

  /** The texts of the detections that decode, in order. */
  function Decoded(ds: seq<Detection>): seq<string>
  {
    if ds == [] then []
    else
      Decoded(ds[..|ds| - 1]) +
      match ds[|ds| - 1].text
      case None => []
      case Some(c) => [c]
  }

  /** A whole program run: probe the cameras, then scan the frames. The
      session scans iff some index below `ProbeCount` opens, and then with
      the smallest such index. */
  function RunSession(opens: nat -> bool, fs: seq<Frame>): (r: Session)
    ensures r.NoCamera? <==> forall k :: 0 <= k < Camera.ProbeCount ==> !opens(k)
    ensures r.Scanned? ==> r.camera < Camera.ProbeCount && opens(r.camera)
    ensures r.Scanned? ==> forall j :: 0 <= j < r.camera ==> !opens(j)
  {
    match Camera.Probe(opens)
    case None => NoCamera
    case Some(i) => Scanned(i, RunFrames(Init, fs))
  }

}
