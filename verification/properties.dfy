/** Properties of the recording rule, folded over a stream of detections. */
module Properties {
  import opened Wrappers
  import opened Scanner

  /** Record `k` (0-based) carries sequence number `k + 1`. */
  ghost predicate Numbered(datos: seq<Record>)
  {
    forall k :: 0 <= k < |datos| ==> datos[k].numero == k + 1
  }

  /** No two records share a payload. */
  ghost predicate Unique(xs: seq<string>)
  {
    forall i, j :: 0 <= i < j < |xs| ==> xs[i] != xs[j]
  }

  /** The exporter was called once per record, the k-th time with the
      first k + 1 records, and the file holds one of those lists. */
  ghost predicate ExportsAreSnapshots(s: Scanner)
  {
    && |s.exports| == |s.datos|
    && (forall k :: 0 <= k < |s.exports| ==> s.exports[k] == s.datos[..k + 1])
    && (s.file.Some? ==> s.file.value in s.exports)
  }

  /** The invariant of a scanning session. */
  ghost predicate Valid(s: Scanner)
  {
    Numbered(s.datos) && Unique(Contents(s.datos)) && ExportsAreSnapshots(s)
  }

  /** The stable deduplication of `xs`: every text at the position where it
      first occurs, later repetitions dropped. */
  function FirstSeen(xs: seq<string>): seq<string>
  {
    if xs == [] then []
    else
      var p := xs[..|xs| - 1];
      FirstSeen(p) + (if xs[|xs| - 1] in p then [] else [xs[|xs| - 1]])
  }

  /** The set of distinct texts in `xs`. */
  function Distinct(xs: seq<string>): set<string>
  {
    set c | c in xs
  }

  // ---------------------------------------------------------------------------
  // Basic facts about the helpers

  lemma ContentsAppend(datos: seq<Record>, r: Record)
    ensures Contents(datos + [r]) == Contents(datos) + [r.contenido]
  {
  }

  lemma {:induction false} FirstSeenSpec(xs: seq<string>)
    ensures forall c :: c in FirstSeen(xs) <==> c in xs
    ensures Unique(FirstSeen(xs))
    ensures |FirstSeen(xs)| == |Distinct(xs)|
  {
    if xs != [] {
      var p := xs[..|xs| - 1];
      var x := xs[|xs| - 1];
      assert xs == p + [x];
      FirstSeenSpec(p);
      if x in p {
        assert Distinct(xs) == Distinct(p);
      } else {
        assert Distinct(xs) == Distinct(p) + {x};
      }
    }
  }

  lemma DecodedAppend(ds: seq<Detection>, d: Detection)
    ensures Decoded(ds + [d]) == Decoded(ds) + (if d.text.Some? then [d.text.value] else [])
  {
  }

  // ---------------------------------------------------------------------------
  // One step

  /** Every step keeps the session invariant. */
  lemma StepValid(s: Scanner, d: Detection)
    requires Valid(s)
    ensures Valid(Step(s, d))
  {
    if Step(s, d) != s {
      ContentsAppend(s.datos, Step(s, d).datos[|s.datos|]);
      assert Step(s, d).datos == s.datos + [Step(s, d).datos[|s.datos|]];
    }
  }

  /** Handling the same detection twice in a row has the effect of
      handling it once. */
  lemma StepIdempotent(s: Scanner, d: Detection)
    ensures Step(Step(s, d), d) == Step(s, d)
  {
    if Step(s, d) != s {
      ContentsAppend(s.datos, Step(s, d).datos[|s.datos|]);
      assert Step(s, d).datos == s.datos + [Step(s, d).datos[|s.datos|]];
    }
  }

  /** A write failure does not roll back the appended record: the record
      list does not depend on whether the export succeeded. */
  lemma StepDatosIgnoresSave(s: Scanner, d: Detection, ok: bool)
    ensures Step(s, d.(saved := ok)).datos == Step(s, d).datos
  {
  }

  // ---------------------------------------------------------------------------
  // Runs over a stream of detections

  lemma {:induction false} RunAppend(s: Scanner, a: seq<Detection>, b: seq<Detection>)
    ensures Run(s, a + b) == Run(Run(s, a), b)
    decreases |b|
  {
    if b == [] {
      assert a + b == a;
    } else {
      var b' := b[..|b| - 1];
      assert (a + b)[..|a + b| - 1] == a + b';
      assert (a + b)[|a + b| - 1] == b[|b| - 1];
      RunAppend(s, a, b');
    }
  }

  /** The invariant holds after any run from a valid state. */
  lemma {:induction false} RunValid(s: Scanner, ds: seq<Detection>)
    requires Valid(s)
    ensures Valid(Run(s, ds))
  {
    if ds != [] {
      RunValid(s, ds[..|ds| - 1]);
      StepValid(Run(s, ds[..|ds| - 1]), ds[|ds| - 1]);
    }
  }

  /** The recorded payloads are exactly the earlier ones plus every payload
      that decoded during the run. */
  lemma {:induction false} RunMembers(s: Scanner, ds: seq<Detection>)
    ensures forall c :: c in Contents(Run(s, ds).datos) <==> c in Contents(s.datos) || c in Decoded(ds)
  {
    if ds != [] {
      var p := ds[..|ds| - 1];
      var d := ds[|ds| - 1];
      assert ds == p + [d];
      RunMembers(s, p);
      DecodedAppend(p, d);
      var before := Run(s, p);
      if Step(before, d) != before {
        ContentsAppend(before.datos, Step(before, d).datos[|before.datos|]);
        assert Step(before, d).datos == before.datos + [Step(before, d).datos[|before.datos|]];
      }
    }
  }

  /** From program start, the record list holds the decoded payloads in
      first-seen order, each once. */
  lemma {:induction false} RunIsFirstSeen(ds: seq<Detection>)
    ensures Contents(Run(Init, ds).datos) == FirstSeen(Decoded(ds))
  {
    if ds != [] {
      var p := ds[..|ds| - 1];
      var d := ds[|ds| - 1];
      assert ds == p + [d];
      RunIsFirstSeen(p);
      RunMembers(Init, p);
      DecodedAppend(p, d);
      var before := Run(Init, p);
      var xs := Decoded(p);
      if d.text.Some? {
        var c := d.text.value;
        assert Decoded(ds) == xs + [c];
        assert (xs + [c])[..|xs + [c]| - 1] == xs;
        assert FirstSeen(xs + [c]) == FirstSeen(xs) + (if c in xs then [] else [c]);
        assert c in Contents(before.datos) <==> c in xs;
        if Step(before, d) != before {
          ContentsAppend(before.datos, Step(before, d).datos[|before.datos|]);
          assert Step(before, d).datos == before.datos + [Step(before, d).datos[|before.datos|]];
        }
      } else {
        assert Decoded(ds) == xs;
      }
    }
  }

  /** The headline property: starting from an empty list, after any stream
      of detections the records are numbered 1..N, the N payloads are the
      distinct payloads that decoded, in first-seen order, and the exporter
      was called N times, each time with the full list as it then was. */
  lemma RunFromInit(ds: seq<Detection>)
    ensures Numbered(Run(Init, ds).datos)
    ensures Unique(Contents(Run(Init, ds).datos))
    ensures Contents(Run(Init, ds).datos) == FirstSeen(Decoded(ds))
    ensures |Run(Init, ds).datos| == |Distinct(Decoded(ds))|
    ensures ExportsAreSnapshots(Run(Init, ds))
  {
    RunValid(Init, ds);
    RunIsFirstSeen(ds);
    FirstSeenSpec(Decoded(ds));
  }

  /** A detection that fails to decode is skipped and the remaining
      detections of the frame are still handled as if it were absent. */
  lemma SkipUndecodable(s: Scanner, a: seq<Detection>, bad: Detection, b: seq<Detection>)
    requires bad.text.None?
    ensures Run(s, a + [bad] + b) == Run(s, a + b)
  {
    RunAppend(s, a + [bad], b);
    RunAppend(s, a, [bad]);
    RunAppend(s, a, b);
  }

  /** A detection whose payload is already recorded is a no-op wherever it
      occurs later in the stream. */
  lemma {:induction false} RepeatIsNoOp(s: Scanner, a: seq<Detection>, d: Detection, b: seq<Detection>)
    requires d.text.Some?
    requires d.text.value in Contents(s.datos) || d.text.value in Decoded(a)
    ensures Run(s, a + [d] + b) == Run(s, a + b)
  {
    RunMembers(s, a);
    RunAppend(s, a + [d], b);
    RunAppend(s, a, [d]);
    RunAppend(s, a, b);
  }

  /** The record list does not depend on whether the spreadsheet writes
      succeed: an export failure never rolls back a record. */
  lemma {:induction false} RunDatosIgnoresSaves(s: Scanner, ds: seq<Detection>, es: seq<Detection>)
    requires |ds| == |es|
    requires forall k :: 0 <= k < |ds| ==> es[k] == ds[k].(saved := es[k].saved)
    ensures Run(s, ds).datos == Run(s, es).datos
  {
    if ds != [] {
      var n := |ds| - 1;
      RunDatosIgnoresSaves(s, ds[..n], es[..n]);
      var a := Run(s, ds[..n]);
      var b := Run(s, es[..n]);
      assert a.datos == b.datos;
      assert es[n] == ds[n].(saved := es[n].saved);
    }
  }

  /** The file, once written, always holds a prefix of the record list. */
  lemma FileIsPrefix(s: Scanner)
    requires Valid(s)
    requires s.file.Some?
    ensures s.file.value <= s.datos
  {
  }

  /** When the record list is non-empty the file holds all of it. */
  ghost predicate FileCurrent(s: Scanner)
  {
    s.datos != [] ==> s.file == Some(s.datos)
  }

  /** When every spreadsheet write succeeds, the file always holds the full
      record list once there is one: the persisted table has one row per
      distinct decoded payload. */
  lemma {:induction false} RunAllSavedFileCurrent(s: Scanner, ds: seq<Detection>)
    requires FileCurrent(s)
    requires forall k :: 0 <= k < |ds| ==> ds[k].saved
    ensures FileCurrent(Run(s, ds))
  {
    if ds != [] {
      RunAllSavedFileCurrent(s, ds[..|ds| - 1]);
      assert ds[|ds| - 1].saved;
    }
  }

  // ---------------------------------------------------------------------------
  // Frames and whole sessions

  /** The capture loop handles exactly the detections of the frames that
      were read, in order; failed reads change nothing. */
  lemma {:induction false} RunFramesIsRun(s: Scanner, fs: seq<Frame>)
    ensures RunFrames(s, fs) == Run(s, Flatten(fs))
  {
    if fs != [] {
      var p := fs[..|fs| - 1];
      RunFramesIsRun(s, p);
      match fs[|fs| - 1]
      case ReadFailed =>
        assert Flatten(fs) == Flatten(p) + [];
        assert Flatten(fs) == Flatten(p);
      case Captured(ds) =>
        RunAppend(s, Flatten(p), ds);
    }
  }

  /** With no camera nothing is scanned or written; otherwise the final
      state is valid and holds, in first-seen order, every payload decoded
      in the frames that were read. */
  lemma SessionSpec(opens: nat -> bool, fs: seq<Frame>)
    ensures RunSession(opens, fs).Scanned? ==>
      var r := RunSession(opens, fs);
      && Valid(r.final)
      && Contents(r.final.datos) == FirstSeen(Decoded(Flatten(fs)))
      && |r.final.datos| == |Distinct(Decoded(Flatten(fs)))|
  {
    RunFramesIsRun(Init, fs);
    RunFromInit(Flatten(fs));
  }

  /** The example stream "A", "B", "A", "C" records A as 1, B as 2 and C
      as 3; the repeated "A" keeps the time of its first record. */
  lemma ExampleABAC(t: string)
    ensures
      var ds := [Detection(Some("A"), t, "t1", true), Detection(Some("B"), t, "t2", true),
                 Detection(Some("A"), t, "t3", true), Detection(Some("C"), t, "t4", true)];
      Run(Init, ds).datos == [Record(1, "A", t, "t1"), Record(2, "B", t, "t2"), Record(3, "C", t, "t4")]
  {
    var ds := [Detection(Some("A"), t, "t1", true), Detection(Some("B"), t, "t2", true),
               Detection(Some("A"), t, "t3", true), Detection(Some("C"), t, "t4", true)];
    var r1 := [Record(1, "A", t, "t1")];
    var r2 := r1 + [Record(2, "B", t, "t2")];
    var r3 := r2 + [Record(3, "C", t, "t4")];
    assert ds[..1] == ds[..1][..0] + [ds[0]];
    assert Run(Init, ds[..1]).datos == r1;
    assert ds[..2][..1] == ds[..1];
    assert Contents(r1) == ["A"];
    assert Run(Init, ds[..2]).datos == r2;
    assert ds[..3][..2] == ds[..2];
    assert Contents(r2) == ["A", "B"];
    assert Run(Init, ds[..3]).datos == r2;
    assert ds[..4][..3] == ds[..3];
    assert Run(Init, ds).datos == r3;
  }

}
