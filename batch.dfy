/** The batch collector: one record per export whose processing succeeds,
    in input order. Loading an export and reading its measurement results
    happen inside a `try` and are abstracted as a per-file outcome. */
module Batch {
  import opened Wrappers
  import opened Grids
  import opened Stem

  /** One export file: its stem, and what the `try` block made of it: the
      measurement data `P` it read, or `None` when it raised. */
  datatype FileInput<P> = FileInput(stem: string, loaded: Option<P>)

  /** The dictionary appended per file: the three identifiers parsed from
      the stem, the stem itself, and the measurement data. */
  datatype Record<P> = Record(testId: string, runNumber: string, fileName: string, fileNameId: string, data: P)

  /** Whether a record's identifiers are the groups parsed from its own
      file name. */
  predicate IdentifiedBy<P>(rec: Record<P>, id: SampleId) {
    rec.testId == id.testId && rec.fileNameId == id.fileNameId && rec.runNumber == id.runNumber
  }

  /** What `get_litesizer500_data_from_list` returns for `files`: the
      records of the files whose `try` block succeeded, or an `IndexError`
      when some stem does not match the identifier pattern. */
  function Collect<P>(files: seq<FileInput<P>>): (r: Result<seq<Record<P>>, Fault>)
    ensures r.Failure? ==> r.error == IndexError
    ensures r.Success? ==> |r.value| <= |files|
  {
    if files == [] then Success([])
    else Join(Collect(files[..|files| - 1]), Step(files[|files| - 1]))
  }

  /** What processing one file contributes: an abort when its stem has no
      match, else its record when the `try` block succeeded and nothing
      when it raised. */
  function Step<P>(f: FileInput<P>): Result<seq<Record<P>>, Fault> {
    match ParseStem(f.stem)
    case None => Failure(IndexError)
    case Some(id) => Success(Added(f, id))
  }

  function Added<P>(f: FileInput<P>, id: SampleId): seq<Record<P>> {
    if f.loaded.Some? then [Record(id.testId, id.runNumber, f.stem, id.fileNameId, f.loaded.value)] else []
  }

  /** Sequencing two stages: the first exception wins, outputs concatenate. */
  function Join<P>(x: Result<seq<Record<P>>, Fault>, y: Result<seq<Record<P>>, Fault>): Result<seq<Record<P>>, Fault> {
    match x
    case Failure(e) => Failure(e)
    case Success(a) =>
      match y
      case Failure(e) => Failure(e)
      case Success(b) => Success(a + b)
  }

  lemma JoinAssociative<P>(x: Result<seq<Record<P>>, Fault>, y: Result<seq<Record<P>>, Fault>, z: Result<seq<Record<P>>, Fault>)
    ensures Join(Join(x, y), z) == Join(x, Join(y, z))
  {
    if x.Success? && y.Success? && z.Success? {
      assert (x.value + y.value) + z.value == x.value + (y.value + z.value);
    }
  }

  /** Every record carries the identifiers parsed from its own file name. */
  lemma {:induction false} CollectRecordsIdentified<P>(files: seq<FileInput<P>>)
    ensures Collect(files).Success? ==> forall j :: 0 <= j < |Collect(files).value| ==>
      var rec := Collect(files).value[j];
      ParseStem(rec.fileName).Some? && IdentifiedBy(rec, ParseStem(rec.fileName).value)
  {
    if files != [] {
      CollectRecordsIdentified(files[..|files| - 1]);
    }
  }

  /** One file on its own: its record when the `try` block succeeded,
      nothing when it raised, and an abort when its stem does not match. */
  lemma CollectSingle<P>(f: FileInput<P>)
    ensures Collect([f]) ==
      match ParseStem(f.stem)
      case None => Failure(IndexError)
      case Some(id) =>
        if f.loaded.Some? then Success([Record(id.testId, id.runNumber, f.stem, id.fileNameId, f.loaded.value)])
        else Success([])
  {
    assert [f][..0] == [] && [f][0] == f;
    if Step(f).Success? {
      assert [] + Step(f).value == Step(f).value;
    }
  }

  /** The defining step of `Collect`, stated on `files + [f]`. */
  lemma CollectSnoc<P>(files: seq<FileInput<P>>, f: FileInput<P>)
    ensures Collect(files + [f]) == Join(Collect(files), Step(f))
  {
    var s := files + [f];
    assert s[..|s| - 1] == files && s[|s| - 1] == f;
  }

  /** Once a prefix of the files aborts, the whole call aborts. */
  lemma {:induction false} CollectFailureExtends<P>(files: seq<FileInput<P>>, n: nat)
    requires n <= |files| && Collect(files[..n]).Failure?
    ensures Collect(files).Failure?
    decreases |files|
  {
    if n == |files| {
      assert files[..n] == files;
    } else {
      var init := files[..|files| - 1];
      assert init[..n] == files[..n];
      CollectFailureExtends(init, n);
    }
  }

  /** The call aborts exactly when some stem in the list fails to match,
      wherever in the list that file is. */
  lemma {:induction false} CollectFailsIff<P>(files: seq<FileInput<P>>)
    ensures Collect(files).Failure? <==> exists i :: 0 <= i < |files| && ParseStem(files[i].stem).None?
  {
    if files != [] {
      var init := files[..|files| - 1];
      CollectFailsIff(init);
      if exists i :: 0 <= i < |init| && ParseStem(init[i].stem).None? {
        var i :| 0 <= i < |init| && ParseStem(init[i].stem).None?;
        assert files[i] == init[i];
      }
      if exists i :: 0 <= i < |files| && ParseStem(files[i].stem).None? {
        var i :| 0 <= i < |files| && ParseStem(files[i].stem).None?;
        if i < |init| {
          assert init[i] == files[i];
        }
      }
    }
  }

  /** Files are processed independently and in order: the output for
      `a + b` is the output for `a` followed by the output for `b`. */
  lemma {:induction false} CollectConcat<P>(a: seq<FileInput<P>>, b: seq<FileInput<P>>)
    ensures Collect(a + b) ==
      if Collect(a).Success? && Collect(b).Success? then Success(Collect(a).value + Collect(b).value)
      else Failure(IndexError)
    decreases |b|
  {
    if b == [] {
      assert a + b == a && Collect(b) == Success([]);
      if Collect(a).Success? {
        assert Collect(a).value + [] == Collect(a).value;
      }
    } else {
      var initB, last := b[..|b| - 1], b[|b| - 1];
      assert b == initB + [last];
      assert a + b == (a + initB) + [last];
      CollectConcat(a, initB);
      CollectSnoc(a + initB, last);
      CollectSnoc(initB, last);
      JoinAssociative(Collect(a), Collect(initB), Step(last));
    }
  }

  /** `get_litesizer500_data_from_list`: walks the files in order, parses
      each stem before the `try` (a stem that does not match raises and
      aborts the whole call), and appends a record for each file whose
      `try` block succeeds; failures inside the `try` are skipped. */
  method GetDataFromList<P>(files: seq<FileInput<P>>) returns (r: Result<seq<Record<P>>, Fault>)
    ensures r == Collect(files)
  {
    var records: seq<Record<P>> := [];
    var i := 0;
    while i < |files|
      invariant i <= |files|
      invariant Collect(files[..i]) == Success(records)
    {
      var f := files[i];
      ghost var done := files[..i + 1];
      assert done[..|done| - 1] == files[..i] && done[|done| - 1] == f;
      var parsed := ParseStem(f.stem);
      if parsed.None? {
        CollectFailureExtends(files, i + 1);
        return Failure(IndexError);
      }
      var id := parsed.value;
      ghost var before := records;
      if f.loaded.Some? {
        records := records + [Record(id.testId, id.runNumber, f.stem, id.fileNameId, f.loaded.value)];
      }
      assert records == before + Added(f, id);
      assert Collect(done) == Success(records);
      i := i + 1;
    }
    assert files[..i] == files;
    r := Success(records);
  }
}
