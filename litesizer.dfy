/** The Litesizer 500 export reader: the four free-text metadata fields it
    resolves from the label columns of the sheet. */
module Litesizer {
  import opened Wrappers
  import opened Grids
  import opened Adjacent

  /** Metadata labels live in columns 0 and 1 (`df[[0, 1]]`). */
  const LabelColumns: nat := 2

  const WorkbookNameLabel := "Workbook name"
  const MeasurementNameLabel := "Measurement name"
  const MeasurementModeLabel := "Measurement mode"
  const CommentLabel := "Comment"

  /** `name` occurs exactly once in the first two columns, in column 0 of
      row `row`; its value is then the cell in column 1 of that row. */
  ghost predicate LabelRow(g: Grid, name: string, row: nat)
    requires g.Valid()
  {
    && LabelColumns <= g.width
    && row < g.Height()
    && g.At(Position(row, 0)) == Text(name)
    && forall p :: g.InRange(p) && p.col < LabelColumns && g.At(p) == Text(name) ==> p == Position(row, 0)
  }

  lemma LabelRowIsUniqueHit(g: Grid, name: string)
    requires g.Valid() && LabelColumns <= g.width
    ensures forall p :: UniqueHit(View(g, LabelColumns), Equals(Text(name)), p) && p.col == 0 ==>
      LabelRow(g, name, p.row)
    ensures forall row: nat :: LabelRow(g, name, row) ==>
      UniqueHit(View(g, LabelColumns), Equals(Text(name)), Position(row, 0))
  {
    var v := View(g, LabelColumns);
    forall p | UniqueHit(v, Equals(Text(name)), p) && p.col == 0
      ensures LabelRow(g, name, p.row)
    {
      forall p' | g.InRange(p') && p'.col < LabelColumns && g.At(p') == Text(name)
        ensures p' == Position(p.row, 0)
      {
        assert v.InRange(p') && Hits(Equals(Text(name)), v.At(p'));
      }
    }
  }

  /** `list(get_adjacent_value(df[[0, 1]], name).values())[0]`. */
  function LabelValue(g: Grid, name: string): (r: Result<Cell, Fault>)
    requires g.Valid()
    ensures r.Failure? ==> r.error == if g.width < LabelColumns then KeyError else IndexError
  {
    if g.width < LabelColumns then Failure(KeyError)
    else
      match AdjacentValue(View(g, LabelColumns), Text(name))
      case Failure(e) => Failure(e)
      case Success(m) =>
        if Text(name) in m then Success(m[Text(name)]) else Failure(IndexError)
  }

  /** A label lookup succeeds exactly when the label occurs once among the
      label columns and in column 0, and then yields the cell beside it;
      `KeyError` when the sheet has fewer than two columns; `IndexError`
      when the label is absent, repeated, or alone in column 1. */
  lemma LabelValueSpec(g: Grid, name: string)
    requires g.Valid()
    ensures LabelValue(g, name).Success? <==> Resolvable(g, name)
    ensures forall row: nat :: LabelRow(g, name, row) ==> LabelValue(g, name) == Success(g.At(Position(row, 1)))
  {
    if LabelColumns <= g.width {
      LabelRowIsUniqueHit(g, name);
      AdjacentValueSpec(View(g, LabelColumns), Text(name));
    }
  }

  /** The four metadata strings of one export. */
  datatype SampleInfo = SampleInfo(workbookName: Cell, measurementName: Cell, measurementMode: Cell, comment: Cell)

  /** `name` occurs once among the label columns, in column 0. */
  ghost predicate Resolvable(g: Grid, name: string)
    requires g.Valid()
  {
    exists row: nat :: LabelRow(g, name, row)
  }

  /** `c` is the value beside the unique occurrence of `name`. */
  ghost predicate ValueOf(g: Grid, name: string, c: Cell)
    requires g.Valid()
  {
    exists row: nat :: LabelRow(g, name, row) && c == g.At(Position(row, 1))
  }

  /** The four lookups of `get_sample_information`, in order; the first one
      that raises aborts the rest. */
  function SampleInformation(g: Grid): (r: Result<SampleInfo, Fault>)
    requires g.Valid()
    ensures r.Failure? ==> r.error == if g.width < LabelColumns then KeyError else IndexError
  {
    var workbookName :- LabelValue(g, WorkbookNameLabel);
    var measurementName :- LabelValue(g, MeasurementNameLabel);
    var measurementMode :- LabelValue(g, MeasurementModeLabel);
    var comment :- LabelValue(g, CommentLabel);
    Success(SampleInfo(workbookName, measurementName, measurementMode, comment))
  }

  /** The sample information resolves exactly when each of the four labels
      occurs once among the label columns, in column 0, and each field is
      then the cell beside its label. */
  lemma SampleInformationSpec(g: Grid)
    requires g.Valid()
    ensures SampleInformation(g).Success? <==>
      && Resolvable(g, WorkbookNameLabel) && Resolvable(g, MeasurementNameLabel)
      && Resolvable(g, MeasurementModeLabel) && Resolvable(g, CommentLabel)
    ensures SampleInformation(g).Success? ==>
      var info := SampleInformation(g).value;
      && ValueOf(g, WorkbookNameLabel, info.workbookName)
      && ValueOf(g, MeasurementNameLabel, info.measurementName)
      && ValueOf(g, MeasurementModeLabel, info.measurementMode)
      && ValueOf(g, CommentLabel, info.comment)
  {
    LabelValueSpec(g, WorkbookNameLabel);
    LabelValueSpec(g, MeasurementNameLabel);
    LabelValueSpec(g, MeasurementModeLabel);
    LabelValueSpec(g, CommentLabel);
  }

  /** A loaded export. The four metadata attributes are `None` until
      `GetSampleInformation` assigns them. */
  class Litesizer500 {
    const df: Grid
    var workbookName: Option<Cell>
    var measurementName: Option<Cell>
    var measurementMode: Option<Cell>
    var comment: Option<Cell>

    /** The sheet as `pd.read_excel` returns it, before any lookup. */
    constructor (grid: Grid)
      requires grid.Valid()
      ensures df == grid
      ensures workbookName == None && measurementName == None
      ensures measurementMode == None && comment == None
    {
      df := grid;
      workbookName, measurementName := None, None;
      measurementMode, comment := None, None;
    }

    /** `Litesizer500(path)`: load, then resolve the metadata; the object
        is only handed out when every lookup succeeds. */
    static method Create(grid: Grid) returns (r: Result<Litesizer500, Fault>)
      requires grid.Valid()
      ensures r.Failure? <==> SampleInformation(grid).Failure?
      ensures r.Failure? ==> r.error == SampleInformation(grid).error
      ensures r.Success? ==> fresh(r.value) && r.value.df == grid
      ensures r.Success? ==>
        var info := SampleInformation(grid).value;
        && r.value.workbookName == Some(info.workbookName)
        && r.value.measurementName == Some(info.measurementName)
        && r.value.measurementMode == Some(info.measurementMode)
        && r.value.comment == Some(info.comment)
    {
      var ls := new Litesizer500(grid);
      var fault := ls.GetSampleInformation();
      if fault.Some? {
        r := Failure(fault.value);
      } else {
        r := Success(ls);
      }
    }

    /** `get_sample_information`: assigns the four fields one after the
        other; when a lookup raises, the fields assigned before it keep
        their new values and the later ones are left as they were. */
    method GetSampleInformation() returns (fault: Option<Fault>)
      requires df.Valid()
      modifies this
      ensures fault.None? <==> SampleInformation(df).Success?
      ensures fault.Some? ==> fault.value == SampleInformation(df).error
      ensures workbookName ==
        var wb := LabelValue(df, WorkbookNameLabel);
        if wb.Success? then Some(wb.value) else old(workbookName)
      ensures measurementName ==
        var wb, mn := LabelValue(df, WorkbookNameLabel), LabelValue(df, MeasurementNameLabel);
        if wb.Success? && mn.Success? then Some(mn.value) else old(measurementName)
      ensures measurementMode ==
        var wb, mn := LabelValue(df, WorkbookNameLabel), LabelValue(df, MeasurementNameLabel);
        var mm := LabelValue(df, MeasurementModeLabel);
        if wb.Success? && mn.Success? && mm.Success? then Some(mm.value) else old(measurementMode)
      ensures comment == if SampleInformation(df).Success? then Some(SampleInformation(df).value.comment) else old(comment)
    {
      var r := LabelValue(df, WorkbookNameLabel);
      if r.Failure? {
        return Some(r.error);
      }
      workbookName := Some(r.value);

      r := LabelValue(df, MeasurementNameLabel);
      if r.Failure? {
        return Some(r.error);
      }
      measurementName := Some(r.value);

      r := LabelValue(df, MeasurementModeLabel);
      if r.Failure? {
        return Some(r.error);
      }
      measurementMode := Some(r.value);

      r := LabelValue(df, CommentLabel);
      if r.Failure? {
        return Some(r.error);
      }
      comment := Some(r.value);
      fault := None;
    }
  }

  /** A small export: the workbook name label in row 2 of column 0, its
      value beside it, and a numeric result further right. */
  const ExampleSheet := Grid([
    [Text("Measurement"), Empty, Empty],
    [Empty, Empty, Empty],
    [Text(WorkbookNameLabel), Text("Sample_001"), Empty],
    [Text("Hydrodynamic diameter"), Empty, Num(187)]
  ], 3)

  lemma ExampleWorkbookName()
    ensures ExampleSheet.Valid()
    ensures LabelValue(ExampleSheet, WorkbookNameLabel) == Success(Text("Sample_001"))
    ensures LabelValue(ExampleSheet, CommentLabel) == Failure(IndexError)
  {
    var g := ExampleSheet;
    forall p | g.InRange(p) && p.col < LabelColumns && g.At(p) == Text(WorkbookNameLabel)
      ensures p == Position(2, 0)
    {
      assert p.row < 4 && p.col < 2;
      assert p.row == 0 || p.row == 1 || p.row == 2 || p.row == 3;
    }
    assert LabelRow(g, WorkbookNameLabel, 2);
    LabelValueSpec(g, WorkbookNameLabel);
    forall row: nat | row < g.Height() ensures g.At(Position(row, 0)) != Text(CommentLabel) {
      assert row == 0 || row == 1 || row == 2 || row == 3;
    }
    LabelValueSpec(g, CommentLabel);
  }
}
