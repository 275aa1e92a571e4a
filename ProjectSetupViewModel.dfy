/**
 * `ProjectSetupViewModel`: the rows of the project-setup window, built from
 * the data read out of a PDF (a dictionary from field name to the values
 * found for it) and the design options of the model.
 */
module ProjectSetup {
  import opened Wrappers
  import opened HostTypes

  /** The key whose values each get a row of their own. */
  const DesignOptionKey: string := "Design Option"

  /** A Revit design option: its id and its `OPTION_NAME` parameter, which may be null. */
  datatype DesignOption = DesignOption(Id: ElementId, OptionName: Option<string>)

  /** `ProjectSetupModel`: one row of the window; `None` is a null string. */
  datatype ProjectSetupModel = ProjectSetupModel(
    Description: Option<string>,
    OriginalValue: Option<string>,
    Input: Option<string>,
    Options: seq<Option<string>>,
    Apply: bool)

  /** The PDF data in dictionary enumeration order. */
  type PdfData = seq<(string, seq<string>)>

  /** A dictionary has each key once. */
  ghost predicate DistinctKeys(pdfData: PdfData) {
    forall i, j :: 0 <= i < j < |pdfData| ==> pdfData[i].0 != pdfData[j].0
  }

  /** The option names offered in each design-option row, in design-option order. */
  function OptionNames(designOptions: seq<DesignOption>): (names: seq<Option<string>>)
    ensures |names| == |designOptions|
    ensures forall i :: 0 <= i < |names| ==> names[i] == designOptions[i].OptionName
  {
    seq(|designOptions|, i requires 0 <= i < |designOptions| => designOptions[i].OptionName)
  }

  /** `FirstOrDefault()` on a list of strings. */
  function FirstOrDefault(values: seq<string>): (v: Option<string>)
    ensures v.None? <==> values == []
    ensures v.Some? ==> v.value == values[0]
  {
    if values == [] then None else Some(values[0])
  }

  /** The row of one design-option value. */
  function DesignOptionRow(value: string, names: seq<Option<string>>): ProjectSetupModel {
    ProjectSetupModel(Some(DesignOptionKey), Some(value), Some(value), names, false)
  }

  /** The rows one dictionary entry contributes. */
  function EntryRows(entry: (string, seq<string>), names: seq<Option<string>>): (rows: seq<ProjectSetupModel>)
    ensures entry.0 == DesignOptionKey ==>
      |rows| == |entry.1| && forall i :: 0 <= i < |rows| ==> rows[i] == DesignOptionRow(entry.1[i], names)
    ensures entry.0 != DesignOptionKey ==>
      rows == [ProjectSetupModel(Some(entry.0), FirstOrDefault(entry.1), FirstOrDefault(entry.1), [], false)]
  {
    if entry.0 == DesignOptionKey then
      seq(|entry.1|, i requires 0 <= i < |entry.1| => DesignOptionRow(entry.1[i], names))
    else
      [ProjectSetupModel(Some(entry.0), FirstOrDefault(entry.1), FirstOrDefault(entry.1), [], false)]
  }

  /** What every row of the window satisfies when it is built. */
  ghost predicate FreshRow(row: ProjectSetupModel, names: seq<Option<string>>) {
    && !row.Apply
    && row.OriginalValue == row.Input
    && (row.Description == Some(DesignOptionKey) ==> row.Options == names && row.Input.Some?)
    && (row.Description != Some(DesignOptionKey) ==> row.Options == [])
  }

  /** The rows of all entries, in enumeration order. */
  function SetupRows(pdfData: PdfData, names: seq<Option<string>>): (rows: seq<ProjectSetupModel>)
    ensures forall i :: 0 <= i < |rows| ==> FreshRow(rows[i], names)
    ensures forall i :: 0 <= i < |rows| ==> rows[i].Description.Some?
  {
    if pdfData == [] then []
    else SetupRows(pdfData[..|pdfData| - 1], names) + EntryRows(pdfData[|pdfData| - 1], names)
  }

  /** Rows are emitted entry by entry: building over two runs of entries concatenates their rows. */
  lemma {:induction false} SetupRowsConcat(a: PdfData, b: PdfData, names: seq<Option<string>>)
    ensures SetupRows(a + b, names) == SetupRows(a, names) + SetupRows(b, names)
    decreases |b|
  {
    if b == [] {
      assert a + b == a;
    } else {
      var b' := b[..|b| - 1];
      assert (a + b)[..|a + b| - 1] == a + b';
      assert (a + b)[|a + b| - 1] == b[|b| - 1];
      SetupRowsConcat(a, b', names);
    }
  }

  /** The values stored under a key, if the dictionary has it. */
  function Lookup(pdfData: PdfData, key: string): Option<seq<string>> {
    if pdfData == [] then None
    else if pdfData[|pdfData| - 1].0 == key then Some(pdfData[|pdfData| - 1].1)
    else Lookup(pdfData[..|pdfData| - 1], key)
  }

  /**
   * The number of rows: one per design-option value plus one per other key.
   */
  lemma {:induction false} SetupRowCount(pdfData: PdfData, names: seq<Option<string>>)
    requires DistinctKeys(pdfData)
    ensures |SetupRows(pdfData, names)| ==
      match Lookup(pdfData, DesignOptionKey)
      case None => |pdfData|
      case Some(values) => |pdfData| - 1 + |values|
  {
    if pdfData != [] {
      var init := pdfData[..|pdfData| - 1];
      var last := pdfData[|pdfData| - 1];
      assert DistinctKeys(init);
      SetupRowCount(init, names);
      if last.0 == DesignOptionKey {
        NoKeyNoLookup(init, DesignOptionKey);
      }
    }
  }

  /** A key absent from every entry is not found. */
  lemma {:induction false} NoKeyNoLookup(pdfData: PdfData, key: string)
    requires forall i :: 0 <= i < |pdfData| ==> pdfData[i].0 != key
    ensures Lookup(pdfData, key).None?
    decreases |pdfData|
  {
    if pdfData != [] {
      NoKeyNoLookup(pdfData[..|pdfData| - 1], key);
    }
  }

  /** The view model of the project-setup window. */
  class ProjectSetupViewModel {
    var Setup: seq<ProjectSetupModel>

    /**
     * The constructor: for each entry, in order, one row per value under
     * "Design Option" offering the design options' names, and one row with
     * the first value (or null) for every other key.
     */
    constructor (designOptions: seq<DesignOption>, pdfData: PdfData)
      ensures Setup == SetupRows(pdfData, OptionNames(designOptions))
    {
      var names := OptionNames(designOptions);
      var setup: seq<ProjectSetupModel> := [];
      for k := 0 to |pdfData|
        invariant setup == SetupRows(pdfData[..k], names)
      {
        assert pdfData[..k + 1][..k] == pdfData[..k];
        var kvp := pdfData[k];
        if kvp.0 == DesignOptionKey {
          ghost var before := setup;
          for i := 0 to |kvp.1|
            invariant setup == before + EntryRows((kvp.0, kvp.1[..i]), names)
          {
            setup := setup + [DesignOptionRow(kvp.1[i], names)];
          }
          assert kvp.1[..|kvp.1|] == kvp.1;
        } else {
          setup := setup + [ProjectSetupModel(Some(kvp.0), FirstOrDefault(kvp.1), FirstOrDefault(kvp.1), [], false)];
        }
      }
      assert pdfData[..|pdfData|] == pdfData;
      Setup := setup;
    }
  }
}
