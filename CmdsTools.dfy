/**
 * `CmdsTools`: the document-transmittal command, which tabulates the
 * revision numbers of sheets and formats the columns of that table, and the
 * project-setup command, which writes the rows the user approved into the
 * project information and deletes design options nobody chose.
 */
module CmdsTools {
  import opened Wrappers
  import opened HostTypes
  import opened RevisionExt
  import opened ProjectSetup

  // ---------------------------------------------------------------------------
  // CmdDocTrans: the transmittal table
  // ---------------------------------------------------------------------------

  /** `GetRevisionNumberOnSheet(id)`: the host call, passed in; `None` is null. */
  type RevisionNumberOnSheet = (Sheet, ElementId) -> Option<string>

  /** The ids of the selected revisions, in selection order. */
  function RevisionIds(revisions: seq<Revision>): (ids: seq<ElementId>)
    ensures |ids| == |revisions| && forall j :: 0 <= j < |ids| ==> ids[j] == revisions[j].Id
  {
    seq(|revisions|, j requires 0 <= j < |revisions| => revisions[j].Id)
  }

  /** The header row: three fixed titles, then the key of each selected revision. */
  function HeaderRow(revisions: seq<Revision>): (row: seq<Option<string>>)
    ensures |row| == 3 + |revisions|
    ensures row[0] == Some("Number") && row[1] == Some("Name") && row[2] == Some("Current")
    ensures forall j :: 0 <= j < |revisions| ==> row[3 + j] == Some(ToRevisionKey(Some(revisions[j]), false))
  {
    [Some("Number"), Some("Name"), Some("Current")]
      + seq(|revisions|, j requires 0 <= j < |revisions| => Some(ToRevisionKey(Some(revisions[j]), false)))
  }

  /** The "Current" cell: the number of the sheet's current revision, or "-" when it has none. */
  function CurrentCell(sheet: Sheet, revisionNumber: RevisionNumberOnSheet): Option<string> {
    if sheet.HasCurrentRevision() then revisionNumber(sheet, sheet.CurrentRevision) else Some("-")
  }

  /** The row of one sheet: number, name, current revision, then its number for each selected revision ("" for none). */
  function SheetRow(sheet: Sheet, revisionIds: seq<ElementId>, revisionNumber: RevisionNumberOnSheet): (row: seq<Option<string>>)
    ensures |row| == 3 + |revisionIds|
    ensures row[0] == Some(sheet.SheetNumber) && row[1] == Some(sheet.Name)
    ensures row[2] == CurrentCell(sheet, revisionNumber)
    ensures forall j :: 0 <= j < |revisionIds| ==> row[3 + j] == Some(revisionNumber(sheet, revisionIds[j]).GetOr(""))
  {
    [Some(sheet.SheetNumber), Some(sheet.Name), CurrentCell(sheet, revisionNumber)]
      + seq(|revisionIds|, j requires 0 <= j < |revisionIds| => Some(revisionNumber(sheet, revisionIds[j]).GetOr("")))
  }

  /** The transmittal: the header row, then one row per selected sheet in selection order. */
  function Transmittal(revisions: seq<Revision>, sheets: seq<Sheet>, revisionNumber: RevisionNumberOnSheet): seq<seq<Option<string>>> {
    [HeaderRow(revisions)] + seq(|sheets|, i requires 0 <= i < |sheets| => SheetRow(sheets[i], RevisionIds(revisions), revisionNumber))
  }

  /** The table is rectangular, as wide as its header, and only a "Current" cell can be null. */
  lemma TransmittalIsRectangular(revisions: seq<Revision>, sheets: seq<Sheet>, revisionNumber: RevisionNumberOnSheet)
    ensures var m := Transmittal(revisions, sheets, revisionNumber);
      && |m| == 1 + |sheets|
      && (forall i :: 0 <= i < |m| ==> |m[i]| == |m[0]| == 3 + |revisions|)
      && (forall i, j :: 0 <= i < |m| && 0 <= j < |m[i]| && j != 2 ==> m[i][j].Some?)
  {
    var m: seq<seq<Option<string>>> := Transmittal(revisions, sheets, revisionNumber);
    forall i, j | 0 <= i < |m| && 0 <= j < |m[i]| && j != 2
      ensures m[i][j].Some?
    {
      if i == 0 {
        if j >= 3 { assert m[0][3 + (j - 3)].Some?; }
      } else {
        var ids := RevisionIds(revisions);
        assert m[i] == SheetRow(sheets[i - 1], ids, revisionNumber);
        if j >= 3 { assert m[i][3 + (j - 3)].Some?; }
      }
    }
  }

  /** The revision loop of the sheet rows. */
  method BuildSheetRow(sheet: Sheet, revisionIds: seq<ElementId>, revisionNumber: RevisionNumberOnSheet)
    returns (row: seq<Option<string>>)
    ensures row == SheetRow(sheet, revisionIds, revisionNumber)
  {
    row := [Some(sheet.SheetNumber), Some(sheet.Name)];
    if sheet.CurrentRevision != InvalidElementId {
      row := row + [revisionNumber(sheet, sheet.CurrentRevision)];
    } else {
      row := row + [Some("-")];
    }
    ghost var current := CurrentCell(sheet, revisionNumber);
    for j := 0 to |revisionIds|
      invariant |row| == 3 + j
      invariant row[0] == Some(sheet.SheetNumber) && row[1] == Some(sheet.Name) && row[2] == current
      invariant forall k :: 0 <= k < j ==> row[3 + k] == Some(revisionNumber(sheet, revisionIds[k]).GetOr(""))
    {
      var revisionNumberOnSheet := revisionNumber(sheet, revisionIds[j]);
      var cell := if revisionNumberOnSheet.None? then "" else revisionNumberOnSheet.value;
      row := row + [Some(cell)];
    }
    ghost var expected := SheetRow(sheet, revisionIds, revisionNumber);
    assert forall k :: 3 <= k < |row| ==> row[k] == expected[k] by {
      forall k | 3 <= k < |row| ensures row[k] == expected[k] {
        assert row[3 + (k - 3)] == expected[3 + (k - 3)];
      }
    }
  }

  /** The revision loop of `CmdDocTrans.Execute`: the header row and the revision ids. */
  method BuildHeader(revisions: seq<Revision>) returns (header: seq<Option<string>>, revisionIds: seq<ElementId>)
    ensures header == HeaderRow(revisions)
    ensures revisionIds == RevisionIds(revisions)
  {
    header := [Some("Number"), Some("Name"), Some("Current")];
    revisionIds := [];
    for j := 0 to |revisions|
      invariant |header| == 3 + j && |revisionIds| == j
      invariant header[0] == Some("Number") && header[1] == Some("Name") && header[2] == Some("Current")
      invariant forall k :: 0 <= k < j ==> header[3 + k] == Some(ToRevisionKey(Some(revisions[k]), false))
      invariant forall k :: 0 <= k < j ==> revisionIds[k] == revisions[k].Id
    {
      header := header + [Some(ToRevisionKey(Some(revisions[j]), false))];
      revisionIds := revisionIds + [revisions[j].Id];
    }
    var expected := HeaderRow(revisions);
    assert forall k :: 0 <= k < |header| ==> header[k] == expected[k] by {
      forall k | 0 <= k < |header| ensures header[k] == expected[k] {
        if k >= 3 { assert header[3 + (k - 3)] == expected[3 + (k - 3)]; }
      }
    }
  }

  /**
   * The table construction of `CmdDocTrans.Execute`: the header and the
   * revision ids from the selected revisions, then a row per selected sheet.
   */
  method BuildTransmittal(revisions: seq<Revision>, sheets: seq<Sheet>, revisionNumber: RevisionNumberOnSheet)
    returns (matrix: seq<seq<Option<string>>>, revisionIds: seq<ElementId>)
    ensures revisionIds == RevisionIds(revisions)
    ensures matrix == Transmittal(revisions, sheets, revisionNumber)
  {
    var header;
    header, revisionIds := BuildHeader(revisions);
    matrix := [header];
    for i := 0 to |sheets|
      invariant |matrix| == 1 + i && matrix[0] == header
      invariant forall k :: 0 <= k < i ==> matrix[1 + k] == SheetRow(sheets[k], revisionIds, revisionNumber)
    {
      var row := BuildSheetRow(sheets[i], revisionIds, revisionNumber);
      matrix := matrix + [row];
    }
    var expected := Transmittal(revisions, sheets, revisionNumber);
    assert forall k :: 0 <= k < |matrix| ==> matrix[k] == expected[k] by {
      forall k | 0 <= k < |matrix| ensures matrix[k] == expected[k] {
        if k > 0 { assert matrix[1 + (k - 1)] == expected[1 + (k - 1)]; }
      }
    }
  }

  /** The height given to the header row. */
  const HeaderRowHeight: int := 150

  /** What the formatting loop sets on one column; `None` and `false` leave the column's default. */
  datatype ColumnStyle = ColumnStyle(Width: int, HeaderRotation: Option<int>, CenteredHorizontally: bool)

  /** The style of column `i` (from 1): 30 wide for the first two; rotated, centred and 5 wide from the third on. */
  function StyleOf(i: int): ColumnStyle {
    if i < 3 then ColumnStyle(30, None, false) else ColumnStyle(5, Some(90), true)
  }

  /** The column loop of `CmdDocTrans.Execute`: `styles[i - 1]` is what column `i` gets. */
  method FormatColumns(revisionIds: seq<ElementId>) returns (styles: seq<ColumnStyle>)
    ensures |styles| == |revisionIds| + 3
    ensures forall i :: 1 <= i <= |styles| ==> styles[i - 1] == StyleOf(i)
  {
    styles := [];
    var i := 1;
    while i <= |revisionIds| + 3
      invariant 1 <= i <= |revisionIds| + 4
      invariant |styles| == i - 1
      invariant forall k :: 1 <= k < i ==> styles[k - 1] == StyleOf(k)
    {
      if i < 3 {
        styles := styles + [ColumnStyle(30, None, false)];
      } else {
        styles := styles + [ColumnStyle(5, Some(90), true)];
      }
      i := i + 1;
    }
  }

  /**
   * The formatted columns are exactly the header's columns, and the third,
   * "Current", is formatted like a revision column although only the first
   * two are made wide.
   */
  lemma CurrentColumnIsNarrow(revisions: seq<Revision>)
    ensures HeaderRow(revisions)[2] == Some("Current") && StyleOf(3) == ColumnStyle(5, Some(90), true)
    ensures forall i :: 1 <= i <= |HeaderRow(revisions)| ==> (StyleOf(i).Width == 30 <==> i <= 2)
  {
  }

  // ---------------------------------------------------------------------------
  // CmdProjSetup: applying the approved rows
  // ---------------------------------------------------------------------------

  /** The four project-information parameters the command may set; `None` is null. */
  datatype ProjectInfo = ProjectInfo(ProjectNumber: Option<string>, ProjectName: Option<string>,
                                     ClientName: Option<string>, ProjectAddress: Option<string>)

  /** The descriptions the switch recognises. */
  const ProjectFields: seq<string> := ["Project Number", "Project Name", "Client Name", "Project Address"]

  /** The parameter a recognised description names. */
  function Field(info: ProjectInfo, desc: string): Option<string>
    requires desc in ProjectFields
  {
    if desc == "Project Number" then info.ProjectNumber
    else if desc == "Project Name" then info.ProjectName
    else if desc == "Client Name" then info.ClientName
    else info.ProjectAddress
  }

  /** A row the user approved with the given description. */
  predicate AppliesTo(row: ProjectSetupModel, desc: string) {
    row.Apply && row.Description == Some(desc)
  }

  /** One approved row through the switch: a recognised description sets its parameter to the row's input. */
  function ApplyRow(info: ProjectInfo, row: ProjectSetupModel): (r: ProjectInfo)
    requires row.Apply
    ensures forall d :: d in ProjectFields ==> Field(r, d) == if AppliesTo(row, d) then row.Input else Field(info, d)
  {
    match row.Description
    case Some(desc) =>
      if desc == "Project Number" then info.(ProjectNumber := row.Input)
      else if desc == "Project Name" then info.(ProjectName := row.Input)
      else if desc == "Client Name" then info.(ClientName := row.Input)
      else if desc == "Project Address" then info.(ProjectAddress := row.Input)
      else info
    case None => info
  }

  /** The approved rows, in order, through the switch. */
  function ApplyAll(info: ProjectInfo, setup: seq<ProjectSetupModel>): ProjectInfo {
    if setup == [] then info
    else
      var before := ApplyAll(info, setup[..|setup| - 1]);
      var row := setup[|setup| - 1];
      if row.Apply then ApplyRow(before, row) else before
  }

  /**
   * `after` is what the last approved row for `desc` asked for, or `before`
   * when no approved row has that description.
   */
  ghost predicate SetByLastApproved(before: Option<string>, after: Option<string>, setup: seq<ProjectSetupModel>, desc: string) {
    && ((forall i :: 0 <= i < |setup| ==> !AppliesTo(setup[i], desc)) ==> after == before)
    && (forall i :: (0 <= i < |setup| && AppliesTo(setup[i], desc)
                     && forall j :: i < j < |setup| ==> !AppliesTo(setup[j], desc)) ==> after == setup[i].Input)
  }

  /** Each parameter ends up as the input of the last approved row naming it, or unchanged. */
  lemma {:induction false} ApplyAllSetsByLastApproved(info: ProjectInfo, setup: seq<ProjectSetupModel>, desc: string)
    requires desc in ProjectFields
    ensures SetByLastApproved(Field(info, desc), Field(ApplyAll(info, setup), desc), setup, desc)
    decreases |setup|
  {
    if setup != [] {
      var init := setup[..|setup| - 1];
      var last := setup[|setup| - 1];
      ApplyAllSetsByLastApproved(info, init, desc);
      var after := Field(ApplyAll(info, setup), desc);
      if AppliesTo(last, desc) {
        assert after == last.Input;
        forall i | 0 <= i < |setup| && AppliesTo(setup[i], desc) && (forall j :: i < j < |setup| ==> !AppliesTo(setup[j], desc))
          ensures i == |setup| - 1
        {
        }
      } else {
        assert after == Field(ApplyAll(info, init), desc);
        forall i | 0 <= i < |setup| && AppliesTo(setup[i], desc) && (forall j :: i < j < |setup| ==> !AppliesTo(setup[j], desc))
          ensures after == setup[i].Input
        {
          assert i < |init| && init[i] == setup[i];
          forall j | i < j < |init| ensures !AppliesTo(init[j], desc) {
            assert init[j] == setup[j];
          }
        }
        if forall i :: 0 <= i < |setup| ==> !AppliesTo(setup[i], desc) {
          forall i | 0 <= i < |init| ensures !AppliesTo(init[i], desc) {
            assert init[i] == setup[i];
          }
        }
      }
    }
  }

  /** The parameter loop of `CmdProjSetup.Execute`, over the approved rows. */
  method ApplyParameters(info: ProjectInfo, setup: seq<ProjectSetupModel>) returns (r: ProjectInfo)
    ensures r == ApplyAll(info, setup)
  {
    r := info;
    for k := 0 to |setup|
      invariant r == ApplyAll(info, setup[..k])
    {
      assert setup[..k + 1][..k] == setup[..k];
      var item := setup[k];
      if item.Apply {
        match item.Description {
          case Some(desc) =>
            if desc == "Project Number" { r := r.(ProjectNumber := item.Input); }
            else if desc == "Project Name" { r := r.(ProjectName := item.Input); }
            else if desc == "Client Name" { r := r.(ClientName := item.Input); }
            else if desc == "Project Address" { r := r.(ProjectAddress := item.Input); }
          case None =>
        }
      }
    }
    assert setup[..|setup|] == setup;
  }

  /** The inputs of the approved design-option rows, in order. */
  function SelectedOptions(setup: seq<ProjectSetupModel>): seq<Option<string>> {
    if setup == [] then []
    else
      var last := setup[|setup| - 1];
      SelectedOptions(setup[..|setup| - 1]) + (if AppliesTo(last, DesignOptionKey) then [last.Input] else [])
  }

  /** The selected names are exactly the inputs of the approved design-option rows. */
  lemma {:induction false} SelectedOptionsAreApprovedInputs(setup: seq<ProjectSetupModel>, x: Option<string>)
    ensures x in SelectedOptions(setup) <==>
      exists i :: 0 <= i < |setup| && AppliesTo(setup[i], DesignOptionKey) && setup[i].Input == x
    decreases |setup|
  {
    if setup != [] {
      var init := setup[..|setup| - 1];
      SelectedOptionsAreApprovedInputs(init, x);
      assert forall i :: 0 <= i < |init| ==> init[i] == setup[i];
      if x in SelectedOptions(setup) && x !in SelectedOptions(init) {
        assert AppliesTo(setup[|setup| - 1], DesignOptionKey) && setup[|setup| - 1].Input == x;
      }
    }
  }

  /** The design options whose name is not among the selected ones, in order. */
  function Unselected(designOptions: seq<DesignOption>, selected: seq<Option<string>>): seq<DesignOption> {
    if designOptions == [] then []
    else
      var last := designOptions[|designOptions| - 1];
      Unselected(designOptions[..|designOptions| - 1], selected) + (if last.OptionName in selected then [] else [last])
  }

  /** The doomed options are exactly the design options whose name is not selected. */
  lemma {:induction false} UnselectedAreUnchosen(designOptions: seq<DesignOption>, selected: seq<Option<string>>, o: DesignOption)
    ensures o in Unselected(designOptions, selected) <==> o in designOptions && o.OptionName !in selected
    decreases |designOptions|
  {
    if designOptions != [] {
      var init := designOptions[..|designOptions| - 1];
      var last := designOptions[|designOptions| - 1];
      UnselectedAreUnchosen(init, selected, o);
      assert designOptions == init + [last];
    }
  }

  /** The deletion loop of `CmdProjSetup.Execute`: the design options it deletes, in order. */
  method DeleteUnselected(designOptions: seq<DesignOption>, setup: seq<ProjectSetupModel>) returns (deleted: seq<DesignOption>)
    ensures deleted == Unselected(designOptions, SelectedOptions(setup))
  {
    var selectedOptions := SelectedOptions(setup);
    deleted := [];
    for k := 0 to |designOptions|
      invariant deleted == Unselected(designOptions[..k], selectedOptions)
    {
      assert designOptions[..k + 1][..k] == designOptions[..k];
      var option := designOptions[k];
      if option.OptionName !in selectedOptions {
        deleted := deleted + [option];
      }
    }
    assert designOptions[..|designOptions|] == designOptions;
  }

  /** A design option survives exactly when some approved design-option row chose its name. */
  lemma SurvivesIffChosen(designOptions: seq<DesignOption>, setup: seq<ProjectSetupModel>, o: DesignOption)
    requires o in designOptions
    ensures o !in Unselected(designOptions, SelectedOptions(setup)) <==>
      exists i :: 0 <= i < |setup| && AppliesTo(setup[i], DesignOptionKey) && setup[i].Input == o.OptionName
  {
    UnselectedAreUnchosen(designOptions, SelectedOptions(setup), o);
    SelectedOptionsAreApprovedInputs(setup, o.OptionName);
  }

  /** Options none of whose names is selected are all deleted, in order. */
  lemma {:induction false} NothingSelectedDeletesAll(designOptions: seq<DesignOption>, selected: seq<Option<string>>)
    requires forall i :: 0 <= i < |designOptions| ==> designOptions[i].OptionName !in selected
    ensures Unselected(designOptions, selected) == designOptions
    decreases |designOptions|
  {
    if designOptions != [] {
      var init := designOptions[..|designOptions| - 1];
      var last := designOptions[|designOptions| - 1];
      assert forall i :: 0 <= i < |init| ==> init[i] == designOptions[i];
      NothingSelectedDeletesAll(init, selected);
      assert last.OptionName !in selected;
      assert Unselected(designOptions, selected) == Unselected(init, selected) + [last];
      assert designOptions == init + [last];
    }
  }

  /** Without an approved design-option row, every design option is deleted. */
  lemma NoChoiceDeletesAll(designOptions: seq<DesignOption>, setup: seq<ProjectSetupModel>)
    requires forall i :: 0 <= i < |setup| ==> !AppliesTo(setup[i], DesignOptionKey)
    ensures Unselected(designOptions, SelectedOptions(setup)) == designOptions
  {
    forall i | 0 <= i < |designOptions| ensures designOptions[i].OptionName !in SelectedOptions(setup) {
      SelectedOptionsAreApprovedInputs(setup, designOptions[i].OptionName);
    }
    NothingSelectedDeletesAll(designOptions, SelectedOptions(setup));
  }

  /**
   * `CmdProjSetup.Execute` after the window has closed: `confirmed` is
   * whether it returned true. Confirmed, the approved rows are applied and
   * the unchosen design options deleted; otherwise nothing changes and the
   * command is cancelled.
   */
  method ProjSetup(info: ProjectInfo, designOptions: seq<DesignOption>, viewModel: ProjectSetupViewModel, confirmed: bool)
    returns (result: Result, newInfo: ProjectInfo, deleted: seq<DesignOption>)
    ensures !confirmed ==> result == Result.Cancelled && newInfo == info && deleted == []
    ensures confirmed ==>
      && result == Succeeded
      && newInfo == ApplyAll(info, viewModel.Setup)
      && deleted == Unselected(designOptions, SelectedOptions(viewModel.Setup))
  {
    if !confirmed {
      return Result.Cancelled, info, [];
    }
    newInfo := ApplyParameters(info, viewModel.Setup);
    deleted := DeleteUnselected(designOptions, viewModel.Setup);
    result := Succeeded;
  }
}
