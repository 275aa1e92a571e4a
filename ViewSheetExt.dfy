/** `ViewSheetExt`: the display key and the export file-name key of a sheet. */
module ViewSheetExt {
  import opened Wrappers
  import opened HostTypes
  import opened Strings
  import StringUtils

  /** The key shown for a missing sheet. */
  const UnknownKey: string := "???"

  /** The export key of a missing sheet. */
  const ErrorExportKey: string := "ERROR (-) - ERROR"

  /** The key without the id: `{SheetNumber}: {Name}`. */
  function PlainSheetKey(s: Sheet): string {
    s.SheetNumber + ": " + s.Name
  }

  /** `Ext_ToSheetKey(sheet, includeId)`; `None` models a null sheet. */
  function ToSheetKey(sheet: Option<Sheet>, includeId: bool): (key: string)
    ensures sheet.None? ==> key == UnknownKey
    ensures sheet.Some? ==> sheet.value.SheetNumber + ": " <= key
    ensures sheet.Some? && !includeId ==> key == PlainSheetKey(sheet.value)
    ensures sheet.Some? && includeId ==>
      key == ToSheetKey(sheet, false) + " [" + IntToString(sheet.value.Id.value) + "]"
  {
    match sheet
    case None => UnknownKey
    case Some(s) =>
      if includeId then s.SheetNumber + ": " + s.Name + " [" + IntToString(s.Id.value) + "]"
      else s.SheetNumber + ": " + s.Name
  }

  /**
   * The revision part of the export key: the sheet's number for its current
   * revision, or "-" without one. A null number interpolates as "".
   */
  function RevisionPart(s: Sheet, revNumberOnSheet: (Sheet, ElementId) -> Option<string>): string {
    if s.HasCurrentRevision() then revNumberOnSheet(s, s.CurrentRevision).GetOr("") else "-"
  }

  /** The raw export key `{SheetNumber} ({rev}) - {Name}` before cleaning. */
  function RawExportKey(s: Sheet, revNumberOnSheet: (Sheet, ElementId) -> Option<string>): string {
    s.SheetNumber + " (" + RevisionPart(s, revNumberOnSheet) + ") - " + s.Name
  }

  /**
   * `Ext_ToExportKey(sheet)`: the raw key passed through `MakeStringValid` with
   * the default wildcard, so invalid characters are dropped, not replaced.
   */
  function ToExportKey(sheet: Option<Sheet>, revNumberOnSheet: (Sheet, ElementId) -> Option<string>): (key: string)
    ensures sheet.None? ==> key == ErrorExportKey
    ensures sheet.Some? ==> key == StringUtils.Cleaned(RawExportKey(sheet.value, revNumberOnSheet), StringUtils.Wildcard)
  {
    match sheet
    case None => ErrorExportKey
    case Some(s) =>
      var revisionNumber := if s.CurrentRevision != InvalidElementId
        then revNumberOnSheet(s, s.CurrentRevision).GetOr("") else "-";
      StringUtils.Cleaned(s.SheetNumber + " (" + revisionNumber + ") - " + s.Name, StringUtils.Wildcard)
  }

  /** No export key, not even the error key, contains a character of `/ ? < > \ : * | " ^`. */
  lemma ExportKeyIsValid(sheet: Option<Sheet>, revNumberOnSheet: (Sheet, ElementId) -> Option<string>)
    ensures StringUtils.AllValid(ToExportKey(sheet, revNumberOnSheet))
  {
    if sheet.Some? {
      StringUtils.CleanedIsValid(RawExportKey(sheet.value, revNumberOnSheet), StringUtils.Wildcard);
    } else {
      assert forall i :: 0 <= i < |ErrorExportKey| ==> !StringUtils.IsInvalid(ErrorExportKey[i]);
    }
  }

  /** Exporting an already-valid raw key changes nothing: valid sheet numbers and names pass through. */
  lemma ExportKeyOfValidParts(s: Sheet, revNumberOnSheet: (Sheet, ElementId) -> Option<string>)
    requires StringUtils.AllValid(RawExportKey(s, revNumberOnSheet))
    ensures ToExportKey(Some(s), revNumberOnSheet) == RawExportKey(s, revNumberOnSheet)
  {
    StringUtils.CleanedOfValid(RawExportKey(s, revNumberOnSheet), StringUtils.Wildcard);
  }
}
