/**
 * The host values the core reads: Revit element ids, sheets and revisions,
 * the Revit command result, and the WinForms dialog enumerations.
 * Only the properties the core reads are kept.
 */
module HostTypes {

  /** Revit's `Result` returned by external commands and by the message helpers. */
  datatype Result = Succeeded | Cancelled | Failed

  /** A Revit element id; `InvalidElementId` carries the value -1. */
  datatype ElementId = ElementId(value: int)

  const InvalidElementId: ElementId := ElementId(-1)

  /** A Revit sheet: its id, number, name and the id of its current revision. */
  datatype Sheet = Sheet(Id: ElementId, SheetNumber: string, Name: string, CurrentRevision: ElementId)
  {
    predicate HasCurrentRevision() {
      CurrentRevision != InvalidElementId
    }
  }

  /** A Revit revision: its id, sequence number, date text and description. */
  datatype Revision = Revision(Id: ElementId, SequenceNumber: int, RevisionDate: string, Description: string)

  /** WinForms `DialogResult` values the core produces or reads. */
  datatype DialogResult = NoResult | OK | Cancel | Yes | No

  /** WinForms `MessageBoxButtons` values the core chooses between. */
  datatype MessageBoxButtons = OKOnly | OKCancel | YesNo

  /** WinForms `MessageBoxIcon` values. */
  datatype MessageBoxIcon = NoIcon | Information | Warning | Error | Question
}
