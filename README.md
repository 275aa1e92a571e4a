# CSharpHomes core, modelled in Dafny

CSharpHomes is a Revit add-in. This project models the parts of it that
decide things, rather than the parts that draw windows or call Revit.

- **Data utilities** (`DataUtils`):
  - key/value form pairs;
  - the keyed matrix that groups items under sorted group keys and addresses them by (group, item) index;
  - the index helpers `Positize`, `FindItemAtKey` and `QuickDictionary`.
- **The list-selection form** (`BaseListView`):
  - pairs, visible indices and displayed rows;
  - the text filter;
  - check-state synchronisation;
  - the OK/Cancel outcome.
- **The dialog helpers** (`Custom`):
  - message boxes and their defaults;
  - file, folder and list pickers;
  - the `FormResult<T>` record they return.
- **The value-entry form** (`BaseEnterValue`): its number-only key filter.
- **The rotate view's numeric text filter** (`RotateView`): the regular expression `^-?\d*(?:\.\d*)?$`, written as a recogniser.
- **Keys and names** (`StringUtils`, `RevisionExt`, `ViewSheetExt`):
  - the file-name cleaner;
  - the display keys of revisions and sheets;
  - the export key of a sheet.
- **The two tool commands** (`CmdsTools`):
  - the transmittal table (header row, one row per sheet, revision numbers) and its column formatting;
  - the project-setup rule. Approved rows set the project information parameters, and design options nobody chose are deleted.
- **Grid read/write over worksheets** (`ExcelUtils`).
- **The project-setup view model** (`ProjectSetupViewModel`): turns the PDF data into window rows.

How the model is organised:

- **One module per source file.** Shared pieces live in three small modules:
  - `Wrappers`: `Option`, plus `Outcome`, which is a value or a thrown .NET exception;
  - `HostTypes`: Revit and WinForms values;
  - `Strings`: decimal formatting, `Trim`, `Contains` and `ToLower`.
- **Objects whose fields the source updates become classes** with `modifies` frames. These are `KeyedItem`, `KeyedMatrix`, the caller's key list (`StringOrder.StringList`), both forms, `FormResult`, `Workbook`, `Worksheet` and the view model.
- **Loops become methods**, each proved against a specification function.

Where behaviour depends on the .NET culture, it is a parameter:

- string comparison (`le`, required to be a total order);
- `char.ToLower`.

`char.IsDigit`, and `\d` in the rotate view's pattern, do not depend on the culture: they test the Unicode decimal-digit category (Nd). The model takes this class as a parameter `isDigit` rather than writing out the Unicode table. Where a lemma needs to know what a digit is, it requires only `CharClasses.DecimalDigitClass`: inside ASCII, exactly '0'..'9' are digits.

Where it depends on the user or on Revit, it is also a parameter:

- the buttons clicked and the files chosen;
- the revision numbers on a sheet;
- the used range of a worksheet.

The code differs from the natural reading of its documentation in four places, and the model follows the code:

- **`KeyedMatrix` sorts the caller's key list in place.** It does not sort a copy. The model's constructor modifies the `StringList` it is given.
- **The transmittal's column loop formats column 3 ("Current") as a revision column.** Only columns 1-2 are made wide; this contradicts the "first 3 columns" comment (`CmdsTools.CurrentColumnIsNarrow`).
- **`RefreshItemKeys` adds one per occurrence instead of storing positions.** Its summary says the keys are refreshed "based on order"; see "## Findings", where the intended renumbering is modelled beside it.
- **`ReadFromWorksheet` keeps rows past the row limit as empty lists.** It does not leave them out (`ExcelUtils.RowsPastLimitAreEmpty`).

## Model

| member | source | states |
|---|---|---|
| DataUtils.UnindexedValue | src/Utilities/DataUtils.cs:354-361 | a pair made from a value and key only has index -1, is unchecked and is visible |
| DataUtils.CombineAsFormPairs | src/Utilities/DataUtils.cs:22-41 | one pair per position up to the shorter list, pair i holding values[i], keys[i], index i, unchecked and visible; empty when either list is empty |
| DataUtils.Positize | src/Utilities/DataUtils.cs:49-55 | same length; non-negative entries kept, negative ones replaced; a non-negative replacement makes every entry non-negative |
| DataUtils.IndexOf | src/Utilities/DataUtils.cs:70 | -1 exactly when the key is absent, otherwise the first position holding it |
| DataUtils.FindItemAtKey | src/Utilities/DataUtils.cs:64-81 | the value at the key's first position when that is within the values, the default otherwise |
| DataUtils.FindItemAtKeyInvertsPairing | src/Utilities/DataUtils.cs:64-81 | with distinct keys, looking up keys[i] returns values[i] |
| DataUtils.QuickDictionary | src/Utilities/DataUtils.cs:394-413 | the domain is exactly the selected keys, and each key maps to the value of its last source item |
| DataUtils.KeyedItem.constructor | src/Utilities/DataUtils.cs:129-147 | the six properties as given, `IndexKey` is "group\titem", unchecked and visible |
| DataUtils.Buckets | src/Utilities/DataUtils.cs:185-210 | one bucket per group key |
| DataUtils.BucketsPartition | src/Utilities/DataUtils.cs:190-210 | the buckets and the unkeyed items together are a permutation of the form items |
| DataUtils.DuplicateKeyBucketEmpty | src/Utilities/DataUtils.cs:194-197 | a repeated group key's later bucket stays empty, since `IndexOf` finds the first |
| DataUtils.Distribute | src/Utilities/DataUtils.cs:181-210 | the matrix is the item buckets in form order, the rest are unkeyed, and every keyed item records its group and its position in that bucket |
| DataUtils.DistributeOne | src/Utilities/DataUtils.cs:192-208 | one form item extends the distribution: it joins its key's bucket or the unkeyed items, and an unkeyed item's indices are untouched |
| DataUtils.PlaceItem | src/Utilities/DataUtils.cs:194-204 | an item with a known key is appended to its group's bucket with its group and item index set; an unknown key leaves the matrix alone |
| DataUtils.SortAndDistribute | src/Utilities/DataUtils.cs:178-210 | the keys sorted in place when asked, then the items distributed under them; other item fields untouched |
| DataUtils.KeyedMatrix.constructor | src/Utilities/DataUtils.cs:172-217 | no keys: everything null or false; otherwise the keys are sorted in place when asked and the matrix, unkeyed items and flag come from the distribution |
| DataUtils.KeyedMatrix.ItemIsAccessibleAt | src/Utilities/DataUtils.cs:262-269 | false when the group index is not below the key count; otherwise whether the item index is below the bucket size; a negative group index or a null matrix throws |
| DataUtils.KeyedMatrix.ItemIsAccessible | src/Utilities/DataUtils.cs:247-254 | the index check applied to the item's own group and item indices |
| DataUtils.KeyedMatrix.Target | src/Utilities/DataUtils.cs:279-281 | the item stored at the given item's indices when accessible, none when not, and a throw for a negative item index |
| DataUtils.KeyedMatrix.PlacedItemIsOwnTarget | src/Utilities/DataUtils.cs:201-203 | an item the constructor placed is the item found at its own indices |
| DataUtils.KeyedMatrix.SetItemVisibility | src/Utilities/DataUtils.cs:277-285 | Succeeded and only the target's Visible set when accessible, Failed and nothing changed otherwise |
| DataUtils.KeyedMatrix.SetItemChecked | src/Utilities/DataUtils.cs:293-301 | Succeeded and only the target's Checked set when accessible, Failed and nothing changed otherwise |
| DataUtils.KeyedMatrix.GetGroupByKey | src/Utilities/DataUtils.cs:308-315 | the bucket of the key's first position, or null for an unknown key |
| DataUtils.KeyedMatrix.RefreshItemKeys | src/Utilities/DataUtils.cs:222-240 | as written: each stored item's index grows by the number of places it occupies, and nothing else changes |
| DataUtils.KeyedMatrix.RenumberItemKeys | src/Utilities/DataUtils.cs:219-240 | as intended: each item's index becomes its last position in its bucket |
| DataUtils.IncrementMatrix | src/Utilities/DataUtils.cs:228-239 | the bucket loop as written, adding one per occurrence |
| DataUtils.RenumberMatrix | src/Utilities/DataUtils.cs:228-239 | the bucket loop storing each item's position |
| DataUtils.IncrementBucket | src/Utilities/DataUtils.cs:234-238 | one bucket as written |
| DataUtils.RenumberBucket | src/Utilities/DataUtils.cs:234-238 | one bucket, storing each item's last position |
| DataUtils.RefreshDisplacesItem | src/Utilities/DataUtils.cs:222-254 | a one-item matrix finds its item before the refresh and not after it |
| DataUtils.RenumberKeepsItem | src/Utilities/DataUtils.cs:222-254 | with renumbering the item is found both before and after |
| DataUtils.RefreshDisplacesPlaced | src/Utilities/DataUtils.cs:222-269 | on any matrix, as written: an item at its recorded last place no longer finds itself, and the last item of every non-empty bucket that records its own place becomes inaccessible |
| DataUtils.RenumberKeepsPlaced | src/Utilities/DataUtils.cs:222-281 | on any matrix, as intended: every item at its last place whose group index names its bucket is its own target |
| StringOrder.InsertSorted | src/Utilities/DataUtils.cs:178 | insertion into a sorted list keeps it sorted and adds exactly the new element |
| StringOrder.InsertBoundedBelow | src/Utilities/DataUtils.cs:178 | a lower bound of an element and of a list bounds the list with the element inserted |
| StringOrder.SortedListIsSorted | src/Utilities/DataUtils.cs:178 | the sorted key list is ordered and is a permutation of the keys |
| StringOrder.StringList.Sort | src/Utilities/DataUtils.cs:178 | `keys.Sort()` replaces the caller's list by its sorted permutation |
| BaseListView.VisiblePositions | src/Forms/Bases/Winforms/BaseListView.cs:86-95 | no more entries than pairs, each the position of a visible pair |
| BaseListView.VisiblePositionsComplete | src/Forms/Bases/Winforms/BaseListView.cs:86-95 | the visible positions are strictly increasing and miss no visible pair |
| BaseListView.DisplayedRows | src/Forms/Bases/Winforms/BaseListView.cs:79-97 | row i shows the key and check of the i-th visible pair, unselected |
| BaseListView.SyncChecks | src/Forms/Bases/Winforms/BaseListView.cs:155-167 | same pairs with only Checked changed, each row's check copied to the pair it shows |
| BaseListView.CopyChecks | src/Forms/Bases/Winforms/BaseListView.cs:155-167 | the check-copying loop computes the sync of the pairs with the rows |
| BaseListView.SyncChecksCopies | src/Forms/Bases/Winforms/BaseListView.cs:155-167 | a shown pair takes its row's check and an unshown pair keeps its own |
| BaseListView.PassesFilter | src/Forms/Bases/Winforms/BaseListView.cs:140-150 | true for an empty filter, otherwise exactly when the lowered key contains the filter |
| BaseListView.ApplyFilter | src/Forms/Bases/Winforms/BaseListView.cs:121-128 | each pair's visibility becomes whether it passes; nothing else changes |
| BaseListView.CheckedValues | src/Forms/Bases/Winforms/BaseListView.cs:225-228 | no longer than the pairs; a value is listed exactly when some checked pair holds it |
| BaseListView.CheckedPositionsExact | src/Forms/Bases/Winforms/BaseListView.cs:225-228 | the checked positions are in range, strictly increasing, and exactly those of the checked pairs |
| BaseListView.CheckedValuesInOrder | src/Forms/Bases/Winforms/BaseListView.cs:225-228 | the i-th checked value is the value at the i-th checked position, one for one |
| BaseListView.FirstSelected | src/Forms/Bases/Winforms/BaseListView.cs:239-242 | the first highlighted row, or none |
| BaseListView.SetAllRows | src/Forms/Bases/Winforms/BaseListView.cs:179-205 | every displayed row checked and selected (or both cleared) |
| BaseListView.VisibleIndexOf | src/Forms/Bases/Winforms/BaseListView.cs:79-97 | every visible pair is displayed at some row |
| BaseListView.SyncDisplayedIsIdentity | src/Forms/Bases/Winforms/BaseListView.cs:155-167 | syncing rows freshly loaded from the pairs changes nothing |
| BaseListView.FilterTwiceIsFilterOnce | src/Forms/Bases/Winforms/BaseListView.cs:109-133 | filtering twice by the same text equals filtering once |
| BaseListView.HiddenPairKeepsCheck | src/Forms/Bases/Winforms/BaseListView.cs:155-167 | a pair hidden by the filter keeps its check across syncs |
| BaseListView.SetAllThenClearFilter | src/Forms/Bases/Winforms/BaseListView.cs:109-205 | after (un)check-all and clearing the filter, every pair is visible, the displayed ones take the flag and the hidden ones keep theirs |
| BaseListView.SyncKeepsVisibility | src/Forms/Bases/Winforms/BaseListView.cs:155-167 | syncing leaves the visible positions alone |
| BaseListView.SyncKeepsShows | src/Forms/Bases/Winforms/BaseListView.cs:155-167 | syncing keeps the row/pair correspondence |
| BaseListView.RowEditKeepsShows | src/Forms/Bases/Winforms/BaseListView.cs:179-205 | changing rows' checks or highlights, but not their keys, keeps the row/pair correspondence |
| BaseListView.DisplayedShows | src/Forms/Bases/Winforms/BaseListView.cs:79-97 | loading after a filter shows the i-th visible pair in row i |
| BaseListView.AllVisible | src/Forms/Bases/Winforms/BaseListView.cs:60-65 | when all pairs are visible the visible positions are 0..n-1 |
| BaseListView.InitialDisplay | src/Forms/Bases/Winforms/BaseListView.cs:36-69 | the freshly built form displays every pair, unchecked, under its key |
| BaseListView.BaseListViewForm.constructor | src/Forms/Bases/Winforms/BaseListView.cs:36-69 | pairs combined, filter empty, indices 0..keys-1, every pair displayed, tag null, result Cancel |
| BaseListView.BaseListViewForm.LoadShownItems | src/Forms/Bases/Winforms/BaseListView.cs:79-97 | the rows become those of the visible pairs |
| BaseListView.BaseListViewForm.PassesTextFilter | src/Forms/Bases/Winforms/BaseListView.cs:140-150 | true for an empty filter, otherwise exactly when the lowered text contains it |
| BaseListView.BaseListViewForm.UpdateCheckedValues | src/Forms/Bases/Winforms/BaseListView.cs:155-167 | the pairs become their sync with the rows, keeping the form invariant |
| BaseListView.BaseListViewForm.ToggleRow | src/Forms/Bases/Winforms/BaseListView.cs:52 | the one row's check flips |
| BaseListView.BaseListViewForm.HighlightRow | src/Forms/Bases/Winforms/BaseListView.cs:239-242 | only that row is selected |
| BaseListView.BaseListViewForm.TextChanged | src/Forms/Bases/Winforms/BaseListView.cs:109-133 | syncs, stores the lowered filter, sets visibility, lists the passing indices and reloads, keeping the invariant |
| BaseListView.BaseListViewForm.SetVisibility | src/Forms/Bases/Winforms/BaseListView.cs:117-128 | visibility set by the filter and the indices are the visible positions |
| BaseListView.BaseListViewForm.CheckAll | src/Forms/Bases/Winforms/BaseListView.cs:179-186 | every row checked and selected |
| BaseListView.BaseListViewForm.UncheckAll | src/Forms/Bases/Winforms/BaseListView.cs:198-205 | every row unchecked and deselected |
| BaseListView.BaseListViewForm.ClickSelect | src/Forms/Bases/Winforms/BaseListView.cs:217-252 | syncs; multi-select tags the checked values with OK when there are any; single-select tags the first highlighted row's value with OK; otherwise tag and result unchanged; closes |
| BaseListView.BaseListViewForm.CollectChecked | src/Forms/Bases/Winforms/BaseListView.cs:225-228 | the checked values in order |
| BaseListView.BaseListViewForm.ClickCancel | src/Forms/Bases/Winforms/BaseListView.cs:264-267 | closes without touching tag or result |
| Custom.FormResult.Default | src/Forms/Custom.cs:262 | all payloads null and all flags false |
| Custom.FormResult.constructor | src/Forms/Custom.cs:268-275 | empty list, default object, cancelled exactly when not valid, affirmative as valid |
| Custom.FormResult.Validate | src/Forms/Custom.cs:280-285 | not cancelled, valid and affirmative, payload untouched |
| Custom.FormResult.ValidateObject | src/Forms/Custom.cs:291-295 | validated, and only the single object set |
| Custom.FormResult.ValidateObjects | src/Forms/Custom.cs:301-305 | validated, and only the list set |
| Custom.MessageButtons | src/Forms/Custom.cs:49-59 | OK only exactly when noCancel; Yes/No exactly when yesNo without noCancel; OK/Cancel otherwise |
| Custom.ShownMessage | src/Forms/Custom.cs:41-62 | title and message defaults for null, the button table, and the question icon whenever yesNo |
| Custom.DeclineOfferedUnlessNoCancel | src/Forms/Custom.cs:51-59 | there is a declining button exactly when noCancel is off |
| Custom.Message | src/Forms/Custom.cs:35-72 | shows that box; the result is valid (and consistent) exactly when the answer was Yes or OK |
| Custom.Completed | src/Forms/Custom.cs:79-92 | an information box titled "Task completed" with OK only and default text "Task completed."; always Succeeded |
| Custom.Cancelled | src/Forms/Custom.cs:99-112 | a warning box titled "Task cancelled" with OK only and default text "Task cancelled."; always Cancelled |
| Custom.Error | src/Forms/Custom.cs:119-132 | an error box titled "Error" with OK only and default text "Error encountered."; always Failed |
| Custom.SelectFilePaths | src/Forms/Custom.cs:145-174 | default titles by mode; on OK all paths (multi) or the first (single, which throws when none was chosen); otherwise not valid with empty payloads |
| Custom.SelectDirectoryPath | src/Forms/Custom.cs:181-201 | default title "Select folder"; valid with the chosen path exactly on OK |
| Custom.Perform | src/Forms/Bases/Winforms/BaseListView.cs:109-267 | one user action on the open form keeps the form invariant; a close carries a tag that fits the mode, and an open form stays at Cancel |
| Custom.EditRows | src/Forms/Bases/Winforms/BaseListView.cs:179-242 | toggling, highlighting and (un)check-all keep the form invariant |
| Custom.RunDialog | src/Forms/Custom.cs:229 | the modal loop keeps the form invariant, and an OK carries the non-empty checked values (multi) or the value of the pair shown in the first highlighted row (single) |
| Custom.SelectFromList | src/Forms/Custom.cs:216-238 | default titles by mode; valid exactly when the form closed with OK, then carrying the non-empty checked values (multi) or the value of the pair shown in the first highlighted row (single) |
| BaseEnterValue.ControlAndDigitsValid | src/Forms/Bases/Winforms/BaseEnterValue.cs:112-115 | control characters and digits are always valid |
| BaseEnterValue.DotValidIffNoDot | src/Forms/Bases/Winforms/BaseEnterValue.cs:118-131 | '.' is valid exactly when the text has no '.' |
| BaseEnterValue.OthersInvalid | src/Forms/Bases/Winforms/BaseEnterValue.cs:133-134 | '-', ',' and letters are invalid |
| BaseEnterValue.FreeTextNeverSuppressed | src/Forms/Bases/Winforms/BaseEnterValue.cs:90-98 | without number-only mode nothing is suppressed |
| BaseEnterValue.TypingAddsNoSecondDot | src/Forms/Bases/Winforms/BaseEnterValue.cs:90-135 | number-only typing never produces a second '.' |
| BaseEnterValue.EnterValueForm.constructor | src/Forms/Bases/Winforms/BaseEnterValue.cs:31-45 | the box holds the default value and the result is Cancel |
| BaseEnterValue.EnterValueForm.CharIsNumericallyValid | src/Forms/Bases/Winforms/BaseEnterValue.cs:109-135 | valid exactly for a control character, a digit, or '.' when the text has none |
| BaseEnterValue.EnterValueForm.KeyPress | src/Forms/Bases/Winforms/BaseEnterValue.cs:90-98 | handled exactly in number-only mode for an invalid key |
| BaseEnterValue.EnterValueForm.TypeKey | src/Forms/Bases/Winforms/BaseEnterValue.Designer.cs:65 | a printable key is inserted at the caret unless suppressed or the box holds 100 characters |
| BaseEnterValue.EnterValueForm.ClickOK | src/Forms/Bases/Winforms/BaseEnterValue.cs:57-62 | OK, tag is the text, closed |
| BaseEnterValue.EnterValueForm.ClickCancel | src/Forms/Bases/Winforms/BaseEnterValue.cs:74-78 | tag cleared, result unchanged, closed |
| RotateView.Handled | src/Views/RotateView.xaml.cs:16-19 | a chunk is rejected exactly when the pattern does not match it |
| RotateView.MatchesWholeIsNumberText | src/Views/RotateView.xaml.cs:15 | the recogniser accepts exactly an optional '-', digits, and optionally '.' and digits |
| RotateView.HandledIffNotNumber | src/Views/RotateView.xaml.cs:15-19 | a chunk passes exactly when it is such a number text, possibly followed by a final newline |
| RotateView.AcceptedExamples | src/Views/RotateView.xaml.cs:15 | "", "-", ".", "-.", "-12.50" and "5\n" pass |
| RotateView.RejectedExamples | src/Views/RotateView.xaml.cs:15 | "a", "1-", "1.2.3" and "--" are rejected |
| RotateView.ChunkwiseCheckAdmitsNonNumbers | src/Views/RotateView.xaml.cs:16-19 | each typed chunk is checked alone, so "1.2.3" typed key by key passes although the whole is rejected |
| StringUtils.MakeStringValid | src/Utilities/StringUtils.cs:26-52 | the cleaned string, built character by character |
| StringUtils.CleanedConcat | src/Utilities/StringUtils.cs:32-48 | cleaning distributes over concatenation |
| StringUtils.ValidPositionsExact | src/Utilities/StringUtils.cs:35-42 | the kept positions are in range, increasing, and exactly those of valid characters |
| StringUtils.DefaultDeletesInvalid | src/Utilities/StringUtils.cs:35-42 | with '*' the result is exactly the valid characters, in order |
| StringUtils.ReplaceKeepsPositions | src/Utilities/StringUtils.cs:35-47 | with another replacement the length is kept and exactly the invalid characters are replaced |
| StringUtils.CleanedIsValid | src/Utilities/StringUtils.cs:15-18 | no invalid character survives when deleting or replacing by a valid character |
| StringUtils.CleanedOfValid | src/Utilities/StringUtils.cs:43-47 | a valid string is returned unchanged |
| StringUtils.CleanedIdempotent | src/Utilities/StringUtils.cs:26-52 | cleaning twice equals cleaning once |
| RevisionExt.ToRevisionKey | src/Extensions/RevisionExt.cs:18-33 | "???" for null; "seq: date - description", with " [id]" appended when asked |
| RevisionExt.IdSuffixIsBracketedNumber | src/Extensions/RevisionExt.cs:26 | the key with the id is the plain key, " [", the id's decimal digits (a leading '-' only for a negative id) and "]" |
| RevisionExt.PlainKeyIsProperPrefix | src/Extensions/RevisionExt.cs:24-32 | the key without the id is a proper prefix of the key with it |
| ViewSheetExt.ToSheetKey | src/Extensions/ViewSheetExt.cs:9-24 | "???" for null; without the id exactly "number: name"; with the id that same key followed by " [id]" |
| ViewSheetExt.ToExportKey | src/Extensions/ViewSheetExt.cs:31-51 | the error key for null; otherwise "number (rev) - name", cleaned |
| ViewSheetExt.ExportKeyIsValid | src/Extensions/ViewSheetExt.cs:31-51 | no export key contains a file-name-invalid character |
| ViewSheetExt.ExportKeyOfValidParts | src/Extensions/ViewSheetExt.cs:49-50 | a raw key already valid is returned as is |
| CmdsTools.RevisionIds | src/Commands/CmdsTools.cs:187-193 | the ids of the selected revisions in order |
| CmdsTools.HeaderRow | src/Commands/CmdsTools.cs:186-196 | "Number", "Name", "Current", then each revision's key |
| CmdsTools.SheetRow | src/Commands/CmdsTools.cs:199-228 | number, name, the current-revision number or "-", then the sheet's number for each revision or "" |
| CmdsTools.TransmittalIsRectangular | src/Commands/CmdsTools.cs:184-229 | 1 + sheets rows, all as wide as the header, and only a "Current" cell can be null |
| CmdsTools.BuildHeader | src/Commands/CmdsTools.cs:186-196 | the header loop builds the header row and the revision ids |
| CmdsTools.BuildSheetRow | src/Commands/CmdsTools.cs:199-225 | the row loop builds the sheet row |
| CmdsTools.BuildTransmittal | src/Commands/CmdsTools.cs:184-229 | the revision ids and the table: header then sheet rows in selection order |
| CmdsTools.FormatColumns | src/Commands/CmdsTools.cs:274-288 | columns 1 to revisions + 3, 30 wide before column 3 and rotated, centred and 5 wide from it |
| CmdsTools.CurrentColumnIsNarrow | src/Commands/CmdsTools.cs:274-288 | the header's "Current" column is styled as a revision column; exactly columns 1-2 are wide |
| CmdsTools.ApplyRow | src/Commands/CmdsTools.cs:372-386 | an approved row sets the parameter its description names to its input and leaves the rest |
| CmdsTools.ApplyAllSetsByLastApproved | src/Commands/CmdsTools.cs:370-387 | each parameter ends as the input of the last approved row naming it, or unchanged when there is none |
| CmdsTools.ApplyParameters | src/Commands/CmdsTools.cs:370-387 | the loop applies the approved rows in order |
| CmdsTools.SelectedOptionsAreApprovedInputs | src/Commands/CmdsTools.cs:391-394 | a value is selected exactly when it is the input of some approved design-option row |
| CmdsTools.UnselectedAreUnchosen | src/Commands/CmdsTools.cs:396-403 | an option is listed for deletion exactly when it is a design option whose name is not selected |
| CmdsTools.DeleteUnselected | src/Commands/CmdsTools.cs:391-403 | the loop deletes the unselected options in order |
| CmdsTools.SurvivesIffChosen | src/Commands/CmdsTools.cs:391-403 | an option survives exactly when an approved design-option row chose its name |
| CmdsTools.NothingSelectedDeletesAll | src/Commands/CmdsTools.cs:396-403 | options none of whose names is selected are all deleted |
| CmdsTools.NoChoiceDeletesAll | src/Commands/CmdsTools.cs:391-403 | with no approved design-option row every design option is deleted |
| CmdsTools.ProjSetup | src/Commands/CmdsTools.cs:363-414 | confirmed: apply and delete, Succeeded; otherwise nothing changes, Cancelled |
| ExcelUtils.GetWorksheetNames | src/Utilities/ExcelUtils.cs:172-184 | the sheet names in order, none for a null workbook |
| ExcelUtils.GetWorkSheet | src/Utilities/ExcelUtils.cs:112-135 | null for a null workbook; the first sheet with the name; else the first sheet when asked (throwing with no sheets) or null |
| ExcelUtils.GetWorkSheetFindsListedNames | src/Utilities/ExcelUtils.cs:118-125 | a sheet in the workbook makes its name listed, and the lookup finds a sheet of that name |
| ExcelUtils.AddWorksheet | src/Utilities/ExcelUtils.cs:143-165 | the existing sheet without change; else a new empty sheet appended, or null with nothing changed when adding fails |
| ExcelUtils.ReadCells | src/Utilities/ExcelUtils.cs:222-234 | the first readCols cells trimmed, all when 0, none when negative |
| ExcelUtils.CellsReadAreTrimmed | src/Utilities/ExcelUtils.cs:231 | each cell read is a contiguous piece of its text with no white space at either end |
| ExcelUtils.ReadRows | src/Utilities/ExcelUtils.cs:211-240 | one entry per used row; rows past a limit are empty |
| ExcelUtils.ReadRow | src/Utilities/ExcelUtils.cs:222-234 | the cell loop reads the row's cells |
| ExcelUtils.ReadUsedRows | src/Utilities/ExcelUtils.cs:211-240 | the row loop reads every used row under the limits |
| ExcelUtils.ReadFromWorksheet | src/Utilities/ExcelUtils.cs:197-244 | nothing for a null sheet; a throw with no used range; otherwise the rows read under the limits after resetting limits at or above the range size |
| ExcelUtils.LimitAtRowCountReadsAll | src/Utilities/ExcelUtils.cs:207 | a row limit at or above the row count reads like 0 |
| ExcelUtils.RowsPastLimitAreEmpty | src/Utilities/ExcelUtils.cs:219-237 | under a limit, rows from the limit on are empty lists, not left out |
| ExcelUtils.NegativeRowLimitReadsNothing | src/Utilities/ExcelUtils.cs:207-219 | a negative row limit reads every row as empty |
| ExcelUtils.EntryAt | src/Utilities/ExcelUtils.cs:264-276 | the matrix entry that lands on a cell, if any |
| ExcelUtils.WrittenIsDeterministic | src/Utilities/ExcelUtils.cs:258-279 | the write contract determines the new cells completely |
| ExcelUtils.WriteRow | src/Utilities/ExcelUtils.cs:267-277 | one matrix row written, every other cell unchanged |
| ExcelUtils.WriteToWorksheet | src/Utilities/ExcelUtils.cs:258-279 | every non-null entry lands at its offset cell and every other cell is unchanged |
| ProjectSetup.OptionNames | src/ViewModels/ProjectSetupViewModel.cs:28-30 | the design options' names in order |
| ProjectSetup.FirstOrDefault | src/ViewModels/ProjectSetupViewModel.cs:40-41 | null exactly for an empty list, else the first value |
| ProjectSetup.EntryRows | src/ViewModels/ProjectSetupViewModel.cs:16-43 | a design-option entry gives one row per value; any other key gives one row with its first value |
| ProjectSetup.SetupRows | src/ViewModels/ProjectSetupViewModel.cs:14-45 | every row starts unapplied with its original value equal to its input; design-option rows offer the option names and other rows none |
| ProjectSetup.SetupRowsConcat | src/ViewModels/ProjectSetupViewModel.cs:14-45 | rows are emitted entry by entry, in enumeration order |
| ProjectSetup.SetupRowCount | src/ViewModels/ProjectSetupViewModel.cs:14-45 | the row count is the design-option values plus the other keys |
| ProjectSetup.ProjectSetupViewModel.constructor | src/ViewModels/ProjectSetupViewModel.cs:9-46 | the setup rows of the PDF data with the option names |

## Left out

- **I/O and the host are not modelled.** This covers dialogs, message boxes and their rendering, Revit transactions and `PostCommand`, PDF reading, and workbook files. The answers they give are parameters:
  - the clicked button, the chosen file names and the chosen folder;
  - whether the WPF window returned true;
  - `GetRevisionNumberOnSheet`;
  - `RangeUsed()`.
- **Other commands and file utilities are not part of this model**, for the same reason:
  - `CmdRotate` (floating-point geometry);
  - `CmdExpCAD` and `Ext_ExportToDwg`;
  - `ExcelUtils.FileIsAccessible`, `GetWorkbook` and `CreateWorkbook` (file I/O). The worksheet check at src/Utilities/ExcelUtils.cs:49 reports "not found" exactly when the sheet is found; this is outside the model.
- **CmdDocTrans outside the table is not modelled.** That covers choosing revisions, sheets and folder, the accessibility check and saving. The table and the column styles are modelled.
- CmdsTools.FormatColumns: returns the styles the loop sets, as a list, rather than changing a worksheet's formatting state. The 150-point header row height is the constant `HeaderRowHeight`.
- CmdsTools.ProjSetup: a failing parameter `Set` or a failing `Delete` is not modelled. The deleted options are returned as a list rather than removed from a document.
- DataUtils.KeyedItem: the parameterless constructor is not modelled, because the value and key fields are immutable in the model and need values.
- DataUtils.KeyedValue: this is a value (datatype), not an object. The form owns its pairs and updates them only through its own fields, so no aliasing is lost.
- DataUtils.KeyedValue: the parameterless constructor `KeyedValue()` (src/Utilities/DataUtils.cs:340-347) is not modelled. It gives a default value and a null key, and nothing in the core builds a pair that way. The model's keys are strings and cannot be null.
- DataUtils.QuickDictionary: the optional equality comparer is not modelled. Keys use their own equality. The `ArgumentNullException` the dictionary throws when the key selector returns null is not modelled either: the model's keys are `map` keys and cannot be null.
- StringOrder.StringList.Sort: `List.Sort` with a culture comparer is modelled as a sort under a total order `le`. How strings the comparer deems equal are ordered is not captured.
- BaseListView.BaseListViewForm.HighlightRow: a click selects one row. Ctrl-selection of several rows in multi-select mode is not modelled, since only single-select reads the selection.
- BaseEnterValue.EnterValueForm.TypeKey: models printable keys only. Control keys (backspace, paste, caret movement) are not modelled. Neither is text selection: typing over a selection replaces it, even when the box is at `MaxLength`, but the model always inserts at a caret.
- RotateView.Handled: the digit class is a parameter standing for the Unicode decimal-digit category that `\d` tests, and the pattern is a hand-written recogniser, not a regular-expression engine.
- ExcelUtils.WriteToWorksheet: requires start row and column of at least 1, as documented. The exception for cell addresses outside the sheet's limits is not modelled.
- ExcelUtils.ReadFromWorksheet: cells are their text (`GetString`). Number and date formatting are not modelled.

## Findings

| source | as written | input that shows it | evidently intended | confidence | as-written member | corrected member |
|---|---|---|---|---|---|---|
| src/Utilities/DataUtils.cs:222-240 | `RefreshItemKeys` adds one to every stored item's `ItemIndex` (`item.ItemIndex++`). It counts positions in `itemIndex` but never stores them. | A matrix holding one item, at group 0 and index 0. After the refresh its index is 1, and `ItemIsAccessible` reports false for it. | Each item's `ItemIndex` becomes its position in its group, as the summary "based on order" says. | not executed | DataUtils.KeyedMatrix.RefreshItemKeys, DataUtils.RefreshDisplacesItem, DataUtils.RefreshDisplacesPlaced | DataUtils.KeyedMatrix.RenumberItemKeys, DataUtils.RenumberKeepsItem, DataUtils.RenumberKeepsPlaced |
