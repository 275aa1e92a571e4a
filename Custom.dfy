/**
 * `Custom`: the message, file and list dialogs of the add-in and the
 * `FormResult<T>` record they return. What the user does in a dialog is a
 * parameter: the button clicked, the files chosen, the list-view actions.
 */
module Custom {
  import opened Wrappers
  import opened HostTypes
  import opened BaseListView

  // ---------------------------------------------------------------------------
  // FormResult
  // ---------------------------------------------------------------------------

  /** `FormResult<T>`: the payload of a dialog and three outcome flags. `None` is null / default. */
  class FormResult<T> {
    var Objects: Option<seq<T>>
    var Object: Option<T>
    var Cancelled: bool
    var Valid: bool
    var Affirmative: bool

    /** The flags agree: cancelled exactly when not valid, and valid exactly when affirmative. */
    predicate Consistent()
      reads this
    {
      Cancelled == !Valid && Valid == Affirmative
    }

    /** The parameterless constructor: everything null or false, which is not consistent. */
    constructor Default()
      ensures Objects == None && Object == None
      ensures !Cancelled && !Valid && !Affirmative
      ensures !Consistent()
    {
      Objects := None;
      Object := None;
      Cancelled, Valid, Affirmative := false, false, false;
    }

    /** `FormResult(valid)`: an empty list, a default object, and the flags from `valid`. */
    constructor (valid: bool)
      ensures Objects == Some([]) && Object == None
      ensures Cancelled == !valid && Valid == valid && Affirmative == valid
      ensures Consistent()
    {
      Objects := Some([]);
      Object := None;
      Cancelled := !valid;
      Valid := valid;
      Affirmative := valid;
    }

    /** `Validate()`: marks the result valid; the payload is untouched. */
    method Validate()
      modifies this`Cancelled, this`Valid, this`Affirmative
      ensures !Cancelled && Valid && Affirmative
      ensures Consistent()
    {
      Cancelled := false;
      Valid := true;
      Affirmative := true;
    }

    /** `Validate(obj)`: marks the result valid and sets only `Object`. */
    method ValidateObject(obj: T)
      modifies this`Cancelled, this`Valid, this`Affirmative, this`Object
      ensures !Cancelled && Valid && Affirmative && Object == Some(obj)
      ensures Consistent()
    {
      Validate();
      Object := Some(obj);
    }

    /** `Validate(objs)`: marks the result valid and sets only `Objects`. */
    method ValidateObjects(objs: Option<seq<T>>)
      modifies this`Cancelled, this`Valid, this`Affirmative, this`Objects
      ensures !Cancelled && Valid && Affirmative && Objects == objs
      ensures Consistent()
    {
      Validate();
      Objects := objs;
    }
  }

  // ---------------------------------------------------------------------------
  // Message boxes
  // ---------------------------------------------------------------------------

  /** What a message box shows: text, caption, buttons and icon. */
  datatype MessageBox = MessageBox(Text: string, Caption: string, Buttons: MessageBoxButtons, Icon: MessageBoxIcon)

  /** The buttons `Message` offers. */
  function MessageButtons(yesNo: bool, noCancel: bool): (b: MessageBoxButtons)
    ensures b == OKOnly <==> noCancel
    ensures b == YesNo <==> !noCancel && yesNo
    ensures b == OKCancel <==> !noCancel && !yesNo
  {
    if noCancel then OKOnly
    else if yesNo then YesNo
    else OKCancel
  }

  /** The box `Message` shows: defaults for a null title or text; `yesNo` forces the question icon. */
  function ShownMessage(title: Option<string>, message: Option<string>, yesNo: bool, noCancel: bool, icon: MessageBoxIcon): (m: MessageBox)
    ensures m.Caption == (if title.Some? then title.value else "Message")
    ensures m.Text == (if message.Some? then message.value else "No description provided.")
    ensures m.Buttons == MessageButtons(yesNo, noCancel)
    ensures yesNo ==> m.Icon == Question
    ensures !yesNo ==> m.Icon == icon
  {
    MessageBox(message.GetOr("No description provided."), title.GetOr("Message"), MessageButtons(yesNo, noCancel),
      if yesNo then Question else icon)
  }

  /** The box offers a way to decline exactly when `noCancel` is off. */
  lemma DeclineOfferedUnlessNoCancel(yesNo: bool, noCancel: bool)
    ensures MessageButtons(yesNo, noCancel) != OKOnly <==> !noCancel
  {
  }

  /** Whether an answer counts as affirmative. */
  predicate Affirms(answer: DialogResult) {
    answer == Yes || answer == OK
  }

  /**
   * `Message(...)`: shows the box; `answer` is the button the user clicked.
   * The result is valid exactly when the answer was Yes or OK.
   */
  method Message(title: Option<string>, message: Option<string>, yesNo: bool, noCancel: bool, icon: MessageBoxIcon, answer: DialogResult)
    returns (formResult: FormResult<bool>, shown: MessageBox)
    ensures fresh(formResult)
    ensures shown == ShownMessage(title, message, yesNo, noCancel, icon)
    ensures formResult.Valid == Affirms(answer) && formResult.Consistent()
    ensures formResult.Objects == Some([]) && formResult.Object == None
  {
    formResult := new FormResult<bool>(false);
    shown := ShownMessage(title, message, yesNo, noCancel, icon);
    if answer == Yes || answer == OK {
      formResult.Validate();
    }
  }

  /** `Completed(message)`: an information box with OK only; always Succeeded. */
  method Completed(message: Option<string>, answer: DialogResult) returns (r: Result, shown: MessageBox)
    ensures r == Succeeded
    ensures shown == MessageBox(message.GetOr("Task completed."), "Task completed", OKOnly, Information)
  {
    var _, box := Message(Some("Task completed"), Some(message.GetOr("Task completed.")), false, true, Information, answer);
    shown := box;
    r := Succeeded;
  }

  /** `Cancelled(message)`: a warning box with OK only; always Cancelled. */
  method Cancelled(message: Option<string>, answer: DialogResult) returns (r: Result, shown: MessageBox)
    ensures r == Result.Cancelled
    ensures shown == MessageBox(message.GetOr("Task cancelled."), "Task cancelled", OKOnly, Warning)
  {
    var _, box := Message(Some("Task cancelled"), Some(message.GetOr("Task cancelled.")), false, true, Warning, answer);
    shown := box;
    r := Result.Cancelled;
  }

  /** `Error(message)`: an error box with OK only; always Failed. */
  method Error(message: Option<string>, answer: DialogResult) returns (r: Result, shown: MessageBox)
    ensures r == Failed
    ensures shown == MessageBox(message.GetOr("Error encountered."), "Error", OKOnly, MessageBoxIcon.Error)
  {
    var _, box := Message(Some("Error"), Some(message.GetOr("Error encountered.")), false, true, MessageBoxIcon.Error, answer);
    shown := box;
    r := Failed;
  }

  // ---------------------------------------------------------------------------
  // File and folder dialogs
  // ---------------------------------------------------------------------------

  /** The file dialog's title. */
  function FileDialogTitle(title: Option<string>, multiSelect: bool): string {
    title.GetOr(if multiSelect then "Select file(s)" else "Select a file")
  }

  /**
   * `SelectFilePaths(title, filter, multiSelect)`; the dialog's result and
   * chosen names are parameters. On OK: all paths in multi mode, the first
   * one (which throws on an empty choice) in single mode.
   */
  method SelectFilePaths(title: Option<string>, multiSelect: bool, dialogResult: DialogResult, fileNames: seq<string>)
    returns (r: Outcome<FormResult<string>>, shownTitle: string)
    ensures shownTitle == FileDialogTitle(title, multiSelect)
    ensures r.Throws? <==> dialogResult == OK && !multiSelect && fileNames == []
    ensures r.Throws? ==> r.error == InvalidOperation
    ensures r.Returns? ==> fresh(r.value) && r.value.Consistent() && (r.value.Valid <==> dialogResult == OK)
    ensures r.Returns? && dialogResult == OK && multiSelect ==>
      r.value.Objects == Some(fileNames) && r.value.Object == None
    ensures r.Returns? && dialogResult == OK && !multiSelect ==>
      r.value.Objects == Some([]) && r.value.Object == Some(fileNames[0])
    ensures r.Returns? && dialogResult != OK ==> r.value.Objects == Some([]) && r.value.Object == None
  {
    var formResult := new FormResult<string>(false);
    shownTitle := FileDialogTitle(title, multiSelect);
    if dialogResult == OK {
      var filePaths := fileNames;
      if multiSelect {
        formResult.ValidateObjects(Some(filePaths));
      } else {
        if filePaths == [] {
          return Throws(InvalidOperation), shownTitle;
        }
        formResult.ValidateObject(filePaths[0]);
      }
    }
    r := Returns(formResult);
  }

  /** `SelectDirectoryPath(title)`: valid with the chosen folder exactly when the dialog returned OK. */
  method SelectDirectoryPath(title: Option<string>, dialogResult: DialogResult, selectedPath: string)
    returns (formResult: FormResult<string>, shownTitle: string)
    ensures fresh(formResult)
    ensures shownTitle == title.GetOr("Select folder")
    ensures formResult.Consistent() && (formResult.Valid <==> dialogResult == OK)
    ensures formResult.Object == (if dialogResult == OK then Some(selectedPath) else None)
    ensures formResult.Objects == Some([])
  {
    formResult := new FormResult<string>(false);
    shownTitle := title.GetOr("Select folder");
    if dialogResult == OK {
      formResult.ValidateObject(selectedPath);
    }
  }

  // ---------------------------------------------------------------------------
  // SelectFromList
  // ---------------------------------------------------------------------------

  /** One thing the user does in the list form. */
  datatype UserAction =
    | ToggleRow(row: int)
    | HighlightRow(row: int)
    | TypeFilter(text: string)
    | ClickCheckAll
    | ClickUncheckAll
    | ClickSelect
    | ClickCancel

  /** The title of the list form. */
  function ListTitle(title: Option<string>, multiSelect: bool): string {
    title.GetOr(if multiSelect then "Select object(s) from list:" else "Select object from list:")
  }

  /**
   * What an OK from the list form guarantees: in multi-select the tag holds
   * the checked values and there is at least one; in single-select it holds
   * the value of the pair shown in the first highlighted row.
   */
  ghost predicate TagFitsResult<T>(form: BaseListViewForm<T>)
    reads form
  {
    form.DialogResult == OK ==>
      && (form.MultiSelect ==> form.Tag == Multiple(CheckedValues(form.FormPairs)) && |form.Tag.values| > 0)
      && (!form.MultiSelect ==>
            && FirstSelected(form.Rows).Some? && FirstSelected(form.Rows).value < |form.VisibleIndices|
            && 0 <= form.VisibleIndices[FirstSelected(form.Rows).value] < |form.FormPairs|
            && form.Tag == Single(form.FormPairs[form.VisibleIndices[FirstSelected(form.Rows).value]].ItemValue))
  }

  /**
   * One user action on the open list form. Actions on rows that are not
   * displayed do nothing; single-select mode shows no check boxes and
   * disables the check-all buttons.
   */
  method Perform<T>(form: BaseListViewForm<T>, action: UserAction)
    requires form.Valid() && !form.Closed && form.DialogResult == Cancel
    modifies form
    ensures form.Valid()
    ensures form.Closed ==> TagFitsResult(form)
    ensures !form.Closed ==> form.DialogResult == Cancel
  {
    match action {
      case TypeFilter(text) =>
        form.TextChanged(text);
      case ClickSelect =>
        form.ClickSelect();
      case ClickCancel =>
        form.ClickCancel();
      case _ =>
        EditRows(form, action);
    }
  }

  /** The actions that only edit the displayed rows' checkboxes and highlights. */
  method EditRows<T>(form: BaseListViewForm<T>, action: UserAction)
    requires form.Valid()
    requires action.ToggleRow? || action.HighlightRow? || action.ClickCheckAll? || action.ClickUncheckAll?
    modifies form`Rows
    ensures form.Valid()
  {
    ghost var rows0 := form.Rows;
    match action {
      case ToggleRow(i) =>
        if form.MultiSelect && 0 <= i < |form.Rows| { form.ToggleRow(i); }
      case HighlightRow(i) =>
        if 0 <= i < |form.Rows| { form.HighlightRow(i); }
      case ClickCheckAll =>
        if form.MultiSelect { form.CheckAll(); }
      case ClickUncheckAll =>
        if form.MultiSelect { form.UncheckAll(); }
    }
    RowEditKeepsShows(form.FormPairs, rows0, form.Rows, form.VisibleIndices);
  }

  /** The modal loop of `ShowDialog`: performs the user's actions until one of them closes the form. */
  method RunDialog<T>(form: BaseListViewForm<T>, script: seq<UserAction>)
    requires form.Valid() && !form.Closed && form.DialogResult == Cancel
    modifies form
    ensures form.Valid() && TagFitsResult(form)
  {
    var n := 0;
    while n < |script| && !form.Closed
      invariant 0 <= n <= |script|
      invariant form.Valid()
      invariant form.Closed ==> TagFitsResult(form)
      invariant !form.Closed ==> form.DialogResult == Cancel
      decreases |script| - n
    {
      Perform(form, script[n]);
      n := n + 1;
    }
  }

  /**
   * `SelectFromList(keys, values, title, multiSelect)`: valid exactly when
   * the list form closed with OK; then multi-select carries the form's
   * non-empty list of checked values and single-select the chosen value.
   */
  method SelectFromList<T>(keys: seq<string>, values: seq<T>, title: Option<string>, multiSelect: bool,
                           lower: char -> char, script: seq<UserAction>)
    returns (formResult: FormResult<T>, form: BaseListViewForm<T>)
    ensures fresh(formResult) && fresh(form)
    ensures form.Title == ListTitle(title, multiSelect) && form.MultiSelect == multiSelect
    ensures formResult.Consistent() && (formResult.Valid <==> form.DialogResult == OK)
    ensures formResult.Valid && multiSelect ==>
      && form.Tag.Multiple? && formResult.Objects == Some(form.Tag.values) && |form.Tag.values| > 0
      && form.Tag.values == CheckedValues(form.FormPairs)
    ensures formResult.Valid && !multiSelect ==>
      && FirstSelected(form.Rows).Some? && FirstSelected(form.Rows).value < |form.VisibleIndices|
      && 0 <= form.VisibleIndices[FirstSelected(form.Rows).value] < |form.FormPairs|
      && formResult.Object == Some(form.FormPairs[form.VisibleIndices[FirstSelected(form.Rows).value]].ItemValue)
    ensures !formResult.Valid ==> formResult.Objects == Some([]) && formResult.Object == None
  {
    formResult := new FormResult<T>(false);
    form := new BaseListViewForm<T>(keys, values, ListTitle(title, multiSelect), multiSelect, lower);
    RunDialog(form, script);
    if form.DialogResult == OK {
      if multiSelect {
        formResult.ValidateObjects(Some(form.Tag.values));
      } else {
        formResult.ValidateObject(form.Tag.value);
      }
    }
  }
}
