/**
 * `BaseEnterValue`: a dialog with one text box. In number-only mode a
 * keystroke is suppressed unless it is a control character, a digit, or the
 * first '.' of the text.
 */
module BaseEnterValue {
  import opened Wrappers
  import opened HostTypes
  import opened CharClasses

  /** `textBox.MaxLength` as the designer sets it: typing stops at 100 characters. */
  const MaxLength: nat := 100

  /** `CharIsNumericallyValid` against the text currently in the box. */
  predicate NumericallyValid(text: string, keyChar: char, isDigit: char -> bool) {
    IsControl(keyChar) || isDigit(keyChar) || (keyChar == '.' && Count(text, '.') < 1)
  }

  /** `TextBox_KeyPress`: the key is suppressed in number-only mode when it is not valid. */
  predicate Suppressed(numberOnly: bool, text: string, keyChar: char, isDigit: char -> bool) {
    numberOnly && !NumericallyValid(text, keyChar, isDigit)
  }

  /**
   * The text after a printable key reaches the box at `caret`: the key is
   * inserted unless it was suppressed or the box is full.
   */
  function Typed(numberOnly: bool, text: string, keyChar: char, caret: nat, isDigit: char -> bool): string
    requires caret <= |text|
  {
    if Suppressed(numberOnly, text, keyChar, isDigit) || |text| >= MaxLength then text
    else text[..caret] + [keyChar] + text[caret..]
  }

  /** A printable keystroke: a character and the caret position it is typed at. */
  datatype Key = Key(ch: char, caret: nat)

  /** The text after a sequence of printable keystrokes (a caret past the end types at the end). */
  function TypedAll(numberOnly: bool, text: string, keys: seq<Key>, isDigit: char -> bool): string
    decreases |keys|
  {
    if keys == [] then text
    else
      var caret := if keys[0].caret <= |text| then keys[0].caret else |text|;
      TypedAll(numberOnly, Typed(numberOnly, text, keys[0].ch, caret, isDigit), keys[1..], isDigit)
  }

  /** Control characters and digits are always valid. */
  lemma ControlAndDigitsValid(text: string, keyChar: char, isDigit: char -> bool)
    requires IsControl(keyChar) || isDigit(keyChar)
    ensures NumericallyValid(text, keyChar, isDigit)
  {
  }

  /** '.' is valid exactly when the text has no '.' yet (given '.' is not a digit). */
  lemma DotValidIffNoDot(text: string, isDigit: char -> bool)
    requires !isDigit('.')
    ensures NumericallyValid(text, '.', isDigit) <==> '.' !in text
  {
  }

  /** Every other character is invalid; for example '-', ',' and letters. */
  lemma OthersInvalid(text: string, isDigit: char -> bool)
    requires DecimalDigitClass(isDigit)
    ensures !NumericallyValid(text, '-', isDigit) && !NumericallyValid(text, ',', isDigit)
    ensures forall c :: 'a' <= c <= 'z' || 'A' <= c <= 'Z' ==> !NumericallyValid(text, c, isDigit)
  {
    assert !isDigit('-') && !isDigit(',');
  }

  /** With number-only off no key is ever suppressed. */
  lemma FreeTextNeverSuppressed(text: string, keyChar: char, isDigit: char -> bool)
    ensures !Suppressed(false, text, keyChar, isDigit)
  {
  }

  /** Inserting one character anywhere adds one occurrence of `x` exactly when the character is `x`. */
  lemma InsertCount(text: string, c: char, caret: nat, x: char)
    requires caret <= |text|
    ensures Count(text[..caret] + [c] + text[caret..], x) == Count(text, x) + (if c == x then 1 else 0)
  {
    assert text == text[..caret] + text[caret..];
    CountConcat(text[..caret], text[caret..], x);
    CountConcat(text[..caret] + [c], text[caret..], x);
    CountConcat(text[..caret], [c], x);
    assert [c][..0] == [];
  }

  /**
   * In number-only mode typing can never produce a second '.': the count of
   * '.' stays at most the larger of 1 and the count already in the box.
   */
  lemma {:induction false} TypingAddsNoSecondDot(text: string, keys: seq<Key>, isDigit: char -> bool)
    requires !isDigit('.')
    ensures Count(TypedAll(true, text, keys, isDigit), '.') <= if Count(text, '.') < 1 then 1 else Count(text, '.')
    decreases |keys|
  {
    if keys != [] {
      var caret := if keys[0].caret <= |text| then keys[0].caret else |text|;
      var c := keys[0].ch;
      var next := Typed(true, text, c, caret, isDigit);
      if next != text {
        InsertCount(text, c, caret, '.');
      }
      assert Count(next, '.') <= if Count(text, '.') < 1 then 1 else Count(text, '.');
      TypingAddsNoSecondDot(next, keys[1..], isDigit);
    }
  }

  /** The form: the text box content, the dialog outcome and the tag it hands back. */
  class EnterValueForm {
    const Title: string
    const Message: string
    const NumberOnly: bool
    const IsDigit: char -> bool
    var Text: string
    var DialogResult: DialogResult
    var Tag: Option<string>
    var Closed: bool

    /** The constructor: the box holds the default value and cancellation is assumed. */
    constructor (title: string, message: string, defaultValue: string, numberOnly: bool, isDigit: char -> bool)
      ensures Title == title && Message == message && NumberOnly == numberOnly && IsDigit == isDigit
      ensures Text == defaultValue && DialogResult == Cancel && Tag == None && !Closed
    {
      Title, Message, NumberOnly, IsDigit := title, message, numberOnly, isDigit;
      Text := defaultValue;
      DialogResult := Cancel;
      Tag := None;
      Closed := false;
    }

    /** `CharIsNumericallyValid`: counts the '.' already in the box. */
    method CharIsNumericallyValid(keyChar: char) returns (valid: bool)
      ensures valid <==> IsControl(keyChar) || IsDigit(keyChar) || (keyChar == '.' && '.' !in Text)
    {
      if IsControl(keyChar) || IsDigit(keyChar) {
        return true;
      }
      if keyChar == '.' {
        var count := 0;
        for i := 0 to |Text|
          invariant count == Count(Text[..i], '.')
        {
          assert Text[..i + 1][..i] == Text[..i];
          if Text[i] == '.' {
            count := count + 1;
          }
        }
        assert Text[..|Text|] == Text;
        return count < 1;
      }
      return false;
    }

    /** `TextBox_KeyPress`: reports whether the key is suppressed. */
    method KeyPress(keyChar: char) returns (handled: bool)
      ensures handled == Suppressed(NumberOnly, Text, keyChar, IsDigit)
    {
      handled := false;
      if NumberOnly {
        var valid := CharIsNumericallyValid(keyChar);
        if !valid {
          handled := true;
        }
      }
    }

    /** The user types a printable character at `caret`; the box inserts it unless suppressed or full. */
    method TypeKey(keyChar: char, caret: nat) returns (handled: bool)
      requires caret <= |Text| && !IsControl(keyChar)
      modifies this`Text
      ensures handled == Suppressed(NumberOnly, old(Text), keyChar, IsDigit)
      ensures Text == Typed(NumberOnly, old(Text), keyChar, caret, IsDigit)
    {
      handled := KeyPress(keyChar);
      if !handled && |Text| < MaxLength {
        Text := Text[..caret] + [keyChar] + Text[caret..];
      }
    }

    /** `btnSelect_Click`: OK, and the tag carries the text. */
    method ClickOK()
      modifies this`DialogResult, this`Tag, this`Closed
      ensures DialogResult == OK && Tag == Some(Text) && Closed
    {
      DialogResult := OK;
      Tag := Some(Text);
      Closed := true;
    }

    /** `btnCancel_Click`: the tag is cleared and the dialog result is left as it was. */
    method ClickCancel()
      modifies this`Tag, this`Closed
      ensures Tag == None && Closed
    {
      Tag := None;
      Closed := true;
    }
  }
}
