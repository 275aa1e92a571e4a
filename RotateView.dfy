/**
 * `RotateView.NumericTextBox`: a text-composition chunk is rejected unless it
 * matches the .NET regex `^-?\d*(?:\.\d*)?$`. The regex is modelled by a
 * hand-built recogniser and checked against a declarative description.
 */
module RotateView {
  import opened CharClasses

  /** States of the recogniser: before anything, in the whole part, in the fraction, failed. */
  datatype State = Start | Whole | Fraction | Dead

  function Step(st: State, c: char, isDigit: char -> bool): State {
    match st
    case Start => if c == '-' || isDigit(c) then Whole else if c == '.' then Fraction else Dead
    case Whole => if isDigit(c) then Whole else if c == '.' then Fraction else Dead
    case Fraction => if isDigit(c) then Fraction else Dead
    case Dead => Dead
  }

  function Run(st: State, s: string, isDigit: char -> bool): State
    decreases |s|
  {
    if s == [] then st else Run(Step(st, s[0], isDigit), s[1..], isDigit)
  }

  /** The anchored pattern consumes all of `s`. */
  predicate MatchesWhole(s: string, isDigit: char -> bool) {
    Run(Start, s, isDigit) != Dead
  }

  /** `Regex.IsMatch`: .NET `$` also matches just before a final '\n'. */
  predicate IsMatch(s: string, isDigit: char -> bool) {
    MatchesWhole(s, isDigit) || (|s| > 0 && s[|s| - 1] == '\n' && MatchesWhole(s[..|s| - 1], isDigit))
  }

  /** `e.Handled = !_regex.IsMatch(e.Text)`: true means the chunk is rejected. */
  function Handled(chunk: string, isDigit: char -> bool): (handled: bool)
    ensures handled <==> !IsMatch(chunk, isDigit)
  {
    !IsMatch(chunk, isDigit)
  }

  // ---- the language, described declaratively ----

  ghost predicate AllDigits(s: string, isDigit: char -> bool) {
    forall i :: 0 <= i < |s| ==> isDigit(s[i])
  }

  /** `\d*(?:\.\d*)?`: digits, optionally followed by '.' and digits. */
  ghost predicate UnsignedNumber(t: string, isDigit: char -> bool) {
    AllDigits(t, isDigit)
    || exists k :: 0 <= k < |t| && t[k] == '.' && AllDigits(t[..k], isDigit) && AllDigits(t[k + 1..], isDigit)
  }

  /** `-?\d*(?:\.\d*)?`: an optional leading '-' before an unsigned number. */
  ghost predicate NumberText(s: string, isDigit: char -> bool) {
    UnsignedNumber(s, isDigit) || (|s| > 0 && s[0] == '-' && UnsignedNumber(s[1..], isDigit))
  }

  lemma {:induction false} FractionAccepts(t: string, isDigit: char -> bool)
    ensures Run(Fraction, t, isDigit) != Dead <==> AllDigits(t, isDigit)
    decreases |t|
  {
    if t != [] {
      FractionAccepts(t[1..], isDigit);
      if isDigit(t[0]) {
        assert AllDigits(t, isDigit) <==> AllDigits(t[1..], isDigit) by {
          assert forall i :: 0 < i < |t| ==> t[i] == t[1..][i - 1];
        }
      } else {
        DeadStays(t[1..], isDigit);
      }
    }
  }

  lemma {:induction false} DeadStays(t: string, isDigit: char -> bool)
    ensures Run(Dead, t, isDigit) == Dead
    decreases |t|
  {
    if t != [] {
      DeadStays(t[1..], isDigit);
    }
  }

  /** A leading digit does not change whether the rest is all digits. */
  lemma DigitsAfterDigit(t: string, isDigit: char -> bool)
    requires |t| > 0 && isDigit(t[0])
    ensures AllDigits(t, isDigit) <==> AllDigits(t[1..], isDigit)
  {
    assert forall i :: 0 < i < |t| ==> t[i] == t[1..][i - 1];
  }

  /** A '.' at `k` in the tail after a digit is a '.' at `k + 1` in the whole, with the same split. */
  lemma DotAfterDigit(t: string, isDigit: char -> bool, k: int)
    requires |t| > 0 && isDigit(t[0])
    requires 0 <= k < |t| - 1 && t[1..][k] == '.'
    requires AllDigits(t[1..][..k], isDigit) && AllDigits(t[1..][k + 1..], isDigit)
    ensures t[k + 1] == '.' && AllDigits(t[..k + 1], isDigit) && AllDigits(t[k + 2..], isDigit)
  {
    assert t[k + 2..] == t[1..][k + 1..];
    assert t[..k + 1] == [t[0]] + t[1..][..k];
    DigitsAfterDigit(t[..k + 1], isDigit);
  }

  /** A '.' at `k` in a text starting with a digit other than '.' is a '.' at `k - 1` in its tail. */
  lemma DotBeforeTail(t: string, isDigit: char -> bool, k: int)
    requires |t| > 0 && isDigit(t[0]) && t[0] != '.'
    requires 0 <= k < |t| && t[k] == '.'
    requires AllDigits(t[..k], isDigit) && AllDigits(t[k + 1..], isDigit)
    ensures 0 <= k - 1 < |t[1..]| && t[1..][k - 1] == '.'
    ensures AllDigits(t[1..][..k - 1], isDigit) && AllDigits(t[1..][k..], isDigit)
  {
    assert k >= 1;
    assert t[1..][k..] == t[k + 1..];
    assert t[..k] == [t[0]] + t[1..][..k - 1];
    DigitsAfterDigit(t[..k], isDigit);
  }

  /** A leading digit does not change whether the rest is an unsigned number. */
  lemma UnsignedAfterDigit(t: string, isDigit: char -> bool)
    requires |t| > 0 && isDigit(t[0]) && t[0] != '.'
    ensures UnsignedNumber(t, isDigit) <==> UnsignedNumber(t[1..], isDigit)
  {
    var t' := t[1..];
    DigitsAfterDigit(t, isDigit);
    if UnsignedNumber(t', isDigit) && !AllDigits(t', isDigit) {
      var k :| 0 <= k < |t'| && t'[k] == '.' && AllDigits(t'[..k], isDigit) && AllDigits(t'[k + 1..], isDigit);
      DotAfterDigit(t, isDigit, k);
      assert 0 <= k + 1 < |t|;
    }
    if UnsignedNumber(t, isDigit) && !AllDigits(t, isDigit) {
      var k :| 0 <= k < |t| && t[k] == '.' && AllDigits(t[..k], isDigit) && AllDigits(t[k + 1..], isDigit);
      DotBeforeTail(t, isDigit, k);
    }
  }

  /** After a leading '.', only digits may follow. */
  lemma UnsignedAfterDot(t: string, isDigit: char -> bool)
    requires |t| > 0 && t[0] == '.' && !isDigit('.')
    ensures UnsignedNumber(t, isDigit) <==> AllDigits(t[1..], isDigit)
  {
    if AllDigits(t[1..], isDigit) {
      assert t[..0] == [];
    }
  }

  /** Any other leading character rules the text out. */
  lemma UnsignedAfterOther(t: string, isDigit: char -> bool)
    requires |t| > 0 && !isDigit(t[0]) && t[0] != '.'
    ensures !UnsignedNumber(t, isDigit)
  {
  }

  lemma {:induction false} WholeAccepts(t: string, isDigit: char -> bool)
    requires !isDigit('.')
    ensures Run(Whole, t, isDigit) != Dead <==> UnsignedNumber(t, isDigit)
    decreases |t|
  {
    if t != [] {
      var c, t' := t[0], t[1..];
      if isDigit(c) {
        WholeAccepts(t', isDigit);
        UnsignedAfterDigit(t, isDigit);
      } else if c == '.' {
        FractionAccepts(t', isDigit);
        UnsignedAfterDot(t, isDigit);
      } else {
        DeadStays(t', isDigit);
        UnsignedAfterOther(t, isDigit);
      }
    }
  }

  /** The recogniser accepts exactly the text the pattern describes (given that '.' is not a digit). */
  lemma MatchesWholeIsNumberText(s: string, isDigit: char -> bool)
    requires !isDigit('.')
    ensures MatchesWhole(s, isDigit) <==> NumberText(s, isDigit)
  {
    if s != [] {
      var c, t := s[0], s[1..];
      if c == '-' {
        WholeAccepts(t, isDigit);
        if UnsignedNumber(s, isDigit) {
          WholeAccepts(s, isDigit);
          assert Run(Whole, s, isDigit) == Run(Whole, t, isDigit) by {
            if !isDigit(c) { DeadStays(t, isDigit); }
          }
        }
      } else {
        WholeAccepts(s, isDigit);
        if isDigit(c) {
        } else if c == '.' {
        } else {
          DeadStays(t, isDigit);
        }
      }
    }
  }

  /** The accepted chunks: an optional '-', digits, then optionally '.' and digits (or that text plus a final '\n'). */
  lemma HandledIffNotNumber(chunk: string, isDigit: char -> bool)
    requires !isDigit('.')
    ensures !Handled(chunk, isDigit) <==>
      NumberText(chunk, isDigit)
      || (|chunk| > 0 && chunk[|chunk| - 1] == '\n' && NumberText(chunk[..|chunk| - 1], isDigit))
  {
    MatchesWholeIsNumberText(chunk, isDigit);
    if |chunk| > 0 {
      MatchesWholeIsNumberText(chunk[..|chunk| - 1], isDigit);
    }
  }

  /** The degenerate texts "", "-", "." and "-." are accepted, and so is "5\n" because of `$`. */
  lemma AcceptedExamples(isDigit: char -> bool)
    requires DecimalDigitClass(isDigit)
    ensures !Handled("", isDigit) && !Handled("-", isDigit) && !Handled(".", isDigit) && !Handled("-.", isDigit)
    ensures !Handled("-12.50", isDigit)
    ensures !Handled("5\n", isDigit)
  {
    assert isDigit('5') && isDigit('1') && isDigit('2') && isDigit('0') && !isDigit('.') && !isDigit('-');
    assert "5\n"[..1] == "5";
  }

  /** A misplaced '-', a second '.', or any other character is rejected. */
  lemma RejectedExamples(isDigit: char -> bool)
    requires DecimalDigitClass(isDigit)
    ensures Handled("a", isDigit) && Handled("1-", isDigit) && Handled("1.2.3", isDigit) && Handled("--", isDigit)
  {
    assert isDigit('1') && isDigit('2') && isDigit('3');
    assert !isDigit('a') && !isDigit('-') && !isDigit('.') && !isDigit('\n');
    assert "1-"[..1] == "1";
  }

  /**
   * The check sees each composed chunk, not the box content: typing "-" twice,
   * or "1.2.3" one character at a time, passes every single check although
   * the resulting content does not match.
   */
  lemma ChunkwiseCheckAdmitsNonNumbers(isDigit: char -> bool)
    requires DecimalDigitClass(isDigit)
    ensures !Handled("-", isDigit) && Handled("-" + "-", isDigit)
    ensures forall c :: c in "1.2.3" ==> !Handled([c], isDigit)
    ensures Handled("1" + "." + "2" + "." + "3", isDigit)
  {
    RejectedExamples(isDigit);
    assert "-" + "-" == "--";
    assert "1" + "." + "2" + "." + "3" == "1.2.3";
    assert isDigit('1') && isDigit('2') && isDigit('3') && !isDigit('.');
    assert !Handled("1", isDigit) && !Handled(".", isDigit) && !Handled("2", isDigit) && !Handled("3", isDigit);
    forall c | c in "1.2.3" ensures !Handled([c], isDigit) {
      assert c == '1' || c == '.' || c == '2' || c == '3';
      assert [c] == "1" || [c] == "." || [c] == "2" || [c] == "3";
    }
  }
}
