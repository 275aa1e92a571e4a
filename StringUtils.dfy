/** String validation: `StringUtils.MakeStringValid` and its invalid-character set. */
module StringUtils {

  /** `CHARS_INVALID`: the characters that may not appear in a file name. */
  const CharsInvalid: seq<char> := ['/', '?', '<', '>', '\\', ':', '*', '|', '"', '^']

  /** The replacement character that means "delete instead of replacing". */
  const Wildcard: char := '*'

  predicate IsInvalid(c: char) {
    c in CharsInvalid
  }

  predicate AllValid(s: string) {
    forall i :: 0 <= i < |s| ==> !IsInvalid(s[i])
  }

  /** What one input character contributes to the output. */
  function CleanChar(c: char, replaceChar: char): string {
    if !IsInvalid(c) then [c]
    else if replaceChar != Wildcard then [replaceChar]
    else []
  }

  /** The string `MakeStringValid` builds, one character at a time. */
  function Cleaned(s: string, replaceChar: char): string
    decreases |s|
  {
    if s == [] then [] else Cleaned(s[..|s| - 1], replaceChar) + CleanChar(s[|s| - 1], replaceChar)
  }

  /** `MakeStringValid(checkString, replaceChar)`: appends to a builder character by character. */
  method MakeStringValid(checkString: string, replaceChar: char) returns (r: string)
    ensures r == Cleaned(checkString, replaceChar)
  {
    r := "";
    for i := 0 to |checkString|
      invariant r == Cleaned(checkString[..i], replaceChar)
    {
      assert checkString[..i + 1][..i] == checkString[..i];
      var c := checkString[i];
      if IsInvalid(c) {
        if replaceChar != Wildcard {
          r := r + [replaceChar];
        }
      } else {
        r := r + [c];
      }
    }
    assert checkString[..|checkString|] == checkString;
  }

  /** Cleaning works character by character: it distributes over concatenation. */
  lemma {:induction false} CleanedConcat(a: string, b: string, replaceChar: char)
    ensures Cleaned(a + b, replaceChar) == Cleaned(a, replaceChar) + Cleaned(b, replaceChar)
    decreases |b|
  {
    if b == [] {
      assert a + b == a;
    } else {
      var b' := b[..|b| - 1];
      assert (a + b)[..|a + b| - 1] == a + b';
      CleanedConcat(a, b', replaceChar);
    }
  }

  /** The positions of the valid characters of `s`, in increasing order. */
  ghost function ValidPositions(s: string): seq<nat>
    decreases |s|
  {
    if s == [] then []
    else ValidPositions(s[..|s| - 1]) + (if IsInvalid(s[|s| - 1]) then [] else [|s| - 1])
  }

  /** `ValidPositions(s)` lists, in increasing order, exactly the positions of the valid characters. */
  lemma {:induction false} ValidPositionsExact(s: string)
    ensures forall j :: 0 <= j < |ValidPositions(s)| ==> ValidPositions(s)[j] < |s|
    ensures forall j, k :: 0 <= j < k < |ValidPositions(s)| ==> ValidPositions(s)[j] < ValidPositions(s)[k]
    ensures forall p :: 0 <= p < |s| ==> (p in ValidPositions(s) <==> !IsInvalid(s[p]))
    decreases |s|
  {
    if s != [] {
      var s' := s[..|s| - 1];
      ValidPositionsExact(s');
      assert forall p :: 0 <= p < |s'| ==> s'[p] == s[p];
    }
  }

  /**
   * With the default wildcard the output is the input with every invalid
   * character deleted: its characters are exactly the valid ones, in order.
   */
  lemma {:induction false} DefaultDeletesInvalid(s: string)
    ensures |Cleaned(s, Wildcard)| == |ValidPositions(s)|
    ensures forall j :: 0 <= j < |ValidPositions(s)| ==>
      ValidPositions(s)[j] < |s| && Cleaned(s, Wildcard)[j] == s[ValidPositions(s)[j]]
    ensures forall j, k :: 0 <= j < k < |ValidPositions(s)| ==> ValidPositions(s)[j] < ValidPositions(s)[k]
    ensures forall p :: 0 <= p < |s| ==> (p in ValidPositions(s) <==> !IsInvalid(s[p]))
    decreases |s|
  {
    ValidPositionsExact(s);
    if s != [] {
      var s' := s[..|s| - 1];
      DefaultDeletesInvalid(s');
      ValidPositionsExact(s');
      assert forall p :: 0 <= p < |s'| ==> s'[p] == s[p];
    }
  }

  /** With any other replacement character the length is kept and each invalid character is replaced. */
  lemma {:induction false} ReplaceKeepsPositions(s: string, replaceChar: char)
    requires replaceChar != Wildcard
    ensures |Cleaned(s, replaceChar)| == |s|
    ensures forall i :: 0 <= i < |s| ==>
      Cleaned(s, replaceChar)[i] == (if IsInvalid(s[i]) then replaceChar else s[i])
    decreases |s|
  {
    if s != [] {
      ReplaceKeepsPositions(s[..|s| - 1], replaceChar);
    }
  }

  /** When the wildcard is used, or the replacement is itself valid, no invalid character survives. */
  lemma {:induction false} CleanedIsValid(s: string, replaceChar: char)
    requires replaceChar == Wildcard || !IsInvalid(replaceChar)
    ensures AllValid(Cleaned(s, replaceChar))
    decreases |s|
  {
    if s != [] {
      CleanedIsValid(s[..|s| - 1], replaceChar);
    }
  }

  /** A string without invalid characters is returned unchanged, whatever the replacement. */
  lemma {:induction false} CleanedOfValid(s: string, replaceChar: char)
    requires AllValid(s)
    ensures Cleaned(s, replaceChar) == s
    decreases |s|
  {
    if s != [] {
      var s' := s[..|s| - 1];
      CleanedOfValid(s', replaceChar);
      assert s' + [s[|s| - 1]] == s;
    }
  }

  /**
   * Cleaning twice is cleaning once, for every replacement character
   * (an invalid replacement is replaced by itself on the second pass).
   */
  lemma {:induction false} CleanedIdempotent(s: string, replaceChar: char)
    ensures Cleaned(Cleaned(s, replaceChar), replaceChar) == Cleaned(s, replaceChar)
    decreases |s|
  {
    if s != [] {
      var s' := s[..|s| - 1];
      var c := s[|s| - 1];
      CleanedIdempotent(s', replaceChar);
      CleanedConcat(Cleaned(s', replaceChar), CleanChar(c, replaceChar), replaceChar);
      var t := CleanChar(c, replaceChar);
      if t != [] {
        assert t == [t[0]];
        assert t[..0] == [];
        assert Cleaned(t, replaceChar) == Cleaned([], replaceChar) + CleanChar(t[0], replaceChar);
      }
    }
  }
}
