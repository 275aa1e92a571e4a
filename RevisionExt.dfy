/** `RevisionExt.Ext_ToRevisionKey`: the display key of a revision. */
module RevisionExt {
  import opened Wrappers
  import opened HostTypes
  import opened Strings

  /** The key shown for a missing revision. */
  const UnknownKey: string := "???"

  /** The key without the id: `{SequenceNumber}: {RevisionDate} - {Description}`. */
  function PlainKey(r: Revision): string {
    IntToString(r.SequenceNumber) + ": " + r.RevisionDate + " - " + r.Description
  }

  /** The id suffix ` [{Id}]`. */
  function IdSuffix(id: ElementId): (s: string)
    ensures |s| >= 4 && s[0] == ' ' && s[1] == '[' && s[|s| - 1] == ']'
  {
    " [" + IntToString(id.value) + "]"
  }

  /** `Ext_ToRevisionKey(revision, includeId)`; `None` models a null revision. */
  function ToRevisionKey(revision: Option<Revision>, includeId: bool): (key: string)
    ensures revision.None? ==> key == UnknownKey
    ensures revision.Some? && !includeId ==> key == PlainKey(revision.value)
    ensures revision.Some? && includeId ==> key == PlainKey(revision.value) + IdSuffix(revision.value.Id)
  {
    match revision
    case None => UnknownKey
    case Some(r) =>
      if includeId then
        IntToString(r.SequenceNumber) + ": " + r.RevisionDate + " - " + r.Description
          + " [" + IntToString(r.Id.value) + "]"
      else
        IntToString(r.SequenceNumber) + ": " + r.RevisionDate + " - " + r.Description
  }

  /** For a present revision the key without the id is a proper prefix of the key with it. */
  lemma PlainKeyIsProperPrefix(r: Revision)
    ensures ToRevisionKey(Some(r), false) < ToRevisionKey(Some(r), true)
  {
    var plain := ToRevisionKey(Some(r), false);
    var full := ToRevisionKey(Some(r), true);
    assert full == plain + IdSuffix(r.Id);
    assert full[..|plain|] == plain;
  }

  /**
   * The key with the id ends in the id's decimal digits between brackets
   * (a '-' first for a negative id), so the id can be read back off the key.
   */
  lemma IdSuffixIsBracketedNumber(r: Revision)
    ensures var plain, full := ToRevisionKey(Some(r), false), ToRevisionKey(Some(r), true);
      && |full| >= |plain| + 4
      && var digits := full[|plain| + 2..|full| - 1];
      && full == plain + " [" + digits + "]"
      && forall i :: 0 <= i < |digits| ==> ('0' <= digits[i] <= '9') || (i == 0 && digits[i] == '-' && r.Id.value < 0)
  {
    var plain, full := ToRevisionKey(Some(r), false), ToRevisionKey(Some(r), true);
    var digits := IntToString(r.Id.value);
    IntToStringIsDigits(r.Id.value);
    assert full == plain + " [" + digits + "]";
    assert full[|plain| + 2..|full| - 1] == digits;
  }
}
