/**
 * `BaseListView<T>`: the filtered checklist form behind `Custom.SelectFromList`.
 * The WinForms list view is modelled as its sequence of displayed rows.
 */
module BaseListView {
  import opened Wrappers
  import opened HostTypes
  import opened Strings
  import opened DataUtils

  /** One displayed list-view row: its text, its checkbox and its highlight. */
  datatype Row = Row(Key: string, Checked: bool, Selected: bool)

  /** The form's `Tag`: null, the single chosen value, or the list of checked values. */
  datatype Tag<T> = NullTag | Single(value: T) | Multiple(values: seq<T>)

  // ---------------------------------------------------------------------------
  // Specification functions over the pair list
  // ---------------------------------------------------------------------------

  /** The positions of the visible pairs, in origin order. */
  function VisiblePositions<T>(pairs: seq<KeyedValue<T>>): (vp: seq<int>)
    ensures |vp| <= |pairs|
    ensures forall i :: 0 <= i < |vp| ==> 0 <= vp[i] < |pairs| && pairs[vp[i]].Visible
    decreases |pairs|
  {
    if pairs == [] then []
    else
      var n := |pairs| - 1;
      VisiblePositions(pairs[..n]) + (if pairs[n].Visible then [n] else [])
  }

  /** The visible positions are increasing and include every visible pair. */
  lemma {:induction false} VisiblePositionsComplete<T>(pairs: seq<KeyedValue<T>>)
    ensures forall i, j :: 0 <= i < j < |VisiblePositions(pairs)| ==> VisiblePositions(pairs)[i] < VisiblePositions(pairs)[j]
    ensures forall p :: 0 <= p < |pairs| && pairs[p].Visible ==> p in VisiblePositions(pairs)
    decreases |pairs|
  {
    if pairs != [] {
      var n := |pairs| - 1;
      var init := pairs[..n];
      VisiblePositionsComplete(init);
      assert forall p :: 0 <= p < n ==> init[p] == pairs[p];
    }
  }

  /** The rows `LoadShownItems` displays: one unhighlighted row per visible pair, in order. */
  function DisplayedRows<T>(pairs: seq<KeyedValue<T>>): (rows: seq<Row>)
    ensures |rows| == |VisiblePositions(pairs)|
    ensures forall i :: 0 <= i < |rows| ==>
      var p := pairs[VisiblePositions(pairs)[i]];
      rows[i] == Row(p.ItemKey, p.Checked, false)
    decreases |pairs|
  {
    if pairs == [] then []
    else
      var n := |pairs| - 1;
      assert pairs[..n] == pairs[..n];
      assert forall i :: 0 <= i < n ==> pairs[..n][i] == pairs[i];
      var last := pairs[n];
      DisplayedRows(pairs[..n]) + (if last.Visible then [Row(last.ItemKey, last.Checked, false)] else [])
  }

  /**
   * The check flags `UpdateCheckedValues` copies back: row `i` goes to pair
   * `vis[i]` (a row without a pair to go to, which the form never has, is
   * skipped).
   */
  function SyncChecks<T>(pairs: seq<KeyedValue<T>>, rows: seq<Row>, vis: seq<int>): (r: seq<KeyedValue<T>>)
    ensures |r| == |pairs|
    ensures forall j :: 0 <= j < |r| ==> r[j].(Checked := pairs[j].Checked) == pairs[j]
    decreases |rows|
  {
    if rows == [] then pairs
    else
      var n := |rows| - 1;
      var p := SyncChecks(pairs, rows[..n], vis);
      if n < |vis| && 0 <= vis[n] < |p| then p[vis[n] := p[vis[n]].(Checked := rows[n].Checked)] else p
  }

  /** What rows `0 .. n-1` index. */
  ghost predicate Distinct(vis: seq<int>, n: int)
    requires 0 <= n <= |vis|
  {
    forall i, j :: 0 <= i < j < n ==> vis[i] != vis[j]
  }

  /**
   * With distinct indices, syncing gives each indexed pair its row's flag and
   * leaves every other pair as it was.
   */
  lemma {:induction false} SyncChecksCopies<T>(pairs: seq<KeyedValue<T>>, rows: seq<Row>, vis: seq<int>)
    requires |rows| <= |vis| && forall i :: 0 <= i < |rows| ==> 0 <= vis[i] < |pairs|
    requires Distinct(vis, |rows|)
    ensures forall i :: 0 <= i < |rows| ==> SyncChecks(pairs, rows, vis)[vis[i]].Checked == rows[i].Checked
    ensures forall j :: 0 <= j < |pairs| && (forall i :: 0 <= i < |rows| ==> vis[i] != j) ==>
      SyncChecks(pairs, rows, vis)[j] == pairs[j]
    decreases |rows|
  {
    if rows != [] {
      var n := |rows| - 1;
      SyncChecksCopies(pairs, rows[..n], vis);
    }
  }

  /** Whether a key passes filter text `filter` (already lowered). */
  function PassesFilter(filter: string, key: string, lower: char -> char): (b: bool)
    ensures filter == [] ==> b
    ensures b <==> filter == [] || exists k :: OccursAt(ToLower(key, lower), filter, k)
  {
    filter == [] || Contains(ToLower(key, lower), filter)
  }

  /** Every pair's visibility set by the filter. */
  function ApplyFilter<T>(pairs: seq<KeyedValue<T>>, filter: string, lower: char -> char): (r: seq<KeyedValue<T>>)
    ensures |r| == |pairs|
    ensures forall j :: 0 <= j < |r| ==>
      r[j].Visible == PassesFilter(filter, pairs[j].ItemKey, lower) && r[j].(Visible := pairs[j].Visible) == pairs[j]
  {
    seq(|pairs|, j requires 0 <= j < |pairs| => pairs[j].(Visible := PassesFilter(filter, pairs[j].ItemKey, lower)))
  }

  /** Filtering changes visibility only: a list numbered by position stays numbered by position. */
  lemma FilterKeepsIndices<T>(pairs: seq<KeyedValue<T>>, filter: string, lower: char -> char)
    requires forall j :: 0 <= j < |pairs| ==> pairs[j].ItemIndex == j
    ensures forall j :: 0 <= j < |pairs| ==> ApplyFilter(pairs, filter, lower)[j].ItemIndex == j
  {
  }

  /** The values of the checked pairs, in origin order, visible or not. */
  function CheckedValues<T>(pairs: seq<KeyedValue<T>>): (vs: seq<T>)
    ensures |vs| <= |pairs|
    ensures forall j :: 0 <= j < |pairs| && pairs[j].Checked ==> pairs[j].ItemValue in vs
    ensures forall i :: 0 <= i < |vs| ==> exists j :: 0 <= j < |pairs| && pairs[j].Checked && pairs[j].ItemValue == vs[i]
    decreases |pairs|
  {
    if pairs == [] then []
    else
      var n := |pairs| - 1;
      var init := CheckedValues(pairs[..n]);
      var vs := init + (if pairs[n].Checked then [pairs[n].ItemValue] else []);
      assert forall j :: 0 <= j < n ==> pairs[..n][j] == pairs[j];
      assert forall j :: 0 <= j < n && pairs[j].Checked ==> pairs[j].ItemValue in init;
      assert forall i :: 0 <= i < |init| ==> vs[i] == init[i];
      assert forall i :: 0 <= i < |init| ==>
        exists j :: 0 <= j < n && pairs[j].Checked && pairs[j].ItemValue == init[i];
      vs
  }

  /** The positions of the checked pairs, in origin order. */
  ghost function CheckedPositions<T>(pairs: seq<KeyedValue<T>>): seq<int>
    decreases |pairs|
  {
    if pairs == [] then []
    else
      var n := |pairs| - 1;
      CheckedPositions(pairs[..n]) + (if pairs[n].Checked then [n] else [])
  }

  /** The checked positions are in range, strictly increasing, and exactly those of the checked pairs. */
  lemma {:induction false} CheckedPositionsExact<T>(pairs: seq<KeyedValue<T>>)
    ensures forall i :: 0 <= i < |CheckedPositions(pairs)| ==> 0 <= CheckedPositions(pairs)[i] < |pairs|
    ensures forall i, j :: 0 <= i < j < |CheckedPositions(pairs)| ==> CheckedPositions(pairs)[i] < CheckedPositions(pairs)[j]
    ensures forall p :: 0 <= p < |pairs| ==> (p in CheckedPositions(pairs) <==> pairs[p].Checked)
    decreases |pairs|
  {
    if pairs != [] {
      var n := |pairs| - 1;
      var init := pairs[..n];
      CheckedPositionsExact(init);
      assert forall p :: 0 <= p < n ==> init[p] == pairs[p];
    }
  }

  /**
   * `CheckedValues` lists the values of the checked pairs one for one and in
   * origin order: its i-th value is the value at the i-th checked position
   * (which `CheckedPositionsExact` characterises).
   */
  lemma {:induction false} CheckedValuesInOrder<T>(pairs: seq<KeyedValue<T>>)
    ensures |CheckedValues(pairs)| == |CheckedPositions(pairs)|
    ensures forall i :: 0 <= i < |CheckedPositions(pairs)| ==>
      0 <= CheckedPositions(pairs)[i] < |pairs| && CheckedValues(pairs)[i] == pairs[CheckedPositions(pairs)[i]].ItemValue
    decreases |pairs|
  {
    if pairs != [] {
      var n := |pairs| - 1;
      var init := pairs[..n];
      CheckedValuesInOrder(init);
      CheckedValuesSnoc(pairs);
      var vs, ps := CheckedValues(init), CheckedPositions(init);
      var vs', ps' := CheckedValues(pairs), CheckedPositions(pairs);
      assert |vs'| == |ps'|;
      forall i | 0 <= i < |ps'|
        ensures 0 <= ps'[i] < |pairs| && vs'[i] == pairs[ps'[i]].ItemValue
      {
        if i < |ps| {
          assert ps'[i] == ps[i] && vs'[i] == vs[i] && init[ps[i]] == pairs[ps[i]];
        }
      }
    }
  }

  /** One unfolding of `CheckedValues`. */
  lemma CheckedValuesSnoc<T>(pairs: seq<KeyedValue<T>>)
    requires pairs != []
    ensures var n := |pairs| - 1;
      CheckedValues(pairs) == CheckedValues(pairs[..n]) + (if pairs[n].Checked then [pairs[n].ItemValue] else [])
  {
  }

  /** The first highlighted row. */
  function FirstSelected(rows: seq<Row>): (r: Option<int>)
    ensures r.None? <==> forall i :: 0 <= i < |rows| ==> !rows[i].Selected
    ensures r.Some? ==>
      && 0 <= r.value < |rows| && rows[r.value].Selected
      && forall i :: 0 <= i < r.value ==> !rows[i].Selected
    decreases |rows|
  {
    if rows == [] then None
    else if rows[0].Selected then Some(0)
    else
      var r := FirstSelected(rows[1..]);
      assert forall i :: 1 <= i < |rows| ==> rows[1..][i - 1] == rows[i];
      if r.None? then None else Some(r.value + 1)
  }

  // ---------------------------------------------------------------------------
  // Properties of the specification functions
  // ---------------------------------------------------------------------------

  /** Pair `p` is the `i`-th visible pair. */
  lemma VisibleIndexOf<T>(pairs: seq<KeyedValue<T>>, p: int) returns (i: int)
    requires 0 <= p < |pairs| && pairs[p].Visible
    ensures 0 <= i < |VisiblePositions(pairs)| && VisiblePositions(pairs)[i] == p
  {
    var vp := VisiblePositions(pairs);
    VisiblePositionsComplete(pairs);
    assert p in vp;
    i :| 0 <= i < |vp| && vp[i] == p;
  }

  /** Copying the displayed rows straight back changes nothing. */
  lemma SyncDisplayedIsIdentity<T>(pairs: seq<KeyedValue<T>>)
    ensures SyncChecks(pairs, DisplayedRows(pairs), VisiblePositions(pairs)) == pairs
  {
    var rows, vp := DisplayedRows(pairs), VisiblePositions(pairs);
    assert Distinct(vp, |rows|) by { VisiblePositionsComplete(pairs); }
    SyncChecksCopies(pairs, rows, vp);
    var r := SyncChecks(pairs, rows, vp);
    forall j | 0 <= j < |pairs|
      ensures r[j] == pairs[j]
    {
      if pairs[j].Visible {
        var i := VisibleIndexOf(pairs, j);
        assert r[j].Checked == rows[i].Checked == pairs[j].Checked;
      }
    }
  }

  /** A filter change on the pair list: sync the checkboxes, then set every pair's visibility. */
  function FilteredPairs<T>(pairs: seq<KeyedValue<T>>, rows: seq<Row>, vis: seq<int>, filter: string, lower: char -> char): seq<KeyedValue<T>>
  {
    ApplyFilter(SyncChecks(pairs, rows, vis), filter, lower)
  }

  /**
   * Applying the same filter text twice in a row: the second change, starting
   * from the rows and indices the first one displayed, leaves the pairs (and
   * so the rows and indices) exactly as the first one did.
   */
  lemma FilterTwiceIsFilterOnce<T>(pairs: seq<KeyedValue<T>>, rows: seq<Row>, vis: seq<int>, filter: string, lower: char -> char)
    ensures var once := FilteredPairs(pairs, rows, vis, filter, lower);
      FilteredPairs(once, DisplayedRows(once), VisiblePositions(once), filter, lower) == once
  {
    var once := FilteredPairs(pairs, rows, vis, filter, lower);
    SyncDisplayedIsIdentity(once);
  }

  /**
   * A pair that no displayed row points at keeps its check flag through a
   * sync, so check all / uncheck all on the displayed rows never reaches it.
   */
  lemma HiddenPairKeepsCheck<T>(pairs: seq<KeyedValue<T>>, rows: seq<Row>, vis: seq<int>, j: int)
    requires |rows| <= |vis| && forall i :: 0 <= i < |rows| ==> 0 <= vis[i] < |pairs|
    requires Distinct(vis, |rows|)
    requires 0 <= j < |pairs| && forall i :: 0 <= i < |rows| ==> vis[i] != j
    ensures SyncChecks(pairs, rows, vis)[j].Checked == pairs[j].Checked
  {
    SyncChecksCopies(pairs, rows, vis);
  }

  /** Every row checked (and highlighted) when `flag`, or unchecked (and unhighlighted). */
  function SetAllRows(rows: seq<Row>, flag: bool): (r: seq<Row>)
    ensures |r| == |rows|
    ensures forall i :: 0 <= i < |r| ==> r[i].Key == rows[i].Key && r[i].Checked == flag && r[i].Selected == flag
  {
    seq(|rows|, i requires 0 <= i < |rows| => rows[i].(Checked := flag, Selected := flag))
  }

  /**
   * Check all (or uncheck all), then clear the filter: every pair becomes
   * visible; a pair that was displayed takes the flag, a hidden one keeps
   * its own check.
   */
  lemma SetAllThenClearFilter<T>(pairs: seq<KeyedValue<T>>, rows: seq<Row>, vis: seq<int>, flag: bool, lower: char -> char)
    requires Shows(pairs, rows, vis)
    ensures var r := FilteredPairs(pairs, SetAllRows(rows, flag), vis, "", lower);
      && |r| == |pairs|
      && forall j :: 0 <= j < |pairs| ==>
        r[j].Visible && r[j].Checked == (if pairs[j].Visible then flag else pairs[j].Checked)
  {
    var rows' := SetAllRows(rows, flag);
    ShowsInRange(pairs, rows, vis);
    SyncChecksCopies(pairs, rows', vis);
    var synced := SyncChecks(pairs, rows', vis);
    forall j | 0 <= j < |pairs|
      ensures synced[j].Checked == (if pairs[j].Visible then flag else pairs[j].Checked)
    {
      if pairs[j].Visible {
        var i := VisibleIndexOf(pairs, j);
        assert vis[i] == vis[..|rows|][i];
      } else {
        forall i | 0 <= i < |rows'|
          ensures vis[i] != j
        {
          assert vis[i] == vis[..|rows|][i];
        }
      }
    }
  }

  /** Syncing changes only check flags, so the visible positions stay. */
  lemma SyncKeepsVisibility<T>(pairs: seq<KeyedValue<T>>, rows: seq<Row>, vis: seq<int>)
    ensures VisiblePositions(SyncChecks(pairs, rows, vis)) == VisiblePositions(pairs)
  {
    SameVisibility(pairs, SyncChecks(pairs, rows, vis));
  }

  /** Lists with the same visibility flags have the same visible positions. */
  lemma {:induction false} SameVisibility<T>(a: seq<KeyedValue<T>>, b: seq<KeyedValue<T>>)
    requires |a| == |b| && forall j :: 0 <= j < |a| ==> a[j].Visible == b[j].Visible
    ensures VisiblePositions(a) == VisiblePositions(b)
    decreases |a|
  {
    if a != [] {
      SameVisibility(a[..|a| - 1], b[..|b| - 1]);
    }
  }

  /**
   * The rows show the pairs through `vis`: every pair knows its own
   * position, and displayed row `i` is pair `vis[i]`, the `i`-th visible pair.
   */
  ghost predicate Shows<T>(pairs: seq<KeyedValue<T>>, rows: seq<Row>, vis: seq<int>) {
    && (forall j :: 0 <= j < |pairs| ==> pairs[j].ItemIndex == j)
    && |rows| == |VisiblePositions(pairs)| <= |vis|
    && vis[..|rows|] == VisiblePositions(pairs)
    && forall i :: 0 <= i < |rows| ==> rows[i].Key == pairs[vis[i]].ItemKey
  }

  /** Editing the rows' checkboxes or highlights, keeping their keys, keeps them showing the pairs. */
  lemma RowEditKeepsShows<T>(pairs: seq<KeyedValue<T>>, rows: seq<Row>, rows': seq<Row>, vis: seq<int>)
    requires Shows(pairs, rows, vis)
    requires |rows'| == |rows| && forall i :: 0 <= i < |rows| ==> rows'[i].Key == rows[i].Key
    ensures Shows(pairs, rows', vis)
  {
  }

  /** Under `Shows`, every displayed row points at its own pair. */
  lemma ShowsInRange<T>(pairs: seq<KeyedValue<T>>, rows: seq<Row>, vis: seq<int>)
    requires Shows(pairs, rows, vis)
    ensures |rows| <= |vis| && forall i :: 0 <= i < |rows| ==> 0 <= vis[i] < |pairs|
    ensures Distinct(vis, |rows|)
  {
    VisiblePositionsComplete(pairs);
    assert forall i :: 0 <= i < |rows| ==> vis[i] == vis[..|rows|][i];
  }

  /** A sync keeps the rows showing the pairs. */
  lemma SyncKeepsShows<T>(pairs: seq<KeyedValue<T>>, rows: seq<Row>, vis: seq<int>)
    requires Shows(pairs, rows, vis)
    ensures |rows| <= |vis| && forall i :: 0 <= i < |rows| ==> 0 <= vis[i] < |pairs|
    ensures Shows(SyncChecks(pairs, rows, vis), rows, vis)
  {
    ShowsInRange(pairs, rows, vis);
    SyncKeepsVisibility(pairs, rows, vis);
    var r := SyncChecks(pairs, rows, vis);
    assert forall j :: 0 <= j < |pairs| ==> r[j].ItemIndex == pairs[j].ItemIndex && r[j].ItemKey == pairs[j].ItemKey;
  }

  /** Rebuilt rows and indices show the pairs. */
  lemma DisplayedShows<T>(pairs: seq<KeyedValue<T>>)
    requires forall j :: 0 <= j < |pairs| ==> pairs[j].ItemIndex == j
    ensures Shows(pairs, DisplayedRows(pairs), VisiblePositions(pairs))
  {
    assert VisiblePositions(pairs)[..|DisplayedRows(pairs)|] == VisiblePositions(pairs);
  }

  /** Every position of a list whose pairs are all visible. */
  lemma {:induction false} AllVisible<T>(pairs: seq<KeyedValue<T>>)
    requires forall j :: 0 <= j < |pairs| ==> pairs[j].Visible
    ensures VisiblePositions(pairs) == Range(|pairs|)
    decreases |pairs|
  {
    if pairs != [] {
      var n := |pairs| - 1;
      var init := pairs[..n];
      assert forall j :: 0 <= j < |init| ==> init[j].Visible by {
        assert forall j :: 0 <= j < |init| ==> init[j] == pairs[j];
      }
      AllVisible(init);
      assert VisiblePositions(pairs) == VisiblePositions(init) + [n];
      assert Range(|pairs|) == Range(n) + [n];
    }
  }

  /** Fresh pairs are all displayed, unchecked, under the indices `0 .. |keys|-1`. */
  lemma InitialDisplay<T>(keys: seq<string>, values: seq<T>, pairs: seq<KeyedValue<T>>)
    requires IsFormPairs(keys, values, pairs)
    ensures |DisplayedRows(pairs)| == |pairs|
    ensures forall i :: 0 <= i < |pairs| ==> !DisplayedRows(pairs)[i].Checked && DisplayedRows(pairs)[i].Key == keys[i]
    ensures Shows(pairs, DisplayedRows(pairs), Range(|keys|))
  {
    AllVisible(pairs);
    assert Range(|keys|)[..|pairs|] == Range(|pairs|);
  }

  /** `0, 1, ..., n-1`. */
  function Range(n: nat): (r: seq<int>)
    ensures |r| == n && forall i :: 0 <= i < n ==> r[i] == i
  {
    if n == 0 then [] else Range(n - 1) + [n - 1]
  }

  /** The loop of `UpdateCheckedValues`: row `i`'s checkbox goes to pair `vis[i]`. */
  method CopyChecks<T>(pairs: seq<KeyedValue<T>>, rows: seq<Row>, vis: seq<int>) returns (r: seq<KeyedValue<T>>)
    requires |rows| <= |vis| && forall i :: 0 <= i < |rows| ==> 0 <= vis[i] < |pairs|
    ensures r == SyncChecks(pairs, rows, vis)
  {
    r := pairs;
    for i := 0 to |rows|
      invariant r == SyncChecks(pairs, rows[..i], vis)
    {
      assert rows[..i + 1][..i] == rows[..i];
      var pairIndex := vis[i];
      r := r[pairIndex := r[pairIndex].(Checked := rows[i].Checked)];
    }
    assert rows[..|rows|] == rows;
  }

  // ---------------------------------------------------------------------------
  // The form
  // ---------------------------------------------------------------------------

  class BaseListViewForm<T> {
    const Title: string
    const MultiSelect: bool
    /** The culture's lowering of one character, used by `ToLower`. */
    const Lower: char -> char
    var FormPairs: seq<KeyedValue<T>>
    var FilterString: string
    var VisibleIndices: seq<int>
    var Rows: seq<Row>
    var Tag: Tag<T>
    var DialogResult: DialogResult
    var Closed: bool

    /**
     * The form's invariant: every pair knows its own position, and displayed
     * row `i` is pair `VisibleIndices[i]`, the `i`-th visible pair.
     */
    ghost predicate Valid()
      reads this
    {
      Shows(FormPairs, Rows, VisibleIndices)
    }

    /**
     * The constructor: pairs keys with values, clears the filter, assumes
     * cancellation, lists `0 .. |keys|-1` as visible and displays every pair,
     * unchecked.
     */
    constructor (keys: seq<string>, values: seq<T>, title: string, multiSelect: bool, lower: char -> char)
      ensures Title == title && MultiSelect == multiSelect && Lower == lower
      ensures IsFormPairs(keys, values, FormPairs) && FilterString == ""
      ensures VisibleIndices == Range(|keys|)
      ensures Rows == DisplayedRows(FormPairs) && |Rows| == |FormPairs|
      ensures forall i :: 0 <= i < |Rows| ==> !Rows[i].Checked && Rows[i].Key == keys[i]
      ensures Tag == NullTag && DialogResult == Cancel && !Closed
      ensures Valid()
    {
      Title := title;
      MultiSelect := multiSelect;
      Lower := lower;
      FilterString := "";
      Tag := NullTag;
      DialogResult := Cancel;
      Closed := false;
      Rows := [];
      var pairs := CombineAsFormPairs(keys, values);
      FormPairs := pairs;
      var visible: seq<int> := [];
      for i := 0 to |keys|
        invariant visible == Range(i)
      {
        visible := visible + [i];
      }
      VisibleIndices := visible;
      new;
      LoadShownItems();
      InitialDisplay(keys, values, FormPairs);
    }

    /** `LoadShownItems()`: rebuilds the rows from the visible pairs. */
    method LoadShownItems()
      modifies this`Rows
      ensures Rows == DisplayedRows(FormPairs)
    {
      Rows := [];
      for j := 0 to |FormPairs|
        invariant Rows == DisplayedRows(FormPairs[..j])
      {
        var pair := FormPairs[j];
        assert FormPairs[..j + 1][..j] == FormPairs[..j];
        if pair.Visible {
          Rows := Rows + [Row(pair.ItemKey, pair.Checked, false)];
        }
      }
      assert FormPairs[..|FormPairs|] == FormPairs;
    }

    /** `PassesTextFilter(text)` against the current filter string. */
    function PassesTextFilter(text: string): (b: bool)
      reads this
      ensures FilterString == [] ==> b
      ensures b <==> FilterString == [] || exists k :: OccursAt(ToLower(text, Lower), FilterString, k)
    {
      PassesFilter(FilterString, text, Lower)
    }

    /** `UpdateCheckedValues()`: copies each displayed checkbox to the pair it shows. */
    method UpdateCheckedValues()
      requires Valid()
      modifies this`FormPairs
      ensures FormPairs == SyncChecks(old(FormPairs), Rows, VisibleIndices)
      ensures Valid()
    {
      ShowsInRange(FormPairs, Rows, VisibleIndices);
      SyncKeepsShows(FormPairs, Rows, VisibleIndices);
      FormPairs := CopyChecks(FormPairs, Rows, VisibleIndices);
    }

    /** The user clicks row `i`'s checkbox. */
    method ToggleRow(i: int)
      requires 0 <= i < |Rows|
      modifies this`Rows
      ensures Rows == old(Rows)[i := old(Rows)[i].(Checked := !old(Rows)[i].Checked)]
    {
      Rows := Rows[i := Rows[i].(Checked := !Rows[i].Checked)];
    }

    /** The user highlights row `i` (a single-selection list view highlights one row). */
    method HighlightRow(i: int)
      requires 0 <= i < |Rows|
      modifies this`Rows
      ensures |Rows| == |old(Rows)|
      ensures forall j :: 0 <= j < |Rows| ==> Rows[j] == old(Rows)[j].(Selected := j == i)
    {
      var rows := Rows;
      Rows := seq(|rows|, j requires 0 <= j < |rows| => rows[j].(Selected := j == i));
    }

    /**
     * `txtFilter_TextChanged`: syncs the checkboxes, lowers the new text into
     * the filter, sets every pair's visibility, lists the passing pairs'
     * indices and redisplays.
     */
    method TextChanged(text: string)
      requires Valid()
      modifies this`FormPairs, this`FilterString, this`VisibleIndices, this`Rows
      ensures FilterString == ToLower(text, Lower)
      ensures FormPairs == FilteredPairs(old(FormPairs), old(Rows), old(VisibleIndices), FilterString, Lower)
      ensures VisibleIndices == VisiblePositions(FormPairs)
      ensures Rows == DisplayedRows(FormPairs)
      ensures Valid()
    {
      UpdateCheckedValues();
      FilterString := ToLower(text, Lower);
      assert forall k :: 0 <= k < |FormPairs| ==> FormPairs[k].ItemIndex == k;
      FilterKeepsIndices(FormPairs, FilterString, Lower);
      SetVisibility();
      LoadShownItems();
      DisplayedShows(FormPairs);
    }

    /**
     * The loop of `txtFilter_TextChanged`: sets each pair's visibility by the
     * filter and lists the `ItemIndex` of every passing pair.
     */
    method SetVisibility()
      requires forall k :: 0 <= k < |FormPairs| ==> FormPairs[k].ItemIndex == k
      modifies this`FormPairs, this`VisibleIndices
      ensures FormPairs == ApplyFilter(old(FormPairs), FilterString, Lower)
      ensures VisibleIndices == VisiblePositions(FormPairs)
    {
      VisibleIndices := [];
      ghost var synced := FormPairs;
      ghost var target := ApplyFilter(synced, FilterString, Lower);
      for j := 0 to |FormPairs|
        invariant |FormPairs| == |synced|
        invariant forall k :: 0 <= k < j ==> FormPairs[k] == target[k]
        invariant forall k :: j <= k < |FormPairs| ==> FormPairs[k] == synced[k]
        invariant VisibleIndices == VisiblePositions(target[..j])
      {
        var pair := FormPairs[j];
        var passesFilter := PassesTextFilter(pair.ItemKey);
        FormPairs := FormPairs[j := pair.(Visible := passesFilter)];
        assert target[..j + 1][..j] == target[..j];
        if passesFilter {
          VisibleIndices := VisibleIndices + [pair.ItemIndex];
        }
      }
      assert FormPairs == target;
      assert target[..|target|] == target;
    }

    /** `btnCheckAll_Click`: checks and highlights every displayed row. */
    method CheckAll()
      modifies this`Rows
      ensures Rows == SetAllRows(old(Rows), true)
    {
      for i := 0 to |Rows|
        invariant |Rows| == |old(Rows)|
        invariant forall k :: 0 <= k < i ==> Rows[k] == old(Rows)[k].(Checked := true, Selected := true)
        invariant forall k :: i <= k < |Rows| ==> Rows[k] == old(Rows)[k]
      {
        Rows := Rows[i := Rows[i].(Checked := true, Selected := true)];
      }
    }

    /** `btnUncheckAll_Click`: unchecks and unhighlights every displayed row. */
    method UncheckAll()
      modifies this`Rows
      ensures Rows == SetAllRows(old(Rows), false)
    {
      for i := 0 to |Rows|
        invariant |Rows| == |old(Rows)|
        invariant forall k :: 0 <= k < i ==> Rows[k] == old(Rows)[k].(Checked := false, Selected := false)
        invariant forall k :: i <= k < |Rows| ==> Rows[k] == old(Rows)[k]
      {
        Rows := Rows[i := Rows[i].(Checked := false, Selected := false)];
      }
    }

    /**
     * `btnSelect_Click`: syncs, then in multi-select tags the checked values
     * (OK only if there are any); in single-select tags the value behind the
     * first highlighted row (OK), if any. The form closes either way.
     */
    method ClickSelect()
      requires Valid()
      modifies this`FormPairs, this`Tag, this`DialogResult, this`Closed
      ensures FormPairs == SyncChecks(old(FormPairs), Rows, VisibleIndices)
      ensures Valid() && forall i :: 0 <= i < |Rows| ==> 0 <= VisibleIndices[i] < |FormPairs|
      ensures MultiSelect && |CheckedValues(FormPairs)| > 0 ==>
        Tag == Multiple(CheckedValues(FormPairs)) && DialogResult == OK
      ensures !MultiSelect && FirstSelected(Rows).Some? ==>
        Tag == Single(FormPairs[VisibleIndices[FirstSelected(Rows).value]].ItemValue) && DialogResult == OK
      ensures (if MultiSelect then |CheckedValues(FormPairs)| == 0 else FirstSelected(Rows).None?) ==>
        Tag == old(Tag) && DialogResult == old(DialogResult)
      ensures Closed
    {
      UpdateCheckedValues();
      ShowsInRange(FormPairs, Rows, VisibleIndices);
      if MultiSelect {
        var checkedValues := CollectChecked();
        if |checkedValues| > 0 {
          Tag := Multiple(checkedValues);
          DialogResult := OK;
        }
      } else {
        var selected := FirstSelected(Rows);
        if selected.Some? {
          var selectedIndex := selected.value;
          var valueIndex := VisibleIndices[selectedIndex];
          Tag := Single(FormPairs[valueIndex].ItemValue);
          DialogResult := OK;
        }
      }
      Closed := true;
    }

    /** The `Where(Checked).Select(ItemValue)` query of `btnSelect_Click`. */
    method CollectChecked() returns (checkedValues: seq<T>)
      ensures checkedValues == CheckedValues(FormPairs)
    {
      checkedValues := [];
      for j := 0 to |FormPairs|
        invariant checkedValues == CheckedValues(FormPairs[..j])
      {
        assert FormPairs[..j + 1][..j] == FormPairs[..j];
        if FormPairs[j].Checked {
          checkedValues := checkedValues + [FormPairs[j].ItemValue];
        }
      }
      assert FormPairs[..|FormPairs|] == FormPairs;
    }

    /** `btnCancel_Click`: closes; the tag and result keep their values. */
    method ClickCancel()
      modifies this`Closed
      ensures Closed
    {
      Closed := true;
    }
  }
}
