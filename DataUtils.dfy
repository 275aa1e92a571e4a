/**
 * `DataUtils`: positional pairing of keys and values, small list helpers, and
 * the `KeyedMatrix` that buckets caller-owned `KeyedItem` objects by group key.
 */
module DataUtils {
  import opened Wrappers
  import opened HostTypes
  import opened Strings
  import opened StringOrder

  // ---------------------------------------------------------------------------
  // KeyedValue and pairing
  // ---------------------------------------------------------------------------

  /** `KeyedValue<T>`: a value with its display key, origin index and form flags. */
  datatype KeyedValue<T> = KeyedValue(ItemValue: T, ItemKey: string, ItemIndex: int, Checked: bool, Visible: bool)

  /** `KeyedValue(itemValue, itemKey)`: the two-argument constructor, which leaves the index unset. */
  function UnindexedValue<T>(itemValue: T, itemKey: string): (kv: KeyedValue<T>)
    ensures kv.ItemValue == itemValue && kv.ItemKey == itemKey
    ensures kv.ItemIndex == -1 && !kv.Checked && kv.Visible
  {
    KeyedValue(itemValue, itemKey, -1, false, true)
  }

  function Min(a: int, b: int): int {
    if a < b then a else b
  }

  /** What `CombineAsFormPairs(keys, values)` returns: unchecked, visible pairs, indexed by position. */
  ghost predicate IsFormPairs<T>(keys: seq<string>, values: seq<T>, pairs: seq<KeyedValue<T>>) {
    && |pairs| == Min(|keys|, |values|)
    && forall i :: 0 <= i < |pairs| ==> pairs[i] == KeyedValue(values[i], keys[i], i, false, true)
  }

  /** `CombineAsFormPairs`: zips keys and values up to the shorter length. */
  method CombineAsFormPairs<T>(keys: seq<string>, values: seq<T>) returns (formPairs: seq<KeyedValue<T>>)
    ensures IsFormPairs(keys, values, formPairs)
    ensures keys == [] || values == [] ==> formPairs == []
  {
    var pairCount := if |keys| > |values| then |values| else |keys|;
    formPairs := [];
    if pairCount == 0 {
      return;
    }
    for i := 0 to pairCount
      invariant |formPairs| == i
      invariant forall j :: 0 <= j < i ==> formPairs[j] == KeyedValue(values[j], keys[j], j, false, true)
    {
      formPairs := formPairs + [KeyedValue(values[i], keys[i], i, false, true)];
    }
  }

  /** `Positize(integers, replaceWith)`: every negative entry is replaced, the others are kept. */
  function Positize(integers: seq<int>, replaceWith: int): (r: seq<int>)
    ensures |r| == |integers|
    ensures forall i :: 0 <= i < |r| && integers[i] >= 0 ==> r[i] == integers[i]
    ensures forall i :: 0 <= i < |r| && integers[i] < 0 ==> r[i] == replaceWith
    ensures replaceWith >= 0 ==> forall i :: 0 <= i < |r| ==> r[i] >= 0
  {
    seq(|integers|, i requires 0 <= i < |integers| => if integers[i] > -1 then integers[i] else replaceWith)
  }

  /** `List.IndexOf`: the first position of `k`, or -1. */
  function IndexOf(keys: seq<string>, k: string): (i: int)
    ensures i == -1 <==> k !in keys
    ensures i != -1 ==> 0 <= i < |keys| && keys[i] == k
    ensures forall j :: 0 <= j < i ==> keys[j] != k
    decreases |keys|
  {
    if keys == [] then -1
    else if keys[0] == k then 0
    else
      var r := IndexOf(keys[1..], k);
      if r == -1 then -1 else r + 1
  }

  /** `FindItemAtKey(findKey, values, keys)`; `dflt` stands for `default(T)`. */
  function FindItemAtKey<T>(findKey: string, values: seq<T>, keys: seq<string>, dflt: T): (r: T)
    ensures findKey in keys && IndexOf(keys, findKey) < |values| ==> r == values[IndexOf(keys, findKey)]
    ensures findKey !in keys || IndexOf(keys, findKey) >= |values| ==> r == dflt
  {
    if findKey in keys then
      var ind := IndexOf(keys, findKey);
      if ind < |values| then values[ind] else dflt
    else dflt
  }

  /** With distinct keys, looking a key up undoes the pairing: key `i` finds value `i`. */
  lemma FindItemAtKeyInvertsPairing<T>(keys: seq<string>, values: seq<T>, i: int, dflt: T)
    requires forall a, b :: 0 <= a < b < |keys| ==> keys[a] != keys[b]
    requires 0 <= i < Min(|keys|, |values|)
    ensures FindItemAtKey(keys[i], values, keys, dflt) == values[i]
  {
    var k := IndexOf(keys, keys[i]);
    assert k == i;
  }

  /** Source position `p` is the last one holding key `k`. */
  ghost predicate LastWithKey<S, K>(source: seq<S>, keySelector: S -> K, p: int) {
    0 <= p < |source| && forall q :: p < q < |source| ==> keySelector(source[q]) != keySelector(source[p])
  }

  /** `QuickDictionary`: assigns entry by entry, so the last element with a key wins. */
  method QuickDictionary<S, K, V>(source: seq<S>, keySelector: S -> K, valueSelector: S -> V) returns (dict: map<K, V>)
    ensures forall k :: k in dict <==> exists p :: 0 <= p < |source| && keySelector(source[p]) == k
    ensures forall p :: LastWithKey(source, keySelector, p) ==>
      keySelector(source[p]) in dict && dict[keySelector(source[p])] == valueSelector(source[p])
  {
    dict := map[];
    for n := 0 to |source|
      invariant forall k :: k in dict <==> exists p :: 0 <= p < n && keySelector(source[p]) == k
      invariant forall p :: LastWithKey(source[..n], keySelector, p) ==>
        keySelector(source[p]) in dict && dict[keySelector(source[p])] == valueSelector(source[p])
    {
      dict := dict[keySelector(source[n]) := valueSelector(source[n])];
      forall p | LastWithKey(source[..n + 1], keySelector, p)
        ensures keySelector(source[p]) in dict && dict[keySelector(source[p])] == valueSelector(source[p])
      {
        if p < n {
          assert LastWithKey(source[..n], keySelector, p);
        }
      }
    }
    assert source[..|source|] == source;
  }

  // ---------------------------------------------------------------------------
  // KeyedItem and KeyedMatrix
  // ---------------------------------------------------------------------------

  /**
   * `KeyedItem<T>`: an item and its group, with indices the matrix rewrites.
   * Values and keys are never reassigned by the core, so they are constants here.
   */
  class KeyedItem<T> {
    const ItemValue: T
    const GroupValue: T
    const ItemKey: string
    const GroupKey: string
    var ItemIndex: int
    var GroupIndex: int
    var IndexKey: string
    var Checked: bool
    var Visible: bool

    /** The six-argument constructor; `IndexKey` is `"{groupIndex}\t{itemIndex}"`. */
    constructor (itemValue: T, itemKey: string, itemIndex: int, groupValue: T, groupKey: string, groupIndex: int)
      ensures ItemValue == itemValue && ItemKey == itemKey && ItemIndex == itemIndex
      ensures GroupValue == groupValue && GroupKey == groupKey && GroupIndex == groupIndex
      ensures IndexKey == IntToString(groupIndex) + "\t" + IntToString(itemIndex)
      ensures !Checked && Visible
    {
      ItemValue, ItemKey, ItemIndex := itemValue, itemKey, itemIndex;
      GroupValue, GroupKey, GroupIndex := groupValue, groupKey, groupIndex;
      IndexKey := IntToString(groupIndex) + "\t" + IntToString(itemIndex);
      Checked, Visible := false, true;
    }
  }

  /** The items whose group key's first position in `keys` is `g`, in iteration order. */
  ghost function BucketOf<T>(items: seq<KeyedItem<T>>, keys: seq<string>, g: int): seq<KeyedItem<T>>
    decreases |items|
  {
    if items == [] then []
    else
      var last := items[|items| - 1];
      BucketOf(items[..|items| - 1], keys, g) + (if IndexOf(keys, last.GroupKey) == g then [last] else [])
  }

  /** The items whose group key is not among `keys`, in iteration order. */
  ghost function UnkeyedOf<T>(items: seq<KeyedItem<T>>, keys: seq<string>): seq<KeyedItem<T>>
    decreases |items|
  {
    if items == [] then []
    else
      var last := items[|items| - 1];
      UnkeyedOf(items[..|items| - 1], keys) + (if last.GroupKey in keys then [] else [last])
  }

  /** One bucket per key. */
  ghost function Buckets<T>(items: seq<KeyedItem<T>>, keys: seq<string>): (m: seq<seq<KeyedItem<T>>>)
    ensures |m| == |keys|
  {
    seq(|keys|, g requires 0 <= g < |keys| => BucketOf(items, keys, g))
  }

  /** The multiset union of all buckets. */
  ghost function Flatten<X>(m: seq<seq<X>>): multiset<X>
    decreases |m|
  {
    if m == [] then multiset{} else Flatten(m[..|m| - 1]) + multiset(m[|m| - 1])
  }

  /** An item stored at place `(g, j)` of `m` is counted at least once by `Flatten`. */
  lemma {:induction false} InFlatten<X>(m: seq<seq<X>>, g: int, j: int)
    requires 0 <= g < |m| && 0 <= j < |m[g]|
    ensures Flatten(m)[m[g][j]] >= 1
    decreases |m|
  {
    if g < |m| - 1 {
      InFlatten(m[..|m| - 1], g, j);
    } else {
      assert m[g][j] in multiset(m[g]);
    }
  }

  lemma {:induction false} FlattenUpdate<X>(m: seq<seq<X>>, g: int, y: X)
    requires 0 <= g < |m|
    ensures Flatten(m[g := m[g] + [y]]) == Flatten(m) + multiset{y}
    decreases |m|
  {
    var m' := m[g := m[g] + [y]];
    if g == |m| - 1 {
      assert m'[..|m'| - 1] == m[..|m| - 1];
    } else {
      assert m'[..|m'| - 1] == m[..|m| - 1][g := m[g] + [y]];
      FlattenUpdate(m[..|m| - 1], g, y);
    }
  }

  lemma {:induction false} FlattenEmpty<X>(m: seq<seq<X>>)
    requires forall g :: 0 <= g < |m| ==> m[g] == []
    ensures Flatten(m) == multiset{}
    decreases |m|
  {
    if m != [] {
      FlattenEmpty(m[..|m| - 1]);
    }
  }

  /** One more item extends exactly the bucket of its key, or the unkeyed items. */
  lemma BucketsSnoc<T>(init: seq<KeyedItem<T>>, y: KeyedItem<T>, keys: seq<string>)
    ensures y.GroupKey in keys ==>
      var g := IndexOf(keys, y.GroupKey);
      Buckets(init + [y], keys) == Buckets(init, keys)[g := Buckets(init, keys)[g] + [y]]
    ensures y.GroupKey !in keys ==> Buckets(init + [y], keys) == Buckets(init, keys)
    ensures UnkeyedOf(init + [y], keys) == UnkeyedOf(init, keys) + (if y.GroupKey in keys then [] else [y])
  {
    var items := init + [y];
    assert items[..|items| - 1] == init;
    var b0, b1 := Buckets(init, keys), Buckets(items, keys);
    var g := IndexOf(keys, y.GroupKey);
    var b2 := if g == -1 then b0 else b0[g := b0[g] + [y]];
    forall h | 0 <= h < |keys|
      ensures b1[h] == b2[h]
    {
      assert b1[h] == BucketOf(items, keys, h);
      assert b0[h] == BucketOf(init, keys, h);
    }
    assert b1 == b2;
  }

  /**
   * The matrix is a partition of the input: every item occurrence lands in
   * exactly one bucket or among the unkeyed items.
   */
  lemma {:induction false} BucketsPartition<T>(items: seq<KeyedItem<T>>, keys: seq<string>)
    ensures Flatten(Buckets(items, keys)) + multiset(UnkeyedOf(items, keys)) == multiset(items)
    decreases |items|
  {
    if items == [] {
      FlattenEmpty(Buckets(items, keys));
    } else {
      var init, y := items[..|items| - 1], items[|items| - 1];
      assert items == init + [y];
      var b0, u0 := Buckets(init, keys), UnkeyedOf(init, keys);
      assert Flatten(b0) + multiset(u0) == multiset(init) by { BucketsPartition(init, keys); }
      assert multiset(items) == multiset(init) + multiset{y};
      if y.GroupKey in keys {
        var g := IndexOf(keys, y.GroupKey);
        assert Buckets(items, keys) == b0[g := b0[g] + [y]] && UnkeyedOf(items, keys) == u0 by {
          BucketsSnoc(init, y, keys);
        }
        assert Flatten(b0[g := b0[g] + [y]]) == Flatten(b0) + multiset{y} by { FlattenUpdate(b0, g, y); }
      } else {
        assert Buckets(items, keys) == b0 && UnkeyedOf(items, keys) == u0 + [y] by {
          BucketsSnoc(init, y, keys);
        }
      }
    }
  }

  /** With repeated keys only the first copy gets items: the later buckets stay empty. */
  lemma {:induction false} DuplicateKeyBucketEmpty<T>(items: seq<KeyedItem<T>>, keys: seq<string>, g: int, h: int)
    requires 0 <= g < h < |keys| && keys[g] == keys[h]
    ensures BucketOf(items, keys, h) == []
    decreases |items|
  {
    if items != [] {
      DuplicateKeyBucketEmpty(items[..|items| - 1], keys, g, h);
    }
  }

  /** `x` sits at place `(g, i)` of `m`, and at no later place of bucket `g`. */
  ghost predicate LastAt<X>(m: seq<seq<X>>, x: X, g: int, i: int) {
    && 0 <= g < |m| && 0 <= i < |m[g]| && m[g][i] == x
    && forall j :: i < j < |m[g]| ==> m[g][j] != x
  }

  /** Each keyed item of `items` carries its group index and its (last) place in its bucket. */
  ghost predicate Placed<T>(m: seq<seq<KeyedItem<T>>>, keys: seq<string>, items: seq<KeyedItem<T>>)
    reads items
  {
    forall x :: x in items && x.GroupKey in keys ==>
      x.GroupIndex == IndexOf(keys, x.GroupKey) && LastAt(m, x, x.GroupIndex, x.ItemIndex)
  }

  /**
   * The bucketing loop of the `KeyedMatrix` constructor: each item whose
   * group key is a key is appended to the bucket of that key's first
   * occurrence and told its group index and place; the others are collected.
   */
  method Distribute<T>(keys: seq<string>, formItems: seq<KeyedItem<T>>)
    returns (matrixOut: seq<seq<KeyedItem<T>>>, unkeyedItems: seq<KeyedItem<T>>)
    modifies formItems`ItemIndex, formItems`GroupIndex
    ensures matrixOut == Buckets(formItems, keys)
    ensures unkeyedItems == UnkeyedOf(formItems, keys)
    ensures Placed(matrixOut, keys, formItems)
    ensures forall x :: x in formItems && x.GroupKey !in keys ==>
      x.ItemIndex == old(x.ItemIndex) && x.GroupIndex == old(x.GroupIndex)
  {
    matrixOut := [];
    unkeyedItems := [];
    for i := 0 to |keys|
      invariant |matrixOut| == i && forall g :: 0 <= g < i ==> matrixOut[g] == []
    {
      matrixOut := matrixOut + [[]];
    }
    for n := 0 to |formItems|
      invariant Distributed(matrixOut, unkeyedItems, keys, formItems[..n])
      invariant forall x :: x in formItems && (x !in formItems[..n] || x.GroupKey !in keys) ==>
        x.ItemIndex == old(x.ItemIndex) && x.GroupIndex == old(x.GroupIndex)
    {
      var item := formItems[n];
      assert formItems[..n + 1] == formItems[..n] + [item];
      matrixOut, unkeyedItems := DistributeOne(item, keys, formItems[..n], matrixOut, unkeyedItems);
    }
    assert formItems[..|formItems|] == formItems;
  }

  /** The buckets and the unkeyed items after distributing `done`, with every keyed item placed. */
  ghost predicate Distributed<T>(m: seq<seq<KeyedItem<T>>>, unkeyed: seq<KeyedItem<T>>, keys: seq<string>, done: seq<KeyedItem<T>>)
    reads done
  {
    && |m| == |keys|
    && (forall g :: 0 <= g < |keys| ==> m[g] == BucketOf(done, keys, g))
    && unkeyed == UnkeyedOf(done, keys)
    && Placed(m, keys, done)
  }

  /** The body of the bucketing loop: `item` joins the bucket of its key, or the unkeyed items. */
  method DistributeOne<T>(item: KeyedItem<T>, keys: seq<string>, ghost done: seq<KeyedItem<T>>,
                          matrixOut: seq<seq<KeyedItem<T>>>, unkeyedItems: seq<KeyedItem<T>>)
    returns (m: seq<seq<KeyedItem<T>>>, unkeyed: seq<KeyedItem<T>>)
    requires Distributed(matrixOut, unkeyedItems, keys, done)
    modifies item`ItemIndex, item`GroupIndex
    ensures Distributed(m, unkeyed, keys, done + [item])
    ensures item.GroupKey !in keys ==> item.ItemIndex == old(item.ItemIndex) && item.GroupIndex == old(item.GroupIndex)
  {
    var items := done + [item];
    assert items[..|items| - 1] == done;
    if item.GroupKey in keys {
      m := PlaceItem(item, keys, done, matrixOut);
      unkeyed := unkeyedItems;
    } else {
      m, unkeyed := matrixOut, unkeyedItems + [item];
      assert IndexOf(keys, item.GroupKey) == -1;
      assert Placed(m, keys, items) by {
        forall x | x in items && x.GroupKey in keys
          ensures x.GroupIndex == IndexOf(keys, x.GroupKey) && LastAt(m, x, x.GroupIndex, x.ItemIndex)
        {
          assert x in done;
        }
      }
    }
    forall g | 0 <= g < |keys| ensures m[g] == BucketOf(items, keys, g) {
    }
  }

  /** One step of `Distribute`: `item` joins the bucket of its key and learns its place. */
  method PlaceItem<T>(item: KeyedItem<T>, keys: seq<string>, ghost done: seq<KeyedItem<T>>, matrixOut: seq<seq<KeyedItem<T>>>)
    returns (m: seq<seq<KeyedItem<T>>>)
    requires item.GroupKey in keys && |matrixOut| == |keys|
    requires Placed(matrixOut, keys, done)
    modifies item`ItemIndex, item`GroupIndex
    ensures var g := IndexOf(keys, item.GroupKey);
      && m == matrixOut[g := matrixOut[g] + [item]]
      && item.GroupIndex == g && item.ItemIndex == |matrixOut[g]|
    ensures Placed(m, keys, done + [item])
  {
    var groupIndex := IndexOf(keys, item.GroupKey);
    var itemIndex := |matrixOut[groupIndex]|;
    item.ItemIndex := itemIndex;
    item.GroupIndex := groupIndex;
    m := matrixOut[groupIndex := matrixOut[groupIndex] + [item]];
    forall x | x in done + [item] && x.GroupKey in keys
      ensures x.GroupIndex == IndexOf(keys, x.GroupKey) && LastAt(m, x, x.GroupIndex, x.ItemIndex)
    {
      if x != item {
        assert x in done;
        assert LastAt(matrixOut, x, x.GroupIndex, x.ItemIndex);
      }
    }
  }

  /** `Flatten` of one more bucket. */
  lemma FlattenSnoc<X>(m: seq<seq<X>>, b: int)
    requires 0 <= b < |m|
    ensures Flatten(m[..b + 1]) == Flatten(m[..b]) + multiset(m[b])
  {
    assert m[..b + 1][..b] == m[..b];
  }

  /** The non-empty path of the `KeyedMatrix` constructor: sort the caller's keys when asked, then bucket the items. */
  method SortAndDistribute<T>(keys: StringList, formItems: seq<KeyedItem<T>>, sortKeys: bool, le: (string, string) -> bool)
    returns (matrixOut: seq<seq<KeyedItem<T>>>, unkeyedItems: seq<KeyedItem<T>>)
    modifies keys, formItems
    ensures keys.Items == (if sortKeys then SortedList(old(keys.Items), le) else old(keys.Items))
    ensures matrixOut == Buckets(formItems, keys.Items)
    ensures unkeyedItems == UnkeyedOf(formItems, keys.Items)
    ensures Placed(matrixOut, keys.Items, formItems)
    ensures forall x :: x in formItems && x.GroupKey !in keys.Items ==>
      x.ItemIndex == old(x.ItemIndex) && x.GroupIndex == old(x.GroupIndex)
    ensures forall x :: x in formItems ==>
      x.IndexKey == old(x.IndexKey) && x.Checked == old(x.Checked) && x.Visible == old(x.Visible)
  {
    if sortKeys {
      keys.Sort(le);
    }
    matrixOut, unkeyedItems := Distribute(keys.Items, formItems);
  }

  /** `KeyedMatrix<T>`: the group keys, one bucket of items per key, and the unkeyed items. */
  class KeyedMatrix<T> {
    var GroupKeys: StringList?
    var Matrix: Option<seq<seq<KeyedItem<T>>>>
    var UnkeyedItems: Option<seq<KeyedItem<T>>>
    var UnkeyedItemsFound: bool

    /** Every item object held by the matrix. */
    ghost function Items(): set<KeyedItem<T>>
      reads this
    {
      if Matrix.None? then {} else Objects(Matrix.value)
    }

    /** The shape the constructor leaves, as long as nobody edits the aliased key list. */
    ghost predicate Valid()
      reads this, GroupKeys
    {
      if GroupKeys == null then Matrix.None? && UnkeyedItems.None?
      else Matrix.Some? && UnkeyedItems.Some? && |Matrix.value| == |GroupKeys.Items|
    }

    /**
     * The constructor. Empty keys: nothing is set and no item is touched.
     * Otherwise the caller's key list is sorted in place (when asked) and
     * aliased, and each item lands in the bucket of the first occurrence of
     * its group key (receiving that group index and its place in the bucket)
     * or among the unkeyed items (indices untouched).
     */
    constructor (keys: StringList, formItems: seq<KeyedItem<T>>, sortKeys: bool, le: (string, string) -> bool)
      modifies keys, formItems
      ensures old(keys.Items) == [] ==>
        && GroupKeys == null && Matrix.None? && UnkeyedItems.None? && !UnkeyedItemsFound
        && keys.Items == old(keys.Items)
        && forall x :: x in formItems ==> x.ItemIndex == old(x.ItemIndex) && x.GroupIndex == old(x.GroupIndex)
      ensures old(keys.Items) != [] ==>
        && GroupKeys == keys
        && keys.Items == (if sortKeys then SortedList(old(keys.Items), le) else old(keys.Items))
        && Matrix == Some(Buckets(formItems, keys.Items))
        && UnkeyedItems == Some(UnkeyedOf(formItems, keys.Items))
        && UnkeyedItemsFound == (|UnkeyedItems.value| > 0)
        && Placed(Matrix.value, keys.Items, formItems)
        && (forall x :: x in formItems && x.GroupKey !in keys.Items ==>
              x.ItemIndex == old(x.ItemIndex) && x.GroupIndex == old(x.GroupIndex))
      ensures forall x :: x in formItems ==>
        x.IndexKey == old(x.IndexKey) && x.Checked == old(x.Checked) && x.Visible == old(x.Visible)
      ensures Valid()
    {
      GroupKeys := null;
      Matrix := None;
      UnkeyedItems := None;
      UnkeyedItemsFound := false;
      new;
      if |keys.Items| == 0 {
        return;
      }
      var matrixOut, unKeyedItems := SortAndDistribute(keys, formItems, sortKeys, le);
      GroupKeys := keys;
      Matrix := Some(matrixOut);
      UnkeyedItems := Some(unKeyedItems);
      UnkeyedItemsFound := |unKeyedItems| > 0;
    }

    /**
     * `ItemIsAccessible(groupIndex, itemIndex)`. A group index at or past the
     * key count answers false; a negative one throws; a negative item index
     * passes.
     */
    function ItemIsAccessibleAt(groupIndex: int, itemIndex: int): (r: Outcome<bool>)
      reads this, GroupKeys
      ensures Valid() && GroupKeys != null && groupIndex >= 0 ==>
        r == Returns(groupIndex < |GroupKeys.Items| && itemIndex < |Matrix.value[groupIndex]|)
      ensures Valid() && GroupKeys != null && groupIndex < 0 ==> r == Throws(ArgumentOutOfRange)
      ensures GroupKeys == null ==> r == Throws(NullReference)
      ensures r == Returns(true) ==>
        Matrix.Some? && 0 <= groupIndex < |Matrix.value| && itemIndex < |Matrix.value[groupIndex]|
    {
      if GroupKeys == null then Throws(NullReference)
      else if !(|GroupKeys.Items| > groupIndex) then Returns(false)
      else if Matrix.None? then Throws(NullReference)
      else if groupIndex < 0 || groupIndex >= |Matrix.value| then Throws(ArgumentOutOfRange)
      else Returns(|Matrix.value[groupIndex]| > itemIndex)
    }

    /** `ItemIsAccessible(item)`: the same test on the item's own indices. */
    function ItemIsAccessible(item: KeyedItem<T>): (r: Outcome<bool>)
      reads this, GroupKeys, item
      ensures r == ItemIsAccessibleAt(item.GroupIndex, item.ItemIndex)
    {
      ItemIsAccessibleAt(item.GroupIndex, item.ItemIndex)
    }

    /**
     * The stored item that `SetItemVisibility(item, ...)` and
     * `SetItemChecked(item, ...)` write to: none when the item is not
     * accessible, an exception when the test throws or the accessible item's
     * index is negative.
     */
    function Target(item: KeyedItem<T>): (r: Outcome<Option<KeyedItem<T>>>)
      reads this, GroupKeys, item
      ensures r.Returns? && r.value.Some? ==>
        ItemIsAccessible(item) == Returns(true) && r.value.value in Items()
      ensures r == Returns(None) <==> ItemIsAccessible(item) == Returns(false)
    {
      match ItemIsAccessible(item)
      case Throws(e) => Throws(e)
      case Returns(accessible) =>
        if !accessible then Returns(None)
        else if item.ItemIndex < 0 then Throws(ArgumentOutOfRange)
        else Returns(Some(Matrix.value[item.GroupIndex][item.ItemIndex]))
    }

    /** An item the constructor placed addresses itself, so it is its own target. */
    lemma PlacedItemIsOwnTarget(item: KeyedItem<T>)
      requires Valid() && GroupKeys != null
      requires item.GroupKey in GroupKeys.Items && Placed(Matrix.value, GroupKeys.Items, [item])
      ensures Target(item) == Returns(Some(item))
    {
      assert item in [item];
    }

    /**
     * `SetItemVisibility(item, show)`: sets `Visible` on the target. Succeeded
     * when there is one, Failed when the item is not accessible; exceptions
     * propagate. No other field or item changes.
     */
    method SetItemVisibility(item: KeyedItem<T>, show: bool) returns (r: Outcome<Result>)
      modifies Items()
      ensures old(Target(item)).Throws? ==> r == Throws(old(Target(item)).error)
      ensures old(Target(item)) == Returns(None) ==> r == Returns(Failed)
      ensures old(Target(item)).Returns? && old(Target(item)).value.Some? ==> r == Returns(Succeeded)
      ensures forall x :: x in old(Items()) ==>
        x.Visible == (if old(Target(item)) == Returns(Some(x)) then show else old(x.Visible))
      ensures forall x :: x in old(Items()) ==>
        && x.Checked == old(x.Checked) && x.ItemIndex == old(x.ItemIndex) && x.GroupIndex == old(x.GroupIndex)
        && x.IndexKey == old(x.IndexKey)
    {
      var target := Target(item);
      if target.Throws? {
        return Throws(target.error);
      }
      if target.value.Some? {
        target.value.value.Visible := show;
        return Returns(Succeeded);
      }
      return Returns(Failed);
    }

    /** `SetItemChecked(item, check)`: as `SetItemVisibility`, for `Checked`. */
    method SetItemChecked(item: KeyedItem<T>, check: bool) returns (r: Outcome<Result>)
      modifies Items()
      ensures old(Target(item)).Throws? ==> r == Throws(old(Target(item)).error)
      ensures old(Target(item)) == Returns(None) ==> r == Returns(Failed)
      ensures old(Target(item)).Returns? && old(Target(item)).value.Some? ==> r == Returns(Succeeded)
      ensures forall x :: x in old(Items()) ==>
        x.Checked == (if old(Target(item)) == Returns(Some(x)) then check else old(x.Checked))
      ensures forall x :: x in old(Items()) ==>
        && x.Visible == old(x.Visible) && x.ItemIndex == old(x.ItemIndex) && x.GroupIndex == old(x.GroupIndex)
        && x.IndexKey == old(x.IndexKey)
    {
      var target := Target(item);
      if target.Throws? {
        return Throws(target.error);
      }
      if target.value.Some? {
        target.value.value.Checked := check;
        return Returns(Succeeded);
      }
      return Returns(Failed);
    }

    /** `GetGroupByKey(key)`: the bucket of the key's first occurrence, or null. */
    function GetGroupByKey(key: string): (r: Outcome<Option<seq<KeyedItem<T>>>>)
      reads this, GroupKeys
      ensures GroupKeys == null ==> r == Throws(NullReference)
      ensures Valid() && GroupKeys != null && key !in GroupKeys.Items ==> r == Returns(None)
      ensures Valid() && GroupKeys != null && key in GroupKeys.Items ==>
        r == Returns(Some(Matrix.value[IndexOf(GroupKeys.Items, key)]))
    {
      if GroupKeys == null then Throws(NullReference)
      else if key in GroupKeys.Items then
        var i := IndexOf(GroupKeys.Items, key);
        if Matrix.None? then Throws(NullReference)
        else if i >= |Matrix.value| then Throws(ArgumentOutOfRange)
        else Returns(Some(Matrix.value[i]))
      else Returns(None)
    }

    /**
     * `RefreshItemKeys()` as written: each stored item's `ItemIndex` grows by
     * the number of places it occupies; nothing is renumbered.
     */
    method RefreshItemKeys() returns (r: Outcome<()>)
      modifies Items()
      ensures Matrix.None? ==> r == Throws(NullReference)
      ensures Matrix.Some? ==> r == Returns(())
      ensures forall x :: x in old(Items()) ==>
        x.ItemIndex == old(x.ItemIndex) + (if Matrix.Some? then Flatten(Matrix.value)[x] else 0)
      ensures forall x :: x in old(Items()) ==>
        && x.GroupIndex == old(x.GroupIndex) && x.Checked == old(x.Checked) && x.Visible == old(x.Visible)
        && x.IndexKey == old(x.IndexKey)
    {
      if Matrix.None? {
        return Throws(NullReference);
      }
      IncrementMatrix(Matrix.value, Items());
      return Returns(());
    }

    /**
     * The renumbering `RefreshItemKeys`'s summary promises: each stored item
     * gets its place in its bucket (the last one, if an item is stored in
     * several places).
     */
    method RenumberItemKeys() returns (r: Outcome<()>)
      modifies Items()
      ensures Matrix.None? ==> r == Throws(NullReference)
      ensures Matrix.Some? ==> r == Returns(())
      ensures Matrix.Some? ==> forall g, j :: LastPlace(Matrix.value, g, j) ==> Matrix.value[g][j].ItemIndex == j
      ensures forall x :: x in old(Items()) ==>
        && x.GroupIndex == old(x.GroupIndex) && x.Checked == old(x.Checked) && x.Visible == old(x.Visible)
        && x.IndexKey == old(x.IndexKey)
    {
      if Matrix.None? {
        return Throws(NullReference);
      }
      RenumberMatrix(Matrix.value, Items());
      return Returns(());
    }
  }

  /** Every item object held by `m`. */
  ghost function Objects<T>(m: seq<seq<KeyedItem<T>>>): set<KeyedItem<T>> {
    set g, j | 0 <= g < |m| && 0 <= j < |m[g]| :: m[g][j]
  }

  /** The loops of `RefreshItemKeys`: one increment per place an item occupies in `m`. */
  method IncrementMatrix<T>(m: seq<seq<KeyedItem<T>>>, ghost objs: set<KeyedItem<T>>)
    requires forall g, j :: 0 <= g < |m| && 0 <= j < |m[g]| ==> m[g][j] in objs
    modifies objs`ItemIndex
    ensures forall x :: x in objs ==> x.ItemIndex == old(x.ItemIndex) + Flatten(m)[x]
  {
    for b := 0 to |m|
      invariant forall x :: x in objs ==> x.ItemIndex == old(x.ItemIndex) + Flatten(m[..b])[x]
    {
      assert forall j :: 0 <= j < |m[b]| ==> m[b][j] in objs;
      label before:
      IncrementBucket(m[b], objs);
      FlattenSnoc(m, b);
      forall x | x in objs
        ensures x.ItemIndex == old(x.ItemIndex) + Flatten(m[..b + 1])[x]
      {
        assert old@before(x.ItemIndex) == old(x.ItemIndex) + Flatten(m[..b])[x];
      }
    }
    assert m[..|m|] == m;
  }

  /** The corrected loops: each item gets its place in its bucket (its last one, if repeated). */
  method RenumberMatrix<T>(m: seq<seq<KeyedItem<T>>>, ghost objs: set<KeyedItem<T>>)
    requires forall g, j :: 0 <= g < |m| && 0 <= j < |m[g]| ==> m[g][j] in objs
    modifies objs`ItemIndex
    ensures forall g, j :: LastPlace(m, g, j) ==> m[g][j].ItemIndex == j
  {
    for b := 0 to |m|
      invariant forall g, j :: 0 <= g < b && LastPlaceBefore(m, b, g, j) ==> m[g][j].ItemIndex == j
    {
      assert forall j :: 0 <= j < |m[b]| ==> m[b][j] in objs;
      RenumberBucket(m[b]);
      forall g, k | 0 <= g < b + 1 && LastPlaceBefore(m, b + 1, g, k)
        ensures m[g][k].ItemIndex == k
      {
        if g < b {
          assert LastPlaceBefore(m, b, g, k);
        }
      }
    }
  }

  /** The inner loop of `RefreshItemKeys`: one increment per place an item occupies in `items`. */
  method IncrementBucket<T>(items: seq<KeyedItem<T>>, ghost objs: set<KeyedItem<T>>)
    modifies items`ItemIndex
    ensures forall x :: x in objs ==> x.ItemIndex == old(x.ItemIndex) + multiset(items)[x]
  {
    var itemIndex := 0;
    for j := 0 to |items|
      invariant forall x :: x in items ==> x.ItemIndex == old(x.ItemIndex) + multiset(items[..j])[x]
    {
      assert items[..j + 1] == items[..j] + [items[j]];
      items[j].ItemIndex := items[j].ItemIndex + 1;
      itemIndex := itemIndex + 1;
    }
    assert items[..|items|] == items;
    forall x | x in objs && x !in items
      ensures x.ItemIndex == old(x.ItemIndex) + multiset(items)[x]
    {
      assert multiset(items)[x] == 0;
    }
  }

  /** The corrected inner loop: each item gets its place in `items` (its last one, if repeated). */
  method RenumberBucket<T>(items: seq<KeyedItem<T>>)
    modifies items`ItemIndex
    ensures forall k :: LastCopyBefore(items, k, |items|) ==> items[k].ItemIndex == k
  {
    for j := 0 to |items|
      invariant forall k :: LastCopyBefore(items, k, j) ==> items[k].ItemIndex == k
    {
      label before:
      items[j].ItemIndex := j;
      forall k | LastCopyBefore(items, k, j + 1)
        ensures items[k].ItemIndex == k
      {
        if k < j {
          assert LastCopyBefore(items, k, j) && items[j] != items[k];
          assert old@before(items[k].ItemIndex) == k;
        }
      }
    }
  }

  /** `s[k]` is not repeated in `s[k + 1..j]`. */
  ghost predicate LastCopyBefore<X>(s: seq<X>, k: int, j: int) {
    0 <= k < j <= |s| && forall i :: k < i < j ==> s[i] != s[k]
  }

  /**
   * Place `(g, j)` of `m` holds the last copy of its item among the buckets
   * before `b`: later in its own bucket and in buckets `g+1 .. b-1` it does
   * not occur.
   */
  ghost predicate LastPlaceBefore<X>(m: seq<seq<X>>, b: int, g: int, j: int) {
    && 0 <= g < |m| && b <= |m| && LastCopyBefore(m[g], j, |m[g]|)
    && forall h :: g < h < b ==> m[g][j] !in m[h]
  }

  /** Place `(g, j)` of `m` holds the last copy of its item. */
  ghost predicate LastPlace<X>(m: seq<seq<X>>, g: int, j: int) {
    LastPlaceBefore(m, |m|, g, j)
  }

  /** What the constructor builds from one key `"A"` and one item of group `"A"`. */
  lemma OneItemMatrix(item: KeyedItem<int>, matrix: KeyedMatrix<int>)
    requires item.GroupKey == "A" && matrix.GroupKeys != null && matrix.GroupKeys.Items == ["A"]
    requires matrix.Matrix == Some(Buckets([item], ["A"])) && matrix.Valid()
    requires Placed(matrix.Matrix.value, ["A"], [item])
    ensures matrix.Matrix == Some([[item]]) && matrix.Items() == {item}
    ensures item.GroupIndex == 0 && item.ItemIndex == 0
  {
    assert [item][..0] == [];
    assert BucketOf([item], ["A"], 0) == [item];
    assert Buckets([item], ["A"]) == [[item]];
    assert item in [item];
    assert Objects([[item]]) == {item} by {
      assert [[item]][0][0] == item;
    }
  }

  /**
   * A one-item matrix: the item is accessible after construction, and
   * `RefreshItemKeys` moves its index past the end of its bucket.
   */
  method RefreshDisplacesItem() returns (before: Outcome<bool>, after: Outcome<bool>)
    ensures before == Returns(true) && after == Returns(false)
  {
    var keys := new StringList(["A"]);
    var item := new KeyedItem<int>(7, "x", 0, 0, "A", 0);
    var matrix := new KeyedMatrix<int>(keys, [item], false, (a: string, b: string) => a <= b);
    OneItemMatrix(item, matrix);
    before := matrix.ItemIsAccessible(item);
    assert Flatten([[item]]) == multiset{item} by {
      assert [[item]][..0] == [];
    }
    var _ := matrix.RefreshItemKeys();
    after := matrix.ItemIsAccessible(item);
  }

  /** The same matrix keeps its item accessible under the corrected renumbering. */
  method RenumberKeepsItem() returns (before: Outcome<bool>, after: Outcome<bool>)
    ensures before == Returns(true) && after == Returns(true)
  {
    var keys := new StringList(["A"]);
    var item := new KeyedItem<int>(7, "x", 0, 0, "A", 0);
    var matrix := new KeyedMatrix<int>(keys, [item], false, (a: string, b: string) => a <= b);
    OneItemMatrix(item, matrix);
    before := matrix.ItemIsAccessible(item);
    var _ := matrix.RenumberItemKeys();
    assert LastPlace([[item]], 0, 0);
    after := matrix.ItemIsAccessible(item);
  }

  /**
   * `RefreshItemKeys` as written, on any matrix: an item that sat at its
   * recorded place, with no later copy in that bucket, no longer finds
   * itself; and the last item of every non-empty bucket that records its own
   * group and place becomes inaccessible.
   */
  method RefreshDisplacesPlaced<T>(matrix: KeyedMatrix<T>)
    requires matrix.Valid() && matrix.GroupKeys != null
    requires var m := matrix.Matrix.value;
      forall g :: 0 <= g < |m| && m[g] != [] ==>
        m[g][|m[g]| - 1].GroupIndex == g && m[g][|m[g]| - 1].ItemIndex == |m[g]| - 1
    modifies matrix.Items()
    ensures var m := matrix.Matrix.value;
      forall g :: 0 <= g < |m| && m[g] != [] ==> matrix.ItemIsAccessible(m[g][|m[g]| - 1]) == Returns(false)
    ensures var m := matrix.Matrix.value;
      forall g, j :: 0 <= g < |m| && 0 <= j < |m[g]| && old(LastAt(m, m[g][j], m[g][j].GroupIndex, m[g][j].ItemIndex)) ==>
        matrix.Target(m[g][j]) != Returns(Some(m[g][j]))
  {
    var m: seq<seq<KeyedItem<T>>> := matrix.Matrix.value;
    ghost var keys := matrix.GroupKeys.Items;
    var _ := matrix.RefreshItemKeys();
    assert matrix.Matrix.value == m && matrix.GroupKeys.Items == keys;
    forall g: int, j: int | 0 <= g < |m| && 0 <= j < |m[g]|
      ensures m[g][j].ItemIndex >= old(m[g][j].ItemIndex) + 1
      ensures m[g][j].GroupIndex == old(m[g][j].GroupIndex)
    {
      assert m[g][j] in old(matrix.Items());
      InFlatten(m, g, j);
    }
    forall g: int, j: int | 0 <= g < |m| && 0 <= j < |m[g]| && old(LastAt(m, m[g][j], m[g][j].GroupIndex, m[g][j].ItemIndex))
      ensures matrix.Target(m[g][j]) != Returns(Some(m[g][j]))
    {
      var x := m[g][j];
      var gi, i := old(x.GroupIndex), old(x.ItemIndex);
      assert LastAt(m, x, gi, i);
      assert x.GroupIndex == gi && x.ItemIndex > i;
      if x.ItemIndex < |m[gi]| {
        assert m[gi][x.ItemIndex] != x;
      }
    }
  }

  /**
   * `RenumberItemKeys` on any matrix: every item at its last place, whose
   * group index names its bucket, is afterwards its own target.
   */
  method RenumberKeepsPlaced<T>(matrix: KeyedMatrix<T>)
    requires matrix.Valid() && matrix.GroupKeys != null
    requires var m := matrix.Matrix.value;
      forall g, j :: LastPlace(m, g, j) ==> m[g][j].GroupIndex == g
    modifies matrix.Items()
    ensures var m := matrix.Matrix.value;
      forall g, j :: LastPlace(m, g, j) ==> matrix.Target(m[g][j]) == Returns(Some(m[g][j]))
  {
    var _ := matrix.RenumberItemKeys();
  }
}
