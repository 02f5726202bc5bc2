/**
  The grouping the page head does before rendering: every resolved row is
  appended with `$items[$params][] = $value` to a PHP array, which keeps its
  keys in the order they were first inserted. GroupItems computes that array;
  its contract ties it to a reference description that does not mention
  insertion at all (RowsFor, FirstIndex and the key sets).
 */
module Grouping {

  /** One resolved row: the attribute-parameter string it is filed under and its URL or file path. */
  datatype Item = Item(params: string, value: string)

  /** One entry of $items: a parameter string and its rows. */
  datatype Group = Group(params: string, rows: seq<string>)

  /** The rows filed under key, in order. */
  function RowsFor(items: seq<Item>, key: string): seq<string>
  {
    if |items| == 0 then []
    else (if items[0].params == key then [items[0].value] else []) + RowsFor(items[1..], key)
  }

  /** Where key first occurs among the items' parameter strings (|items| when it does not). */
  function FirstIndex(items: seq<Item>, key: string): (r: nat)
    ensures r <= |items|
    ensures r < |items| ==> items[r].params == key
    ensures forall m :: 0 <= m < r ==> items[m].params != key
  {
    if |items| == 0 then 0
    else if items[0].params == key then 0
    else 1 + FirstIndex(items[1..], key)
  }

  function ParamSet(items: seq<Item>): set<string>
  {
    set m | 0 <= m < |items| :: items[m].params
  }

  function KeySet(groups: seq<Group>): set<string>
  {
    set g | 0 <= g < |groups| :: groups[g].params
  }

  function RowCount(groups: seq<Group>): nat
  {
    if |groups| == 0 then 0 else RowCount(groups[..|groups| - 1]) + |groups[|groups| - 1].rows|
  }

  /**
    groups is the PHP array built from items: one group per distinct
    parameter string, keys in the order of their first row, each group
    holding exactly the rows filed under its key, in order, and never empty.
   */
  ghost predicate GroupsOf(groups: seq<Group>, items: seq<Item>) {
    && DistinctKeys(groups)
    && KeySet(groups) == ParamSet(items)
    && RowsMatch(groups, items)
    && FirstSeenOrder(groups, items)
    && RowCount(groups) == |items|
  }

  predicate DistinctKeys(groups: seq<Group>) {
    forall a, b :: 0 <= a < b < |groups| ==> groups[a].params != groups[b].params
  }

  predicate RowsMatch(groups: seq<Group>, items: seq<Item>) {
    forall a :: 0 <= a < |groups| ==> groups[a].rows == RowsFor(items, groups[a].params) && groups[a].rows != []
  }

  predicate FirstSeenOrder(groups: seq<Group>, items: seq<Item>) {
    forall a, b :: 0 <= a < b < |groups| ==> FirstIndex(items, groups[a].params) < FirstIndex(items, groups[b].params)
  }

  /** The position of key among the groups (|groups| when absent). */
  function KeyIndex(groups: seq<Group>, key: string): (r: nat)
    ensures r <= |groups|
    ensures r < |groups| ==> groups[r].params == key
    ensures forall b :: 0 <= b < r ==> groups[b].params != key
  {
    if |groups| == 0 then 0
    else if groups[0].params == key then 0
    else 1 + KeyIndex(groups[1..], key)
  }

  /** `$items[$params][] = $value`: append to the key's rows, or add the key at the end. */
  function Insert(groups: seq<Group>, it: Item): seq<Group>
  {
    var a := KeyIndex(groups, it.params);
    if a == |groups| then groups + [Group(it.params, [it.value])]
    else groups[a := Group(it.params, groups[a].rows + [it.value])]
  }

  /** The PHP array after inserting every item in order. */
  function GroupItems(items: seq<Item>): (groups: seq<Group>)
    ensures GroupsOf(groups, items)
  {
    if |items| == 0 then []
    else
      var before := GroupItems(items[..|items| - 1]);
      assert items == items[..|items| - 1] + [items[|items| - 1]];
      InsertKeepsGroups(before, items[..|items| - 1], items[|items| - 1]);
      Insert(before, items[|items| - 1])
  }

  /** Rows collected from a first batch and then a second keep that order under every key. */
  lemma {:induction false} RowsForAppend(xs: seq<Item>, ys: seq<Item>, key: string)
    ensures RowsFor(xs + ys, key) == RowsFor(xs, key) + RowsFor(ys, key)
    decreases |xs|
  {
    if |xs| > 0 {
      assert (xs + ys)[1..] == xs[1..] + ys;
      RowsForAppend(xs[1..], ys, key);
    } else {
      assert xs + ys == ys;
    }
  }

  lemma {:induction false} RowsForAbsent(items: seq<Item>, key: string)
    requires key !in ParamSet(items)
    ensures RowsFor(items, key) == []
    decreases |items|
  {
    if |items| > 0 {
      assert items[0].params in ParamSet(items);
      assert ParamSet(items[1..]) <= ParamSet(items) by {
        forall x | x in ParamSet(items[1..]) ensures x in ParamSet(items) {
          var m :| 0 <= m < |items[1..]| && items[1..][m].params == x;
          assert items[m + 1].params == x;
        }
      }
      RowsForAbsent(items[1..], key);
    }
  }

  lemma {:induction false} FirstIndexSnoc(items: seq<Item>, it: Item, key: string)
    ensures FirstIndex(items + [it], key) ==
              if FirstIndex(items, key) < |items| then FirstIndex(items, key)
              else if it.params == key then |items| else |items| + 1
    decreases |items|
  {
    if |items| > 0 {
      assert (items + [it])[0] == items[0];
      assert (items + [it])[1..] == items[1..] + [it];
      FirstIndexSnoc(items[1..], it, key);
    }
  }

  lemma RowCountUpdate(groups: seq<Group>, a: nat, g: Group)
    requires a < |groups|
    ensures RowCount(groups[a := g]) + |groups[a].rows| == RowCount(groups) + |g.rows|
    decreases |groups|
  {
    var n := |groups|;
    if a < n - 1 {
      assert groups[a := g][..n - 1] == groups[..n - 1][a := g];
      RowCountUpdate(groups[..n - 1], a, g);
    } else {
      assert groups[a := g][..n - 1] == groups[..n - 1];
    }
  }

  lemma {:induction false} ParamSetSnoc(items: seq<Item>, it: Item)
    ensures ParamSet(items + [it]) == ParamSet(items) + {it.params}
  {
    var items' := items + [it];
    forall x | x in ParamSet(items') ensures x in ParamSet(items) + {it.params} {
      var m :| 0 <= m < |items'| && items'[m].params == x;
      if m < |items| { assert items[m].params == x; }
    }
    forall x | x in ParamSet(items) ensures x in ParamSet(items') {
      var m :| 0 <= m < |items| && items[m].params == x;
      assert items'[m].params == x;
    }
    assert items'[|items|].params == it.params;
  }

  /** Every grouped key occurs among the items, so its first index is below |items|. */
  lemma {:induction false} GroupedKeysOccur(groups: seq<Group>, items: seq<Item>)
    requires KeySet(groups) == ParamSet(items)
    ensures forall b :: 0 <= b < |groups| ==> FirstIndex(items, groups[b].params) < |items|
  {
    forall b | 0 <= b < |groups| ensures FirstIndex(items, groups[b].params) < |items| {
      assert groups[b].params in KeySet(groups);
      var m :| 0 <= m < |items| && items[m].params == groups[b].params;
    }
  }

  lemma {:induction false} RowsForSnoc(items: seq<Item>, it: Item, key: string)
    ensures RowsFor(items + [it], key) == RowsFor(items, key) + (if it.params == key then [it.value] else [])
  {
    RowsForAppend(items, [it], key);
    assert [it][1..] == [];
  }

  /** Inserting under an existing key keeps the key sequence as it was. */
  lemma {:induction false} ExistingKeepsKeys(groups: seq<Group>, it: Item)
    requires KeyIndex(groups, it.params) < |groups|
    ensures |Insert(groups, it)| == |groups|
    ensures forall b :: 0 <= b < |groups| ==> Insert(groups, it)[b].params == groups[b].params
    ensures KeySet(Insert(groups, it)) == KeySet(groups)
  {
    var groups' := Insert(groups, it);
    forall x | x in KeySet(groups') ensures x in KeySet(groups) {
      var b :| 0 <= b < |groups'| && groups'[b].params == x;
      assert groups[b].params == x;
    }
    forall x | x in KeySet(groups) ensures x in KeySet(groups') {
      var b :| 0 <= b < |groups| && groups[b].params == x;
      assert groups'[b].params == x;
    }
  }

  lemma {:induction false} ExistingRows(groups: seq<Group>, items: seq<Item>, it: Item)
    requires RowsMatch(groups, items) && DistinctKeys(groups)
    requires KeyIndex(groups, it.params) < |groups|
    ensures RowsMatch(Insert(groups, it), items + [it])
  {
    var a := KeyIndex(groups, it.params);
    var groups' := Insert(groups, it);
    ExistingKeepsKeys(groups, it);
    forall b | 0 <= b < |groups'|
      ensures groups'[b].rows == RowsFor(items + [it], groups'[b].params) && groups'[b].rows != []
    {
      RowsForSnoc(items, it, groups[b].params);
      if b != a {
        assert groups[b].params != it.params;
        assert groups'[b] == groups[b];
      }
    }
  }

  lemma {:induction false} ExistingOrder(groups: seq<Group>, items: seq<Item>, it: Item)
    requires FirstSeenOrder(groups, items) && KeySet(groups) == ParamSet(items)
    requires KeyIndex(groups, it.params) < |groups|
    ensures FirstSeenOrder(Insert(groups, it), items + [it])
  {
    ExistingKeepsKeys(groups, it);
    GroupedKeysOccur(groups, items);
    forall b | 0 <= b < |groups|
      ensures FirstIndex(items + [it], groups[b].params) == FirstIndex(items, groups[b].params)
    {
      FirstIndexSnoc(items, it, groups[b].params);
    }
  }

  /** After a row with an existing key, the keys are unchanged and only that key's rows grow. */
  lemma {:induction false} InsertExisting(groups: seq<Group>, items: seq<Item>, it: Item)
    requires GroupsOf(groups, items)
    requires KeyIndex(groups, it.params) < |groups|
    ensures GroupsOf(Insert(groups, it), items + [it])
  {
    var a := KeyIndex(groups, it.params);
    assert it.params in ParamSet(items) by {
      assert groups[a].params in KeySet(groups);
    }
    ParamSetSnoc(items, it);
    ExistingKeepsKeys(groups, it);
    ExistingRows(groups, items, it);
    ExistingOrder(groups, items, it);
    RowCountUpdate(groups, a, Group(it.params, groups[a].rows + [it.value]));
  }

  /** Inserting under a new key appends a one-row group. */
  lemma {:induction false} NewAddsKey(groups: seq<Group>, it: Item)
    requires KeyIndex(groups, it.params) == |groups|
    ensures Insert(groups, it) == groups + [Group(it.params, [it.value])]
    ensures it.params !in KeySet(groups)
    ensures KeySet(Insert(groups, it)) == KeySet(groups) + {it.params}
    ensures DistinctKeys(groups) ==> DistinctKeys(Insert(groups, it))
  {
    var groups' := Insert(groups, it);
    forall x | x in KeySet(groups') ensures x in KeySet(groups) + {it.params} {
      var b :| 0 <= b < |groups'| && groups'[b].params == x;
      if b < |groups| { assert groups[b].params == x; }
    }
    forall x | x in KeySet(groups) ensures x in KeySet(groups') {
      var b :| 0 <= b < |groups| && groups[b].params == x;
      assert groups'[b].params == x;
    }
    assert groups'[|groups|].params == it.params;
  }

  lemma {:induction false} NewRows(groups: seq<Group>, items: seq<Item>, it: Item)
    requires RowsMatch(groups, items) && KeySet(groups) == ParamSet(items)
    requires KeyIndex(groups, it.params) == |groups|
    ensures RowsMatch(Insert(groups, it), items + [it])
  {
    var groups' := Insert(groups, it);
    NewAddsKey(groups, it);
    RowsForAbsent(items, it.params);
    RowsForSnoc(items, it, it.params);
    forall b | 0 <= b < |groups|
      ensures groups'[b].rows == RowsFor(items + [it], groups'[b].params)
    {
      RowsForSnoc(items, it, groups[b].params);
    }
  }

  lemma {:induction false} NewOrder(groups: seq<Group>, items: seq<Item>, it: Item)
    requires FirstSeenOrder(groups, items) && KeySet(groups) == ParamSet(items)
    requires KeyIndex(groups, it.params) == |groups|
    ensures FirstSeenOrder(Insert(groups, it), items + [it])
  {
    var groups' := Insert(groups, it);
    NewAddsKey(groups, it);
    GroupedKeysOccur(groups, items);
    forall b | 0 <= b < |groups|
      ensures FirstIndex(items + [it], groups[b].params) == FirstIndex(items, groups[b].params)
    {
      FirstIndexSnoc(items, it, groups[b].params);
    }
    FirstIndexSnoc(items, it, it.params);
    assert FirstIndex(items, it.params) == |items|;
  }

  /** After a row with a new key, the key is added at the end holding that one row. */
  lemma {:induction false} InsertNew(groups: seq<Group>, items: seq<Item>, it: Item)
    requires GroupsOf(groups, items)
    requires KeyIndex(groups, it.params) == |groups|
    ensures GroupsOf(Insert(groups, it), items + [it])
  {
    var groups' := Insert(groups, it);
    ParamSetSnoc(items, it);
    NewAddsKey(groups, it);
    NewRows(groups, items, it);
    NewOrder(groups, items, it);
    assert groups'[..|groups'| - 1] == groups;
  }

  lemma {:induction false} InsertKeepsGroups(groups: seq<Group>, items: seq<Item>, it: Item)
    requires GroupsOf(groups, items)
    ensures GroupsOf(Insert(groups, it), items + [it])
  {
    if KeyIndex(groups, it.params) < |groups| {
      InsertExisting(groups, items, it);
    } else {
      InsertNew(groups, items, it);
    }
  }
}
