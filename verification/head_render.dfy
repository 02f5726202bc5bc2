/**
  _prepareStaticAndSkinElements: turning the layout's js/ and skin items into
  HTML elements. Every item name is resolved (to a hashed URL, or to a file
  path when a merge callback is in play), the results are grouped by their
  attribute-parameter string, and each group is rendered either as one
  element for its merged file or as one element per row.

  sprintf($format, $src, $params) is the parameter `format`; the merge
  callback is a record of its method name, what it returns for a list of
  files, and whether is_callable() accepts it.
 */
module HeadRender {
  import opened Php
  import opened BlockCache
  import opened AssetHash
  import opened Grouping

  /** One key of $staticItems or $skinItems: a parameter string and the item names under it. */
  datatype Entry = Entry(params: string, names: seq<string>)

  /** array($object, $method): the method's name, its answer for a list of files (false read as ""), and is_callable(). */
  datatype MergeCallback = MergeCallback(methodName: string, merge: seq<string> -> string, callable: bool)

  /** Where an item is looked up: the js/ folder or the theme's skin. */
  datatype Source = Static | Skin

  /** Resolved rows with the cache after them and the effects on the way. */
  datatype Resolved = Resolved(items: seq<Item>, cache: Cache, log: seq<Event>)

  /** Rendered elements with the cache after them and the effects on the way. */
  datatype Rendered = Rendered(elements: seq<string>, cache: Cache, log: seq<Event>)

  /** The returned $html, the elements it is made of, the cache afterwards and the effects in order. */
  datatype Page = Page(html: string, elements: seq<string>, cache: Cache, log: seq<Event>)

  /** A callback is_callable() rejects is dropped as if none had been given. */
  function Usable(cb: Option<MergeCallback>): (r: Option<MergeCallback>)
    ensures r.Some? <==> cb.Some? && cb.value.callable
    ensures r.Some? ==> r == cb
  {
    if cb.Some? && !cb.value.callable then None else cb
  }

  /** The nested foreach over $params => $rows and each $name: one row per name, in order. */
  function Pairs(entries: seq<Entry>): seq<Item>
  {
    if |entries| == 0 then []
    else seq(|entries[0].names|, n requires 0 <= n < |entries[0].names| => Item(entries[0].params, entries[0].names[n]))
         + Pairs(entries[1..])
  }

  /** Each entry gives its names in order, each row carrying the entry's parameter string. */
  lemma PairsOfEntry(e: Entry)
    ensures |Pairs([e])| == |e.names|
    ensures forall n :: 0 <= n < |e.names| ==> Pairs([e])[n] == Item(e.params, e.names[n])
  {
    assert [e][1..] == [];
  }

  /** Entries are walked in order: the rows of a + b are those of a, then those of b. */
  lemma {:induction false} PairsAppend(a: seq<Entry>, b: seq<Entry>)
    ensures Pairs(a + b) == Pairs(a) + Pairs(b)
    decreases |a|
  {
    if |a| == 0 {
      assert a + b == b;
    } else {
      assert (a + b)[0] == a[0] && (a + b)[1..] == a[1..] + b;
      PairsAppend(a[1..], b);
    }
  }

  /** What a merger is handed for an item: the js/ file, or the theme file for the name as given. */
  function MergeSource(p: Platform, src: Source, name: string): string
  {
    match src
    case Static => JsFile(p, name)
    case Skin => p.skinFile(name)
  }

  /** With a merger, a js/ item contributes the very file whose crc32 the hashing path embeds without one. */
  lemma StaticMergeSourceHashed(p: Platform, cache: Cache, name: string)
    ensures !(p.cacheEnabled && Hit(cache, ItemKey(Static, name))) ==>
              Probe(MergeSource(p, Static, name)) in JsFileHashsum(p, cache, name).log
  {
    CallSiteKey("js", name);
  }

  /**
    A merger is handed the theme file of the skin name as given, while the
    hashing path looks up the name with its slashes trimmed: the two are the
    same file when the name has no outer slash.
   */
  lemma SkinMergeSource(p: Platform, name: string)
    ensures MergeSource(p, Skin, Trim(name, {'/'})) == SkinFile(p, name)
    ensures Trim(name, {'/'}) == name ==> MergeSource(p, Skin, name) == SkinFile(p, name)
  {
  }

  /**
    One row's value. With a merger it is the item's file, found with no
    effects at all; otherwise it is the hashed URL (for a js/ item prefixed
    with the js/ base URL), which consults the cache and the file.
   */
  function ResolveOne(p: Platform, cache: Cache, src: Source, merging: bool, name: string): (r: Outcome)
    ensures merging ==> r == Outcome(MergeSource(p, src, name), cache, [])
    ensures !merging && src == Static ==>
              && r.value == p.baseJsUrl + JsFileHashsum(p, cache, name).value
              && r.cache == JsFileHashsum(p, cache, name).cache
    ensures !merging && src == Skin ==>
              && r.value == SkinFileHashsum(p, cache, name).value
              && r.cache == SkinFileHashsum(p, cache, name).cache
    ensures !p.cacheEnabled ==> r.cache == cache && CacheUntouched(r.log)
    ensures NoMerge(r.log)
  {
    if merging then Outcome(MergeSource(p, src, name), cache, [])
    else
      match src
      case Static =>
        var o := JsFileHashsum(p, cache, name);
        Outcome(p.baseJsUrl + o.value, o.cache, o.log)
      case Skin => SkinFileHashsum(p, cache, name)
  }

  /**
    Resolving the rows one after another, each seeing the cache the previous
    one left. Every row keeps its parameter string and position; with a
    merger nothing is looked up, and without block caching the rows do not
    influence one another.
   */
  function ResolveAll(p: Platform, cache: Cache, src: Source, merging: bool, rows: seq<Item>): (r: Resolved)
    ensures |r.items| == |rows|
    ensures forall m :: 0 <= m < |rows| ==> r.items[m].params == rows[m].params
    ensures merging ==>
              && r.cache == cache && r.log == []
              && forall m :: 0 <= m < |rows| ==> r.items[m].value == MergeSource(p, src, rows[m].value)
    ensures !p.cacheEnabled ==>
              && r.cache == cache && CacheUntouched(r.log)
              && forall m :: 0 <= m < |rows| ==> r.items[m].value == ResolveOne(p, cache, src, merging, rows[m].value).value
    ensures NoMerge(r.log)
    decreases |rows|
  {
    if |rows| == 0 then Resolved([], cache, [])
    else
      var first := ResolveOne(p, cache, src, merging, rows[0].value);
      var rest := ResolveAll(p, first.cache, src, merging, rows[1..]);
      Resolved([Item(rows[0].params, first.value)] + rest.items, rest.cache, first.log + rest.log)
  }

  /** Resolving the first m rows starts with the first row, then goes on from the cache it left. */
  lemma PrefixAfterFirst(p: Platform, cache: Cache, src: Source, merging: bool, rows: seq<Item>, m: nat)
    requires 0 < m <= |rows|
    ensures ResolveAll(p, cache, src, merging, rows[..m]).cache
            == ResolveAll(p, ResolveOne(p, cache, src, merging, rows[0].value).cache, src, merging, rows[1..][..m - 1]).cache
  {
    assert rows[..m][0] == rows[0] && rows[..m][1..] == rows[1..][..m - 1];
  }

  /**
    Row m is item m resolved on the cache the rows before it left: the loop
    hands the cache from one row to the next, so a row can be served by an
    entry an earlier row saved.
   */
  lemma {:induction false} RowInTurn(p: Platform, cache: Cache, src: Source, merging: bool, rows: seq<Item>, m: nat)
    requires m < |rows|
    ensures ResolveAll(p, cache, src, merging, rows).items[m].value
            == ResolveOne(p, ResolveAll(p, cache, src, merging, rows[..m]).cache, src, merging, rows[m].value).value
    decreases m
  {
    if m > 0 {
      var first := ResolveOne(p, cache, src, merging, rows[0].value);
      RowInTurn(p, first.cache, src, merging, rows[1..], m - 1);
      PrefixAfterFirst(p, cache, src, merging, rows, m);
    }
  }

  /** The kind an item's cache key carries: js for static items, skin for skin items. */
  function KindOf(src: Source): string
  {
    match src
    case Static => "js"
    case Skin => "skin"
  }

  /** The key _appendJsFileHashsum or _appendSkinFileHashsum keeps an item's URL under. */
  function ItemKey(src: Source, name: string): string
  {
    CacheName(KindOf(src), name)
  }

  /** Items of the two sources never share a key, and neither do two names. */
  lemma ItemKeysDistinct(src1: Source, name1: string, src2: Source, name2: string)
    requires ItemKey(src1, name1) == ItemKey(src2, name2)
    ensures src1 == src2 && name1 == name2
  {
    KeysDistinct(KindOf(src1), name1, KindOf(src2), name2);
  }

  /** What hashing an item gives when computed now, as it is stored (without the js/ base URL). */
  function Fresh(p: Platform, src: Source, name: string): string
  {
    match src
    case Static => AppendFileHashToUrl(p, name, JsFile(p, name)).value
    case Skin => AppendFileHashToUrl(p, p.skinUrl(name), SkinFile(p, name)).value
  }

  /** What a row resolves to with nothing cached: the js/ base URL in front of a static item's hashed name, a skin item's hashed URL as it is. */
  function Uncached(p: Platform, src: Source, name: string): string
  {
    match src
    case Static => p.baseJsUrl + Fresh(p, Static, name)
    case Skin => Fresh(p, Skin, name)
  }

  /**
    Every truthy entry the cache holds for an item is what hashing the item
    now would give. An empty cache is such a cache; a cache that outlived a
    change of some file's content in general is not.
   */
  ghost predicate Agrees(p: Platform, cache: Cache)
  {
    forall src: Source, name: string :: Hit(cache, ItemKey(src, name)) ==> cache[ItemKey(src, name)] == Fresh(p, src, name)
  }

  /** On a cache that agrees with the files, an item resolves as if nothing were cached, and the cache keeps agreeing. */
  lemma ResolveOneAgrees(p: Platform, cache: Cache, src: Source, name: string)
    requires Agrees(p, cache)
    ensures var r := ResolveOne(p, cache, src, false, name);
            r.value == Uncached(p, src, name) && Agrees(p, r.cache)
  {
    var r := ResolveOne(p, cache, src, false, name);
    var key := ItemKey(src, name);
    CallSiteKey(KindOf(src), name);
    forall s: Source, n: string | Hit(r.cache, ItemKey(s, n)) ensures r.cache[ItemKey(s, n)] == Fresh(p, s, n) {
      if ItemKey(s, n) == key {
        ItemKeysDistinct(s, n, src, name);
      }
    }
  }

  /** On a cache that agrees with the files, every row resolves as if nothing were cached, and the cache keeps agreeing. */
  lemma {:induction false} ResolveAllAgrees(p: Platform, cache: Cache, src: Source, rows: seq<Item>)
    requires Agrees(p, cache)
    ensures var r := ResolveAll(p, cache, src, false, rows);
            && Agrees(p, r.cache)
            && forall m :: 0 <= m < |rows| ==> r.items[m].value == Uncached(p, src, rows[m].value)
    decreases |rows|
  {
    if |rows| > 0 {
      var first := ResolveOne(p, cache, src, false, rows[0].value);
      ResolveOneAgrees(p, cache, src, rows[0].value);
      ResolveAllAgrees(p, first.cache, src, rows[1..]);
      var r := ResolveAll(p, cache, src, false, rows);
      var rest := ResolveAll(p, first.cache, src, false, rows[1..]);
      forall m | 0 <= m < |rows| ensures r.items[m].value == Uncached(p, src, rows[m].value) {
        if m > 0 {
          assert r.items[m] == rest.items[m - 1] && rows[m] == rows[1..][m - 1];
        }
      }
    }
  }

  /** With block caching switched off, every row resolves as if nothing were cached. */
  lemma RowsUncached(p: Platform, cache: Cache, src: Source, rows: seq<Item>)
    ensures var r := ResolveAll(p.(cacheEnabled := false), cache, src, false, rows);
            forall m :: 0 <= m < |rows| ==> r.items[m].value == Uncached(p, src, rows[m].value)
  {
    var off := p.(cacheEnabled := false);
    forall m | 0 <= m < |rows| ensures ResolveAll(off, cache, src, false, rows).items[m].value == Uncached(p, src, rows[m].value) {
      var o := ResolveOne(off, cache, src, false, rows[m].value);
      assert JsFile(off, rows[m].value) == JsFile(p, rows[m].value);
      assert SkinFile(off, rows[m].value) == SkinFile(p, rows[m].value);
    }
  }

  /** On a cache that agrees with the files, a loop resolves the same rows as with caching off, whatever cache that sees. */
  lemma SameRowsAsUncached(p: Platform, cache: Cache, other: Cache, src: Source, rows: seq<Item>)
    requires Agrees(p, cache)
    ensures ResolveAll(p, cache, src, false, rows).items == ResolveAll(p.(cacheEnabled := false), other, src, false, rows).items
  {
    var on := ResolveAll(p, cache, src, false, rows);
    var off := ResolveAll(p.(cacheEnabled := false), other, src, false, rows);
    ResolveAllAgrees(p, cache, src, rows);
    RowsUncached(p, other, src, rows);
    forall m | 0 <= m < |rows| ensures on.items[m] == off.items[m] {
      assert on.items[m].params == rows[m].params == off.items[m].params;
      assert on.items[m].value == Uncached(p, src, rows[m].value) == off.items[m].value;
    }
  }

  /** On a cache that agrees with the files, collecting the rows gives the same rows as with caching off. */
  lemma CollectedAsUncached(p: Platform, cache: Cache, staticRows: seq<Item>, skinRows: seq<Item>)
    requires Agrees(p, cache)
    ensures CollectItems(p, cache, staticRows, skinRows, false).items
            == CollectItems(p.(cacheEnabled := false), cache, staticRows, skinRows, false).items
  {
    var off := p.(cacheEnabled := false);
    var on1 := ResolveAll(p, cache, Static, false, staticRows);
    var off1 := ResolveAll(off, cache, Static, false, staticRows);
    ResolveAllAgrees(p, cache, Static, staticRows);
    SameRowsAsUncached(p, cache, cache, Static, staticRows);
    SameRowsAsUncached(p, on1.cache, off1.cache, Skin, skinRows);
    CollectedHalves(p, cache, staticRows, skinRows, false);
    CollectedHalves(off, cache, staticRows, skinRows, false);
  }

  /** $params trimmed of whitespace, with one leading space when the rest is truthy, else nothing. */
  function NormalizeParams(params: string): (r: string)
    ensures r == "" <==> !Truthy(Trim(params, Whitespace))
    ensures r != "" ==> r[0] == ' ' && r[1..] == Trim(params, Whitespace)
  {
    var t := Trim(params, Whitespace);
    if Truthy(t) then " " + t else ""
  }

  /**
    The rendered parameters depend only on the part of the string between
    leading and trailing whitespace: that part with one space in front, or
    nothing when it is empty or "0".
   */
  lemma ParamsOfPieces(head: string, kept: string, tail: string)
    requires forall m :: 0 <= m < |head| ==> head[m] in Whitespace
    requires forall m :: 0 <= m < |tail| ==> tail[m] in Whitespace
    requires kept == [] || (kept[0] !in Whitespace && kept[|kept| - 1] !in Whitespace)
    ensures NormalizeParams(head + kept + tail) == if Truthy(kept) then " " + kept else ""
  {
    TrimOfPieces(head, kept, tail, Whitespace);
  }

  /** Normalising rendered parameters again changes nothing. */
  lemma {:induction false} ParamsIdempotent(params: string)
    ensures NormalizeParams(NormalizeParams(params)) == NormalizeParams(params)
  {
    var t := Trim(params, Whitespace);
    if Truthy(t) {
      assert " " + t == " " + t + "";
      ParamsOfPieces(" ", t, "");
    } else {
      ParamsOfPieces("", "", "");
    }
  }

  /** A parameter string that trims to "0" is dropped, as PHP reads "0" as false. */
  lemma ZeroParamsDropped()
    ensures NormalizeParams(" 0\t") == ""
  {
    assert " 0\t" == " " + "0" + "\t";
    ParamsOfPieces(" ", "0", "\t");
  }

  /** The group's rows as separate elements, in order. */
  function PerRow(format: (string, string) -> string, rows: seq<string>, ps: string): (r: seq<string>)
    ensures |r| == |rows|
  {
    seq(|rows|, m requires 0 <= m < |rows| => format(rows[m], ps))
  }

  /**
    One group of $items. With a merger, the callback is called on the
    group's rows and the hash of the merged file is appended; a truthy result
    is rendered as the single element of the group, anything else falls back
    to one element per row.
   */
  function RenderGroup(p: Platform, cache: Cache, format: (string, string) -> string, cb: Option<MergeCallback>, g: Group): (r: Rendered)
    ensures cb.None? ==> r == Rendered(PerRow(format, g.rows, NormalizeParams(g.params)), cache, [])
    ensures cb.Some? ==>
              var merged := AppendHashToMergedFile(p, cache, cb.value.merge(g.rows), g.rows, cb.value.methodName);
              && r.log == [Merge(g.rows)] + merged.log
              && r.cache == merged.cache
              && (Truthy(merged.value) ==> r.elements == [format(merged.value, NormalizeParams(g.params))])
              && (!Truthy(merged.value) ==> r.elements == PerRow(format, g.rows, NormalizeParams(g.params)))
    ensures |g.rows| > 0 ==> 1 <= |r.elements| <= |g.rows|
    ensures !p.cacheEnabled ==> r.cache == cache && CacheUntouched(r.log)
  {
    var ps := NormalizeParams(g.params);
    match cb
    case None => Rendered(PerRow(format, g.rows, ps), cache, [])
    case Some(m) =>
      var merged := AppendHashToMergedFile(p, cache, m.merge(g.rows), g.rows, m.methodName);
      var elements := if Truthy(merged.value) then [format(merged.value, ps)] else PerRow(format, g.rows, ps);
      UntouchedConcat([Merge(g.rows)], merged.log);
      Rendered(elements, merged.cache, [Merge(g.rows)] + merged.log)
  }

  /** The files handed to the merge callback, call by call. */
  function MergeCalls(log: seq<Event>): seq<seq<string>>
  {
    if |log| == 0 then []
    else MergeCalls(log[..|log| - 1]) + (if log[|log| - 1].Merge? then [log[|log| - 1].files] else [])
  }

  /** Each group's rows, as a list per group. */
  function RowLists(groups: seq<Group>): (r: seq<seq<string>>)
    ensures |r| == |groups| && forall a :: 0 <= a < |groups| ==> r[a] == groups[a].rows
  {
    if |groups| == 0 then [] else RowLists(groups[..|groups| - 1]) + [groups[|groups| - 1].rows]
  }

  /** The rows of the groups, group after group. */
  function AllRows(groups: seq<Group>): seq<string>
  {
    if |groups| == 0 then [] else AllRows(groups[..|groups| - 1]) + groups[|groups| - 1].rows
  }

  /** Each group's rows as one element each, group after group: the page without merging. */
  function Unmerged(format: (string, string) -> string, groups: seq<Group>): seq<string>
  {
    if |groups| == 0 then []
    else Unmerged(format, groups[..|groups| - 1])
         + PerRow(format, groups[|groups| - 1].rows, NormalizeParams(groups[|groups| - 1].params))
  }

  /**
    The foreach over $items. Without a merger the result is every row as its
    own element; with one, the callback is called once per group, on that
    group's rows, in group order. Each group gives at least one element and
    at most one per row.
   */
  function RenderGroups(p: Platform, cache: Cache, format: (string, string) -> string, cb: Option<MergeCallback>, groups: seq<Group>): (r: Rendered)
    requires forall a :: 0 <= a < |groups| ==> groups[a].rows != []
    ensures |groups| <= |r.elements| <= |AllRows(groups)|
    ensures cb.None? ==> r == Rendered(Unmerged(format, groups), cache, [])
    ensures cb.Some? ==> MergeCalls(r.log) == RowLists(groups)
    ensures !p.cacheEnabled ==> r.cache == cache && CacheUntouched(r.log)
  {
    if |groups| == 0 then Rendered([], cache, [])
    else
      var n := |groups| - 1;
      var front := RenderGroups(p, cache, format, cb, groups[..n]);
      var last := RenderGroup(p, front.cache, format, cb, groups[n]);
      var r := Rendered(front.elements + last.elements, last.cache, front.log + last.log);
      RenderStep(p, cache, format, cb, groups, front, last, r);
      r
  }

  /** Rendering one more group keeps what RenderGroups promises about the groups before it. */
  lemma RenderStep(p: Platform, cache: Cache, format: (string, string) -> string, cb: Option<MergeCallback>,
                   groups: seq<Group>, front: Rendered, last: Rendered, r: Rendered)
    requires |groups| > 0 && forall a :: 0 <= a < |groups| ==> groups[a].rows != []
    requires |groups| - 1 <= |front.elements| <= |AllRows(groups[..|groups| - 1])|
    requires cb.None? ==> front == Rendered(Unmerged(format, groups[..|groups| - 1]), cache, [])
    requires cb.Some? ==> MergeCalls(front.log) == RowLists(groups[..|groups| - 1])
    requires !p.cacheEnabled ==> front.cache == cache && CacheUntouched(front.log)
    requires last == RenderGroup(p, front.cache, format, cb, groups[|groups| - 1])
    requires r == Rendered(front.elements + last.elements, last.cache, front.log + last.log)
    ensures |groups| <= |r.elements| <= |AllRows(groups)|
    ensures cb.None? ==> r == Rendered(Unmerged(format, groups), cache, [])
    ensures cb.Some? ==> MergeCalls(r.log) == RowLists(groups)
    ensures !p.cacheEnabled ==> r.cache == cache && CacheUntouched(r.log)
  {
    var n := |groups| - 1;
    var g := groups[n];
    assert |groups| <= |r.elements| <= |AllRows(groups)| by {
      assert AllRows(groups) == AllRows(groups[..n]) + g.rows;
      assert 1 <= |last.elements| <= |g.rows|;
    }
    if cb.Some? {
      assert MergeCalls(r.log) == RowLists(groups) by {
        GroupMergesOnce(p, front.cache, format, cb, g, front.log);
        assert RowLists(groups) == RowLists(groups[..n]) + [g.rows];
      }
    } else {
      assert r == Rendered(Unmerged(format, groups), cache, []) by {
        var rows := PerRow(format, g.rows, NormalizeParams(g.params));
        assert last == Rendered(rows, front.cache, []);
        assert Unmerged(format, groups) == Unmerged(format, groups[..n]) + rows;
      }
    }
    if !p.cacheEnabled {
      assert r.cache == cache && CacheUntouched(r.log) by {
        UntouchedConcat(front.log, last.log);
      }
    }
  }

  /** Rendering one group calls the merger exactly once, on that group's rows, when there is one. */
  lemma GroupMergesOnce(p: Platform, cache: Cache, format: (string, string) -> string, cb: Option<MergeCallback>, g: Group, before: seq<Event>)
    ensures cb.Some? ==> MergeCalls(before + RenderGroup(p, cache, format, cb, g).log) == MergeCalls(before) + [g.rows]
  {
    if cb.Some? {
      var merged := AppendHashToMergedFile(p, cache, cb.value.merge(g.rows), g.rows, cb.value.methodName);
      NoMergeCalls(merged.log);
      MergeCallsAppend(before, [Merge(g.rows)] + merged.log);
      MergeCallsAppend([Merge(g.rows)], merged.log);
      assert MergeCalls([Merge(g.rows)]) == [g.rows] by {
        assert [Merge(g.rows)][..0] == [];
      }
    }
  }

  lemma {:induction false} MergeCallsAppend(a: seq<Event>, b: seq<Event>)
    ensures MergeCalls(a + b) == MergeCalls(a) + MergeCalls(b)
    decreases |b|
  {
    if |b| == 0 {
      assert a + b == a;
    } else {
      var n := |b| - 1;
      assert (a + b)[..|a + b| - 1] == a + b[..n];
      MergeCallsAppend(a, b[..n]);
    }
  }

  lemma {:induction false} NoMergeCalls(log: seq<Event>)
    requires NoMerge(log)
    ensures MergeCalls(log) == []
    decreases |log|
  {
    if |log| > 0 {
      NoMergeCalls(log[..|log| - 1]);
    }
  }

  /**
    Groups handled front to back by step: the first on the cache as it is,
    the rest on the cache the first one left; elements and effects are
    collected in that order.
   */
  function EachInTurn(step: (Cache, Group) -> Rendered, cache: Cache, groups: seq<Group>): Rendered
    decreases |groups|
  {
    if |groups| == 0 then Rendered([], cache, [])
    else
      var first := step(cache, groups[0]);
      var rest := EachInTurn(step, first.cache, groups[1..]);
      Rendered(first.elements + rest.elements, rest.cache, first.log + rest.log)
  }

  /** Handling one more group at the end adds its elements and effects after all the others. */
  lemma {:induction false} EachInTurnSnoc(step: (Cache, Group) -> Rendered, cache: Cache, groups: seq<Group>, g: Group)
    ensures var front := EachInTurn(step, cache, groups);
            var last := step(front.cache, g);
            EachInTurn(step, cache, groups + [g]) == Rendered(front.elements + last.elements, last.cache, front.log + last.log)
    decreases |groups|
  {
    if |groups| == 0 {
      assert groups + [g] == [g];
      assert [g][1..] == [];
    } else {
      var first := step(cache, groups[0]);
      assert (groups + [g])[0] == groups[0];
      assert (groups + [g])[1..] == groups[1..] + [g];
      EachInTurnSnoc(step, first.cache, groups[1..], g);
      var mid := EachInTurn(step, first.cache, groups[1..]);
      var last := step(mid.cache, g);
      assert first.elements + (mid.elements + last.elements) == (first.elements + mid.elements) + last.elements;
      assert first.log + (mid.log + last.log) == (first.log + mid.log) + last.log;
    }
  }

  /** The same walk read from the back: everything before the last group, then the last group on the cache left by the rest. */
  function EachAfter(step: (Cache, Group) -> Rendered, cache: Cache, groups: seq<Group>): Rendered
    decreases |groups|
  {
    if |groups| == 0 then Rendered([], cache, [])
    else
      var front := EachAfter(step, cache, groups[..|groups| - 1]);
      var last := step(front.cache, groups[|groups| - 1]);
      Rendered(front.elements + last.elements, last.cache, front.log + last.log)
  }

  /** Reading the walk from the front or from the back gives the same elements, cache and effects. */
  lemma {:induction false} FrontAndBackAgree(step: (Cache, Group) -> Rendered, cache: Cache, groups: seq<Group>)
    ensures EachAfter(step, cache, groups) == EachInTurn(step, cache, groups)
    decreases |groups|
  {
    if |groups| > 0 {
      var n := |groups| - 1;
      FrontAndBackAgree(step, cache, groups[..n]);
      EachInTurnSnoc(step, cache, groups[..n], groups[n]);
      assert groups[..n] + [groups[n]] == groups;
    }
  }

  /** RenderGroups is the back-to-front walk with RenderGroup as its step. */
  lemma {:induction false} RenderGroupsWalk(p: Platform, cache: Cache, format: (string, string) -> string, cb: Option<MergeCallback>, groups: seq<Group>)
    requires forall a :: 0 <= a < |groups| ==> groups[a].rows != []
    ensures RenderGroups(p, cache, format, cb, groups) == EachAfter((c, g) => RenderGroup(p, c, format, cb, g), cache, groups)
    decreases |groups|
  {
    if |groups| > 0 {
      RenderGroupsWalk(p, cache, format, cb, groups[..|groups| - 1]);
    }
  }

  /**
    The groups are rendered in group order, each on the cache the groups
    before it left, and the page is their elements one group after another.
   */
  lemma RenderGroupsInOrder(p: Platform, cache: Cache, format: (string, string) -> string, cb: Option<MergeCallback>, groups: seq<Group>)
    requires forall a :: 0 <= a < |groups| ==> groups[a].rows != []
    ensures RenderGroups(p, cache, format, cb, groups) == EachInTurn((c, g) => RenderGroup(p, c, format, cb, g), cache, groups)
  {
    RenderGroupsWalk(p, cache, format, cb, groups);
    FrontAndBackAgree((c, g) => RenderGroup(p, c, format, cb, g), cache, groups);
  }

  /** The two item loops: the static rows resolved first, then the skin rows on the cache they left. */
  function CollectItems(p: Platform, cache: Cache, staticRows: seq<Item>, skinRows: seq<Item>, merging: bool): (r: Resolved)
    ensures |r.items| == |staticRows| + |skinRows|
    ensures forall m :: 0 <= m < |r.items| ==> r.items[m].params == (staticRows + skinRows)[m].params
    ensures merging ==> r.cache == cache && r.log == []
    ensures !p.cacheEnabled ==> r.cache == cache && CacheUntouched(r.log)
    ensures NoMerge(r.log)
  {
    var st := ResolveAll(p, cache, Static, merging, staticRows);
    var sk := ResolveAll(p, st.cache, Skin, merging, skinRows);
    SameParamsConcat(st.items, staticRows, sk.items, skinRows);
    UntouchedConcat(st.log, sk.log);
    NoMergeConcat(st.log, sk.log);
    Resolved(st.items + sk.items, sk.cache, st.log + sk.log)
  }

  /** Rows that keep their parameter strings position by position still do so once concatenated. */
  lemma SameParamsConcat(a: seq<Item>, x: seq<Item>, b: seq<Item>, y: seq<Item>)
    requires |a| == |x| && |b| == |y|
    requires forall m :: 0 <= m < |a| ==> a[m].params == x[m].params
    requires forall m :: 0 <= m < |b| ==> b[m].params == y[m].params
    ensures forall m :: 0 <= m < |a + b| ==> (a + b)[m].params == (x + y)[m].params
  {
    forall m | 0 <= m < |a + b| ensures (a + b)[m].params == (x + y)[m].params {
      if m >= |a| {
        assert (a + b)[m] == b[m - |a|] && (x + y)[m] == y[m - |a|];
      }
    }
  }

  /**
    What the rows are: with a merger, the js/ files of the static items
    followed by the theme files of the skin items; without block caching,
    each static or skin item resolved on its own against the cache as it is.
   */
  lemma CollectedRows(p: Platform, cache: Cache, staticRows: seq<Item>, skinRows: seq<Item>, merging: bool)
    ensures var r := CollectItems(p, cache, staticRows, skinRows, merging);
            && (merging ==> forall m :: 0 <= m < |staticRows| ==> r.items[m].value == JsFile(p, staticRows[m].value))
            && (merging ==> forall m :: 0 <= m < |skinRows| ==> r.items[|staticRows| + m].value == p.skinFile(skinRows[m].value))
            && (!p.cacheEnabled ==> forall m :: 0 <= m < |staticRows| ==>
                  r.items[m].value == ResolveOne(p, cache, Static, merging, staticRows[m].value).value)
            && (!p.cacheEnabled ==> forall m :: 0 <= m < |skinRows| ==>
                  r.items[|staticRows| + m].value == ResolveOne(p, cache, Skin, merging, skinRows[m].value).value)
  {
    var st := ResolveAll(p, cache, Static, merging, staticRows);
    var sk := ResolveAll(p, st.cache, Skin, merging, skinRows);
    CollectedHalves(p, cache, staticRows, skinRows, merging);
    var items := CollectItems(p, cache, staticRows, skinRows, merging).items;
    if merging {
      forall m | 0 <= m < |staticRows| ensures items[m].value == JsFile(p, staticRows[m].value) {
        assert (st.items + sk.items)[m] == st.items[m];
      }
      forall m | 0 <= m < |skinRows| ensures items[|staticRows| + m].value == p.skinFile(skinRows[m].value) {
        assert (st.items + sk.items)[|staticRows| + m] == sk.items[m];
      }
    }
    if !p.cacheEnabled {
      forall m | 0 <= m < |staticRows|
        ensures items[m].value == ResolveOne(p, cache, Static, merging, staticRows[m].value).value
      {
        assert (st.items + sk.items)[m] == st.items[m];
      }
      forall m | 0 <= m < |skinRows|
        ensures items[|staticRows| + m].value == ResolveOne(p, cache, Skin, merging, skinRows[m].value).value
      {
        assert (st.items + sk.items)[|staticRows| + m] == sk.items[m];
      }
    }
  }

  /** The collected rows are the static rows resolved, then the skin rows resolved on the cache those left. */
  lemma CollectedHalves(p: Platform, cache: Cache, staticRows: seq<Item>, skinRows: seq<Item>, merging: bool)
    ensures var st := ResolveAll(p, cache, Static, merging, staticRows);
            CollectItems(p, cache, staticRows, skinRows, merging).items
            == st.items + ResolveAll(p, st.cache, Skin, merging, skinRows).items
  {
  }

  /**
    A static row, with or without block caching, is its item resolved on the
    cache the earlier static rows left.
   */
  lemma StaticRowInTurn(p: Platform, cache: Cache, staticRows: seq<Item>, skinRows: seq<Item>, merging: bool, m: nat)
    requires m < |staticRows|
    ensures CollectItems(p, cache, staticRows, skinRows, merging).items[m].value
            == ResolveOne(p, ResolveAll(p, cache, Static, merging, staticRows[..m]).cache, Static, merging, staticRows[m].value).value
  {
    var st := ResolveAll(p, cache, Static, merging, staticRows);
    var sk := ResolveAll(p, st.cache, Skin, merging, skinRows);
    CollectedHalves(p, cache, staticRows, skinRows, merging);
    assert (st.items + sk.items)[m] == st.items[m];
    RowInTurn(p, cache, Static, merging, staticRows, m);
  }

  /**
    A skin row, with or without block caching, is its item resolved on the
    cache all static rows and the earlier skin rows left.
   */
  lemma SkinRowInTurn(p: Platform, cache: Cache, staticRows: seq<Item>, skinRows: seq<Item>, merging: bool, m: nat)
    requires m < |skinRows|
    ensures var afterStatic := ResolveAll(p, cache, Static, merging, staticRows).cache;
            CollectItems(p, cache, staticRows, skinRows, merging).items[|staticRows| + m].value
            == ResolveOne(p, ResolveAll(p, afterStatic, Skin, merging, skinRows[..m]).cache, Skin, merging, skinRows[m].value).value
  {
    var st := ResolveAll(p, cache, Static, merging, staticRows);
    var sk := ResolveAll(p, st.cache, Skin, merging, skinRows);
    CollectedHalves(p, cache, staticRows, skinRows, merging);
    assert (st.items + sk.items)[|staticRows| + m] == sk.items[m];
    RowInTurn(p, st.cache, Skin, merging, skinRows, m);
  }

  /** `$html .= ...` over the elements. */
  function Concat(parts: seq<string>): string
  {
    if |parts| == 0 then "" else Concat(parts[..|parts| - 1]) + parts[|parts| - 1]
  }

  /** `$html .=` only appends: the html of a + b is the html of a followed by that of b, and one element is its own html. */
  lemma {:induction false} ConcatAppend(a: seq<string>, b: seq<string>)
    ensures Concat(a + b) == Concat(a) + Concat(b)
    ensures |a| == 1 ==> Concat(a) == a[0]
    decreases |b|
  {
    if |a| == 1 {
      assert a[..0] == [];
    }
    if |b| == 0 {
      assert a + b == a;
    } else {
      assert (a + b)[..|a + b| - 1] == a + b[..|b| - 1];
      ConcatAppend(a, b[..|b| - 1]);
    }
  }

  /**
    _prepareStaticAndSkinElements($format, $staticItems, $skinItems,
    $mergeCallback). Without a usable callback the page has one element per
    item name; in every case there is at least one element per group of
    equal parameter strings and at most one per name.
   */
  function PrepareElements(p: Platform, cache: Cache, format: (string, string) -> string,
                           staticItems: seq<Entry>, skinItems: seq<Entry>, callback: Option<MergeCallback>): (r: Page)
    ensures r.html == Concat(r.elements)
    ensures var c := CollectItems(p, cache, Pairs(staticItems), Pairs(skinItems), Usable(callback).Some?);
            && |GroupItems(c.items)| <= |r.elements| <= |Pairs(staticItems)| + |Pairs(skinItems)|
            && (Usable(callback).None? ==> |r.elements| == |Pairs(staticItems)| + |Pairs(skinItems)|)
            && (Usable(callback).None? ==> r.elements == Unmerged(format, GroupItems(c.items)))
  {
    var cb := Usable(callback);
    var c := CollectItems(p, cache, Pairs(staticItems), Pairs(skinItems), cb.Some?);
    var groups := GroupItems(c.items);
    var out := RenderGroups(p, c.cache, format, cb, groups);
    RowsRegrouped(groups, c.items);
    UnmergedCount(format, groups);
    Page(Concat(out.elements), out.elements, out.cache, c.log + out.log)
  }

  /**
    The merge callback is called only when it is usable, and then once per
    group, on the group's rows, in group order; resolving the items never
    calls it.
   */
  lemma MergerCalledPerGroup(p: Platform, cache: Cache, format: (string, string) -> string,
                             staticItems: seq<Entry>, skinItems: seq<Entry>, callback: Option<MergeCallback>)
    ensures var r := PrepareElements(p, cache, format, staticItems, skinItems, callback);
            var c := CollectItems(p, cache, Pairs(staticItems), Pairs(skinItems), Usable(callback).Some?);
            && (Usable(callback).None? ==> MergeCalls(r.log) == [])
            && (Usable(callback).Some? ==> MergeCalls(r.log) == RowLists(GroupItems(c.items)))
  {
    var cb := Usable(callback);
    var c := CollectItems(p, cache, Pairs(staticItems), Pairs(skinItems), cb.Some?);
    var groups := GroupItems(c.items);
    var out := RenderGroups(p, c.cache, format, cb, groups);
    NoMergeCalls(c.log);
    MergeCallsAppend(c.log, out.log);
  }

  /**
    With a usable callback the page is the groups' elements in group order,
    each group rendered on the cache the groups before it left.
   */
  lemma PageInGroupOrder(p: Platform, cache: Cache, format: (string, string) -> string,
                         staticItems: seq<Entry>, skinItems: seq<Entry>, callback: Option<MergeCallback>)
    ensures var r := PrepareElements(p, cache, format, staticItems, skinItems, callback);
            var c := CollectItems(p, cache, Pairs(staticItems), Pairs(skinItems), Usable(callback).Some?);
            var cb := Usable(callback);
            r.elements == EachInTurn((cc, g) => RenderGroup(p, cc, format, cb, g), c.cache, GroupItems(c.items)).elements
  {
    var cb := Usable(callback);
    var c := CollectItems(p, cache, Pairs(staticItems), Pairs(skinItems), cb.Some?);
    RenderGroupsInOrder(p, c.cache, format, cb, GroupItems(c.items));
  }

  /** A callback is_callable() rejects changes nothing: the page is the one rendered without a callback. */
  lemma UncallableIgnored(p: Platform, cache: Cache, format: (string, string) -> string,
                          staticItems: seq<Entry>, skinItems: seq<Entry>, m: MergeCallback)
    requires !m.callable
    ensures PrepareElements(p, cache, format, staticItems, skinItems, Some(m))
            == PrepareElements(p, cache, format, staticItems, skinItems, None)
  {
    assert Usable(Some(m)) == Usable(None);
  }

  /**
    Without a merger, block caching changes nothing visible as long as the
    cache agrees with the files: the page is the one rendered with caching
    switched off. In particular this holds for an empty cache, even with the
    same item listed twice or a name used both as a js/ and as a skin item,
    because their keys differ.
   */
  lemma WarmCacheRendersUncached(p: Platform, cache: Cache, format: (string, string) -> string,
                                 staticItems: seq<Entry>, skinItems: seq<Entry>, callback: Option<MergeCallback>)
    requires Usable(callback).None? && Agrees(p, cache)
    ensures PrepareElements(p, cache, format, staticItems, skinItems, callback).elements
            == PrepareElements(p.(cacheEnabled := false), cache, format, staticItems, skinItems, callback).elements
  {
    CollectedAsUncached(p, cache, Pairs(staticItems), Pairs(skinItems));
  }

  /** Right after the cache is flushed, a page without a merger looks exactly as it would with block caching off. */
  lemma FlushedCacheRendersUncached(p: Platform, format: (string, string) -> string,
                                    staticItems: seq<Entry>, skinItems: seq<Entry>, callback: Option<MergeCallback>)
    requires Usable(callback).None?
    ensures PrepareElements(p, map[], format, staticItems, skinItems, callback).elements
            == PrepareElements(p.(cacheEnabled := false), map[], format, staticItems, skinItems, callback).elements
  {
    WarmCacheRendersUncached(p, map[], format, staticItems, skinItems, callback);
  }

  /** Without block caching, rendering the head neither loads nor saves anything and leaves the cache as it was. */
  lemma CacheOffLeavesCache(p: Platform, cache: Cache, format: (string, string) -> string,
                            staticItems: seq<Entry>, skinItems: seq<Entry>, callback: Option<MergeCallback>)
    requires !p.cacheEnabled
    ensures var r := PrepareElements(p, cache, format, staticItems, skinItems, callback);
            r.cache == cache && CacheUntouched(r.log)
  {
    var cb := Usable(callback);
    var c := CollectItems(p, cache, Pairs(staticItems), Pairs(skinItems), cb.Some?);
    var groups := GroupItems(c.items);
    var out := RenderGroups(p, c.cache, format, cb, groups);
    UntouchedConcat(c.log, out.log);
  }

  /** Two row lists with the same parameter strings, position by position, group alike. */
  lemma {:induction false} SameParams(xs: seq<Item>, ys: seq<Item>)
    requires |xs| == |ys| && forall m :: 0 <= m < |xs| ==> xs[m].params == ys[m].params
    ensures ParamSet(xs) == ParamSet(ys)
    ensures forall k :: FirstIndex(xs, k) == FirstIndex(ys, k)
    decreases |xs|
  {
    if |xs| > 0 {
      SameParams(xs[1..], ys[1..]);
    }
  }

  /**
    The element groups appear in the order their parameter strings first
    occur in the layout, js/ items before skin items, and there is one group
    for every parameter string used.
   */
  lemma GroupsFollowLayout(p: Platform, cache: Cache, staticItems: seq<Entry>, skinItems: seq<Entry>, merging: bool)
    ensures var layout := Pairs(staticItems) + Pairs(skinItems);
            var groups := GroupItems(CollectItems(p, cache, Pairs(staticItems), Pairs(skinItems), merging).items);
            && KeySet(groups) == ParamSet(layout)
            && forall a, b :: 0 <= a < b < |groups| ==> FirstIndex(layout, groups[a].params) < FirstIndex(layout, groups[b].params)
  {
    var items := CollectItems(p, cache, Pairs(staticItems), Pairs(skinItems), merging).items;
    SameParams(items, Pairs(staticItems) + Pairs(skinItems));
  }

  /** Under every parameter string, the js/ rows come first and the skin rows after them, each in layout order. */
  lemma StaticRowsBeforeSkin(p: Platform, cache: Cache, staticItems: seq<Entry>, skinItems: seq<Entry>, merging: bool)
    ensures var st := ResolveAll(p, cache, Static, merging, Pairs(staticItems));
            var sk := ResolveAll(p, st.cache, Skin, merging, Pairs(skinItems));
            var groups := GroupItems(CollectItems(p, cache, Pairs(staticItems), Pairs(skinItems), merging).items);
            forall a :: 0 <= a < |groups| ==> groups[a].rows == RowsFor(st.items, groups[a].params) + RowsFor(sk.items, groups[a].params)
  {
    var st := ResolveAll(p, cache, Static, merging, Pairs(staticItems));
    var sk := ResolveAll(p, st.cache, Skin, merging, Pairs(skinItems));
    forall k {
      RowsForAppend(st.items, sk.items, k);
    }
  }

  lemma {:induction false} UnmergedCount(format: (string, string) -> string, groups: seq<Group>)
    ensures |Unmerged(format, groups)| == |AllRows(groups)|
    decreases |groups|
  {
    if |groups| > 0 {
      UnmergedCount(format, groups[..|groups| - 1]);
    }
  }

  lemma {:induction false} AllRowsCount(groups: seq<Group>)
    ensures |AllRows(groups)| == RowCount(groups)
    decreases |groups|
  {
    if |groups| > 0 {
      AllRowsCount(groups[..|groups| - 1]);
    }
  }

  /** Grouping neither loses nor duplicates rows: there are as many rows in the groups as items. */
  lemma RowsRegrouped(groups: seq<Group>, items: seq<Item>)
    requires GroupsOf(groups, items)
    ensures |AllRows(groups)| == |items|
  {
    AllRowsCount(groups);
  }
}
