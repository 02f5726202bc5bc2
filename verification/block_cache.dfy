/**
  The block's use of the host cache: key construction, the cache-gated
  memoisation around each hashing entry point, and the record of side
  effects. The cache is a map from key to saved string; every effect the
  block has on its surroundings (cache loads and saves, file-existence checks,
  file reads, calls of the merge callback) is appended to a log, so that what
  a call did NOT do can be stated.
 */
module BlockCache {
  import opened Php

  type Cache = map<string, string>

  datatype Event =
    | Load(key: string)                 // $cache->load($key)
    | Save(key: string, value: string)  // $cache->save($value, $key, ...)
    | Probe(path: string)               // file_exists($path)
    | Read(path: string)                // hash_file('crc32', $path)
    | Merge(files: seq<string>)         // call_user_func($mergeCallback, $files)

  /** What a computation returns and the effects it had, before the cache gate. */
  datatype Step = Step(value: string, log: seq<Event>)

  /** What an entry point returns, the cache after it, and its effects in order. */
  datatype Outcome = Outcome(value: string, cache: Cache, log: seq<Event>)

  /** No cache load or save happened. */
  predicate CacheUntouched(log: seq<Event>) {
    forall m :: 0 <= m < |log| ==> !log[m].Load? && !log[m].Save?
  }

  /** Effects one after the other touch the cache exactly when one of the stretches does. */
  lemma UntouchedConcat(a: seq<Event>, b: seq<Event>)
    ensures CacheUntouched(a + b) <==> CacheUntouched(a) && CacheUntouched(b)
  {
    assert forall m :: 0 <= m < |a| ==> (a + b)[m] == a[m];
    assert forall m :: 0 <= m < |b| ==> (a + b)[|a| + m] == b[m];
  }

  /** Nothing was saved to the cache. */
  predicate CacheUnsaved(log: seq<Event>) {
    forall m :: 0 <= m < |log| ==> !log[m].Save?
  }

  /** No file was looked at. */
  predicate FilesUntouched(log: seq<Event>) {
    forall m :: 0 <= m < |log| ==> !log[m].Probe? && !log[m].Read?
  }

  /** The merge callback was not called. */
  predicate NoMerge(log: seq<Event>) {
    forall m :: 0 <= m < |log| ==> !log[m].Merge?
  }

  /** Effects one after the other call the merger exactly when one of the stretches does. */
  lemma NoMergeConcat(a: seq<Event>, b: seq<Event>)
    ensures NoMerge(a + b) <==> NoMerge(a) && NoMerge(b)
  {
    assert forall m :: 0 <= m < |a| ==> (a + b)[m] == a[m];
    assert forall m :: 0 <= m < |b| ==> (a + b)[|a| + m] == b[m];
  }

  /** _getCacheName($name, $type): implode('_', ['head_tag', $type, $name]). */
  function CacheName(name: string, kind: string): (r: string)
    ensures r == "head_tag_" + kind + "_" + name
  {
    ImplodeThree("_", "head_tag", kind, name);
    Implode("_", ["head_tag", kind, name])
  }

  /** The first argument every call site passes: the kind of asset. */
  predicate IsKind(kind: string) {
    kind == "js" || kind == "skin" || kind == "url"
  }

  /**
    Every call site passes the kind first and the asset second, so they land
    in the parameters the other way round: the key is
    head_tag_<asset>_<kind>.
   */
  lemma CallSiteKey(kind: string, asset: string)
    ensures CacheName(kind, asset) == "head_tag_" + asset + "_" + kind
  {
  }

  /** Keys of the three kinds never collide: the same key means the same kind and the same asset. */
  lemma {:induction false} KeysDistinct(kind1: string, asset1: string, kind2: string, asset2: string)
    requires IsKind(kind1) && IsKind(kind2)
    requires CacheName(kind1, asset1) == CacheName(kind2, asset2)
    ensures kind1 == kind2 && asset1 == asset2
  {
    CallSiteKey(kind1, asset1);
    CallSiteKey(kind2, asset2);
    var key := CacheName(kind1, asset1);
    // The kinds end in 's', 'n' and 'l': the key's last character names its kind.
    assert key[|key| - 1] == kind1[|kind1| - 1];
    assert key[|key| - 1] == kind2[|kind2| - 1];
    assert kind1 == kind2;
    assert |asset1| == |asset2|;
    assert asset1 == key[9..9 + |asset1|] == asset2;
  }

  /** A load answers with a value PHP treats as true. */
  predicate Hit(cache: Cache, key: string) {
    key in cache && Truthy(cache[key])
  }

  /**
    The cache gate around an entry point: when block caching is on, a hit is
    returned as it is; otherwise the work is done and, when it produced a
    value to keep, that value is saved under the key.
   */
  function Gate(enabled: bool, cache: Cache, key: string, work: Step, keep: bool): (r: Outcome)
    ensures enabled && Hit(cache, key) ==> r == Outcome(cache[key], cache, [Load(key)])
    ensures enabled && !Hit(cache, key) && keep ==>
              && r.value == work.value && r.cache == cache[key := r.value]
              && r.log == [Load(key)] + work.log + [Save(key, r.value)]
    ensures enabled && !Hit(cache, key) && !keep ==> r == Outcome(work.value, cache, [Load(key)] + work.log)
    ensures !enabled ==> r == Outcome(work.value, cache, work.log)
    ensures NoMerge(work.log) ==> NoMerge(r.log)
  {
    if enabled && Hit(cache, key) then Outcome(cache[key], cache, [Load(key)])
    else if enabled && keep then
      Outcome(work.value, cache[key := work.value], [Load(key)] + work.log + [Save(key, work.value)])
    else if enabled then Outcome(work.value, cache, [Load(key)] + work.log)
    else Outcome(work.value, cache, work.log)
  }

  /**
    Memoisation: once a gated call has produced a truthy value and kept it,
    the next call with the same key is a hit that returns the same value and
    does nothing but the load, whatever work it would otherwise do.
   */
  lemma RepeatHits(cache: Cache, key: string, work: Step, again: Step, keep: bool, keepAgain: bool)
    requires keep && Truthy(Gate(true, cache, key, work, keep).value)
    ensures var first := Gate(true, cache, key, work, keep);
            Gate(true, first.cache, key, again, keepAgain) == Outcome(first.value, first.cache, [Load(key)])
  {
  }
}
