/**
  The block's hashing entry points: hashing one file into a URL, the
  cache-gated hashing of a js/ item, of a skin item and of a merged file, and
  the choice of the merged file's location.

  Everything the block asks the host platform, the request and the file
  system is a field of Platform: the crc32 and md5 algorithms are functions
  the model does not look into, the file system is a map from path to
  content, and theme resolution is a pair of functions.
 */
module AssetHash {
  import opened Php
  import opened HashEmbed
  import opened VersionPattern
  import opened BlockCache

  /** DS, the directory separator. */
  const Sep: string := "/"

  datatype Platform = Platform(
    mode: Method,                         // $this->method
    cacheEnabled: bool,                   // _isBlockCacheEnabled(), fixed for the block
    baseDir: string,                      // Mage::getBaseDir()
    mediaDir: string,                     // Mage::getBaseDir('media')
    baseJsUrl: string,                    // Mage::getBaseUrl('js')
    skinUrl: string -> string,            // getSkinUrl($name)
    skinFile: string -> string,           // getFilename($name, array('_type' => 'skin'))
    isSecure: bool,                       // the request's isSecure()
    mediaHost: Option<bool> -> string,    // parse_url(getBaseUrl('media', $secure), PHP_URL_HOST)
    mediaPort: Option<bool> -> string,    // the same for PHP_URL_PORT, as interpolated into a string
    files: map<string, string>,           // path -> content; absent paths fail file_exists()
    crc32: string -> string,              // hash_file('crc32', ...) of a content
    md5: string -> string)                // md5()

  /**
    _appendFileHashToUrl: a missing file leaves the URL as it is (after
    only the existence check); an existing one has the crc32 of its content
    embedded (after the check and one read).
   */
  function AppendFileHashToUrl(p: Platform, url: string, file: string): (r: Step)
    ensures file !in p.files ==> r == Step(url, [Probe(file)])
    ensures file in p.files ==>
              r == Step(AppendHash(url, p.crc32(p.files[file]), p.mode), [Probe(file), Read(file)])
  {
    if file !in p.files then Step(url, [Probe(file)])
    else Step(AppendHash(url, p.crc32(p.files[file]), p.mode), [Probe(file), Read(file)])
  }

  /**
    The URL depends on the file only through its content: two file systems
    that agree on whether the file exists and on what it holds give the same
    URL and the same effects.
   */
  lemma SameContentSameUrl(p: Platform, url: string, file: string, files1: map<string, string>, files2: map<string, string>)
    requires (file in files1 <==> file in files2)
    requires file in files1 ==> files1[file] == files2[file]
    ensures AppendFileHashToUrl(p.(files := files1), url, file) == AppendFileHashToUrl(p.(files := files2), url, file)
  {
  }

  /**
    Cache busting works: when the file's content changes so that its crc32
    changes, the URL changes too. The version method needs a URL the pattern
    matches, the query method truthy checksums.
   */
  lemma {:induction false} ContentChangeChangesUrl(p: Platform, url: string, file: string, files1: map<string, string>, files2: map<string, string>)
    requires file in files1 && file in files2
    requires p.crc32(files1[file]) != p.crc32(files2[file])
    requires p.mode == Version ==> Split(url).Some?
    requires p.mode == Query ==> Truthy(p.crc32(files1[file])) && Truthy(p.crc32(files2[file]))
    ensures AppendFileHashToUrl(p.(files := files1), url, file).value != AppendFileHashToUrl(p.(files := files2), url, file).value
  {
    var h1, h2 := p.crc32(files1[file]), p.crc32(files2[file]);
    if AppendHash(url, h1, p.mode) == AppendHash(url, h2, p.mode) {
      HashChangesUrl(url, h1, h2, p.mode);
    }
  }

  /**
    The hashed URL is what the source computes whenever the difference
    between the as-written and the fail-closed embedding cannot show: the file
    is missing, the query method is in use, or the pattern matches the URL.
   */
  lemma FileHashAsWrittenOnMatch(p: Platform, url: string, file: string)
    requires file !in p.files || p.mode == Query || Split(url).Some?
    ensures AppendFileHashToUrl(p, url, file).value
            == (if file in p.files then AppendHashAsWritten(url, p.crc32(p.files[file]), p.mode) else url)
  {
    if file in p.files {
      CorrectedAgreesOnMatch(url, p.crc32(p.files[file]), p.mode);
    }
  }

  /**
    The cache gate the three hashing entry points share: with block caching
    on, a truthy entry under the key is returned after a load alone;
    otherwise the file is checked, the URL comes back with the file's crc32
    embedded (or as it is when the file is missing), and with caching on the
    result is saved under the key.
   */
  function GatedFileHash(p: Platform, cache: Cache, key: string, url: string, file: string): (r: Outcome)
    ensures p.cacheEnabled && Hit(cache, key) ==> r == Outcome(cache[key], cache, [Load(key)])
    ensures p.cacheEnabled && !Hit(cache, key) ==>
              && r.cache == cache[key := r.value]
              && |r.log| >= 2 && r.log[0] == Load(key) && r.log[|r.log| - 1] == Save(key, r.value)
    ensures !p.cacheEnabled ==> r.cache == cache && CacheUntouched(r.log)
    ensures !(p.cacheEnabled && Hit(cache, key)) ==>
              && Probe(file) in r.log
              && r.value == (if file in p.files then AppendHash(url, p.crc32(p.files[file]), p.mode) else url)
    ensures NoMerge(r.log)
  {
    var work := AppendFileHashToUrl(p, url, file);
    assert work.log[0] == Probe(file);
    Gate(p.cacheEnabled, cache, key, work, true)
  }

  /** The file behind a js/ item. */
  function JsFile(p: Platform, name: string): string
  {
    p.baseDir + Sep + "js" + Sep + name
  }

  /** The file behind a skin item, looked up with the name's slashes trimmed. */
  function SkinFile(p: Platform, name: string): string
  {
    p.skinFile(Trim(name, {'/'}))
  }

  /** The js/ file of an item lies under base/js/ and names the item: two names never share a file. */
  lemma JsFileNamesItem(p: Platform, a: string, b: string)
    ensures var dir := p.baseDir + Sep + "js" + Sep;
            dir <= JsFile(p, a) && JsFile(p, a)[|dir|..] == a
    ensures JsFile(p, a) == JsFile(p, b) ==> a == b
  {
    var dir := p.baseDir + Sep + "js" + Sep;
    assert JsFile(p, a) == dir + a && JsFile(p, b) == dir + b;
    assert (dir + a)[|dir|..] == a && (dir + b)[|dir|..] == b;
  }

  /** Slashes around a skin name are trimmed before the look-up: "/css/a.css/" hashes the theme file of "css/a.css". */
  lemma SkinFileIgnoresSlashes(p: Platform, head: string, name: string, tail: string)
    requires forall m :: 0 <= m < |head| ==> head[m] == '/'
    requires forall m :: 0 <= m < |tail| ==> tail[m] == '/'
    ensures SkinFile(p, head + name + tail) == SkinFile(p, name)
  {
    TrimAbsorbsPadding(head, name, tail, {'/'});
  }

  /**
    _appendJsFileHashsum. The hashed URL is the item's name (relative to the
    js/ base URL) with the crc32 of the js/ file embedded, kept under the key
    head_tag_<name>_js.
   */
  function JsFileHashsum(p: Platform, cache: Cache, name: string): (r: Outcome)
    ensures var key := "head_tag_" + name + "_js";
            && (p.cacheEnabled && Hit(cache, key) ==> r == Outcome(cache[key], cache, [Load(key)]))
            && (p.cacheEnabled && !Hit(cache, key) ==>
                  && r.cache == cache[key := r.value]
                  && |r.log| >= 2 && r.log[0] == Load(key) && r.log[|r.log| - 1] == Save(key, r.value))
            && (!p.cacheEnabled ==> r.cache == cache && CacheUntouched(r.log))
            && (!(p.cacheEnabled && Hit(cache, key)) ==>
                  && Probe(JsFile(p, name)) in r.log
                  && r.value == (if JsFile(p, name) in p.files
                                 then AppendHash(name, p.crc32(p.files[JsFile(p, name)]), p.mode)
                                 else name))
    ensures NoMerge(r.log)
  {
    var key := CacheName("js", name);
    assert key == "head_tag_" + name + "_js" by { CallSiteKey("js", name); }
    GatedFileHash(p, cache, key, name, JsFile(p, name))
  }

  /**
    _appendSkinFileHashsum. The hashed URL is the skin URL of the item with
    the crc32 of its theme file embedded, kept under the key
    head_tag_<name>_skin.
   */
  function SkinFileHashsum(p: Platform, cache: Cache, name: string): (r: Outcome)
    ensures var key := "head_tag_" + name + "_skin";
            && (p.cacheEnabled && Hit(cache, key) ==> r == Outcome(cache[key], cache, [Load(key)]))
            && (p.cacheEnabled && !Hit(cache, key) ==>
                  && r.cache == cache[key := r.value]
                  && |r.log| >= 2 && r.log[0] == Load(key) && r.log[|r.log| - 1] == Save(key, r.value))
            && (!p.cacheEnabled ==> r.cache == cache && CacheUntouched(r.log))
            && (!(p.cacheEnabled && Hit(cache, key)) ==>
                  && Probe(SkinFile(p, name)) in r.log
                  && r.value == (if SkinFile(p, name) in p.files
                                 then AppendHash(p.skinUrl(name), p.crc32(p.files[SkinFile(p, name)]), p.mode)
                                 else p.skinUrl(name)))
    ensures NoMerge(r.log)
  {
    var key := CacheName("skin", name);
    assert key == "head_tag_" + name + "_skin" by { CallSiteKey("skin", name); }
    GatedFileHash(p, cache, key, p.skinUrl(name), SkinFile(p, name))
  }

  /**
    Where a merged file lives: its media subdirectory, its extension, and the
    "secure" argument with which the media base URL is asked for.
   */
  datatype Target = Target(dir: string, ext: string, secure: Option<bool>)

  /**
    The asset kind read off the merge callback's method name with
    `strpos(...) != false`: "Js" gives js/.js, else "Css" gives css or
    css_secure by the request and .css, else nothing. strpos finds the first
    occurrence, and the loose comparison takes offset 0 for false, so a name
    whose first "Js" (or "Css") is at offset 0 does not count for that kind.
    The js branch asks for the media URL with $isSecure never set, i.e. null.
   */
  function MergeTarget(callbackMethod: string, isSecure: bool): (r: Option<Target>)
    ensures var js := (exists q :: OccursAt(callbackMethod, "Js", q)) && !OccursAt(callbackMethod, "Js", 0);
            var css := (exists q :: OccursAt(callbackMethod, "Css", q)) && !OccursAt(callbackMethod, "Css", 0);
            && (js ==> r == Some(Target("js", ".js", None)))
            && (!js && css ==> r == Some(Target(if isSecure then "css_secure" else "css", ".css", Some(isSecure))))
            && (!js && !css ==> r == None)
  {
    if LooselyFound(callbackMethod, "Js") then Some(Target("js", ".js", None))
    else if LooselyFound(callbackMethod, "Css") then
      Some(Target(if isSecure then "css_secure" else "css", ".css", Some(isSecure)))
    else None
  }

  /** The merged file: md5 of the comma-joined sources, the media host and port, under the kind's media directory. */
  function MergedFile(p: Platform, files: seq<string>, t: Target): (r: string)
    ensures var dir := p.mediaDir + Sep + t.dir + Sep;
            var digest := p.md5(Implode(",", files) + "|" + p.mediaHost(t.secure) + "|" + p.mediaPort(t.secure));
            && |r| == |dir| + |digest| + |t.ext|
            && r[..|dir|] == dir
            && r[|dir|..|dir| + |digest|] == digest
            && r[|dir| + |digest|..] == t.ext
  {
    var digest := p.md5(Implode(",", files) + "|" + p.mediaHost(t.secure) + "|" + p.mediaPort(t.secure));
    p.mediaDir + Sep + t.dir + Sep + digest + t.ext
  }

  /**
    _appendHashToMergedFile. Gated under head_tag_<url>_url. On a miss, a
    callback name with no recognisable kind gives the URL back with no file
    look-up and nothing saved; a recognised one checks the merged file the
    callback materialised, embeds the crc32 of its content (or leaves the URL
    as it is when the file is missing) and saves the result.
   */
  function AppendHashToMergedFile(p: Platform, cache: Cache, url: string, files: seq<string>, callbackMethod: string): (r: Outcome)
    ensures var key := "head_tag_" + url + "_url";
            && (p.cacheEnabled && Hit(cache, key) ==> r == Outcome(cache[key], cache, [Load(key)]))
            && (!(p.cacheEnabled && Hit(cache, key)) && MergeTarget(callbackMethod, p.isSecure).None? ==>
                  r.value == url && r.cache == cache && FilesUntouched(r.log) && CacheUnsaved(r.log))
            && (!(p.cacheEnabled && Hit(cache, key)) && MergeTarget(callbackMethod, p.isSecure).Some? ==>
                  var file := MergedFile(p, files, MergeTarget(callbackMethod, p.isSecure).value);
                  && r.value == (if file in p.files then AppendHash(url, p.crc32(p.files[file]), p.mode) else url)
                  && Probe(file) in r.log)
            && (p.cacheEnabled && !Hit(cache, key) && MergeTarget(callbackMethod, p.isSecure).Some? ==>
                  r.cache == cache[key := r.value] && |r.log| >= 2 && r.log[|r.log| - 1] == Save(key, r.value))
            && (!p.cacheEnabled ==> r.cache == cache && CacheUntouched(r.log))
    ensures NoMerge(r.log)
  {
    var key := CacheName("url", url);
    assert key == "head_tag_" + url + "_url" by { CallSiteKey("url", url); }
    match MergeTarget(callbackMethod, p.isSecure)
    case None => Gate(p.cacheEnabled, cache, key, Step(url, []), false)
    case Some(t) => GatedFileHash(p, cache, key, url, MergedFile(p, files, t))
  }

  /** The merge callbacks the page head passes in: getMergedJsUrl and getMergedCssUrl. */
  lemma HostCallbackKinds(isSecure: bool)
    ensures MergeTarget("getMergedJsUrl", isSecure) == Some(Target("js", ".js", None))
    ensures MergeTarget("getMergedCssUrl", isSecure)
            == Some(Target(if isSecure then "css_secure" else "css", ".css", Some(isSecure)))
  {
    var js, css := "getMergedJsUrl", "getMergedCssUrl";
    assert OccursAt(js, "Js", 9) by { assert js[9..11] == "Js"; }
    assert !OccursAt(js, "Js", 0) by { assert js[0] == 'g'; }
    AbsentFirstChar(css, "Js");
    assert OccursAt(css, "Css", 9) by { assert css[9..12] == "Css"; }
    assert !OccursAt(css, "Css", 0) by { assert css[0] == 'g'; }
  }

  /** The insecure stylesheet target puts two merged sources at media/css/<md5 of "a,b|host|port">.css. */
  lemma CssMergedFile(p: Platform, a: string, b: string)
    ensures MergedFile(p, [a, b], Target("css", ".css", Some(false)))
            == p.mediaDir + "/css/" + p.md5(a + "," + b + "|" + p.mediaHost(Some(false)) + "|" + p.mediaPort(Some(false))) + ".css"
  {
    assert Implode(",", [a, b]) == a + "," + b by {
      assert [a, b][1..] == [b];
    }
  }

  /**
    Two stylesheets merged by getMergedCssUrl for a plain-HTTP request: the
    target is the insecure css one, so the merged file is
    media/css/<md5 of "a,b|host|port">.css with host and port of the
    insecure media URL.
   */
  lemma CssTargetExample(p: Platform, a: string, b: string)
    requires !p.isSecure
    ensures MergeTarget("getMergedCssUrl", p.isSecure) == Some(Target("css", ".css", Some(false)))
    ensures MergedFile(p, [a, b], MergeTarget("getMergedCssUrl", p.isSecure).value)
            == p.mediaDir + "/css/" + p.md5(a + "," + b + "|" + p.mediaHost(Some(false)) + "|" + p.mediaPort(Some(false))) + ".css"
  {
    HostCallbackKinds(p.isSecure);
    CssMergedFile(p, a, b);
  }

  /** A name whose first "Js" is at offset 0 is not taken for a script merger, even when "Js" occurs again later. */
  lemma LeadingKindIgnored()
    ensures MergeTarget("JsMergeJs", false) == None
  {
    assert "JsMergeJs"[0..2] == "Js";
    AbsentFirstChar("JsMergeJs", "Css");
  }

  /** A leading "Js" does not stop a later "Css" from counting: JsMergeCss is a stylesheet merger. */
  lemma LeadingJsStillCss(isSecure: bool)
    ensures MergeTarget("JsMergeCss", isSecure)
            == Some(Target(if isSecure then "css_secure" else "css", ".css", Some(isSecure)))
  {
    var name := "JsMergeCss";
    assert OccursAt(name, "Js", 0) by { assert name[0..2] == "Js"; }
    assert OccursAt(name, "Css", 7) by { assert name[7..10] == "Css"; }
    assert !OccursAt(name, "Css", 0) by { assert name[0] == 'J'; }
  }

  /**
    A hit does not look at the file system at all: the result is the same
    whatever the files now hold, so a saved URL stays until the cache is
    flushed, even when the file has changed since.
   */
  lemma HitIgnoresFiles(p: Platform, cache: Cache, name: string, files: map<string, string>)
    requires p.cacheEnabled && Hit(cache, "head_tag_" + name + "_js")
    ensures JsFileHashsum(p.(files := files), cache, name) == JsFileHashsum(p, cache, name)
    ensures FilesUntouched(JsFileHashsum(p, cache, name).log)
  {
  }

  /**
    Without block caching every call does the whole resolution again: the
    value does not depend on what the cache holds, and the file is checked
    each time.
   */
  lemma DisabledRecomputes(p: Platform, cache1: Cache, cache2: Cache, name: string)
    requires !p.cacheEnabled
    ensures JsFileHashsum(p, cache1, name).value == JsFileHashsum(p, cache2, name).value
    ensures JsFileHashsum(p, cache1, name).log == JsFileHashsum(p, cache2, name).log
    ensures Probe(JsFile(p, name)) in JsFileHashsum(p, cache2, name).log
  {
  }

  /**
    A missing file is not an error and is not exempt from caching: with the
    cache on and no hit, the unhashed name is what comes back and what is
    saved under the item's key.
   */
  lemma MissingFileCachedUnhashed(p: Platform, cache: Cache, name: string)
    requires p.cacheEnabled && !Hit(cache, "head_tag_" + name + "_js") && JsFile(p, name) !in p.files
    ensures JsFileHashsum(p, cache, name).value == name
    ensures JsFileHashsum(p, cache, name).cache == cache["head_tag_" + name + "_js" := name]
  {
  }

  /** A second call for the same js/ item after a truthy result is a plain hit. */
  lemma JsRepeatHits(p: Platform, cache: Cache, name: string)
    requires p.cacheEnabled && Truthy(JsFileHashsum(p, cache, name).value)
    ensures var first := JsFileHashsum(p, cache, name);
            JsFileHashsum(p, first.cache, name) == Outcome(first.value, first.cache, [Load("head_tag_" + name + "_js")])
  {
    var key := CacheName("js", name);
    assert key == "head_tag_" + name + "_js" by { CallSiteKey("js", name); }
    RepeatHits(cache, key, AppendFileHashToUrl(p, name, JsFile(p, name)),
               AppendFileHashToUrl(p, name, JsFile(p, name)), true, true);
  }

  /** A hit on a skin item does not look at the theme files, so the saved URL stays until the cache is flushed. */
  lemma SkinHitIgnoresFiles(p: Platform, cache: Cache, name: string, files: map<string, string>)
    requires p.cacheEnabled && Hit(cache, "head_tag_" + name + "_skin")
    ensures SkinFileHashsum(p.(files := files), cache, name) == SkinFileHashsum(p, cache, name)
    ensures FilesUntouched(SkinFileHashsum(p, cache, name).log)
  {
  }

  /** Without block caching a skin item is resolved afresh each time, whatever the cache holds. */
  lemma SkinDisabledRecomputes(p: Platform, cache1: Cache, cache2: Cache, name: string)
    requires !p.cacheEnabled
    ensures SkinFileHashsum(p, cache1, name).value == SkinFileHashsum(p, cache2, name).value
    ensures SkinFileHashsum(p, cache1, name).log == SkinFileHashsum(p, cache2, name).log
    ensures Probe(SkinFile(p, name)) in SkinFileHashsum(p, cache2, name).log
  {
  }

  /** A missing theme file on a miss, with caching on, gives the unhashed skin URL and saves it. */
  lemma SkinMissingFileCachedUnhashed(p: Platform, cache: Cache, name: string)
    requires p.cacheEnabled && !Hit(cache, "head_tag_" + name + "_skin") && SkinFile(p, name) !in p.files
    ensures SkinFileHashsum(p, cache, name).value == p.skinUrl(name)
    ensures SkinFileHashsum(p, cache, name).cache == cache["head_tag_" + name + "_skin" := p.skinUrl(name)]
  {
  }

  /** A second call for the same skin item after a truthy result is a plain hit. */
  lemma SkinRepeatHits(p: Platform, cache: Cache, name: string)
    requires p.cacheEnabled && Truthy(SkinFileHashsum(p, cache, name).value)
    ensures var first := SkinFileHashsum(p, cache, name);
            SkinFileHashsum(p, first.cache, name) == Outcome(first.value, first.cache, [Load("head_tag_" + name + "_skin")])
  {
    var key := CacheName("skin", name);
    assert key == "head_tag_" + name + "_skin" by { CallSiteKey("skin", name); }
    var work := AppendFileHashToUrl(p, p.skinUrl(name), SkinFile(p, name));
    RepeatHits(cache, key, work, work, true, true);
  }

  /**
    A merged URL whose hashed form was saved truthy is a plain hit the next
    time: neither the callback name nor the sources nor the files are looked
    at again.
   */
  lemma MergedRepeatHits(p: Platform, cache: Cache, url: string, files: seq<string>, callbackMethod: string,
                         files2: seq<string>, callbackMethod2: string)
    requires p.cacheEnabled && MergeTarget(callbackMethod, p.isSecure).Some?
    requires Truthy(AppendHashToMergedFile(p, cache, url, files, callbackMethod).value)
    ensures var first := AppendHashToMergedFile(p, cache, url, files, callbackMethod);
            AppendHashToMergedFile(p, first.cache, url, files2, callbackMethod2)
            == Outcome(first.value, first.cache, [Load("head_tag_" + url + "_url")])
  {
  }

  /**
    A merged URL whose merged file changed content, so that its crc32
    changed, gets a different hashed URL on a miss (version method on a
    matched URL, or query method with truthy checksums).
   */
  lemma MergedContentChangesUrl(p: Platform, cache: Cache, url: string, files: seq<string>, callbackMethod: string,
                                contents1: map<string, string>, contents2: map<string, string>)
    requires !(p.cacheEnabled && Hit(cache, "head_tag_" + url + "_url")) && MergeTarget(callbackMethod, p.isSecure).Some?
    requires var file := MergedFile(p, files, MergeTarget(callbackMethod, p.isSecure).value);
             && file in contents1 && file in contents2
             && p.crc32(contents1[file]) != p.crc32(contents2[file])
             && (p.mode == Version ==> Split(url).Some?)
             && (p.mode == Query ==> Truthy(p.crc32(contents1[file])) && Truthy(p.crc32(contents2[file])))
    ensures AppendHashToMergedFile(p.(files := contents1), cache, url, files, callbackMethod).value
            != AppendHashToMergedFile(p.(files := contents2), cache, url, files, callbackMethod).value
  {
    var file := MergedFile(p, files, MergeTarget(callbackMethod, p.isSecure).value);
    ContentChangeChangesUrl(p, url, file, contents1, contents2);
  }
}
