# Cache-busting page head: a Dafny model

This project models the core of the CacheControl extension's page-head
block: the code that renders the `<script>` and `<link>` elements of a
Magento page and embeds a crc32 checksum of each asset file into its URL, so
browsers fetch the file again exactly when its content changes.

What is modelled:

- **Hash embedding.** There are two methods. The version method (the default)
  rewrites `path/file.ext?query` to `path/file.<hash>.ext?query` using a
  regular expression. The query method appends `?<hash>`. The regular
  expression is modelled with PCRE's own rules (module `VersionPattern`):
  - `.` stops at a line feed;
  - `$` also matches before a final line feed;
  - the greedy `uri` group is backed off one character at a time.
- **Per-file hashing.** A missing file leaves the URL unchanged. An existing
  file has the crc32 of its content embedded.
- **The three cache-gated entry points:** js/ items, skin items and merged
  files. Each entry point:
  - builds its cache key;
  - returns a truthy cached value as it is;
  - otherwise does the work, and saves the result when block caching is on
    and, for a merged file, the callback's kind is recognised. With an
    unrecognised merge callback it returns the URL and saves
    nothing.

  Every side effect goes into an ordered event log: cache load, cache save,
  file-existence check, file read and merge-callback call. This lets the
  model state what a call does *not* do.
- **Merged-file location.** The asset kind is read off the merge callback's
  method name. From the kind and the request follow the media
  subdirectory, the extension and the md5-based file name.
- **Rendering the head** (`_prepareStaticAndSkinElements`):
  1. resolve every static and skin item;
  2. group the rows by their parameter string, keeping first-seen order as a
     PHP array does;
  3. trim and normalise each parameter string;
  4. render one element per group when the merged URL, after merged-file
     hashing, is truthy, and one element per row otherwise.

Modules:

- `Php` covers PHP truthiness, `trim`, `strpos` under a loose `!= false`,
  and `implode`.
- `VersionPattern` is the version regular expression.
- `HashEmbed` is `_appendHashToUrl`, both as written and corrected.
- `BlockCache` holds the cache keys, the event log and the cache gate.
- `AssetHash` holds the hashing entry points and the `Platform` record of
  everything the block asks its host.
- `Grouping` is the ordered grouping of rows by parameter string.
- `HeadRender` is the whole element preparation.

The host is a parameter, not a model. The `Platform` record carries the
following, all as values or uninterpreted functions:
- base directories and URLs;
- theme look-up;
- the request's security flag;
- media host and port;
- the file system, as a map from path to content;
- crc32 and md5.

The HTML element template is likewise a function `format(src, params)`.

## Model

| member | source | states |
|---|---|---|
| Php.Trim | app/code/community/Emagedev/CacheControl/Block/Html/Head.php:151 | trim() keeps a contiguous piece of the input. Everything cut off on either side is in the character list, and the kept piece neither starts nor ends with one. |
| Php.TrimOfPieces | app/code/community/Emagedev/CacheControl/Block/Html/Head.php:151 | For head + kept + tail, where head and tail consist of stripped characters and kept has non-stripped ends, trim() gives exactly kept. |
| Php.TrimIdempotent | app/code/community/Emagedev/CacheControl/Block/Html/Head.php:151 | Trimming an already trimmed string changes nothing. |
| Php.TrimAbsorbsPadding | app/code/community/Emagedev/CacheControl/Block/Html/Head.php:218 | Characters of the list added around a string are stripped along with the rest, so the trimmed string is the same with or without them. |
| Php.LooselyFound | app/code/community/Emagedev/CacheControl/Block/Html/Head.php:253 | `strpos($hay, $needle) != false` holds exactly when the needle occurs somewhere but not at offset 0. |
| Php.StrPos | app/code/community/Emagedev/CacheControl/Block/Html/Head.php:253-257 | strpos() gives the offset of the first occurrence of the needle, with no occurrence before it. It gives false exactly when the needle occurs nowhere. |
| Php.Implode | app/code/community/Emagedev/CacheControl/Block/Html/Head.php:82 | implode() joins the pieces with the glue between neighbours. ImplodeThree gives the three-piece form `_getCacheName` uses. ImplodeSnoc shows the pieces are read left to right: a piece added at the end comes after the glue. |
| Php.ImplodeSnoc | app/code/community/Emagedev/CacheControl/Block/Html/Head.php:82 | Adding a piece at the end appends the glue and that piece; a single piece is joined without glue. |
| VersionPattern.FindMatch | app/code/community/Emagedev/CacheControl/Block/Html/Head.php:317 | preg_match gives a match exactly when some match of the pattern exists, and the match it gives is the one backtracking prefers: the longest uri, then the longest ext. |
| VersionPattern.Split | app/code/community/Emagedev/CacheControl/Block/Html/Head.php:316-318 | `$matches` after preg_match: the uri, ext and query groups of the preferred match, or nothing. SplitGroups and SplitOfLineFreeUrl characterise it. |
| VersionPattern.SplitGroups | app/code/community/Emagedev/CacheControl/Block/Html/Head.php:316-318 | For every subject, line feeds included, `$matches` is empty exactly when the pattern cannot match. Otherwise the groups are the slices of the preferred match, they lie end to end from the start of the subject, the ext is a dot and 2-5 word characters, and the query is empty or starts with "?". |
| VersionPattern.PreferredUnique | app/code/community/Emagedev/CacheControl/Block/Html/Head.php:317 | At most one match is the preferred one, so the captured groups are determined by the URL. |
| VersionPattern.LineFreeMatch | app/code/community/Emagedev/CacheControl/Block/Html/Head.php:317 | On a URL without line feeds, the pattern matches exactly a split into uri, a dot followed by 2-5 word characters, and an empty or `?`-led query that runs to the end. |
| VersionPattern.SplitOfLineFreeUrl | app/code/community/Emagedev/CacheControl/Block/Html/Head.php:317 | On a URL without line feeds, the groups are the split with the longest uri. There is no match exactly when no such split exists. |
| VersionPattern.SplitRecomposes | app/code/community/Emagedev/CacheControl/Block/Html/Head.php:317 | On a URL without line feeds, uri + ext + query of a match is the URL itself. |
| VersionPattern.FinalLineFeedIgnored | app/code/community/Emagedev/CacheControl/Block/Html/Head.php:317 | A single trailing line feed leaves the groups as they are without it, because `$` matches before it. |
| VersionPattern.InnerLineFeedNeverMatches | app/code/community/Emagedev/CacheControl/Block/Html/Head.php:317 | A line feed before the last character prevents any match. |
| VersionPattern.NoDotNoMatch | app/code/community/Emagedev/CacheControl/Block/Html/Head.php:317 | A URL without a dot never matches. |
| HashEmbed.AppendHashAsWritten | app/code/community/Emagedev/CacheControl/Block/Html/Head.php:311-320 | `_appendHashToUrl` as written. In the query method the result extends the URL, and it equals the URL exactly when the hash is falsy. In the version method the groups of the pattern are joined around "." + hash. VersionModeRoundTrip, UnmatchedUrlLostAsWritten and HashChangesUrl characterise it. |
| HashEmbed.AppendHash | app/code/community/Emagedev/CacheControl/Block/Html/Head.php:311-320 | The corrected `_appendHashToUrl`, which the model uses: the as-written result, except that a URL the version pattern cannot split comes back unchanged. CorrectedAgreesOnMatch, UnmatchedUrlKept, QueryModeAppends, VersionModeRoundTrip and HashChangesUrl characterise it. |
| HashEmbed.QueryModeAppends | app/code/community/Emagedev/CacheControl/Block/Html/Head.php:313-314 | In the query method, a truthy hash gives url + "?" + hash, and cutting that tail gives url back. A falsy hash ("" or "0") leaves the URL alone. |
| HashEmbed.VersionModeInsertsHash | app/code/community/Emagedev/CacheControl/Block/Html/Head.php:316-318 | If url = uri + ext + query, with a valid ext, a dot-free query and no line feeds, the version method gives uri + "." + hash + ext + query. |
| HashEmbed.VersionModeRoundTrip | app/code/community/Emagedev/CacheControl/Block/Html/Head.php:316-318 | On any matched URL without line feeds, the result is hash + 1 characters longer and has "." + hash right after the uri group. Removing those characters restores the URL. |
| HashEmbed.InsertsAtPieces | app/code/community/Emagedev/CacheControl/Block/Html/Head.php:316-318 | The same insertion, stated for a URL given as its three pieces. |
| HashEmbed.ScriptExample | app/code/community/Emagedev/CacheControl/Block/Html/Head.php:316-318 | `/js/a.js` becomes `/js/a.<hash>.js`. |
| HashEmbed.LastExtensionTakesHash | app/code/community/Emagedev/CacheControl/Block/Html/Head.php:316-318 | For any line-free prefix followed by a valid extension, the hash goes right before that extension. The prefix can include a query string. |
| HashEmbed.HashLandsInQuery | app/code/community/Emagedev/CacheControl/Block/Html/Head.php:316-318 | The greedy uri group puts the hash into a query that ends in an extension: `/a.js?f=b.css` becomes `/a.js?f=b.<hash>.css`. |
| HashEmbed.UnmatchedUrlLostAsWritten | app/code/community/Emagedev/CacheControl/Block/Html/Head.php:316-318 | As written, a URL the pattern cannot split becomes just "." + hash. |
| HashEmbed.ExtensionlessUrlExample | app/code/community/Emagedev/CacheControl/Block/Html/Head.php:316-318 | As written, `/js/app` with hash `1a2b3c4d` becomes `.1a2b3c4d`. The corrected form keeps `/js/app`. |
| HashEmbed.UnmatchedUrlKept | app/code/community/Emagedev/CacheControl/Block/Html/Head.php:316-318 | Corrected: a URL the pattern cannot split is returned unchanged. |
| HashEmbed.CorrectedAgreesOnMatch | app/code/community/Emagedev/CacheControl/Block/Html/Head.php:311-319 | The corrected and as-written forms agree in the query method, and in the version method whenever the pattern matches. |
| HashEmbed.HashChangesUrl | app/code/community/Emagedev/CacheControl/Block/Html/Head.php:311-319 | Two different hashes never give the same URL, which is the point of cache busting. The query method needs both hashes truthy; the version method needs a matched URL. |
| BlockCache.CacheName | app/code/community/Emagedev/CacheControl/Block/Html/Head.php:80-83 | `_getCacheName($name, $type)`: implode with "_" gives `head_tag_<type>_<name>`. CallSiteKey and KeysDistinct characterise the keys the call sites build. |
| BlockCache.CallSiteKey | app/code/community/Emagedev/CacheControl/Block/Html/Head.php:80-83 | Call sites pass the kind as `$name` and the asset as `$type`, so the key is `head_tag_<asset>_<kind>`. |
| BlockCache.KeysDistinct | app/code/community/Emagedev/CacheControl/Block/Html/Head.php:80-83 | Keys of the js, skin and url kinds never collide: equal keys mean the same kind and the same asset. |
| BlockCache.Gate | app/code/community/Emagedev/CacheControl/Block/Html/Head.php:176-193 | With caching on, a truthy hit is returned after a load alone. A miss does the work and saves its value under the key. With caching off, nothing is loaded or saved. The gate adds no merge call of its own. |
| BlockCache.RepeatHits | app/code/community/Emagedev/CacheControl/Block/Html/Head.php:176-193 | After a truthy value has been saved, the next gated call with that key returns it with a load and no other effect. |
| AssetHash.AppendFileHashToUrl | app/code/community/Emagedev/CacheControl/Block/Html/Head.php:293-301 | A missing file leaves the URL unchanged after one existence check. An existing file has the crc32 of its content embedded, after one check and one read. |
| AssetHash.SameContentSameUrl | app/code/community/Emagedev/CacheControl/Block/Html/Head.php:293-301 | The URL and the effects depend on the file only through whether it exists and what it holds. |
| AssetHash.ContentChangeChangesUrl | app/code/community/Emagedev/CacheControl/Block/Html/Head.php:293-301 | When the file content changes so that its crc32 changes, the URL changes too (version method on a matched URL, query method on truthy checksums). |
| AssetHash.FileHashAsWrittenOnMatch | app/code/community/Emagedev/CacheControl/Block/Html/Head.php:293-301 | When the file is missing, the query method is in use, or the pattern matches the URL, the hashed URL is exactly what the as-written embedding gives. |
| AssetHash.GatedFileHash | app/code/community/Emagedev/CacheControl/Block/Html/Head.php:176-193 | The cache gate the three hashing entry points share. With caching on, a truthy entry is returned after a load alone, with no file access. On a miss the file is probed, the URL is hashed (or kept when the file is missing) and the result is saved under the key. With caching off nothing is loaded or saved and the cache is unchanged. The merge callback is never called. |
| AssetHash.JsFile | app/code/community/Emagedev/CacheControl/Block/Html/Head.php:183-184 | The js/ file of an item is `<base>/js/<name>`. JsFileNamesItem characterises it. |
| AssetHash.JsFileNamesItem | app/code/community/Emagedev/CacheControl/Block/Html/Head.php:183-184 | The js/ file lies under `<base>/js/` and what follows is the item name, so two names never share a file. |
| AssetHash.SkinFile | app/code/community/Emagedev/CacheControl/Block/Html/Head.php:217-219 | The skin file is the theme file looked up with the name trimmed of "/". SkinFileIgnoresSlashes characterises it. |
| AssetHash.SkinFileIgnoresSlashes | app/code/community/Emagedev/CacheControl/Block/Html/Head.php:217-219 | Slashes added before or after a skin name do not change the file whose crc32 is embedded. |
| AssetHash.JsFileHashsum | app/code/community/Emagedev/CacheControl/Block/Html/Head.php:171-194 | On a hit, the value comes from the cache under `head_tag_<name>_js`. Otherwise the js/ file is checked, and the name comes back with that file's crc32 embedded (or unchanged if the file is missing) and is saved when caching is on. |
| AssetHash.SkinFileHashsum | app/code/community/Emagedev/CacheControl/Block/Html/Head.php:203-229 | The same for `head_tag_<name>_skin`, starting from the skin URL and hashing the theme file found for the slash-trimmed name. |
| AssetHash.MergeTarget | app/code/community/Emagedev/CacheControl/Block/Html/Head.php:253-264 | A callback name whose first "Js" is after offset 0 gives js/.js. Otherwise one whose first "Css" is after offset 0 gives css or css_secure by the request, with .css. Otherwise there is no target. A name whose first "Js" (or "Css") is at offset 0 does not count for that kind. |
| AssetHash.HostCallbackKinds | app/code/community/Emagedev/CacheControl/Block/Html/Head.php:253-264 | getMergedJsUrl maps to the js target and getMergedCssUrl to the css target of the request. |
| AssetHash.LeadingKindIgnored | app/code/community/Emagedev/CacheControl/Block/Html/Head.php:253-264 | A name whose first "Js" is at offset 0 does not count as a script merger, even when "Js" occurs again later: `JsMergeJs` gets no target. |
| AssetHash.LeadingJsStillCss | app/code/community/Emagedev/CacheControl/Block/Html/Head.php:253-264 | A leading "Js" only rules out the script kind: `JsMergeCss` gets the stylesheet target of the request. |
| AssetHash.CssTargetExample | app/code/community/Emagedev/CacheControl/Block/Html/Head.php:253-272 | For a plain-HTTP request, getMergedCssUrl selects the insecure css target, and two merged sources a and b live at media/css/, then the md5 of "a,b" followed by the media host and port, each after a bar, then .css. |
| AssetHash.MergedFile | app/code/community/Emagedev/CacheControl/Block/Html/Head.php:270-272 | The merged file lies in the kind's media directory, ends in the kind's extension, and in between is the md5 of the comma-joined sources, the media host and the port. CssMergedFile works it out for two sources. |
| AssetHash.CssMergedFile | app/code/community/Emagedev/CacheControl/Block/Html/Head.php:270-272 | The insecure css target puts two merged sources at media/css/ followed by the md5 of the comma-joined sources, the media host and the port, then .css. |
| AssetHash.AppendHashToMergedFile | app/code/community/Emagedev/CacheControl/Block/Html/Head.php:240-283 | A truthy hit under `head_tag_<url>_url` is returned as it is after a load alone. On a miss, an unrecognised callback gives the URL back with nothing saved and no file look-up. A recognised one checks the merged file named after its kind and sources, returns the URL with that file's crc32 embedded (unchanged if the file is missing), and saves it when caching is on. Caching off leaves the cache untouched. |
| AssetHash.HitIgnoresFiles | app/code/community/Emagedev/CacheControl/Block/Html/Head.php:176-181 | A hit looks at no file, and its result does not depend on the file system, so a stale hash survives until the cache is flushed. |
| AssetHash.DisabledRecomputes | app/code/community/Emagedev/CacheControl/Block/Html/Head.php:176-193 | With caching off, the value and effects do not depend on the cache contents, and the file is checked every time. |
| AssetHash.MissingFileCachedUnhashed | app/code/community/Emagedev/CacheControl/Block/Html/Head.php:183-193 | A missing js/ file on a miss, with caching on, gives the bare name and saves it under the item's key. |
| AssetHash.JsRepeatHits | app/code/community/Emagedev/CacheControl/Block/Html/Head.php:171-194 | A second call for the same js/ item after a truthy result is a plain cache hit. |
| AssetHash.SkinHitIgnoresFiles | app/code/community/Emagedev/CacheControl/Block/Html/Head.php:208-213 | A hit on a skin item looks at no theme file, and its result does not depend on the file system. |
| AssetHash.SkinDisabledRecomputes | app/code/community/Emagedev/CacheControl/Block/Html/Head.php:203-229 | With caching off, a skin item's value and effects do not depend on the cache contents, and the theme file is checked every time. |
| AssetHash.SkinMissingFileCachedUnhashed | app/code/community/Emagedev/CacheControl/Block/Html/Head.php:215-226 | A missing theme file on a miss, with caching on, gives the unhashed skin URL and saves it under the item's key. |
| AssetHash.SkinRepeatHits | app/code/community/Emagedev/CacheControl/Block/Html/Head.php:203-229 | A second call for the same skin item after a truthy result is a plain cache hit. |
| AssetHash.MergedRepeatHits | app/code/community/Emagedev/CacheControl/Block/Html/Head.php:246-251 | After a truthy hashed merged URL has been saved, the next call for that URL is a plain hit, whatever the sources or the callback name. |
| AssetHash.MergedContentChangesUrl | app/code/community/Emagedev/CacheControl/Block/Html/Head.php:270-273 | On a miss with a recognised callback, a change in the merged file's crc32 changes the hashed URL. |
| Grouping.GroupItems | app/code/community/Emagedev/CacheControl/Block/Html/Head.php:121-141 | `$items[$params][] = ...` followed by `foreach ($items ...)`. The groups have distinct keys, exactly the parameter strings used, ordered by first occurrence, and each holds that key's rows in order. No rows are lost or added. |
| Grouping.InsertKeepsGroups | app/code/community/Emagedev/CacheControl/Block/Html/Head.php:123 | Appending one row keeps the grouping invariant for the longer item list. |
| Grouping.RowsForAppend | app/code/community/Emagedev/CacheControl/Block/Html/Head.php:121-138 | A key's rows in two batches, one after the other, are its rows in the first batch followed by its rows in the second. |
| HeadRender.Usable | app/code/community/Emagedev/CacheControl/Block/Html/Head.php:116-118 | A callback is kept exactly when one is given and it is callable. |
| HeadRender.Pairs | app/code/community/Emagedev/CacheControl/Block/Html/Head.php:121-122 | The nested foreach over `$params => $rows` and each `$name`. PairsOfEntry and PairsAppend characterise it. |
| HeadRender.PairsOfEntry | app/code/community/Emagedev/CacheControl/Block/Html/Head.php:121-122 | One entry gives one row per name, in the order of the names, each carrying the entry's parameter string. |
| HeadRender.PairsAppend | app/code/community/Emagedev/CacheControl/Block/Html/Head.php:121-131 | Entries are walked in order: the rows of a + b are the rows of a followed by the rows of b. |
| HeadRender.MergeSource | app/code/community/Emagedev/CacheControl/Block/Html/Head.php:121-135 | With a merger, a static item gives its js/ file and a skin item gives the theme file of the name as given. StaticMergeSourceHashed and SkinMergeSource relate it to the hashing path. |
| HeadRender.StaticMergeSourceHashed | app/code/community/Emagedev/CacheControl/Block/Html/Head.php:183-185 | The file a merger gets for a js/ item is the file whose existence the hashing path checks when the URL is not served from the cache. |
| HeadRender.SkinMergeSource | app/code/community/Emagedev/CacheControl/Block/Html/Head.php:130-135 | The merger's skin file is looked up with the name as given, and the hashing path trims it. The two agree on the trimmed name, so they are the same file when the name has no outer slash. |
| HeadRender.ResolveOne | app/code/community/Emagedev/CacheControl/Block/Html/Head.php:121-138 | When merging, an item resolves to its file path without any effect. Otherwise it resolves to the js/ base URL plus the hashed js name, or to the hashed skin URL, and leaves the cache as the hashing entry point leaves it. |
| HeadRender.ResolveAll | app/code/community/Emagedev/CacheControl/Block/Html/Head.php:121-138 | One resolved row per item, each keeping its parameter string. When merging there are no effects. With caching off the cache is unchanged. |
| HeadRender.RowInTurn | app/code/community/Emagedev/CacheControl/Block/Html/Head.php:121-138 | Row m is item m resolved on the cache the rows before it left, so a later row can be served by an entry an earlier row saved. |
| HeadRender.CollectItems | app/code/community/Emagedev/CacheControl/Block/Html/Head.php:121-138 | Static rows, then skin rows, matching the layout position by position in parameter string. Merging leaves the cache unchanged and logs nothing. Caching off leaves the cache untouched. The merge callback is never called while resolving. |
| HeadRender.CollectedRows | app/code/community/Emagedev/CacheControl/Block/Html/Head.php:121-138 | With a merger, the static rows are their js/ file paths and the skin rows their theme files. Without block caching, each row is its item resolved on its own. |
| HeadRender.StaticRowInTurn | app/code/community/Emagedev/CacheControl/Block/Html/Head.php:121-127 | With or without caching, a static row is the js/ base URL or js/ file of its item, resolved on the cache the earlier static rows left. |
| HeadRender.SkinRowInTurn | app/code/community/Emagedev/CacheControl/Block/Html/Head.php:129-138 | With or without caching, a skin row is its item resolved on the cache all static rows and the earlier skin rows left. |
| HeadRender.ItemKeysDistinct | app/code/community/Emagedev/CacheControl/Block/Html/Head.php:80-83 | A js/ item and a skin item never share a cache key, and neither do two names of one source. |
| HeadRender.ResolveOneAgrees | app/code/community/Emagedev/CacheControl/Block/Html/Head.php:171-229 | On a cache whose truthy item entries hold what hashing would give now, an item resolves as with caching off, and the cache keeps that property. |
| HeadRender.ResolveAllAgrees | app/code/community/Emagedev/CacheControl/Block/Html/Head.php:121-138 | The same for every row of a loop, the cache being handed from row to row. |
| HeadRender.StaticRowsBeforeSkin | app/code/community/Emagedev/CacheControl/Block/Html/Head.php:121-138 | Under each parameter string, the js/ rows come before the skin rows. |
| HeadRender.GroupsFollowLayout | app/code/community/Emagedev/CacheControl/Block/Html/Head.php:120-141 | There is one group per parameter string used in the layout, in order of first occurrence, js/ items first. |
| HeadRender.NormalizeParams | app/code/community/Emagedev/CacheControl/Block/Html/Head.php:151-152 | The rendered parameters are empty exactly when the trimmed string is falsy ("" or "0"). Otherwise they are one space followed by the trimmed string. ParamsOfPieces, ParamsIdempotent and ZeroParamsDropped characterise it. |
| HeadRender.ParamsOfPieces | app/code/community/Emagedev/CacheControl/Block/Html/Head.php:151-152 | Parameters padded with whitespace render as " " + the kept part when that is truthy, and as "" otherwise. |
| HeadRender.ParamsIdempotent | app/code/community/Emagedev/CacheControl/Block/Html/Head.php:151-152 | Normalising rendered parameters again changes nothing. |
| HeadRender.ZeroParamsDropped | app/code/community/Emagedev/CacheControl/Block/Html/Head.php:151-152 | A parameter string that trims to "0" renders as nothing. |
| HeadRender.RenderGroup | app/code/community/Emagedev/CacheControl/Block/Html/Head.php:141-159 | Without a callback, the group gives one element per row and no effect. With one, the merger is called on the rows and the URL goes through the merged-file hashing. A truthy result gives one element; a falsy one gives one per row. |
| HeadRender.RenderGroups | app/code/community/Emagedev/CacheControl/Block/Html/Head.php:140-161 | There are between one element per group and one per row. Without a callback, every row is an element. With one, the merger is called once per group, on its rows, in group order. |
| HeadRender.RenderGroupsInOrder | app/code/community/Emagedev/CacheControl/Block/Html/Head.php:140-161 | The groups are rendered one after another, each on the cache the earlier groups left, and the elements are theirs in group order. |
| HeadRender.GroupMergesOnce | app/code/community/Emagedev/CacheControl/Block/Html/Head.php:144-148 | Rendering a group adds exactly one merge call, on its rows. |
| HeadRender.PrepareElements | app/code/community/Emagedev/CacheControl/Block/Html/Head.php:109-162 | The HTML is the concatenation of the elements. There are between one element per group and one per item. Without a usable callback the elements are exactly each group's rows rendered one by one, in group order. |
| HeadRender.Concat | app/code/community/Emagedev/CacheControl/Block/Html/Head.php:140-161 | `$html .=` over the elements. ConcatAppend characterises it. |
| HeadRender.ConcatAppend | app/code/community/Emagedev/CacheControl/Block/Html/Head.php:154-157 | The html only grows at the end: the html of a + b is the html of a followed by the html of b, and one element on its own is its own html. |
| HeadRender.PageInGroupOrder | app/code/community/Emagedev/CacheControl/Block/Html/Head.php:140-161 | The page's elements are the groups' elements in group order, each group rendered on the cache the earlier groups left. |
| HeadRender.UncallableIgnored | app/code/community/Emagedev/CacheControl/Block/Html/Head.php:116-118 | A callback that is not callable gives the same page as no callback at all. |
| HeadRender.WarmCacheRendersUncached | app/code/community/Emagedev/CacheControl/Block/Html/Head.php:109-162 | Without a merger, a cache that agrees with the files renders the same elements as block caching switched off. |
| HeadRender.FlushedCacheRendersUncached | app/code/community/Emagedev/CacheControl/Block/Html/Head.php:109-162 | Right after a cache flush, a page without a merger is the page rendered with block caching off, even when an item is listed twice. |
| HeadRender.MergerCalledPerGroup | app/code/community/Emagedev/CacheControl/Block/Html/Head.php:141-149 | Without a usable callback the merger is never called. With one, it is called once per group, on that group's rows, in group order. |
| HeadRender.CacheOffLeavesCache | app/code/community/Emagedev/CacheControl/Block/Html/Head.php:109-162 | With block caching off, rendering the head neither loads nor saves, and the cache is unchanged. |
| HeadRender.RowsRegrouped | app/code/community/Emagedev/CacheControl/Block/Html/Head.php:121-141 | Grouping keeps the number of rows equal to the number of items. |

## Left out

- The Magento host is not modelled. The design package, base directories
  and URLs, and the request are values or functions of `Platform`, fixed for
  one rendering. The cache instance is a separate `Cache` value, a map from
  key to string, that every member takes and hands back. `_isBlockCacheEnabled`'s memoised
  look-up is therefore the field `cacheEnabled`.
- File-system access is a map from path to content. `file_exists` is
  membership and `hash_file` reads the content. The crc32 and md5 algorithms
  are uninterpreted functions.
- Key normalisation by the host cache is not modelled. The host frontend
  turns every character outside `[A-Za-z0-9_]` of a key into `_`, so at run
  time `lib/a-b.js` and `lib/a_b.js` share one entry. The model's cache is
  keyed by the exact string, so `HeadRender.ItemKeysDistinct` and
  `HeadRender.FlushedCacheRendersUncached` hold for key strings only.
- `DS` is fixed to the Unix separator "/" (the constant `AssetHash.Sep`).
  Windows paths are not modelled.
- `parse_url` is not modelled: host and port of the media base URL are
  functions of the secure flag.
- The js branch of `_appendHashToMergedFile` uses `$isSecure` without setting
  it, so PHP passes null with a notice. This is modelled as the secure
  argument `None`; the notice itself is left out.
- The `sprintf` element template is an abstract function of source and
  parameters.
- `call_user_func` dispatch is not modelled. The merger is a function from
  row lists to a URL, with a false answer read as "". Callback forms other
  than `array($object, $method)` are left out.
- Exceptions in developer mode and cache races between requests are out of
  scope.
- PHP's conversion of numeric array keys to integers is left out. Parameter
  strings are kept as strings, and grouping compares them as strings.
- `_getCacheName`'s default `$type = 'tag'` is never used by a call site and
  is not modelled.
- A `$method` value other than the query constant takes the version branch.
  The model has only the two named methods.
- Bytes and characters are not told apart. File names, URLs and parameter
  strings are sequences of characters, which matches PHP's byte strings for
  ASCII text only.
- `p.files` is the file system as it stands after the merge callback has
  written the merged file. The callback's own writes are not modelled.
- A directory makes `file_exists` true while `hash_file` returns false. The
  model has only files, so this case is not modelled.
- AssetHash.AppendFileHashToUrl: uses the corrected embedding
  `HashEmbed.AppendHash` (the corrected half of the finding below). An
  existing file whose URL the version pattern cannot split keeps its URL,
  where the code as written returns "." + crc32.
  `AssetHash.FileHashAsWrittenOnMatch` states that the two agree in every
  other case.
- AssetHash.JsFileHashsum: builds on `AssetHash.AppendFileHashToUrl`, so it
  has the same corrected embedding for a js/ name the pattern cannot split.
- AssetHash.SkinFileHashsum: builds on `AssetHash.AppendFileHashToUrl`, so it
  has the same corrected embedding for a skin URL the pattern cannot split.
- AssetHash.AppendHashToMergedFile: builds on `AssetHash.AppendFileHashToUrl`.
  When a merger answers false and the merged file exists, the code as written
  gets the truthy ".<crc32>" in the version method. The model gets "", and
  the model saves that "" where the code saves ".<crc32>".
- HeadRender.PrepareElements: in that false-merger case, the code as written
  renders one element with the source ".<crc32>". The model renders the
  group's rows one by one, because its merged URL is "".

Behaviour of Head.php that the model keeps on purpose:

- Every call site passes (kind, asset) to `_getCacheName($name, $type)`
  (Head.php:174, 206, 244), so the key is `head_tag_<asset>_<kind>`.
- When a file is missing and caching is on, the unhashed URL is still saved
  to the cache.
- A callback name whose first "Js" (or "Css") is at offset 0 does not count
  for that kind, because `strpos(...) != false` treats offset 0 as false. It
  can still count for the other kind: `JsMergeCss` is a stylesheet merger.
- The merge callback is called before the cache look-up, so it runs even
  when the hashed URL is already cached.
- A merger that answers false still has its answer passed through the
  merged-file hashing. That answer is read as "", so the look-up uses the key
  `head_tag__url`.
- The version method is greedy and can put the hash into a query string that
  ends in something shaped like an extension.

## Findings

| source | as written | input that shows it | evidently intended | confidence | as-written member | corrected member |
|---|---|---|---|---|---|---|
| app/code/community/Emagedev/CacheControl/Block/Html/Head.php:316-318 | In the version method, a URL the pattern does not match leaves `$matches` empty. The three groups read as null, and the result is "." + hash. | `/js/app` with hash `1a2b3c4d` gives `.1a2b3c4d` | the URL is returned unchanged when it has no recognisable extension | not executed | HashEmbed.ExtensionlessUrlExample | HashEmbed.UnmatchedUrlKept |
