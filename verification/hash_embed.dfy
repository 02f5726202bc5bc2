/**
  Embedding a content hash into an asset URL, the block's two methods:
  the version method rewrites `path/file.ext?query` to `path/file.hash.ext?query`,
  the query method appends `?hash`.
 */
module HashEmbed {
  import opened Php
  import opened VersionPattern

  /** METHOD_VERSION (the block's default) and METHOD_QUERY. */
  datatype Method = Version | Query

  /**
    The hash embedding exactly as written. In the version method a URL the
    pattern does not match leaves $matches empty; reading its three groups
    yields null, which concatenates as "", so only "." + hash remains.
   */
  function AppendHashAsWritten(url: string, hash: string, mode: Method): (r: string)
    ensures mode == Query ==> url <= r && (r == url <==> !Truthy(hash))
  {
    match mode
    case Query => if Truthy(hash) then url + "?" + hash else url
    case Version =>
      match Split(url)
      case Some(g) => g.uri + "." + hash + g.ext + g.query
      case None => "." + hash
  }

  /** The hash embedding with the unmatched version case failing closed: the URL comes back unchanged. */
  function AppendHash(url: string, hash: string, mode: Method): string
  {
    if mode == Version && Split(url).None? then url
    else AppendHashAsWritten(url, hash, mode)
  }

  /** The query method: a truthy hash gives url + "?" + hash, and dropping that tail gives url back; a falsy hash ("" or "0") changes nothing. */
  lemma QueryModeAppends(url: string, hash: string)
    ensures Truthy(hash) ==>
              && |AppendHash(url, hash, Query)| == |url| + |hash| + 1
              && AppendHash(url, hash, Query)[..|url|] == url
              && AppendHash(url, hash, Query)[|url|..] == "?" + hash
    ensures !Truthy(hash) ==> AppendHash(url, hash, Query) == url
  {
  }

  /**
    The version method on url = uri + ext + query: when ext is a dot and two
    to five word characters, query is empty or starts with "?" and carries no
    further dot, and the URL has no line feed, the hash lands between uri and
    ext.
   */
  lemma {:induction false} VersionModeInsertsHash(url: string, uri: string, ext: string, query: string, hash: string)
    requires url == uri + ext + query && '\n' !in url
    requires ValidExt(ext) && ValidQuery(query) && '.' !in query
    ensures AppendHash(url, hash, Version) == uri + "." + hash + ext + query
  {
    var i, j := |uri|, |uri| + |ext|;
    assert url[i..j] == ext && url[j..] == query && url[..i] == uri;
    assert LineFreeSplitAt(url, i, j);
    SplitOfLineFreeUrl(url);
    var g := Split(url).value;
    // No later split exists: past i there are only word characters of ext and the dot-free query.
    var sp := FindMatch(url).value;
    LineFreeMatch(url, sp.i, sp.j, sp.k);
    LineFreeMatch(url, i, j, |url|);
    assert sp.i == i;
    assert sp.j == j;
  }

  /**
    The version method on any matched URL without line feeds: the result is
    |hash| + 1 characters longer, holds "." + hash right after the uri group,
    and deleting those characters gives the URL back.
   */
  lemma {:induction false} VersionModeRoundTrip(url: string, hash: string)
    requires '\n' !in url && Split(url).Some?
    ensures var r := AppendHash(url, hash, Version);
            var n := |Split(url).value.uri|;
            && |r| == |url| + |hash| + 1
            && r[n..n + |hash| + 1] == "." + hash
            && r[..n] + r[n + |hash| + 1..] == url
  {
    SplitRecomposes(url);
    var g := Split(url).value;
    var r := AppendHash(url, hash, Version);
    assert r == AppendHashAsWritten(url, hash, Version);
    assert r == g.uri + ("." + hash) + (g.ext + g.query);
    assert url == g.uri + (g.ext + g.query);
    CutOut(g.uri, "." + hash, g.ext + g.query);
  }

  /** Cutting the middle piece out of a + m + b leaves a + b. */
  lemma CutOut(a: string, m: string, b: string)
    ensures var r := a + m + b;
            && r[|a|..|a| + |m|] == m
            && r[..|a|] + r[|a| + |m|..] == a + b
  {
    var r := a + m + b;
    assert r[..|a|] == a;
    assert r[|a| + |m|..] == b;
  }

  /** The version method on a URL given as its three pieces, checked piece by piece. */
  lemma {:induction false} InsertsAtPieces(uri: string, ext: string, query: string, hash: string)
    requires '\n' !in uri && '\n' !in query && '.' !in query
    requires ValidExt(ext) && ValidQuery(query)
    ensures AppendHash(uri + ext + query, hash, Version) == uri + "." + hash + ext + query
  {
    var url := uri + ext + query;
    assert '\n' !in url by {
      assert forall m :: 0 <= m < |ext| ==> IsWordChar(ext[m]) || ext[m] == '.';
      assert forall m :: 0 <= m < |url| ==> url[m] != '\n' by {
        forall m | 0 <= m < |url| ensures url[m] != '\n' {
          if m < |uri| { assert url[m] == uri[m] && uri[m] in uri; }
          else if m < |uri| + |ext| { assert url[m] == ext[m - |uri|]; }
          else { assert url[m] == query[m - |uri| - |ext|] && query[m - |uri| - |ext|] in query; }
        }
      }
    }
    VersionModeInsertsHash(url, uri, ext, query, hash);
  }

  /**
    Worked case: a plain script URL. The URL is bound through the requires
    rather than written into the ensures, so that the verifier does not
    evaluate the pattern on the literal while checking every other fact.
   */
  lemma ScriptExample(url: string, hash: string)
    requires url == "/js/a.js"
    ensures AppendHash(url, hash, Version) == "/js/a." + hash + ".js"
  {
    assert ValidExt(".js");
    assert url == "/js/a" + ".js" + "";
    InsertsAtPieces("/js/a", ".js", "", hash);
  }

  /**
    The uri group is greedy: whatever stands before a URL's final extension,
    a query included, is taken for the uri, and the hash goes right before
    that extension.
   */
  lemma {:induction false} LastExtensionTakesHash(front: string, ext: string, hash: string)
    requires '\n' !in front && ValidExt(ext)
    ensures AppendHash(front + ext, hash, Version) == front + "." + hash + ext
  {
    assert ValidQuery("") && '\n' !in "" && '.' !in "";
    InsertsAtPieces(front, ext, "", hash);
    assert front + ext + "" == front + ext;
  }

  /**
    Worked case of the greedy uri: the query ends in something shaped like an
    extension, so the hash goes into the query and the real extension is
    left alone. The URL is bound through the requires, as in ScriptExample.
   */
  lemma HashLandsInQuery(url: string, hash: string)
    requires url == "/a.js?f=b.css"
    ensures AppendHash(url, hash, Version) == "/a.js?f=b." + hash + ".css"
  {
    assert ValidExt(".css");
    assert url == "/a.js?f=b" + ".css";
    LastExtensionTakesHash("/a.js?f=b", ".css", hash);
  }

  /** Fail-closed version method: a URL the pattern cannot split is returned unchanged. */
  lemma UnmatchedUrlKept(url: string, hash: string)
    requires Split(url).None?
    ensures AppendHash(url, hash, Version) == url
  {
  }

  /** As written, a URL the pattern cannot split is replaced by "." + hash. */
  lemma UnmatchedUrlLostAsWritten(url: string, hash: string)
    requires Split(url).None?
    ensures AppendHashAsWritten(url, hash, Version) == "." + hash
  {
  }

  /** "/js/app" has no extension; as written it turns into ".1a2b3c4d", while the fail-closed form keeps it. */
  lemma ExtensionlessUrlExample()
    ensures AppendHashAsWritten("/js/app", "1a2b3c4d", Version) == ".1a2b3c4d"
    ensures AppendHash("/js/app", "1a2b3c4d", Version) == "/js/app"
    ensures AppendHashAsWritten("/js/app", "1a2b3c4d", Version) != "/js/app"
  {
    NoDotNoMatch("/js/app");
  }

  /** Where the pattern matches, or in the query method, the corrected and the as-written forms agree. */
  lemma CorrectedAgreesOnMatch(url: string, hash: string, mode: Method)
    requires mode == Query || Split(url).Some?
    ensures AppendHash(url, hash, mode) == AppendHashAsWritten(url, hash, mode)
  {
  }

  /**
    Different hashes give different URLs (the query method needs both hashes
    truthy, the version method a matched URL), so a changed checksum always
    changes the URL the browser sees.
   */
  lemma {:induction false} HashChangesUrl(url: string, h1: string, h2: string, mode: Method)
    requires mode == Query ==> Truthy(h1) && Truthy(h2)
    requires mode == Version ==> Split(url).Some?
    requires AppendHash(url, h1, mode) == AppendHash(url, h2, mode)
    ensures h1 == h2
  {
    var r := AppendHash(url, h1, mode);
    if mode == Query {
      assert r == url + "?" + h1 == url + "?" + h2;
      assert h1 == r[|url| + 1..] == h2;
    } else {
      var g := Split(url).value;
      var n := |g.uri| + 1;
      assert r == (g.uri + ".") + h1 + (g.ext + g.query);
      assert r == (g.uri + ".") + h2 + (g.ext + g.query);
      assert |h1| == |h2|;
      assert h1 == r[n..n + |h1|] == h2;
    }
  }
}
