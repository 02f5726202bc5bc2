/**
  The pattern the version method splits a URL with,
  `/^(?<uri>.*)(?<ext>\.[\d\w]{2,5})(?<query>$|\?.*)$/i`, under PCRE's rules
  without the s, m, D and u modifiers: `.` is any character but a line feed,
  `$` holds at the end of the subject or just before a final line feed, and
  `\w` (which contains `\d`) is an ASCII letter, digit or underscore; the i
  modifier changes nothing because the pattern has no literal letters.

  IsMatch is the set of all ways the pattern can match; Preferred is the one
  that backtracking settles on (longest uri first, then longest ext); FindMatch
  computes it by trying the candidates in backtracking order.
 */
module VersionPattern {
  import opened Php

  predicate IsWordChar(c: char) {
    ('a' <= c <= 'z') || ('A' <= c <= 'Z') || ('0' <= c <= '9') || c == '_'
  }

  predicate IsDotChar(c: char) {
    c != '\n'
  }

  /** Every character of s[lo..hi] is matched by `.`. */
  predicate DotsIn(s: string, lo: int, hi: int)
    requires 0 <= lo <= hi <= |s|
  {
    forall m :: lo <= m < hi ==> IsDotChar(s[m])
  }

  /** Every character of s[lo..hi] is matched by `[\d\w]`. */
  predicate WordsIn(s: string, lo: int, hi: int)
    requires 0 <= lo <= hi <= |s|
  {
    forall m :: lo <= m < hi ==> IsWordChar(s[m])
  }

  /** `$` holds at offset k. */
  predicate AtEnd(s: string, k: int) {
    k == |s| || (0 <= k && k == |s| - 1 && s[k] == '\n')
  }

  /** `(?<query>$|\?.*)$` matches s[j..k]. */
  predicate QueryMatches(s: string, j: int, k: int) {
    && 0 <= j <= k <= |s|
    && ((k == j && AtEnd(s, j)) || (j < k && s[j] == '?' && DotsIn(s, j + 1, k) && AtEnd(s, k)))
  }

  /** The whole pattern matches with uri = s[..i], ext = s[i..j], query = s[j..k]. */
  predicate IsMatch(s: string, i: int, j: int, k: int) {
    && 0 <= i < j <= k <= |s|
    && DotsIn(s, 0, i)
    && s[i] == '.' && 3 <= j - i <= 6 && WordsIn(s, i + 1, j)
    && QueryMatches(s, j, k)
  }

  /** Group boundaries of one match. */
  datatype Span = Span(i: nat, j: nat, k: nat)

  /** The match backtracking returns: no match has a longer uri, or the same uri and a longer ext. */
  ghost predicate Preferred(s: string, sp: Span) {
    && IsMatch(s, sp.i, sp.j, sp.k)
    && forall i, j, k :: IsMatch(s, i, j, k) ==>
         i < sp.i || (i == sp.i && (j < sp.j || (j == sp.j && k == sp.k)))
  }

  /** How far `.*` can run from p: the first line feed at or after p, or the end. */
  function DotRunEnd(s: string, p: nat): (r: nat)
    requires p <= |s|
    ensures p <= r <= |s| && DotsIn(s, p, r)
    ensures r < |s| ==> s[r] == '\n'
    decreases |s| - p
  {
    if p == |s| || s[p] == '\n' then p else DotRunEnd(s, p + 1)
  }

  /**
    The query group and the final `$` tried at j: first the empty alternative,
    then `\?.*`, whose only candidate end is its longest run.
   */
  function QueryEnd(s: string, j: nat): (r: Option<nat>)
    requires j <= |s|
    ensures r.Some? ==> QueryMatches(s, j, r.value)
    ensures forall k :: QueryMatches(s, j, k) ==> r == Some(k)
  {
    if AtEnd(s, j) then Some(j)
    else if j < |s| && s[j] == '?' then
      var k := DotRunEnd(s, j + 1);
      if AtEnd(s, k) then Some(k) else None
    else None
  }

  /** `[\d\w]{2,5}` after the dot at i, trying n, n - 1, ..., 2 word characters as the greedy quantifier does. */
  function MatchWithExt(s: string, i: nat, n: nat): (r: Option<Span>)
    requires i < |s| && DotsIn(s, 0, i) && s[i] == '.' && n <= 5
    ensures r.Some? ==> r.value.i == i && r.value.j <= i + 1 + n
    ensures r.Some? ==> IsMatch(s, i, r.value.j, r.value.k)
    ensures forall j, k :: IsMatch(s, i, j, k) && j <= i + 1 + n ==>
              r.Some? && (j < r.value.j || (j == r.value.j && k == r.value.k))
    decreases n
  {
    if n < 2 then None
    else if i + 1 + n <= |s| && WordsIn(s, i + 1, i + 1 + n) && QueryEnd(s, i + 1 + n).Some? then
      Some(Span(i, i + 1 + n, QueryEnd(s, i + 1 + n).value))
    else MatchWithExt(s, i, n - 1)
  }

  /** The rest of the pattern tried with uri = s[..i]. */
  function MatchAt(s: string, i: nat): (r: Option<Span>)
    requires i <= |s|
    ensures r.Some? ==> r.value.i == i && IsMatch(s, i, r.value.j, r.value.k)
    ensures forall j, k :: IsMatch(s, i, j, k) ==>
              r.Some? && (j < r.value.j || (j == r.value.j && k == r.value.k))
  {
    if i < |s| && DotsIn(s, 0, i) && s[i] == '.' then MatchWithExt(s, i, 5) else None
  }

  /** The greedy `.*` of uri backing off from length i down to 0. */
  function SearchDown(s: string, i: nat): (r: Option<Span>)
    requires i <= |s|
    ensures r.Some? ==> r.value.i <= i && IsMatch(s, r.value.i, r.value.j, r.value.k)
    ensures forall i', j, k :: IsMatch(s, i', j, k) && i' <= i ==>
              r.Some? && (i' < r.value.i || (i' == r.value.i && (j < r.value.j || (j == r.value.j && k == r.value.k))))
  {
    match MatchAt(s, i)
    case Some(sp) => Some(sp)
    case None => if i == 0 then None else SearchDown(s, i - 1)
  }

  /** preg_match of the version pattern: the preferred match, or none when the pattern cannot match. */
  function FindMatch(s: string): (r: Option<Span>)
    ensures r.Some? ==> Preferred(s, r.value)
    ensures r.None? <==> forall i, j, k :: !IsMatch(s, i, j, k)
  {
    SearchDown(s, |s|)
  }

  lemma PreferredUnique(s: string, a: Span, b: Span)
    requires Preferred(s, a) && Preferred(s, b)
    ensures a == b
  {
  }

  /** The named groups $matches['uri'], $matches['ext'], $matches['query']. */
  datatype Groups = Groups(uri: string, ext: string, query: string)

  function Split(s: string): Option<Groups>
  {
    match FindMatch(s)
    case None => None
    case Some(sp) => Some(Groups(s[..sp.i], s[sp.i..sp.j], s[sp.j..sp.k]))
  }

  /**
    What `$matches` holds for any subject, line feeds included: nothing
    exactly when the pattern cannot match, and otherwise the three groups of
    the preferred match, laid end to end from the start of the subject, with
    a valid ext and a valid query.
   */
  lemma SplitGroups(s: string)
    ensures Split(s).None? <==> forall i, j, k :: !IsMatch(s, i, j, k)
    ensures Split(s).Some? ==>
              var g := Split(s).value;
              && (exists sp :: Preferred(s, sp) && g == Groups(s[..sp.i], s[sp.i..sp.j], s[sp.j..sp.k]))
              && g.uri + g.ext + g.query <= s
              && ValidExt(g.ext) && ValidQuery(g.query)
  {
    if FindMatch(s).Some? {
      var sp := FindMatch(s).value;
      var g := Split(s).value;
      assert g.uri + g.ext + g.query == s[..sp.k] by {
        assert s[..sp.k] == s[..sp.i] + s[sp.i..sp.j] + s[sp.j..sp.k];
      }
      assert ValidExt(g.ext) by {
        forall m | 1 <= m < |g.ext| ensures IsWordChar(g.ext[m]) {
          assert g.ext[m] == s[sp.i + m];
        }
      }
      if sp.j < sp.k {
        assert g.query[0] == s[sp.j];
      }
    }
  }

  /** An extension as the pattern wants it: a dot and two to five word characters. */
  predicate ValidExt(e: string) {
    3 <= |e| <= 6 && e[0] == '.' && forall m :: 1 <= m < |e| ==> IsWordChar(e[m])
  }

  /** A query group: empty, or a question mark and anything after it. */
  predicate ValidQuery(q: string) {
    q == [] || q[0] == '?'
  }

  /** On a URL without line feeds, url = url[..i] + url[i..j] + url[j..] with a valid ext and query. */
  predicate LineFreeSplitAt(url: string, i: int, j: int)
    requires '\n' !in url
  {
    0 <= i < j <= |url| && ValidExt(url[i..j]) && ValidQuery(url[j..])
  }

  /** Without line feeds, a match of the pattern is exactly a split into uri, a valid ext and a valid query. */
  lemma LineFreeMatch(url: string, i: int, j: int, k: int)
    requires '\n' !in url
    ensures IsMatch(url, i, j, k) <==> LineFreeSplitAt(url, i, j) && k == |url|
  {
    assert forall m :: 0 <= m < |url| ==> IsDotChar(url[m]) by {
      forall m | 0 <= m < |url| ensures IsDotChar(url[m]) {
        assert url[m] in url;
      }
    }
    if 0 <= i < j <= |url| {
      assert WordsIn(url, i + 1, j) <==> forall m :: 1 <= m < j - i ==> IsWordChar(url[i..j][m]) by {
        assert forall m :: 1 <= m < j - i ==> url[i..j][m] == url[i + m];
        if WordsIn(url, i + 1, j) {
          forall m | 1 <= m < j - i ensures IsWordChar(url[i..j][m]) {
            assert url[i..j][m] == url[i + m];
          }
        }
        if forall m :: 1 <= m < j - i ==> IsWordChar(url[i..j][m]) {
          forall m | i + 1 <= m < j ensures IsWordChar(url[m]) {
            assert url[i..j][m - i] == url[m];
          }
        }
      }
      if j < |url| {
        assert url[j..][0] == url[j];
      }
    }
  }

  /**
    What preg_match hands back on a URL without line feeds: uri, ext and query
    put back together give the URL, and the uri is the longest one any split
    allows, so the hash goes before the last qualifying extension.
   */
  lemma {:induction false} SplitOfLineFreeUrl(url: string)
    requires '\n' !in url
    ensures Split(url).Some? ==>
              && Split(url).value.uri + Split(url).value.ext + Split(url).value.query == url
              && ValidExt(Split(url).value.ext) && ValidQuery(Split(url).value.query)
              && forall i, j :: LineFreeSplitAt(url, i, j) ==> i <= |Split(url).value.uri|
    ensures Split(url).None? <==> forall i, j :: !LineFreeSplitAt(url, i, j)
  {
    var r := FindMatch(url);
    forall i, j, k { LineFreeMatch(url, i, j, k); }
    if r.Some? {
      var sp := r.value;
      assert LineFreeSplitAt(url, sp.i, sp.j) && sp.k == |url|;
      assert url[..sp.i] + url[sp.i..sp.j] + url[sp.j..sp.k] == url;
      forall i, j | LineFreeSplitAt(url, i, j) ensures i <= sp.i {
        assert IsMatch(url, i, j, |url|);
      }
    } else {
      forall i, j ensures !LineFreeSplitAt(url, i, j) {
        LineFreeMatch(url, i, j, |url|);
      }
    }
  }

  /** Without line feeds the three groups put back together give the URL. */
  lemma SplitRecomposes(url: string)
    requires '\n' !in url && Split(url).Some?
    ensures Split(url).value.uri + Split(url).value.ext + Split(url).value.query == url
  {
    var sp := FindMatch(url).value;
    LineFreeMatch(url, sp.i, sp.j, sp.k);
    assert url[..sp.i] + url[sp.i..sp.j] + url[sp.j..sp.k] == url;
  }

  /** A line feed at the very end is left out of every group: `$` matches just before it. */
  lemma {:induction false} FinalLineFeedIgnored(body: string)
    requires '\n' !in body
    ensures Split(body + "\n") == Split(body)
  {
    var s := body + "\n";
    assert forall m :: 0 <= m < |body| ==> s[m] == body[m] && IsDotChar(body[m]) by {
      forall m | 0 <= m < |body| ensures s[m] == body[m] && IsDotChar(body[m]) {
        assert body[m] in body;
      }
    }
    assert s[|body|] == '\n';
    forall i, j, k ensures IsMatch(s, i, j, k) <==> IsMatch(body, i, j, k) {
      if IsMatch(s, i, j, k) {
        assert j <= |body|;
        assert k <= |body|;
      }
    }
    var a := FindMatch(s);
    var b := FindMatch(body);
    if a.Some? {
      assert Preferred(body, a.value);
      PreferredUnique(body, a.value, b.value);
      assert s[..a.value.i] == body[..a.value.i];
      assert s[a.value.i..a.value.j] == body[a.value.i..a.value.j];
      assert s[a.value.j..a.value.k] == body[a.value.j..a.value.k];
    } else {
      assert b.None?;
    }
  }

  /** A line feed anywhere before the last character leaves the pattern without a match. */
  lemma InnerLineFeedNeverMatches(s: string, p: int)
    requires 0 <= p < |s| - 1 && s[p] == '\n'
    ensures Split(s).None?
  {
    forall i, j, k | IsMatch(s, i, j, k) ensures false {
    }
  }

  /** Without a dot there is nothing for the ext group to match. */
  lemma NoDotNoMatch(s: string)
    requires '.' !in s
    ensures Split(s).None?
  {

  }
}
