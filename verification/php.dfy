/**
  The few pieces of PHP's runtime that the page-head block leans on, stated
  over strings: boolean conversion of a string, trim(), strpos() together with
  the loose `!= false` test the block applies to it, and implode().
 */
module Php {

  datatype Option<T> = None | Some(value: T)

  /** A string converted to bool: only "" and "0" are false. */
  predicate Truthy(s: string) {
    s != "" && s != "0"
  }

  /** The characters trim() strips when it is given no character list. */
  const Whitespace: set<char> := {' ', '\t', '\n', '\r', '\0', '\U{B}'}

  /** Where trim() starts keeping characters: the first position from i on whose character is not in cs. */
  function KeepFrom(s: string, cs: set<char>, i: nat): (a: nat)
    requires i <= |s|
    ensures i <= a <= |s|
    ensures forall m :: i <= m < a ==> s[m] in cs
    ensures a == |s| || s[a] !in cs
    decreases |s| - i
  {
    if i < |s| && s[i] in cs then KeepFrom(s, cs, i + 1) else i
  }

  /** Where trim() stops keeping characters: one past the last position below j, and not below lo, whose character is not in cs. */
  function KeepUntil(s: string, cs: set<char>, lo: nat, j: nat): (b: nat)
    requires lo <= j <= |s|
    ensures lo <= b <= j
    ensures forall m :: b <= m < j ==> s[m] in cs
    ensures b == lo || s[b - 1] !in cs
    decreases j
  {
    if lo < j && s[j - 1] in cs then KeepUntil(s, cs, lo, j - 1) else j
  }

  /** trim($s, $cs): the longest piece of s that neither starts nor ends with a character of cs. */
  function Trim(s: string, cs: set<char>): (r: string)
    ensures exists a, b :: 0 <= a <= b <= |s| && r == s[a..b]
                           && (forall m :: 0 <= m < a ==> s[m] in cs)
                           && (forall m :: b <= m < |s| ==> s[m] in cs)
    ensures r == [] || (r[0] !in cs && r[|r| - 1] !in cs)
  {
    var a := KeepFrom(s, cs, 0);
    var b := KeepUntil(s, cs, a, |s|);
    s[a..b]
  }

  /** trim() keeps exactly s[i..j] when everything outside is in cs and both ends of s[i..j] are not. */
  lemma TrimBetween(s: string, cs: set<char>, i: nat, j: nat)
    requires i <= j <= |s|
    requires forall m :: 0 <= m < i ==> s[m] in cs
    requires forall m :: j <= m < |s| ==> s[m] in cs
    requires i == j || (s[i] !in cs && s[j - 1] !in cs)
    ensures Trim(s, cs) == s[i..j]
  {
    var a := KeepFrom(s, cs, 0);
    if i < j {
      assert a == i;
      assert KeepUntil(s, cs, a, |s|) == j;
    }
  }

  /** trim() is pinned down by its three pieces: a stripped head, the kept part, a stripped tail. */
  lemma {:induction false} TrimOfPieces(head: string, kept: string, tail: string, cs: set<char>)
    requires forall m :: 0 <= m < |head| ==> head[m] in cs
    requires forall m :: 0 <= m < |tail| ==> tail[m] in cs
    requires kept == [] || (kept[0] !in cs && kept[|kept| - 1] !in cs)
    ensures Trim(head + kept + tail, cs) == kept
  {
    var s := head + kept + tail;
    var i, j := |head|, |head| + |kept|;
    assert forall m :: 0 <= m < i ==> s[m] == head[m];
    assert forall m :: j <= m < |s| ==> s[m] == tail[m - j];
    assert s[i..j] == kept;
    TrimBetween(s, cs, i, j);
  }

  /** Trimming twice strips nothing more. */
  lemma {:induction false} TrimIdempotent(s: string, cs: set<char>)
    ensures Trim(Trim(s, cs), cs) == Trim(s, cs)
  {
    var t := Trim(s, cs);
    TrimOfPieces([], t, [], cs);
    assert [] + t + [] == t;
  }

  /** Extra characters of cs around s are stripped with the rest: trim() sees through padding. */
  lemma TrimAbsorbsPadding(head: string, s: string, tail: string, cs: set<char>)
    requires forall m :: 0 <= m < |head| ==> head[m] in cs
    requires forall m :: 0 <= m < |tail| ==> tail[m] in cs
    ensures Trim(head + s + tail, cs) == Trim(s, cs)
  {
    var a := KeepFrom(s, cs, 0);
    var b := KeepUntil(s, cs, a, |s|);
    var w := head + s + tail;
    var i, j := |head| + a, |head| + b;
    assert forall m :: 0 <= m < i ==> w[m] in cs by {
      forall m | 0 <= m < i ensures w[m] in cs {
        if m >= |head| { assert w[m] == s[m - |head|]; }
      }
    }
    assert forall m :: j <= m < |w| ==> w[m] in cs by {
      forall m | j <= m < |w| ensures w[m] in cs {
        if m < |head| + |s| { assert w[m] == s[m - |head|]; } else { assert w[m] == tail[m - |head| - |s|]; }
      }
    }
    assert w[i..j] == s[a..b];
    TrimBetween(w, cs, i, j);
  }

  /** Whether needle occurs in hay at offset p. */
  predicate OccursAt(hay: string, needle: string, p: int) {
    0 <= p && p + |needle| <= |hay| && hay[p..p + |needle|] == needle
  }

  /** A needle whose first character is missing from hay occurs nowhere in it. */
  lemma AbsentFirstChar(hay: string, needle: string)
    requires |needle| > 0 && needle[0] !in hay
    ensures forall q :: !OccursAt(hay, needle, q)
  {
  }

  /** The first occurrence of needle in hay at or after from. */
  function StrPosFrom(hay: string, needle: string, from: nat): (r: Option<nat>)
    requires from <= |hay|
    ensures r.Some? ==> from <= r.value && OccursAt(hay, needle, r.value)
    ensures r.Some? ==> forall q :: from <= q < r.value ==> !OccursAt(hay, needle, q)
    ensures r.None? ==> forall q :: from <= q ==> !OccursAt(hay, needle, q)
    decreases |hay| - from
  {
    if from + |needle| > |hay| then None
    else if hay[from..from + |needle|] == needle then Some(from)
    else StrPosFrom(hay, needle, from + 1)
  }

  /** strpos($hay, $needle): the offset of the first occurrence, or false. */
  function StrPos(hay: string, needle: string): (r: Option<nat>)
    ensures r.Some? ==> OccursAt(hay, needle, r.value) && forall q :: 0 <= q < r.value ==> !OccursAt(hay, needle, q)
    ensures r.None? <==> forall q :: !OccursAt(hay, needle, q)
  {
    StrPosFrom(hay, needle, 0)
  }

  /**
    `strpos($hay, $needle) != false`. The comparison is loose, so offset 0
    compares equal to false: the test holds exactly when needle occurs in hay
    but hay does not start with it.
   */
  function LooselyFound(hay: string, needle: string): (found: bool)
    ensures found <==> (exists q :: OccursAt(hay, needle, q)) && !OccursAt(hay, needle, 0)
  {
    var p := StrPos(hay, needle);
    if p.Some? then
      assert OccursAt(hay, needle, p.value);
      p.value != 0
    else
      false
  }

  /** implode($glue, $pieces). */
  function Implode(glue: string, pieces: seq<string>): string
  {
    if |pieces| == 0 then ""
    else if |pieces| == 1 then pieces[0]
    else pieces[0] + glue + Implode(glue, pieces[1..])
  }

  /** A piece added at the end is joined after the glue, so implode() reads the pieces left to right. */
  lemma {:induction false} ImplodeSnoc(glue: string, pieces: seq<string>, last: string)
    ensures Implode(glue, pieces + [last]) == if pieces == [] then last else Implode(glue, pieces) + glue + last
    decreases |pieces|
  {
    if |pieces| == 0 {
      assert pieces + [last] == [last];
    } else if |pieces| == 1 {
      assert (pieces + [last])[1..] == [last];
    } else {
      assert (pieces + [last])[1..] == pieces[1..] + [last];
      ImplodeSnoc(glue, pieces[1..], last);
    }
  }

  /** Three pieces are joined with the glue between each pair. */
  lemma ImplodeThree(glue: string, a: string, b: string, c: string)
    ensures Implode(glue, [a, b, c]) == a + glue + b + glue + c
  {
    assert [a, b, c][1..] == [b, c] && [b, c][1..] == [c];
    assert Implode(glue, [c]) == c;
    assert Implode(glue, [b, c]) == b + glue + c;
    assert Implode(glue, [a, b, c]) == a + glue + (b + glue + c);
  }
}
