/** The URL extractor: `URL_PATTERN.findall(text)` as a left-to-right scanner.

    The pattern is `http[s]?://` followed by one or more characters, each of
    which is an ASCII letter, a digit, one of `!*\(),`, a character of the
    range `$`..`_` (0x24..0x5F), or a `%XX` escape. Upper-case letters,
    digits, `*`, `\`, `(`, `)`, `,` and `%` all lie in the range, so the
    allowed set is: `a`..`z`, `$`..`_` and `!`. */
module UrlExtract {
  import opened Types

  /** One character of the repeated group of the pattern. */
  predicate Allowed(c: char)
  {
    ('a' <= c <= 'z') || ('$' <= c <= '_') || c == '!'
  }

  predicate AllAllowed(s: string)
  {
    forall k :: 0 <= k < |s| ==> Allowed(s[k])
  }

  /** A whole string the pattern matches: a scheme prefix and at least one allowed character. */
  predicate IsUrl(u: string)
  {
    || (|u| > 8 && u[..8] == "https://" && AllAllowed(u[8..]))
    || (|u| > 7 && u[..7] == "http://" && AllAllowed(u[7..]))
  }

  predicate HasPrefixAt(t: string, i: nat, p: string)
  {
    i + |p| <= |t| && t[i..i + |p|] == p
  }

  /** Length of the scheme `https://` or `http://` at position i, 0 if neither.
      `[s]?` is greedy, and the two alternatives cannot both apply. */
  function SchemeLength(t: string, i: nat): (n: nat)
    ensures n == 0 || n == 7 || n == 8
    ensures n != 0 ==> i + n <= |t|
  {
    if HasPrefixAt(t, i, "https://") then 8
    else if HasPrefixAt(t, i, "http://") then 7
    else 0
  }

  /** End of the maximal run of allowed characters that starts at j. */
  function RunEnd(t: string, j: nat): (e: nat)
    requires j <= |t|
    ensures j <= e <= |t|
    ensures AllAllowed(t[j..e])
    ensures e == |t| || !Allowed(t[e])
    decreases |t| - j
  {
    if j < |t| && Allowed(t[j]) then
      var e := RunEnd(t, j + 1);
      assert t[j..e] == [t[j]] + t[j + 1..e];
      e
    else j
  }

  /** The end of the match of the pattern at position i, if there is one:
      the scheme, then the maximal run of allowed characters, which must not be empty. */
  function MatchEnd(t: string, i: nat): (r: Option<nat>)
    requires i <= |t|
    ensures r.Some? ==> i < r.value <= |t|
    ensures r.Some? ==> r.value == |t| || !Allowed(t[r.value])
  {
    var n := SchemeLength(t, i);
    if n == 0 then None
    else
      var e := RunEnd(t, i + n);
      if e == i + n then None else Some(e)
  }

  /** A match at i is the longest substring starting at i that the pattern matches,
      and there is no match at i exactly when no such substring exists. */
  lemma MatchEndIsLongestUrl(t: string, i: nat)
    requires i <= |t|
    ensures MatchEnd(t, i).Some? ==> IsUrl(t[i..MatchEnd(t, i).value])
    ensures MatchEnd(t, i).Some? ==> forall e :: MatchEnd(t, i).value < e <= |t| ==> !IsUrl(t[i..e])
    ensures MatchEnd(t, i).None? ==> forall e :: i < e <= |t| ==> !IsUrl(t[i..e])
  {
    var n := SchemeLength(t, i);
    if n == 0 {
      forall e | i < e <= |t| ensures !IsUrl(t[i..e]) {
        NoSchemeNoUrl(t, i, e);
      }
    } else {
      var e := RunEnd(t, i + n);
      SchemeFixesPrefix(t, i, n);
      if e == i + n {
        forall e' | i < e' <= |t| ensures !IsUrl(t[i..e']) {
          UrlNeedsRun(t, i, n, e, e');
        }
      } else {
        SchemeThenRunIsUrl(t, i, n, e);
        forall e' | e < e' <= |t| ensures !IsUrl(t[i..e']) {
          UrlNeedsRun(t, i, n, e, e');
        }
      }
    }
  }

  /** A scheme followed by a non-empty run of allowed characters is a URL. */
  lemma SchemeThenRunIsUrl(t: string, i: nat, n: nat, e: nat)
    requires i <= |t| && n == SchemeLength(t, i) && n != 0
    requires i + n < e <= |t| && AllAllowed(t[i + n..e])
    ensures IsUrl(t[i..e])
  {
    var u := t[i..e];
    assert u[..n] == t[i..i + n];
    assert u[n..] == t[i + n..e];
    if n == 8 {
      assert HasPrefixAt(t, i, "https://");
    } else {
      assert HasPrefixAt(t, i, "http://");
    }
  }

  lemma NoSchemeNoUrl(t: string, i: nat, e: nat)
    requires i < e <= |t|
    requires SchemeLength(t, i) == 0
    ensures !IsUrl(t[i..e])
  {
    var u := t[i..e];
    assert |u| > 8 ==> u[..8] == t[i..i + 8];
    assert |u| > 7 ==> u[..7] == t[i..i + 7];
  }

  /** With scheme length n at i, a URL starting at i has exactly that scheme. */
  lemma SchemeFixesPrefix(t: string, i: nat, n: nat)
    requires i <= |t| && n == SchemeLength(t, i) && n != 0
    ensures forall e :: i + n < e <= |t| && IsUrl(t[i..e]) ==> AllAllowed(t[i + n..e])
  {
    forall e | i + n < e <= |t| && IsUrl(t[i..e]) ensures AllAllowed(t[i + n..e]) {
      var u := t[i..e];
      assert u[4] == t[i + 4];
      assert |u| > 8 ==> u[..8][4] == u[4];
      assert |u| > 7 ==> u[..7][4] == u[4];
      assert u[n..] == t[i + n..e];
    }
  }

  /** A URL at i cannot reach past the first disallowed character after the scheme. */
  lemma UrlNeedsRun(t: string, i: nat, n: nat, e: nat, e': nat)
    requires i <= |t| && n == SchemeLength(t, i) && n != 0
    requires e == RunEnd(t, i + n)
    requires e < e' <= |t| || (e == i + n && i < e' <= |t|)
    ensures !IsUrl(t[i..e'])
  {
    SchemeFixesPrefix(t, i, n);
    var u := t[i..e'];
    if e' <= i + n {
      assert |u| > 7 ==> u[..7][4] == t[i + 4];
    } else {
      assert t[i + n..e'][e - (i + n)] == t[e];
    }
  }

  /** The match positions findall reports from position i on, as (start, end) pairs:
      try to match at i; after a match continue at its end, otherwise at i + 1. */
  function Spans(t: string, i: nat): (sp: seq<(nat, nat)>)
    requires i <= |t|
    decreases |t| - i
  {
    if i == |t| then []
    else
      match MatchEnd(t, i)
      case Some(e) => [(i, e)] + Spans(t, e)
      case None => Spans(t, i + 1)
  }

  /** `URL_PATTERN.findall(text)`: the matched substrings, left to right, repeats kept. */
  function FindAll(t: string): (urls: seq<string>)
    ensures forall k :: 0 <= k < |urls| ==> IsUrl(urls[k])
  {
    var sp := Spans(t, 0);
    SpansLeftmost(t, 0);
    var urls := seq(|sp|, k requires 0 <= k < |sp| => t[sp[k].0..sp[k].1]);
    assert forall k :: 0 <= k < |urls| ==> IsUrl(urls[k]) by {
      forall k | 0 <= k < |urls| ensures IsUrl(urls[k]) {
        MatchEndIsLongestUrl(t, sp[k].0);
      }
    }
    urls
  }

  /** Every span is a match that starts at or after i and ends where the match ends. */
  ghost predicate SpansAreMatches(t: string, i: nat, sp: seq<(nat, nat)>)
  {
    forall k :: 0 <= k < |sp| ==> i <= sp[k].0 <= |t| && MatchEnd(t, sp[k].0) == Some(sp[k].1)
  }

  /** Spans are in left-to-right order and do not overlap. */
  ghost predicate SpansOrdered(sp: seq<(nat, nat)>)
  {
    forall k, l :: 0 <= k < l < |sp| ==> sp[k].1 <= sp[l].0
  }

  ghost predicate Covered(sp: seq<(nat, nat)>, p: nat)
  {
    exists k :: 0 <= k < |sp| && sp[k].0 <= p < sp[k].1
  }

  /** Every position at or after i where a match starts lies within some span. */
  ghost predicate SpansCover(t: string, i: nat, sp: seq<(nat, nat)>)
  {
    forall p :: i <= p <= |t| && MatchEnd(t, p).Some? ==> Covered(sp, p)
  }

  /** The declarative reading of leftmost, non-overlapping, greedy matching from i. */
  ghost predicate LeftmostSpans(t: string, i: nat, sp: seq<(nat, nat)>)
  {
    SpansAreMatches(t, i, sp) && SpansOrdered(sp) && SpansCover(t, i, sp)
  }

  /** The scanner produces leftmost, non-overlapping, greedy matches. */
  lemma SpansLeftmost(t: string, i: nat)
    requires i <= |t|
    ensures LeftmostSpans(t, i, Spans(t, i))
  {
    SpansAreMatchesFrom(t, i);
    SpansOrderedFrom(t, i);
    SpansCoverFrom(t, i);
  }

  lemma {:induction false} SpansAreMatchesFrom(t: string, i: nat)
    requires i <= |t|
    ensures SpansAreMatches(t, i, Spans(t, i))
    decreases |t| - i
  {
    if i < |t| {
      var sp := Spans(t, i);
      match MatchEnd(t, i)
      case Some(e) =>
        SpansAreMatchesFrom(t, e);
        var rest := Spans(t, e);
        assert sp == [(i, e)] + rest;
        forall k | 0 <= k < |sp|
          ensures i <= sp[k].0 <= |t| && MatchEnd(t, sp[k].0) == Some(sp[k].1)
        {
          if k > 0 {
            assert sp[k] == rest[k - 1];
          }
        }
      case None =>
        SpansAreMatchesFrom(t, i + 1);
    }
  }

  lemma {:induction false} SpansBounds(t: string, i: nat)
    requires i <= |t|
    ensures forall k :: 0 <= k < |Spans(t, i)| ==> i <= Spans(t, i)[k].0 < Spans(t, i)[k].1 <= |t|
    decreases |t| - i
  {
    if i < |t| {
      var sp := Spans(t, i);
      match MatchEnd(t, i)
      case Some(e) =>
        SpansBounds(t, e);
        var rest := Spans(t, e);
        assert sp == [(i, e)] + rest;
        forall k | 0 <= k < |sp| ensures i <= sp[k].0 < sp[k].1 <= |t| {
          if k > 0 {
            assert sp[k] == rest[k - 1];
          }
        }
      case None =>
        SpansBounds(t, i + 1);
        assert sp == Spans(t, i + 1);
    }
  }

  lemma {:induction false} SpansOrderedFrom(t: string, i: nat)
    requires i <= |t|
    ensures SpansOrdered(Spans(t, i))
    decreases |t| - i
  {
    if i < |t| {
      var sp := Spans(t, i);
      match MatchEnd(t, i)
      case Some(e) =>
        SpansOrderedFrom(t, e);
        var rest := Spans(t, e);
        SpansBounds(t, e);
        assert sp == [(i, e)] + rest;
        forall k, l | 0 <= k < l < |sp| ensures sp[k].1 <= sp[l].0 {
          assert sp[l] == rest[l - 1];
          if k > 0 {
            assert sp[k] == rest[k - 1];
          }
        }
      case None =>
        SpansOrderedFrom(t, i + 1);
        assert sp == Spans(t, i + 1);
    }
  }

  lemma {:induction false} SpansCoverFrom(t: string, i: nat)
    requires i <= |t|
    ensures SpansCover(t, i, Spans(t, i))
    decreases |t| - i
  {
    if i == |t| {
      assert MatchEnd(t, i).None?;
    } else {
      match MatchEnd(t, i)
      case Some(e) =>
        SpansCoverFrom(t, e);
        CoverAfterMatch(t, i, e, Spans(t, e));
      case None =>
        SpansCoverFrom(t, i + 1);
        assert Spans(t, i) == Spans(t, i + 1);
    }
  }

  /** A match at i followed by spans covering everything from its end covers everything from i. */
  lemma CoverAfterMatch(t: string, i: nat, e: nat, rest: seq<(nat, nat)>)
    requires i < e <= |t|
    requires SpansCover(t, e, rest)
    ensures SpansCover(t, i, [(i, e)] + rest)
  {
    var sp := [(i, e)] + rest;
    forall p | i <= p <= |t| && MatchEnd(t, p).Some? ensures Covered(sp, p) {
      if p < e {
        assert sp[0].0 <= p < sp[0].1;
      } else {
        assert Covered(rest, p);
        var k :| 0 <= k < |rest| && rest[k].0 <= p < rest[k].1;
        assert sp[k + 1] == rest[k];
      }
    }
  }

  /** There is only one leftmost, non-overlapping, greedy reading: the scanner's. */
  lemma {:induction false} LeftmostSpansUnique(t: string, i: nat, sp: seq<(nat, nat)>)
    requires i <= |t|
    requires LeftmostSpans(t, i, sp)
    ensures sp == Spans(t, i)
    decreases |t| - i
  {
    if i < |t| {
      match MatchEnd(t, i)
      case Some(e) =>
        LeftmostFirstSpan(t, i, e, sp);
        LeftmostSpansUnique(t, e, sp[1..]);
        assert Spans(t, i) == [(i, e)] + Spans(t, e);
        assert sp == [(i, e)] + sp[1..];
      case None =>
        LeftmostSkip(t, i, sp);
        LeftmostSpansUnique(t, i + 1, sp);
        assert Spans(t, i) == Spans(t, i + 1);
    }
  }

  /** When a match starts at i, the first span is that match, and the rest reads on from its end. */
  lemma LeftmostFirstSpan(t: string, i: nat, e: nat, sp: seq<(nat, nat)>)
    requires i <= |t| && MatchEnd(t, i) == Some(e)
    requires LeftmostSpans(t, i, sp)
    ensures |sp| > 0 && sp[0] == (i, e)
    ensures LeftmostSpans(t, e, sp[1..])
  {
    assert Covered(sp, i);
    FirstSpanStartsAt(t, i, sp);
    TailAreMatches(t, i, e, sp);
    TailOrdered(sp);
    TailCovers(t, i, e, sp);
  }

  /** A covered start position is the start of the first span. */
  lemma FirstSpanStartsAt(t: string, i: nat, sp: seq<(nat, nat)>)
    requires SpansAreMatches(t, i, sp) && SpansOrdered(sp) && Covered(sp, i)
    ensures |sp| > 0 && sp[0].0 == i
  {
    var k :| 0 <= k < |sp| && sp[k].0 <= i < sp[k].1;
    assert i <= sp[0].0 < sp[0].1;
    assert sp[0].1 <= sp[k].0 || k == 0;
  }

  lemma TailAreMatches(t: string, i: nat, e: nat, sp: seq<(nat, nat)>)
    requires SpansAreMatches(t, i, sp) && SpansOrdered(sp)
    requires |sp| > 0 && sp[0].1 == e
    ensures SpansAreMatches(t, e, sp[1..])
  {
    var rest := sp[1..];
    forall l | 0 <= l < |rest|
      ensures e <= rest[l].0 <= |t| && MatchEnd(t, rest[l].0) == Some(rest[l].1)
    {
      assert rest[l] == sp[l + 1];
    }
  }

  lemma TailOrdered(sp: seq<(nat, nat)>)
    requires SpansOrdered(sp) && |sp| > 0
    ensures SpansOrdered(sp[1..])
  {
    var rest := sp[1..];
    forall l, m | 0 <= l < m < |rest| ensures rest[l].1 <= rest[m].0 {
      assert rest[l] == sp[l + 1] && rest[m] == sp[m + 1];
    }
  }

  lemma TailCovers(t: string, i: nat, e: nat, sp: seq<(nat, nat)>)
    requires SpansCover(t, i, sp)
    requires |sp| > 0 && sp[0].1 == e && i <= e
    ensures SpansCover(t, e, sp[1..])
  {
    var rest := sp[1..];
    forall p | e <= p <= |t| && MatchEnd(t, p).Some? ensures Covered(rest, p) {
      assert Covered(sp, p);
      var l :| 0 <= l < |sp| && sp[l].0 <= p < sp[l].1;
      assert l != 0;
      assert rest[l - 1] == sp[l];
    }
  }

  /** When no match starts at i, the same spans read on from i + 1. */
  lemma LeftmostSkip(t: string, i: nat, sp: seq<(nat, nat)>)
    requires i < |t| && MatchEnd(t, i).None?
    requires LeftmostSpans(t, i, sp)
    ensures LeftmostSpans(t, i + 1, sp)
  {
    forall l | 0 <= l < |sp| ensures i + 1 <= sp[l].0 {
      assert MatchEnd(t, sp[l].0).Some?;
    }
  }

  /** findall returns nothing exactly when no substring of the text matches the pattern. */
  lemma FindAllEmptyIff(t: string)
    ensures FindAll(t) == [] <==> forall s, e :: 0 <= s < e <= |t| ==> !IsUrl(t[s..e])
  {
    var sp := Spans(t, 0);
    SpansLeftmost(t, 0);
    assert |FindAll(t)| == |sp|;
    if |sp| > 0 {
      MatchEndIsLongestUrl(t, sp[0].0);
    } else {
      forall s, e | 0 <= s < e <= |t| ensures !IsUrl(t[s..e]) {
        MatchEndIsLongestUrl(t, s);
        assert MatchEnd(t, s).Some? ==> Covered(sp, s);
      }
    }
  }
}
