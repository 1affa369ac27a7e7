/**
 * The feed fetcher: one source's fetch outcome (a parsed feed or a
 * failure) becomes the list of articles of that source for this cycle.
 * The HTTP request and the feed parser are not modelled; their outcome is
 * the input.
 */
module Fetcher {
  import opened Text
  import opened Normalizer

  /** The three `except` clauses of the fetcher. */
  datatype FetchError = Timeout | RequestError | OtherError

  /** What the request and the parser produced for one source. */
  datatype FetchOutcome = Fetched(entries: seq<RawEntry>) | FetchFailed(error: FetchError)

  /** At most this many entries of a feed are looked at per cycle. */
  const MaxEntries: nat := 20

  function Min(a: nat, b: nat): nat
  {
    if a <= b then a else b
  }

  /** What one entry contributes: its article when kept, nothing when skipped. */
  function EntryArticles(e: RawEntry, source: string, region: string, now: DateTime): (r: seq<Article>)
    requires ValidDateTime(now)
    ensures |r| <= 1
    ensures r == [] <==> !NormalizeEntry(e, source, region, now).Kept?
    ensures forall a :: a in r ==> WellFormed(a, source, region) && NormalizeEntry(e, source, region, now) == Kept(a)
  {
    match NormalizeEntry(e, source, region, now)
    case Kept(a) => [a]
    case _ => []
  }

  /** The kept articles of `entries`, in feed order; skipped entries contribute nothing. */
  function KeptArticles(entries: seq<RawEntry>, source: string, region: string, now: DateTime): (r: seq<Article>)
    requires ValidDateTime(now)
    ensures |r| <= |entries|
    ensures forall a :: a in r ==> WellFormed(a, source, region)
  {
    if entries == [] then []
    else
      KeptArticles(entries[..|entries| - 1], source, region, now) + EntryArticles(entries[|entries| - 1], source, region, now)
  }

  /** The articles `fetch_rss_feed` returns for a fetch outcome. */
  function FetchResultToArticles(outcome: FetchOutcome, source: string, region: string, now: DateTime): (r: seq<Article>)
    requires ValidDateTime(now)
    ensures outcome.FetchFailed? ==> r == []
    ensures |r| <= MaxEntries
    ensures outcome.Fetched? ==> |r| <= |outcome.entries|
    ensures forall a :: a in r ==> WellFormed(a, source, region)
  {
    match outcome
    case FetchFailed(_) => []
    case Fetched(entries) => KeptArticles(entries[..Min(|entries|, MaxEntries)], source, region, now)
  }

  /** One more entry adds its own contribution at the end. */
  lemma KeptArticlesStep(entries: seq<RawEntry>, i: nat, source: string, region: string, now: DateTime)
    requires ValidDateTime(now)
    requires i < |entries|
    ensures KeptArticles(entries[..i + 1], source, region, now)
         == KeptArticles(entries[..i], source, region, now) + EntryArticles(entries[i], source, region, now)
  {
    assert entries[..i + 1][..i] == entries[..i];
  }

  /** Normalisation works entry by entry: the articles of a concatenation are the concatenation of the articles. */
  lemma {:induction false} KeptArticlesAppend(a: seq<RawEntry>, b: seq<RawEntry>, source: string, region: string, now: DateTime)
    requires ValidDateTime(now)
    ensures KeptArticles(a + b, source, region, now) == KeptArticles(a, source, region, now) + KeptArticles(b, source, region, now)
    decreases |b|
  {
    if b == [] {
      assert a + b == a;
    } else {
      var b' := b[..|b| - 1];
      assert (a + b)[..|a + b| - 1] == a + b';
      assert (a + b)[|a + b| - 1] == b[|b| - 1];
      KeptArticlesAppend(a, b', source, region, now);
    }
  }

  /** A skipped entry (blank field or exception) does not affect the articles of the others. */
  lemma SkippedEntryIsolated(entries: seq<RawEntry>, k: nat, source: string, region: string, now: DateTime)
    requires ValidDateTime(now)
    requires k < |entries|
    requires !NormalizeEntry(entries[k], source, region, now).Kept?
    ensures KeptArticles(entries, source, region, now)
         == KeptArticles(entries[..k] + entries[k + 1..], source, region, now)
  {
    assert entries == entries[..k] + [entries[k]] + entries[k + 1..];
    assert KeptArticles([entries[k]], source, region, now) == [] by {
      assert [entries[k]][..0] == [];
      assert EntryArticles(entries[k], source, region, now) == [];
    }
    KeptArticlesAppend(entries[..k] + [entries[k]], entries[k + 1..], source, region, now);
    KeptArticlesAppend(entries[..k], [entries[k]], source, region, now);
    KeptArticlesAppend(entries[..k], entries[k + 1..], source, region, now);
  }

  /** Every article comes from one of the entries it was drawn from. */
  lemma {:induction false} KeptArticlesFromEntries(entries: seq<RawEntry>, source: string, region: string, now: DateTime, j: nat)
    requires ValidDateTime(now)
    requires j < |KeptArticles(entries, source, region, now)|
    ensures exists i :: 0 <= i < |entries| && NormalizeEntry(entries[i], source, region, now) == Kept(KeptArticles(entries, source, region, now)[j])
    decreases |entries|
  {
    var init := entries[..|entries| - 1];
    var rest := KeptArticles(init, source, region, now);
    if j < |rest| {
      KeptArticlesFromEntries(init, source, region, now, j);
      var i :| 0 <= i < |init| && NormalizeEntry(init[i], source, region, now) == Kept(rest[j]);
      assert entries[i] == init[i];
    } else {
      var last := EntryArticles(entries[|entries| - 1], source, region, now);
      assert KeptArticles(entries, source, region, now)[j] == last[0];
      assert last[0] in last;
    }
  }

  /** Only the first 20 entries matter: anything after them never becomes an article. */
  lemma EntriesBeyondLimitIgnored(entries: seq<RawEntry>, more: seq<RawEntry>, source: string, region: string, now: DateTime)
    requires ValidDateTime(now)
    requires |entries| >= MaxEntries
    ensures FetchResultToArticles(Fetched(entries + more), source, region, now)
         == FetchResultToArticles(Fetched(entries), source, region, now)
  {
    assert (entries + more)[..MaxEntries] == entries[..MaxEntries];
  }

  /** Each article of a fetch is the normalisation of one of the first 20 entries. */
  lemma FetchedArticleOrigin(entries: seq<RawEntry>, source: string, region: string, now: DateTime, j: nat)
    requires ValidDateTime(now)
    requires j < |FetchResultToArticles(Fetched(entries), source, region, now)|
    ensures exists i :: 0 <= i < Min(|entries|, MaxEntries)
              && NormalizeEntry(entries[i], source, region, now) == Kept(FetchResultToArticles(Fetched(entries), source, region, now)[j])
  {
    var firsts := entries[..Min(|entries|, MaxEntries)];
    KeptArticlesFromEntries(firsts, source, region, now, j);
    var i :| 0 <= i < |firsts| && NormalizeEntry(firsts[i], source, region, now) == Kept(KeptArticles(firsts, source, region, now)[j]);
    assert entries[i] == firsts[i];
  }

  // ---------------------------------------------------------------------
  // Only the clock fallback depends on the clock
  // ---------------------------------------------------------------------

  /** `b` is `a`, or `a` re-dated from the clock reading `now` to `now2`. */
  predicate Redated(a: Article, b: Article, now: DateTime, now2: DateTime)
  {
    b == a || (a.published == now && b == a.(published := now2))
  }

  /** Position by position, the articles of `t` are those of `s` re-dated. */
  predicate AllRedated(s: seq<Article>, t: seq<Article>, now: DateTime, now2: DateTime)
  {
    |s| == |t| && forall i :: 0 <= i < |s| ==> Redated(s[i], t[i], now, now2)
  }

  lemma AllRedatedAppend(s1: seq<Article>, s2: seq<Article>, t1: seq<Article>, t2: seq<Article>, now: DateTime, now2: DateTime)
    requires AllRedated(s1, t1, now, now2) && AllRedated(s2, t2, now, now2)
    ensures AllRedated(s1 + s2, t1 + t2, now, now2)
  {
    forall i | 0 <= i < |s1 + s2|
      ensures Redated((s1 + s2)[i], (t1 + t2)[i], now, now2)
    {
      if i >= |s1| {
        assert (s1 + s2)[i] == s2[i - |s1|] && (t1 + t2)[i] == t2[i - |t1|];
      }
    }
  }

  /**
   * Read at another clock, an entry is kept or skipped alike, and its article
   * differs at most in a date that came from the clock.
   */
  lemma EntryArticlesRedated(e: RawEntry, source: string, region: string, now: DateTime, now2: DateTime)
    requires ValidDateTime(now) && ValidDateTime(now2)
    ensures AllRedated(EntryArticles(e, source, region, now), EntryArticles(e, source, region, now2), now, now2)
  {
    var r1 := NormalizeEntry(e, source, region, now);
    var r2 := NormalizeEntry(e, source, region, now2);
    if r1.Kept? {
      if e.publishedParsed.None? && e.updatedParsed.None? {
        assert r2.article == r1.article.(published := now2);
      } else {
        assert r2.article == r1.article;
      }
    }
  }

  lemma {:induction false} KeptArticlesRedated(entries: seq<RawEntry>, source: string, region: string, now: DateTime, now2: DateTime)
    requires ValidDateTime(now) && ValidDateTime(now2)
    ensures AllRedated(KeptArticles(entries, source, region, now), KeptArticles(entries, source, region, now2), now, now2)
    decreases |entries|
  {
    if entries != [] {
      var init := entries[..|entries| - 1];
      var e := entries[|entries| - 1];
      KeptArticlesRedated(init, source, region, now, now2);
      EntryArticlesRedated(e, source, region, now, now2);
      AllRedatedAppend(KeptArticles(init, source, region, now), EntryArticles(e, source, region, now),
                       KeptArticles(init, source, region, now2), EntryArticles(e, source, region, now2), now, now2);
    }
  }

  /** A fetch read at two clock readings gives the same articles up to dates taken from the clock. */
  lemma FetchResultRedated(outcome: FetchOutcome, source: string, region: string, now: DateTime, now2: DateTime)
    requires ValidDateTime(now) && ValidDateTime(now2)
    ensures AllRedated(FetchResultToArticles(outcome, source, region, now), FetchResultToArticles(outcome, source, region, now2), now, now2)
  {
    if outcome.Fetched? {
      KeptArticlesRedated(outcome.entries[..Min(|outcome.entries|, MaxEntries)], source, region, now, now2);
    }
  }

  /**
   * `fetch_rss_feed`: on a failed request or parse, no articles; otherwise
   * the first 20 entries are normalised in order and the kept ones collected.
   */
  method FetchRssFeed(outcome: FetchOutcome, source: string, region: string, now: DateTime) returns (articles: seq<Article>)
    requires ValidDateTime(now)
    ensures articles == FetchResultToArticles(outcome, source, region, now)
  {
    match outcome {
      case FetchFailed(_) =>
        articles := [];
      case Fetched(entries) =>
        var firsts := entries[..Min(|entries|, MaxEntries)];
        articles := [];
        var i := 0;
        while i < |firsts|
          invariant 0 <= i <= |firsts|
          invariant articles == KeptArticles(firsts[..i], source, region, now)
        {
          ghost var contribution := EntryArticles(firsts[i], source, region, now);
          KeptArticlesStep(firsts, i, source, region, now);
          var normalized := NormalizeEntry(firsts[i], source, region, now);
          if normalized.Kept? {
            assert contribution == [normalized.article];
            articles := articles + [normalized.article];
          } else {
            assert contribution == [];
          }
          i := i + 1;
        }
        assert firsts[..i] == firsts;
    }
  }
}
