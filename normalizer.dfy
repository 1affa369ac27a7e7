/**
 * Entry normalisation of the RSS collector: how one parsed feed entry
 * becomes an article record (title and link trimmed, description chosen,
 * cleaned and truncated, publication date resolved by a fallback chain),
 * or is skipped.
 */
module Normalizer {
  import opened Text

  // ---------------------------------------------------------------------
  // Dates
  // ---------------------------------------------------------------------

  /** The six fields a publication date is built from: year, month, day, hour, minute, second. */
  datatype DateTime = DateTime(year: int, month: int, day: int, hour: int, minute: int, second: int)

  predicate IsLeapYear(y: int)
  {
    y % 4 == 0 && (y % 100 != 0 || y % 400 == 0)
  }

  function DaysInMonth(y: int, m: int): (n: int)
    requires 1 <= m <= 12
    ensures 28 <= n <= 31
  {
    if m == 2 then (if IsLeapYear(y) then 29 else 28)
    else if m == 4 || m == 6 || m == 9 || m == 11 then 30
    else 31
  }

  /** The field ranges Python's `datetime` constructor accepts; outside them it raises. */
  predicate ValidDateTime(t: DateTime)
  {
    && 1 <= t.year <= 9999
    && 1 <= t.month <= 12
    && 1 <= t.day <= DaysInMonth(t.year, t.month)
    && 0 <= t.hour <= 23
    && 0 <= t.minute <= 59
    && 0 <= t.second <= 59
  }

  // ---------------------------------------------------------------------
  // Feed entries and articles
  // ---------------------------------------------------------------------

  /**
   * A parsed feed entry. `None` stands for a key the entry lacks; for the
   * two time fields it also stands for a value that is present but falsy.
   */
  datatype RawEntry = RawEntry(
    title: Option<string>,
    link: Option<string>,
    summary: Option<string>,
    description: Option<string>,
    publishedParsed: Option<DateTime>,
    updatedParsed: Option<DateTime>)

  /** The six fields of an article the collector hands to the store. */
  datatype Article = Article(
    title: string,
    url: string,
    description: string,
    source: string,
    region: string,
    published: DateTime)

  /** What became of one entry: an article, a skip for a blank title or link, or a skip after an exception. */
  datatype Normalized = Kept(article: Article) | MissingField | EntryError

  /** The article invariants the collector establishes for every article it keeps. */
  predicate WellFormed(a: Article, source: string, region: string)
  {
    && a.source == source
    && a.region == region
    && a.title != []
    && a.url != []
    && |a.description| <= MaxDescription + 3
    && ValidDateTime(a.published)
  }

  // ---------------------------------------------------------------------
  // Removing markup: re.sub(r'<[^>]+>', '', s)
  // ---------------------------------------------------------------------

  /** Index of the first `c` in `t`, or `|t|` when there is none. */
  function IndexOf(t: string, c: char): (n: nat)
    ensures n <= |t|
    ensures forall k :: 0 <= k < n ==> t[k] != c
    ensures n < |t| ==> t[n] == c
  {
    if t == [] || t[0] == c then 0 else 1 + IndexOf(t[1..], c)
  }

  /**
   * Length of the match of `<[^>]+>` at the start of `s`, or 0 when the
   * pattern does not match there.
   */
  function TagLen(s: string): (n: nat)
    ensures n <= |s|
    ensures n > 0 ==> 3 <= n && s[0] == '<' && s[n - 1] == '>'
    ensures n > 0 ==> forall k :: 1 <= k < n - 1 ==> s[k] != '>'
    ensures n == 0 && s != [] && s[0] == '<' ==>
              (|s| >= 2 && s[1] == '>') || (forall k :: 1 <= k < |s| ==> s[k] != '>')
  {
    if s != [] && s[0] == '<' then
      var k := IndexOf(s[1..], '>');
      assert forall j :: 1 <= j < k + 1 ==> s[j] == s[1..][j - 1];
      if 1 <= k < |s| - 1 then k + 2 else 0
    else 0
  }

  /** No match of the tag pattern starts anywhere in `s`. */
  predicate TagFree(s: string)
  {
    forall i :: 0 <= i < |s| ==> TagLen(s[i..]) == 0
  }

  /** Removes, left to right, every non-overlapping match of `<[^>]+>`. */
  function StripTags(s: string): (r: string)
    ensures |r| <= |s|
    ensures forall c :: c in r ==> c in s
    decreases |s|
  {
    if s == [] then []
    else if TagLen(s) > 0 then StripTags(s[TagLen(s)..])
    else [s[0]] + StripTags(s[1..])
  }

  lemma TagFreeTail(s: string)
    requires s != [] && TagFree(s)
    ensures TagFree(s[1..])
  {
    forall i | 0 <= i < |s| - 1 ensures TagLen(s[1..][i..]) == 0 {
      assert s[1..][i..] == s[i + 1..];
    }
  }

  /** Removing tags leaves text in which the pattern matches nowhere. */
  lemma {:induction false} StripTagsTagFree(s: string)
    ensures TagFree(StripTags(s))
    decreases |s|
  {
    if s == [] {
    } else if TagLen(s) > 0 {
      StripTagsTagFree(s[TagLen(s)..]);
    } else {
      var rest := StripTags(s[1..]);
      var r := [s[0]] + rest;
      StripTagsTagFree(s[1..]);
      assert TagLen(r) == 0 by {
        if s[0] == '<' {
          if |s| >= 2 && s[1] == '>' {
            assert TagLen(s[1..]) == 0;
            assert rest == [s[1]] + StripTags(s[2..]);
            assert r[1..][0] == '>';
            assert IndexOf(r[1..], '>') == 0;
          } else {
            assert forall k :: 0 <= k < |s| - 1 ==> s[1..][k] == s[k + 1];
            assert '>' !in s[1..];
            assert '>' !in rest;
            assert forall k :: 0 <= k < |r| - 1 ==> r[1..][k] == rest[k];
            assert IndexOf(r[1..], '>') == |r| - 1;
          }
        }
      }
      forall i | 0 <= i < |r| ensures TagLen(r[i..]) == 0 {
        if i > 0 {
          assert r[i..] == rest[i - 1..];
        }
      }
    }
  }

  /** On tag-free text, removing tags changes nothing. */
  lemma {:induction false} StripTagsOfTagFree(s: string)
    requires TagFree(s)
    ensures StripTags(s) == s
    decreases |s|
  {
    if s != [] {
      assert TagLen(s[0..]) == 0;
      assert s[0..] == s;
      TagFreeTail(s);
      StripTagsOfTagFree(s[1..]);
    }
  }

  /** Removing tags is idempotent. */
  lemma StripTagsIdempotent(s: string)
    ensures StripTags(StripTags(s)) == StripTags(s)
  {
    StripTagsTagFree(s);
    StripTagsOfTagFree(StripTags(s));
  }

  /** Text with no `<` has no tag to remove. */
  lemma {:induction false} StripTagsNoAngle(s: string)
    requires '<' !in s
    ensures StripTags(s) == s
  {
    forall i | 0 <= i < |s| ensures TagLen(s[i..]) == 0 {
      assert s[i..][0] == s[i];
    }
    StripTagsOfTagFree(s);
  }

  // ---------------------------------------------------------------------
  // Description cleaning
  // ---------------------------------------------------------------------

  /** Descriptions longer than this are cut and marked with `...`. */
  const MaxDescription: nat := 300

  /** Entity decoding: a single pass turning each `&nbsp;` into a space, then one turning each `&amp;` into `&`. */
  function DecodeEntities(s: string): (r: string)
    ensures |r| <= |s|
    ensures '&' !in s ==> r == s
  {
    var decoded := ReplaceAll(ReplaceAll(s, "&nbsp;", " "), "&amp;", "&");
    if '&' in s then decoded
    else
      NotOccursWithoutHead("&nbsp;", s);
      ReplaceAbsent(s, "&nbsp;", " ");
      NotOccursWithoutHead("&amp;", s);
      ReplaceAbsent(s, "&amp;", "&");
      decoded
  }

  /** Tags removed, the two entities replaced, then cut to 300 characters plus `...`. */
  function CleanDescription(d: string): (r: string)
    ensures |r| <= MaxDescription + 3
    ensures |DecodeEntities(StripTags(d))| <= MaxDescription ==> r == DecodeEntities(StripTags(d))
    ensures |DecodeEntities(StripTags(d))| > MaxDescription ==>
              |r| == MaxDescription + 3 && r[..MaxDescription] == DecodeEntities(StripTags(d))[..MaxDescription] && r[MaxDescription..] == "..."
  {
    if d == [] then d else Truncate(DecodeEntities(StripTags(d)), MaxDescription)
  }

  /** After the first pass no `&nbsp;` is left: any `&nbsp;` in the result was made by the `&amp;` pass. */
  lemma NbspPassLeavesNone(s: string)
    ensures !Occurs("&nbsp;", ReplaceAll(s, "&nbsp;", " "))
  {
    ReplaceLeavesNone(s, "&nbsp;", " ");
  }

  /** The `&nbsp;` pass leaves `&amp;nbsp;` alone: it holds no `&nbsp;`. */
  lemma NbspPassOnAmpNbsp()
    ensures ReplaceAll("&amp;nbsp;", "&nbsp;", " ") == "&amp;nbsp;"
  {
    var s := "&amp;nbsp;";
    var t := "amp;nbsp;";
    assert s[1] != "&nbsp;"[1];
    assert !("&nbsp;" <= s);
    assert s[1..] == t;
    assert '&' !in t;
    NotOccursWithoutHead("&nbsp;", t);
    ReplaceAbsent(t, "&nbsp;", " ");
  }

  /** The `&amp;` pass turns `&amp;nbsp;` into `&nbsp;`. */
  lemma AmpPassOnAmpNbsp()
    ensures ReplaceAll("&amp;nbsp;", "&amp;", "&") == "&nbsp;"
  {
    var s := "&amp;nbsp;";
    var t := "nbsp;";
    assert s == "&amp;" + t;
    assert s[5..] == t;
    assert '&' !in t;
    NotOccursWithoutHead("&amp;", t);
    ReplaceAbsent(t, "&amp;", "&");
  }

  /** Each entity is replaced once: `&amp;nbsp;` becomes `&nbsp;`, not a space. */
  lemma AmpNbspDecodesOnce()
    ensures DecodeEntities("&amp;nbsp;") == "&nbsp;"
  {
    NbspPassOnAmpNbsp();
    AmpPassOnAmpNbsp();
  }

  /** A pattern whose first character is absent from `s` does not occur in it. */
  lemma {:induction false} NotOccursWithoutHead(p: string, s: string)
    requires p != [] && p[0] !in s
    ensures !Occurs(p, s)
    decreases |s|
  {
    if s != [] {
      assert s[0] in s;
      NotOccursWithoutHead(p, s[1..]);
    }
  }

  /** Text without `<` or `&` is only truncated. */
  lemma CleanPlainText(d: string)
    requires '<' !in d && '&' !in d
    ensures CleanDescription(d) == Truncate(d, MaxDescription)
  {
    StripTagsNoAngle(d);
  }

  // ---------------------------------------------------------------------
  // One entry
  // ---------------------------------------------------------------------

  /** The description text of an entry: its summary when that key is present, else its description, else empty. */
  function ResolveDescription(e: RawEntry): string
  {
    match e.summary
    case Some(s) => s
    case None => GetOr(e.description, "")
  }

  /**
   * The publication date: `published_parsed`, else `updated_parsed`, else
   * the clock reading `now`; `None` when building the datetime raises.
   */
  function ResolveDate(e: RawEntry, now: DateTime): (r: Option<DateTime>)
    requires ValidDateTime(now)
    ensures r.Some? ==> ValidDateTime(r.value)
  {
    match e.publishedParsed
    case Some(p) => if ValidDateTime(p) then Some(p) else None
    case None =>
      match e.updatedParsed
      case Some(u) => if ValidDateTime(u) then Some(u) else None
      case None => Some(now)
  }

  /** The body of the per-entry `try` block of the collector's entry loop. */
  function NormalizeEntry(e: RawEntry, source: string, region: string, now: DateTime): (r: Normalized)
    requires ValidDateTime(now)
    // the only exception the block can raise is an out-of-range date, and it wins over a blank field
    ensures r.EntryError? <==>
              (e.publishedParsed.Some? && !ValidDateTime(e.publishedParsed.value))
              || (e.publishedParsed.None? && e.updatedParsed.Some? && !ValidDateTime(e.updatedParsed.value))
    // kept exactly when no exception and both title and link are non-blank
    ensures r.Kept? <==> !r.EntryError? && !AllSpace(GetOr(e.title, "")) && !AllSpace(GetOr(e.link, ""))
    ensures r.Kept? ==> WellFormed(r.article, source, region)
    ensures r.Kept? ==> r.article.title == Strip(GetOr(e.title, "")) && r.article.url == Strip(GetOr(e.link, ""))
    // summary wins whenever the key is present, even when empty
    ensures r.Kept? && e.summary.Some? ==> r.article.description == CleanDescription(Strip(e.summary.value))
    ensures r.Kept? && e.summary.None? ==> r.article.description == CleanDescription(Strip(GetOr(e.description, "")))
    // publication date fallback chain
    ensures r.Kept? && e.publishedParsed.Some? ==> r.article.published == e.publishedParsed.value
    ensures r.Kept? && e.publishedParsed.None? && e.updatedParsed.Some? ==> r.article.published == e.updatedParsed.value
    ensures r.Kept? && e.publishedParsed.None? && e.updatedParsed.None? ==> r.article.published == now
  {
    var title := Strip(GetOr(e.title, ""));
    var link := Strip(GetOr(e.link, ""));
    var description := Strip(ResolveDescription(e));
    match ResolveDate(e, now)
    case None => EntryError
    case Some(date) =>
      var cleaned := CleanDescription(description);
      if title != [] && link != [] then Kept(Article(title, link, cleaned, source, region, date))
      else MissingField
  }
}
