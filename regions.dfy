/**
 * Region identifiers and the lookup of a region from a request path. The
 * identifier handed to the front end is the region's slug; the articles
 * endpoint decodes the path segment and searches the catalog for a region
 * whose slug equals the lower-cased decoded text.
 */
module Regions {
  import opened Text

  /** A region's id: its name lower-cased, spaces turned into hyphens and apostrophes dropped. */
  function Slug(name: string): (r: string)
    ensures ' ' !in r && '\'' !in r
    ensures IsLowerString(r)
  {
    var lowered := Lower(name);
    var dashed := ReplaceAll(lowered, " ", "-");
    var slug := ReplaceAll(dashed, "'", "");
    ReplaceCharRemoves(lowered, ' ', "-");
    ReplaceCharRemoves(dashed, '\'', "");
    forall c | c in slug ensures c !in " " && !IsUpper(c) {
      ReplaceChars(dashed, "'", "", c);
      ReplaceChars(lowered, " ", "-", c);
    }
    slug
  }

  /** The decoding of the request path: hyphens become spaces, then underscores become apostrophes. */
  function DecodePath(path: string): (r: string)
    ensures '-' !in r && '_' !in r
  {
    var spaced := ReplaceAll(path, "-", " ");
    var decoded := ReplaceAll(spaced, "_", "'");
    ReplaceCharRemoves(path, '-', " ");
    ReplaceCharRemoves(spaced, '_', "'");
    forall c | c in decoded ensures c != '-' {
      ReplaceChars(spaced, "_", "'", c);
    }
    decoded
  }

  /** Lower-casing never produces a hyphen that was not there. */
  lemma LowerKeepsNoHyphen(s: string)
    requires '-' !in s
    ensures '-' !in Lower(s)
  {
    var r := Lower(s);
    forall k | 0 <= k < |r| ensures r[k] != '-' {
      assert s[k] != '-';
    }
  }

  /** A name with a space or a hyphen has a hyphen in its slug. */
  lemma {:induction false} SlugHasHyphen(name: string)
    requires ' ' in name || '-' in name
    ensures '-' in Slug(name)
  {
    var lowered := Lower(name);
    var dashed := ReplaceAll(lowered, " ", "-");
    if ' ' in name {
      var k :| 0 <= k < |name| && name[k] == ' ';
      assert lowered[k] == ' ';
      ReplaceCharInserts(lowered, ' ', "-");
    } else {
      var k :| 0 <= k < |name| && name[k] == '-';
      assert lowered[k] == '-';
      ReplaceCharKeeps(lowered, ' ', "-", '-');
    }
    ReplaceCharKeeps(dashed, '\'', "", '-');
  }

  /** The text the endpoint compares slugs with, for a raw path segment. */
  function LookupKey(path: string): (key: string)
    ensures '-' !in key
  {
    LowerKeepsNoHyphen(DecodePath(path));
    Lower(DecodePath(path))
  }

  /** The response of the articles endpoint before the database query. */
  datatype Lookup = Found(region: string) | NotFound

  /** `names[i]` is the first name whose slug is `key`. */
  predicate FirstMatchAt(names: seq<string>, key: string, i: int)
  {
    0 <= i < |names| && Slug(names[i]) == key && forall j :: 0 <= j < i ==> Slug(names[j]) != key
  }

  /**
   * The search loop over the catalog: the first name whose slug equals
   * `key`, or nothing.
   */
  method FindRegion(names: seq<string>, key: string) returns (actual: Option<string>)
    ensures actual.Some? ==> exists i :: FirstMatchAt(names, key, i) && names[i] == actual.value
    ensures actual.None? <==> forall i :: 0 <= i < |names| ==> Slug(names[i]) != key
  {
    actual := None;
    var i := 0;
    while i < |names|
      invariant 0 <= i <= |names|
      invariant forall j :: 0 <= j < i ==> Slug(names[j]) != key
    {
      if Slug(names[i]) == key {
        actual := Some(names[i]);
        return;
      }
      i := i + 1;
    }
  }

  /** `get_region_articles` up to the query: decode, search, and answer 404 when nothing usable is found. */
  method GetRegionArticles(names: seq<string>, path: string) returns (res: Lookup)
    ensures res.Found? ==> res.region != [] && exists i :: FirstMatchAt(names, LookupKey(path), i) && names[i] == res.region
    ensures (forall i :: 0 <= i < |names| ==> Slug(names[i]) != LookupKey(path)) ==> res == NotFound
    ensures forall i :: FirstMatchAt(names, LookupKey(path), i) && names[i] != [] ==> res == Found(names[i])
  {
    var actual := FindRegion(names, LookupKey(path));
    if actual.None? || actual.value == [] {
      res := NotFound;
    } else {
      res := Found(actual.value);
    }
  }

  /** No request path can reach a region whose slug contains a hyphen. */
  lemma HyphenatedSlugUnreachable(name: string, path: string)
    requires '-' in Slug(name)
    ensures Slug(name) != LookupKey(path)
  {
  }

  /** Hence a region with a space or hyphen in its name is never found, whatever the path. */
  lemma SpacedRegionNeverFound(names: seq<string>, k: nat, path: string)
    requires k < |names| && (' ' in names[k] || '-' in names[k])
    ensures Slug(names[k]) != LookupKey(path)
  {
    SlugHasHyphen(names[k]);
  }

  // ---------------------------------------------------------------------
  // The lookup as intended: the path is the id itself
  // ---------------------------------------------------------------------

  /** No two catalog regions share an id. */
  predicate DistinctSlugs(names: seq<string>)
  {
    forall i, j :: 0 <= i < j < |names| ==> Slug(names[i]) != Slug(names[j])
  }

  /** The endpoint matching the lower-cased path itself against the slugs. */
  method GetRegionArticlesCorrected(names: seq<string>, path: string) returns (res: Lookup)
    ensures res.Found? ==> res.region != [] && exists i :: FirstMatchAt(names, Lower(path), i) && names[i] == res.region
    ensures forall i :: FirstMatchAt(names, Lower(path), i) && names[i] != [] ==> res == Found(names[i])
    ensures forall k :: 0 <= k < |names| && DistinctSlugs(names) && names[k] != [] && path == Slug(names[k])
              ==> res == Found(names[k])
  {
    var actual := FindRegion(names, Lower(path));
    if actual.None? || actual.value == [] {
      res := NotFound;
    } else {
      res := Found(actual.value);
    }
    forall k | 0 <= k < |names| && DistinctSlugs(names) && names[k] != [] && path == Slug(names[k])
      ensures res == Found(names[k])
    {
      SlugIsFirstMatch(names, k);
    }
  }

  /** With distinct ids, a region's own id, lower-cased again, first matches that region. */
  lemma SlugIsFirstMatch(names: seq<string>, k: nat)
    requires k < |names| && DistinctSlugs(names)
    ensures Lower(Slug(names[k])) == Slug(names[k])
    ensures FirstMatchAt(names, Slug(names[k]), k)
  {
    LowerOfLower(Slug(names[k]));
  }
}
