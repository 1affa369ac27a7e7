/**
 * The display helpers of the web page: relative publication times, the
 * empty-date label, the description shown on an article card and the
 * plural suffix of count labels. The browser's date parsing and locale
 * formatting are inputs.
 */
module Frontend {
  import opened Text

  /** Label shown when an article has no date. */
  const UnknownDate := "Date inconnue"

  const MsPerHour: nat := 1000 * 60 * 60
  const HoursPerDay: nat := 24
  const MsPerDay: nat := MsPerHour * HoursPerDay

  /** A JavaScript value is falsy as a string when it is missing or empty. */
  predicate Falsy(s: Option<string>)
  {
    s.None? || s.value == []
  }

  /**
   * `formatDate`: a missing or empty date is shown as the unknown-date
   * label; otherwise the locale rendering `rendered` (computed by the
   * browser) is shown.
   */
  function FormatDate(dateString: Option<string>, rendered: string): (r: string)
    ensures Falsy(dateString) ==> r == UnknownDate
    ensures !Falsy(dateString) ==> r == rendered
  {
    if Falsy(dateString) then UnknownDate else rendered
  }

  /** `now - date` in milliseconds, or NaN when the date string does not parse. */
  datatype Elapsed = Millis(ms: int) | NotANumber

  /** `word` followed by the plural `s` when `n > 1`. */
  function Pluralize(word: string, n: int): (r: string)
    ensures word <= r
    ensures r == word <==> n <= 1
    ensures r != word ==> r == word + "s"
  {
    if n > 1 then word + "s" else word
  }

  /**
   * `formatRelativeTime`. Hours and days are floor divisions (for a
   * positive divisor Dafny's `/` is the floor). A NaN elapsed time fails
   * every comparison and falls through to `formatDate`.
   */
  function FormatRelativeTime(dateString: Option<string>, elapsed: Elapsed, rendered: string): (r: string)
    ensures Falsy(dateString) ==> r == UnknownDate
    ensures !Falsy(dateString) && elapsed.NotANumber? ==> r == rendered
    ensures r == UnknownDate || r == rendered || "Il y a " <= r
  {
    if Falsy(dateString) then UnknownDate
    else match elapsed
      case NotANumber => FormatDate(dateString, rendered)
      case Millis(diffMs) =>
        var diffHours := diffMs / MsPerHour;
        var diffDays := diffHours / HoursPerDay;
        if diffHours < 1 then "Il y a moins d'1h"
        else if diffHours < 24 then "Il y a " + NatToString(diffHours) + "h"
        else if diffDays < 7 then "Il y a " + NatToString(diffDays) + Pluralize(" jour", diffDays)
        else FormatDate(dateString, rendered)
  }

  /** Dividing by 3600000 and then by 24 is dividing by 86400000. */
  lemma DaysFromMillis(ms: int)
    ensures (ms / MsPerHour) / HoursPerDay == ms / MsPerDay
  {
    var h := ms / MsPerHour;
    var d := h / HoursPerDay;
    assert ms == h * MsPerHour + ms % MsPerHour;
    assert h == d * HoursPerDay + h % HoursPerDay;
    assert ms == d * MsPerDay + ((h % HoursPerDay) * MsPerHour + ms % MsPerHour);
    assert 0 <= (h % HoursPerDay) * MsPerHour + ms % MsPerHour < MsPerDay;
  }

  /** Anything under an hour, future dates included, is "less than an hour ago". */
  lemma RelativeUnderAnHour(dateString: Option<string>, ms: int, rendered: string)
    requires !Falsy(dateString) && ms < MsPerHour
    ensures FormatRelativeTime(dateString, Millis(ms), rendered) == "Il y a moins d'1h"
  {
    assert ms / MsPerHour < 1;
  }

  /** Between one hour and one day, the whole number of hours elapsed, from 1 to 23. */
  lemma RelativeHours(dateString: Option<string>, ms: int, rendered: string)
    requires !Falsy(dateString) && MsPerHour <= ms < MsPerDay
    ensures 1 <= ms / MsPerHour < 24
    ensures FormatRelativeTime(dateString, Millis(ms), rendered) == "Il y a " + NatToString(ms / MsPerHour) + "h"
  {
    assert ms / MsPerHour < 24;
  }

  /** Between one day and one week, the whole number of days, with "jours" from two days on. */
  lemma RelativeDays(dateString: Option<string>, ms: int, rendered: string)
    requires !Falsy(dateString) && MsPerDay <= ms < 7 * MsPerDay
    ensures 1 <= ms / MsPerDay < 7
    ensures FormatRelativeTime(dateString, Millis(ms), rendered)
         == "Il y a " + NatToString(ms / MsPerDay) + (if ms >= 2 * MsPerDay then " jours" else " jour")
  {
    DaysFromMillis(ms);
    assert ms / MsPerHour >= 24;
    assert ms / MsPerDay >= 2 <==> ms >= 2 * MsPerDay;
  }

  /** From one week on, and for an unparseable date, the absolute date is shown. */
  lemma RelativeFallsBackToDate(dateString: Option<string>, elapsed: Elapsed, rendered: string)
    requires !Falsy(dateString)
    requires elapsed.Millis? ==> elapsed.ms >= 7 * MsPerDay
    ensures FormatRelativeTime(dateString, elapsed, rendered) == rendered
  {
    if elapsed.Millis? {
      DaysFromMillis(elapsed.ms);
    }
  }

  /** A missing or empty date gives the unknown-date label, whatever the clock says. */
  lemma RelativeUnknownDate(dateString: Option<string>, elapsed: Elapsed, rendered: string)
    requires Falsy(dateString)
    ensures FormatRelativeTime(dateString, elapsed, rendered) == UnknownDate
  {
  }

  /** The number printed in the hours bucket reads back as the hour count. */
  lemma RelativeHoursReadBack(dateString: Option<string>, ms: int, rendered: string)
    requires !Falsy(dateString) && MsPerHour <= ms < MsPerDay
    ensures var r := FormatRelativeTime(dateString, Millis(ms), rendered);
      |r| > 8 && r[..7] == "Il y a " && r[|r| - 1] == 'h'
      && DecimalValue(r[7..|r| - 1]) == ms / MsPerHour
  {
    RelativeHours(dateString, ms, rendered);
    var digits := NatToString(ms / MsPerHour);
    var r := "Il y a " + digits + "h";
    assert r[7..|r| - 1] == digits;
    NatToStringRoundTrip(ms / MsPerHour);
  }

  /** Characters a card shows of a description. */
  const CardDescriptionLength: nat := 200

  /** The description of an article card: empty for a falsy one, otherwise cut at 200 characters with `...`. */
  function CardDescription(description: Option<string>): (r: string)
    ensures r == [] <==> Falsy(description)
    ensures |r| <= CardDescriptionLength + 3
    ensures !Falsy(description) && |description.value| <= CardDescriptionLength ==> r == description.value
    ensures !Falsy(description) && |description.value| > CardDescriptionLength ==>
              |r| == CardDescriptionLength + 3 && r[..CardDescriptionLength] == description.value[..CardDescriptionLength]
              && r[CardDescriptionLength..] == "..."
  {
    if Falsy(description) then [] else Truncate(description.value, CardDescriptionLength)
  }

  /** The description block of a card: absent exactly when the description is falsy. */
  function DescriptionBlock(description: Option<string>): (r: string)
    ensures r == [] <==> Falsy(description)
  {
    var shown := CardDescription(description);
    if shown == [] then [] else "<div class=\"description\">" + shown + "</div>"
  }

  /** A card never shows a description twice cut: truncating the shown text again changes nothing. */
  lemma CardDescriptionStable(description: Option<string>)
    requires !Falsy(description)
    ensures Truncate(CardDescription(description), CardDescriptionLength) == CardDescription(description)
  {
    TruncateIdempotent(description.value, CardDescriptionLength);
  }

  /** The count line of a listing: `n article(s) trouvé(s)`. */
  function FoundLabel(n: nat): string
  {
    NatToString(n) + " " + Pluralize("article", n) + " " + Pluralize("trouvé", n)
  }

  /** A region card's count: `n article(s)` or `n source(s)`. */
  function CountLabel(n: nat, noun: string): string
  {
    NatToString(n) + " " + Pluralize(noun, n)
  }

  /** A count label ends with the plural `s` exactly when the count is above one (for a noun not ending in `s`). */
  lemma CountLabelPlural(n: nat, noun: string)
    requires noun != [] && noun[|noun| - 1] != 's'
    ensures var r := CountLabel(n, noun); (r[|r| - 1] == 's' <==> n > 1)
  {
    var p := Pluralize(noun, n);
    var r := NatToString(n) + " " + p;
    assert r[|r| - 1] == p[|p| - 1];
  }

  /** The listing's line uses the plural on both words together, exactly when the count is above one. */
  lemma FoundLabelPlural(n: nat)
    ensures FoundLabel(n) == NatToString(n) + " " + (if n > 1 then "articles" else "article")
                            + " " + (if n > 1 then "trouvés" else "trouvé")
  {
    assert Pluralize("article", n) == if n > 1 then "articles" else "article";
    assert Pluralize("trouvé", n) == if n > 1 then "trouvés" else "trouvé";
  }
}
