/**
 * String primitives the aggregator relies on: Python's `str.strip()`,
 * `str.replace()`, `str.lower()` (for the characters the catalog uses),
 * the length-capped truncation used for descriptions, and the decimal
 * rendering of a natural number used by the front end's templates.
 */
module Text {

  datatype Option<T> = None | Some(value: T)

  function GetOr<T>(o: Option<T>, default: T): T
  {
    match o
    case Some(v) => v
    case None => default
  }

  // ---------------------------------------------------------------------
  // Whitespace and str.strip()
  // ---------------------------------------------------------------------

  /** The code points for which Python's `str.isspace()` holds. */
  predicate IsSpace(c: char)
  {
    || ('\t' <= c <= '\r')
    || ('\U{1C}' <= c <= '\U{1F}')
    || c == ' '
    || c == '\U{85}'
    || c == '\U{A0}'
    || c == '\U{1680}'
    || ('\U{2000}' <= c <= '\U{200A}')
    || c == '\U{2028}'
    || c == '\U{2029}'
    || c == '\U{202F}'
    || c == '\U{205F}'
    || c == '\U{3000}'
  }

  /** True when every character of `s` is whitespace (so `s.strip()` is empty). */
  predicate AllSpace(s: string)
  {
    forall k :: 0 <= k < |s| ==> IsSpace(s[k])
  }

  /** Number of whitespace characters at the start of `s`. */
  function LeadingSpace(s: string): (n: nat)
    ensures n <= |s|
    ensures forall k :: 0 <= k < n ==> IsSpace(s[k])
    ensures n == |s| || !IsSpace(s[n])
  {
    if s != [] && IsSpace(s[0]) then 1 + LeadingSpace(s[1..]) else 0
  }

  /** Number of whitespace characters at the end of `s`. */
  function TrailingSpace(s: string): (n: nat)
    ensures n <= |s|
    ensures forall k :: |s| - n <= k < |s| ==> IsSpace(s[k])
    ensures n == |s| || !IsSpace(s[|s| - 1 - n])
  {
    if s != [] && IsSpace(s[|s| - 1]) then 1 + TrailingSpace(s[..|s| - 1]) else 0
  }

  /**
   * Python's `s.strip()`: the longest infix of `s` that neither starts nor
   * ends with whitespace, obtained by removing only whitespace at both ends.
   */
  function Strip(s: string): (r: string)
    ensures r == [] <==> AllSpace(s)
    ensures r != [] ==> !IsSpace(r[0]) && !IsSpace(r[|r| - 1])
    ensures LeadingSpace(s) + |r| <= |s|
    ensures r == s[LeadingSpace(s) .. LeadingSpace(s) + |r|]
    ensures forall k :: LeadingSpace(s) + |r| <= k < |s| ==> IsSpace(s[k])
  {
    var i := LeadingSpace(s);
    var t := s[i..];
    var r := t[..|t| - TrailingSpace(t)];
    assert t != [] ==> t[0] == s[i] && !IsSpace(t[0]);
    assert r == [] ==> i == |s|;
    assert r != [] ==> r[0] == s[i];
    r
  }

  /** Stripping twice is stripping once. */
  lemma StripIdempotent(s: string)
    ensures Strip(Strip(s)) == Strip(s)
  {
    var r := Strip(s);
    if r != [] {
      assert LeadingSpace(r) == 0;
      var t := r[0..];
      assert t == r;
      assert TrailingSpace(t) == 0;
    }
  }

  // ---------------------------------------------------------------------
  // str.replace(pat, rep)
  // ---------------------------------------------------------------------

  /** `p` occurs somewhere in `s` as a contiguous block. */
  predicate Occurs(p: string, s: string)
    decreases |s|
  {
    p <= s || (s != [] && Occurs(p, s[1..]))
  }

  /**
   * Python's `s.replace(pat, rep)`: scans left to right and replaces each
   * non-overlapping occurrence of `pat` by `rep`, in a single pass.
   */
  function ReplaceAll(s: string, pat: string, rep: string): (r: string)
    requires pat != []
    ensures |rep| <= |pat| ==> |r| <= |s|
    ensures |rep| == |pat| ==> |r| == |s|
    decreases |s|
  {
    if s == [] then []
    else if pat <= s then rep + ReplaceAll(s[|pat|..], pat, rep)
    else [s[0]] + ReplaceAll(s[1..], pat, rep)
  }

  /** Where the pattern does not occur, replacing it changes nothing. */
  lemma {:induction false} ReplaceAbsent(s: string, pat: string, rep: string)
    requires pat != []
    requires !Occurs(pat, s)
    ensures ReplaceAll(s, pat, rep) == s
    decreases |s|
  {
    if s != [] {
      ReplaceAbsent(s[1..], pat, rep);
    }
  }

  /** Every character of the result comes from the input or from `rep`. */
  lemma {:induction false} ReplaceChars(s: string, pat: string, rep: string, c: char)
    requires pat != []
    requires c in ReplaceAll(s, pat, rep)
    ensures c in s || c in rep
    decreases |s|
  {
    if s == [] {
    } else if pat <= s {
      if c !in rep {
        ReplaceChars(s[|pat|..], pat, rep, c);
      }
    } else if c != s[0] {
      ReplaceChars(s[1..], pat, rep, c);
    }
  }

  /** A one-character pattern disappears entirely when `rep` does not contain it. */
  lemma {:induction false} ReplaceCharRemoves(s: string, x: char, rep: string)
    requires x !in rep
    ensures x !in ReplaceAll(s, [x], rep)
    decreases |s|
  {
    if s != [] {
      ReplaceCharRemoves(s[1..], x, rep);
      if [x] <= s {
        assert ReplaceAll(s, [x], rep) == rep + ReplaceAll(s[1..], [x], rep);
      } else {
        assert s[0] != x;
      }
    }
  }

  /** A character other than the one-character pattern survives the replacement. */
  lemma {:induction false} ReplaceCharKeeps(s: string, x: char, rep: string, c: char)
    requires c in s && c != x
    ensures c in ReplaceAll(s, [x], rep)
    decreases |s|
  {
    if s[0] == c {
      assert !([x] <= s);
    } else {
      assert c in s[1..];
      ReplaceCharKeeps(s[1..], x, rep, c);
      var tail := ReplaceAll(s[1..], [x], rep);
      if [x] <= s {
        assert ReplaceAll(s, [x], rep) == rep + tail;
      } else {
        assert ReplaceAll(s, [x], rep) == [s[0]] + tail;
      }
    }
  }

  /** Where the one-character pattern occurs, the replacement text shows up in the result. */
  lemma {:induction false} ReplaceCharInserts(s: string, x: char, rep: string)
    requires x in s && rep != []
    ensures rep[0] in ReplaceAll(s, [x], rep)
    decreases |s|
  {
    var tail := ReplaceAll(s[1..], [x], rep);
    if s[0] == x {
      assert [x] <= s;
      assert ReplaceAll(s, [x], rep) == rep + tail;
    } else {
      assert x in s[1..];
      ReplaceCharInserts(s[1..], x, rep);
      assert !([x] <= s);
      assert ReplaceAll(s, [x], rep) == [s[0]] + tail;
    }
  }

  /** `p` is a prefix of `[c] + t` exactly when it starts with `c` and continues with a prefix of `t`. */
  lemma PrefixOfCons(p: string, c: char, t: string)
    requires p != []
    ensures p <= [c] + t <==> p[0] == c && p[1..] <= t
  {
    var u := [c] + t;
    if p[0] == c && p[1..] <= t {
      assert forall k :: 1 <= k < |p| ==> p[k] == p[1..][k - 1] == t[k - 1] == u[k];
    }
    if p <= u {
      assert forall k :: 0 <= k < |p| - 1 ==> p[1..][k] == p[k + 1] == u[k + 1] == t[k];
    }
  }

  /** A text that shares no character with `rep` and starts the output also started the input. */
  lemma {:induction false} ReplacePrefixBack(u: string, q: string, pat: string, rep: string)
    requires pat != [] && rep != []
    requires forall k :: 0 <= k < |q| ==> q[k] !in rep
    ensures q <= ReplaceAll(u, pat, rep) ==> q <= u
    decreases |u|
  {
    if q != [] && u != [] {
      var r := ReplaceAll(u, pat, rep);
      if pat <= u {
        assert r[0] == rep[0] by {
          assert r == rep + ReplaceAll(u[|pat|..], pat, rep);
        }
        assert q[0] !in rep;
        assert rep[0] in rep;
      } else {
        var tail := ReplaceAll(u[1..], pat, rep);
        assert r == [u[0]] + tail;
        ReplacePrefixBack(u[1..], q[1..], pat, rep);
        PrefixOfCons(q, u[0], tail);
        PrefixOfCons(q, u[0], u[1..]);
        assert [u[0]] + u[1..] == u;
      }
    }
  }

  /**
   * When `rep` shares no character with `pat` (as with `&nbsp;` -> space),
   * one pass leaves no occurrence of `pat` behind.
   */
  lemma {:induction false} ReplaceLeavesNone(s: string, pat: string, rep: string)
    requires pat != [] && rep != []
    requires forall k :: 0 <= k < |pat| ==> pat[k] !in rep
    ensures !Occurs(pat, ReplaceAll(s, pat, rep))
    decreases |s|
  {
    if s != [] {
      var r := ReplaceAll(s, pat, rep);
      if pat <= s {
        var tail := ReplaceAll(s[|pat|..], pat, rep);
        ReplaceLeavesNone(s[|pat|..], pat, rep);
        assert r == rep + tail;
        NoOccursInPrefixedConcat(pat, rep, tail);
      } else {
        var tail := ReplaceAll(s[1..], pat, rep);
        ReplaceLeavesNone(s[1..], pat, rep);
        assert r == [s[0]] + tail;
        assert r[1..] == tail;
        ReplacePrefixBack(s[1..], pat[1..], pat, rep);
        PrefixOfCons(pat, s[0], tail);
        PrefixOfCons(pat, s[0], s[1..]);
        assert [s[0]] + s[1..] == s;
      }
    }
  }

  /** `pat` cannot occur in `w + t` when it occurs nowhere in `t` and its first character is not in `w`. */
  lemma {:induction false} NoOccursInPrefixedConcat(pat: string, w: string, t: string)
    requires pat != []
    requires pat[0] !in w
    requires !Occurs(pat, t)
    ensures !Occurs(pat, w + t)
    decreases |w|
  {
    if w != [] {
      assert w[0] in w;
      assert (w + t)[1..] == w[1..] + t;
      NoOccursInPrefixedConcat(pat, w[1..], t);
    } else {
      assert w + t == t;
    }
  }

  // ---------------------------------------------------------------------
  // str.lower()
  // ---------------------------------------------------------------------

  /** Upper-case letters of ASCII and Latin-1 (U+00C0..U+00DE except U+00D7). */
  predicate IsUpper(c: char)
  {
    ('A' <= c <= 'Z') || ('\U{C0}' <= c <= '\U{DE}' && c != '\U{D7}')
  }

  /** Python's lower-casing of one character, for ASCII and Latin-1. */
  function LowerChar(c: char): (r: char)
    ensures IsUpper(c) ==> r as int == c as int + 32
    ensures !IsUpper(c) ==> r == c
    ensures !IsUpper(r)
  {
    if IsUpper(c) then (c as int + 32) as char else c
  }

  /** Python's `s.lower()`, character by character. */
  function Lower(s: string): (r: string)
    ensures |r| == |s|
    ensures forall k :: 0 <= k < |s| ==> r[k] == LowerChar(s[k])
  {
    if s == [] then [] else [LowerChar(s[0])] + Lower(s[1..])
  }

  /** A string is lower-case when lower-casing it changes nothing. */
  predicate IsLowerString(s: string)
  {
    forall k :: 0 <= k < |s| ==> !IsUpper(s[k])
  }

  lemma LowerOfLower(s: string)
    requires IsLowerString(s)
    ensures Lower(s) == s
  {
  }

  // ---------------------------------------------------------------------
  // Truncation with an ellipsis marker
  // ---------------------------------------------------------------------

  /** A text longer than `n` characters is cut to its first `n` followed by `...`; a shorter one is kept. */
  function Truncate(s: string, n: nat): (r: string)
    ensures |r| <= n + 3
    ensures |s| <= n ==> r == s
    ensures |s| > n ==> |r| == n + 3 && r[..n] == s[..n] && r[n..] == "..."
  {
    if |s| > n then s[..n] + "..." else s
  }

  /** Truncating an already truncated text changes nothing. */
  lemma TruncateIdempotent(s: string, n: nat)
    ensures Truncate(Truncate(s, n), n) == Truncate(s, n)
  {
    if |s| > n {
      var t := Truncate(s, n);
      assert t[..n] == s[..n];
      assert t[..n] + "..." == t;
    }
  }

  // ---------------------------------------------------------------------
  // Decimal rendering of a natural number (JavaScript template `${n}`)
  // ---------------------------------------------------------------------

  function DigitChar(d: nat): (c: char)
    requires d < 10
    ensures '0' <= c <= '9' && c as int - '0' as int == d
  {
    ('0' as int + d) as char
  }

  /** Shortest decimal representation of `n`. */
  function NatToString(n: nat): (r: string)
    ensures r != []
    ensures forall k :: 0 <= k < |r| ==> '0' <= r[k] <= '9'
    ensures r[0] == '0' ==> n == 0
  {
    if n < 10 then [DigitChar(n)] else NatToString(n / 10) + [DigitChar(n % 10)]
  }

  /** The value of a string of decimal digits. */
  function DecimalValue(s: string): nat
    requires forall k :: 0 <= k < |s| ==> '0' <= s[k] <= '9'
  {
    if s == [] then 0
    else 10 * DecimalValue(s[..|s| - 1]) + (s[|s| - 1] as int - '0' as int)
  }

  /** Reading back the decimal rendering gives the number. */
  lemma {:induction false} NatToStringRoundTrip(n: nat)
    ensures DecimalValue(NatToString(n)) == n
  {
    var r := NatToString(n);
    if n >= 10 {
      NatToStringRoundTrip(n / 10);
      assert r[..|r| - 1] == NatToString(n / 10);
    }
  }
}
