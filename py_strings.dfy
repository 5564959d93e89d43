/**
 * The Python string operations the monitor relies on, stated over `seq<char>`:
 * `str.isspace`, `str.strip`, `str.split(sep)`, `str.replace(pat, '')`,
 * `str.lower` (on the cased ranges listed at `LowerChar`), the `in` operator,
 * `int(str)` for base-10 literals and `str(n)` for natural numbers.
 */
module PyStrings {
  import opened Wrappers

  // ---------------------------------------------------------------------------
  // Whitespace and strip
  // ---------------------------------------------------------------------------

  /** Python's `str.isspace()` on one character. */
  predicate IsSpace(c: char)
  {
    var n := c as int;
    (9 <= n <= 13) || (28 <= n <= 32) || n == 0x85 || n == 0xA0 || n == 0x1680
    || (0x2000 <= n <= 0x200A) || n == 0x2028 || n == 0x2029 || n == 0x202F
    || n == 0x205F || n == 0x3000
  }

  /** The number of whitespace characters `s` starts with. */
  function LeadingSpaces(s: string): (n: nat)
    ensures n <= |s|
    ensures forall k :: 0 <= k < n ==> IsSpace(s[k])
    ensures n == |s| || !IsSpace(s[n])
    decreases |s|
  {
    if s != [] && IsSpace(s[0]) then
      var m := LeadingSpaces(s[1..]);
      assert forall k :: 1 <= k < m + 1 ==> s[k] == s[1..][k - 1];
      m + 1
    else 0
  }

  /** The number of whitespace characters `s` ends with. */
  function TrailingSpaces(s: string): (n: nat)
    ensures n <= |s|
    ensures forall k :: |s| - n <= k < |s| ==> IsSpace(s[k])
    ensures n == |s| || !IsSpace(s[|s| - n - 1])
    decreases |s|
  {
    if s != [] && IsSpace(s[|s| - 1]) then
      var m := TrailingSpaces(s[..|s| - 1]);
      assert forall k :: |s| - 1 - m <= k < |s| - 1 ==> s[k] == s[..|s| - 1][k];
      m + 1
    else 0
  }

  /** `s.lstrip()`. */
  function LStrip(s: string): string
  {
    s[LeadingSpaces(s)..]
  }

  /** Neither end of `s` is whitespace. */
  predicate Trimmed(s: string)
  {
    s == [] || (!IsSpace(s[0]) && !IsSpace(s[|s| - 1]))
  }

  /**
   * `s.strip()`: the infix of `s` that remains once the whitespace at both
   * ends is removed; it neither starts nor ends with whitespace.
   */
  function Strip(s: string): (r: string)
    ensures r == [] || (!IsSpace(r[0]) && !IsSpace(r[|r| - 1]))
    ensures var a := LeadingSpaces(s);
      && a + |r| <= |s| && r == s[a..a + |r|]
      && (forall k :: a + |r| <= k < |s| ==> IsSpace(s[k]))
  {
    var a := LeadingSpaces(s);
    if a == |s| then [] else
    var b := TrailingSpaces(s[a..]);
    TrailingSpacesAfter(s, a, s[a..], b);
    s[a..|s| - b]
  }

  /** The whitespace `s[a..]` ends with is whitespace `s` ends with, and it stops before `s[a]`. */
  lemma TrailingSpacesAfter(s: string, a: nat, t: string, b: nat)
    requires a < |s| && t == s[a..] && !IsSpace(s[a])
    requires b <= |t| && (forall k :: |t| - b <= k < |t| ==> IsSpace(t[k]))
    requires b == |t| || !IsSpace(t[|t| - b - 1])
    ensures b < |t| && !IsSpace(s[|s| - b - 1])
    ensures forall k :: |s| - b <= k < |s| ==> IsSpace(s[k])
  {
    assert t[0] == s[a];
    forall k | |s| - b <= k < |s|
      ensures IsSpace(s[k])
    {
      assert s[k] == t[k - a];
    }
    assert s[|s| - b - 1] == t[|t| - b - 1];
  }

  /** A string with no whitespace at either end is its own strip. */
  lemma StripTrimmed(s: string)
    requires Trimmed(s)
    ensures Strip(s) == s
  {
  }

  /** Stripping twice is stripping once. */
  lemma StripIdempotent(s: string)
    ensures Strip(Strip(s)) == Strip(s)
  {
    StripTrimmed(Strip(s));
  }

  // ---------------------------------------------------------------------------
  // split and join
  // ---------------------------------------------------------------------------

  /** `sep.join(parts)`. */
  function Join(parts: seq<string>, sep: char): string
  {
    if |parts| == 0 then ""
    else if |parts| == 1 then parts[0]
    else parts[0] + [sep] + Join(parts[1..], sep)
  }

  /**
   * `s.split(sep)` with an explicit one-character separator: the maximal
   * separator-free pieces, empty ones included (see `JoinSplit`).
   */
  function Split(s: string, sep: char): (r: seq<string>)
    ensures |r| >= 1
    decreases |s|
  {
    if s == [] then [""]
    else
      var rest := Split(s[1..], sep);
      if s[0] == sep then [""] + rest
      else [[s[0]] + rest[0]] + rest[1..]
  }

  /** No piece of `s.split(sep)` contains the separator. */
  lemma {:induction false} SplitPieces(s: string, sep: char)
    ensures forall i :: 0 <= i < |Split(s, sep)| ==> sep !in Split(s, sep)[i]
    decreases |s|
  {
    if s != [] {
      var rest := Split(s[1..], sep);
      SplitPieces(s[1..], sep);
      if s[0] != sep {
        assert sep !in [s[0]] + rest[0];
      }
    }
  }

  /** Joining the pieces gives the text back. */
  lemma {:induction false} JoinSplit(s: string, sep: char)
    ensures Join(Split(s, sep), sep) == s
    decreases |s|
  {
    if s != [] {
      var rest := Split(s[1..], sep);
      JoinSplit(s[1..], sep);
      assert s == [s[0]] + s[1..];
      if s[0] == sep {
        var r := [""] + rest;
        assert r[1..] == rest;
      } else {
        var r := [[s[0]] + rest[0]] + rest[1..];
        assert r[1..] == rest[1..];
        assert |rest| > 1 ==> Join(rest, sep) == rest[0] + [sep] + Join(rest[1..], sep);
      }
    }
  }

  /** A string without the separator splits into itself alone. */
  lemma {:induction false} SplitNoSeparator(s: string, sep: char)
    requires sep !in s
    ensures Split(s, sep) == [s]
    decreases |s|
  {
    if s != [] {
      SplitNoSeparator(s[1..], sep);
      assert s == [s[0]] + s[1..];
    }
  }

  /** Splitting at a separator splits the two sides independently. */
  lemma {:induction false} SplitAround(x: string, y: string, sep: char)
    ensures Split(x + [sep] + y, sep) == Split(x, sep) + Split(y, sep)
    decreases |x|
  {
    var s := x + [sep] + y;
    if x == [] {
      assert s[0] == sep && s[1..] == y;
    } else {
      assert s[0] == x[0] && s[1..] == x[1..] + [sep] + y;
      SplitAround(x[1..], y, sep);
    }
  }

  /** `split` inverts `join` when no piece holds the separator. */
  lemma {:induction false} SplitJoin(parts: seq<string>, sep: char)
    requires |parts| >= 1
    requires forall i :: 0 <= i < |parts| ==> sep !in parts[i]
    ensures Split(Join(parts, sep), sep) == parts
    decreases |parts|
  {
    SplitNoSeparator(parts[0], sep);
    if |parts| > 1 {
      SplitJoin(parts[1..], sep);
      SplitAround(parts[0], Join(parts[1..], sep), sep);
      assert parts == [parts[0]] + parts[1..];
    }
  }

  /** `s.split(sep)[-1]`: the text after the last separator (all of `s` if there is none). */
  function LastSegment(s: string, sep: char): (r: string)
    ensures sep !in r
  {
    var parts := Split(s, sep);
    SplitPieces(s, sep);
    parts[|parts| - 1]
  }

  /** The last segment of `x + sep + y` is `y` when `y` holds no separator. */
  lemma LastSegmentAfter(x: string, y: string, sep: char)
    requires sep !in y
    ensures LastSegment(x + [sep] + y, sep) == y
  {
    SplitAround(x, y, sep);
    SplitNoSeparator(y, sep);
  }

  // ---------------------------------------------------------------------------
  // Substrings: startswith, `in`, replace(pat, '')
  // ---------------------------------------------------------------------------

  predicate StartsWith(s: string, p: string)
  {
    |p| <= |s| && s[..|p|] == p
  }

  /** `needle` occurs in `hay` starting at position `i`. */
  predicate OccursAt(hay: string, needle: string, i: int)
  {
    0 <= i <= |hay| - |needle| && hay[i..i + |needle|] == needle
  }

  /** Python's `needle in hay` for strings: `needle` occurs somewhere in `hay`. */
  predicate Contains(hay: string, needle: string)
    ensures Contains(hay, needle) <==> exists i :: OccursAt(hay, needle, i)
    decreases |hay|
  {
    if StartsWith(hay, needle) then assert OccursAt(hay, needle, 0); true
    else if hay == [] then false
    else ContainsShift(hay, needle); Contains(hay[1..], needle)
  }

  /** The occurrences in `hay[1..]` are those in `hay`, shifted by one, except one at 0. */
  lemma ContainsShift(hay: string, needle: string)
    requires hay != [] && !StartsWith(hay, needle)
    ensures (exists i :: OccursAt(hay[1..], needle, i)) <==> (exists i :: OccursAt(hay, needle, i))
  {
    forall i | OccursAt(hay[1..], needle, i) ensures OccursAt(hay, needle, i + 1) {
      assert hay[1..][i..i + |needle|] == hay[i + 1..i + 1 + |needle|];
    }
    forall i | OccursAt(hay, needle, i) ensures OccursAt(hay[1..], needle, i - 1) {
      assert i != 0;
      assert hay[1..][i - 1..i - 1 + |needle|] == hay[i..i + |needle|];
    }
  }

  /** A needle whose first character does not occur in `hay` is not in it. */
  lemma AbsentHeadNotContained(hay: string, needle: string)
    requires needle != [] && needle[0] !in hay
    ensures !Contains(hay, needle)
  {
    forall i | 0 <= i <= |hay| - |needle| ensures !OccursAt(hay, needle, i) {
      assert hay[i..i + |needle|][0] == hay[i] != needle[0];
    }
  }

  /** Any text around a contained needle keeps it contained. */
  lemma ContainedInLarger(a: string, hay: string, b: string, needle: string)
    requires Contains(hay, needle)
    ensures Contains(a + hay + b, needle)
  {
    var i :| OccursAt(hay, needle, i);
    assert (a + hay + b)[|a| + i..|a| + i + |needle|] == hay[i..i + |needle|];
    assert OccursAt(a + hay + b, needle, |a| + i);
  }

  /**
   * `s.replace(pat, '')`: scanning left to right, every non-overlapping
   * occurrence of `pat` is deleted; what is kept keeps its order.
   */
  function RemoveAll(s: string, pat: string): (r: string)
    requires pat != []
    ensures |r| <= |s|
    decreases |s|
  {
    if |s| < |pat| then s
    else if s[..|pat|] == pat then RemoveAll(s[|pat|..], pat)
    else [s[0]] + RemoveAll(s[1..], pat)
  }

  /** What `s.replace(pat, '')` keeps are characters of `s`. */
  lemma {:induction false} RemoveAllChars(s: string, pat: string)
    requires pat != []
    ensures forall i :: 0 <= i < |RemoveAll(s, pat)| ==> RemoveAll(s, pat)[i] in s
    decreases |s|
  {
    if |s| >= |pat| {
      var r := RemoveAll(s, pat);
      if s[..|pat|] == pat {
        var tail := s[|pat|..];
        RemoveAllChars(tail, pat);
        forall i | 0 <= i < |r|
          ensures r[i] in s
        {
          var j :| 0 <= j < |tail| && tail[j] == r[i];
          assert s[|pat| + j] == r[i];
        }
      } else {
        var rest := RemoveAll(s[1..], pat);
        RemoveAllChars(s[1..], pat);
        assert r == [s[0]] + rest;
        forall i | 0 <= i < |r|
          ensures r[i] in s
        {
          if i == 0 {
            assert r[0] == s[0];
          } else {
            assert r[i] == rest[i - 1];
            var j :| 0 <= j < |s| - 1 && s[1..][j] == r[i];
            assert s[j + 1] == r[i];
          }
        }
      }
    }
  }

  /**
   * Removal is one left-to-right pass, not repeated until nothing is left:
   * deleting the inner `index` of `inindexdex` joins `in` and `dex` into a
   * new occurrence, which is kept.
   */
  lemma RemoveAllOnePass()
    ensures RemoveAll("inindexdex", "index") == "index"
  {
    assert RemoveAll("dex", "index") == "dex";
    assert RemoveAll("indexdex", "index") == "dex";
    assert RemoveAll("nindexdex", "index") == "ndex";
    assert RemoveAll("inindexdex", "index") == "i" + "ndex";
  }

  /** Nothing is removed when the pattern's first character never occurs. */
  lemma {:induction false} RemoveAllAbsent(s: string, pat: string)
    requires pat != [] && pat[0] !in s
    ensures RemoveAll(s, pat) == s
    decreases |s|
  {
    if |s| >= |pat| {
      assert s[0] != pat[0];
      RemoveAllAbsent(s[1..], pat);
      assert s == [s[0]] + s[1..];
    }
  }

  /**
   * A trailing `pat` is the only thing removed from `x + pat` when no
   * occurrence can start inside `x`: none can when `pat[1]` is absent from `x`
   * and differs from `pat[0]`.
   */
  lemma {:induction false} RemoveAllTrailing(x: string, pat: string)
    requires |pat| >= 2 && pat[0] != pat[1] && pat[1] !in x
    ensures RemoveAll(x + pat, pat) == x
    decreases |x|
  {
    var s := x + pat;
    if x == [] {
      assert s == pat && s[|pat|..] == [];
    } else {
      assert s[1] != pat[1] by {
        if |x| >= 2 { assert s[1] == x[1]; } else { assert s[1] == pat[0]; }
      }
      assert s[..|pat|][1] == s[1];
      assert s[1..] == x[1..] + pat;
      RemoveAllTrailing(x[1..], pat);
    }
  }

  /** A leading `pat` is removed, and the rest is scanned from there. */
  lemma RemoveAllLeading(pat: string, y: string)
    requires pat != []
    ensures RemoveAll(pat + y, pat) == RemoveAll(y, pat)
  {
    assert (pat + y)[..|pat|] == pat && (pat + y)[|pat|..] == y;
  }

  // ---------------------------------------------------------------------------
  // Lower case
  // ---------------------------------------------------------------------------

  /**
   * `str.lower()` on one character, for the cased ranges modelled: ASCII,
   * Latin-1, Greek, Cyrillic and full-width Latin capitals. Every other
   * character (CJK included) is its own lower case.
   */
  function LowerChar(c: char): char
  {
    var n := c as int;
    if ('A' <= c <= 'Z') || (0xC0 <= n <= 0xDE && n != 0xD7) || (0x391 <= n <= 0x3A9 && n != 0x3A2)
       || (0x410 <= n <= 0x42F) || (0xFF21 <= n <= 0xFF3A)
    then (n + 0x20) as char
    else if 0x400 <= n <= 0x40F then (n + 0x50) as char
    else c
  }

  /** `s.lower()`, position by position. */
  function Lower(s: string): (r: string)
    ensures |r| == |s|
    ensures forall i :: 0 <= i < |s| ==> r[i] == LowerChar(s[i])
  {
    seq(|s|, i requires 0 <= i < |s| => LowerChar(s[i]))
  }

  /**
   * `lower()` leaves no ASCII capital: each becomes its small letter, and
   * small letters, digits and CJK ideographs stay as they are.
   */
  lemma LowerCases(s: string)
    ensures forall i :: 0 <= i < |s| ==> !('A' <= Lower(s)[i] <= 'Z')
    ensures forall i :: 0 <= i < |s| && 'A' <= s[i] <= 'Z' ==> Lower(s)[i] == (s[i] as int + 32) as char
    ensures forall i :: 0 <= i < |s| && ('a' <= s[i] <= 'z' || '0' <= s[i] <= '9' || 0x4E00 <= s[i] as int <= 0x9FFF) ==>
      Lower(s)[i] == s[i]
  {
  }

  /** Lower-casing is idempotent, character by character and on strings. */
  lemma LowerIdempotent(s: string)
    ensures Lower(Lower(s)) == Lower(s)
  {
    forall i | 0 <= i < |s| ensures LowerChar(LowerChar(s[i])) == LowerChar(s[i]) { }
  }

  /** Lower-casing distributes over concatenation. */
  lemma LowerConcat(a: string, b: string)
    ensures Lower(a + b) == Lower(a) + Lower(b)
  {
  }

  // ---------------------------------------------------------------------------
  // Decimal numbers: int(s) and str(n)
  // ---------------------------------------------------------------------------

  predicate IsDigit(c: char)
  {
    '0' <= c <= '9'
  }

  predicate AllDigits(s: string)
  {
    forall i :: 0 <= i < |s| ==> IsDigit(s[i])
  }

  function DigitValue(c: char): nat
    requires IsDigit(c)
  {
    c as int - '0' as int
  }

  function DigitChar(d: nat): (c: char)
    requires d < 10
    ensures IsDigit(c) && DigitValue(c) == d
  {
    ('0' as int + d) as char
  }

  /** The value of a string of decimal digits, most significant first. */
  function DecimalValue(ds: string): nat
    requires AllDigits(ds)
  {
    if ds == [] then 0 else DecimalValue(ds[..|ds| - 1]) * 10 + DigitValue(ds[|ds| - 1])
  }

  /** `str(n)` for a natural number: its decimal digits, with no leading zero. */
  function NatToStr(n: nat): (s: string)
    ensures |s| >= 1 && AllDigits(s)
    ensures |s| > 1 ==> s[0] != '0'
    decreases n
  {
    if n < 10 then [DigitChar(n)] else NatToStr(n / 10) + [DigitChar(n % 10)]
  }

  lemma {:induction false} NatToStrValue(n: nat)
    ensures DecimalValue(NatToStr(n)) == n
    decreases n
  {
    if n >= 10 {
      NatToStrValue(n / 10);
      var s := NatToStr(n);
      assert s[..|s| - 1] == NatToStr(n / 10);
    }
  }

  /**
   * The digit part accepted by Python's `int()`: ASCII digits, with single
   * underscores allowed between two digits.
   */
  predicate IsDigitGroups(s: string)
  {
    && s != []
    && (forall i :: 0 <= i < |s| ==> IsDigit(s[i]) || s[i] == '_')
    && IsDigit(s[0]) && IsDigit(s[|s| - 1])
    && (forall i :: 0 <= i < |s| - 1 ==> s[i] == '_' ==> s[i + 1] != '_')
  }

  function DropUnderscores(s: string): (r: string)
    requires forall i :: 0 <= i < |s| ==> IsDigit(s[i]) || s[i] == '_'
    ensures AllDigits(r)
  {
    if s == [] then []
    else (if s[0] == '_' then [] else [s[0]]) + DropUnderscores(s[1..])
  }

  lemma {:induction false} DropUnderscoresDigits(s: string)
    requires AllDigits(s)
    ensures DropUnderscores(s) == s
    decreases |s|
  {
    if s != [] {
      DropUnderscoresDigits(s[1..]);
      assert s == [s[0]] + s[1..];
    }
  }

  function ParseDigitGroups(s: string): Option<nat>
  {
    if IsDigitGroups(s) then Some(DecimalValue(DropUnderscores(s))) else None
  }

  /**
   * U+001C to U+001F: `isspace()` holds of them, but `int()` skips only the
   * ASCII whitespace space, `\t`, `\n`, `\v`, `\f` and `\r` (non-ASCII
   * whitespace it first turns into a space), so to `int()` these are
   * neither whitespace nor digits.
   */
  predicate IsInfoSeparator(c: char)
  {
    28 <= c as int <= 31
  }

  /** Some character of `s` is one of U+001C to U+001F. */
  predicate HasInfoSeparator(s: string)
  {
    s != [] && (IsInfoSeparator(s[0]) || HasInfoSeparator(s[1..]))
  }

  /** `HasInfoSeparator` holds exactly when one of the characters is such a separator. */
  lemma {:induction false} HasInfoSeparatorIff(s: string)
    ensures HasInfoSeparator(s) <==> exists k :: 0 <= k < |s| && IsInfoSeparator(s[k])
    decreases |s|
  {
    if s != [] {
      HasInfoSeparatorIff(s[1..]);
      if k :| 0 <= k < |s| && IsInfoSeparator(s[k]) {
        if k > 0 { assert s[1..][k - 1] == s[k]; }
      }
      if k :| 0 <= k < |s| - 1 && IsInfoSeparator(s[1..][k]) {
        assert s[k + 1] == s[1..][k];
      }
    }
  }

  /**
   * Python's `int(s)` on text: surrounding whitespace is ignored, then an
   * optional sign, then digit groups; anything else is a `ValueError` (`None`).
   */
  function ParseInt(s: string): Option<int>
  {
    if HasInfoSeparator(s) then None else
    var t := Strip(s);
    if t != [] && (t[0] == '-' || t[0] == '+') then
      match ParseDigitGroups(t[1..])
      case None => None
      case Some(m) => Some(if t[0] == '-' then -(m as int) else m)
    else
      match ParseDigitGroups(t)
      case None => None
      case Some(m) => Some(m)
  }

  /** The decimal digits of `n` read back as `n`. */
  lemma ParseDigitGroupsNat(n: nat)
    ensures ParseDigitGroups(NatToStr(n)) == Some(n)
  {
    DropUnderscoresDigits(NatToStr(n));
    NatToStrValue(n);
  }

  /** `int(str(n)) == n`. */
  lemma ParseIntNatToStr(n: nat)
    ensures ParseInt(NatToStr(n)) == Some(n)
  {
    var s := NatToStr(n);
    HasInfoSeparatorIff(s);
    assert !IsSpace(s[0]) && !IsSpace(s[|s| - 1]);
    StripTrimmed(s);
    ParseDigitGroupsNat(n);
  }

  /** `int('-' + str(n)) == -n`. */
  lemma ParseIntNegative(n: nat)
    ensures ParseInt("-" + NatToStr(n)) == Some(-(n as int))
  {
    var digits := NatToStr(n);
    var s := "-" + digits;
    HasInfoSeparatorIff(s);
    assert forall k :: 1 <= k < |s| ==> s[k] == digits[k - 1];
    assert s[|s| - 1] == digits[|digits| - 1];
    assert Trimmed(s);
    StripTrimmed(s);
    assert s[1..] == digits;
    ParseDigitGroupsNat(n);
    ParseIntSigned(s, n);
  }

  lemma ParseIntSigned(s: string, m: nat)
    requires Strip(s) == s && s != [] && s[0] == '-' && !HasInfoSeparator(s)
    requires ParseDigitGroups(s[1..]) == Some(m)
    ensures ParseInt(s) == Some(-(m as int))
  {
    assert !(s[0] == '+');
  }

  /** A text holding any of U+001C to U+001F, at an end or inside, is no integer. */
  lemma ParseIntInfoSeparator(s: string, k: nat)
    requires k < |s| && IsInfoSeparator(s[k])
    ensures ParseInt(s) == None
  {
    HasInfoSeparatorIff(s);
  }

  /** `'\x1c7'.strip()` is `'7'`, yet `int('\x1c7')` raises `ValueError`. */
  lemma InfoSeparatorExample()
    ensures Strip("\U{1C}7") == "7" && ParseInt("\U{1C}7") == None
  {
    var s := "\U{1C}7";
    assert IsSpace(s[0]) && !IsSpace(s[1]);
    assert LeadingSpaces(s) == 1;
    assert TrailingSpaces(s[1..]) == 0;
    ParseIntInfoSeparator(s, 0);
  }

  /** `int('')` and `int('   ')` raise `ValueError`. */
  lemma ParseIntBlank(s: string)
    requires forall i :: 0 <= i < |s| ==> IsSpace(s[i])
    ensures ParseInt(s) == None
  {
  }
}
