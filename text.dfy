/**
 * String primitives the validators are built from: character classes, the
 * `split` of JavaScript and Java (left-to-right, non-overlapping separators),
 * decimal digit strings, and the two languages' notions of trimming.
 */
module Text {
  import opened Wrappers

  // ---------------------------------------------------------------------
  // Character classes
  // ---------------------------------------------------------------------

  /** `\d` of both regex dialects (no Unicode digits): the ASCII digits. */
  predicate IsDigit(c: char) {
    '0' <= c <= '9'
  }

  /** `[0-9a-fA-F]` */
  predicate IsHexDigit(c: char) {
    IsDigit(c) || 'a' <= c <= 'f' || 'A' <= c <= 'F'
  }

  predicate AllDigits(s: string) {
    forall i :: 0 <= i < |s| ==> IsDigit(s[i])
  }

  predicate AllHex(s: string) {
    forall i :: 0 <= i < |s| ==> IsHexDigit(s[i])
  }

  /** `s.startsWith(p)` */
  predicate StartsWith(s: string, p: string) {
    |p| <= |s| && s[..|p|] == p
  }

  /** `s.endsWith(p)` */
  predicate EndsWith(s: string, p: string) {
    |p| <= |s| && s[|s| - |p|..] == p
  }

  // ---------------------------------------------------------------------
  // Searching and splitting
  // ---------------------------------------------------------------------

  predicate OccursAt(s: string, sep: string, i: nat) {
    i + |sep| <= |s| && s[i..i + |sep|] == sep
  }

  /** The first position at or after `from` where `sep` occurs. */
  function Find(s: string, sep: string, from: nat): (r: Option<nat>)
    requires sep != []
    ensures r.Some? ==> from <= r.value && OccursAt(s, sep, r.value)
    ensures r.Some? ==> forall j :: from <= j < r.value ==> !OccursAt(s, sep, j)
    ensures r.None? ==> forall j :: from <= j ==> !OccursAt(s, sep, j)
    decreases |s| - from
  {
    if from + |sep| > |s| then None
    else if s[from..from + |sep|] == sep then Some(from)
    else Find(s, sep, from + 1)
  }

  /** `s.includes(sep)` */
  predicate Contains(s: string, sep: string)
    requires sep != []
  {
    Find(s, sep, 0).Some?
  }

  /**
   * `s.split(sep)` for a non-empty string separator: the pieces between the
   * occurrences found left to right, each search resuming after the previous
   * separator.
   */
  function Split(s: string, sep: string): (parts: seq<string>)
    requires sep != []
    ensures |parts| >= 1
    decreases |s|
  {
    match Find(s, sep, 0)
    case None => [s]
    case Some(i) => [s[..i]] + Split(s[i + |sep|..], sep)
  }

  /** The number of matches of the global regex `/sep/g`: non-overlapping, left to right. */
  function Occurrences(s: string, sep: string): nat
    requires sep != []
    decreases |s|
  {
    match Find(s, sep, 0)
    case None => 0
    case Some(i) => 1 + Occurrences(s[i + |sep|..], sep)
  }

  /** `parts.join(c)` */
  function Join(parts: seq<string>, c: char): string
    requires |parts| >= 1
  {
    if |parts| == 1 then parts[0] else parts[0] + [c] + Join(parts[1..], c)
  }

  predicate NoChar(s: string, c: char) {
    forall i :: 0 <= i < |s| ==> s[i] != c
  }

  /** A global match count is always one less than the number of pieces `split` makes. */
  lemma {:induction false} SplitCountsOccurrences(s: string, sep: string)
    requires sep != []
    ensures |Split(s, sep)| == Occurrences(s, sep) + 1
    decreases |s|
  {
    match Find(s, sep, 0)
    case None =>
    case Some(i) => SplitCountsOccurrences(s[i + |sep|..], sep);
  }

  lemma FindChar(s: string, c: char, k: nat)
    requires k < |s| && s[k] == c && NoChar(s[..k], c)
    ensures Find(s, [c], 0) == Some(k)
  {
    assert OccursAt(s, [c], k);
    forall j | 0 <= j < k ensures !OccursAt(s, [c], j) {
      assert s[..k][j] != c;
      assert s[j..j + 1] == [s[j]];
    }
  }

  lemma FindNoChar(s: string, c: char)
    requires NoChar(s, c)
    ensures Find(s, [c], 0) == None
  {
    forall j: nat ensures !OccursAt(s, [c], j) {
      if j < |s| {
        assert s[j..j + 1] == [s[j]];
      }
    }
  }

  /** Splitting on one character never leaves that character inside a piece. */
  lemma {:induction false} SplitPiecesLackSeparator(s: string, c: char)
    ensures forall i :: 0 <= i < |Split(s, [c])| ==> NoChar(Split(s, [c])[i], c)
    decreases |s|
  {
    match Find(s, [c], 0)
    case None =>
      forall j | 0 <= j < |s| ensures s[j] != c {
        assert !OccursAt(s, [c], j);
        assert s[j..j + 1] == [s[j]];
      }
    case Some(k) =>
      SplitPiecesLackSeparator(s[k + 1..], c);
      forall j | 0 <= j < k ensures s[..k][j] != c {
        assert !OccursAt(s, [c], j);
        assert s[j..j + 1] == [s[j]];
      }
  }

  /** Joining the pieces of a split puts the string back together. */
  lemma {:induction false} JoinSplit(s: string, c: char)
    ensures Join(Split(s, [c]), c) == s
    decreases |s|
  {
    match Find(s, [c], 0)
    case None =>
    case Some(k) =>
      JoinSplit(s[k + 1..], c);
      assert s[k..k + 1] == [c];
      calc {
        Join(Split(s, [c]), c);
        s[..k] + [c] + Join(Split(s[k + 1..], [c]), c);
        s[..k] + [c] + s[k + 1..];
        s;
      }
  }

  /** Splitting a join of separator-free pieces gives the pieces back. */
  lemma {:induction false} SplitJoin(parts: seq<string>, c: char)
    requires |parts| >= 1
    requires forall i :: 0 <= i < |parts| ==> NoChar(parts[i], c)
    ensures Split(Join(parts, c), [c]) == parts
  {
    if |parts| == 1 {
      FindNoChar(parts[0], c);
    } else {
      var s := Join(parts, c);
      var k := |parts[0]|;
      assert s == parts[0] + [c] + Join(parts[1..], c);
      assert s[..k] == parts[0];
      FindChar(s, c, k);
      assert s[k + 1..] == Join(parts[1..], c);
      SplitJoin(parts[1..], c);
    }
  }

  // ---------------------------------------------------------------------
  // Decimal digit strings (`parseInt(s, 10)` on a digit string)
  // ---------------------------------------------------------------------

  function DigitValue(c: char): nat
    requires IsDigit(c)
  {
    c as int - '0' as int
  }

  function DigitChar(d: nat): char
    requires d < 10
  {
    ('0' as int + d) as char
  }

  function DecimalValue(s: string): nat
    requires AllDigits(s)
    decreases |s|
  {
    if s == [] then 0 else 10 * DecimalValue(s[..|s| - 1]) + DigitValue(s[|s| - 1])
  }

  /** The shortest decimal rendering of `n`. */
  function DecimalText(n: nat): (s: string)
    ensures |s| >= 1 && AllDigits(s)
    decreases n
  {
    if n < 10 then [DigitChar(n)] else DecimalText(n / 10) + [DigitChar(n % 10)]
  }

  /** A decimal string without a superfluous leading zero ("0" itself is allowed). */
  predicate Canonical(s: string) {
    |s| >= 1 && AllDigits(s) && (|s| > 1 ==> s[0] != '0')
  }

  lemma {:induction false} DecimalTextValue(n: nat)
    ensures DecimalValue(DecimalText(n)) == n
    decreases n
  {
    if n >= 10 {
      DecimalTextValue(n / 10);
      var t := DecimalText(n);
      assert t[..|t| - 1] == DecimalText(n / 10);
    }
  }

  lemma {:induction false} DecimalTextLeadingDigit(n: nat)
    requires n >= 1
    ensures DecimalText(n)[0] != '0'
    decreases n
  {
    if n >= 10 {
      DecimalTextLeadingDigit(n / 10);
    }
  }

  lemma DecimalTextCanonical(n: nat)
    ensures Canonical(DecimalText(n))
  {
    if n >= 10 {
      DecimalTextLeadingDigit(n);
    }
  }

  lemma DecimalTextShort(n: nat)
    requires n <= 255
    ensures |DecimalText(n)| <= 3
  {
    if n >= 100 {
      var m := n / 10;
      assert 10 <= m < 100 && m / 10 < 10;
      assert |DecimalText(m)| == 2;
    }
  }

  lemma {:induction false} LeadingNonZeroIsPositive(s: string)
    requires |s| >= 1 && AllDigits(s) && s[0] != '0'
    ensures DecimalValue(s) >= 1
    decreases |s|
  {
    if |s| > 1 {
      LeadingNonZeroIsPositive(s[..|s| - 1]);
    }
  }

  /** A canonical decimal string is the rendering of its own value. */
  lemma {:induction false} CanonicalRoundTrip(s: string)
    requires Canonical(s)
    ensures DecimalText(DecimalValue(s)) == s
    decreases |s|
  {
    var v := DecimalValue(s);
    if |s| == 1 {
      assert s[..|s| - 1] == [];
    } else {
      var p := s[..|s| - 1];
      LeadingNonZeroIsPositive(p);
      CanonicalRoundTrip(p);
      var d := DigitValue(s[|s| - 1]);
      assert v == 10 * DecimalValue(p) + d;
      assert v / 10 == DecimalValue(p) && v % 10 == d;
      assert s == p + [s[|s| - 1]];
    }
  }

  // ---------------------------------------------------------------------
  // Whitespace and trimming
  // ---------------------------------------------------------------------

  /**
   * ECMAScript WhiteSpace and LineTerminator: the set removed by
   * `String.prototype.trim` and matched by the regex class `\s`.
   */
  predicate IsJsWhitespace(c: char) {
    c == '\t' || c == '\n' || c == '\U{000B}' || c == '\U{000C}' || c == '\r' || c == ' '
    || c == '\U{00A0}' || c == '\U{1680}' || ('\U{2000}' <= c <= '\U{200A}')
    || c == '\U{2028}' || c == '\U{2029}' || c == '\U{202F}' || c == '\U{205F}'
    || c == '\U{3000}' || c == '\U{FEFF}'
  }

  function JsTrimStart(s: string): (r: string)
    ensures |r| > 0 ==> !IsJsWhitespace(r[0])
    decreases |s|
  {
    if |s| > 0 && IsJsWhitespace(s[0]) then JsTrimStart(s[1..]) else s
  }

  function JsTrimEnd(s: string): string
    decreases |s|
  {
    if |s| > 0 && IsJsWhitespace(s[|s| - 1]) then JsTrimEnd(s[..|s| - 1]) else s
  }

  /** JavaScript's `s.trim()` */
  function JsTrim(s: string): string {
    JsTrimEnd(JsTrimStart(s))
  }

  predicate AllJsWhitespace(s: string) {
    forall i :: 0 <= i < |s| ==> IsJsWhitespace(s[i])
  }

  lemma {:induction false} JsTrimStartEmpty(s: string)
    ensures JsTrimStart(s) == [] <==> AllJsWhitespace(s)
    decreases |s|
  {
    if |s| > 0 && IsJsWhitespace(s[0]) {
      JsTrimStartEmpty(s[1..]);
      assert AllJsWhitespace(s) <==> AllJsWhitespace(s[1..]) by {
        assert forall i :: 0 < i < |s| ==> s[i] == s[1..][i - 1];
      }
    }
  }

  lemma {:induction false} JsTrimEndEmpty(s: string)
    ensures JsTrimEnd(s) == [] <==> AllJsWhitespace(s)
    decreases |s|
  {
    if |s| > 0 && IsJsWhitespace(s[|s| - 1]) {
      JsTrimEndEmpty(s[..|s| - 1]);
    }
  }

  /** `s.trim() === ''` holds exactly for strings made only of whitespace. */
  lemma JsTrimEmptyIff(s: string)
    ensures JsTrim(s) == [] <==> AllJsWhitespace(s)
  {
    JsTrimStartEmpty(s);
    JsTrimEndEmpty(JsTrimStart(s));
  }

  /** `Character.isWhitespace`: Unicode separators other than the no-break ones, and the ASCII controls 9-13 and 28-31. */
  predicate IsJavaWhitespace(c: char) {
    ('\t' <= c <= '\r') || ('\U{001C}' <= c <= ' ')
    || c == '\U{1680}' || ('\U{2000}' <= c <= '\U{2006}') || ('\U{2008}' <= c <= '\U{200A}')
    || c == '\U{2028}' || c == '\U{2029}' || c == '\U{205F}' || c == '\U{3000}'
  }

  /** The leading part of `trim()`: drops characters up to U+0020 from the front. */
  function JavaTrimStart(s: string): string
    decreases |s|
  {
    if |s| > 0 && s[0] <= ' ' then JavaTrimStart(s[1..]) else s
  }

  /** The trailing part of `trim()`: drops characters up to U+0020 from the back. */
  function JavaTrimEnd(s: string): string
    decreases |s|
  {
    if |s| > 0 && s[|s| - 1] <= ' ' then JavaTrimEnd(s[..|s| - 1]) else s
  }

  /** `JavaTrimStart` keeps a suffix, dropping only characters up to U+0020, and stops at a visible one. */
  lemma {:induction false} JavaTrimStartSpec(s: string)
    ensures var r := JavaTrimStart(s);
      && |r| <= |s| && r == s[|s| - |r|..]
      && (forall i :: 0 <= i < |s| - |r| ==> s[i] <= ' ')
      && (r != [] ==> r[0] > ' ')
    decreases |s|
  {
    if |s| > 0 && s[0] <= ' ' {
      JavaTrimStartSpec(s[1..]);
      var r := JavaTrimStart(s[1..]);
      assert s[1..][|s| - 1 - |r|..] == s[|s| - |r|..];
      forall i | 0 <= i < |s| - |r| ensures s[i] <= ' ' {
        if i > 0 {
          assert s[i] == s[1..][i - 1];
        }
      }
    }
  }

  /** `JavaTrimEnd` keeps a prefix, dropping only characters up to U+0020, and stops at a visible one. */
  lemma {:induction false} JavaTrimEndSpec(s: string)
    ensures var r := JavaTrimEnd(s);
      && |r| <= |s| && r == s[..|r|]
      && (forall i :: |r| <= i < |s| ==> s[i] <= ' ')
      && (r != [] ==> r[|r| - 1] > ' ')
    decreases |s|
  {
    if |s| > 0 && s[|s| - 1] <= ' ' {
      JavaTrimEndSpec(s[..|s| - 1]);
      var r := JavaTrimEnd(s[..|s| - 1]);
      assert s[..|s| - 1][..|r|] == s[..|r|];
      forall i | |r| <= i < |s| ensures s[i] <= ' ' {
        if i < |s| - 1 {
          assert s[i] == s[..|s| - 1][i];
        }
      }
    }
  }

  /** Java's `s.trim()`: drops leading and trailing characters up to U+0020. */
  function JavaTrim(s: string): string {
    JavaTrimEnd(JavaTrimStart(s))
  }

  /** Java's `s.isBlank()` */
  predicate JavaIsBlank(s: string) {
    forall i :: 0 <= i < |s| ==> IsJavaWhitespace(s[i])
  }
}
