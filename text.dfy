/**
 * The java.lang.String operations the bridge relies on, over `string` (sequences of
 * UTF-16-free Unicode scalar values). Case mapping covers ASCII letters only.
 */
module Text {

  /** Java's `Character.isWhitespace`: the space separators other than the no-break
      spaces, the line and paragraph separators, and the controls U+0009..U+000D and
      U+001C..U+001F. */
  predicate IsWhitespace(c: char) {
    || c == ' '
    || ('\t' <= c <= '\r')
    || ('\U{1C}' <= c <= '\U{1F}')
    || c == '\U{1680}'
    || ('\U{2000}' <= c <= '\U{2006}')
    || ('\U{2008}' <= c <= '\U{200A}')
    || c == '\U{2028}' || c == '\U{2029}' || c == '\U{205F}' || c == '\U{3000}'
  }

  /** Java's `String.isBlank()`: true for the empty string and for whitespace only. */
  predicate IsBlank(s: string) {
    forall i :: 0 <= i < |s| ==> IsWhitespace(s[i])
  }

  /** The characters `String.trim()` strips from both ends: every code point up to U+0020. */
  predicate IsTrimmable(c: char) {
    c <= ' '
  }

  /** The leading trimmable characters dropped. */
  function TrimStart(s: string): string {
    if s != [] && IsTrimmable(s[0]) then TrimStart(s[1..]) else s
  }

  /** The trailing trimmable characters dropped. */
  function TrimEnd(s: string): string {
    if s != [] && IsTrimmable(s[|s| - 1]) then TrimEnd(s[..|s| - 1]) else s
  }

  /** `TrimStart` leaves a suffix that does not start with a trimmable character. */
  lemma {:induction false} TrimStartSuffix(s: string)
    ensures var r := TrimStart(s); |r| <= |s| && r == s[|s| - |r|..]
    ensures var r := TrimStart(s); r == [] || !IsTrimmable(r[0])
  {
    if s != [] && IsTrimmable(s[0]) {
      TrimStartSuffix(s[1..]);
    }
  }

  /** `TrimEnd` leaves a prefix that does not end with a trimmable character. */
  lemma {:induction false} TrimEndPrefix(s: string)
    ensures var r := TrimEnd(s); |r| <= |s| && r == s[..|r|]
    ensures var r := TrimEnd(s); r == [] || !IsTrimmable(r[|r| - 1])
  {
    if s != [] && IsTrimmable(s[|s| - 1]) {
      TrimEndPrefix(s[..|s| - 1]);
    }
  }

  /** Trimming drops only trimmable characters, at either end. */
  lemma {:induction false} TrimStartDropsTrimmable(s: string)
    ensures forall i :: 0 <= i < |s| - |TrimStart(s)| ==> IsTrimmable(s[i])
  {
    if s != [] && IsTrimmable(s[0]) {
      TrimStartDropsTrimmable(s[1..]);
    }
  }

  lemma {:induction false} TrimEndDropsTrimmable(s: string)
    ensures forall i :: |TrimEnd(s)| <= i < |s| ==> IsTrimmable(s[i])
  {
    if s != [] && IsTrimmable(s[|s| - 1]) {
      TrimEndDropsTrimmable(s[..|s| - 1]);
    }
  }

  /** Java's `String.trim()`. */
  function Trim(s: string): string {
    TrimEnd(TrimStart(s))
  }

  /** A string whose ends are not trimmable is left alone by `Trim`. */
  lemma TrimNoop(s: string)
    requires s == [] || (!IsTrimmable(s[0]) && !IsTrimmable(s[|s| - 1]))
    ensures Trim(s) == s
  {
  }

  /** `Trim` is idempotent, and its result has no trimmable character at either end. */
  lemma TrimIdempotent(s: string)
    ensures var t := Trim(s); t == [] || (!IsTrimmable(t[0]) && !IsTrimmable(t[|t| - 1]))
    ensures Trim(Trim(s)) == Trim(s)
  {
    var t := Trim(s);
    var u := TrimStart(s);
    TrimStartSuffix(s);
    TrimEndPrefix(u);
    if t != [] {
      assert t[0] == u[0];
    }
    TrimNoop(t);
  }

  /** `Character.toLowerCase` restricted to ASCII letters. */
  function LowerChar(c: char): char {
    if 'A' <= c <= 'Z' then (c as int + 32) as char else c
  }

  /** `Character.toUpperCase` restricted to ASCII letters. */
  function UpperChar(c: char): char {
    if 'a' <= c <= 'z' then (c as int - 32) as char else c
  }

  predicate IsUpperAscii(c: char) {
    'A' <= c <= 'Z'
  }

  /** `String.toLowerCase(Locale.ROOT)` restricted to ASCII letters. */
  function Lower(s: string): (r: string)
    ensures |r| == |s|
  {
    if s == [] then [] else [LowerChar(s[0])] + Lower(s[1..])
  }

  /** Lower-casing maps each character on its own. */
  lemma {:induction false} LowerAt(s: string)
    ensures forall i :: 0 <= i < |s| ==> Lower(s)[i] == LowerChar(s[i])
  {
    if s != [] {
      LowerAt(s[1..]);
    }
  }

  lemma {:induction false} LowerAppend(a: string, b: string)
    ensures Lower(a + b) == Lower(a) + Lower(b)
  {
    if a == [] {
      assert a + b == b;
    } else {
      LowerAppend(a[1..], b);
      assert (a + b)[0] == a[0];
      assert (a + b)[1..] == a[1..] + b;
    }
  }

  /** `String.equalsIgnoreCase` restricted to ASCII letters. */
  predicate EqualsIgnoreCase(a: string, b: string) {
    Lower(a) == Lower(b)
  }

  /** Lower-casing leaves no upper-case letter, so it is idempotent; a string without
      upper-case letters is its own lower-case form. */
  lemma LowerFacts(s: string)
    ensures forall i :: 0 <= i < |Lower(s)| ==> !IsUpperAscii(Lower(s)[i])
    ensures Lower(Lower(s)) == Lower(s)
    ensures (forall i :: 0 <= i < |s| ==> !IsUpperAscii(s[i])) ==> Lower(s) == s
  {
    LowerAt(s);
    LowerAt(Lower(s));
  }

  lemma {:induction false} TrimStartLower(s: string)
    ensures TrimStart(Lower(s)) == Lower(TrimStart(s))
  {
    if s != [] {
      var lower := Lower(s);
      assert lower[0] == LowerChar(s[0]) && lower[1..] == Lower(s[1..]);
      if IsTrimmable(s[0]) {
        TrimStartLower(s[1..]);
        assert TrimStart(lower) == TrimStart(lower[1..]);
      } else {
        assert TrimStart(lower) == lower;
      }
    }
  }

  lemma {:induction false} TrimEndLower(s: string)
    ensures TrimEnd(Lower(s)) == Lower(TrimEnd(s))
  {
    if s != [] {
      var init := s[..|s| - 1];
      assert s == init + [s[|s| - 1]];
      LowerAppend(init, [s[|s| - 1]]);
      assert Lower(s)[..|s| - 1] == Lower(init);
      if IsTrimmable(s[|s| - 1]) {
        TrimEndLower(init);
      }
    }
  }

  /** Trimming and lower-casing commute: no letter is trimmable. */
  lemma LowerTrim(s: string)
    ensures Lower(Trim(s)) == Trim(Lower(s))
  {
    TrimStartLower(s);
    TrimEndLower(TrimStart(s));
  }

  /** `String.replace(char, char)`. */
  function ReplaceChar(s: string, from: char, to: char): string {
    seq(|s|, i requires 0 <= i < |s| => if s[i] == from then to else s[i])
  }

  predicate StartsWith(s: string, prefix: string) {
    |prefix| <= |s| && s[..|prefix|] == prefix
  }

  predicate EndsWith(s: string, suffix: string) {
    |suffix| <= |s| && s[|s| - |suffix|..] == suffix
  }

  /** `String.replace(CharSequence, CharSequence)` for a non-empty target: every
      occurrence, scanning left to right without overlap, is replaced literally. */
  function ReplaceAll(s: string, target: string, replacement: string): string
    requires target != []
    decreases |s|
  {
    if |s| < |target| then s
    else if s[..|target|] == target then replacement + ReplaceAll(s[|target|..], target, replacement)
    else [s[0]] + ReplaceAll(s[1..], target, replacement)
  }

  /** `t` occurs in `s` starting at index `i`. */
  predicate OccursAt(s: string, t: string, i: nat) {
    i + |t| <= |s| && s[i..i + |t|] == t
  }

  /** A string in which the target never occurs is returned unchanged. */
  lemma {:induction false} ReplaceAllAbsent(s: string, target: string, replacement: string)
    requires target != []
    requires forall i: nat :: !OccursAt(s, target, i)
    ensures ReplaceAll(s, target, replacement) == s
    decreases |s|
  {
    if |s| >= |target| {
      assert !OccursAt(s, target, 0);
      var t := s[1..];
      forall i: nat
        ensures !OccursAt(t, target, i)
      {
        assert !OccursAt(s, target, i + 1);
        if i + |target| <= |t| {
          assert t[i..i + |target|] == s[i + 1..i + 1 + |target|];
        }
      }
      ReplaceAllAbsent(t, target, replacement);
      assert [s[0]] + t == s;
    }
  }

  /** Every piece between separators, empty pieces included (no Java trimming). */
  function SplitAll(s: string, sep: char): (parts: seq<string>)
    ensures |parts| >= 1
    ensures forall i :: 0 <= i < |parts| ==> sep !in parts[i]
  {
    if s == [] then [""]
    else
      var rest := SplitAll(s[1..], sep);
      if s[0] == sep then [""] + rest else [[s[0]] + rest[0]] + rest[1..]
  }

  /** The pieces joined back with the separator between consecutive pieces. */
  function JoinWith(parts: seq<string>, sep: char): string {
    if parts == [] then ""
    else if |parts| == 1 then parts[0]
    else parts[0] + [sep] + JoinWith(parts[1..], sep)
  }

  /** Splitting loses nothing: joining the pieces gives the input back. */
  lemma {:induction false} SplitAllJoin(s: string, sep: char)
    ensures JoinWith(SplitAll(s, sep), sep) == s
  {
    if s != [] {
      SplitAllJoin(s[1..], sep);
      var rest := SplitAll(s[1..], sep);
      if s[0] != sep {
        if |rest| > 1 {
          assert ([[s[0]] + rest[0]] + rest[1..])[1..] == rest[1..];
        }
      } else {
        assert ([""] + rest)[1..] == rest;
      }
    }
  }

  lemma {:induction false} SplitAllAfterPiece(p: string, sep: char, t: string)
    requires sep !in p
    ensures SplitAll(p + [sep] + t, sep) == [p] + SplitAll(t, sep)
  {
    if p == [] {
      assert p + [sep] + t == [sep] + t;
      assert ([sep] + t)[1..] == t;
    } else {
      SplitAllAfterPiece(p[1..], sep, t);
      assert (p + [sep] + t)[1..] == p[1..] + [sep] + t;
      assert [p[0]] + p[1..] == p;
    }
  }

  lemma {:induction false} SplitAllOfPiece(p: string, sep: char)
    requires sep !in p
    ensures SplitAll(p, sep) == [p]
  {
    if p != [] {
      SplitAllOfPiece(p[1..], sep);
      assert [p[0]] + p[1..] == p;
    }
  }

  /** Joining pieces that do not contain the separator and splitting again gives the
      pieces back: `SplitAll` and `JoinWith` are inverse. */
  lemma {:induction false} JoinWithSplitAll(parts: seq<string>, sep: char)
    requires |parts| >= 1
    requires forall i :: 0 <= i < |parts| ==> sep !in parts[i]
    ensures SplitAll(JoinWith(parts, sep), sep) == parts
  {
    if |parts| == 1 {
      SplitAllOfPiece(parts[0], sep);
    } else {
      JoinWithSplitAll(parts[1..], sep);
      SplitAllAfterPiece(parts[0], sep, JoinWith(parts[1..], sep));
      assert [parts[0]] + parts[1..] == parts;
    }
  }

  /** Appending one piece on the right adds one separator and the piece. */
  lemma {:induction false} JoinWithSnoc(parts: seq<string>, last: string, sep: char)
    requires parts != []
    ensures JoinWith(parts + [last], sep) == JoinWith(parts, sep) + [sep] + last
  {
    if |parts| > 1 {
      assert (parts + [last])[1..] == parts[1..] + [last];
      JoinWithSnoc(parts[1..], last, sep);
    }
  }

  function DropTrailingEmpty(parts: seq<string>): (r: seq<string>)
    ensures |r| <= |parts| && r == parts[..|r|]
    ensures r == [] || r[|r| - 1] != ""
    ensures forall i :: |r| <= i < |parts| ==> parts[i] == ""
  {
    if parts != [] && parts[|parts| - 1] == "" then DropTrailingEmpty(parts[..|parts| - 1]) else parts
  }

  /** `String.split` on a one-character literal: the input itself when the separator
      does not occur, otherwise every piece with the trailing empty pieces removed. */
  function JavaSplit(s: string, sep: char): (parts: seq<string>)
    ensures forall i :: 0 <= i < |parts| ==> sep !in parts[i]
  {
    if sep !in s then [s] else DropTrailingEmpty(SplitAll(s, sep))
  }

  predicate IsDigit(c: char) {
    '0' <= c <= '9'
  }

  predicate AllDigits(s: string) {
    forall i :: 0 <= i < |s| ==> IsDigit(s[i])
  }

  function DigitChar(d: nat): (c: char)
    requires d < 10
    ensures IsDigit(c)
  {
    ('0' as int + d) as char
  }

  function DigitValue(c: char): (d: nat)
    requires IsDigit(c)
    ensures d < 10
  {
    c as int - '0' as int
  }

  function Pow10(n: nat): (p: nat)
    ensures p >= 1
  {
    if n == 0 then 1 else 10 * Pow10(n - 1)
  }

  /** The value of a string of decimal digits, most significant first. */
  function DecimalValue(s: string): nat
    requires AllDigits(s)
  {
    if s == [] then 0 else 10 * DecimalValue(s[..|s| - 1]) + DigitValue(s[|s| - 1])
  }

  /** `String.format("%0<width>d", n)` for `0 <= n < 10^width`. */
  function PadDecimal(n: nat, width: nat): (r: string)
    requires n < Pow10(width)
    ensures |r| == width && AllDigits(r)
  {
    if width == 0 then "" else PadDecimal(n / 10, width - 1) + [DigitChar(n % 10)]
  }

  /** Reading the padded digits back gives the number. */
  lemma {:induction false} PadDecimalRoundTrip(n: nat, width: nat)
    requires n < Pow10(width)
    ensures DecimalValue(PadDecimal(n, width)) == n
  {
    if width > 0 {
      PadDecimalRoundTrip(n / 10, width - 1);
      var r := PadDecimal(n, width);
      assert r[..|r| - 1] == PadDecimal(n / 10, width - 1);
    }
  }

  /** `Integer.toString` / `Long.toString` of a non-negative number: no leading zero. */
  function NatToString(n: nat): (r: string)
    ensures |r| >= 1 && AllDigits(r)
    ensures |r| > 1 ==> r[0] != '0'
  {
    if n < 10 then [DigitChar(n)] else NatToString(n / 10) + [DigitChar(n % 10)]
  }

  /** Reading the decimal text back gives the number. */
  lemma {:induction false} NatToStringRoundTrip(n: nat)
    ensures DecimalValue(NatToString(n)) == n
  {
    if n >= 10 {
      NatToStringRoundTrip(n / 10);
      var r := NatToString(n);
      assert r[..|r| - 1] == NatToString(n / 10);
    }
  }

  /** `Integer.toString` / `Long.toString`. */
  function IntToString(n: int): string {
    if n < 0 then "-" + NatToString(-n) else NatToString(n)
  }
}
