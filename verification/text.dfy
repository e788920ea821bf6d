/** Text primitives of the tracker, restricted to ASCII: case folding as
    `str.lower()` performs it, the `\w` character class, whole-word search as
    `re.search(r'\b' + kw + r'\b', s)` performs it for a keyword that starts
    and ends with a letter, string ordering, and the decimal formatting the
    alert messages use. */
module Text {

  /** `\w` on ASCII: letters, digits and underscore. */
  predicate IsWordChar(c: char) {
    ('a' <= c <= 'z') || ('A' <= c <= 'Z') || ('0' <= c <= '9') || c == '_'
  }

  function LowerChar(c: char): char {
    if 'A' <= c <= 'Z' then (c as int + 32) as char else c
  }

  function UpperChar(c: char): char {
    if 'a' <= c <= 'z' then (c as int - 32) as char else c
  }

  /** `str.lower()` on ASCII text: every capital letter becomes its small letter. */
  function Lower(s: string): string {
    seq(|s|, i requires 0 <= i < |s| => LowerChar(s[i]))
  }

  /** `str.upper()` on ASCII text. */
  function Upper(s: string): string {
    seq(|s|, i requires 0 <= i < |s| => UpperChar(s[i]))
  }

  /** Folding case first up and then down gives what folding down gives:
      a description written in capitals reads, once lowered, as its lowered self. */
  lemma LowerOfUpper(s: string)
    ensures Lower(Upper(s)) == Lower(s)
  {
    forall i | 0 <= i < |s|
      ensures Lower(Upper(s))[i] == Lower(s)[i]
    {
      var c := s[i];
      if 'a' <= c <= 'z' {
        assert UpperChar(c) as int == c as int - 32;
      }
    }
  }

  /** A small ASCII letter. */
  predicate IsSmallLetter(c: char) {
    'a' <= c <= 'z'
  }

  /** Lowering keeps the length, leaves no capital letter behind, turns each
      capital into the small letter 32 code points above it and leaves every
      other character as it is. */
  lemma LowerFoldsCapitals(s: string)
    ensures |Lower(s)| == |s|
    ensures forall i :: 0 <= i < |s| ==> !('A' <= Lower(s)[i] <= 'Z')
    ensures forall i :: 0 <= i < |s| && 'A' <= s[i] <= 'Z' ==> Lower(s)[i] as int == s[i] as int + 32
    ensures forall i :: 0 <= i < |s| && !('A' <= s[i] <= 'Z') ==> Lower(s)[i] == s[i]
  {
  }

  /** Lowering never turns a word character into a non-word character or back. */
  lemma LowerKeepsWordChars(s: string, i: int)
    requires 0 <= i < |s|
    ensures IsWordChar(Lower(s)[i]) <==> IsWordChar(s[i])
  {
  }

  /** `kw` occurs in `s` at index `i` as a whole word: the characters there
      spell `kw`, the character before it (if any) is not a word character and
      the character just past it (if any) is not a word character. */
  predicate OccursAt(s: string, kw: string, i: int) {
    && 0 <= i
    && i + |kw| <= |s|
    && s[i..i + |kw|] == kw
    && (i == 0 || !IsWordChar(s[i - 1]))
    && (i + |kw| == |s| || !IsWordChar(s[i + |kw|]))
  }

  /** `kw` occurs somewhere in `s` as a whole word. */
  ghost predicate Occurs(s: string, kw: string) {
    exists i :: OccursAt(s, kw, i)
  }

  /** Scans the start positions `i`, `i + 1`, ... of `s` for a whole-word occurrence of `kw`. */
  function SearchFrom(s: string, kw: string, i: nat): (found: bool)
    requires i <= |s|
    ensures found <==> exists j :: i <= j && OccursAt(s, kw, j)
    decreases |s| - i
  {
    if i + |kw| > |s| then false
    else if OccursAt(s, kw, i) then true
    else if i == |s| then false
    else SearchFrom(s, kw, i + 1)
  }

  /** `re.search(r'\b' + re.escape(kw) + r'\b', s)` is truthy, for a keyword
      that starts and ends with a word character, as every keyword of the
      category table does. For other keywords (the empty one, or one ending
      in a dot) `\b` places its boundaries differently and the two part ways. */
  function ContainsWord(s: string, kw: string): (found: bool)
    ensures found <==> Occurs(s, kw)
  {
    SearchFrom(s, kw, 0)
  }

  /** Every character of an occurring keyword is a character of the text:
      a keyword with a letter the text lacks does not occur in it. */
  lemma MissingCharRulesOut(s: string, kw: string, c: char)
    requires c in kw && c !in s
    ensures !Occurs(s, kw)
  {
    var k :| 0 <= k < |kw| && kw[k] == c;
    forall i | 0 <= i && i + |kw| <= |s|
      ensures !OccursAt(s, kw, i)
    {
      assert s[i..i + |kw|][k] == s[i + k];
    }
  }

  /** Python's `<` on strings: lexicographic by code point, a proper prefix first. */
  predicate StrLess(a: string, b: string) {
    if |a| == 0 then |b| > 0
    else if |b| == 0 then false
    else if a[0] != b[0] then a[0] < b[0]
    else StrLess(a[1..], b[1..])
  }

  /** No string sorts before itself. */
  lemma {:induction false} StrLessIrreflexive(s: string)
    ensures !StrLess(s, s)
  {
    if |s| > 0 {
      StrLessIrreflexive(s[1..]);
    }
  }

  /** The string order is transitive. */
  lemma {:induction false} StrLessTransitive(a: string, b: string, c: string)
    requires StrLess(a, b) && StrLess(b, c)
    ensures StrLess(a, c)
  {
    if |a| > 0 && a[0] == b[0] && b[0] == c[0] {
      StrLessTransitive(a[1..], b[1..], c[1..]);
    }
  }

  /** `sep.join(parts)`. */
  function Join(parts: seq<string>, sep: string): string {
    if |parts| == 0 then ""
    else if |parts| == 1 then parts[0]
    else parts[0] + sep + Join(parts[1..], sep)
  }

  function DigitChar(d: nat): char
    requires d < 10
  {
    ('0' as int + d) as char
  }

  predicate IsDigit(c: char) {
    '0' <= c <= '9'
  }

  predicate AllDigits(s: string) {
    forall i :: 0 <= i < |s| ==> IsDigit(s[i])
  }

  /** The number a string of decimal digits spells, most significant first. */
  function DigitsValue(s: string): nat
    requires AllDigits(s)
  {
    if |s| == 0 then 0
    else DigitsValue(s[..|s| - 1]) * 10 + (s[|s| - 1] as int - '0' as int)
  }

  /** Decimal digits of `n`, most significant first, without leading zeros. */
  function NatToString(n: nat): string {
    if n < 10 then [DigitChar(n)] else NatToString(n / 10) + [DigitChar(n % 10)]
  }

  function Pow10(k: nat): nat {
    if k == 0 then 1 else 10 * Pow10(k - 1)
  }

  /** Printing a number and reading it back gives the number; below `10^k`
      it takes at most `k` digits, and it never has a redundant leading zero. */
  lemma {:induction false} NatToStringRoundTrip(n: nat, k: nat)
    ensures AllDigits(NatToString(n)) && DigitsValue(NatToString(n)) == n
    ensures 0 < k && n < Pow10(k) ==> |NatToString(n)| <= k
    ensures |NatToString(n)| > 1 ==> NatToString(n)[0] != '0'
  {
    var s := NatToString(n);
    if n >= 10 {
      var t := NatToString(n / 10);
      NatToStringRoundTrip(n / 10, if k > 0 then k - 1 else 0);
      assert s[..|s| - 1] == t;
      assert s[0] == t[0];
      if 0 < k && n < Pow10(k) {
        assert k > 1;
        assert n / 10 < Pow10(k - 1);
      }
    }
  }

  /** Left-pads `s` with `'0'` up to `width` characters, as `%0<width>d` does. */
  function ZeroPad(s: string, width: nat): (r: string)
    ensures |r| == if |s| >= width then |s| else width
    ensures r[|r| - |s|..] == s
    ensures forall i :: 0 <= i < |r| - |s| ==> r[i] == '0'
    decreases width - |s|
  {
    if |s| >= width then s
    else
      var t := ['0'] + s;
      var r := ZeroPad(t, width);
      assert |r| == width && |r| - |t| + 1 == |r| - |s|;
      assert r[|r| - |s|..] == r[|r| - |t|..][1..] == t[1..] == s;
      r
  }

  /** A number below `10^width` printed and padded to `width` takes exactly
      `width` digits and reads back as the number. */
  lemma PaddedDigits(n: nat, width: nat)
    requires 0 < width && n < Pow10(width)
    ensures |ZeroPad(NatToString(n), width)| == width
    ensures AllDigits(ZeroPad(NatToString(n), width)) && DigitsValue(ZeroPad(NatToString(n), width)) == n
  {
    NatToStringRoundTrip(n, width);
    ZeroPadValue(NatToString(n), width);
  }

  /** A leading zero does not change the value. */
  lemma {:induction false} LeadingZeroValue(s: string)
    requires AllDigits(s)
    ensures AllDigits(['0'] + s) && DigitsValue(['0'] + s) == DigitsValue(s)
  {
    if |s| > 0 {
      var t := ['0'] + s;
      assert t[..|t| - 1] == ['0'] + s[..|s| - 1];
      LeadingZeroValue(s[..|s| - 1]);
    }
  }

  /** Padding with zeros keeps the value of a digit string. */
  lemma {:induction false} ZeroPadValue(s: string, width: nat)
    requires AllDigits(s)
    ensures AllDigits(ZeroPad(s, width)) && DigitsValue(ZeroPad(s, width)) == DigitsValue(s)
    decreases width - |s|
  {
    if |s| < width {
      LeadingZeroValue(s);
      ZeroPadValue(['0'] + s, width);
    }
  }
}
