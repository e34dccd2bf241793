/**
 * ASCII text routines shared by the lookup, parsing and search code: Python's
 * `str.lower`, `str.strip`, the `in` substring test, `int()` on decimal text and
 * decimal formatting, restricted to ASCII characters.
 */
module Text {
  import opened Wrappers

  /** `str.isspace` on ASCII: space, \t, \n, \v, \f, \r and the separators 0x1C-0x1F. */
  predicate IsSpace(c: char) {
    c == ' ' || ('\t' <= c <= '\r') || ('\U{001C}' <= c <= '\U{001F}')
  }

  predicate IsDigit(c: char) { '0' <= c <= '9' }

  /** The ASCII members of the regular-expression class `\w`. */
  predicate IsWordChar(c: char) {
    ('a' <= c <= 'z') || ('A' <= c <= 'Z') || IsDigit(c) || c == '_'
  }

  function LowerChar(c: char): (r: char)
    ensures 'A' <= c <= 'Z' ==> 'a' <= r <= 'z' && r as int == c as int + 32
    ensures !('A' <= c <= 'Z') ==> r == c
  {
    if 'A' <= c <= 'Z' then (c as int + 32) as char else c
  }

  /** `str.lower` on ASCII text. */
  function Lower(s: string): (r: string)
    ensures |r| == |s|
    ensures forall i :: 0 <= i < |s| ==> r[i] == LowerChar(s[i])
  {
    if s == [] then [] else [LowerChar(s[0])] + Lower(s[1..])
  }

  /** The number of leading whitespace characters. */
  function LeadingSpaces(s: string): (k: nat)
    ensures k <= |s| && (k == |s| || !IsSpace(s[k]))
    ensures forall i :: 0 <= i < k ==> IsSpace(s[i])
  {
    if s != [] && IsSpace(s[0]) then 1 + LeadingSpaces(s[1..]) else 0
  }

  /** The length of `s` without its trailing whitespace. */
  function TrailingStart(s: string): (k: nat)
    ensures k <= |s| && (k == 0 || !IsSpace(s[k - 1]))
    ensures forall i :: k <= i < |s| ==> IsSpace(s[i])
  {
    if s != [] && IsSpace(s[|s| - 1]) then TrailingStart(s[..|s| - 1]) else |s|
  }

  /**
   * `str.strip()`: the result neither starts nor ends with whitespace, and it
   * is empty exactly when `s` is all whitespace. That it is the slice of `s`
   * left when whitespace is cut off at either end is `StripIsSlice`.
   */
  function Strip(s: string): (r: string)
    ensures r == [] || (!IsSpace(r[0]) && !IsSpace(r[|r| - 1]))
    ensures r == [] <==> forall k :: 0 <= k < |s| ==> IsSpace(s[k])
    ensures forall c :: c in r ==> c in s
  {
    var trail := TrailingStart(s);
    var t := s[..trail];
    var lead := LeadingSpaces(t);
    assert t[lead..] == s[lead..trail];
    t[lead..]
  }

  /** What `Strip` leaves is a slice of `s`, everything outside it whitespace. */
  lemma StripIsSlice(s: string)
    ensures exists i, j :: 0 <= i <= j <= |s| && Strip(s) == s[i..j] && OuterSpaces(s, i, j)
  {
    var trail := TrailingStart(s);
    var lead := LeadingSpaces(s[..trail]);
    assert Strip(s) == s[lead..trail];
    assert OuterSpaces(s, lead, trail);
  }

  /** Everything of `s` before index `i` and from index `j` on is whitespace. */
  predicate OuterSpaces(s: string, i: int, j: int)
    requires 0 <= i <= j <= |s|
  {
    (forall k :: 0 <= k < i ==> IsSpace(s[k])) && (forall k :: j <= k < |s| ==> IsSpace(s[k]))
  }

  lemma StripNoSpace(s: string)
    requires forall i :: 0 <= i < |s| ==> !IsSpace(s[i])
    ensures Strip(s) == s
  {
    assert LeadingSpaces(s) == 0 || s == [];
    assert TrailingStart(s) == |s| || s == [];
  }

  predicate StartsWith(s: string, prefix: string) {
    |prefix| <= |s| && s[..|prefix|] == prefix
  }

  /** The substring test `needle in hay`; the empty string occurs in every string. */
  predicate Contains(hay: string, needle: string)
    decreases |hay|
  {
    StartsWith(hay, needle) || (hay != [] && Contains(hay[1..], needle))
  }

  /** The specification of `Contains`: some window of `hay` equals `needle`. */
  ghost predicate OccursIn(needle: string, hay: string) {
    exists i :: OccursAt(needle, hay, i)
  }

  ghost predicate OccursAt(needle: string, hay: string, i: int) {
    0 <= i && i + |needle| <= |hay| && hay[i..i + |needle|] == needle
  }

  lemma {:induction false} ContainsMeansOccurs(hay: string, needle: string)
    ensures Contains(hay, needle) <==> OccursIn(needle, hay)
    decreases |hay|
  {
    if StartsWith(hay, needle) {
      assert OccursAt(needle, hay, 0);
    } else if hay == [] {
    } else {
      ContainsMeansOccurs(hay[1..], needle);
      OccursPastFirst(needle, hay);
    }
  }

  /** When `needle` does not start `hay`, it occurs in `hay` exactly when it occurs after the first character. */
  lemma OccursPastFirst(needle: string, hay: string)
    requires hay != [] && !StartsWith(hay, needle)
    ensures OccursIn(needle, hay) <==> OccursIn(needle, hay[1..])
  {
    if OccursIn(needle, hay) {
      var i :| OccursAt(needle, hay, i);
      assert i != 0;
      assert hay[1..][i - 1..i - 1 + |needle|] == hay[i..i + |needle|];
      assert OccursAt(needle, hay[1..], i - 1);
    }
    if OccursIn(needle, hay[1..]) {
      var i :| OccursAt(needle, hay[1..], i);
      assert hay[i + 1..i + 1 + |needle|] == hay[1..][i..i + |needle|];
      assert OccursAt(needle, hay, i + 1);
    }
  }

  function DigitValue(c: char): nat requires IsDigit(c) { c as int - '0' as int }

  function DigitChar(d: nat): (c: char)
    requires d < 10
    ensures IsDigit(c) && DigitValue(c) == d
  {
    ('0' as int + d) as char
  }

  predicate AllDigits(s: string) {
    forall i :: 0 <= i < |s| ==> IsDigit(s[i])
  }

  /** The value of a string of decimal digits (leading zeros allowed, as `int("007")`). */
  function DigitsValue(s: string): nat
    requires AllDigits(s)
  {
    if s == [] then 0 else DigitsValue(s[..|s| - 1]) * 10 + DigitValue(s[|s| - 1])
  }

  /** `str(n)` for a non-negative integer. */
  function Decimal(n: nat): (r: string)
    ensures |r| > 0 && AllDigits(r)
  {
    if n < 10 then [DigitChar(n)] else Decimal(n / 10) + [DigitChar(n % 10)]
  }

  lemma {:induction false} DecimalValue(n: nat)
    ensures DigitsValue(Decimal(n)) == n
  {
    if n >= 10 {
      DecimalValue(n / 10);
      var d := Decimal(n);
      assert d[..|d| - 1] == Decimal(n / 10);
    }
  }

  /**
   * Python's `int()` on text restricted to ASCII: surrounding whitespace is
   * ignored, one optional sign, then at least one decimal digit; anything else
   * is a `ValueError`, modelled as `None`.
   */
  function ParseInt(s: string): (r: Option<int>)
    ensures r.Some? <==> Numeral(Strip(s))
    ensures Numeral(Strip(s)) && AllDigits(Strip(s)) ==> r == Some(DigitsValue(Strip(s)))
    ensures Numeral(Strip(s)) && Strip(s)[0] == '+' ==> r == Some(DigitsValue(Strip(s)[1..]))
    ensures Numeral(Strip(s)) && Strip(s)[0] == '-' ==> r == Some(0 - DigitsValue(Strip(s)[1..]))
  {
    var t := Strip(s);
    var signed := |t| > 0 && (t[0] == '+' || t[0] == '-');
    var digits := if signed then t[1..] else t;
    if |digits| > 0 && AllDigits(digits) then
      Some(if signed && t[0] == '-' then 0 - DigitsValue(digits) else DigitsValue(digits))
    else None
  }

  /** `t` is at least one decimal digit, after one optional '+' or '-'. */
  predicate Numeral(t: string) {
    || (t != [] && AllDigits(t))
    || (|t| > 1 && (t[0] == '+' || t[0] == '-') && AllDigits(t[1..]))
  }

  /** `t` is `sign` followed by `digits`: at most one sign, then at least one digit. */
  predicate SignedNumeral(t: string, sign: string, digits: string) {
    t == sign + digits && (sign == "" || sign == "+" || sign == "-") && digits != [] && AllDigits(digits)
  }

  /**
   * The contract of `ParseInt` in terms of a split of the stripped text: it
   * reads a number exactly when the text is a sign and a run of digits, and
   * the number is the signed value of that split.
   */
  lemma ParseIntSplit(s: string)
    ensures ParseInt(s).Some? <==> exists sign, digits :: SignedNumeral(Strip(s), sign, digits)
    ensures forall sign, digits :: SignedNumeral(Strip(s), sign, digits) ==> ParseInt(s) == Some(SignedValue(sign, digits))
  {
    forall sign, digits | SignedNumeral(Strip(s), sign, digits)
      ensures ParseInt(s) == Some(SignedValue(sign, digits))
    {
      SplitReads(s, sign, digits);
    }
    if ParseInt(s).Some? {
      var t := Strip(s);
      var k := if AllDigits(t) then 0 else 1;
      assert t[..k] + t[k..] == t;
      assert SignedNumeral(t, t[..k], t[k..]);
    }
  }

  /** One split of the stripped text into sign and digits gives the number read. */
  lemma SplitReads(s: string, sign: string, digits: string)
    requires SignedNumeral(Strip(s), sign, digits)
    ensures ParseInt(s) == Some(SignedValue(sign, digits))
  {
    var t := Strip(s);
    NumeralShape(t);
    if sign == "" {
      assert Numeral(t);
    } else {
      assert t[0] == sign[0] && t[1..] == digits;
      assert !IsDigit(t[0]);
    }
  }

  /** A numeral splits into sign and digits in one way only: the sign is the first character if that is '+' or '-'. */
  lemma NumeralShape(t: string)
    ensures forall sign, digits :: SignedNumeral(t, sign, digits) ==>
      && |t| > 0
      && sign == (if t[0] == '+' || t[0] == '-' then t[..1] else "")
      && digits == t[|sign|..]
  {
    forall sign, digits | SignedNumeral(t, sign, digits)
      ensures |t| > 0 && sign == (if t[0] == '+' || t[0] == '-' then t[..1] else "") && digits == t[|sign|..]
    {
      assert t[|sign|..] == digits;
      if sign == "" {
        assert t[0] == digits[0] && IsDigit(digits[0]);
      } else {
        assert t[0] == sign[0] && t[..1] == sign;
      }
    }
  }

  /** The value of a signed numeral. */
  function SignedValue(sign: string, digits: string): int
    requires AllDigits(digits)
  {
    if sign == "-" then 0 - DigitsValue(digits) else DigitsValue(digits)
  }

  /** Printing a natural number and reading it back gives the number. */
  lemma ParseDecimal(n: nat)
    ensures ParseInt(Decimal(n)) == Some(n)
  {
    ParseDigits(Decimal(n));
    DecimalValue(n);
  }

  /** An unsigned run of digits reads as its decimal value. */
  lemma ParseDigits(d: string)
    requires d != [] && AllDigits(d)
    ensures ParseInt(d) == Some(DigitsValue(d))
  {
    assert Strip(d) == d by {
      forall i | 0 <= i < |d| ensures !IsSpace(d[i]) { assert IsDigit(d[i]); }
      StripNoSpace(d);
    }
  }

  /** A minus sign before a printed natural number gives its negation. */
  lemma ParseNegativeDecimal(n: nat)
    ensures ParseInt("-" + Decimal(n)) == Some(-(n as int))
  {
    DecimalValue(n);
    ParseNegativeDigits(Decimal(n), n);
  }

  /** A minus sign before a run of digits with value `n` gives `-n`. */
  lemma ParseNegativeDigits(d: string, n: int)
    requires d != [] && AllDigits(d) && DigitsValue(d) == n
    ensures ParseInt("-" + d) == Some(-n)
  {
    var s := "-" + d;
    NegativeHasNoSpace(d);
    assert s[1..] == d;
  }

  lemma NegativeHasNoSpace(d: string)
    requires AllDigits(d)
    ensures Strip("-" + d) == "-" + d
  {
    var s := "-" + d;
    forall i | 0 <= i < |s| ensures !IsSpace(s[i]) {
      if i > 0 { assert s[i] == d[i - 1]; }
    }
    StripNoSpace(s);
  }

  /** Text without any digit is not a number. */
  lemma ParseIntRejectsNonNumeric(s: string)
    requires forall i :: 0 <= i < |s| ==> !IsDigit(s[i])
    ensures ParseInt(s) == None
  {
  }

  // ---------------------------------------------------------------------------
  // String order, replacement and splitting
  // ---------------------------------------------------------------------------

  /**
   * Python's `<` on strings: at the first differing position the smaller
   * character wins, and a proper prefix is smaller.
   */
  predicate Less(a: string, b: string)
    decreases |a|
  {
    b != [] && (a == [] || a[0] < b[0] || (a[0] == b[0] && Less(a[1..], b[1..])))
  }

  lemma {:induction false} LessIrreflexive(a: string)
    ensures !Less(a, a)
    decreases |a|
  {
    if a != [] {
      LessIrreflexive(a[1..]);
    }
  }

  lemma {:induction false} LessTotal(a: string, b: string)
    ensures a == b || Less(a, b) || Less(b, a)
    decreases |a|
  {
    if a != [] && b != [] && a[0] == b[0] {
      LessTotal(a[1..], b[1..]);
      if a[1..] == b[1..] {
        assert a == [a[0]] + a[1..] && b == [b[0]] + b[1..];
      }
    }
  }

  lemma {:induction false} LessTransitive(a: string, b: string, c: string)
    requires Less(a, b) && Less(b, c)
    ensures Less(a, c)
    decreases |a|
  {
    if a != [] && a[0] == b[0] && b[0] == c[0] {
      LessTransitive(a[1..], b[1..], c[1..]);
    }
  }

  /** `s.replace(pat, "")`: occurrences of `pat` deleted left to right, without overlaps. */
  function RemoveAll(s: string, pat: string): (r: string)
    requires pat != []
    ensures |r| <= |s|
    ensures forall c :: c in r ==> c in s
    decreases |s|
  {
    if |s| < |pat| then s
    else if s[..|pat|] == pat then RemoveAll(s[|pat|..], pat)
    else [s[0]] + RemoveAll(s[1..], pat)
  }

  /** Text that lacks the first character of `pat` is left alone. */
  lemma {:induction false} RemoveAllAbsent(s: string, pat: string)
    requires pat != [] && pat[0] !in s
    ensures RemoveAll(s, pat) == s
    decreases |s|
  {
    if |s| >= |pat| {
      assert s[..|pat|][0] == s[0];
      RemoveAllAbsent(s[1..], pat);
      assert s == [s[0]] + s[1..];
    }
  }

  /** Deleting `pat` from `a + b` skips over `a` when `a` cannot start an occurrence. */
  lemma {:induction false} RemoveAllSkip(a: string, b: string, pat: string)
    requires pat != [] && pat[0] !in a
    ensures RemoveAll(a + b, pat) == a + RemoveAll(b, pat)
    decreases |a|
  {
    if a != [] {
      var s := a + b;
      RemoveAllSkip(a[1..], b, pat);
      assert s[1..] == a[1..] + b;
      assert a[0] in a;
      if |s| >= |pat| {
        assert s[..|pat|][0] == a[0];
        assert s[..|pat|] != pat;
        assert RemoveAll(s, pat) == [a[0]] + RemoveAll(a[1..] + b, pat);
        assert [a[0]] + (a[1..] + RemoveAll(b, pat)) == a + RemoveAll(b, pat);
      } else {
        assert RemoveAll(b, pat) == b;
      }
    } else {
      assert a + b == b;
      assert a + RemoveAll(b, pat) == RemoveAll(b, pat);
    }
  }

  /** `s.split(sep)` for a one-character separator: the pieces between separators. */
  function Split(s: string, sep: char): (r: seq<string>)
    ensures |r| >= 1
    ensures sep !in s ==> r == [s]
    ensures sep in s ==> |r| >= 2
  {
    if s == [] then [""]
    else
      var rest := Split(s[1..], sep);
      assert s == [s[0]] + s[1..];
      if s[0] == sep then [""] + rest
      else [[s[0]] + rest[0]] + rest[1..]
  }

  /** Every character of a piece is a character of the text other than the separator. */
  lemma {:induction false} SplitPieces(s: string, sep: char)
    ensures forall i, c :: 0 <= i < |Split(s, sep)| && c in Split(s, sep)[i] ==> c in s && c != sep
    decreases |s|
  {
    if s != [] {
      SplitPieces(s[1..], sep);
      assert s == [s[0]] + s[1..];
      var rest := Split(s[1..], sep);
      var r := Split(s, sep);
      if s[0] != sep {
        assert forall i :: 1 <= i < |r| ==> r[i] == rest[i];
      }
    }
  }

  /** Splitting `a` + separator + `b` gives `a` and then the pieces of `b`. */
  lemma {:induction false} SplitAtFirst(a: string, sep: char, b: string)
    requires sep !in a
    ensures Split(a + [sep] + b, sep) == [a] + Split(b, sep)
    decreases |a|
  {
    if a != [] {
      SplitAtFirst(a[1..], sep, b);
      assert (a + [sep] + b)[1..] == a[1..] + [sep] + b;
      assert [a[0]] + a[1..] == a;
    }
  }

  /** Text with exactly one separator splits into the parts around it. */
  lemma SplitTwo(a: string, sep: char, b: string)
    requires sep !in a && sep !in b
    ensures Split(a + [sep] + b, sep) == [a, b]
  {
    SplitAtFirst(a, sep, b);
  }

  /** Lower-casing leaves text without capital letters alone. */
  lemma LowerNoCapitals(s: string)
    requires forall i :: 0 <= i < |s| ==> !('A' <= s[i] <= 'Z')
    ensures Lower(s) == s
  {
  }
}
