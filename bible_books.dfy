/**
 * Expansion of abbreviated Bible book names in a reading
 * (telegram/bible_books.py). The abbreviation table is a parameter: a
 * sequence of (abbreviation, full name) pairs in the table's own order.
 */
module BibleBooks {
  import Text

  type Entry = (string, string)

  /** Every abbreviation in the table is a non-empty string. */
  predicate WellFormed(table: seq<Entry>) {
    forall i :: 0 <= i < |table| ==> table[i].0 != []
  }

  // ---------------------------------------------------------------------
  // Ordering the table: `sorted(..., key=len(abbrev), reverse=True)`
  // ---------------------------------------------------------------------

  /** Key lengths never increase along `s`. */
  predicate LongestFirst(s: seq<Entry>) {
    forall i, j :: 0 <= i < j < |s| ==> |s[i].0| >= |s[j].0|
  }

  /** Places `e` before the first entry whose key is not longer than its own. */
  function InsertByLength(e: Entry, s: seq<Entry>): (r: seq<Entry>)
    ensures multiset(r) == multiset(s) + multiset{e}
    ensures |r| == |s| + 1
  {
    if s == [] || |s[0].0| <= |e.0| then [e] + s
    else
      assert s == [s[0]] + s[1..];
      [s[0]] + InsertByLength(e, s[1..])
  }

  /** Inserting into a longest-first sequence keeps it longest first. */
  lemma {:induction false} InsertByLengthKeepsOrder(e: Entry, s: seq<Entry>)
    requires LongestFirst(s)
    ensures LongestFirst(InsertByLength(e, s))
    ensures InsertByLength(e, s)[0] == e || (s != [] && InsertByLength(e, s)[0] == s[0])
    decreases |s|
  {
    if s != [] && |s[0].0| > |e.0| {
      var rest := InsertByLength(e, s[1..]);
      InsertByLengthKeepsOrder(e, s[1..]);
      assert |rest[0].0| <= |s[0].0|;
      var r := [s[0]] + rest;
      assert InsertByLength(e, s) == r;
      forall i, j | 0 <= i < j < |r| ensures |r[i].0| >= |r[j].0| {
        if i > 0 {
          assert r[i] == rest[i - 1] && r[j] == rest[j - 1];
        } else {
          assert r[j] == rest[j - 1];
        }
      }
    }
  }

  /** A stable sort of the table by decreasing key length. */
  function SortByLength(table: seq<Entry>): (r: seq<Entry>)
    ensures LongestFirst(r)
    ensures multiset(r) == multiset(table)
  {
    if table == [] then []
    else
      assert table == [table[0]] + table[1..];
      InsertByLengthKeepsOrder(table[0], SortByLength(table[1..]));
      InsertByLength(table[0], SortByLength(table[1..]))
  }

  /** The entries of `s` whose key has length `n`, in order. */
  function OfLength(s: seq<Entry>, n: nat): (r: seq<Entry>)
    ensures forall x :: x in r <==> x in s && |x.0| == n
  {
    if s == [] then []
    else if |s[0].0| == n then [s[0]] + OfLength(s[1..], n)
    else OfLength(s[1..], n)
  }

  lemma {:induction false} OfLengthInsert(e: Entry, s: seq<Entry>, n: nat)
    requires LongestFirst(s)
    ensures OfLength(InsertByLength(e, s), n) == (if |e.0| == n then [e] else []) + OfLength(s, n)
    decreases |s|
  {
    if s == [] || |s[0].0| <= |e.0| {
      assert InsertByLength(e, s) == [e] + s;
      assert ([e] + s)[1..] == s;
    } else {
      var rest := InsertByLength(e, s[1..]);
      assert InsertByLength(e, s) == [s[0]] + rest;
      assert ([s[0]] + rest)[1..] == rest;
      OfLengthInsert(e, s[1..], n);
      if |e.0| == n {
        assert |s[0].0| != n;
      }
    }
  }

  /**
   * The sort is stable: abbreviations of the same length keep their table
   * order.
   */
  lemma {:induction false} SortByLengthIsStable(table: seq<Entry>, n: nat)
    ensures OfLength(SortByLength(table), n) == OfLength(table, n)
    decreases |table|
  {
    if table != [] {
      SortByLengthIsStable(table[1..], n);
      OfLengthInsert(table[0], SortByLength(table[1..]), n);
    }
  }

  // ---------------------------------------------------------------------
  // One substitution: `re.sub(r'(?<!\w)' + re.escape(abbrev) + r'(?=\s|;|$)', full, text)`
  // ---------------------------------------------------------------------

  /** The lookahead `(?=\s|;|$)` holds at the start of `t`. */
  predicate Boundary(t: string) {
    t == [] || Text.IsSpace(t[0]) || t[0] == ';'
  }

  /**
   * The occurrence of `pat` at index `i` of `s` qualifies: it is not preceded
   * by a word character and is followed by whitespace, ';' or the end.
   */
  predicate MatchAt(s: string, pat: string, i: int) {
    0 <= i && i + |pat| <= |s| && s[i..i + |pat|] == pat
    && (i == 0 || !Text.IsWordChar(s[i - 1]))
    && Boundary(s[i + |pat|..])
  }

  /**
   * The left-to-right scan of `re.sub` over `s`; `afterWord` says whether
   * the character before `s` in the original text is a word character.
   * Matches do not overlap: the scan resumes after the replaced text.
   */
  function Replace(s: string, pat: string, rep: string, afterWord: bool): string
    requires pat != []
    decreases |s|
  {
    if s == [] then []
    else if !afterWord && Text.StartsWith(s, pat) && Boundary(s[|pat|..]) then
      rep + Replace(s[|pat|..], pat, rep, Text.IsWordChar(pat[|pat| - 1]))
    else
      [s[0]] + Replace(s[1..], pat, rep, Text.IsWordChar(s[0]))
  }

  /** One `re.sub` call over the whole text. */
  function Substitute(s: string, pat: string, rep: string): string
    requires pat != []
  {
    Replace(s, pat, rep, false)
  }

  /** What the scan sees before index `k` of `s`. */
  predicate WordBefore(s: string, k: int)
    requires 0 <= k <= |s|
  {
    k > 0 && Text.IsWordChar(s[k - 1])
  }

  /** The scan's test at index `k` is exactly `MatchAt`. */
  lemma MatchAtSuffix(s: string, pat: string, k: nat)
    requires k <= |s|
    ensures (!WordBefore(s, k) && Text.StartsWith(s[k..], pat) && Boundary(s[k..][|pat|..]) && k < |s|) <==> MatchAt(s, pat, k) && k < |s|
  {
    if k + |pat| <= |s| {
      assert s[k..][..|pat|] == s[k..k + |pat|];
      assert s[k..][|pat|..] == s[k + |pat|..];
    }
  }

  /** A text that starts with `pat` starts with its first character. */
  lemma StartsWithHead(s: string, pat: string)
    requires pat != []
    ensures Text.StartsWith(s, pat) ==> s != [] && s[0] == pat[0]
  {
    if Text.StartsWith(s, pat) {
      assert s[..|pat|][0] == s[0];
    }
  }

  /** No occurrence qualifies at an index in `[k, m)`. */
  predicate NoMatchBetween(s: string, pat: string, k: nat, m: nat)
    decreases m - k
  {
    k >= m || (!MatchAt(s, pat, k) && NoMatchBetween(s, pat, k + 1, m))
  }

  lemma {:induction false} NoMatchBetweenAll(s: string, pat: string, k: nat, m: nat)
    requires forall i :: k <= i < m ==> !MatchAt(s, pat, i)
    ensures NoMatchBetween(s, pat, k, m)
    decreases m - k
  {
    if k < m {
      NoMatchBetweenAll(s, pat, k + 1, m);
    }
  }

  /** The scan copies every character before index `m` when nothing qualifies in `[k, m)`. */
  lemma {:induction false} ReplaceSkip(s: string, pat: string, rep: string, k: nat, m: nat)
    requires pat != [] && k <= m <= |s|
    requires NoMatchBetween(s, pat, k, m)
    ensures Replace(s[k..], pat, rep, WordBefore(s, k)) == s[k..m] + Replace(s[m..], pat, rep, WordBefore(s, m))
    decreases m - k
  {
    if k < m {
      CopyStep(s, pat, rep, k);
      ReplaceSkip(s, pat, rep, k + 1, m);
      assert s[k..m] == [s[k]] + s[k + 1..m];
    }
  }

  /** Where nothing qualifies, the scan copies one character and moves on. */
  lemma CopyStep(s: string, pat: string, rep: string, k: nat)
    requires pat != [] && k < |s| && !MatchAt(s, pat, k)
    ensures Replace(s[k..], pat, rep, WordBefore(s, k)) == [s[k]] + Replace(s[k + 1..], pat, rep, WordBefore(s, k + 1))
  {
    var t := s[k..];
    assert t[0] == s[k] && t[1..] == s[k + 1..];
    MatchAtSuffix(s, pat, k);
  }

  /** A text in which the abbreviation never qualifies is left unchanged. */
  lemma SubstituteNoMatch(s: string, pat: string, rep: string)
    requires pat != []
    requires forall i :: 0 <= i < |s| ==> !MatchAt(s, pat, i)
    ensures Substitute(s, pat, rep) == s
  {
    NoMatchBetweenAll(s, pat, 0, |s|);
    ReplaceSkip(s, pat, rep, 0, |s|);
    assert s[0..] == s && s[0..|s|] == s;
  }

  /**
   * The first qualifying occurrence is replaced, everything before it is
   * copied, and the scan resumes right after it.
   */
  lemma SubstituteFirstMatch(s: string, pat: string, rep: string, m: nat)
    requires pat != [] && m < |s|
    requires forall i :: 0 <= i < m ==> !MatchAt(s, pat, i)
    requires MatchAt(s, pat, m)
    ensures Substitute(s, pat, rep) == s[..m] + rep + Replace(s[m + |pat|..], pat, rep, Text.IsWordChar(pat[|pat| - 1]))
  {
    NoMatchBetweenAll(s, pat, 0, m);
    ReplaceSkip(s, pat, rep, 0, m);
    assert s[0..] == s && s[0..m] == s[..m];
    MatchAtSuffix(s, pat, m);
    assert s[m..][|pat|..] == s[m + |pat|..];
  }

  /**
   * An abbreviation at the start of the text followed by a space is
   * replaced, and the scan goes on after the space as at the start of a
   * word (the shape of "Ps. 119:1-88").
   */
  lemma SubstituteLeading(pat: string, rep: string, rest: string)
    requires pat != [] && !Text.IsSpace(pat[0])
    ensures Substitute(pat + " " + rest, pat, rep) == rep + " " + Replace(rest, pat, rep, false)
  {
    var s := pat + " " + rest;
    assert s[..|pat|] == pat;
    assert s[|pat|..] == " " + rest;
    var t := " " + rest;
    StartsWithHead(t, pat);
    assert t[1..] == rest;
    calc {
      Substitute(s, pat, rep);
      rep + Replace(t, pat, rep, Text.IsWordChar(pat[|pat| - 1]));
      rep + ([' '] + Replace(rest, pat, rep, false));
    }
  }

  /**
   * An abbreviation followed by another character (a letter, a digit, a
   * period) is not replaced at that position: "Phil." is not a match for the
   * key "Phil".
   */
  lemma NoMatchBeforeOtherChar(s: string, pat: string, i: int)
    requires 0 <= i && i + |pat| < |s|
    requires !Text.IsSpace(s[i + |pat|]) && s[i + |pat|] != ';'
    ensures !MatchAt(s, pat, i)
  {
    assert s[i + |pat|..][0] == s[i + |pat|];
  }

  // ---------------------------------------------------------------------
  // The whole expansion
  // ---------------------------------------------------------------------

  /** Applies the substitutions of `entries` in order. */
  function ExpandAll(entries: seq<Entry>, text: string): string
    requires WellFormed(entries)
  {
    if entries == [] then text
    else
      var last := entries[|entries| - 1];
      Substitute(ExpandAll(entries[..|entries| - 1], text), last.0, last.1)
  }

  lemma WellFormedSorted(table: seq<Entry>)
    requires WellFormed(table)
    ensures WellFormed(SortByLength(table))
  {
    var sorted := SortByLength(table);
    forall i | 0 <= i < |sorted| ensures sorted[i].0 != [] {
      assert sorted[i] in multiset(table);
    }
  }

  /**
   * `expand_bible_reading`: an empty reading is returned as it is; otherwise
   * every abbreviation, longest first, is substituted in turn.
   */
  method ExpandBibleReading(table: seq<Entry>, readingText: string) returns (result: string)
    requires WellFormed(table)
    ensures readingText == [] ==> result == readingText
    ensures readingText != [] ==> WellFormed(SortByLength(table)) && result == ExpandAll(SortByLength(table), readingText)
  {
    if readingText == [] {
      return readingText;
    }
    result := readingText;
    var sorted := SortByLength(table);
    WellFormedSorted(table);
    for i := 0 to |sorted|
      invariant result == ExpandAll(sorted[..i], readingText)
    {
      assert sorted[..i + 1][..i] == sorted[..i];
      var (abbrev, fullName) := sorted[i];
      result := Substitute(result, abbrev, fullName);
    }
    assert sorted[..|sorted|] == sorted;
  }

  /** No abbreviation of `entries` qualifies anywhere in `text`. */
  predicate NothingToExpand(entries: seq<Entry>, text: string) {
    forall e, i :: e in entries && 0 <= i < |text| ==> !MatchAt(text, e.0, i)
  }

  lemma {:induction false} ExpandAllNoMatch(entries: seq<Entry>, text: string)
    requires WellFormed(entries)
    requires NothingToExpand(entries, text)
    ensures ExpandAll(entries, text) == text
    decreases |entries|
  {
    if entries != [] {
      var init := entries[..|entries| - 1];
      var last := entries[|entries| - 1];
      assert forall e :: e in init ==> e in entries;
      ExpandAllNoMatch(init, text);
      SubstituteNoMatch(text, last.0, last.1);
    }
  }

  /** A reading in which no abbreviation of the table qualifies comes back unchanged. */
  lemma ExpandNothing(table: seq<Entry>, text: string)
    requires WellFormed(table)
    requires NothingToExpand(table, text)
    ensures WellFormed(SortByLength(table))
    ensures ExpandAll(SortByLength(table), text) == text
  {
    WellFormedSorted(table);
    var sorted := SortByLength(table);
    forall e | e in sorted ensures e in table {
      assert e in multiset(table);
    }
    ExpandAllNoMatch(sorted, text);
  }

  // ---------------------------------------------------------------------
  // The two examples of the docstring, over the four books they use
  // ---------------------------------------------------------------------

  /** The rows of the abbreviation table for Genesis, Psalms, Matthew and 1 Corinthians, in table order. */
  const SampleTable: seq<Entry> := [("Gen.", "Genesis"), ("Ps.", "Psalms"), ("Mt.", "Matthew"), ("1 Cor.", "1 Corinthians")]

  /** Longest first, equal lengths in table order: "1 Cor.", "Gen.", then "Ps." before "Mt.". */
  lemma SampleTableSorted()
    ensures WellFormed(SampleTable)
    ensures SortByLength(SampleTable) == [("1 Cor.", "1 Corinthians"), ("Gen.", "Genesis"), ("Ps.", "Psalms"), ("Mt.", "Matthew")]
  {
    WellFormedFour(("Gen.", "Genesis"), ("Ps.", "Psalms"), ("Mt.", "Matthew"), ("1 Cor.", "1 Corinthians"));
    SortFour(("Gen.", "Genesis"), ("Ps.", "Psalms"), ("Mt.", "Matthew"), ("1 Cor.", "1 Corinthians"));
  }

  lemma WellFormedFour(a: Entry, b: Entry, c: Entry, d: Entry)
    requires a.0 != [] && b.0 != [] && c.0 != [] && d.0 != []
    ensures WellFormed([a, b, c, d])
  {
  }

  /** The sort of four entries whose last key is the longest and whose middle two keys have the same length. */
  lemma SortFour(a: Entry, b: Entry, c: Entry, d: Entry)
    requires |d.0| > |a.0| > |b.0| == |c.0|
    ensures SortByLength([a, b, c, d]) == [d, a, b, c]
  {
    SortThree(b, c, d);
    assert [a, b, c, d][1..] == [b, c, d];
    Displays(a, b, c, d);
    InsertPast(a, d, [b, c]);
  }

  lemma SortThree(b: Entry, c: Entry, d: Entry)
    requires |d.0| > |b.0| == |c.0|
    ensures SortByLength([b, c, d]) == [d] + [b, c]
  {
    assert [b, c, d][1..] == [c, d] && [c, d][1..] == [d] && [d][1..] == [];
    assert SortByLength([d]) == InsertByLength(d, []) == [d];
    InsertPast(c, d, []);
    assert [d] + [c] == [d, c];
    assert SortByLength([c, d]) == InsertByLength(c, [d]) == [d, c];
    InsertPast(b, d, [c]);
    assert [b] + [c] == [b, c];
    assert SortByLength([b, c, d]) == InsertByLength(b, [d, c]);
  }

  /** The shapes of four-entry sequences the sort goes through. */
  lemma Displays(a: Entry, b: Entry, c: Entry, d: Entry)
    ensures [a] + [b, c] == [a, b, c]
    ensures [d] + [a, b, c] == [d, a, b, c]
  {
  }

  /** Inserting behind a longer key. */
  lemma InsertPast(e: Entry, x: Entry, s: seq<Entry>)
    requires |x.0| > |e.0|
    ensures InsertByLength(e, [x] + s) == [x] + InsertByLength(e, s)
  {
    assert ([x] + s)[0] == x && ([x] + s)[1..] == s;
  }

  /** Four substitutions applied one after the other. */
  lemma ExpandFour(e0: Entry, e1: Entry, e2: Entry, e3: Entry, text: string)
    requires e0.0 != [] && e1.0 != [] && e2.0 != [] && e3.0 != []
    ensures WellFormed([e0, e1, e2, e3])
    ensures ExpandAll([e0, e1, e2, e3], text)
      == Substitute(Substitute(Substitute(Substitute(text, e0.0, e0.1), e1.0, e1.1), e2.0, e2.1), e3.0, e3.1)
  {
    var es := [e0, e1, e2, e3];
    assert es[..3] == [e0, e1, e2] && [e0, e1, e2][..2] == [e0, e1] && [e0, e1][..1] == [e0] && [e0][..0] == [];
    assert ExpandAll([e0], text) == Substitute(text, e0.0, e0.1);
    assert ExpandAll([e0, e1], text) == Substitute(ExpandAll([e0], text), e1.0, e1.1);
    assert ExpandAll([e0, e1, e2], text) == Substitute(ExpandAll([e0, e1], text), e2.0, e2.1);
    assert ExpandAll(es, text) == Substitute(ExpandAll([e0, e1, e2], text), e3.0, e3.1);
  }

  /** No occurrence of `pat` qualifies where its `j`-th character would fall inside `a`, a part that lacks that character. */
  lemma NoMatchWithin(a: string, b: string, pat: string, j: nat)
    requires j < |pat| && pat[j] !in a
    ensures forall i :: 0 <= i && i + j < |a| ==> !MatchAt(a + b, pat, i)
  {
    var s := a + b;
    forall i | 0 <= i && i + j < |a|
      ensures !MatchAt(s, pat, i)
    {
      assert s[i + j] == a[i + j];
      if i + |pat| <= |s| {
        assert s[i..i + |pat|][j] == s[i + j];
      }
    }
  }

  /** A text lacking one of the abbreviation's characters is left unchanged. */
  lemma SubstituteAbsent(s: string, pat: string, rep: string, j: nat)
    requires j < |pat| && pat[j] !in s
    ensures Substitute(s, pat, rep) == s
  {
    NoMatchWithin(s, [], pat, j);
    assert s + [] == s;
    SubstituteNoMatch(s, pat, rep);
  }

  /**
   * An abbreviation that occurs once, not after a word character and
   * followed by whitespace, ';' or the end, is replaced there and nowhere
   * else. `pat[j]` is a character of it that the rest of the text lacks.
   */
  lemma SubstituteOnly(pre: string, pat: string, post: string, rep: string, j: nat)
    requires j < |pat| && pat[j] !in pre + pat[..j] && pat[j] !in post
    requires pre == [] || !Text.IsWordChar(pre[|pre| - 1])
    requires Boundary(post) && !Text.IsWordChar(pat[|pat| - 1])
    ensures Substitute(pre + pat + post, pat, rep) == pre + rep + post
  {
    var s := pre + pat + post;
    var m := |pre|;
    assert s == (pre + pat[..j]) + (pat[j..] + post);
    NoMatchWithin(pre + pat[..j], pat[j..] + post, pat, j);
    assert s[m..m + |pat|] == pat && s[m + |pat|..] == post && s[..m] == pre;
    assert m > 0 ==> s[m - 1] == pre[m - 1];
    SubstituteFirstMatch(s, pat, rep, m);
    SubstituteAbsent(post, pat, rep, j);
  }

  /** Moving the brackets of a four-part text so that its first part stands alone. */
  lemma Regroup(a: string, b: string, c: string, d: string)
    ensures "" + a + (b + c + d) == a + b + c + d
  {
  }

  /**
   * The first example, "Gen. 1–3; Mt. 1", cut into the abbreviations and
   * the text around them: each substitution of the sorted sample table in
   * turn.
   */
  lemma ExpandGenesisPieces(x: string, y: string)
    requires x == " 1–3; " && y == " 1"
    ensures WellFormed(SortByLength(SampleTable))
    ensures ExpandAll(SortByLength(SampleTable), "Gen." + x + "Mt." + y) == "Genesis" + x + "Matthew" + y
  {
    GenesisNoCorinthians(x, y);
    GenesisOpens(x, y);
    GenesisNoPsalms(x, y);
    GenesisThenMatthew(x, y);
    SampleTableSorted();
    ExpandFour(("1 Cor.", "1 Corinthians"), ("Gen.", "Genesis"), ("Ps.", "Psalms"), ("Mt.", "Matthew"), "Gen." + x + "Mt." + y);
  }

  lemma GenesisNoCorinthians(x: string, y: string)
    requires x == " 1–3; " && y == " 1"
    ensures Substitute("Gen." + x + "Mt." + y, "1 Cor.", "1 Corinthians") == "Gen." + x + "Mt." + y
  {
    SubstituteAbsent("Gen." + x + "Mt." + y, "1 Cor.", "1 Corinthians", 2);
  }

  lemma GenesisOpens(x: string, y: string)
    requires x == " 1–3; " && y == " 1"
    ensures Substitute("Gen." + x + "Mt." + y, "Gen.", "Genesis") == "Genesis" + x + "Mt." + y
  {
    Regroup("Gen.", x, "Mt.", y);
    SubstituteOnly("", "Gen.", x + "Mt." + y, "Genesis", 0);
    Regroup("Genesis", x, "Mt.", y);
  }

  lemma GenesisNoPsalms(x: string, y: string)
    requires x == " 1–3; " && y == " 1"
    ensures Substitute("Genesis" + x + "Mt." + y, "Ps.", "Psalms") == "Genesis" + x + "Mt." + y
  {
    SubstituteAbsent("Genesis" + x + "Mt." + y, "Ps.", "Psalms", 0);
  }

  lemma GenesisThenMatthew(x: string, y: string)
    requires x == " 1–3; " && y == " 1"
    ensures Substitute("Genesis" + x + "Mt." + y, "Mt.", "Matthew") == "Genesis" + x + "Matthew" + y
  {
    SubstituteOnly("Genesis" + x, "Mt.", y, "Matthew", 0);
  }

  /** "Gen. 1–3; Mt. 1" expands to "Genesis 1–3; Matthew 1". */
  lemma ExpandGenesisExample()
    ensures WellFormed(SortByLength(SampleTable))
    ensures ExpandAll(SortByLength(SampleTable), "Gen. 1–3; Mt. 1") == "Genesis 1–3; Matthew 1"
  {
    GenesisExampleText();
    ExpandGenesisPieces(" 1–3; ", " 1");
  }

  lemma GenesisExampleText()
    ensures "Gen. 1–3; Mt. 1" == "Gen." + " 1–3; " + "Mt." + " 1"
    ensures "Genesis 1–3; Matthew 1" == "Genesis" + " 1–3; " + "Matthew" + " 1"
  {
  }

  /** The second example, "Ps. 119:1-88; 1 Cor. 7:20-40", cut the same way. */
  lemma ExpandPsalmsPieces(x: string, y: string)
    requires x == " 119:1-88; " && y == " 7:20-40"
    ensures WellFormed(SortByLength(SampleTable))
    ensures ExpandAll(SortByLength(SampleTable), "Ps." + x + "1 Cor." + y) == "Psalms" + x + "1 Corinthians" + y
  {
    PsalmsThenCorinthians(x, y);
    PsalmsNoGenesis(x, y);
    PsalmsOpens(x, y);
    PsalmsNoMatthew(x, y);
    SampleTableSorted();
    ExpandFour(("1 Cor.", "1 Corinthians"), ("Gen.", "Genesis"), ("Ps.", "Psalms"), ("Mt.", "Matthew"), "Ps." + x + "1 Cor." + y);
  }

  lemma PsalmsThenCorinthians(x: string, y: string)
    requires x == " 119:1-88; " && y == " 7:20-40"
    ensures Substitute("Ps." + x + "1 Cor." + y, "1 Cor.", "1 Corinthians") == "Ps." + x + "1 Corinthians" + y
  {
    SubstituteOnly("Ps." + x, "1 Cor.", y, "1 Corinthians", 2);
  }

  lemma PsalmsNoGenesis(x: string, y: string)
    requires x == " 119:1-88; " && y == " 7:20-40"
    ensures Substitute("Ps." + x + "1 Corinthians" + y, "Gen.", "Genesis") == "Ps." + x + "1 Corinthians" + y
  {
    SubstituteAbsent("Ps." + x + "1 Corinthians" + y, "Gen.", "Genesis", 0);
  }

  lemma PsalmsOpens(x: string, y: string)
    requires x == " 119:1-88; " && y == " 7:20-40"
    ensures Substitute("Ps." + x + "1 Corinthians" + y, "Ps.", "Psalms") == "Psalms" + x + "1 Corinthians" + y
  {
    Regroup("Ps.", x, "1 Corinthians", y);
    SubstituteOnly("", "Ps.", x + "1 Corinthians" + y, "Psalms", 0);
    Regroup("Psalms", x, "1 Corinthians", y);
  }

  lemma PsalmsNoMatthew(x: string, y: string)
    requires x == " 119:1-88; " && y == " 7:20-40"
    ensures Substitute("Psalms" + x + "1 Corinthians" + y, "Mt.", "Matthew") == "Psalms" + x + "1 Corinthians" + y
  {
    SubstituteAbsent("Psalms" + x + "1 Corinthians" + y, "Mt.", "Matthew", 0);
  }

  /** "Ps. 119:1-88; 1 Cor. 7:20-40" expands to "Psalms 119:1-88; 1 Corinthians 7:20-40". */
  lemma ExpandPsalmsExample()
    ensures WellFormed(SortByLength(SampleTable))
    ensures ExpandAll(SortByLength(SampleTable), "Ps. 119:1-88; 1 Cor. 7:20-40") == "Psalms 119:1-88; 1 Corinthians 7:20-40"
  {
    PsalmsExampleText();
    PsalmsExampleExpandedText();
    ExpandPsalmsPieces(" 119:1-88; ", " 7:20-40");
  }

  lemma PsalmsExampleText()
    ensures "Ps. 119:1-88; 1 Cor. 7:20-40" == "Ps." + " 119:1-88; " + "1 Cor." + " 7:20-40"
  {
  }

  lemma PsalmsExampleExpandedText()
    ensures "Psalms 119:1-88; 1 Corinthians 7:20-40" == "Psalms" + " 119:1-88; " + "1 Corinthians" + " 7:20-40"
  {
  }
}
