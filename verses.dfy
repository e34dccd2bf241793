/**
 * Searching the popular-verse table (telegram/verses.py). The table is a
 * parameter, in the table's own order.
 */
module Verses {
  import opened Wrappers
  import Text
  import Seqs

  datatype Verse = Verse(reference: string, verse: string, topic: string)

  /** The test of `search_verses`: the lower-cased keyword occurs in the verse, reference or topic. */
  predicate MatchesKeyword(v: Verse, keyword: string) {
    var k := Text.Lower(keyword);
    Text.Contains(Text.Lower(v.verse), k)
    || Text.Contains(Text.Lower(v.reference), k)
    || Text.Contains(Text.Lower(v.topic), k)
  }

  /** The entries of `table` matching `keyword`, in table order. */
  function Matching(table: seq<Verse>, keyword: string): (r: seq<Verse>)
    ensures |r| <= |table|
    ensures forall v {:trigger v in r} :: v in r <==> v in table && MatchesKeyword(v, keyword)
    ensures forall v {:trigger multiset(r)[v]} :: multiset(r)[v] == if MatchesKeyword(v, keyword) then multiset(table)[v] else 0
  {
    if table == [] then []
    else
      var init := table[..|table| - 1];
      var last := table[|table| - 1];
      assert table == init + [last];
      Matching(init, keyword) + (if MatchesKeyword(last, keyword) then [last] else [])
  }

  /** The search result is a subsequence of the table. */
  lemma {:induction false} MatchingIsSubsequence(table: seq<Verse>, keyword: string)
    ensures Seqs.IsSubsequence(Matching(table, keyword), table)
    decreases |table|
  {
    if table != [] {
      var init := table[..|table| - 1];
      var last := table[|table| - 1];
      var kept := Matching(init, keyword);
      var keep := MatchesKeyword(last, keyword);
      MatchingIsSubsequence(init, keyword);
      Seqs.Extend(kept, init, last, keep);
      assert init + [last] == table;
      assert Matching(table, keyword) == kept + (if keep then [last] else []);
    }
  }

  /** The empty keyword occurs in every text, so it returns the whole table. */
  lemma {:induction false} EmptyKeywordMatchesAll(table: seq<Verse>)
    ensures Matching(table, "") == table
    decreases |table|
  {
    if table != [] {
      var init := table[..|table| - 1];
      EmptyKeywordMatchesAll(init);
      MatchesEmptyKeyword(table[|table| - 1]);
      assert table == init + [table[|table| - 1]];
    }
  }

  lemma MatchesEmptyKeyword(v: Verse)
    ensures MatchesKeyword(v, "")
  {
    assert Text.Lower("") == "";
    assert Text.StartsWith(Text.Lower(v.verse), "");
  }

  /** `search_verses`: appends the matching entries in a loop. */
  method SearchVerses(table: seq<Verse>, keyword: string) returns (matches: seq<Verse>)
    ensures matches == Matching(table, keyword)
  {
    matches := [];
    for i := 0 to |table|
      invariant matches == Matching(table[..i], keyword)
    {
      assert table[..i + 1][..i] == table[..i];
      if MatchesKeyword(table[i], keyword) {
        matches := matches + [table[i]];
      }
    }
    assert table[..|table|] == table;
  }

  /** The reference of `v` equals the cleaned query, ignoring case. */
  predicate ReferenceIs(v: Verse, cleaned: string) {
    Text.Lower(v.reference) == cleaned
  }

  /**
   * `get_verse_by_reference`: the first entry whose lower-cased reference
   * equals the stripped, lower-cased query, or None when there is none.
   */
  method GetVerseByReference(table: seq<Verse>, reference: string) returns (found: Option<Verse>)
    ensures found.None? <==> forall i :: 0 <= i < |table| ==> !ReferenceIs(table[i], Text.Lower(Text.Strip(reference)))
    ensures found.Some? ==> exists i :: (0 <= i < |table| && found.value == table[i]
      && ReferenceIs(table[i], Text.Lower(Text.Strip(reference)))
      && forall j :: 0 <= j < i ==> !ReferenceIs(table[j], Text.Lower(Text.Strip(reference))))
  {
    var cleaned := Text.Lower(Text.Strip(reference));
    for i := 0 to |table|
      invariant forall j :: 0 <= j < i ==> !ReferenceIs(table[j], cleaned)
    {
      if Text.Lower(table[i].reference) == cleaned {
        assert ReferenceIs(table[i], cleaned);
        return Some(table[i]);
      }
    }
    return None;
  }
}
